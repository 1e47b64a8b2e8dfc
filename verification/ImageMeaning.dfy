/** The linked image, field by field: in memory at any base, every relocated field has the value that its
    relocation asks for, given where its symbol and the field itself have ended up. */
module ImageMeaning {
  import opened Outcomes
  import opened Words
  import opened ElfLayout
  import opened ElfRelocate
  import opened Rebase
  import opened LoadImage
  import opened PeLoader
  import opened RelocationMeaning
  import opened ElfMeaning

  /** Where a symbol is once the image stands at base: an absolute or null symbol has its value, any other is
      that far into its section. */
  function SymbolAddress(s: Symbol, sections: seq<Section>, t: Target, base: nat): int
    requires t.sectionAlign > 0
    requires s.shndx != 0 && s.shndx != 65521 ==> s.shndx < |sections|
  {
    if s.shndx == 0 || s.shndx == 65521 then s.value
    else base + t.vaddrOffset + Address(sections, t, s.shndx) + s.value
  }

  /** Where a field is in the image, header included. */
  function PlaceInImage(site: Site, sections: seq<Section>, t: Target): nat
    requires t.sectionAlign > 0 && site.target < |sections|
  {
    t.vaddrOffset + Address(sections, t, site.target) + site.reloc.offset
  }

  // ----- one field -----

  lemma SameSymbol(m: Machine, kind: nat, v0: int, v: int, a: int, s: int, s': int, place: int)
    requires Means(m, kind, v0, v, a, s, place) && s == s' % Modulus(AddressSize(m))
    ensures Means(m, kind, v0, v, a, s', place)
  {
    WordModuli();
    NarrowAfterWide(s', m, kind);
    var w := FieldSize(m, kind);
    FieldSizeIs(m, kind);
    ModCongruent(s, s', v0 + a, Modulus(w));
  }

  lemma SymbolStands(s: Symbol, sections: seq<Section>, t: Target, base: nat)
    requires t.sectionAlign > 0 && Acceptable(s, |sections|)
    ensures s.shndx != 0 && s.shndx != 65521 ==> s.shndx < |sections|
    ensures var v := Located(s, Shift(VirtualAddresses(sections, t), base), t.machine).value;
            v == SymbolAddress(s, sections, t, base)
              || v == SymbolAddress(s, sections, t, base) % Modulus(AddressSize(t.machine))
  {
    hide Address;
  }

  lemma SymbolReplaced(before: seq<byte>, p: nat, after: seq<byte>, q: nat, site: Site, s: int, s': int, place: int, m: Machine)
    requires FieldHolds(before, p, after, q, site, s, place, m)
    requires s == s' || s == s' % Modulus(AddressSize(m))
    ensures FieldHolds(before, p, after, q, site, s', place, m)
  {
    hide Means, FromLE, FieldSize;
    var w := FieldSize(m, site.reloc.kind);
    if s != s' {
      SameSymbol(m, site.reloc.kind, FromLE(before[p..p + w]), FromLE(after[q..q + w]), AddendOf(site), s, s', place);
    }
  }

  lemma FieldMoved(before: seq<byte>, p: nat, after: seq<byte>, q: nat, mem: seq<byte>, r: nat, site: Site, s: int, place: int, m: Machine)
    requires FieldHolds(before, p, after, q, site, s, place, m)
    requires r + FieldSize(m, site.reloc.kind) <= |mem|
    requires mem[r..r + FieldSize(m, site.reloc.kind)] == after[q..q + FieldSize(m, site.reloc.kind)]
    ensures FieldHolds(before, p, mem, r, site, s, place, m)
  {
    hide Means, FromLE, FieldSize;
  }

  lemma SliceOfField(s: seq<byte>, a: nat, n: nat, o: nat, w: nat)
    requires a + n <= |s| && o + w <= n
    ensures s[a..a + n][o..o + w] == s[a + o..a + o + w]
  {
    var x, y := s[a..a + n][o..o + w], s[a + o..a + o + w];
    assert forall k :: 0 <= k < w ==> x[k] == s[a..a + n][o + k] == s[a + o + k] == y[k];
  }

  lemma FieldOfSection(image: seq<byte>, linked: seq<byte>, a: nat, s: Section, o: nat, w: nat)
    requires HasFileBytes(s) && s.offset + s.size <= |linked| && a + s.size <= |image| && o + w <= s.size
    requires image[a..a + s.size] == SectionBytes(linked, s)
    ensures image[a + o..a + o + w] == linked[s.offset + o..s.offset + o + w]
  {
    SliceOfField(image, a, s.size, o, w);
    SliceOfField(linked, s.offset, s.size, o, w);
  }

  lemma SectionStandsIn(image: seq<byte>, buffer: seq<byte>, file: seq<byte>, sections: seq<Section>, syms: seq<Symbol>, t: Target, base: nat, i: nat)
    requires Readable(file, sections, |syms|, t) && SizeOfKernel(sections, t) <= |buffer|
    requires image == LinkedAt(buffer, file, sections, syms, t, base)
    requires i < |sections| && HasFileBytes(sections[i])
    ensures Address(sections, t, i) + sections[i].size <= |image|
    ensures sections[i].offset + sections[i].size <= |RelocatedAt(file, sections, syms, t, base)|
    ensures image[Address(sections, t, i)..Address(sections, t, i) + sections[i].size]
         == SectionBytes(RelocatedAt(file, sections, syms, t, base), sections[i])
  {
    hide CopyAll, Address, SizeOfKernel, SectionBytes, RelocatedAt;
    SectionReadsBack(buffer, RelocatedAt(file, sections, syms, t, base), sections, t, Addresses(sections, t), i);
    FitsAt(sections, Addresses(sections, t), |buffer|, i);
  }

  lemma AlignIsPositive(t: Target)
    ensures PowerOfTwo(t.sectionAlign) ==> t.sectionAlign > 0
  {
  }

  /** The copy loop carries a field of a section to the section's place in the image. */
  lemma FieldCopied(image: seq<byte>, linked: seq<byte>, buffer: seq<byte>, file: seq<byte>, sections: seq<Section>, syms: seq<Symbol>, t: Target,
                    base: nat, site: Site, p: nat, q: nat, w: nat)
    requires Readable(file, sections, |syms|, t) && SizeOfKernel(sections, t) <= |buffer|
    requires image == LinkedAt(buffer, file, sections, syms, t, base) && linked == RelocatedAt(file, sections, syms, t, base)
    requires HitsSection(site, sections, t.machine) && w == FieldSize(t.machine, site.reloc.kind)
    requires p == sections[site.target].offset + site.reloc.offset && q == Address(sections, t, site.target) + site.reloc.offset
    ensures q + w <= |image| && p + w <= |linked| && image[q..q + w] == linked[p..p + w]
  {
    FieldSizeIs(t.machine, site.reloc.kind);
    hide RelocatedAt, LinkedAt, SizeOfKernel, Address, SectionBytes, FieldSize, Classify, InBounds, PowerOfTwo;
    AlignIsPositive(t);
    SectionStandsIn(image, buffer, file, sections, syms, t, base, site.target);
    FieldOfSection(image, linked, Address(sections, t, site.target), sections[site.target], site.reloc.offset, w);
  }

  lemma FitsAt(sections: seq<Section>, addrs: seq<nat>, n: nat, i: nat)
    requires Fits(sections, addrs, n) && i < |sections| && sections[i].alloc
    ensures |addrs| == |sections| && addrs[i] + sections[i].size <= n
  {
  }

  // ----- the whole image -----

  predicate AllAcceptable(syms: seq<Symbol>, num: nat) { forall k :: 0 <= k < |syms| ==> Acceptable(syms[k], num) }

  /** Every record of every relocation section: the field it names in mem means what the record says. */
  ghost predicate FieldsMean(mem: seq<byte>, file: seq<byte>, sections: seq<Section>, syms: seq<Symbol>, t: Target, base: nat)
    requires t.sectionAlign > 0
  {
    AllAcceptable(syms, |sections|) &&
    forall i, j :: 0 <= i < |sections| && (sections[i].shType == Rel || sections[i].shType == Rela) && 0 <= j < |sections[i].relocs|
                   && FieldSize(t.machine, sections[i].relocs[j].kind) > 0 ==>
      && sections[i].info < |sections| && sections[i].relocs[j].sym < |syms|
      && FieldMeans(mem, file, sections, syms, t, base, Site(sections[i].info, sections[i].relocs[j], sections[i].shType == Rela))
  }

  ghost predicate FieldMeans(mem: seq<byte>, file: seq<byte>, sections: seq<Section>, syms: seq<Symbol>, t: Target, base: nat, site: Site)
    requires t.sectionAlign > 0 && site.target < |sections| && site.reloc.sym < |syms| && AllAcceptable(syms, |sections|)
  {
    FieldHolds(file, sections[site.target].offset + site.reloc.offset, mem, PlaceInImage(site, sections, t), site,
               SymbolAddress(syms[site.reloc.sym], sections, t, base), base + PlaceInImage(site, sections, t), t.machine)
  }

  lemma FieldInImage(mem: seq<byte>, buffer: seq<byte>, file: seq<byte>, sections: seq<Section>, syms: seq<Symbol>, t: Target, base: nat, k: nat)
    requires Readable(file, sections, |syms|, t) && AllAcceptable(syms, |sections|) && SizeOfKernel(sections, t) <= |buffer|
    requires k < |AllSites(sections)| && Disjoint(AllSites(sections), sections, t.machine)
    requires HitsSection(AllSites(sections)[k], sections, t.machine)
    requires t.vaddrOffset + |buffer| <= |mem|
    requires mem[t.vaddrOffset..t.vaddrOffset + |buffer|] == LinkedAt(buffer, file, sections, syms, t, base)
    ensures FieldMeans(mem, file, sections, syms, t, base, AllSites(sections)[k])
  {
    hide AllSites, RelocateAll, CopyAll, Address, FieldHolds, FieldSize, SizeOfKernel, Disjoint, LinkedFrom, InFile, Located, SymbolAddress;
    var sites, site := AllSites(sections), AllSites(sections)[k];
    var symsB, addrsB := LocateAll(syms, Shift(VirtualAddresses(sections, t), base), t.machine), Shift(Addresses(sections, t), base);
    var linked := RelocatedAt(file, sections, syms, t, base);
    IsLinkedFrom(file, sections, syms, t, base);
    var p, q, w := sections[site.target].offset + site.reloc.offset, Address(sections, t, site.target) + site.reloc.offset,
                   FieldSize(t.machine, site.reloc.kind);
    FieldLinked(file, linked, sites, sections, symsB, addrsB, t, k, p);
    FieldCopied(mem[t.vaddrOffset..t.vaddrOffset + |buffer|], linked, buffer, file, sections, syms, t, base, site, p, q, w);
    SliceOfField(mem, t.vaddrOffset, |buffer|, q, w);
    FieldMoved(file, p, linked, p, mem, t.vaddrOffset + q, site, symsB[site.reloc.sym].value, addrsB[site.target] + site.reloc.offset + t.vaddrOffset, t.machine);
    SymbolStands(syms[site.reloc.sym], sections, t, base);
    SymbolReplaced(file, p, mem, t.vaddrOffset + q, site, symsB[site.reloc.sym].value, SymbolAddress(syms[site.reloc.sym], sections, t, base),
                   base + PlaceInImage(site, sections, t), t.machine);
  }

  lemma IsLinkedFrom(file: seq<byte>, sections: seq<Section>, syms: seq<Symbol>, t: Target, base: nat)
    requires Readable(file, sections, |syms|, t)
    ensures LinkedFrom(file, RelocatedAt(file, sections, syms, t, base), AllSites(sections), sections,
                       LocateAll(syms, Shift(VirtualAddresses(sections, t), base), t.machine), Shift(Addresses(sections, t), base), t)
  {
    hide RelocateAll, AllSites;
  }

  lemma HeaderThenImage(header: seq<byte>, image: seq<byte>, tail: seq<byte>)
    ensures (header + image + tail)[|header|..|header| + |image|] == image
  {
  }

  /** Linking means what the relocations say: in the image linked at base, behind a header and in front of
      whatever follows, every relocated field. */
  lemma ImageMeans(header: seq<byte>, image: seq<byte>, tail: seq<byte>, buffer: seq<byte>, file: seq<byte>, sections: seq<Section>,
                   syms: seq<Symbol>, t: Target, base: nat)
    requires Readable(file, sections, |syms|, t) && AllAcceptable(syms, |sections|) && SizeOfKernel(sections, t) <= |buffer|
    requires HitSections(AllSites(sections), sections, t.machine) && Disjoint(AllSites(sections), sections, t.machine)
    requires |header| == t.vaddrOffset && image == LinkedAt(buffer, file, sections, syms, t, base)
    ensures FieldsMean(header + image + tail, file, sections, syms, t, base)
  {
    hide LinkedAt, FieldSize, Disjoint, AllAcceptable, SizeOfKernel, AllSites, InFile, FieldMeans, Classify;
    var mem := header + image + tail;
    HeaderThenImage(header, image, tail);
    AlignIsPositive(t);
    forall i, j | 0 <= i < |sections| && (sections[i].shType == Rel || sections[i].shType == Rela) && 0 <= j < |sections[i].relocs|
                  && FieldSize(t.machine, sections[i].relocs[j].kind) > 0
      ensures sections[i].info < |sections| && sections[i].relocs[j].sym < |syms|
      ensures FieldMeans(mem, file, sections, syms, t, base, Site(sections[i].info, sections[i].relocs[j], sections[i].shType == Rela))
    {
      var k := SiteListed(sections, i, j);
      assert SiteInBounds(AllSites(sections)[k], sections, |syms|, |file|, t.machine);
      FieldSizeIs(t.machine, sections[i].relocs[j].kind);
      FieldInImage(mem, buffer, file, sections, syms, t, base, k);
    }
  }

  /** The list over which the passes are specified has every record of the object file. */
  lemma SiteListed(sections: seq<Section>, i: nat, j: nat) returns (k: nat)
    requires i < |sections| && (sections[i].shType == Rel || sections[i].shType == Rela) && j < |sections[i].relocs|
    ensures k < |AllSites(sections)|
    ensures AllSites(sections)[k] == Site(sections[i].info, sections[i].relocs[j], sections[i].shType == Rela)
  {
    hide Sites;
    var done := Sites(sections, i) + SitesOf(sections[i], j);
    NextSite(sections, i, j, done);
    var site := Site(sections[i].info, sections[i].relocs[j], sections[i].shType == Rela);
    k := |done|;
    assert (done + [site])[k] == site;
  }
}
