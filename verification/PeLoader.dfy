/** The loader's side of the bargain. The emitted image stands in memory as its header followed by
    the linked kernel; the loader reads the fixup table and adds its base at each fixup. */
module PeLoader {
  import opened Outcomes
  import opened Words
  import opened ElfLayout
  import opened ElfRelocate
  import opened FixupTable
  import opened Rebase
  import opened LoadImage

  /** The width a base relocation patches: HIGHLOW is 4 bytes, DIR64 is 8. */
  function FixupWidth(kind: nat): nat { if kind == 3 then 4 else if kind == 10 then 8 else 0 }

  predicate FixupsInside(fixups: seq<Fixup>, size: nat) {
    forall k :: 0 <= k < |fixups| ==> fixups[k].addr + FixupWidth(fixups[k].kind) <= size
  }

  function ApplyFixups(mem: seq<byte>, fixups: seq<Fixup>, base: nat): (r: seq<byte>)
    requires FixupsInside(fixups, |mem|)
    ensures |r| == |mem|
  {
    if |fixups| == 0 then mem
    else
      var f := fixups[|fixups| - 1];
      AddAt(ApplyFixups(mem, fixups[..|fixups| - 1], base), f.addr, FixupWidth(f.kind), base)
  }

  // ----- what the theorem asks of the object file -----

  /** The field lies inside an allocated section that has bytes in the file. */
  predicate HitsSection(site: Site, sections: seq<Section>, m: Machine) {
    && site.target < |sections|
    && HasFileBytes(sections[site.target])
    && site.reloc.offset + Width(Classify(m, site.reloc.kind)) <= sections[site.target].size
  }

  predicate HitSections(sites: seq<Site>, sections: seq<Section>, m: Machine) {
    forall k :: 0 <= k < |sites| && Width(Classify(m, sites[k].reloc.kind)) > 0 ==> HitsSection(sites[k], sections, m)
  }

  /** Sections do not overlap in the file either. */
  predicate FileRangesApart(sections: seq<Section>) {
    forall i, j :: 0 <= i < j < |sections| && HasFileBytes(sections[i]) && HasFileBytes(sections[j]) ==>
      Apart(sections[i].offset, sections[i].size, sections[j].offset, sections[j].size)
  }

  // ----- one field, in the file and in the image -----

  lemma AddBehindHeader(header: seq<byte>, s: seq<byte>, pos: nat, w: nat, d: int)
    requires pos + w <= |s|
    ensures AddAt(header + s, |header| + pos, w, d) == header + AddAt(s, pos, w, d)
  {
    assert Field(header + s, |header| + pos, w) == Field(s, pos, w);
  }

  /** Patching inside a run of bytes is patching that run. */
  lemma AddInside(s: seq<byte>, pos: nat, n: nat, o: nat, w: nat, d: int)
    requires pos + n <= |s| && o + w <= n
    ensures Field(AddAt(s, pos + o, w, d), pos, n) == AddAt(Field(s, pos, n), o, w, d)
  {
    var run := Field(s, pos, n);
    forall k | 0 <= k < w
      ensures Field(s, pos + o, w)[k] == Field(run, o, w)[k]
    {
      assert run[o + k] == s[pos + (o + k)];
    }
    assert Field(s, pos + o, w) == Field(run, o, w);
  }

  lemma OutsideUntouched(s: seq<byte>, pos: nat, w: nat, d: int, q: nat, n: nat)
    requires pos + w <= |s| && q + n <= |s|
    requires pos + w <= q || q + n <= pos
    ensures Field(AddAt(s, pos, w, d), q, n) == Field(s, q, n)
  {
  }

  lemma OtherSectionKeepsBytes(f: seq<byte>, sections: seq<Section>, i: nat, o: nat, w: nat, d: int, j: nat)
    requires InFile(f, sections) && FileRangesApart(sections)
    requires i < |sections| && HasFileBytes(sections[i]) && o + w <= sections[i].size
    requires j < |sections| && sections[j].alloc && j != i
    ensures SectionBytes(AddAt(f, sections[i].offset + o, w, d), sections[j]) == SectionBytes(f, sections[j])
  {
    if HasFileBytes(sections[j]) {
      assert Apart(sections[i].offset, sections[i].size, sections[j].offset, sections[j].size);
      OutsideUntouched(f, sections[i].offset + o, w, d, sections[j].offset, sections[j].size);
    }
  }

  lemma PatchedElsewhere(init: seq<byte>, f: seq<byte>, sections: seq<Section>, addrs: seq<nat>, i: nat, o: nat, w: nat, d: int, x: nat)
    requires InFile(f, sections) && Fits(sections, addrs, |init|) && PairwiseApart(sections, addrs)
    requires FileRangesApart(sections)
    requires i < |sections| && HasFileBytes(sections[i]) && o + w <= sections[i].size && x < |init|
    requires !Covers(sections[i], addrs[i], x)
    ensures CopyAll(init, AddAt(f, sections[i].offset + o, w, d), sections, addrs, |sections|)[x]
              == CopyAll(init, f, sections, addrs, |sections|)[x]
  {
    hide CopyAll, SectionBytes, AddAt;
    CopiedByte(init, f, sections, addrs, |sections|, x);
    CopiedByte(init, AddAt(f, sections[i].offset + o, w, d), sections, addrs, |sections|, x);
    if j :| 0 <= j < |sections| && Covers(sections[j], addrs[j], x) {
      OtherSectionKeepsBytes(f, sections, i, o, w, d, j);
    }
  }

  /** Patching a section's bytes in the file and then copying is copying and then patching the image. */
  lemma PatchThenCopy(init: seq<byte>, f: seq<byte>, sections: seq<Section>, addrs: seq<nat>, i: nat, o: nat, w: nat, d: int)
    requires InFile(f, sections) && Fits(sections, addrs, |init|) && PairwiseApart(sections, addrs)
    requires FileRangesApart(sections)
    requires i < |sections| && HasFileBytes(sections[i]) && o + w <= sections[i].size
    ensures CopyAll(init, AddAt(f, sections[i].offset + o, w, d), sections, addrs, |sections|)
              == AddAt(CopyAll(init, f, sections, addrs, |sections|), addrs[i] + o, w, d)
  {
    var s, a := sections[i], addrs[i];
    var f' := AddAt(f, s.offset + o, w, d);
    var c, c' := CopyAll(init, f, sections, addrs, |sections|), CopyAll(init, f', sections, addrs, |sections|);
    hide CopyAll, AddAt;
    SectionStands(init, f, sections, addrs, i);
    SectionStands(init, f', sections, addrs, i);
    AddInside(f, s.offset, s.size, o, w, d);
    AddInside(c, a, s.size, o, w, d);
    var r := AddAt(c, a + o, w, d);
    assert Field(c', a, s.size) == Field(r, a, s.size);
    forall x | 0 <= x < |init|
      ensures c'[x] == r[x]
    {
      if Covers(s, a, x) {
        assert Field(c', a, s.size)[x - a] == Field(r, a, s.size)[x - a];
      } else {
        PatchedElsewhere(init, f, sections, addrs, i, o, w, d, x);
      }
    }
  }

  // ----- the two passes agree on what is absolute -----

  /** Among relocations both passes accept, exactly the absolute ones get a fixup, of their own width. */
  lemma FixupForAbsoluteOnly(site: Site, m: Machine)
    requires Implemented(site, m) && !Refused(site, m)
    ensures var a := Classify(m, site.reloc.kind);
            && (FixupKind(m, site.reloc.kind).Some? <==> a.Absolute?)
            && (a.Absolute? ==> FixupWidth(FixupKind(m, site.reloc.kind).value) == Width(a))
  {
  }

  predicate BothAccept(sites: seq<Site>, m: Machine) {
    forall k :: 0 <= k < |sites| ==> Implemented(sites[k], m) && !Refused(sites[k], m)
  }

  /** Everything known about where sections and fields lie. */
  predicate Placed(f: seq<byte>, bufferSize: nat, sections: seq<Section>, addrs: seq<nat>) {
    && InFile(f, sections) && Fits(sections, addrs, bufferSize)
    && PairwiseApart(sections, addrs) && FileRangesApart(sections)
  }

  function MoveFixups(fixups: seq<Fixup>, d: nat): (r: seq<Fixup>)
    ensures |r| == |fixups|
  {
    seq(|fixups|, i requires 0 <= i < |fixups| => Fixup(fixups[i].kind, fixups[i].addr + d))
  }

  /** The fixup of an absolute field is that field's place in the image, header included. */
  lemma FixupIsPlace(site: Site, sections: seq<Section>, addrs: seq<nat>, vo: nat, bufferSize: nat, m: Machine)
    requires |addrs| == |sections| && Fits(sections, addrs, bufferSize)
    requires HitsSection(site, sections, m) && Classify(m, site.reloc.kind).Absolute?
    requires vo + bufferSize <= RVA_MODULUS
    ensures FixupAt(site, Shift(addrs, vo), m) == vo + (addrs[site.target] + site.reloc.offset)
    ensures FixupAt(site, addrs, m) == addrs[site.target] + site.reloc.offset
    ensures addrs[site.target] + site.reloc.offset + Width(Classify(m, site.reloc.kind)) <= bufferSize
  {
    WordModuli();
  }

  /** The fixups with the header in front are the image's own fixups, moved behind it. */
  lemma {:induction false} FixupsBehindHeader(sites: seq<Site>, sections: seq<Section>, addrs: seq<nat>, vo: nat, bufferSize: nat, m: Machine)
    requires |addrs| == |sections| && Fits(sections, addrs, bufferSize) && vo + bufferSize <= RVA_MODULUS
    requires TargetsKnown(sites, |sections|) && BothAccept(sites, m) && HitSections(sites, sections, m)
    ensures FixupsOf(sites, Shift(addrs, vo), m) == MoveFixups(FixupsOf(sites, addrs, m), vo)
    ensures FixupsInside(FixupsOf(sites, addrs, m), bufferSize)
    ensures forall f :: f in FixupsOf(sites, addrs, m) ==> FixupWidth(f.kind) > 0
  {
    hide FixupsOf, FixupAt, FixupKind;
    if |sites| == 0 {
      NoFixups([], addrs, m, 0);
      NoFixups([], Shift(addrs, vo), m, 0);
    } else {
      var init, s := sites[..|sites| - 1], sites[|sites| - 1];
      FixupsBehindHeader(init, sections, addrs, vo, bufferSize, m);
      FixupForAbsoluteOnly(s, m);
      FixupsSnoc(sites, addrs, m);
      FixupsSnoc(sites, Shift(addrs, vo), m);
      if Classify(m, s.reloc.kind).Absolute? {
        FixupIsPlace(s, sections, addrs, vo, bufferSize, m);
        MoveSnoc(FixupsOf(init, addrs, m), Fixup(FixupKind(m, s.reloc.kind).value, FixupAt(s, addrs, m)), vo);
      }
    }
  }

  lemma MoveSnoc(before: seq<Fixup>, f: Fixup, d: nat)
    ensures MoveFixups(before + [f], d) == MoveFixups(before, d) + [Fixup(f.kind, f.addr + d)]
  {
  }

  lemma ApplyNone(mem: seq<byte>, base: nat)
    ensures ApplyFixups(mem, [], base) == mem
  {
  }

  lemma ApplySnoc(mem: seq<byte>, before: seq<Fixup>, f: Fixup, base: nat)
    requires FixupsInside(before, |mem|) && f.addr + FixupWidth(f.kind) <= |mem|
    ensures FixupsInside(before + [f], |mem|)
    ensures ApplyFixups(mem, before + [f], base) == AddAt(ApplyFixups(mem, before, base), f.addr, FixupWidth(f.kind), base)
  {
    assert (before + [f])[..|before|] == before;
  }

  lemma {:induction false} ApplyBehindHeader(header: seq<byte>, img: seq<byte>, fixups: seq<Fixup>, base: nat)
    requires FixupsInside(fixups, |img|)
    ensures FixupsInside(MoveFixups(fixups, |header|), |header| + |img|)
    ensures ApplyFixups(header + img, MoveFixups(fixups, |header|), base) == header + ApplyFixups(img, fixups, base)
  {
    hide AddAt, ApplyFixups;
    ApplyNone(header + img, base);
    ApplyNone(img, base);
    if |fixups| > 0 {
      var init, f := fixups[..|fixups| - 1], fixups[|fixups| - 1];
      ApplyBehindHeader(header, img, init, base);
      var moved := Fixup(f.kind, f.addr + |header|);
      assert fixups == init + [f];
      MoveSnoc(init, f, |header|);
      ApplySnoc(header + img, MoveFixups(init, |header|), moved, base);
      ApplySnoc(img, init, f, base);
      AddBehindHeader(header, ApplyFixups(img, init, base), f.addr, FixupWidth(f.kind), base);
    }
  }

  /** The last record's fixup, if it needs one. */
  lemma FixupsSnoc(sites: seq<Site>, addrs: seq<nat>, m: Machine)
    requires |sites| > 0 && TargetsKnown(sites, |addrs|)
    requires Implemented(sites[|sites| - 1], m) && !Refused(sites[|sites| - 1], m)
    ensures var init, s := sites[..|sites| - 1], sites[|sites| - 1];
            && TargetsKnown(init, |addrs|)
            && if Classify(m, s.reloc.kind).Absolute?
               then FixupsOf(sites, addrs, m) == FixupsOf(init, addrs, m) + [Fixup(FixupKind(m, s.reloc.kind).value, FixupAt(s, addrs, m))]
               else FixupsOf(sites, addrs, m) == FixupsOf(init, addrs, m)
  {
    FixupForAbsoluteOnly(sites[|sites| - 1], m);
  }

  /** The loader's additions in the image are the rebasing additions in the file, seen through the copy. */
  lemma {:induction false} LoaderFollowsFile(buffer: seq<byte>, f: seq<byte>, sites: seq<Site>,
                                             sections: seq<Section>, addrs: seq<nat>, m: Machine, base: nat, symCount: nat)
    requires Placed(f, |buffer|, sections, addrs) && |buffer| <= RVA_MODULUS
    requires InBounds(sites, sections, symCount, |f|, m) && BothAccept(sites, m) && HitSections(sites, sections, m)
    ensures FixupsInside(FixupsOf(sites, addrs, m), |buffer|)
    ensures ApplyFixups(CopyAll(buffer, f, sections, addrs, |sections|), FixupsOf(sites, addrs, m), base)
              == CopyAll(buffer, RebaseSites(f, sites, sections, m, base, symCount), sections, addrs, |sections|)
  {
    hide AddAt, CopyAll, ApplyFixups, FixupsOf;
    FixupsBehindHeader(sites, sections, addrs, 0, |buffer|, m);
    if |sites| == 0 {
      NoFixups(CopyAll(buffer, f, sections, addrs, |sections|), addrs, m, base);
    } else {
      var init, s := sites[..|sites| - 1], sites[|sites| - 1];
      var a := Classify(m, s.reloc.kind);
      LoaderFollowsFile(buffer, f, init, sections, addrs, m, base, symCount);
      FixupsSnoc(sites, addrs, m);
      var g := RebaseSites(f, init, sections, m, base, symCount);
      if a.Absolute? {
        FixupForAbsoluteOnly(s, m);
        FixupIsPlace(s, sections, addrs, 0, |buffer|, m);
        PatchThenCopy(buffer, g, sections, addrs, s.target, s.reloc.offset, Width(a), base);
        ApplySnoc(CopyAll(buffer, f, sections, addrs, |sections|), FixupsOf(init, addrs, m),
                  Fixup(FixupKind(m, s.reloc.kind).value, FixupAt(s, addrs, m)), base);
      } else {
        AddZero(g, FilePos(s, sections), Width(a), Owed(a, base));
      }
    }
  }

  lemma NoFixups(mem: seq<byte>, addrs: seq<nat>, m: Machine, base: nat)
    ensures FixupsOf([], addrs, m) == [] && ApplyFixups(mem, [], base) == mem
  {
  }

  /** What an object file must promise for its image to be movable. */
  predicate Movable(header: seq<byte>, buffer: seq<byte>, file: seq<byte>, sections: seq<Section>, syms: seq<Symbol>, t: Target) {
    var sites := AllSites(sections);
    && Readable(file, sections, |syms|, t)
    && SizeOfKernel(sections, t) <= |buffer|
    && |header| == t.vaddrOffset && |header| + |buffer| <= RVA_MODULUS
    && Rebasable(sites, sections, syms, |file|, t.machine)
    && HitSections(sites, sections, t.machine)
    && FileRangesApart(sections)
  }

  /** Meaning preservation, end to end. Take any movable object that load_image accepts, link it at 0,
      and let a loader decode the emitted table and add its base at every fixup: memory then holds,
      byte for byte, the image linked at that base. */
  lemma LoaderRebuildsImage(header: seq<byte>, buffer: seq<byte>, file: seq<byte>, sections: seq<Section>, syms: seq<Symbol>,
                            t: Target, reloc: seq<byte>, base: nat)
    requires Movable(header, buffer, file, sections, syms, t) && Accepted(sections, syms, t)
    requires Decode(reloc) == Some(Truncated(FixupsOf(AllSites(sections), VirtualAddresses(sections, t), t.machine)))
    ensures FixupsInside(Decode(reloc).value, |header| + |buffer|)
    ensures ApplyFixups(header + LinkedAt(buffer, file, sections, syms, t, 0), Decode(reloc).value, base)
              == header + LinkedAt(buffer, file, sections, syms, t, base)
  {
    var sites, addrs, m := AllSites(sections), Addresses(sections, t), t.machine;
    var vaddrs := VirtualAddresses(sections, t);
    var own := FixupsOf(sites, addrs, m);
    LayoutFitsAndApart(sections, t, addrs, |buffer|);
    assert BothAccept(sites, m);
    FixupsBehindHeader(sites, sections, addrs, t.vaddrOffset, |buffer|, m);
    FixupsBelow4G(own, |header|, |buffer|);
    ShiftByZero(addrs);
    ShiftByZero(vaddrs);
    RebasePreservesMeaning(file, sites, sections, syms, vaddrs, addrs, t, base);
    LoaderFollowsFile(buffer, RelocatedAt(file, sections, syms, t, 0), sites, sections, addrs, m, base, |syms|);
    ApplyBehindHeader(header, LinkedAt(buffer, file, sections, syms, t, 0), own, base);
  }

  lemma FixupsBelow4G(own: seq<Fixup>, header: nat, size: nat)
    requires FixupsInside(own, size) && header + size <= RVA_MODULUS
    requires forall f :: f in own ==> FixupWidth(f.kind) > 0
    ensures Truncated(MoveFixups(own, header)) == MoveFixups(own, header)
    ensures FixupsInside(MoveFixups(own, header), header + size)
  {
  }

  /** A field of a laid-out section lies below the end of the kernel. */
  lemma InReach(site: Site, sections: seq<Section>, t: Target)
    requires t.sectionAlign > 0 && t.vaddrOffset + SizeOfKernel(sections, t) <= RVA_MODULUS
    requires site.target < |sections| && Implemented(site, t.machine) && !Refused(site, t.machine)
    requires Width(Classify(t.machine, site.reloc.kind)) > 0 ==> HitsSection(site, sections, t.machine)
    ensures !OutOfReach(site, VirtualAddresses(sections, t), t.machine)
  {
    FixupForAbsoluteOnly(site, t.machine);
    if FixupKind(t.machine, site.reloc.kind).Some? {
      hide Address, SizeOfKernel, SizeOfText, FixupKind, Classify;
      LayoutFitsAndApart(sections, t, Addresses(sections, t), SizeOfKernel(sections, t));
    }
  }

  /** When header and kernel end within 4 GiB, the table says where every absolute field is. */
  lemma TableIsFaithfulBelow4G(sections: seq<Section>, t: Target)
    requires t.sectionAlign > 0 && t.vaddrOffset + SizeOfKernel(sections, t) <= RVA_MODULUS
    requires TargetsKnown(AllSites(sections), |sections|) && BothAccept(AllSites(sections), t.machine)
    requires HitSections(AllSites(sections), sections, t.machine)
    ensures var fixups := FixupsOf(AllSites(sections), VirtualAddresses(sections, t), t.machine);
            && Truncated(fixups) == TruePlaces(AllSites(sections), VirtualAddresses(sections, t), t.machine) == fixups
            && FixupsInside(fixups, t.vaddrOffset + SizeOfKernel(sections, t))
  {
    var sites, addrs, size := AllSites(sections), Addresses(sections, t), SizeOfKernel(sections, t);
    forall k | 0 <= k < |sites|
      ensures !OutOfReach(sites[k], VirtualAddresses(sections, t), t.machine)
    {
      InReach(sites[k], sections, t);
    }
    hide FixupsOf, SizeOfKernel, AllSites, BothAccept, HitSections, Addresses, FixupsInside, Truncated, TruePlaces, MoveFixups, Shift,
      OutOfReach;
    TableIsFaithfulExactly(sites, VirtualAddresses(sections, t), t.machine);
    LayoutFitsAndApart(sections, t, addrs, size);
    FixupsBehindHeader(sites, sections, addrs, t.vaddrOffset, size, t.machine);
    FixupsBelow4G(FixupsOf(sites, addrs, t.machine), t.vaddrOffset, size);
  }
}
