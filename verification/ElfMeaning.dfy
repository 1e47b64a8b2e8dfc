/** What a relocation means, in the terms of the processor supplements: chapter 4 of the System V ABI i386
    supplement and section 4.4.1 of the AMD64 psABI. */
module RelocationMeaning {
  import opened Words
  import opened ElfLayout
  import opened ElfRelocate

  /** The bytes a relocation number patches. */
  function FieldSize(m: Machine, kind: nat): nat {
    if m.I386? then
      if kind == 1 || kind == 2 then 4 else 0
    else
      if kind == 1 then 8 else if kind == 2 || kind == 10 || kind == 11 then 4 else 0
  }

  /** v0 before and v after; a is the addend and s the address of the symbol, place that of the field. */
  predicate Means(m: Machine, kind: nat, v0: int, v: int, a: int, s: int, place: int) {
    if m.I386? then
      && (kind == 1 ==> v == (v0 + a + s) % 0x1_0000_0000)
      && (kind == 2 ==> (v + place) % 0x1_0000_0000 == (v0 + a + s) % 0x1_0000_0000)
    else
      && (kind == 1 ==> v == (v0 + a + s) % 0x1_0000_0000_0000_0000)
      && (kind == 2 ==> (v + place) % 0x1_0000_0000 == (v0 + a + s) % 0x1_0000_0000)
      && (kind == 10 || kind == 11 ==> v == (v0 + a + s) % 0x1_0000_0000)
  }

  function AddendOf(site: Site): int { if site.rela then site.reloc.addend else 0 }

  /** The field at p of before, moved to q of after, has the value that its relocation asks for. */
  predicate FieldHolds(before: seq<byte>, p: nat, after: seq<byte>, q: nat, site: Site, s: int, place: int, m: Machine) {
    var w := FieldSize(m, site.reloc.kind);
    && p + w <= |before| && q + w <= |after|
    && Means(m, site.reloc.kind, FromLE(before[p..p + w]), FromLE(after[q..q + w]), AddendOf(site), s, place)
  }
}

/** What linking does, field by field, in the terms of the processor supplements: the value a relocated
    field ends up with, given its relocation's number, its addend, its symbol and its place. */
module ElfMeaning {
  import opened Outcomes
  import opened Words
  import opened ElfLayout
  import opened ElfRelocate
  import opened Rebase
  import opened RelocationMeaning

  /** No two fields share a byte of the file. */
  predicate Disjoint(sites: seq<Site>, sections: seq<Section>, m: Machine) {
    (forall k :: 0 <= k < |sites| ==> sites[k].target < |sections|) &&
    forall i, j :: 0 <= i < j < |sites| && FieldSize(m, sites[i].reloc.kind) > 0 && FieldSize(m, sites[j].reloc.kind) > 0 ==>
      Apart(sections[sites[i].target].offset + sites[i].reloc.offset, FieldSize(m, sites[i].reloc.kind),
            sections[sites[j].target].offset + sites[j].reloc.offset, FieldSize(m, sites[j].reloc.kind))
  }

  lemma FieldSizeIs(m: Machine, kind: nat)
    ensures FieldSize(m, kind) == Width(Classify(m, kind))
  {
  }

  /** Bytes that no field has are left alone. */
  lemma {:induction false} Untouched(f: seq<byte>, sites: seq<Site>, sections: seq<Section>, syms: seq<Symbol>, addrs: seq<nat>, t: Target, p: nat, w: nat)
    requires |addrs| == |sections| && InBounds(sites, sections, |syms|, |f|, t.machine) && p + w <= |f|
    requires forall k :: 0 <= k < |sites| && FieldSize(t.machine, sites[k].reloc.kind) > 0 ==>
               Apart(FilePos(sites[k], sections), FieldSize(t.machine, sites[k].reloc.kind), p, w)
    ensures RelocateAll(f, sites, sections, syms, addrs, t)[p..p + w] == f[p..p + w]
  {
    hide AddAt, Delta, Classify;
    if |sites| > 0 {
      var init, s := sites[..|sites| - 1], sites[|sites| - 1];
      Untouched(f, init, sections, syms, addrs, t, p, w);
      FieldSizeIs(t.machine, s.reloc.kind);
      AddElsewhere(RelocateAll(f, init, sections, syms, addrs, t), FilePos(s, sections), Width(Classify(t.machine, s.reloc.kind)),
                   Delta(s, syms, addrs, t), p, w);
    }
  }

  lemma AddElsewhere(f: seq<byte>, p: nat, w: nat, d: int, q: nat, v: nat)
    requires p + w <= |f| && q + v <= |f| && (w > 0 ==> Apart(p, w, q, v))
    ensures AddAt(f, p, w, d)[q..q + v] == f[q..q + v]
  {
    hide ToLE, FromLE;
    if w == 0 {
      AddZero(f, p, w, d);
    }
  }

  /** d was added to the w bytes at p. */
  predicate Gained(before: seq<byte>, after: seq<byte>, p: nat, w: nat, d: int) {
    && p + w <= |before| && p + w <= |after|
    && FromLE(after[p..p + w]) == (FromLE(before[p..p + w]) + d) % Modulus(w)
  }

  lemma GainedHere(f: seq<byte>, p: nat, w: nat, d: int)
    requires p + w <= |f|
    ensures Gained(f, AddAt(f, p, w, d), p, w, d)
  {
    hide FromLE, ToLE;
    FieldOfAddAt(f, p, w, d);
    LERoundTrip(FromLE(Field(f, p, w)) + d, w);
  }

  /** Only the bytes of the field matter. */
  lemma GainedAlike(f: seq<byte>, g: seq<byte>, f': seq<byte>, g': seq<byte>, p: nat, w: nat, d: int)
    requires Gained(f, g, p, w, d) && p + w <= |f'| && p + w <= |g'|
    requires f'[p..p + w] == f[p..p + w] && g'[p..p + w] == g[p..p + w]
    ensures Gained(f', g', p, w, d)
  {
  }

  /** The field of site k: what it held, and what was added to it, once. */
  lemma {:induction false} FieldGains(f: seq<byte>, sites: seq<Site>, sections: seq<Section>, syms: seq<Symbol>, addrs: seq<nat>, t: Target, k: nat)
    requires |addrs| == |sections| && InBounds(sites, sections, |syms|, |f|, t.machine) && k < |sites|
    requires Disjoint(sites, sections, t.machine) && FieldSize(t.machine, sites[k].reloc.kind) > 0
    ensures Gained(f, RelocateAll(f, sites, sections, syms, addrs, t), FilePos(sites[k], sections),
                   FieldSize(t.machine, sites[k].reloc.kind), Delta(sites[k], syms, addrs, t))
  {
    hide AddAt, Delta, Classify, Gained, FieldSize;
    var init, s := sites[..|sites| - 1], sites[|sites| - 1];
    var p, w := FilePos(sites[k], sections), FieldSize(t.machine, sites[k].reloc.kind);
    FieldSizeIs(t.machine, sites[k].reloc.kind);
    FieldSizeIs(t.machine, s.reloc.kind);
    var d := Delta(s, syms, addrs, t);
    var before, after := RelocateAll(f, init, sections, syms, addrs, t), RelocateAll(f, sites, sections, syms, addrs, t);
    if k == |sites| - 1 {
      Untouched(f, init, sections, syms, addrs, t, p, w);
      GainedHere(before, p, w, d);
      GainedAlike(before, after, f, after, p, w, d);
    } else {
      FieldGains(f, init, sections, syms, addrs, t, k);
      AddElsewhere(before, FilePos(s, sections), Width(Classify(t.machine, s.reloc.kind)), d, p, w);
      GainedAlike(f, before, f, after, p, w, Delta(sites[k], syms, addrs, t));
    }
  }

  lemma DeltaMeans(before: seq<byte>, after: seq<byte>, p: nat, site: Site, syms: seq<Symbol>, addrs: seq<nat>, t: Target)
    requires site.target < |addrs| && site.reloc.sym < |syms| && FieldSize(t.machine, site.reloc.kind) > 0
    requires Gained(before, after, p, FieldSize(t.machine, site.reloc.kind), Delta(site, syms, addrs, t))
    ensures FieldHolds(before, p, after, p, site, syms[site.reloc.sym].value, addrs[site.target] + site.reloc.offset + t.vaddrOffset, t.machine)
  {
    hide FromLE;
    WordModuli();
    var w := FieldSize(t.machine, site.reloc.kind);
    ModAdd(FromLE(before[p..p + w]) + Delta(site, syms, addrs, t), addrs[site.target] + site.reloc.offset + t.vaddrOffset, 0x1_0000_0000);
  }

  lemma NothingMeant(before: seq<byte>, after: seq<byte>, p: nat, site: Site, s: int, place: int, m: Machine)
    requires FieldSize(m, site.reloc.kind) == 0 && p <= |before| && p <= |after|
    ensures FieldHolds(before, p, after, p, site, s, place, m)
  {
  }

  /** after is what relocating makes of f. */
  predicate LinkedFrom(f: seq<byte>, after: seq<byte>, sites: seq<Site>, sections: seq<Section>, syms: seq<Symbol>, addrs: seq<nat>, t: Target)
    requires |addrs| == |sections| && InBounds(sites, sections, |syms|, |f|, t.machine)
  {
    after == RelocateAll(f, sites, sections, syms, addrs, t)
  }

  /** Linking, for every list of relocations whose fields share no byte. */
  lemma FieldLinked(f: seq<byte>, after: seq<byte>, sites: seq<Site>, sections: seq<Section>, syms: seq<Symbol>, addrs: seq<nat>, t: Target,
                    k: nat, p: nat)
    requires |addrs| == |sections| && InBounds(sites, sections, |syms|, |f|, t.machine) && k < |sites|
    requires Disjoint(sites, sections, t.machine) && LinkedFrom(f, after, sites, sections, syms, addrs, t)
    requires p == sections[sites[k].target].offset + sites[k].reloc.offset
    ensures FieldHolds(f, p, after, p, sites[k], syms[sites[k].reloc.sym].value,
                       addrs[sites[k].target] + sites[k].reloc.offset + t.vaddrOffset, t.machine)
  {
    hide *;
    SiteInFile(sites, sections, |syms|, |f|, t.machine, k);
    LinkedSize(f, after, sites, sections, syms, addrs, t);
    if FieldSize(t.machine, sites[k].reloc.kind) > 0 {
      FieldGainsAt(f, after, sites, sections, syms, addrs, t, k, p);
      DeltaMeans(f, after, p, sites[k], syms, addrs, t);
    } else {
      NothingMeant(f, after, p, sites[k], syms[sites[k].reloc.sym].value, addrs[sites[k].target] + sites[k].reloc.offset + t.vaddrOffset, t.machine);
    }
  }

  lemma LinkedSize(f: seq<byte>, after: seq<byte>, sites: seq<Site>, sections: seq<Section>, syms: seq<Symbol>, addrs: seq<nat>, t: Target)
    requires |addrs| == |sections| && InBounds(sites, sections, |syms|, |f|, t.machine) && LinkedFrom(f, after, sites, sections, syms, addrs, t)
    ensures |after| == |f|
  {
  }

  lemma FieldGainsAt(f: seq<byte>, after: seq<byte>, sites: seq<Site>, sections: seq<Section>, syms: seq<Symbol>, addrs: seq<nat>, t: Target,
                     k: nat, p: nat)
    requires |addrs| == |sections| && InBounds(sites, sections, |syms|, |f|, t.machine) && k < |sites|
    requires Disjoint(sites, sections, t.machine) && LinkedFrom(f, after, sites, sections, syms, addrs, t)
    requires p == sections[sites[k].target].offset + sites[k].reloc.offset && FieldSize(t.machine, sites[k].reloc.kind) > 0
    ensures Gained(f, after, p, FieldSize(t.machine, sites[k].reloc.kind), Delta(sites[k], syms, addrs, t))
  {
    hide Gained, FieldSize, Delta, RelocateAll;
    FieldGains(f, sites, sections, syms, addrs, t, k);
  }

  lemma SiteInFile(sites: seq<Site>, sections: seq<Section>, symCount: nat, size: nat, m: Machine, k: nat)
    requires InBounds(sites, sections, symCount, size, m) && k < |sites|
    ensures sites[k].target < |sections| && sites[k].reloc.sym < symCount
    ensures sections[sites[k].target].offset + sites[k].reloc.offset + FieldSize(m, sites[k].reloc.kind) <= size
  {
    FieldSizeIs(m, sites[k].reloc.kind);
  }
}
