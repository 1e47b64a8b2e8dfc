/** Symbols and relocations of the kernel ELF file. Symbol values and section bytes are
    overwritten in place; the image is linked at virtual address 0, so every absolute
    field must be moved again by whoever loads the image elsewhere. */
module ElfRelocate {
  import opened Outcomes
  import opened Words
  import opened ElfLayout

  const STN_UNDEF: nat := 0
  const STN_ABS: nat := 65521

  datatype Symbol = Symbol(name: string, nameOffset: nat, shndx: nat, value: nat)

  datatype Error =
    | UndefinedSymbol(name: string)
    | NoSuchSection(index: nat)
    | UnknownRelocation(kind: nat)
    | CannotFixup32
    | TooManyFixups
    | NoStartSymbol
    | NoSymbolTable

  /** sizeof (Elf_Addr). */
  function AddressSize(m: Machine): nat { if m.I386? then 4 else 8 }

  // ----- relocate_symbols -----

  predicate Skipped(s: Symbol) { s.shndx == STN_ABS || (s.shndx == STN_UNDEF && s.nameOffset == 0) }

  predicate SectionDefined(s: Symbol, num: nat) { s.shndx != STN_ABS && s.shndx != STN_UNDEF && s.shndx < num }

  predicate Acceptable(s: Symbol, num: nat) { Skipped(s) || SectionDefined(s, num) }

  function WhyNot(s: Symbol): Error {
    if s.shndx == STN_UNDEF then UndefinedSymbol(s.name) else NoSuchSection(s.shndx)
  }

  function Located(s: Symbol, vaddrs: seq<nat>, m: Machine): Symbol {
    if SectionDefined(s, |vaddrs|) then s.(value := (s.value + vaddrs[s.shndx]) % Modulus(AddressSize(m))) else s
  }

  function LocateAll(syms: seq<Symbol>, vaddrs: seq<nat>, m: Machine): (r: seq<Symbol>)
    ensures |r| == |syms| && forall k :: 0 <= k < |syms| ==> r[k] == Located(syms[k], vaddrs, m)
  {
    seq(|syms|, k requires 0 <= k < |syms| => Located(syms[k], vaddrs, m))
  }

  predicate NamesStart(s: Symbol) { !Skipped(s) && (s.name == "_start" || s.name == "start") }

  /** The first nonzero value of a located start symbol, 0 when there is none. */
  function StartAddress(syms: seq<Symbol>): nat {
    if |syms| == 0 then 0
    else
      var before := StartAddress(syms[..|syms| - 1]);
      if before == 0 && NamesStart(syms[|syms| - 1]) then syms[|syms| - 1].value else before
  }

  // ----- the same in numbers -----

  /** An absolute symbol, a nameless null symbol, or one of a section that there is. */
  predicate Resolvable(s: Symbol, num: nat) {
    s.shndx == 65521 || (s.shndx == 0 && s.nameOffset == 0) || 0 < s.shndx < num
  }

  /** s with its value made an address: that of its section is added, in the width of the machine. */
  predicate Moved(before: Symbol, after: Symbol, vaddrs: seq<nat>, m: Machine) {
    && after.name == before.name && after.nameOffset == before.nameOffset && after.shndx == before.shndx
    && (before.shndx == 0 || before.shndx == 65521 ==> after.value == before.value)
    && (before.shndx != 0 && before.shndx != 65521 ==>
          && before.shndx < |vaddrs|
          && after.value == (before.value + vaddrs[before.shndx]) % if m.I386? then 0x1_0000_0000 else 0x1_0000_0000_0000_0000)
  }

  predicate IsEntry(s: Symbol) { s.shndx != 0 && s.shndx != 65521 && (s.name == "_start" || s.name == "start") }

  /** a is the first nonzero address of an entry symbol, and 0 when there is none. */
  predicate FirstEntry(a: nat, syms: seq<Symbol>) {
    && (a == 0 ==> forall k :: 0 <= k < |syms| && IsEntry(syms[k]) ==> syms[k].value == 0)
    && (a != 0 ==> exists k :: 0 <= k < |syms| && IsEntry(syms[k]) && syms[k].value == a
                     && forall j :: 0 <= j < k && IsEntry(syms[j]) ==> syms[j].value == 0)
  }

  lemma ResolvableExactly(s: Symbol, num: nat)
    ensures Resolvable(s, num) <==> Acceptable(s, num)
  {
  }

  lemma LocatedIsMoved(s: Symbol, vaddrs: seq<nat>, m: Machine)
    requires Acceptable(s, |vaddrs|)
    ensures Moved(s, Located(s, vaddrs, m), vaddrs, m)
  {
    assert Modulus(4) == 0x1_0000_0000 && Modulus(8) == 0x1_0000_0000 * Modulus(4);
  }

  lemma {:induction false} StartIsFirst(syms: seq<Symbol>)
    requires forall k :: 0 <= k < |syms| ==> syms[k].shndx == 0 ==> syms[k].nameOffset == 0
    ensures FirstEntry(StartAddress(syms), syms)
  {
    if |syms| > 0 {
      var front, last := syms[..|syms| - 1], syms[|syms| - 1];
      StartIsFirst(front);
      assert forall k :: 0 <= k < |front| ==> front[k] == syms[k];
      if StartAddress(front) != 0 {
        var k :| 0 <= k < |front| && IsEntry(front[k]) && front[k].value == StartAddress(front)
                 && forall j :: 0 <= j < k && IsEntry(front[j]) ==> front[j].value == 0;
        assert IsEntry(syms[k]) && syms[k].value == StartAddress(syms);
      } else if StartAddress(syms) != 0 {
        assert IsEntry(syms[|syms| - 1]) && last.value == StartAddress(syms);
      }
    }
  }

  /** Every symbol, and the entry among them. */
  lemma AllMoved(syms: seq<Symbol>, vaddrs: seq<nat>, m: Machine)
    requires forall k :: 0 <= k < |syms| ==> Acceptable(syms[k], |vaddrs|)
    ensures forall k :: 0 <= k < |syms| ==> Moved(syms[k], LocateAll(syms, vaddrs, m)[k], vaddrs, m)
    ensures FirstEntry(StartAddress(LocateAll(syms, vaddrs, m)), LocateAll(syms, vaddrs, m))
  {
    hide StartAddress, FirstEntry, Moved;
    forall k | 0 <= k < |syms|
      ensures Moved(syms[k], LocateAll(syms, vaddrs, m)[k], vaddrs, m)
    {
      LocatedIsMoved(syms[k], vaddrs, m);
    }
    StartIsFirst(LocateAll(syms, vaddrs, m));
  }

  method RelocateSymbols(symtab: array<Symbol>, vaddrs: seq<nat>, m: Machine) returns (r: Result<nat, Error>)
    modifies symtab
    ensures r.Ok? <==> forall k :: 0 <= k < symtab.Length ==> Acceptable(old(symtab[k]), |vaddrs|)
    ensures r.Ok? ==> symtab[..] == LocateAll(old(symtab[..]), vaddrs, m) && r.value == StartAddress(symtab[..])
    ensures r.Err? ==> exists k ::
              && 0 <= k < symtab.Length
              && !Acceptable(old(symtab[k]), |vaddrs|)
              && r.error == WhyNot(old(symtab[k]))
              && forall j :: 0 <= j < k ==> Acceptable(old(symtab[j]), |vaddrs|)
    ensures r.Ok? <==> forall k :: 0 <= k < symtab.Length ==> Resolvable(old(symtab[k]), |vaddrs|)
    ensures r.Ok? ==> forall k :: 0 <= k < symtab.Length ==> Moved(old(symtab[k]), symtab[k], vaddrs, m)
    ensures r.Ok? ==> FirstEntry(r.value, symtab[..])
    ensures r.Err? ==> exists k ::
              && 0 <= k < symtab.Length
              && !Resolvable(old(symtab[k]), |vaddrs|)
              && (r.error == if old(symtab[k]).shndx == 0 then UndefinedSymbol(old(symtab[k]).name) else NoSuchSection(old(symtab[k]).shndx))
              && forall j :: 0 <= j < k ==> Resolvable(old(symtab[j]), |vaddrs|)
  {
    hide Resolvable, Moved, FirstEntry;
    forall k | 0 <= k < symtab.Length
      ensures Resolvable(symtab[k], |vaddrs|) <==> Acceptable(symtab[k], |vaddrs|)
    {
      ResolvableExactly(symtab[k], |vaddrs|);
    }
    var start := 0;
    for i := 0 to symtab.Length
      invariant forall k :: 0 <= k < i ==> Acceptable(old(symtab[k]), |vaddrs|)
      invariant forall k :: 0 <= k < i ==> symtab[k] == Located(old(symtab[k]), vaddrs, m)
      invariant forall k :: i <= k < symtab.Length ==> symtab[k] == old(symtab[k])
      invariant start == StartAddress(symtab[..i])
    {
      ghost var before := symtab[..i];
      var s := symtab[i];
      if s.shndx == STN_ABS {
      } else if s.shndx == STN_UNDEF {
        if s.nameOffset != 0 {
          return Err(UndefinedSymbol(s.name));
        }
      } else if s.shndx >= |vaddrs| {
        return Err(NoSuchSection(s.shndx));
      } else {
        symtab[i] := s.(value := (s.value + vaddrs[s.shndx]) % Modulus(AddressSize(m)));
        if start == 0 && (s.name == "_start" || s.name == "start") {
          start := symtab[i].value;
        }
      }
      assert symtab[..i + 1][..i] == before;
    }
    assert symtab[..symtab.Length] == symtab[..];
    assert symtab[..] == LocateAll(old(symtab[..]), vaddrs, m);
    AllMoved(old(symtab[..]), vaddrs, m);
    return Ok(start);
  }

  // ----- relocate_addresses -----

  /** What a relocation number asks for: nothing, symbol plus field, or symbol plus field minus place. */
  datatype Action = Skip | Absolute(width: nat) | Relative(width: nat) | Unknown

  function Classify(m: Machine, kind: nat): Action {
    match m
    case I386 =>
      if kind == 0 then Skip
      else if kind == 1 then Absolute(4)
      else if kind == 2 then Relative(4)
      else Unknown
    case X86_64 =>
      if kind == 0 then Skip
      else if kind == 1 then Absolute(8)
      else if kind == 2 then Relative(4)
      else if kind == 10 || kind == 11 then Absolute(4)
      else Unknown
  }

  function Width(a: Action): nat {
    match a
    case Absolute(w) => w
    case Relative(w) => w
    case _ => 0
  }

  /** One relocation together with the section it patches. */
  datatype Site = Site(target: nat, reloc: Reloc, rela: bool)

  predicate IsRelocSection(s: Section) { s.shType == Rel || s.shType == Rela }

  function SitesOf(s: Section, n: nat): (r: seq<Site>)
    requires n <= |s.relocs|
    ensures |r| == n
  {
    if n == 0 then [] else SitesOf(s, n - 1) + [Site(s.info, s.relocs[n - 1], s.shType == Rela)]
  }

  /** All relocations of the first n sections, in the order both passes visit them. */
  function Sites(sections: seq<Section>, n: nat): seq<Site>
    requires n <= |sections|
  {
    if n == 0 then []
    else if IsRelocSection(sections[n - 1]) then
      Sites(sections, n - 1) + SitesOf(sections[n - 1], |sections[n - 1].relocs|)
    else
      Sites(sections, n - 1)
  }

  function AllSites(sections: seq<Section>): seq<Site> { Sites(sections, |sections|) }

  predicate SiteInBounds(site: Site, sections: seq<Section>, symCount: nat, fileSize: nat, m: Machine) {
    && site.target < |sections|
    && site.reloc.sym < symCount
    && sections[site.target].offset + site.reloc.offset + Width(Classify(m, site.reloc.kind)) <= fileSize
  }

  predicate InBounds(sites: seq<Site>, sections: seq<Section>, symCount: nat, fileSize: nat, m: Machine) {
    forall k :: 0 <= k < |sites| ==> SiteInBounds(sites[k], sections, symCount, fileSize, m)
  }

  /** Where in the file the patched field starts. */
  function FilePos(site: Site, sections: seq<Section>): nat
    requires site.target < |sections|
  {
    sections[site.target].offset + site.reloc.offset
  }

  /** What one relocation adds to its field. */
  function Delta(site: Site, syms: seq<Symbol>, addrs: seq<nat>, t: Target): int
    requires site.target < |addrs| && site.reloc.sym < |syms|
  {
    var a := (if site.rela then site.reloc.addend else 0) + syms[site.reloc.sym].value;
    if Classify(t.machine, site.reloc.kind).Relative? then a - addrs[site.target] - site.reloc.offset - t.vaddrOffset else a
  }

  function RelocateOne(f: seq<byte>, site: Site, sections: seq<Section>, syms: seq<Symbol>, addrs: seq<nat>, t: Target): (r: seq<byte>)
    requires |addrs| == |sections| && SiteInBounds(site, sections, |syms|, |f|, t.machine)
    ensures |r| == |f|
  {
    AddAt(f, FilePos(site, sections), Width(Classify(t.machine, site.reloc.kind)), Delta(site, syms, addrs, t))
  }

  function RelocateAll(f: seq<byte>, sites: seq<Site>, sections: seq<Section>, syms: seq<Symbol>, addrs: seq<nat>, t: Target): (r: seq<byte>)
    requires |addrs| == |sections| && InBounds(sites, sections, |syms|, |f|, t.machine)
    ensures |r| == |f|
  {
    if |sites| == 0 then f
    else
      var last := sites[|sites| - 1];
      RelocateOne(RelocateAll(f, sites[..|sites| - 1], sections, syms, addrs, t), last, sections, syms, addrs, t)
  }

  /** *target = *target + delta, in the width of the field. */
  method AddToField(img: array<byte>, pos: nat, w: nat, delta: int)
    requires pos + w <= img.Length
    modifies img
    ensures img[..] == AddAt(old(img[..]), pos, w, delta)
  {
    Store(img, pos, ToLE(FromLE(img[pos..pos + w]) + delta, w));
  }

  predicate Implemented(site: Site, m: Machine) { !Classify(m, site.reloc.kind).Unknown? }

  /** The switch over the relocation numbers, for one record. */
  method Patch(img: array<byte>, site: Site, sections: seq<Section>, syms: seq<Symbol>, addrs: seq<nat>, t: Target)
    returns (r: Result<(), Error>)
    requires |addrs| == |sections| && SiteInBounds(site, sections, |syms|, img.Length, t.machine)
    modifies img
    ensures r == if Implemented(site, t.machine) then Ok(()) else Err(UnknownRelocation(site.reloc.kind))
    ensures r.Ok? ==> img[..] == RelocateOne(old(img[..]), site, sections, syms, addrs, t)
  {
    var rel := site.reloc;
    var addend := if site.rela then rel.addend else 0;
    var symAddr := syms[rel.sym].value;
    var pos := sections[site.target].offset + rel.offset;
    match Classify(t.machine, rel.kind) {
      case Skip =>
        AddZero(img[..], pos, 0, Delta(site, syms, addrs, t));
      case Absolute(w) =>
        AddToField(img, pos, w, addend + symAddr);
      case Relative(w) =>
        AddToField(img, pos, w, addend + symAddr - addrs[site.target] - rel.offset - t.vaddrOffset);
      case Unknown =>
        return Err(UnknownRelocation(rel.kind));
    }
    return Ok(());
  }

  /** What the relocation pass has established once the records in done are processed. */
  ghost predicate Relocated(before: seq<byte>, now: seq<byte>, done: seq<Site>, sections: seq<Section>,
                            syms: seq<Symbol>, addrs: seq<nat>, t: Target)
    requires |addrs| == |sections|
  {
    && InBounds(done, sections, |syms|, |before|, t.machine)
    && (forall site :: site in done ==> Implemented(site, t.machine))
    && now == RelocateAll(before, done, sections, syms, addrs, t)
  }

  /** The relocation records of section i. */
  method RelocateSection(img: array<byte>, sections: seq<Section>, i: nat, syms: seq<Symbol>, addrs: seq<nat>, t: Target,
                         ghost before: seq<byte>)
    returns (r: Result<(), Error>)
    requires |addrs| == |sections| && InBounds(AllSites(sections), sections, |syms|, img.Length, t.machine)
    requires i < |sections| && IsRelocSection(sections[i]) && |before| == img.Length
    requires Relocated(before, img[..], Sites(sections, i), sections, syms, addrs, t)
    modifies img
    ensures r.Ok? ==> Relocated(before, img[..], Sites(sections, i + 1), sections, syms, addrs, t)
    ensures r.Err? ==> exists site ::
              && site in AllSites(sections)
              && !Implemented(site, t.machine)
              && r.error == UnknownRelocation(site.reloc.kind)
  {
    var s := sections[i];
    ghost var done := Sites(sections, i);
    for j := 0 to |s.relocs|
      invariant done == Sites(sections, i) + SitesOf(s, j)
      invariant Relocated(before, img[..], done, sections, syms, addrs, t)
    {
      var site := Site(s.info, s.relocs[j], s.shType == Rela);
      NextSite(sections, i, j, done);
      r := Patch(img, site, sections, syms, addrs, t);
      if r.Err? {
        return r;
      }
      assert (done + [site])[..|done|] == done;
      done := done + [site];
    }
    return Ok(());
  }

  method RelocateAddresses(img: array<byte>, sections: seq<Section>, syms: seq<Symbol>, addrs: seq<nat>, t: Target)
    returns (r: Result<(), Error>)
    requires |addrs| == |sections| && InBounds(AllSites(sections), sections, |syms|, img.Length, t.machine)
    modifies img
    ensures r.Ok? <==> forall site :: site in AllSites(sections) ==> Implemented(site, t.machine)
    ensures r.Ok? ==> img[..] == RelocateAll(old(img[..]), AllSites(sections), sections, syms, addrs, t)
    ensures r.Err? ==> exists site ::
              && site in AllSites(sections)
              && !Implemented(site, t.machine)
              && r.error == UnknownRelocation(site.reloc.kind)
  {
    ghost var before := img[..];
    for i := 0 to |sections|
      invariant Relocated(before, img[..], Sites(sections, i), sections, syms, addrs, t)
    {
      if IsRelocSection(sections[i]) {
        r := RelocateSection(img, sections, i, syms, addrs, t, before);
        if r.Err? {
          return r;
        }
      }
    }
    return Ok(());
  }

  /** The record at (i, j) is the next one of the flattened list. */
  lemma NextSite(sections: seq<Section>, i: nat, j: nat, done: seq<Site>)
    requires i < |sections| && IsRelocSection(sections[i]) && j < |sections[i].relocs|
    requires done == Sites(sections, i) + SitesOf(sections[i], j)
    ensures var s := sections[i];
            var more := done + [Site(s.info, s.relocs[j], s.shType == Rela)];
            && more == Sites(sections, i) + SitesOf(s, j + 1)
            && more <= AllSites(sections)
            && more[|done|] in AllSites(sections)
  {
    var s := sections[i];
    var site := Site(s.info, s.relocs[j], s.shType == Rela);
    SitesOfPrefix(s, j + 1, |s.relocs|);
    SitesPrefix(sections, i + 1, |sections|);
    var more := Sites(sections, i) + SitesOf(s, j + 1);
    assert more == done + [site];
    assert more <= Sites(sections, i + 1);
    assert AllSites(sections)[|done|] == site;
  }

  lemma AddZero(s: seq<byte>, pos: nat, w: nat, delta: int)
    requires pos + w <= |s|
    requires w == 0 || delta == 0
    ensures AddAt(s, pos, w, delta) == s
  {
    LEInverse(Field(s, pos, w));
  }

  lemma {:induction false} SitesOfPrefix(s: Section, i: nat, n: nat)
    requires i <= n <= |s.relocs|
    ensures SitesOf(s, i) <= SitesOf(s, n)
    decreases n
  {
    if i < n { SitesOfPrefix(s, i, n - 1); }
  }

  lemma {:induction false} SitesPrefix(sections: seq<Section>, i: nat, n: nat)
    requires i <= n <= |sections|
    ensures Sites(sections, i) <= Sites(sections, n)
    decreases n
  {
    if i < n { SitesPrefix(sections, i, n - 1); }
  }
}
