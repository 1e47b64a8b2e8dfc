/** The object converter: sections of a PE/COFF object become ELF sections, its symbols an ELF symbol
    table, and its relocations ELF ones, with calls inside one section resolved in the image. */
module Pe2Elf {
  import opened Words
  import opened Outcomes

  const DIR32 := 0x6
  const REL32 := 0x14
  const R_386_32 := 1
  const R_386_PC32 := 2
  const FUNCTION := 0x20
  const EXTERNAL := 2
  const BSS := 4
  const MAX_REL_SECTIONS := 6

  datatype PeReloc = PeReloc(offset: nat, sym: nat, kind: nat)

  /** relocs is None for a section without a relocation table. */
  datatype PeSection = PeSection(name: string, virtualAddress: nat, rawOffset: nat, rawSize: nat, relocs: Option<seq<PeReloc>>)

  /** One slot of the symbol table; the auxCount slots after a symbol belong to it. */
  datatype PeSymbol = PeSymbol(name: string, value: nat, section: nat, kind: nat, storageClass: nat, auxCount: nat)

  datatype PeObject = PeObject(sections: seq<PeSection>, symbols: seq<PeSymbol>)

  datatype Header = Header(name: nat, size: nat)
  datatype SymbolKind = NoType | Function | Object | SectionSymbol
  datatype ElfSymbol = ElfSymbol(name: nat, shndx: nat, value: nat, global: bool, kind: SymbolKind)
  datatype ElfRel = ElfRel(offset: nat, sym: nat, kind: nat)

  /** A relocation section: its name, the PE section it comes from, the ELF section it patches. */
  datatype RelSection = RelSection(name: nat, link: nat, info: nat, entries: seq<ElfRel>)

  datatype ElfObject = ElfObject(headers: map<nat, Header>, contents: map<nat, seq<byte>>, rels: seq<RelSection>,
                                 symtab: seq<ElfSymbol>, strtab: string)

  datatype Fault = TooManySections | InvalidSymbol | UnknownType(kind: nat) | InvalidRelocation | CrossSection

  // ----- names -----

  function Stripped(name: string): string { if |name| > 0 && name[0] == '_' then name[1..] else name }

  /** The string of a string table that starts at this index. */
  function ReadString(tab: string, at: nat): string
    decreases |tab| - at
  {
    if at >= |tab| || tab[at] == '\0' then "" else [tab[at]] + ReadString(tab, at + 1)
  }

  predicate Names(tab: string, at: nat, s: string) {
    at + |s| < |tab| && tab[at..at + |s|] == s && tab[at + |s|] == '\0' && '\0' !in s
  }

  lemma {:induction false} NamesRead(tab: string, at: nat, s: string)
    requires Names(tab, at, s)
    ensures ReadString(tab, at) == s
    decreases |s|
  {
    if |s| > 0 {
      assert s[0] == tab[at..at + |s|][0] == tab[at];
      assert tab[at + 1..at + 1 + |s[1..]|] == s[1..];
      NamesRead(tab, at + 1, s[1..]);
    }
  }

  lemma NamesKept(tab: string, longer: string, at: nat, s: string)
    requires Names(tab, at, s) && tab <= longer
    ensures Names(longer, at, s)
  {
    assert forall k :: 0 <= k < |tab| ==> longer[k] == tab[k];
    assert longer[at..at + |s|] == tab[at..at + |s|];
  }

  /** Four characters into a name that starts with four other characters. */
  lemma NamesTail(tab: string, at: nat, prefix: string, s: string)
    requires Names(tab, at, prefix + s)
    ensures Names(tab, at + |prefix|, s)
  {
    var all := prefix + s;
    assert tab[at + |prefix|..at + |prefix| + |s|] == all[|prefix|..] == s;
    assert forall c :: c in s ==> c in all;
  }

  // ----- sections -----

  function SectionIndex(name: string): (idx: int)
    ensures idx == -1 || 1 <= idx <= 7
  {
    if name == ".text" then 1
    else if name == ".rdata" then 2
    else if name == ".data" then 3
    else if name == ".bss" then BSS
    else if name == ".modname" then 5
    else if name == ".moddeps" then 6
    else if name == ".module_license" then 7
    else -1
  }

  predicate Known(s: PeSection) { SectionIndex(s.name) != -1 }

  function Slice(image: seq<byte>, s: PeSection): seq<byte>
    requires s.rawOffset + s.rawSize <= |image|
  {
    image[s.rawOffset..s.rawOffset + s.rawSize]
  }

  /** Where a relocation of s sits in it; 32-bit arithmetic. */
  function Offset(s: PeSection, r: PeReloc): nat { (r.offset - s.virtualAddress) % 0x1_0000_0000 }

  /** The ELF index of every PE section number; number 0 is the undefined section of both. */
  function SectionMap(sections: seq<PeSection>): (m: seq<int>)
    ensures |m| == |sections| + 1
  {
    [0] + seq(|sections|, i requires 0 <= i < |sections| => SectionIndex(sections[i].name))
  }

  predicate HasRelocs(s: PeSection) { Known(s) && s.relocs.Some? }

  /** The relocation sections opened while the first n sections are written, oldest first. */
  function RelLinks(sections: seq<PeSection>, n: nat): (links: seq<nat>)
    requires n <= |sections|
    ensures forall k :: 0 <= k < |links| ==> links[k] < n && HasRelocs(sections[links[k]])
  {
    if n == 0 then [] else
      RelLinks(sections, n - 1) + if HasRelocs(sections[n - 1]) then [n - 1] else []
  }

  // ----- symbols -----

  /** A symbol with auxiliary slots that is not a function takes the name of its section. */
  predicate Sectional(s: PeSymbol) { s.kind != FUNCTION && s.auxCount > 0 }

  predicate Kept(s: PeSymbol, sections: seq<PeSection>) {
    && s.section <= |sections|
    && SectionMap(sections)[s.section] != -1
    && (Sectional(s) || s.storageClass == EXTERNAL || s.name == "_grub_mod_init" || s.name == "_grub_mod_fini")
  }

  function KindOf(s: PeSymbol): SymbolKind {
    if Sectional(s) && s.value == 0 then SectionSymbol
    else if s.section == 0 then NoType
    else if s.kind == FUNCTION then Function
    else Object
  }

  function ElfName(s: PeSymbol, sections: seq<PeSection>): string
    requires s.section <= |sections|
  {
    if !Sectional(s) then Stripped(s.name)
    else if s.section == 0 then ""
    else sections[s.section - 1].name
  }

  /** e is the ELF form of s: its section, value, binding and kind, and a string table entry with its name. */
  predicate Describes(e: ElfSymbol, s: PeSymbol, sections: seq<PeSection>, strtab: string) {
    && s.section <= |sections|
    && e.shndx == SectionMap(sections)[s.section]
    && e.value == s.value && e.global == (s.storageClass == EXTERNAL) && e.kind == KindOf(s)
    && Names(strtab, e.name, ElfName(s, sections))
  }

  /** The slots where symbols start, from this one on. */
  function Starts(symbols: seq<PeSymbol>, from: nat): (starts: set<nat>)
    ensures forall i :: i in starts ==> from <= i < |symbols|
    decreases |symbols| - from
  {
    if from >= |symbols| then {} else {from} + Starts(symbols, from + symbols[from].auxCount + 1)
  }

  predicate WellMapped(symMap: map<nat, int>, symtab: seq<ElfSymbol>) {
    forall i :: i in symMap ==> symMap[i] == -1 || 0 < symMap[i] < |symtab|
  }

  /** The symbol table says, for every symbol it has been asked about, what the PE one says. */
  predicate SymbolsTranslated(symMap: map<nat, int>, symtab: seq<ElfSymbol>, strtab: string, obj: PeObject) {
    && WellMapped(symMap, symtab)
    && forall i :: i in symMap ==>
         && i < |obj.symbols|
         && (symMap[i] == -1 <==> !Kept(obj.symbols[i], obj.sections))
         && (symMap[i] != -1 ==> Describes(symtab[symMap[i]], obj.symbols[i], obj.sections, strtab))
  }

  // ----- one section's relocations -----

  datatype Context = Context(sec: PeSection, target: nat, symCount: nat, symtab: seq<ElfSymbol>, symMap: map<nat, int>)

  /** The field of r lies in the image, and so does the byte before it. */
  predicate RelocInImage(c: Context, r: PeReloc, size: nat) {
    && 1 <= c.sec.rawOffset + Offset(c.sec, r)
    && c.sec.rawOffset + Offset(c.sec, r) + 4 <= size
    && (r.sym < c.symCount ==> r.sym in c.symMap)
    && WellMapped(c.symMap, c.symtab)
  }

  datatype Step = Step(image: seq<byte>, entries: seq<ElfRel>, modified: bool)

  /** The fault of one relocation, if any. */
  function FaultOf(c: Context, image: seq<byte>, r: PeReloc): Option<Fault>
    requires RelocInImage(c, r, |image|)
  {
    var pos := c.sec.rawOffset + Offset(c.sec, r);
    if r.sym >= c.symCount || c.symMap[r.sym] == -1 then Some(InvalidSymbol)
    else if r.kind != DIR32 && r.kind != REL32 then Some(UnknownType(r.kind))
    else if r.kind == DIR32 then None
    else if (image[pos - 1] != 0xe8 && image[pos - 1] != 0xe9) || FromLE(Field(image, pos, 4)) != 0 then Some(InvalidRelocation)
    else if c.symtab[c.symMap[r.sym]].shndx != 0 && c.symtab[c.symMap[r.sym]].shndx != c.target then Some(CrossSection)
    else None
  }

  predicate Sound(c: Context, image: seq<byte>, r: PeReloc) {
    RelocInImage(c, r, |image|) && FaultOf(c, image, r).None?
  }

  /** r names a symbol that the ELF table has. */
  predicate Mapped(c: Context, r: PeReloc) { r.sym in c.symMap && 0 <= c.symMap[r.sym] < |c.symtab| }

  /** A call inside the section. */
  predicate Local(c: Context, r: PeReloc)
    requires Mapped(c, r)
  {
    r.kind == REL32 && c.symtab[c.symMap[r.sym]].shndx != 0
  }

  /** What the image's field gains. */
  function Patch(c: Context, r: PeReloc): int
    requires Mapped(c, r)
  {
    if r.kind == DIR32 then 0
    else if Local(c, r) then c.symtab[c.symMap[r.sym]].value - Offset(c.sec, r) - 4
    else -4
  }

  /** What the linker is still told; nothing for a call resolved here. */
  function Entry(c: Context, r: PeReloc): seq<ElfRel>
    requires Mapped(c, r)
  {
    if Local(c, r) then [] else
      [ElfRel(Offset(c.sec, r), c.symMap[r.sym], if r.kind == DIR32 then R_386_32 else R_386_PC32)]
  }

  /** The relocations up to the first fault, applied to the image and collected for the linker. */
  function Translate(c: Context, image: seq<byte>, relocs: seq<PeReloc>): (res: Result<Step, Fault>)
    requires forall i :: 0 <= i < |relocs| ==> RelocInImage(c, relocs[i], |image|)
    ensures res.Ok? ==> |res.value.image| == |image|
  {
    if |relocs| == 0 then Ok(Step(image, [], false))
    else
      var before := Translate(c, image, relocs[..|relocs| - 1]);
      if before.Err? then before
      else Advance(c, before.value, relocs[|relocs| - 1])
  }

  function Advance(c: Context, before: Step, r: PeReloc): (res: Result<Step, Fault>)
    requires RelocInImage(c, r, |before.image|)
    ensures res.Ok? ==> |res.value.image| == |before.image|
  {
    var fault := FaultOf(c, before.image, r);
    if fault.Some? then Err(fault.value)
    else Ok(Step(AddAt(before.image, c.sec.rawOffset + Offset(c.sec, r), 4, Patch(c, r)),
                 before.entries + Entry(c, r), before.modified || r.kind == REL32))
  }

  lemma AddNothing(s: seq<byte>, pos: nat)
    requires pos + 4 <= |s|
    ensures AddAt(s, pos, 4, 0) == s
  {
    LEInverse(Field(s, pos, 4));
  }

  /** The loop of write_reloc_section over one section. */
  method TranslateSection(image: array<byte>, c: Context, relocs: seq<PeReloc>)
    returns (outcome: Result<seq<ElfRel>, Fault>, modified: bool)
    requires forall i :: 0 <= i < |relocs| ==> RelocInImage(c, relocs[i], image.Length)
    modifies image
    ensures var res := Translate(c, old(image[..]), relocs);
            && (outcome.Err? <==> res.Err?)
            && (res.Err? ==> outcome.error == res.error)
            && (res.Ok? ==> res.value == Step(image[..], outcome.value, modified))
  {
    var entries: seq<ElfRel> := [];
    modified := false;
    var j := 0;
    assert relocs[..0] == [];
    while j < |relocs|
      invariant 0 <= j <= |relocs|
      invariant Translate(c, old(image[..]), relocs[..j]) == Ok(Step(image[..], entries, modified))
    {
      var fault, entry := TranslateReloc(image, c, relocs[j], entries, modified);
      PrefixStep(c, old(image[..]), relocs, j);
      if fault.Some? {
        PrefixFault(c, old(image[..]), relocs, j + 1);
        return Err(fault.value), modified;
      }
      entries := entries + entry;
      modified := modified || relocs[j].kind == REL32;
      j := j + 1;
    }
    assert relocs[..j] == relocs;
    outcome := Ok(entries);
  }

  lemma PrefixStep(c: Context, image: seq<byte>, relocs: seq<PeReloc>, j: nat)
    requires j < |relocs| && forall i :: 0 <= i < |relocs| ==> RelocInImage(c, relocs[i], |image|)
    requires Translate(c, image, relocs[..j]).Ok?
    ensures Translate(c, image, relocs[..j + 1]) == Advance(c, Translate(c, image, relocs[..j]).value, relocs[j])
  {
    hide Advance, RelocInImage;
    assert relocs[..j + 1][..j] == relocs[..j];
  }

  lemma {:induction false} PrefixFault(c: Context, image: seq<byte>, relocs: seq<PeReloc>, j: nat)
    requires j <= |relocs| && forall i :: 0 <= i < |relocs| ==> RelocInImage(c, relocs[i], |image|)
    requires Translate(c, image, relocs[..j]).Err?
    ensures Translate(c, image, relocs) == Translate(c, image, relocs[..j])
    decreases |relocs| - j
  {
    hide Advance, RelocInImage;
    if j == |relocs| {
      assert relocs[..j] == relocs;
    } else {
      assert relocs[..j + 1][..j] == relocs[..j];
      PrefixFault(c, image, relocs, j + 1);
    }
  }

  /** One turn of the loop: the checks, then the field overwritten in place. */
  method TranslateReloc(image: array<byte>, c: Context, r: PeReloc, ghost entries: seq<ElfRel>, ghost modified: bool)
    returns (fault: Option<Fault>, entry: seq<ElfRel>)
    requires RelocInImage(c, r, image.Length)
    modifies image
    ensures var res := Advance(c, Step(old(image[..]), entries, modified), r);
            && (fault.Some? ==> res == Err(fault.value))
            && (fault.None? ==> res == Ok(Step(image[..], entries + entry, modified || r.kind == REL32)))
  {
    hide AddAt, FromLE, ToLE;
    entry := [];
    if r.sym >= c.symCount || c.symMap[r.sym] == -1 {
      return Some(InvalidSymbol), [];
    }
    var e := c.symtab[c.symMap[r.sym]];
    var ofs := Offset(c.sec, r);
    var pos := c.sec.rawOffset + ofs;
    if r.kind == DIR32 {
      AddNothing(image[..], pos);
      return None, [ElfRel(ofs, c.symMap[r.sym], R_386_32)];
    } else if r.kind != REL32 {
      return Some(UnknownType(r.kind)), [];
    }
    if (image[pos - 1] != 0xe8 && image[pos - 1] != 0xe9) || FromLE(image[pos..pos + 4]) != 0 {
      return Some(InvalidRelocation), [];
    }
    if e.shndx != 0 {
      if e.shndx != c.target {
        return Some(CrossSection), [];
      }
      Store(image, pos, e.value - ofs - 4);
      return None, [];
    }
    Store(image, pos, -4);
    return None, [ElfRel(ofs, c.symMap[r.sym], R_386_PC32)];
  }

  /** Write a 32-bit word over a zero field. */
  method Store(image: array<byte>, pos: nat, value: int)
    requires pos + 4 <= image.Length && FromLE(image[pos..pos + 4]) == 0
    modifies image
    ensures image[..] == AddAt(old(image[..]), pos, 4, value)
  {
    hide FromLE, ToLE;
    var word := ToLE(value, 4);
    assert image[pos..pos + 4] == Field(image[..], pos, 4);
    image[pos], image[pos + 1], image[pos + 2], image[pos + 3] := word[0], word[1], word[2], word[3];
    assert image[..] == Splice(old(image[..]), pos, word);
  }
}
