/** What a linker makes of an object, before and after conversion: for every placement of sections and
    external symbols, the ELF relocations over the patched image give the bytes that the PE
    relocations give over the original one. */
module ObjectLink {
  import opened Words
  import opened Outcomes
  import opened Pe2Elf

  /** Where the linker puts each ELF section, and each external name. */
  datatype World = World(base: nat -> int, address: string -> int)

  // ----- the ELF side: R_386_32 is S + A, R_386_PC32 is S + A - P -----

  function ElfTarget(e: ElfSymbol, strtab: string, w: World): int {
    if e.shndx == 0 then w.address(ReadString(strtab, e.name)) else w.base(e.shndx) + e.value
  }

  predicate EntriesFit(entries: seq<ElfRel>, symtab: seq<ElfSymbol>, size: nat) {
    forall k :: 0 <= k < |entries| ==> entries[k].offset + 4 <= size && entries[k].sym < |symtab|
  }

  function ElfGain(entry: ElfRel, symtab: seq<ElfSymbol>, strtab: string, at: int, w: World): int
    requires entry.sym < |symtab|
  {
    ElfTarget(symtab[entry.sym], strtab, w) - if entry.kind == R_386_PC32 then at + entry.offset else 0
  }

  function LinkElf(bytes: seq<byte>, entries: seq<ElfRel>, symtab: seq<ElfSymbol>, strtab: string, at: int, w: World): (r: seq<byte>)
    requires EntriesFit(entries, symtab, |bytes|)
    ensures |r| == |bytes|
  {
    if |entries| == 0 then bytes
    else
      var last := entries[|entries| - 1];
      AddAt(LinkElf(bytes, entries[..|entries| - 1], symtab, strtab, at, w), last.offset, 4, ElfGain(last, symtab, strtab, at, w))
  }

  // ----- the PE side: DIR32 is S + A, REL32 is S + A minus the address after the field -----

  function PeTarget(s: PeSymbol, sections: seq<PeSection>, w: World): int
    requires Kept(s, sections)
  {
    if s.section == 0 then w.address(if "_" <= s.name then s.name[1..] else s.name)
    else w.base(SectionIndex(sections[s.section - 1].name)) + s.value
  }

  /** The relocation names a symbol that the converter keeps, an undefined one by its own name, and its
      field lies in the section. */
  predicate Linkable(r: PeReloc, sec: PeSection, obj: PeObject) {
    && r.sym < |obj.symbols|
    && Kept(obj.symbols[r.sym], obj.sections)
    && (obj.symbols[r.sym].section == 0 ==> !Sectional(obj.symbols[r.sym]))
    && Offset(sec, r) + 4 <= sec.rawSize
  }

  predicate AllLinkable(relocs: seq<PeReloc>, sec: PeSection, obj: PeObject) {
    forall i :: 0 <= i < |relocs| ==> Linkable(relocs[i], sec, obj)
  }

  function PeGain(r: PeReloc, sec: PeSection, obj: PeObject, at: int, w: World): int
    requires Linkable(r, sec, obj)
  {
    PeTarget(obj.symbols[r.sym], obj.sections, w) - if r.kind == REL32 then at + Offset(sec, r) + 4 else 0
  }

  function LinkPe(bytes: seq<byte>, relocs: seq<PeReloc>, sec: PeSection, obj: PeObject, at: int, w: World): (r: seq<byte>)
    requires |bytes| == sec.rawSize && AllLinkable(relocs, sec, obj)
    ensures |r| == |bytes|
  {
    if |relocs| == 0 then bytes
    else
      var last := relocs[|relocs| - 1];
      AddAt(LinkPe(bytes, relocs[..|relocs| - 1], sec, obj, at, w), Offset(sec, last), 4, PeGain(last, sec, obj, at, w))
  }

  // ----- one relocation -----

  /** The context of a section's translation agrees with the object and its converted symbols. */
  ghost predicate ContextOf(c: Context, obj: PeObject, strtab: string) {
    && Known(c.sec) && c.target == SectionIndex(c.sec.name) as nat
    && c.symCount == |obj.symbols|
    && SymbolsTranslated(c.symMap, c.symtab, strtab, obj)
  }

  lemma SameTarget(e: ElfSymbol, s: PeSymbol, sections: seq<PeSection>, strtab: string, w: World)
    requires Describes(e, s, sections, strtab) && Kept(s, sections)
    requires s.section == 0 ==> !Sectional(s)
    ensures ElfTarget(e, strtab, w) == PeTarget(s, sections, w)
  {
    if s.section == 0 {
      NamesRead(strtab, e.name, ElfName(s, sections));
      assert "_" <= s.name <==> |s.name| > 0 && s.name[0] == '_';
    }
  }

  /** The symbol a sound relocation names, in both tables. */
  lemma SoundTarget(c: Context, r: PeReloc, image: seq<byte>, obj: PeObject, strtab: string, w: World)
    requires Sound(c, image, r) && ContextOf(c, obj, strtab) && Linkable(r, c.sec, obj)
    ensures Mapped(c, r) && (r.kind == DIR32 || r.kind == REL32)
    ensures var e, s := c.symtab[c.symMap[r.sym]], obj.symbols[r.sym];
            && ElfTarget(e, strtab, w) == PeTarget(s, obj.sections, w)
            && (Local(c, r) ==> e.shndx == c.target && ElfTarget(e, strtab, w) == w.base(c.target) + e.value)
  {
    hide Describes, Kept, Sectional, Offset, PeTarget, Starts, FromLE, Field;
    var e, s := c.symtab[c.symMap[r.sym]], obj.symbols[r.sym];
    assert Describes(e, s, obj.sections, strtab);
    SameTarget(e, s, obj.sections, strtab, w);
  }

  /** A word: the image is left alone and the linker adds the symbol. */
  lemma WordAddsUp(c: Context, r: PeReloc, obj: PeObject, strtab: string, w: World)
    requires Mapped(c, r) && r.kind == DIR32 && Linkable(r, c.sec, obj)
    requires ElfTarget(c.symtab[c.symMap[r.sym]], strtab, w) == PeTarget(obj.symbols[r.sym], obj.sections, w)
    ensures EntriesFit(Entry(c, r), c.symtab, c.sec.rawSize) && !Local(c, r) && Patch(c, r) == 0
    ensures PeGain(r, c.sec, obj, w.base(c.target), w) == ElfGain(Entry(c, r)[0], c.symtab, strtab, w.base(c.target), w)
  {
    hide ElfTarget, PeTarget, Kept, Sectional, Offset;
  }

  /** A call within the section: the displacement is final, wherever the section goes. */
  lemma LocalCallAddsUp(c: Context, r: PeReloc, obj: PeObject, strtab: string, w: World)
    requires Mapped(c, r) && Local(c, r) && Linkable(r, c.sec, obj)
    requires PeTarget(obj.symbols[r.sym], obj.sections, w) == w.base(c.target) + c.symtab[c.symMap[r.sym]].value
    ensures EntriesFit(Entry(c, r), c.symtab, c.sec.rawSize)
    ensures PeGain(r, c.sec, obj, w.base(c.target), w) == Patch(c, r)
  {
    hide PeTarget, Kept, Sectional, Offset;
  }

  /** A call to an external symbol: minus four in the image, symbol minus place from the linker. */
  lemma ExternalCallAddsUp(c: Context, r: PeReloc, obj: PeObject, strtab: string, w: World)
    requires Mapped(c, r) && r.kind == REL32 && !Local(c, r) && Linkable(r, c.sec, obj)
    requires ElfTarget(c.symtab[c.symMap[r.sym]], strtab, w) == PeTarget(obj.symbols[r.sym], obj.sections, w)
    ensures EntriesFit(Entry(c, r), c.symtab, c.sec.rawSize) && Patch(c, r) == -4
    ensures PeGain(r, c.sec, obj, w.base(c.target), w) == -4 + ElfGain(Entry(c, r)[0], c.symtab, strtab, w.base(c.target), w)
  {
    hide ElfTarget, PeTarget, Kept, Sectional, Offset;
  }

  /** What the image gained and what the linker is told add up to what the PE relocation means. */
  lemma GainsAddUp(c: Context, r: PeReloc, image: seq<byte>, obj: PeObject, strtab: string, w: World)
    requires Sound(c, image, r) && ContextOf(c, obj, strtab) && Linkable(r, c.sec, obj)
    ensures var at := w.base(c.target);
            Mapped(c, r) && EntriesFit(Entry(c, r), c.symtab, c.sec.rawSize)
            && PeGain(r, c.sec, obj, at, w)
                 == Patch(c, r) + if Local(c, r) then 0 else ElfGain(Entry(c, r)[0], c.symtab, strtab, at, w)
  {
    hide Sound, ContextOf, Linkable, Mapped, Local, Patch, Entry, PeGain, ElfGain, PeTarget, ElfTarget, EntriesFit;
    SoundTarget(c, r, image, obj, strtab, w);
    if r.kind == DIR32 {
      WordAddsUp(c, r, obj, strtab, w);
    } else if Local(c, r) {
      LocalCallAddsUp(c, r, obj, strtab, w);
    } else {
      ExternalCallAddsUp(c, r, obj, strtab, w);
    }
  }

  lemma SliceOfSplice(image: seq<byte>, sec: PeSection, ofs: nat, word: seq<byte>)
    requires sec.rawOffset + sec.rawSize <= |image| && ofs + |word| <= sec.rawSize
    ensures Slice(Splice(image, sec.rawOffset + ofs, word), sec) == Splice(Slice(image, sec), ofs, word)
  {
  }

  lemma SliceOfSlice(s: seq<byte>, a: nat, b: nat, i: nat, j: nat)
    requires a <= b <= |s| && i <= j <= b - a
    ensures s[a..b][i..j] == s[a + i..a + j]
  {
    var inner, outer := s[a..b][i..j], s[a + i..a + j];
    assert forall k :: 0 <= k < j - i ==> inner[k] == s[a..b][i + k] == s[a + i + k] == outer[k];
  }

  lemma SliceAddAt(image: seq<byte>, sec: PeSection, ofs: nat, d: int)
    requires sec.rawOffset + sec.rawSize <= |image| && ofs + 4 <= sec.rawSize
    ensures Slice(AddAt(image, sec.rawOffset + ofs, 4, d), sec) == AddAt(Slice(image, sec), ofs, 4, d)
  {
    hide ToLE, FromLE, Splice;
    var a, b := sec.rawOffset, sec.rawOffset + sec.rawSize;
    SliceOfSlice(image, a, b, ofs, ofs + 4);
    SliceOfSplice(image, sec, ofs, ToLE(FromLE(Field(image, a + ofs, 4)) + d, 4));
  }

  // ----- all relocations of a section -----

  predicate ApartFrom(ofs: nat, relocs: seq<PeReloc>, sec: PeSection) {
    forall i :: 0 <= i < |relocs| ==> NoPartialOverlap(Offset(sec, relocs[i]), 4, ofs, 4)
  }

  predicate FieldsApart(relocs: seq<PeReloc>, sec: PeSection) {
    forall i, j :: 0 <= i < j < |relocs| ==> NoPartialOverlap(Offset(sec, relocs[i]), 4, Offset(sec, relocs[j]), 4)
  }

  predicate EntriesApart(ofs: nat, entries: seq<ElfRel>) {
    forall k :: 0 <= k < |entries| ==> NoPartialOverlap(entries[k].offset, 4, ofs, 4)
  }

  lemma {:induction false} LinkAfterPatch(bytes: seq<byte>, entries: seq<ElfRel>, symtab: seq<ElfSymbol>, strtab: string, at: int,
                                          w: World, ofs: nat, d: int)
    requires ofs + 4 <= |bytes| && EntriesFit(entries, symtab, |bytes|) && EntriesApart(ofs, entries)
    ensures LinkElf(AddAt(bytes, ofs, 4, d), entries, symtab, strtab, at, w)
         == AddAt(LinkElf(bytes, entries, symtab, strtab, at, w), ofs, 4, d)
  {
    hide AddAt, ElfGain;
    if |entries| > 0 {
      var front, last := entries[..|entries| - 1], entries[|entries| - 1];
      LinkAfterPatch(bytes, front, symtab, strtab, at, w, ofs, d);
      AddAtCommutes(LinkElf(bytes, front, symtab, strtab, at, w), ofs, 4, d, last.offset, 4, ElfGain(last, symtab, strtab, at, w));
    }
  }

  lemma LinkOneMore(bytes: seq<byte>, entries: seq<ElfRel>, entry: ElfRel, symtab: seq<ElfSymbol>, strtab: string, at: int, w: World)
    requires EntriesFit(entries, symtab, |bytes|) && EntriesFit(entries + [entry], symtab, |bytes|)
    requires entry.sym < |symtab| && entry.offset + 4 <= |bytes|
    ensures LinkElf(bytes, entries + [entry], symtab, strtab, at, w)
         == AddAt(LinkElf(bytes, entries, symtab, strtab, at, w), entry.offset, 4, ElfGain(entry, symtab, strtab, at, w))
  {
    hide AddAt, ElfGain;
    var all := entries + [entry];
    assert all[..|all| - 1] == entries;
  }

  /** One turn of the translation adds to the linked section what the PE relocation adds. */
  lemma AdvanceLinks(c: Context, r: PeReloc, image: seq<byte>, entries: seq<ElfRel>, obj: PeObject, strtab: string, w: World)
    requires c.sec.rawOffset + c.sec.rawSize <= |image|
    requires Sound(c, image, r) && ContextOf(c, obj, strtab) && Linkable(r, c.sec, obj)
    requires EntriesFit(entries, c.symtab, c.sec.rawSize) && EntriesApart(Offset(c.sec, r), entries)
    ensures var at, ofs := w.base(c.target), Offset(c.sec, r);
            Mapped(c, r) && EntriesFit(entries + Entry(c, r), c.symtab, c.sec.rawSize)
            && LinkElf(Slice(AddAt(image, c.sec.rawOffset + ofs, 4, Patch(c, r)), c.sec), entries + Entry(c, r), c.symtab, strtab, at, w)
                 == AddAt(LinkElf(Slice(image, c.sec), entries, c.symtab, strtab, at, w), ofs, 4, PeGain(r, c.sec, obj, at, w))
  {
    hide *;
    GainsAddUp(c, r, image, obj, strtab, w);
    ShapeOf(c, r, image, entries, obj);
    SliceAddAt(image, c.sec, Offset(c.sec, r), Patch(c, r));
    PatchThenEntry(Slice(image, c.sec), entries, Entry(c, r), c.symtab, strtab, w.base(c.target), w, Offset(c.sec, r), Patch(c, r));
  }

  lemma ShapeOf(c: Context, r: PeReloc, image: seq<byte>, entries: seq<ElfRel>, obj: PeObject)
    requires c.sec.rawOffset + c.sec.rawSize <= |image|
    requires Sound(c, image, r) && Linkable(r, c.sec, obj) && EntriesFit(entries, c.symtab, c.sec.rawSize)
    ensures Mapped(c, r) && Offset(c.sec, r) + 4 <= c.sec.rawSize == |Slice(image, c.sec)|
    ensures var more := Entry(c, r);
            EntriesFit(entries + more, c.symtab, c.sec.rawSize)
            && |more| <= 1 && (|more| > 0 ==> more[0].offset == Offset(c.sec, r) && more[0].sym < |c.symtab|)
            && (|more| == 0 <==> Local(c, r))
  {
    hide SymbolsTranslated, Kept, Offset;
  }

  /** A patch of d, and at most one more entry for the same field: the linked field gains both. */
  lemma PatchThenEntry(bytes: seq<byte>, entries: seq<ElfRel>, more: seq<ElfRel>, symtab: seq<ElfSymbol>, strtab: string,
                       at: int, w: World, ofs: nat, d: int)
    requires ofs + 4 <= |bytes| && EntriesApart(ofs, entries) && |more| <= 1 && (|more| > 0 ==> more[0].offset == ofs)
    requires EntriesFit(entries, symtab, |bytes|) && (|more| > 0 ==> more[0].sym < |symtab|)
    requires EntriesFit(entries + more, symtab, |bytes|)
    ensures LinkElf(AddAt(bytes, ofs, 4, d), entries + more, symtab, strtab, at, w)
         == AddAt(LinkElf(bytes, entries, symtab, strtab, at, w), ofs, 4,
                  d + if |more| == 0 then 0 else ElfGain(more[0], symtab, strtab, at, w))
  {
    hide *;
    LinkAfterPatch(bytes, entries, symtab, strtab, at, w, ofs, d);
    if |more| == 0 {
      assert entries + more == entries;
    } else {
      assert more == [more[0]];
      PatchAndEntry(bytes, entries, more[0], symtab, strtab, at, w, ofs, d);
    }
  }

  lemma PatchAndEntry(bytes: seq<byte>, entries: seq<ElfRel>, entry: ElfRel, symtab: seq<ElfSymbol>, strtab: string,
                      at: int, w: World, ofs: nat, d: int)
    requires ofs + 4 <= |bytes| && entry.offset == ofs
    requires entry.sym < |symtab|
    requires EntriesFit(entries, symtab, |bytes|) && EntriesFit(entries + [entry], symtab, |bytes|)
    requires LinkElf(AddAt(bytes, ofs, 4, d), entries, symtab, strtab, at, w)
          == AddAt(LinkElf(bytes, entries, symtab, strtab, at, w), ofs, 4, d)
    ensures LinkElf(AddAt(bytes, ofs, 4, d), entries + [entry], symtab, strtab, at, w)
         == AddAt(LinkElf(bytes, entries, symtab, strtab, at, w), ofs, 4, d + ElfGain(entry, symtab, strtab, at, w))
  {
    hide AddAt, ElfGain, LinkElf, EntriesFit;
    LinkOneMore(AddAt(bytes, ofs, 4, d), entries, entry, symtab, strtab, at, w);
    AddAtTwice(LinkElf(bytes, entries, symtab, strtab, at, w), ofs, 4, d, ElfGain(entry, symtab, strtab, at, w));
  }

  /** The linker's entries patch fields that the PE relocations patch. */
  lemma {:induction false} EntriesComeFromRelocs(c: Context, image: seq<byte>, relocs: seq<PeReloc>, ofs: nat)
    requires forall i :: 0 <= i < |relocs| ==> RelocInImage(c, relocs[i], |image|)
    requires Translate(c, image, relocs).Ok? && ApartFrom(ofs, relocs, c.sec)
    ensures EntriesApart(ofs, Translate(c, image, relocs).value.entries)
  {
    hide RelocInImage, FaultOf, AddAt, Patch, Offset, NoPartialOverlap;
    if |relocs| > 0 {
      EntriesComeFromRelocs(c, image, relocs[..|relocs| - 1], ofs);
    }
  }

  /** Linking the translated section gives the bytes that the PE relocations mean on the original one. */
  ghost predicate SameWhenLinked(c: Context, image: seq<byte>, step: Step, relocs: seq<PeReloc>, obj: PeObject, strtab: string, w: World)
    requires c.sec.rawOffset + c.sec.rawSize <= |image| == |step.image| && AllLinkable(relocs, c.sec, obj)
  {
    && EntriesFit(step.entries, c.symtab, c.sec.rawSize)
    && LinkElf(Slice(step.image, c.sec), step.entries, c.symtab, strtab, w.base(c.target), w)
         == LinkPe(Slice(image, c.sec), relocs, c.sec, obj, w.base(c.target), w)
  }

  /** For every accepted relocation table and every placement. */
  lemma {:induction false} TranslationKeepsMeaning(c: Context, image: seq<byte>, relocs: seq<PeReloc>, obj: PeObject, strtab: string, w: World)
    requires c.sec.rawOffset + c.sec.rawSize <= |image| && ContextOf(c, obj, strtab)
    requires forall i :: 0 <= i < |relocs| ==> RelocInImage(c, relocs[i], |image|)
    requires AllLinkable(relocs, c.sec, obj) && FieldsApart(relocs, c.sec)
    requires Translate(c, image, relocs).Ok?
    ensures SameWhenLinked(c, image, Translate(c, image, relocs).value, relocs, obj, strtab, w)
  {
    hide RelocInImage, FaultOf, AddAt, Patch, Entry, Offset, NoPartialOverlap, ContextOf, Linkable, PeGain, Slice;
    if |relocs| > 0 {
      var front, last := relocs[..|relocs| - 1], relocs[|relocs| - 1];
      var before := Translate(c, image, front).value;
      TranslationKeepsMeaning(c, image, front, obj, strtab, w);
      EntriesComeFromRelocs(c, image, front, Offset(c.sec, last));
      assert Sound(c, before.image, last);
      AdvanceLinks(c, last, before.image, before.entries, obj, strtab, w);
    }
  }
}
