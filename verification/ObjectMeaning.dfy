/** What a converted object says, symbol by symbol and relocation by relocation: the numbers and names
    of the two formats, and the values that a linker's fields end up with. */
module ObjectMeaning {
  import opened Words
  import opened Outcomes
  import opened Pe2Elf
  import opened ObjectLink
  import opened ObjectAccept

  // ----- names and numbers -----

  const SECTION_NAMES: seq<string> := ["", ".text", ".rdata", ".data", ".bss", ".modname", ".moddeps", ".module_license"]

  /** ELF section idx is the one of this name. */
  predicate Numbered(idx: int, name: string) { 1 <= idx < |SECTION_NAMES| && SECTION_NAMES[idx] == name }

  lemma NumberedExactly(idx: int, name: string)
    ensures Numbered(idx, name) <==> idx == SectionIndex(name) != -1
  {
  }

  /** The compiler's underscore is gone, and nothing else. */
  predicate Unprefixed(elf: string, pe: string) {
    pe == "_" + elf || (elf == pe && !("_" <= pe))
  }

  lemma StrippedExactly(elf: string, pe: string)
    ensures Unprefixed(elf, pe) <==> elf == Stripped(pe)
  {
    if elf == Stripped(pe) && "_" <= pe {
      assert pe == "_" + pe[1..];
    }
    if pe == "_" + elf {
      assert pe[1..] == elf;
    }
  }

  // ----- symbols -----

  /** A symbol that takes the name of its section: auxiliary records, and not a function. */
  predicate SectionNamed(s: PeSymbol) { s.kind != 0x20 && s.auxCount > 0 }

  predicate IsKept(s: PeSymbol, sections: seq<PeSection>) {
    && s.section <= |sections|
    && (s.section > 0 ==> sections[s.section - 1].name in SECTION_NAMES[1..])
    && (SectionNamed(s) || s.storageClass == 2 || s.name == "_grub_mod_init" || s.name == "_grub_mod_fini")
  }

  predicate SymbolRead(e: ElfSymbol, s: PeSymbol, sections: seq<PeSection>, strtab: string)
    requires s.section <= |sections|
  {
    && (s.section == 0 ==> e.shndx == 0)
    && (s.section > 0 ==> Numbered(e.shndx, sections[s.section - 1].name))
    && e.value == s.value && (e.global <==> s.storageClass == 2)
    && (SectionNamed(s) && s.value == 0 ==> e.kind == SectionSymbol)
    && (!(SectionNamed(s) && s.value == 0) ==>
          e.kind == if s.section == 0 then NoType else if s.kind == 0x20 then Function else Object)
    && (!SectionNamed(s) ==> Unprefixed(ReadString(strtab, e.name), s.name))
    && (SectionNamed(s) ==> ReadString(strtab, e.name) == if s.section == 0 then "" else sections[s.section - 1].name)
  }

  /** The slots of the map are the starts of symbols: the first slot, and the one after each symbol and
      its auxiliary records. */
  predicate Walked(symMap: map<nat, int>, symbols: seq<PeSymbol>) {
    && (0 < |symbols| ==> 0 in symMap)
    && (forall i :: i in symMap ==> i < |symbols|)
    && (forall i :: i in symMap && i + 1 + symbols[i].auxCount < |symbols| ==> i + 1 + symbols[i].auxCount in symMap)
    && (forall i :: i in symMap && i > 0 ==> exists j :: j in symMap && j + 1 + symbols[j].auxCount == i)
  }

  predicate SymbolsRead(symMap: map<nat, int>, symtab: seq<ElfSymbol>, strtab: string, obj: PeObject) {
    && Walked(symMap, obj.symbols)
    && forall i :: i in symMap && i < |obj.symbols| ==>
         && (symMap[i] != -1 <==> IsKept(obj.symbols[i], obj.sections))
         && (symMap[i] != -1 ==> 0 < symMap[i] < |symtab| && SymbolRead(symtab[symMap[i]], obj.symbols[i], obj.sections, strtab))
  }

  lemma KeptExactly(s: PeSymbol, sections: seq<PeSection>)
    ensures IsKept(s, sections) <==> Kept(s, sections)
  {
    if 0 < s.section <= |sections| {
      var name := sections[s.section - 1].name;
      if name in SECTION_NAMES[1..] {
        var k :| 0 <= k < |SECTION_NAMES[1..]| && SECTION_NAMES[1..][k] == name;
        NumberedExactly(k + 1, name);
      }
      if SectionIndex(name) != -1 {
        NumberedExactly(SectionIndex(name), name);
        assert SECTION_NAMES[1..][SectionIndex(name) - 1] == name;
      }
    }
  }

  lemma DescribedIsRead(e: ElfSymbol, s: PeSymbol, sections: seq<PeSection>, strtab: string)
    requires Describes(e, s, sections, strtab) && Kept(s, sections)
    ensures SymbolRead(e, s, sections, strtab)
  {
    hide SectionIndex, Names, Numbered, Unprefixed;
    NamesRead(strtab, e.name, ElfName(s, sections));
    if s.section > 0 {
      NumberedExactly(e.shndx, sections[s.section - 1].name);
    }
    if !Sectional(s) {
      StrippedExactly(ElfName(s, sections), s.name);
    }
  }

  /** A weak external loses its name: an auxiliary record gives it the name of section 0, which has
      none. Every other undefined symbol keeps its own. */
  lemma NameKeptExactly(e: ElfSymbol, s: PeSymbol, sections: seq<PeSection>, strtab: string)
    requires Describes(e, s, sections, strtab) && s.section == 0
    ensures Unprefixed(ReadString(strtab, e.name), s.name) <==> !SectionNamed(s) || s.name == "" || s.name == "_"
  {
    hide Names;
    NamesRead(strtab, e.name, ElfName(s, sections));
    StrippedExactly(ReadString(strtab, e.name), s.name);
    StrippedExactly("", s.name);
  }

  /** Starts from a slot, step by step. */
  lemma {:induction false} StartsWalk(symbols: seq<PeSymbol>, from: nat)
    ensures from < |symbols| ==> from in Starts(symbols, from)
    ensures forall i :: i in Starts(symbols, from) && i + 1 + symbols[i].auxCount < |symbols| ==> i + 1 + symbols[i].auxCount in Starts(symbols, from)
    decreases |symbols| - from
  {
    if from < |symbols| {
      StartsWalk(symbols, from + symbols[from].auxCount + 1);
    }
  }

  lemma {:induction false} StartsFollow(symbols: seq<PeSymbol>, from: nat, i: nat)
    requires i in Starts(symbols, from) && i > from
    ensures exists j :: j in Starts(symbols, from) && j + 1 + symbols[j].auxCount == i
    decreases |symbols| - from
  {
    var next := from + symbols[from].auxCount + 1;
    assert from in Starts(symbols, from);
    if i > next {
      StartsFollow(symbols, next, i);
      var j :| j in Starts(symbols, next) && j + 1 + symbols[j].auxCount == i;
      assert j in Starts(symbols, from);
    }
  }

  lemma WalkedFrom(symMap: map<nat, int>, symbols: seq<PeSymbol>)
    requires symMap.Keys == Starts(symbols, 0)
    ensures Walked(symMap, symbols)
  {
    StartsWalk(symbols, 0);
    forall i | i in symMap && i > 0
      ensures exists j :: j in symMap && j + 1 + symbols[j].auxCount == i
    {
      StartsFollow(symbols, 0, i);
      var j :| j in Starts(symbols, 0) && j + 1 + symbols[j].auxCount == i;
      assert j in symMap;
    }
  }

  lemma ReadyIsRead(obj: PeObject, symtab: seq<ElfSymbol>, symMap: map<nat, int>, strtab: string)
    requires SymbolsReady(obj, symtab, symMap, strtab)
    ensures SymbolsRead(symMap, symtab, strtab, obj)
  {
    hide Starts, Kept, IsKept, Describes, SymbolRead, Walked;
    WalkedFrom(symMap, obj.symbols);
    forall i | i in symMap && i < |obj.symbols|
      ensures symMap[i] != -1 <==> IsKept(obj.symbols[i], obj.sections)
      ensures symMap[i] != -1 ==> obj.symbols[i].section <= |obj.sections| && 0 < symMap[i] < |symtab|
      ensures symMap[i] != -1 ==> SymbolRead(symtab[symMap[i]], obj.symbols[i], obj.sections, strtab)
    {
      KeptExactly(obj.symbols[i], obj.sections);
      if symMap[i] != -1 {
        KeptSection(obj.symbols[i], obj.sections);
        DescribedIsRead(symtab[symMap[i]], obj.symbols[i], obj.sections, strtab);
      }
    }
  }

  lemma KeptSection(s: PeSymbol, sections: seq<PeSection>)
    requires Kept(s, sections)
    ensures s.section <= |sections|
  {
  }

  // ----- relocations, as the object file has them -----

  /** The offset of a relocation in its section, in the 32 bits of the format. */
  function Within(s: PeSection, r: PeReloc): nat { (r.offset - s.virtualAddress) % 0x1_0000_0000 }

  /** The 4 bytes of a section at an offset, as a number. */
  function WordAt(bytes: seq<byte>, at: nat): nat
    requires at + 4 <= |bytes|
  {
    FromLE(bytes[at..at + 4])
  }

  /** Relocation r of s: a word is left to the linker as number 1, a call out of the object as number 2 with
      -4 in its field, and a call inside the section holds its displacement and needs no entry. */
  predicate Emitted(r: PeReloc, s: PeSection, content: seq<byte>, entries: seq<ElfRel>, symtab: seq<ElfSymbol>, symMap: map<nat, int>) {
    && Within(s, r) + 4 <= |content| && r.sym in symMap && 0 < symMap[r.sym] < |symtab|
    && (r.kind == 6 || r.kind == 0x14)
    && (r.kind == 6 ==> ElfRel(Within(s, r), symMap[r.sym], 1) in entries)
    && (r.kind == 0x14 && symtab[symMap[r.sym]].shndx == 0 ==>
          ElfRel(Within(s, r), symMap[r.sym], 2) in entries && WordAt(content, Within(s, r)) == 0xffff_fffc)
    && (r.kind == 0x14 && symtab[symMap[r.sym]].shndx != 0 ==>
          WordAt(content, Within(s, r)) == (symtab[symMap[r.sym]].value - (Within(s, r) + 4)) % 0x1_0000_0000)
  }

  /** The relocation that an entry is for; calls inside the section have none. */
  predicate EntryFor(entry: ElfRel, r: PeReloc, s: PeSection, symtab: seq<ElfSymbol>, symMap: map<nat, int>) {
    && entry.offset == Within(s, r) && r.sym in symMap && entry.sym == symMap[r.sym] < |symtab|
    && (r.kind == 6 || r.kind == 0x14) && entry.kind == (if r.kind == 6 then 1 else 2)
    && (r.kind == 0x14 ==> symtab[entry.sym].shndx == 0)
  }

  /** No call has this byte in its field. */
  predicate OutsideCalls(at: nat, relocs: seq<PeReloc>, s: PeSection) {
    forall i :: 0 <= i < |relocs| && relocs[i].kind == 0x14 ==> at < Within(s, relocs[i]) || Within(s, relocs[i]) + 4 <= at
  }

  /** The section as it is written, and its relocation section, for the bytes it had. */
  predicate AllEmitted(s: PeSection, bytes: seq<byte>, content: seq<byte>, entries: seq<ElfRel>, symtab: seq<ElfSymbol>, symMap: map<nat, int>) {
    && |content| == |bytes|
    && (forall i :: 0 <= i < |Relocs(s)| ==> Emitted(Relocs(s)[i], s, content, entries, symtab, symMap))
    && (forall e :: e in entries ==> exists i :: 0 <= i < |Relocs(s)| && EntryFor(e, Relocs(s)[i], s, symtab, symMap))
    && (forall b :: 0 <= b < |bytes| && OutsideCalls(b, Relocs(s), s) ==> content[b] == bytes[b])
  }

  // ----- the translation emits them -----

  /** The entry of some relocation. */
  predicate Wanted(c: Context, e: ElfRel, relocs: seq<PeReloc>) {
    exists i :: 0 <= i < |relocs| && Mapped(c, relocs[i]) && !Local(c, relocs[i]) && [e] == Entry(c, relocs[i])
  }

  lemma {:induction false} AllMapped(c: Context, image: seq<byte>, relocs: seq<PeReloc>)
    requires forall i :: 0 <= i < |relocs| ==> RelocInImage(c, relocs[i], |image|)
    requires Translate(c, image, relocs).Ok?
    ensures forall i :: 0 <= i < |relocs| ==> Mapped(c, relocs[i]) && 0 < c.symMap[relocs[i].sym] && (relocs[i].kind == 6 || relocs[i].kind == 0x14)
  {
    hide AddAt, Offset, Patch, RelocInImage, FaultOf, Local, Entry, Mapped;
    if |relocs| > 0 {
      var n := |relocs| - 1;
      var before := Translate(c, image, relocs[..n]).value;
      AllMapped(c, image, relocs[..n]);
      assert Sound(c, before.image, relocs[n]);
      SoundIsMapped(c, before.image, relocs[n]);
      assert forall i :: 0 <= i < n ==> relocs[..n][i] == relocs[i];
    }
  }

  lemma EntryShape(c: Context, r: PeReloc)
    requires Mapped(c, r)
    ensures |Entry(c, r)| == if Local(c, r) then 0 else 1
  {
  }

  lemma {:induction false} EntriesEmitted(c: Context, image: seq<byte>, relocs: seq<PeReloc>)
    requires forall i :: 0 <= i < |relocs| ==> RelocInImage(c, relocs[i], |image|) && Mapped(c, relocs[i])
    requires Translate(c, image, relocs).Ok?
    ensures forall i :: 0 <= i < |relocs| && !Local(c, relocs[i]) ==> |Entry(c, relocs[i])| == 1 && Entry(c, relocs[i])[0] in Translate(c, image, relocs).value.entries
    ensures forall e :: e in Translate(c, image, relocs).value.entries ==> Wanted(c, e, relocs)
  {
    hide AddAt, Offset, Patch, RelocInImage, FaultOf, Local, Entry, Mapped;
    forall i | 0 <= i < |relocs|
      ensures |Entry(c, relocs[i])| == if Local(c, relocs[i]) then 0 else 1
    {
      EntryShape(c, relocs[i]);
    }
    if |relocs| > 0 {
      var n := |relocs| - 1;
      var front, last := relocs[..n], relocs[n];
      assert forall i :: 0 <= i < n ==> front[i] == relocs[i];
      EntriesEmitted(c, image, front);
      assert Translate(c, image, relocs).value.entries == Translate(c, image, front).value.entries + Entry(c, last);
      MoreEntries(c, relocs, Translate(c, image, front).value.entries, Translate(c, image, relocs).value.entries);
    }
  }

  lemma MoreEntries(c: Context, relocs: seq<PeReloc>, before: seq<ElfRel>, after: seq<ElfRel>)
    requires |relocs| > 0 && forall i :: 0 <= i < |relocs| ==> Mapped(c, relocs[i])
    requires forall i :: 0 <= i < |relocs| ==> |Entry(c, relocs[i])| == if Local(c, relocs[i]) then 0 else 1
    requires var front := relocs[..|relocs| - 1];
             && (forall i :: 0 <= i < |front| && !Local(c, front[i]) ==> Entry(c, front[i])[0] in before)
             && (forall e :: e in before ==> Wanted(c, e, front))
    requires after == before + Entry(c, relocs[|relocs| - 1])
    ensures forall i :: 0 <= i < |relocs| && !Local(c, relocs[i]) ==> Entry(c, relocs[i])[0] in after
    ensures forall e :: e in after ==> Wanted(c, e, relocs)
  {
    hide Local, Entry, Mapped;
    var n := |relocs| - 1;
    var front := relocs[..n];
    forall i | 0 <= i < |relocs| && !Local(c, relocs[i])
      ensures Entry(c, relocs[i])[0] in after
    {
      if i == n {
        assert after[|before|] == Entry(c, relocs[n])[0];
      } else {
        assert front[i] == relocs[i];
      }
    }
    forall e | e in after
      ensures Wanted(c, e, relocs)
    {
      if e in before {
        var i :| 0 <= i < n && Mapped(c, front[i]) && !Local(c, front[i]) && [e] == Entry(c, front[i]);
        assert front[i] == relocs[i];
      } else {
        assert [e] == Entry(c, relocs[n]);
      }
    }
  }

  lemma SoundIsMapped(c: Context, image: seq<byte>, r: PeReloc)
    requires Sound(c, image, r)
    ensures Mapped(c, r) && 0 < c.symMap[r.sym] && (r.kind == 6 || r.kind == 0x14)
  {
    hide Offset, FromLE, Field;
  }

  /** The field of a call, once and for all. */
  lemma {:induction false} CallHolds(c: Context, image: seq<byte>, relocs: seq<PeReloc>, i: nat)
    requires forall j :: 0 <= j < |relocs| ==> RelocInImage(c, relocs[j], |image|)
    requires Translate(c, image, relocs).Ok? && CallsApart(relocs, c.sec)
    requires i < |relocs| && relocs[i].kind == 0x14
    ensures Mapped(c, relocs[i])
    ensures WordHolds(Translate(c, image, relocs).value.image, c.sec.rawOffset + Offset(c.sec, relocs[i]), Patch(c, relocs[i]))
  {
    hide AddAt, Offset, Patch, FaultOf, Local, Entry, RelocInImage, WordHolds, Mapped;
    var n := |relocs| - 1;
    var front, last := relocs[..n], relocs[n];
    var pos := c.sec.rawOffset + Offset(c.sec, relocs[i]);
    var before := Translate(c, image, front).value.image;
    assert Sound(c, before, last);
    if i == n {
      StoredHere(c, before, last);
    } else {
      assert relocs[i] == front[i];
      CallHolds(c, image, front, i);
      PatchElsewhere(c, before, last, pos, Patch(c, relocs[i]));
    }
  }

  /** The word at pos is this value. */
  predicate WordHolds(image: seq<byte>, pos: nat, v: int) {
    pos + 4 <= |image| && WordAt(image, pos) == v % 0x1_0000_0000
  }

  lemma StoredHere(c: Context, image: seq<byte>, r: PeReloc)
    requires Sound(c, image, r) && r.kind == 0x14
    ensures Mapped(c, r)
    ensures WordHolds(AddAt(image, c.sec.rawOffset + Offset(c.sec, r), 4, Patch(c, r)), c.sec.rawOffset + Offset(c.sec, r), Patch(c, r))
  {
    hide FromLE, ToLE, Offset, Patch;
    var pos := c.sec.rawOffset + Offset(c.sec, r);
    FieldOfAddAt(image, pos, 4, Patch(c, r));
    LERoundTrip(Patch(c, r), 4);
    FourBytes();
  }

  lemma FourBytes()
    ensures Modulus(4) == 0x1_0000_0000
  {
  }

  lemma PatchElsewhere(c: Context, image: seq<byte>, r: PeReloc, pos: nat, v: int)
    requires Sound(c, image, r) && WordHolds(image, pos, v)
    requires r.kind == 0x14 ==> var at := c.sec.rawOffset + Offset(c.sec, r); at + 4 <= pos || pos + 4 <= at
    ensures Mapped(c, r) && WordHolds(AddAt(image, c.sec.rawOffset + Offset(c.sec, r), 4, Patch(c, r)), pos, v)
  {
    hide AddAt, FromLE, Offset, Patch;
    PatchApart(c, image, r, pos, pos + 4);
  }

  /** The same word, seen in the section. */
  lemma WordInSection(image: seq<byte>, s: PeSection, ofs: nat, v: int)
    requires s.rawOffset + s.rawSize <= |image| && ofs + 4 <= s.rawSize && WordHolds(image, s.rawOffset + ofs, v)
    ensures WordHolds(Slice(image, s), ofs, v)
  {
    SliceOfSlice(image, s.rawOffset, s.rawOffset + s.rawSize, ofs, ofs + 4);
  }

  lemma OneEmitted(c: Context, r: PeReloc, content: seq<byte>, entries: seq<ElfRel>)
    requires Mapped(c, r) && 0 < c.symMap[r.sym] && (r.kind == 6 || r.kind == 0x14) && Within(c.sec, r) + 4 <= |content|
    requires !Local(c, r) ==> Entry(c, r)[0] in entries
    requires r.kind == 0x14 ==> WordHolds(content, Offset(c.sec, r), Patch(c, r))
    ensures Emitted(r, c.sec, content, entries, c.symtab, c.symMap)
  {
    hide WordAt;
    assert Offset(c.sec, r) == Within(c.sec, r);
  }

  lemma EntryIsFor(c: Context, r: PeReloc)
    requires Mapped(c, r) && !Local(c, r) && (r.kind == 6 || r.kind == 0x14)
    ensures EntryFor(Entry(c, r)[0], r, c.sec, c.symtab, c.symMap)
  {
    assert Offset(c.sec, r) == Within(c.sec, r);
  }

  lemma WantedIsFor(c: Context, e: ElfRel, relocs: seq<PeReloc>)
    requires Wanted(c, e, relocs) && forall i :: 0 <= i < |relocs| ==> relocs[i].kind == 6 || relocs[i].kind == 0x14
    ensures exists i :: 0 <= i < |relocs| && EntryFor(e, relocs[i], c.sec, c.symtab, c.symMap)
  {
    hide Mapped, Local, Entry, EntryFor;
    var i :| 0 <= i < |relocs| && Mapped(c, relocs[i]) && !Local(c, relocs[i]) && [e] == Entry(c, relocs[i]);
    EntryIsFor(c, relocs[i]);
  }

  lemma ByteUntouched(c: Context, image: seq<byte>, relocs: seq<PeReloc>, b: nat)
    requires forall i :: 0 <= i < |relocs| ==> RelocInImage(c, relocs[i], |image|)
    requires Translate(c, image, relocs).Ok? && b < c.sec.rawSize && c.sec.rawOffset + c.sec.rawSize <= |image|
    requires OutsideCalls(b, relocs, c.sec)
    ensures Slice(Translate(c, image, relocs).value.image, c.sec)[b] == Slice(image, c.sec)[b]
  {
    hide Translate, RelocInImage;
    var at := c.sec.rawOffset + b;
    forall i | 0 <= i < |relocs| && relocs[i].kind == REL32
      ensures var pos := c.sec.rawOffset + Offset(c.sec, relocs[i]); pos + 4 <= at || at + 1 <= pos
    {
      assert Offset(c.sec, relocs[i]) == Within(c.sec, relocs[i]);
    }
    CallUntouched(c, image, relocs, at, at + 1);
    var after := Translate(c, image, relocs).value.image;
    assert after[at..at + 1][0] == image[at..at + 1][0];
  }

  /** Every relocation of an accepted section, and every byte beside them. */
  lemma TranslationEmits(c: Context, image: seq<byte>, relocs: seq<PeReloc>)
    requires c.sec.rawOffset + c.sec.rawSize <= |image| && relocs == Relocs(c.sec)
    requires forall i :: 0 <= i < |relocs| ==> RelocInImage(c, relocs[i], |image|) && Offset(c.sec, relocs[i]) + 4 <= c.sec.rawSize
    requires Translate(c, image, relocs).Ok? && CallsApart(relocs, c.sec)
    ensures var step := Translate(c, image, relocs).value;
            AllEmitted(c.sec, Slice(image, c.sec), Slice(step.image, c.sec), step.entries, c.symtab, c.symMap)
  {
    hide Translate, RelocInImage, CallsApart, Patch, Local, Entry, Mapped, WordHolds, Emitted, EntryFor, OutsideCalls, Slice;
    var step := Translate(c, image, relocs).value;
    var bytes, content := Slice(image, c.sec), Slice(step.image, c.sec);
    SliceIs(image, c.sec);
    SliceIs(step.image, c.sec);
    AllMapped(c, image, relocs);
    EntriesEmitted(c, image, relocs);
    forall i | 0 <= i < |relocs|
      ensures Emitted(relocs[i], c.sec, content, step.entries, c.symtab, c.symMap)
    {
      assert Offset(c.sec, relocs[i]) == Within(c.sec, relocs[i]);
      if relocs[i].kind == 0x14 {
        CallHolds(c, image, relocs, i);
        WordInSection(step.image, c.sec, Offset(c.sec, relocs[i]), Patch(c, relocs[i]));
      }
      OneEmitted(c, relocs[i], content, step.entries);
    }
    forall e | e in step.entries
      ensures exists i :: 0 <= i < |relocs| && EntryFor(e, relocs[i], c.sec, c.symtab, c.symMap)
    {
      WantedIsFor(c, e, relocs);
    }
    forall b | 0 <= b < |bytes| && OutsideCalls(b, relocs, c.sec)
      ensures content[b] == bytes[b]
    {
      ByteUntouched(c, image, relocs, b);
    }
  }

  lemma SliceIs(image: seq<byte>, s: PeSection)
    requires s.rawOffset + s.rawSize <= |image|
    ensures |Slice(image, s)| == s.rawSize
  {
  }

  // ----- linking, field by field -----

  /** The address of a symbol: an undefined one is looked up by the name it has in C, another stands in its
      section. */
  ghost predicate StandsAt(a: int, s: PeSymbol, sections: seq<PeSection>, w: World) {
    && s.section <= |sections|
    && (s.section == 0 && "_" <= s.name ==> a == w.address(s.name[1..]))
    && (s.section == 0 && !("_" <= s.name) ==> a == w.address(s.name))
    && (s.section > 0 ==> exists idx: nat :: Numbered(idx, sections[s.section - 1].name) && a == w.base(idx) + s.value)
  }

  lemma TargetStands(s: PeSymbol, sections: seq<PeSection>, w: World)
    requires Kept(s, sections)
    ensures StandsAt(PeTarget(s, sections, w), s, sections, w)
  {
    if s.section > 0 {
      var idx: nat := SectionIndex(sections[s.section - 1].name);
      NumberedExactly(idx, sections[s.section - 1].name);
    }
  }

  /** The relocation at hand and another do not share a byte. */
  predicate Alone(i: nat, relocs: seq<PeReloc>, s: PeSection)
    requires i < |relocs|
  {
    forall j :: 0 <= j < |relocs| && j != i ==>
      Within(s, relocs[j]) + 4 <= Within(s, relocs[i]) || Within(s, relocs[i]) + 4 <= Within(s, relocs[j])
  }

  /** The word of relocation r in the linked section: the symbol's address is added, and for a call the
      address behind the field taken away. */
  ghost predicate FieldLinks(bytes: seq<byte>, linked: seq<byte>, r: PeReloc, s: PeSection, obj: PeObject, at: int, w: World) {
    && Within(s, r) + 4 <= |bytes| == |linked| && r.sym < |obj.symbols|
    && exists a :: StandsAt(a, obj.symbols[r.sym], obj.sections, w)
         && (r.kind == 6 ==> WordAt(linked, Within(s, r)) == (WordAt(bytes, Within(s, r)) + a) % 0x1_0000_0000)
         && (r.kind == 0x14 ==>
               WordAt(linked, Within(s, r)) == (WordAt(bytes, Within(s, r)) + a - (at + Within(s, r) + 4)) % 0x1_0000_0000)
  }

  predicate OutsideFields(b: nat, relocs: seq<PeReloc>, s: PeSection) {
    forall j :: 0 <= j < |relocs| ==> b < Within(s, relocs[j]) || Within(s, relocs[j]) + 4 <= b
  }

  /** The linked section, for the bytes it had in the PE object. */
  ghost predicate SectionLinks(bytes: seq<byte>, linked: seq<byte>, s: PeSection, obj: PeObject, at: int, w: World) {
    && |linked| == |bytes|
    && (forall i :: 0 <= i < |Relocs(s)| && Alone(i, Relocs(s), s) ==> FieldLinks(bytes, linked, Relocs(s)[i], s, obj, at, w))
    && (forall b :: 0 <= b < |bytes| && OutsideFields(b, Relocs(s), s) ==> linked[b] == bytes[b])
  }

  /** Bytes no field has. */
  lemma {:induction false} LinkOutside(bytes: seq<byte>, relocs: seq<PeReloc>, sec: PeSection, obj: PeObject, at: int, w: World, p: nat, n: nat)
    requires |bytes| == sec.rawSize && AllLinkable(relocs, sec, obj) && p + n <= |bytes|
    requires forall j :: 0 <= j < |relocs| ==> Within(sec, relocs[j]) + 4 <= p || p + n <= Within(sec, relocs[j])
    ensures LinkPe(bytes, relocs, sec, obj, at, w)[p..p + n] == bytes[p..p + n]
  {
    hide AddAt, Offset, Within, Linkable, PeGain;
    if |relocs| > 0 {
      var front, last := relocs[..|relocs| - 1], relocs[|relocs| - 1];
      LinkOutside(bytes, front, sec, obj, at, w, p, n);
      SamePlace(sec, last);
      FieldFits(last, sec, obj);
      GainElsewhere(LinkPe(bytes, front, sec, obj, at, w), Offset(sec, last), PeGain(last, sec, obj, at, w), p, n);
    }
  }

  lemma SamePlace(s: PeSection, r: PeReloc)
    ensures Within(s, r) == Offset(s, r)
  {
  }

  lemma FieldFits(r: PeReloc, s: PeSection, obj: PeObject)
    requires Linkable(r, s, obj)
    ensures Offset(s, r) + 4 <= s.rawSize && r.sym < |obj.symbols| && Kept(obj.symbols[r.sym], obj.sections)
  {
  }

  lemma GainElsewhere(f: seq<byte>, p: nat, d: int, q: nat, n: nat)
    requires p + 4 <= |f| && q + n <= |f| && (p + 4 <= q || q + n <= p)
    ensures AddAt(f, p, 4, d)[q..q + n] == f[q..q + n]
  {
    hide ToLE, FromLE;
  }

  lemma GainHere(f: seq<byte>, p: nat, d: int)
    requires p + 4 <= |f|
    ensures WordHolds(AddAt(f, p, 4, d), p, WordAt(f, p) + d)
  {
    hide FromLE, ToLE;
    FieldOfAddAt(f, p, 4, d);
    LERoundTrip(FromLE(Field(f, p, 4)) + d, 4);
    FourBytes();
  }

  lemma {:induction false} FieldGains(bytes: seq<byte>, relocs: seq<PeReloc>, sec: PeSection, obj: PeObject, at: int, w: World, i: nat)
    requires |bytes| == sec.rawSize && AllLinkable(relocs, sec, obj) && i < |relocs| && Alone(i, relocs, sec)
    requires Within(sec, relocs[i]) + 4 <= |bytes|
    ensures WordHolds(LinkPe(bytes, relocs, sec, obj, at, w), Within(sec, relocs[i]),
                      WordAt(bytes, Within(sec, relocs[i])) + PeGain(relocs[i], sec, obj, at, w))
  {
    hide AddAt, Offset, Within, Linkable, PeGain, WordHolds, WordAt;
    var front, last := relocs[..|relocs| - 1], relocs[|relocs| - 1];
    var before := LinkPe(bytes, front, sec, obj, at, w);
    var p := Within(sec, relocs[i]);
    SamePlace(sec, last);
    FieldFits(last, sec, obj);
    if i == |front| {
      assert forall j :: 0 <= j < |front| ==> front[j] == relocs[j];
      LinkOutside(bytes, front, sec, obj, at, w, p, 4);
      GainHere(before, p, PeGain(last, sec, obj, at, w));
      WordFrom(before, bytes, p);
    } else {
      assert front[i] == relocs[i];
      FieldGains(bytes, front, sec, obj, at, w, i);
      GainElsewhere(before, Offset(sec, last), PeGain(last, sec, obj, at, w), p, 4);
      HoldsStill(before, LinkPe(bytes, relocs, sec, obj, at, w), p, WordAt(bytes, p) + PeGain(relocs[i], sec, obj, at, w));
    }
  }

  lemma WordFrom(f: seq<byte>, g: seq<byte>, p: nat)
    requires p + 4 <= |f| && p + 4 <= |g| && f[p..p + 4] == g[p..p + 4]
    ensures WordAt(f, p) == WordAt(g, p)
  {
  }

  lemma HoldsStill(f: seq<byte>, g: seq<byte>, p: nat, v: int)
    requires WordHolds(f, p, v) && p + 4 <= |g| && g[p..p + 4] == f[p..p + 4]
    ensures WordHolds(g, p, v)
  {
  }

  lemma GainMeans(bytes: seq<byte>, linked: seq<byte>, r: PeReloc, s: PeSection, obj: PeObject, at: int, w: World)
    requires Linkable(r, s, obj) && Within(s, r) + 4 <= |bytes| == |linked|
    requires WordHolds(linked, Within(s, r), WordAt(bytes, Within(s, r)) + PeGain(r, s, obj, at, w))
    ensures FieldLinks(bytes, linked, r, s, obj, at, w)
  {
    hide WordAt, PeTarget, StandsAt;
    SamePlace(s, r);
    FieldFits(r, s, obj);
    TargetStands(obj.symbols[r.sym], obj.sections, w);
  }

  lemma SectionIsLinked(bytes: seq<byte>, s: PeSection, obj: PeObject, at: int, w: World)
    requires |bytes| == s.rawSize && AllLinkable(Relocs(s), s, obj)
    ensures SectionLinks(bytes, LinkPe(bytes, Relocs(s), s, obj, at, w), s, obj, at, w)
  {
    hide LinkPe, FieldLinks, Within, Linkable, PeGain, Offset, WordHolds, Alone;
    var relocs := Relocs(s);
    var linked := LinkPe(bytes, relocs, s, obj, at, w);
    forall i | 0 <= i < |relocs| && Alone(i, relocs, s)
      ensures FieldLinks(bytes, linked, relocs[i], s, obj, at, w)
    {
      SamePlace(s, relocs[i]);
      FieldFits(relocs[i], s, obj);
      FieldGains(bytes, relocs, s, obj, at, w, i);
      GainMeans(bytes, linked, relocs[i], s, obj, at, w);
    }
    forall b | 0 <= b < |bytes| && OutsideFields(b, relocs, s)
      ensures linked[b] == bytes[b]
    {
      LinkOutside(bytes, relocs, s, obj, at, w, b, 1);
      assert linked[b..b + 1][0] == bytes[b..b + 1][0];
    }
  }
}
