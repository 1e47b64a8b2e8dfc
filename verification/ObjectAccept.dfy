/** Which objects the converter accepts, said of the PE object alone. */
module ObjectAccept {
  import opened Words
  import opened Outcomes
  import opened Pe2Elf
  import opened ObjectLink

  function Relocs(s: PeSection): seq<PeReloc> { if s.relocs.Some? then s.relocs.value else [] }

  /** A known section with bytes in the file. */
  predicate Stored(s: PeSection) { Known(s) && SectionIndex(s.name) != BSS }

  /** The 5 bytes of a call start inside the section and do not meet the field of another call. */
  predicate CallsApart(relocs: seq<PeReloc>, s: PeSection) {
    && (forall i :: 0 <= i < |relocs| && relocs[i].kind == REL32 ==> Offset(s, relocs[i]) >= 1)
    && forall i, j :: 0 <= i < |relocs| && 0 <= j < |relocs| && i != j && relocs[i].kind == REL32 && relocs[j].kind == REL32 ==>
         Offset(s, relocs[i]) + 4 <= Offset(s, relocs[j]) - 1 || Offset(s, relocs[j]) + 4 <= Offset(s, relocs[i])
  }

  /** The field lies in the section, behind the file's header, and the symbol is the start of one. */
  predicate RelocWellFormed(r: PeReloc, s: PeSection, obj: PeObject) {
    && 1 <= s.rawOffset && Offset(s, r) + 4 <= s.rawSize
    && (r.sym < |obj.symbols| ==> r.sym in Starts(obj.symbols, 0))
  }

  predicate SectionWellFormed(s: PeSection, obj: PeObject, size: nat) {
    && '\0' !in s.name
    && (Stored(s) ==> s.rawOffset + s.rawSize <= size)
    && (HasRelocs(s) ==> Stored(s))
    && (HasRelocs(s) ==> FieldsApart(Relocs(s), s) && CallsApart(Relocs(s), s))
    && (HasRelocs(s) ==> forall r :: r in Relocs(s) ==> RelocWellFormed(r, s, obj))
  }

  /** Two sections of an object have different names and no byte in common. */
  predicate Separate(a: PeSection, b: PeSection) {
    && (Known(a) && Known(b) ==> a.name != b.name)
    && (Stored(a) && Stored(b) ==> a.rawOffset + a.rawSize <= b.rawOffset || b.rawOffset + b.rawSize <= a.rawOffset)
  }

  /** A proper object file of this size. */
  predicate WellFormed(obj: PeObject, size: nat) {
    && (forall i :: 0 <= i < |obj.sections| ==> SectionWellFormed(obj.sections[i], obj, size))
    && (forall i, j :: 0 <= i < j < |obj.sections| ==> Separate(obj.sections[i], obj.sections[j]))
    && (forall i :: 0 <= i < |obj.symbols| ==> '\0' !in obj.symbols[i].name)
  }

  // ----- what acceptance means on the PE side -----

  predicate Acceptable(r: PeReloc, s: PeSection, obj: PeObject, image: seq<byte>)
    requires 1 <= s.rawOffset + Offset(s, r) && s.rawOffset + Offset(s, r) + 4 <= |image|
  {
    var pos := s.rawOffset + Offset(s, r);
    && r.sym < |obj.symbols| && Kept(obj.symbols[r.sym], obj.sections)
    && (r.kind == DIR32 || r.kind == REL32)
    && (r.kind == REL32 ==>
          && (image[pos - 1] == 0xe8 || image[pos - 1] == 0xe9)
          && FromLE(Field(image, pos, 4)) == 0
          && (obj.symbols[r.sym].section == 0
              || SectionIndex(obj.sections[obj.symbols[r.sym].section - 1].name) == SectionIndex(s.name)))
  }

  predicate SectionAcceptable(s: PeSection, obj: PeObject, image: seq<byte>)
    requires SectionWellFormed(s, obj, |image|)
  {
    HasRelocs(s) ==> forall r :: r in Relocs(s) ==>
      RelocWellFormed(r, s, obj) && 1 <= s.rawOffset + Offset(s, r) && s.rawOffset + Offset(s, r) + 4 <= |image|
      && Acceptable(r, s, obj, image)
  }

  /** At most six relocation sections; every relocation is a word or a call of zero displacement to an
      external symbol or into its own section. */
  predicate Accepted(obj: PeObject, image: seq<byte>)
    requires WellFormed(obj, |image|)
  {
    && |RelLinks(obj.sections, |obj.sections|)| <= MAX_REL_SECTIONS
    && forall i :: 0 <= i < |obj.sections| ==> SectionAcceptable(obj.sections[i], obj, image)
  }

  // ----- acceptance of one section, fault by fault -----

  /** The two tables agree on which symbols there are and where they live. */
  lemma SymbolAgrees(c: Context, r: PeReloc, obj: PeObject, strtab: string)
    requires ContextOf(c, obj, strtab) && (r.sym < c.symCount ==> r.sym in c.symMap)
    ensures r.sym >= c.symCount || c.symMap[r.sym] == -1 <==> !(r.sym < |obj.symbols| && Kept(obj.symbols[r.sym], obj.sections))
    ensures r.sym < c.symCount && c.symMap[r.sym] != -1 ==>
              var s := obj.symbols[r.sym];
              && Mapped(c, r) && s.section <= |obj.sections|
              && c.symtab[c.symMap[r.sym]].shndx
                   == if s.section == 0 then 0 else SectionIndex(obj.sections[s.section - 1].name)
  {
    if r.sym < c.symCount && c.symMap[r.sym] != -1 {
      assert Describes(c.symtab[c.symMap[r.sym]], obj.symbols[r.sym], obj.sections, strtab);
    }
  }

  lemma SameFault(c: Context, r: PeReloc, obj: PeObject, image: seq<byte>, strtab: string)
    requires ContextOf(c, obj, strtab) && RelocInImage(c, r, |image|)
    ensures FaultOf(c, image, r).None? <==> Acceptable(r, c.sec, obj, image)
  {
    hide Names, FromLE, Field, Offset, SymbolsTranslated, Kept, WellMapped;
    SymbolAgrees(c, r, obj, strtab);
  }

  /** A fault depends on the call's five bytes alone. */
  lemma FaultIsLocal(c: Context, r: PeReloc, a: seq<byte>, b: seq<byte>)
    requires RelocInImage(c, r, |a|) && |a| == |b|
    requires var pos := c.sec.rawOffset + Offset(c.sec, r); r.kind == REL32 ==> a[pos - 1..pos + 4] == b[pos - 1..pos + 4]
    ensures FaultOf(c, a, r) == FaultOf(c, b, r)
  {
    if r.kind == REL32 {
      var pos := c.sec.rawOffset + Offset(c.sec, r);
      assert a[pos - 1] == a[pos - 1..pos + 4][0] == b[pos - 1..pos + 4][0] == b[pos - 1];
      assert Field(a, pos, 4) == a[pos - 1..pos + 4][1..] == b[pos - 1..pos + 4][1..] == Field(b, pos, 4);
    }
  }

  /** The bytes of a call that no translated relocation has patched are as they were. */
  lemma {:induction false} CallUntouched(c: Context, image: seq<byte>, relocs: seq<PeReloc>, lo: nat, hi: nat)
    requires forall i :: 0 <= i < |relocs| ==> RelocInImage(c, relocs[i], |image|)
    requires Translate(c, image, relocs).Ok? && lo <= hi <= |image|
    requires forall i :: 0 <= i < |relocs| && relocs[i].kind == REL32 ==>
               var pos := c.sec.rawOffset + Offset(c.sec, relocs[i]); pos + 4 <= lo || hi <= pos
    ensures Translate(c, image, relocs).value.image[lo..hi] == image[lo..hi]
  {
    hide AddAt, Offset, FaultOf, Patch, Entry, RelocInImage;
    if |relocs| > 0 {
      var front, last := relocs[..|relocs| - 1], relocs[|relocs| - 1];
      CallUntouched(c, image, front, lo, hi);
      var before := Translate(c, image, front).value.image;
      assert Sound(c, before, last);
      PatchApart(c, before, last, lo, hi);
    }
  }

  lemma PatchApart(c: Context, image: seq<byte>, r: PeReloc, lo: nat, hi: nat)
    requires Sound(c, image, r) && lo <= hi <= |image|
    requires var pos := c.sec.rawOffset + Offset(c.sec, r); r.kind == REL32 ==> pos + 4 <= lo || hi <= pos
    ensures AddAt(image, c.sec.rawOffset + Offset(c.sec, r), 4, Patch(c, r))[lo..hi] == image[lo..hi]
  {
    var pos := c.sec.rawOffset + Offset(c.sec, r);
    if r.kind == DIR32 {
      AddNothing(image, pos);
    } else {
      hide FromLE, ToLE;
      var after := AddAt(image, pos, 4, Patch(c, r));
      assert forall k :: lo <= k < hi ==> after[k] == image[k];
    }
  }

  /** Translation succeeds exactly when no relocation is at fault on the bytes it starts from. */
  lemma {:induction false} TranslatesExactlyWhen(c: Context, image: seq<byte>, relocs: seq<PeReloc>)
    requires forall i :: 0 <= i < |relocs| ==> RelocInImage(c, relocs[i], |image|)
    requires CallsApart(relocs, c.sec)
    ensures Translate(c, image, relocs).Ok? <==> forall i :: 0 <= i < |relocs| ==> FaultOf(c, image, relocs[i]).None?
  {
    hide FaultOf, AddAt, Offset, Patch, Entry;
    if |relocs| > 0 {
      var front, last := relocs[..|relocs| - 1], relocs[|relocs| - 1];
      TranslatesExactlyWhen(c, image, front);
      if Translate(c, image, front).Ok? {
        var pos := c.sec.rawOffset + Offset(c.sec, last);
        if last.kind == REL32 {
          CallUntouched(c, image, front, pos - 1, pos + 4);
        }
        FaultIsLocal(c, last, Translate(c, image, front).value.image, image);
        assert forall i :: 0 <= i < |front| ==> front[i] == relocs[i];
      } else {
        var i :| 0 <= i < |front| && !FaultOf(c, image, front[i]).None?;
        assert front[i] == relocs[i];
      }
    }
  }

  function ContextFor(s: PeSection, obj: PeObject, symtab: seq<ElfSymbol>, symMap: map<nat, int>): Context
    requires Known(s)
  {
    Context(s, SectionIndex(s.name), |obj.symbols|, symtab, symMap)
  }

  /** The symbol table has been walked. */
  ghost predicate SymbolsReady(obj: PeObject, symtab: seq<ElfSymbol>, symMap: map<nat, int>, strtab: string) {
    symMap.Keys == Starts(obj.symbols, 0) && SymbolsTranslated(symMap, symtab, strtab, obj)
  }

  lemma RelocsInImage(s: PeSection, obj: PeObject, size: nat, symtab: seq<ElfSymbol>, symMap: map<nat, int>, strtab: string)
    requires SectionWellFormed(s, obj, size) && HasRelocs(s) && SymbolsReady(obj, symtab, symMap, strtab)
    ensures forall i :: 0 <= i < |Relocs(s)| ==> RelocInImage(ContextFor(s, obj, symtab, symMap), Relocs(s)[i], size)
    ensures ContextOf(ContextFor(s, obj, symtab, symMap), obj, strtab) && Stored(s)
  {
    hide FieldsApart, Offset, Describes, Kept;
    var relocs := Relocs(s);
    forall i | 0 <= i < |relocs|
      ensures RelocInImage(ContextFor(s, obj, symtab, symMap), relocs[i], size)
    {
      assert relocs[i] in relocs;
    }
  }

  /** A section is accepted, whatever happened to the others, exactly when its own bytes are. */
  lemma SectionTranslatesExactlyWhen(s: PeSection, obj: PeObject, image: seq<byte>, image0: seq<byte>, symtab: seq<ElfSymbol>, symMap: map<nat, int>,
                                     strtab: string)
    requires |image| == |image0| && SectionWellFormed(s, obj, |image0|) && HasRelocs(s) && SymbolsReady(obj, symtab, symMap, strtab)
    requires Slice(image, s) == Slice(image0, s)
    requires var c := ContextFor(s, obj, symtab, symMap); forall i :: 0 <= i < |Relocs(s)| ==> RelocInImage(c, Relocs(s)[i], |image|)
    ensures Translate(ContextFor(s, obj, symtab, symMap), image, Relocs(s)).Ok? <==> SectionAcceptable(s, obj, image0)
  {
    hide FieldsApart, FaultOf, Acceptable, Translate, Starts, SymbolsTranslated, RelocInImage, Slice;
    var c, relocs := ContextFor(s, obj, symtab, symMap), Relocs(s);
    TranslatesExactlyWhen(c, image, relocs);
    forall i | 0 <= i < |relocs|
      ensures RelocWellFormed(relocs[i], s, obj) && InSection(relocs[i], s, |image0|)
      ensures FaultOf(c, image, relocs[i]).None? <==> Acceptable(relocs[i], s, obj, image0)
    {
      assert relocs[i] in relocs;
      FaultFromSlice(c, relocs[i], image, image0);
      SameFault(c, relocs[i], obj, image0, strtab);
    }
  }

  predicate InSection(r: PeReloc, s: PeSection, size: nat) {
    1 <= s.rawOffset + Offset(s, r) && s.rawOffset + Offset(s, r) + 4 <= size
  }

  lemma FaultFromSlice(c: Context, r: PeReloc, a: seq<byte>, b: seq<byte>)
    requires |a| == |b| && c.sec.rawOffset + c.sec.rawSize <= |a| && Slice(a, c.sec) == Slice(b, c.sec)
    requires RelocInImage(c, r, |a|) && Offset(c.sec, r) + 4 <= c.sec.rawSize
    requires r.kind == REL32 ==> 1 <= Offset(c.sec, r)
    ensures FaultOf(c, a, r) == FaultOf(c, b, r)
  {
    hide Offset, FaultOf;
    var ofs, lo, hi := Offset(c.sec, r), c.sec.rawOffset, c.sec.rawOffset + c.sec.rawSize;
    if r.kind == REL32 {
      SliceOfSlice(a, lo, hi, ofs - 1, ofs + 4);
      SliceOfSlice(b, lo, hi, ofs - 1, ofs + 4);
    }
    FaultIsLocal(c, r, a, b);
  }
}
