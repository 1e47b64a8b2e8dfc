/** The converter's run over a whole object: sections, symbols, relocation sections, with the string
    table growing throughout. */
module ObjectWriter {
  import opened Words
  import opened Outcomes
  import opened Pe2Elf
  import opened ObjectLink
  import opened ObjectAccept
  import opened ObjectMeaning

  // ----- the sections -----

  lemma InsertedNames(tab: string, s: string)
    requires '\0' !in s
    ensures Names(tab + s + ['\0'], |tab|, s)
  {
  }

  /** No later section has the name of section j. */
  predicate LastNamed(sections: seq<PeSection>, j: nat, n: nat)
    requires j < n <= |sections|
  {
    forall k :: j < k < n ==> SectionIndex(sections[k].name) != SectionIndex(sections[j].name)
  }

  /** The header and the bytes of a section are in place. */
  predicate Written(s: PeSection, headers: map<nat, Header>, contents: map<nat, seq<byte>>, image: seq<byte>) {
    Known(s) ==>
      var idx := SectionIndex(s.name) as nat;
      && idx in headers && headers[idx].size == s.rawSize
      && (Stored(s) ==> s.rawOffset + s.rawSize <= |image| && idx in contents && contents[idx] == Slice(image, s))
  }

  predicate Named(s: PeSection, headers: map<nat, Header>, strtab: string) {
    Known(s) ==>
      var idx := SectionIndex(s.name) as nat;
      idx in headers && Names(strtab, headers[idx].name, s.name)
  }

  /** The first n sections as they stand, the later of two of one name having replaced the earlier. */
  predicate SectionsWritten(sections: seq<PeSection>, n: nat, headers: map<nat, Header>, contents: map<nat, seq<byte>>,
                            strtab: string, image: seq<byte>)
    requires n <= |sections|
  {
    && |strtab| > 0 && strtab[0] == '\0'
    && (forall j :: 0 <= j < n ==> Named(sections[j], headers, strtab))
    && (forall j :: 0 <= j < n && LastNamed(sections, j, n) ==> Written(sections[j], headers, contents, image))
  }

  /** One relocation section for each section with relocations, in order, named after it. */
  predicate RelsOpened(sections: seq<PeSection>, n: nat, rels: seq<RelSection>, strtab: string)
    requires n <= |sections|
  {
    && |rels| == |RelLinks(sections, n)|
    && forall k :: 0 <= k < |rels| ==>
         var s := sections[RelLinks(sections, n)[k]];
         && rels[k].link == RelLinks(sections, n)[k]
         && rels[k].info == SectionIndex(s.name) && Names(strtab, rels[k].name, ".rel" + s.name)
  }

  lemma NamedKept(sections: seq<PeSection>, n: nat, headers: map<nat, Header>, contents: map<nat, seq<byte>>,
                  strtab: string, image: seq<byte>, rels: seq<RelSection>, longer: string)
    requires strtab <= longer
    requires n <= |sections| && SectionsWritten(sections, n, headers, contents, strtab, image) && RelsOpened(sections, n, rels, strtab)
    ensures SectionsWritten(sections, n, headers, contents, longer, image) && RelsOpened(sections, n, rels, longer)
  {
    hide Names, LastNamed, Written;
    forall at: nat, s: string | Names(strtab, at, s)
      ensures Names(longer, at, s)
    {
      NamesKept(strtab, longer, at, s);
    }
  }

  lemma OneMoreNamed(sections: seq<PeSection>, n: nat, headers: map<nat, Header>, strtab: string, at: nat)
    requires n < |sections| && forall j :: 0 <= j < n ==> Named(sections[j], headers, strtab)
    requires Known(sections[n]) && Names(strtab, at, sections[n].name)
    ensures forall j :: 0 <= j < n + 1 ==>
              Named(sections[j], headers[SectionIndex(sections[n].name) as nat := Header(at, sections[n].rawSize)], strtab)
  {
    hide Names, SectionIndex;
    var headers' := headers[SectionIndex(sections[n].name) as nat := Header(at, sections[n].rawSize)];
    forall j | 0 <= j < n
      ensures Named(sections[j], headers', strtab)
    {
      if Known(sections[j]) && SectionIndex(sections[j].name) == SectionIndex(sections[n].name) {
        SameIndexSameName(sections[j].name, sections[n].name);
      }
    }
  }

  /** One more section, replacing what the name held before. */
  lemma OneMoreWritten(sections: seq<PeSection>, n: nat, headers: map<nat, Header>, contents: map<nat, seq<byte>>,
                       strtab: string, image: seq<byte>, at: nat)
    requires n < |sections| && SectionsWritten(sections, n, headers, contents, strtab, image)
    requires Known(sections[n]) && Names(strtab, at, sections[n].name)
    requires Stored(sections[n]) ==> sections[n].rawOffset + sections[n].rawSize <= |image|
    ensures var s := sections[n];
            var idx := SectionIndex(s.name) as nat;
            SectionsWritten(sections, n + 1, headers[idx := Header(at, s.rawSize)],
                            if Stored(s) then contents[idx := Slice(image, s)] else contents, strtab, image)
  {
    hide Names, Slice, SectionIndex, Named;
    var s := sections[n];
    var idx := SectionIndex(s.name) as nat;
    var headers', contents' := headers[idx := Header(at, s.rawSize)], if Stored(s) then contents[idx := Slice(image, s)] else contents;
    OneMoreNamed(sections, n, headers, strtab, at);
    forall j | 0 <= j < n + 1 && LastNamed(sections, j, n + 1)
      ensures Written(sections[j], headers', contents', image)
    {
      if j < n {
        assert LastNamed(sections, j, n);
      }
    }
  }

  lemma SameIndexSameName(a: string, b: string)
    requires SectionIndex(a) == SectionIndex(b) != -1
    ensures a == b
  {
  }

  /** A section of no interest changes nothing. */
  lemma OneMoreSkipped(sections: seq<PeSection>, n: nat, headers: map<nat, Header>, contents: map<nat, seq<byte>>,
                       strtab: string, image: seq<byte>)
    requires n < |sections| && SectionsWritten(sections, n, headers, contents, strtab, image) && !Known(sections[n])
    ensures SectionsWritten(sections, n + 1, headers, contents, strtab, image)
  {
    hide Names, Slice, SectionIndex;
    forall j | 0 <= j < n && LastNamed(sections, j, n + 1)
      ensures LastNamed(sections, j, n)
    {
    }
  }

  /** The relocation section of section n, opened or not needed. */
  lemma OneMoreOpened(sections: seq<PeSection>, n: nat, rels: seq<RelSection>, more: seq<RelSection>, strtab: string)
    requires n < |sections| && RelsOpened(sections, n, rels, strtab) && '\0' !in sections[n].name
    requires if !HasRelocs(sections[n]) then more == rels
             else |more| == |rels| + 1 && more[..|rels|] == rels && more[|rels|].link == n
                  && more[|rels|].info == SectionIndex(sections[n].name) && Names(strtab, more[|rels|].name, ".rel" + sections[n].name)
    ensures RelsOpened(sections, n + 1, more, strtab)
  {
    hide Names, SectionIndex;
    var links := RelLinks(sections, n);
    assert RelLinks(sections, n + 1) == links + if HasRelocs(sections[n]) then [n] else [];
    forall k | 0 <= k < |more|
      ensures more[k].link == RelLinks(sections, n + 1)[k]
      ensures var s := sections[RelLinks(sections, n + 1)[k]];
              more[k].info == SectionIndex(s.name) && Names(strtab, more[k].name, ".rel" + s.name)
    {
      if k < |rels| {
        assert more[..|rels|][k] == more[k];
      }
    }
  }

  lemma {:induction false} LinksGrow(sections: seq<PeSection>, n: nat)
    requires n <= |sections|
    ensures |RelLinks(sections, n)| <= |RelLinks(sections, |sections|)|
    decreases |sections| - n
  {
    if n < |sections| {
      LinksGrow(sections, n + 1);
    }
  }

  // ----- the symbols -----

  /** The new entry goes at the end of the table; what was there keeps its meaning. */
  lemma OneMoreSymbol(symMap: map<nat, int>, symtab: seq<ElfSymbol>, strtab: string, longer: string, obj: PeObject, i: nat, e: Option<ElfSymbol>)
    requires SymbolsTranslated(symMap, symtab, strtab, obj) && strtab <= longer && i < |obj.symbols| && |symtab| > 0
    requires e.Some? <==> Kept(obj.symbols[i], obj.sections)
    requires e.Some? ==> Describes(e.value, obj.symbols[i], obj.sections, longer)
    ensures e.None? ==> SymbolsTranslated(symMap[i := -1], symtab, longer, obj)
    ensures e.Some? ==> SymbolsTranslated(symMap[i := |symtab|], symtab + [e.value], longer, obj)
  {
    hide Names, Kept, KindOf, ElfName, SectionMap;
    forall k | k in symMap && symMap[k] != -1
      ensures Describes(symtab[symMap[k]], obj.symbols[k], obj.sections, longer)
    {
      DescribesKept(symtab[symMap[k]], obj.symbols[k], obj.sections, strtab, longer);
    }
  }

  lemma DescribesKept(e: ElfSymbol, s: PeSymbol, sections: seq<PeSection>, strtab: string, longer: string)
    requires Describes(e, s, sections, strtab) && strtab <= longer
    ensures Describes(e, s, sections, longer)
  {
    hide Names;
    NamesKept(strtab, longer, e.name, ElfName(s, sections));
  }

  // ----- the relocation sections -----

  /** What is left of a section once its relocations are translated, from some state of the image in
      which its own bytes were still the original ones. */
  ghost predicate Done(s: PeSection, entries: seq<ElfRel>, content: seq<byte>, obj: PeObject, image0: seq<byte>,
                       symtab: seq<ElfSymbol>, symMap: map<nat, int>)
  {
    && HasRelocs(s) && s.rawOffset + s.rawSize <= |image0|
    && exists image :: TranslatedFrom(image, s, entries, content, obj, image0, symtab, symMap)
  }

  ghost predicate TranslatedFrom(image: seq<byte>, s: PeSection, entries: seq<ElfRel>, content: seq<byte>, obj: PeObject,
                                 image0: seq<byte>, symtab: seq<ElfSymbol>, symMap: map<nat, int>)
    requires HasRelocs(s) && s.rawOffset + s.rawSize <= |image0|
  {
    var c := ContextFor(s, obj, symtab, symMap);
    && |image| == |image0| && Slice(image, s) == Slice(image0, s)
    && (forall i :: 0 <= i < |Relocs(s)| ==> RelocInImage(c, Relocs(s)[i], |image|))
    && Translate(c, image, Relocs(s)).Ok?
    && Translate(c, image, Relocs(s)).value.entries == entries
    && content == Slice(Translate(c, image, Relocs(s)).value.image, s)
  }

  /** Without a call nothing in the image changes, so the section need not be written again. */
  lemma {:induction false} UnmodifiedUnchanged(c: Context, image: seq<byte>, relocs: seq<PeReloc>)
    requires forall i :: 0 <= i < |relocs| ==> RelocInImage(c, relocs[i], |image|)
    requires Translate(c, image, relocs).Ok? && !Translate(c, image, relocs).value.modified
    ensures Translate(c, image, relocs).value.image == image
  {
    hide AddAt;
    if |relocs| > 0 {
      var last := relocs[|relocs| - 1];
      UnmodifiedUnchanged(c, image, relocs[..|relocs| - 1]);
      AddNothing(image, c.sec.rawOffset + Offset(c.sec, last));
    }
  }

  /** A section's relocations leave every other section alone. */
  lemma OthersUntouched(c: Context, image: seq<byte>, relocs: seq<PeReloc>, other: PeSection)
    requires forall i :: 0 <= i < |relocs| ==> RelocInImage(c, relocs[i], |image|)
    requires forall i :: 0 <= i < |relocs| ==> Offset(c.sec, relocs[i]) + 4 <= c.sec.rawSize
    requires Stored(c.sec) && Stored(other) && (Separate(c.sec, other) || Separate(other, c.sec))
    requires other.rawOffset + other.rawSize <= |image| && Translate(c, image, relocs).Ok?
    ensures Slice(Translate(c, image, relocs).value.image, other) == Slice(image, other)
  {
    hide RelocInImage, Translate, Offset, SectionIndex;
    CallUntouched(c, image, relocs, other.rawOffset, other.rawOffset + other.rawSize);
  }

  predicate Intact(s: PeSection, contents: map<nat, seq<byte>>, image: seq<byte>, image0: seq<byte>) {
    Stored(s) ==>
      && s.rawOffset + s.rawSize <= |image0| == |image|
      && Slice(image, s) == Slice(image0, s)
      && SectionIndex(s.name) as nat in contents && contents[SectionIndex(s.name) as nat] == Slice(image0, s)
  }

  predicate Sized(s: PeSection, headers: map<nat, Header>) {
    Known(s) ==> SectionIndex(s.name) as nat in headers && headers[SectionIndex(s.name) as nat].size == s.rawSize
  }

  /** After k relocation sections: those are done, and every section without one of them is intact. */
  ghost predicate Progress(k: nat, rels: seq<RelSection>, contents: map<nat, seq<byte>>, image: seq<byte>, image0: seq<byte>,
                           obj: PeObject, symtab: seq<ElfSymbol>, symMap: map<nat, int>)
  {
    var links := RelLinks(obj.sections, |obj.sections|);
    && |rels| == |links| && k <= |links|
    && (forall j :: 0 <= j < |rels| ==> rels[j].link == links[j] && rels[j].info == SectionIndex(obj.sections[links[j]].name))
    && (forall j :: 0 <= j < k ==>
          rels[j].info in contents && Done(obj.sections[links[j]], rels[j].entries, contents[rels[j].info], obj, image0, symtab, symMap))
    && (forall i :: 0 <= i < |obj.sections| && i !in links[..k] ==> Intact(obj.sections[i], contents, image, image0))
  }

  /** The relocation sections come in the order of their sections, and none is missing. */
  lemma {:induction false} LinksAscend(sections: seq<PeSection>, n: nat)
    requires n <= |sections|
    ensures Ascending(RelLinks(sections, n))
    ensures forall i :: 0 <= i < n && HasRelocs(sections[i]) ==> i in RelLinks(sections, n)
  {
    hide HasRelocs;
    if n > 0 {
      var front := RelLinks(sections, n - 1);
      LinksAscend(sections, n - 1);
      assert RelLinks(sections, n) == front + if HasRelocs(sections[n - 1]) then [n - 1] else [];
      forall i | 0 <= i < n && HasRelocs(sections[i])
        ensures i in RelLinks(sections, n)
      {
        assert i < n - 1 ==> i in front;
      }
    }
  }

  predicate Ascending(links: seq<nat>) { forall a, b :: 0 <= a < b < |links| ==> links[a] < links[b] }

  /** The k-th relocation section done, on a section that was intact until then. */
  lemma ProgressStep(k: nat, rels: seq<RelSection>, rels': seq<RelSection>, contents: map<nat, seq<byte>>, contents': map<nat, seq<byte>>,
                     image: seq<byte>, image': seq<byte>, image0: seq<byte>, obj: PeObject, symtab: seq<ElfSymbol>, symMap: map<nat, int>)
    requires WellFormed(obj, |image0|) && Progress(k, rels, contents, image, image0, obj, symtab, symMap) && k < |rels|
    requires |rels'| == |rels| && rels' == rels[k := rels'[k]] && rels'[k].info == rels[k].info && rels'[k].link == rels[k].link
    requires rels[k].info in contents' && contents' == contents[rels[k].info := contents'[rels[k].info]]
    requires Done(obj.sections[RelLinks(obj.sections, |obj.sections|)[k]], rels'[k].entries, contents'[rels[k].info], obj, image0, symtab, symMap)
    requires forall i :: 0 <= i < |obj.sections| && i != RelLinks(obj.sections, |obj.sections|)[k] && Stored(obj.sections[i]) ==>
               obj.sections[i].rawOffset + obj.sections[i].rawSize <= |image0| == |image| == |image'|
               && Slice(image', obj.sections[i]) == Slice(image, obj.sections[i])
    ensures Progress(k + 1, rels', contents', image', image0, obj, symtab, symMap)
  {
    hide Done, SectionWellFormed, Slice, SectionIndex, RelLinks;
    var links := RelLinks(obj.sections, |obj.sections|);
    LinksAscend(obj.sections, |obj.sections|);
    forall i | 0 <= i < |obj.sections| && i != links[k] && Known(obj.sections[i])
      ensures SectionIndex(obj.sections[i].name) != rels[k].info
    {
      DifferentIndex(obj.sections, i, links[k]);
    }
    assert links[..k + 1] == links[..k] + [links[k]];
    forall j | 0 <= j < k
      ensures rels'[j].info in contents'
      ensures Done(obj.sections[links[j]], rels'[j].entries, contents'[rels'[j].info], obj, image0, symtab, symMap)
    {
      assert links[j] < links[k] && HasRelocs(obj.sections[links[j]]);
    }
    forall i | 0 <= i < |obj.sections| && i !in links[..k + 1]
      ensures Intact(obj.sections[i], contents', image', image0)
    {
      assert i !in links[..k];
      assert Intact(obj.sections[i], contents, image, image0);
    }
  }

  /** The section whose turn it is. */
  lemma NextIsIntact(k: nat, rels: seq<RelSection>, contents: map<nat, seq<byte>>, image: seq<byte>, image0: seq<byte>,
                     obj: PeObject, symtab: seq<ElfSymbol>, symMap: map<nat, int>)
    requires Progress(k, rels, contents, image, image0, obj, symtab, symMap) && k < |rels|
    ensures var i := rels[k].link;
            && |rels| == |RelLinks(obj.sections, |obj.sections|)| && i == RelLinks(obj.sections, |obj.sections|)[k] < |obj.sections|
            && HasRelocs(obj.sections[i]) && rels[k].info == SectionIndex(obj.sections[i].name)
            && Intact(obj.sections[i], contents, image, image0)
  {
    hide Done, Intact, SectionIndex;
    LinksAscend(obj.sections, |obj.sections|);
  }

  /** What the translation of section i does to the image stays within section i. */
  lemma OnlyThatSection(i: nat, obj: PeObject, image: seq<byte>, symtab: seq<ElfSymbol>, symMap: map<nat, int>)
    requires WellFormed(obj, |image|) && i < |obj.sections| && HasRelocs(obj.sections[i])
    requires var c := ContextFor(obj.sections[i], obj, symtab, symMap);
             (forall j :: 0 <= j < |Relocs(obj.sections[i])| ==> RelocInImage(c, Relocs(obj.sections[i])[j], |image|))
             && Translate(c, image, Relocs(obj.sections[i])).Ok?
    ensures var after := Translate(ContextFor(obj.sections[i], obj, symtab, symMap), image, Relocs(obj.sections[i])).value.image;
            forall j :: 0 <= j < |obj.sections| && j != i && Stored(obj.sections[j]) ==>
              obj.sections[j].rawOffset + obj.sections[j].rawSize <= |image| == |after|
              && Slice(after, obj.sections[j]) == Slice(image, obj.sections[j])
  {
    hide Translate, RelocInImage, Slice, SectionIndex, Separate, FieldsApart, CallsApart, Offset;
    var s := obj.sections[i];
    assert SectionWellFormed(s, obj, |image|);
    forall k | 0 <= k < |Relocs(s)|
      ensures Offset(s, Relocs(s)[k]) + 4 <= s.rawSize
    {
      assert Relocs(s)[k] in Relocs(s);
    }
    forall j | 0 <= j < |obj.sections| && j != i && Stored(obj.sections[j])
      ensures obj.sections[j].rawOffset + obj.sections[j].rawSize <= |image|
      ensures Slice(Translate(ContextFor(s, obj, symtab, symMap), image, Relocs(s)).value.image, obj.sections[j]) == Slice(image, obj.sections[j])
    {
      assert SectionWellFormed(obj.sections[j], obj, |image|);
      OthersUntouched(ContextFor(s, obj, symtab, symMap), image, Relocs(s), obj.sections[j]);
    }
  }

  lemma DifferentIndex(sections: seq<PeSection>, i: nat, j: nat)
    requires i < |sections| && j < |sections| && i != j && Known(sections[i]) && Known(sections[j])
    requires forall a, b :: 0 <= a < b < |sections| ==> Separate(sections[a], sections[b])
    ensures SectionIndex(sections[i].name) != SectionIndex(sections[j].name)
  {
    if SectionIndex(sections[i].name) == SectionIndex(sections[j].name) {
      SameIndexSameName(sections[i].name, sections[j].name);
    }
  }

  predicate SameNames(before: seq<RelSection>, after: seq<RelSection>) {
    |after| == |before| && forall j :: 0 <= j < |before| ==> after[j].name == before[j].name
  }

  class Converter {
    const image: array<byte>
    var strtab: string
    var headers: map<nat, Header>
    var contents: map<nat, seq<byte>>
    var rels: seq<RelSection>

    constructor (image: array<byte>)
      ensures this.image == image && strtab == ['\0'] && headers == map[] && contents == map[] && rels == []
    {
      this.image, strtab, headers, contents, rels := image, ['\0'], map[], map[], [];
    }

    method InsertString(name: string) returns (at: nat)
      requires '\0' !in name
      modifies this`strtab
      ensures strtab == old(strtab) + Stripped(name) + ['\0']
      ensures Names(strtab, at, Stripped(name))
      ensures at == |old(strtab)| && Unprefixed(ReadString(strtab, at), name)
    {
      StrippedExactly(Stripped(name), name);
      assert '\0' !in Stripped(name) by {
        assert forall c :: c in Stripped(name) ==> c in name;
      }
      InsertedNames(strtab, Stripped(name));
      at := |strtab|;
      strtab := strtab + Stripped(name) + ['\0'];
      NamesRead(strtab, at, Stripped(name));
    }

    /** A relocation section named after s; its name ends in that of s. */
    method OpenRel(s: PeSection, i: nat) returns (at: nat)
      requires Known(s) && '\0' !in s.name
      modifies this`strtab, this`rels
      ensures old(strtab) <= strtab && Names(strtab, at, s.name)
      ensures |rels| == |old(rels)| + 1 && rels[..|old(rels)|] == old(rels)
      ensures var r := rels[|old(rels)|]; r.link == i && r.info == SectionIndex(s.name) && Names(strtab, r.name, ".rel" + s.name)
    {
      hide Names, SectionIndex, Stripped, Unprefixed, ReadString;
      RelName(s);
      at := InsertString(".rel" + s.name);
      rels := rels + [RelSection(at, i, SectionIndex(s.name), [])];
      NamesTail(strtab, at, ".rel", s.name);
      assert strtab == old(strtab) + (Stripped(".rel" + s.name) + ['\0']);
      at := at + 4;
    }

    /** One turn of write_section_data. */
    method WriteSection(s: PeSection, i: nat) returns (full: bool)
      requires '\0' !in s.name && (Stored(s) ==> s.rawOffset + s.rawSize <= image.Length)
      modifies this
      ensures full <==> HasRelocs(s) && old(|rels|) >= MAX_REL_SECTIONS
      ensures old(strtab) <= strtab
      ensures !Known(s) ==> headers == old(headers) && contents == old(contents) && rels == old(rels)
      ensures !full && Known(s) ==>
                var idx := SectionIndex(s.name) as nat;
                && idx in headers && Names(strtab, headers[idx].name, s.name)
                && headers == old(headers)[idx := Header(headers[idx].name, s.rawSize)]
                && contents == if Stored(s) then old(contents)[idx := Slice(image[..], s)] else old(contents)
      ensures !full && !HasRelocs(s) ==> rels == old(rels)
      ensures !full && HasRelocs(s) ==>
                && |rels| == |old(rels)| + 1 && rels[..|old(rels)|] == old(rels)
                && var r := rels[|old(rels)|]; r.link == i && r.info == SectionIndex(s.name) && Names(strtab, r.name, ".rel" + s.name)
    {
      hide Names, SectionIndex, Stripped, Unprefixed, ReadString;
      if !Known(s) {
        return false;
      }
      var idx := SectionIndex(s.name) as nat;
      if idx != BSS {
        contents := contents[idx := image[s.rawOffset..s.rawOffset + s.rawSize]];
      }
      var at;
      if s.relocs.Some? {
        if |rels| >= MAX_REL_SECTIONS {
          return true;
        }
        at := OpenRel(s, i);
      } else {
        RelName(s);
        at := InsertString(s.name);
        assert strtab == old(strtab) + (Stripped(s.name) + ['\0']);
      }
      headers := headers[idx := Header(at, s.rawSize)];
      full := false;
    }

    /** write_section_data. */
    method WriteSections(sections: seq<PeSection>) returns (full: bool)
      requires SectionsWritten(sections, 0, headers, contents, strtab, image[..]) && rels == []
      requires forall i :: 0 <= i < |sections| ==> '\0' !in sections[i].name
      requires forall i :: 0 <= i < |sections| && Stored(sections[i]) ==> sections[i].rawOffset + sections[i].rawSize <= image.Length
      modifies this
      ensures full <==> |RelLinks(sections, |sections|)| > MAX_REL_SECTIONS
      ensures !full ==> SectionsWritten(sections, |sections|, headers, contents, strtab, image[..])
      ensures !full ==> RelsOpened(sections, |sections|, rels, strtab)
    {
      hide Names, SectionIndex, Slice, SectionsWritten, Stored;
      for i := 0 to |sections|
        invariant SectionsWritten(sections, i, headers, contents, strtab, image[..])
        invariant RelsOpened(sections, i, rels, strtab) && |rels| <= MAX_REL_SECTIONS
      {
        full := WriteSectionAt(sections, i);
        LinksGrow(sections, i + 1);
        if full {
          return;
        }
      }
      full := false;
    }

    /** One section more in the tables. */
    method WriteSectionAt(sections: seq<PeSection>, i: nat) returns (full: bool)
      requires i < |sections| && '\0' !in sections[i].name
      requires Stored(sections[i]) ==> sections[i].rawOffset + sections[i].rawSize <= image.Length
      requires SectionsWritten(sections, i, headers, contents, strtab, image[..])
      requires RelsOpened(sections, i, rels, strtab) && |rels| <= MAX_REL_SECTIONS
      modifies this
      ensures full <==> |RelLinks(sections, i + 1)| > MAX_REL_SECTIONS
      ensures !full ==> SectionsWritten(sections, i + 1, headers, contents, strtab, image[..])
      ensures !full ==> RelsOpened(sections, i + 1, rels, strtab)
    {
      hide Names, SectionIndex, Slice, SectionsWritten, Stored, Known;
      ghost var before := rels;
      full := WriteSection(sections[i], i);
      if full {
        return;
      }
      NamedKept(sections, i, old(headers), old(contents), old(strtab), image[..], before, strtab);
      if Known(sections[i]) {
        var at := headers[SectionIndex(sections[i].name) as nat].name;
        OneMoreWritten(sections, i, old(headers), old(contents), strtab, image[..], at);
      } else {
        OneMoreSkipped(sections, i, headers, contents, strtab, image[..]);
      }
      OneMoreOpened(sections, i, before, rels, strtab);
    }

    /** One turn of write_symbol_table: the symbol's entry, or None when it is dropped. */
    method TranslateSymbol(s: PeSymbol, sectionMap: seq<int>, ghost sections: seq<PeSection>) returns (e: Option<ElfSymbol>)
      requires sectionMap == SectionMap(sections) && '\0' !in s.name && |strtab| > 0 && strtab[0] == '\0'
      requires forall j :: 0 <= j < |sections| ==> Named(sections[j], headers, strtab)
      modifies this`strtab
      ensures old(strtab) <= strtab
      ensures e.Some? <==> Kept(s, sections)
      ensures e.Some? ==> Describes(e.value, s, sections, strtab)
    {
      hide SectionIndex, Stripped, Unprefixed, ReadString;
      if s.section >= |sectionMap| || sectionMap[s.section] == -1 {
        return None;
      }
      var kind := if s.section == 0 then NoType else if s.kind == FUNCTION then Function else Object;
      var global := s.storageClass == EXTERNAL;
      var shndx := sectionMap[s.section];
      var name: nat;
      if s.kind != FUNCTION && s.auxCount > 0 {
        if s.value == 0 {
          kind := SectionSymbol;
        }
        assert s.section > 0 ==> Named(sections[s.section - 1], headers, strtab);
        name := if shndx == 0 then 0 else headers[shndx].name;
      } else {
        if s.name != "_grub_mod_init" && s.name != "_grub_mod_fini" && !global {
          return None;
        }
        name := InsertString(s.name);
        assert strtab == old(strtab) + (Stripped(s.name) + ['\0']);
      }
      e := Some(ElfSymbol(name, shndx, s.value, global, kind));
    }

    /** The loop of write_symbol_table; slots that are not visited stay out of the map. */
    method WriteSymbols(obj: PeObject) returns (symtab: seq<ElfSymbol>, symMap: map<nat, int>)
      requires |strtab| > 0 && strtab[0] == '\0' && forall i :: 0 <= i < |obj.symbols| ==> '\0' !in obj.symbols[i].name
      requires forall j :: 0 <= j < |obj.sections| ==> Named(obj.sections[j], headers, strtab)
      modifies this`strtab
      ensures old(strtab) <= strtab
      ensures symMap.Keys == Starts(obj.symbols, 0) && SymbolsTranslated(symMap, symtab, strtab, obj)
    {
      hide Describes, Kept, SectionMap;
      var sectionMap := SectionMap(obj.sections);
      symtab, symMap := [ElfSymbol(0, 0, 0, false, NoType)], map[];
      var i := 0;
      while i < |obj.symbols|
        invariant |symtab| > 0 && old(strtab) <= strtab && SymbolsTranslated(symMap, symtab, strtab, obj)
        invariant symMap.Keys + Starts(obj.symbols, i) == Starts(obj.symbols, 0)
      {
        ghost var before := strtab;
        NamedLonger(obj.sections, headers, old(strtab), strtab);
        var e := TranslateSymbol(obj.symbols[i], sectionMap, obj.sections);
        OneMoreSymbol(symMap, symtab, before, strtab, obj, i, e);
        if e.None? {
          symMap := symMap[i := -1];
        } else {
          symMap := symMap[i := |symtab|];
          symtab := symtab + [e.value];
        }
        i := i + obj.symbols[i].auxCount + 1;
      }
    }

    /** One turn of write_reloc_section: the entries, and the section written again if a call changed it. */
    method WriteRel(k: nat, s: PeSection, obj: PeObject, symtab: seq<ElfSymbol>, symMap: map<nat, int>, ghost image0: seq<byte>)
      returns (fault: Option<Fault>)
      requires k < |rels| && HasRelocs(s) && rels[k].info == SectionIndex(s.name)
      requires Stored(s) && Sized(s, headers) && |image0| == image.Length && Intact(s, contents, image[..], image0)
      requires forall i :: 0 <= i < |Relocs(s)| ==> RelocInImage(ContextFor(s, obj, symtab, symMap), Relocs(s)[i], image.Length)
      modifies image, this`rels, this`contents
      ensures |rels| == |old(rels)|
      ensures var res := Translate(ContextFor(s, obj, symtab, symMap), old(image[..]), Relocs(s));
              && (fault.None? <==> res.Ok?)
              && (res.Ok? ==> image[..] == res.value.image)
      ensures fault.None? ==> |rels| == |old(rels)| && rels == old(rels)[k := rels[k]] && rels[k].link == old(rels[k].link)
      ensures fault.None? ==> rels[k].info == SectionIndex(s.name) && rels[k].name == old(rels[k].name)
      ensures fault.None? ==> var idx := SectionIndex(s.name) as nat; idx in contents && contents == old(contents)[idx := contents[idx]]
      ensures fault.None? ==> Done(s, rels[k].entries, contents[SectionIndex(s.name) as nat], obj, image0, symtab, symMap)
    {
      hide SectionIndex, RelocInImage, Translate, Slice;
      var c := Context(s, rels[k].info, |obj.symbols|, symtab, symMap);
      assert c == ContextFor(s, obj, symtab, symMap) && Relocs(s) == s.relocs.value;
      var outcome, modified := TranslateSection(image, c, s.relocs.value);
      if outcome.Err? {
        return Some(outcome.error);
      }
      var idx := rels[k].info;
      if modified {
        contents := contents[idx := image[s.rawOffset..s.rawOffset + headers[idx].size]];
        assert |image[..]| == |image0|;
        SliceIsSlice(image[..], s);
      } else {
        UnmodifiedUnchanged(c, old(image[..]), s.relocs.value);
      }
      rels := rels[k := rels[k].(entries := outcome.value)];
      assert TranslatedFrom(old(image[..]), s, rels[k].entries, contents[idx], obj, image0, symtab, symMap);
      fault := None;
    }

    /** The next relocation section, given the earlier ones. */
    method WriteRelAt(k: nat, obj: PeObject, symtab: seq<ElfSymbol>, symMap: map<nat, int>, ghost image0: seq<byte>) returns (fault: Option<Fault>)
      requires WellFormed(obj, |image0|) && SymbolsReady(obj, symtab, symMap, strtab) && k < |rels| && |image0| == image.Length
      requires forall i :: 0 <= i < |obj.sections| ==> Sized(obj.sections[i], headers)
      requires Progress(k, rels, contents, image[..], image0, obj, symtab, symMap)
      modifies image, this`rels, this`contents
      ensures |rels| == |old(rels)|
      ensures fault.None? ==> Progress(k + 1, rels, contents, image[..], image0, obj, symtab, symMap) && SameNames(old(rels), rels)
      ensures fault.None? <==> SectionAcceptable(obj.sections[RelLinks(obj.sections, |obj.sections|)[k]], obj, image0)
    {
      hide Progress, SectionWellFormed, RelLinks, Slice, SectionIndex, SectionAcceptable, Done, Translate, Separate, SymbolsReady, RelocInImage;
      NextIsIntact(k, rels, contents, image[..], image0, obj, symtab, symMap);
      var i := rels[k].link;
      var s := obj.sections[i];
      ghost var before := image[..];
      RelocsInImage(s, obj, |image0|, symtab, symMap, strtab);
      SectionTranslatesExactlyWhen(s, obj, before, image0, symtab, symMap, strtab);
      fault := WriteRel(k, s, obj, symtab, symMap, image0);
      if fault.None? {
        OnlyThatSection(i, obj, before, symtab, symMap);
        ProgressStep(k, old(rels), rels, old(contents), contents, before, image[..], image0, obj, symtab, symMap);
      }
    }

    /** write_reloc_section over every relocation section. */
    method WriteRels(obj: PeObject, symtab: seq<ElfSymbol>, symMap: map<nat, int>, ghost image0: seq<byte>) returns (fault: Option<Fault>)
      requires WellFormed(obj, |image0|) && SymbolsReady(obj, symtab, symMap, strtab) && |image0| == image.Length
      requires forall i :: 0 <= i < |obj.sections| ==> Sized(obj.sections[i], headers)
      requires Progress(0, rels, contents, image[..], image0, obj, symtab, symMap)
      modifies image, this`rels, this`contents
      ensures fault.None? ==> Progress(|rels|, rels, contents, image[..], image0, obj, symtab, symMap) && SameNames(old(rels), rels)
      ensures fault.None? <==> forall i :: 0 <= i < |obj.sections| ==> SectionAcceptable(obj.sections[i], obj, image0)
    {
      hide Progress, SectionAcceptable, SectionWellFormed, RelLinks, SymbolsReady, Sized;
      ghost var links := RelLinks(obj.sections, |obj.sections|);
      for k := 0 to |rels|
        invariant |rels| == |old(rels)| && SameNames(old(rels), rels)
        invariant Progress(k, rels, contents, image[..], image0, obj, symtab, symMap)
        invariant k <= |links| && forall j :: 0 <= j < k ==> SectionAcceptable(obj.sections[links[j]], obj, image0)
      {
        CountsAgree(k, rels, contents, image[..], image0, obj, symtab, symMap);
        fault := WriteRelAt(k, obj, symtab, symMap, image0);
        if fault.Some? {
          return;
        }
      }
      CountsAgree(|rels|, rels, contents, image[..], image0, obj, symtab, symMap);
      AllAcceptable(obj, image0);
      fault := None;
    }

    /** The whole conversion, on a fresh converter: it succeeds exactly on the accepted objects, and then
        every section links to the bytes that the PE object means, wherever sections and symbols go. */
    method Convert(obj: PeObject) returns (outcome: Result<ElfObject, Fault>)
      requires WellFormed(obj, image.Length)
      requires strtab == ['\0'] && headers == map[] && contents == map[] && rels == []
      modifies this, image
      ensures outcome.Ok? <==> Accepted(obj, old(image[..]))
      ensures outcome.Ok? ==> forall i :: 0 <= i < |obj.sections| ==> Named(obj.sections[i], outcome.value.headers, outcome.value.strtab)
      ensures outcome.Ok? ==> exists symMap :: SymbolsReady(obj, outcome.value.symtab, symMap, outcome.value.strtab)
      ensures outcome.Ok? ==> exists symMap :: Converted(outcome.value, obj, old(image[..]), symMap)
      ensures outcome.Ok? && NamedExternals(obj) ==>
                forall i: nat, w: World :: i < |obj.sections| ==> LinksAlike(outcome.value, obj, i, old(image[..]), w)
      ensures outcome.Ok? && NamedExternals(obj) ==>
                forall i: nat, w: World :: i < |obj.sections| ==> LinksByField(outcome.value, obj, i, old(image[..]), w)
    {
      hide Progress, SectionAcceptable, SectionWellFormed, SymbolsReady, Sized, Named, SectionsWritten, RelsOpened, LinksAlike, NamedExternals,
           RelLinks, SectionMap, LinksByField, Converted;
      ghost var image0 := image[..];
      StartConditions(obj, image0, headers, contents, strtab);
      var full := WriteSections(obj.sections);
      if full {
        return Err(TooManySections);
      }
      AfterSections(obj, headers, contents, strtab, image0, rels);
      ghost var strtab0 := strtab;
      var symtab, symMap := WriteSymbols(obj);
      SymbolsAreReady(obj, symtab, symMap, strtab);
      NamedLonger(obj.sections, headers, strtab0, strtab);
      BeforeRels(obj, headers, contents, strtab0, image0, rels, symtab, symMap);
      NamedKept(obj.sections, |obj.sections|, headers, contents, strtab0, image0, rels, strtab);
      ghost var initial := rels;
      var fault := WriteRels(obj, symtab, symMap, image0);
      if fault.Some? {
        return Err(fault.value);
      }
      outcome := Ok(ElfObject(headers, contents, rels, symtab, strtab));
      IsConverted(outcome.value, obj, image[..], image0, symMap, initial);
      if NamedExternals(obj) {
        forall i: nat, w: World | i < |obj.sections|
          ensures LinksAlike(outcome.value, obj, i, image0, w) && LinksByField(outcome.value, obj, i, image0, w)
        {
          SectionLinksAlike(outcome.value, obj, i, image[..], image0, symMap, w);
          AlikeByField(outcome.value, obj, i, image0, w);
        }
      }
    }
  }

  lemma CountsAgree(k: nat, rels: seq<RelSection>, contents: map<nat, seq<byte>>, image: seq<byte>, image0: seq<byte>,
                    obj: PeObject, symtab: seq<ElfSymbol>, symMap: map<nat, int>)
    requires Progress(k, rels, contents, image, image0, obj, symtab, symMap)
    ensures k <= |rels| == |RelLinks(obj.sections, |obj.sections|)|
  {
  }

  lemma AllAcceptable(obj: PeObject, image0: seq<byte>)
    requires WellFormed(obj, |image0|)
    requires var links := RelLinks(obj.sections, |obj.sections|);
             forall j :: 0 <= j < |links| ==> SectionAcceptable(obj.sections[links[j]], obj, image0)
    ensures forall i :: 0 <= i < |obj.sections| ==> SectionAcceptable(obj.sections[i], obj, image0)
  {
    hide SectionWellFormed, HasRelocs;
    LinksAscend(obj.sections, |obj.sections|);
    forall i | 0 <= i < |obj.sections| && HasRelocs(obj.sections[i])
      ensures SectionAcceptable(obj.sections[i], obj, image0)
    {
      assert i in RelLinks(obj.sections, |obj.sections|);
    }
  }

  lemma StartConditions(obj: PeObject, image0: seq<byte>, headers: map<nat, Header>, contents: map<nat, seq<byte>>, strtab: string)
    requires WellFormed(obj, |image0|) && strtab == ['\0']
    ensures SectionsWritten(obj.sections, 0, headers, contents, strtab, image0)
    ensures forall i :: 0 <= i < |obj.sections| ==> '\0' !in obj.sections[i].name
    ensures forall i :: 0 <= i < |obj.sections| && Stored(obj.sections[i]) ==>
              obj.sections[i].rawOffset + obj.sections[i].rawSize <= |image0|
  {
    hide FieldsApart, CallsApart, RelocWellFormed, SectionIndex;
    forall i | 0 <= i < |obj.sections|
      ensures SectionWellFormed(obj.sections[i], obj, |image0|)
    {
    }
  }

  /** With distinct names every section was the last of its name. */
  lemma AfterSections(obj: PeObject, headers: map<nat, Header>, contents: map<nat, seq<byte>>, strtab: string, image0: seq<byte>, rels: seq<RelSection>)
    requires WellFormed(obj, |image0|) && SectionsWritten(obj.sections, |obj.sections|, headers, contents, strtab, image0)
    ensures |strtab| > 0 && strtab[0] == '\0'
    ensures forall i :: 0 <= i < |obj.sections| ==> Named(obj.sections[i], headers, strtab)
    ensures forall i :: 0 <= i < |obj.sections| ==> Sized(obj.sections[i], headers) && Intact(obj.sections[i], contents, image0, image0)
  {
    hide SectionWellFormed, SectionIndex, Slice, Named;
    forall i | 0 <= i < |obj.sections| && Known(obj.sections[i])
      ensures LastNamed(obj.sections, i, |obj.sections|)
    {
      forall k | i < k < |obj.sections|
        ensures SectionIndex(obj.sections[k].name) != SectionIndex(obj.sections[i].name)
      {
        if Known(obj.sections[k]) {
          DifferentIndex(obj.sections, i, k);
        }
      }
    }
  }

  lemma SymbolsAreReady(obj: PeObject, symtab: seq<ElfSymbol>, symMap: map<nat, int>, strtab: string)
    requires symMap.Keys == Starts(obj.symbols, 0) && SymbolsTranslated(symMap, symtab, strtab, obj)
    ensures SymbolsReady(obj, symtab, symMap, strtab)
  {
  }

  lemma BeforeRels(obj: PeObject, headers: map<nat, Header>, contents: map<nat, seq<byte>>, strtab: string, image0: seq<byte>,
                   rels: seq<RelSection>, symtab: seq<ElfSymbol>, symMap: map<nat, int>)
    requires RelsOpened(obj.sections, |obj.sections|, rels, strtab)
    requires forall i :: 0 <= i < |obj.sections| ==> Intact(obj.sections[i], contents, image0, image0)
    ensures Progress(0, rels, contents, image0, image0, obj, symtab, symMap)
  {
    hide Names, SectionIndex, Intact;
  }

  // ----- the linked object -----

  /** The entries of every relocation section that patches this section. */
  function EntriesFor(rels: seq<RelSection>, idx: nat): seq<ElfRel> {
    if |rels| == 0 then []
    else EntriesFor(rels[..|rels| - 1], idx) + if rels[|rels| - 1].info == idx then rels[|rels| - 1].entries else []
  }

  lemma {:induction false} EntriesForNone(rels: seq<RelSection>, idx: nat)
    requires forall k :: 0 <= k < |rels| ==> rels[k].info != idx
    ensures EntriesFor(rels, idx) == []
  {
    if |rels| > 0 {
      EntriesForNone(rels[..|rels| - 1], idx);
    }
  }

  lemma {:induction false} EntriesForOne(rels: seq<RelSection>, idx: nat, j: nat)
    requires j < |rels| && rels[j].info == idx && forall k :: 0 <= k < |rels| && k != j ==> rels[k].info != idx
    ensures EntriesFor(rels, idx) == rels[j].entries
  {
    var front := rels[..|rels| - 1];
    if j == |rels| - 1 {
      EntriesForNone(front, idx);
    } else {
      EntriesForOne(front, idx, j);
    }
  }

  /** No relocation names an undefined symbol that goes by the name of a section. */
  predicate NamedExternals(obj: PeObject) {
    forall i, r :: 0 <= i < |obj.sections| && r in Relocs(obj.sections[i]) && r.sym < |obj.symbols| ==>
      obj.symbols[r.sym].section == 0 ==> !SectionNamed(obj.symbols[r.sym])
  }

  /** The relocations that the object has for section i; those of a section of no interest are not read. */
  ghost predicate LinksAlike(elf: ElfObject, obj: PeObject, i: nat, image0: seq<byte>, w: World)
    requires i < |obj.sections|
  {
    var s := obj.sections[i];
    Stored(s) ==>
      var idx := SectionIndex(s.name) as nat;
      && s.rawOffset + s.rawSize <= |image0| && AllLinkable(Relocs(s), s, obj)
      && idx in elf.contents && |elf.contents[idx]| == s.rawSize
      && EntriesFit(EntriesFor(elf.rels, idx), elf.symtab, s.rawSize)
      && LinkElf(elf.contents[idx], EntriesFor(elf.rels, idx), elf.symtab, elf.strtab, w.base(idx), w)
           == LinkPe(Slice(image0, s), Relocs(s), s, obj, w.base(idx), w)
  }

  lemma AcceptedAreLinkable(s: PeSection, i: nat, obj: PeObject, image0: seq<byte>)
    requires SectionWellFormed(s, obj, |image0|) && SectionAcceptable(s, obj, image0) && HasRelocs(s)
    requires i < |obj.sections| && s == obj.sections[i] && NamedExternals(obj)
    ensures AllLinkable(Relocs(s), s, obj)
  {
    hide FieldsApart, CallsApart, Offset, Kept, FromLE, SectionIndex;
    forall k | 0 <= k < |Relocs(s)|
      ensures Linkable(Relocs(s)[k], s, obj)
    {
      assert Relocs(s)[k] in Relocs(s);
    }
  }

  /** A translated section, with its entries, links to what the PE section means. */
  lemma DoneLinksAlike(s: PeSection, entries: seq<ElfRel>, content: seq<byte>, obj: PeObject, image0: seq<byte>,
                       symtab: seq<ElfSymbol>, symMap: map<nat, int>, strtab: string, w: World)
    requires Done(s, entries, content, obj, image0, symtab, symMap) && SymbolsReady(obj, symtab, symMap, strtab)
    requires AllLinkable(Relocs(s), s, obj) && FieldsApart(Relocs(s), s)
    ensures |content| == s.rawSize && EntriesFit(entries, symtab, s.rawSize)
    ensures var at := w.base(SectionIndex(s.name) as nat);
            LinkElf(content, entries, symtab, strtab, at, w) == LinkPe(Slice(image0, s), Relocs(s), s, obj, at, w)
  {
    hide FieldsApart, AllLinkable, RelocInImage, Translate, LinkElf, LinkPe, EntriesFit, SymbolsTranslated, SectionIndex;
    var image :| TranslatedFrom(image, s, entries, content, obj, image0, symtab, symMap);
    var c := ContextFor(s, obj, symtab, symMap);
    TranslationKeepsMeaning(c, image, Relocs(s), obj, strtab, w);
  }

  /** Only one relocation section patches the section that it was made for. */
  lemma OnlyOneRel(obj: PeObject, rels: seq<RelSection>, i: nat)
    requires i < |obj.sections| && Known(obj.sections[i])
    requires forall a, b :: 0 <= a < b < |obj.sections| ==> Separate(obj.sections[a], obj.sections[b])
    requires var links := RelLinks(obj.sections, |obj.sections|);
             |rels| == |links| && forall j :: 0 <= j < |rels| ==> rels[j].info == SectionIndex(obj.sections[links[j]].name)
    ensures var idx, links := SectionIndex(obj.sections[i].name) as nat, RelLinks(obj.sections, |obj.sections|);
            && (i !in links ==> EntriesFor(rels, idx) == [])
            && forall j :: 0 <= j < |rels| && links[j] == i ==> EntriesFor(rels, idx) == rels[j].entries
  {
    hide SectionIndex, EntriesFor;
    var idx, links := SectionIndex(obj.sections[i].name) as nat, RelLinks(obj.sections, |obj.sections|);
    LinksAscend(obj.sections, |obj.sections|);
    forall k | 0 <= k < |rels| && links[k] != i
      ensures rels[k].info != idx
    {
      DifferentIndex(obj.sections, i, links[k]);
    }
    if i !in links {
      EntriesForNone(rels, idx);
    }
    forall j | 0 <= j < |rels| && links[j] == i
      ensures EntriesFor(rels, idx) == rels[j].entries
    {
      EntriesForOne(rels, idx, j);
    }
  }

  lemma SectionLinksAlike(elf: ElfObject, obj: PeObject, i: nat, image: seq<byte>, image0: seq<byte>, symMap: map<nat, int>, w: World)
    requires WellFormed(obj, |image0|) && i < |obj.sections| && NamedExternals(obj)
    requires SymbolsReady(obj, elf.symtab, symMap, elf.strtab)
    requires Progress(|elf.rels|, elf.rels, elf.contents, image, image0, obj, elf.symtab, symMap)
    requires forall k :: 0 <= k < |obj.sections| ==> SectionAcceptable(obj.sections[k], obj, image0)
    ensures LinksAlike(elf, obj, i, image0, w)
  {
    hide SectionWellFormed, SectionAcceptable, NamedExternals, SymbolsReady, Done, Slice, SectionIndex, LinkElf, LinkPe, EntriesFit, EntriesFor, RelLinks, AllLinkable;
    var s := obj.sections[i];
    if Stored(s) {
      OnlyOneRel(obj, elf.rels, i);
      LinksAscend(obj.sections, |obj.sections|);
      var links := RelLinks(obj.sections, |obj.sections|);
      if HasRelocs(s) {
        var j :| 0 <= j < |links| && links[j] == i;
        ApartFields(s, obj, |image0|);
        AcceptedAreLinkable(s, i, obj, image0);
        DoneLinksAlike(s, elf.rels[j].entries, elf.contents[elf.rels[j].info], obj, image0, elf.symtab, symMap, elf.strtab, w);
      } else {
        assert i !in links[..|links|];
        NothingToLink(s, obj, elf, image0, w);
      }
    }
  }

  /** Linked, section i has the value of every relocated word that no other relocation touches. */
  ghost predicate LinksByField(elf: ElfObject, obj: PeObject, i: nat, image0: seq<byte>, w: World)
    requires i < |obj.sections|
  {
    var s := obj.sections[i];
    forall idx: nat :: Numbered(idx, s.name) && idx != 4 ==>
      && s.rawOffset + s.rawSize <= |image0| && idx in elf.contents
      && EntriesFit(EntriesFor(elf.rels, idx), elf.symtab, |elf.contents[idx]|)
      && SectionLinks(image0[s.rawOffset..s.rawOffset + s.rawSize],
                      LinkElf(elf.contents[idx], EntriesFor(elf.rels, idx), elf.symtab, elf.strtab, w.base(idx), w), s, obj, w.base(idx), w)
  }

  lemma AlikeByField(elf: ElfObject, obj: PeObject, i: nat, image0: seq<byte>, w: World)
    requires i < |obj.sections| && LinksAlike(elf, obj, i, image0, w)
    ensures LinksByField(elf, obj, i, image0, w)
  {
    hide Numbered, SectionIndex, SectionLinks, LinkPe, LinkElf, AllLinkable, EntriesFit;
    var s := obj.sections[i];
    forall idx: nat | Numbered(idx, s.name) && idx != 4
      ensures Stored(s) && idx == SectionIndex(s.name)
      ensures SectionLinks(image0[s.rawOffset..s.rawOffset + s.rawSize], LinkPe(Slice(image0, s), Relocs(s), s, obj, w.base(idx), w), s, obj, w.base(idx), w)
    {
      NumberedExactly(idx, s.name);
      SectionIsLinked(Slice(image0, s), s, obj, w.base(idx), w);
    }
  }

  // ----- the converted object -----

  /** One relocation section for each section that has relocations and a place in the ELF object, in order,
      named after it and directed at it. */
  predicate RelsConverted(elf: ElfObject, obj: PeObject) {
    && |elf.rels| <= 6
    && (forall j :: 0 <= j < |elf.rels| ==>
          && elf.rels[j].link < |obj.sections| && obj.sections[elf.rels[j].link].relocs.Some?
          && Numbered(elf.rels[j].info, obj.sections[elf.rels[j].link].name)
          && ReadString(elf.strtab, elf.rels[j].name) == ".rel" + obj.sections[elf.rels[j].link].name)
    && (forall a, b :: 0 <= a < b < |elf.rels| ==> elf.rels[a].link < elf.rels[b].link)
    && forall i :: 0 <= i < |obj.sections| && obj.sections[i].relocs.Some? && obj.sections[i].name in SECTION_NAMES[1..] ==>
         exists j :: 0 <= j < |elf.rels| && elf.rels[j].link == i
  }

  /** The header of section i; its bytes but for the calls, and what is left to the linker. */
  predicate SectionConverted(elf: ElfObject, obj: PeObject, i: nat, image0: seq<byte>, symMap: map<nat, int>)
    requires i < |obj.sections|
  {
    var s := obj.sections[i];
    forall idx: nat | idx < 8 && Numbered(idx, s.name) ::
      && idx in elf.headers && elf.headers[idx].size == s.rawSize && ReadString(elf.strtab, elf.headers[idx].name) == s.name
      && (idx != 4 ==>
            && s.rawOffset + s.rawSize <= |image0| && idx in elf.contents
            && (s.relocs.None? ==> elf.contents[idx] == image0[s.rawOffset..s.rawOffset + s.rawSize])
            && forall j :: 0 <= j < |elf.rels| && elf.rels[j].link == i ==>
                 AllEmitted(s, image0[s.rawOffset..s.rawOffset + s.rawSize], elf.contents[idx], elf.rels[j].entries, elf.symtab, symMap))
  }

  ghost predicate Converted(elf: ElfObject, obj: PeObject, image0: seq<byte>, symMap: map<nat, int>) {
    && SymbolsRead(symMap, elf.symtab, elf.strtab, obj)
    && RelsConverted(elf, obj)
    && forall i :: 0 <= i < |obj.sections| ==> SectionConverted(elf, obj, i, image0, symMap)
  }

  lemma DoneIsEmitted(s: PeSection, entries: seq<ElfRel>, content: seq<byte>, obj: PeObject, image0: seq<byte>,
                      symtab: seq<ElfSymbol>, symMap: map<nat, int>)
    requires Done(s, entries, content, obj, image0, symtab, symMap) && SectionWellFormed(s, obj, |image0|)
    ensures AllEmitted(s, image0[s.rawOffset..s.rawOffset + s.rawSize], content, entries, symtab, symMap)
  {
    hide FieldsApart, CallsApart, RelocInImage, Translate, Offset, SectionIndex, AllEmitted, Slice;
    var image :| TranslatedFrom(image, s, entries, content, obj, image0, symtab, symMap);
    var c := ContextFor(s, obj, symtab, symMap);
    forall i | 0 <= i < |Relocs(s)|
      ensures Offset(s, Relocs(s)[i]) + 4 <= s.rawSize
    {
      assert Relocs(s)[i] in Relocs(s);
    }
    TranslationEmits(c, image, Relocs(s));
    SliceIsSlice(image0, s);
  }

  lemma RelsAreConverted(elf: ElfObject, obj: PeObject, image: seq<byte>, image0: seq<byte>, symMap: map<nat, int>, initial: seq<RelSection>)
    requires Progress(|elf.rels|, elf.rels, elf.contents, image, image0, obj, elf.symtab, symMap)
    requires |RelLinks(obj.sections, |obj.sections|)| <= 6
    requires RelsOpened(obj.sections, |obj.sections|, initial, elf.strtab) && SameNames(initial, elf.rels)
    ensures RelsConverted(elf, obj)
  {
    hide Done, Intact, SectionIndex, Names, RelLinks, Numbered;
    var links := RelLinks(obj.sections, |obj.sections|);
    LinksAscend(obj.sections, |obj.sections|);
    forall j | 0 <= j < |elf.rels|
      ensures Numbered(elf.rels[j].info, obj.sections[elf.rels[j].link].name)
      ensures ReadString(elf.strtab, elf.rels[j].name) == ".rel" + obj.sections[elf.rels[j].link].name
    {
      assert Known(obj.sections[links[j]]);
      NumberedExactly(elf.rels[j].info, obj.sections[links[j]].name);
      NamesRead(elf.strtab, elf.rels[j].name, ".rel" + obj.sections[links[j]].name);
    }
    forall i | 0 <= i < |obj.sections| && obj.sections[i].relocs.Some? && obj.sections[i].name in SECTION_NAMES[1..]
      ensures exists j :: 0 <= j < |elf.rels| && elf.rels[j].link == i
    {
      var k :| 0 <= k < |SECTION_NAMES[1..]| && SECTION_NAMES[1..][k] == obj.sections[i].name;
      NameIsKnown(k, obj.sections[i].name);
      var j :| 0 <= j < |links| && links[j] == i;
      assert elf.rels[j].link == i;
    }
  }

  lemma NameIsKnown(k: nat, name: string)
    requires k < |SECTION_NAMES[1..]| && SECTION_NAMES[1..][k] == name
    ensures SectionIndex(name) != -1
  {
    NumberedExactly(k + 1, name);
  }

  lemma SectionIsConverted(elf: ElfObject, obj: PeObject, i: nat, image: seq<byte>, image0: seq<byte>, symMap: map<nat, int>)
    requires WellFormed(obj, |image0|) && i < |obj.sections|
    requires Named(obj.sections[i], elf.headers, elf.strtab) && Sized(obj.sections[i], elf.headers)
    requires Progress(|elf.rels|, elf.rels, elf.contents, image, image0, obj, elf.symtab, symMap)
    ensures SectionConverted(elf, obj, i, image0, symMap)
  {
    hide Done, SectionIndex, Names, RelLinks, Numbered, AllEmitted, SectionWellFormed, Slice;
    var s := obj.sections[i];
    var links := RelLinks(obj.sections, |obj.sections|);
    forall idx: nat | idx < 8 && Numbered(idx, s.name)
      ensures idx == SectionIndex(s.name) && Known(s) && ReadString(elf.strtab, elf.headers[idx].name) == s.name
    {
      NumberedExactly(idx, s.name);
      NamesRead(elf.strtab, elf.headers[idx].name, s.name);
    }
    if Stored(s) {
      assert SectionWellFormed(s, obj, |image0|);
      StoredFits(s, obj, |image0|);
      SliceIsSlice(image0, s);
      if s.relocs.None? {
        NoLink(obj.sections, i);
        assert Intact(s, elf.contents, image, image0);
      }
      forall j | 0 <= j < |elf.rels| && elf.rels[j].link == i
        ensures SectionIndex(s.name) as nat in elf.contents
        ensures AllEmitted(s, image0[s.rawOffset..s.rawOffset + s.rawSize], elf.contents[SectionIndex(s.name) as nat], elf.rels[j].entries, elf.symtab, symMap)
      {
        DoneIsEmitted(s, elf.rels[j].entries, elf.contents[elf.rels[j].info], obj, image0, elf.symtab, symMap);
      }
      if s.relocs.Some? {
        LinksAscend(obj.sections, |obj.sections|);
        var j :| 0 <= j < |links| && links[j] == i;
        assert elf.rels[j].link == i;
      }
    }
  }

  lemma StoredFits(s: PeSection, obj: PeObject, size: nat)
    requires SectionWellFormed(s, obj, size) && Stored(s)
    ensures s.rawOffset + s.rawSize <= size
  {
  }

  lemma NoLink(sections: seq<PeSection>, i: nat)
    requires i < |sections| && sections[i].relocs.None?
    ensures i !in RelLinks(sections, |sections|)
  {
    hide RelLinks, SectionIndex;
  }

  lemma IsConverted(elf: ElfObject, obj: PeObject, image: seq<byte>, image0: seq<byte>, symMap: map<nat, int>, initial: seq<RelSection>)
    requires WellFormed(obj, |image0|) && SymbolsReady(obj, elf.symtab, symMap, elf.strtab)
    requires forall i :: 0 <= i < |obj.sections| ==> Named(obj.sections[i], elf.headers, elf.strtab) && Sized(obj.sections[i], elf.headers)
    requires Progress(|elf.rels|, elf.rels, elf.contents, image, image0, obj, elf.symtab, symMap)
    requires |RelLinks(obj.sections, |obj.sections|)| <= 6
    requires RelsOpened(obj.sections, |obj.sections|, initial, elf.strtab) && SameNames(initial, elf.rels)
    ensures Converted(elf, obj, image0, symMap)
  {
    hide *;
    ReadyIsRead(obj, elf.symtab, symMap, elf.strtab);
    RelsAreConverted(elf, obj, image, image0, symMap, initial);
    forall i | 0 <= i < |obj.sections|
      ensures SectionConverted(elf, obj, i, image0, symMap)
    {
      SectionIsConverted(elf, obj, i, image, image0, symMap);
    }
    ConvertedAll(elf, obj, image0, symMap);
  }

  lemma ConvertedAll(elf: ElfObject, obj: PeObject, image0: seq<byte>, symMap: map<nat, int>)
    requires SymbolsRead(symMap, elf.symtab, elf.strtab, obj) && RelsConverted(elf, obj)
    requires forall i :: 0 <= i < |obj.sections| ==> SectionConverted(elf, obj, i, image0, symMap)
    ensures Converted(elf, obj, image0, symMap)
  {
    hide SymbolsRead, RelsConverted, SectionConverted;
  }

  lemma ApartFields(s: PeSection, obj: PeObject, size: nat)
    requires SectionWellFormed(s, obj, size) && HasRelocs(s)
    ensures FieldsApart(Relocs(s), s) && s.rawOffset + s.rawSize <= size
  {
  }

  lemma NothingToLink(s: PeSection, obj: PeObject, elf: ElfObject, image0: seq<byte>, w: World)
    requires Stored(s) && Relocs(s) == [] && s.rawOffset + s.rawSize <= |image0|
    ensures AllLinkable(Relocs(s), s, obj) && EntriesFit([], elf.symtab, s.rawSize) && |Slice(image0, s)| == s.rawSize
    ensures var at := w.base(SectionIndex(s.name) as nat);
            LinkElf(Slice(image0, s), [], elf.symtab, elf.strtab, at, w) == LinkPe(Slice(image0, s), Relocs(s), s, obj, at, w)
  {
  }

  lemma SliceIsSlice(image: seq<byte>, s: PeSection)
    requires s.rawOffset + s.rawSize <= |image|
    ensures Slice(image, s) == image[s.rawOffset..s.rawOffset + s.rawSize]
  {
  }

  lemma NamedLonger(sections: seq<PeSection>, headers: map<nat, Header>, strtab: string, longer: string)
    requires strtab <= longer && forall j :: 0 <= j < |sections| ==> Named(sections[j], headers, strtab)
    ensures forall j :: 0 <= j < |sections| ==> Named(sections[j], headers, longer)
  {
    hide Names, SectionIndex;
    forall j | 0 <= j < |sections| && Known(sections[j])
      ensures Named(sections[j], headers, longer)
    {
      NamesKept(strtab, longer, headers[SectionIndex(sections[j].name) as nat].name, sections[j].name);
    }
  }

  /** Neither name starts with an underscore. */
  lemma RelName(s: PeSection)
    requires Known(s) && '\0' !in s.name
    ensures Stripped(s.name) == s.name && Stripped(".rel" + s.name) == ".rel" + s.name && '\0' !in ".rel" + s.name
  {
    assert forall c :: c in ".rel" + s.name ==> c in ".rel" || c in s.name;
    assert '\0' !in ".rel";
  }
}
