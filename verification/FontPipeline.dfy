/** From the rasteriser's bitmaps to the boot loader's screen: compile the glyphs, sort them, write the font,
    load it, look a code up, and draw. */
module FontPipeline {
  import opened Outcomes
  import opened Words
  import opened Pigeonhole
  import opened GlyphSort
  import opened Pf2Font
  import opened Pf2Loader
  import opened FontLookup
  import opened FontFormat

  predicate DistinctCodes(gs: seq<Glyph>) {
    forall i, j :: 0 <= i < j < |gs| ==> gs[i].charCode != gs[j].charCode
  }

  /** Sorting makes the codes ascend strictly exactly when no two glyphs share one. */
  lemma AscendingExactlyWhenDistinct(gs: seq<Glyph>, sorted: seq<Glyph>, place: seq<nat>)
    requires StablySorted(gs, sorted, place)
    ensures Ascending(sorted, |sorted|) <==> DistinctCodes(gs)
  {
    if DistinctCodes(gs) {
      forall i | 0 < i < |sorted|
        ensures sorted[i - 1].charCode < sorted[i].charCode
      {
        DistinctOnto(place, |gs|, i - 1);
        DistinctOnto(place, |gs|, i);
        SortedPermutation(gs, sorted, place);
      }
    } else {
      var i, j :| 0 <= i < j < |gs| && gs[i].charCode == gs[j].charCode;
      assert Before(gs, i, j) && place[i] < place[j];
      if Ascending(sorted, |sorted|) {
        AscendingStrict(sorted, place[i], place[j]);
        assert false;
      }
    }
  }

  lemma {:induction false} AscendingStrict(sorted: seq<Glyph>, a: nat, b: nat)
    requires Ascending(sorted, |sorted|) && a < b < |sorted|
    ensures sorted[a].charCode < sorted[b].charCode
    decreases b
  {
    if a < b - 1 {
      AscendingStrict(sorted, a, b - 1);
    }
  }

  // ----- looking codes up in the compiled font -----

  predicate HasCode(gs: seq<Glyph>, code: nat) { exists i :: 0 <= i < |gs| && gs[i].charCode == code }

  /** The font holds every code below 0x10000; the loader then cannot tell the last of them from a missing one. */
  ghost predicate FillsBmp(gs: seq<Glyph>) { forall c :: 0 <= c < BMP ==> HasCode(gs, c) }

  /** The loader looks the glyph's code up and fetches the glyph. */
  ghost predicate Found(file: seq<byte>, es: seq<IndexEntry>, g: Glyph)
    requires Storable(g)
  {
    && es != [] && Search(es, g.charCode).At?
    && ReadGlyph(file, es[Search(es, g.charCode).k].offset) == Some(AsLoaded(g))
  }

  /** Found, but for code 0xFFFF in a font that holds every code up to it: that one is missed. */
  ghost predicate FoundOrShadowed(file: seq<byte>, es: seq<IndexEntry>, g: Glyph, gs: seq<Glyph>)
    requires Storable(g)
  {
    if g.charCode == ABSENT && FillsBmp(gs) then es != [] && Search(es, g.charCode) == Absent else Found(file, es, g)
  }

  /** What the loader's index holds of a compiled list of glyphs: each code at its place. */
  ghost predicate Indexed(gs: seq<Glyph>, es: seq<IndexEntry>, place: seq<nat>) {
    && |place| == |gs| == |es| && Distinct(place) && Below(place, |gs|)
    && forall i :: 0 <= i < |gs| ==> es[place[i]].code == gs[i].charCode
  }

  lemma SameCodes(gs: seq<Glyph>, es: seq<IndexEntry>, place: seq<nat>, code: nat)
    requires Indexed(gs, es, place)
    ensures Has(es, code) <==> HasCode(gs, code)
  {
    if Has(es, code) {
      var k :| 0 <= k < |es| && es[k].code == code;
      DistinctOnto(place, |gs|, k);
      var i :| 0 <= i < |gs| && place[i] == k;
      assert gs[i].charCode == code;
    }
    if HasCode(gs, code) {
      var i :| 0 <= i < |gs| && gs[i].charCode == code;
      assert es[place[i]].code == code;
    }
  }

  /** A code of the list is found at its place, but for 0xFFFF in a font that fills the table. */
  lemma PresentCode(gs: seq<Glyph>, es: seq<IndexEntry>, place: seq<nat>, i: nat)
    requires Indexed(gs, es, place) && Ordered(es) && i < |gs|
    ensures es != []
    ensures Search(es, gs[i].charCode) == if gs[i].charCode == ABSENT && FillsBmp(gs) then Absent else At(place[i])
  {
    hide Search, Distinct;
    assert es[place[i]].code == gs[i].charCode;
    FillsExactly(gs, es, place);
    if Shadowed(es, gs[i].charCode) {
      SearchAbsent(es, gs[i].charCode);
    } else {
      SearchIsAt(es, gs[i].charCode, place[i]);
    }
  }

  lemma FillsExactly(gs: seq<Glyph>, es: seq<IndexEntry>, place: seq<nat>)
    requires Indexed(gs, es, place) && Ordered(es)
    ensures Shadowed(es, ABSENT) <==> FillsBmp(gs)
  {
    hide Has, HasCode, Shadowed, Indexed, Ordered;
    ShadowedExactly(es);
    forall c | 0 <= c < BMP
      ensures Has(es, c) <==> HasCode(gs, c)
    {
      SameCodes(gs, es, place, c);
    }
  }

  /** Any other code is missed, or, when it is at least 0x10000 and below all the codes of the font,
      sends the search outside the table. */
  lemma MissingCode(gs: seq<Glyph>, es: seq<IndexEntry>, place: seq<nat>, code: nat)
    requires Indexed(gs, es, place) && Ordered(es) && es != [] && !HasCode(gs, code)
    ensures Search(es, code) == if BMP <= code && (forall i :: 0 <= i < |gs| ==> code < gs[i].charCode) then OutsideTable else Absent
  {
    hide Search, Distinct;
    SameCodes(gs, es, place, code);
    DistinctOnto(place, |gs|, 0);
    var first :| 0 <= first < |gs| && place[first] == 0;
    assert es[0].code == gs[first].charCode;
    if BMP <= code < es[0].code {
      SearchOutside(es, code);
      forall i | 0 <= i < |gs|
        ensures code < gs[i].charCode
      {
        assert place[i] > 0 ==> es[0].code < es[place[i]].code;
      }
    } else {
      assert code != es[0].code;
      SearchAbsent(es, code);
    }
  }

  /** The file, byte by byte, of a font with these glyphs in the order of their codes. */
  ghost predicate FileOf(file: seq<byte>, info: FontInfo, list: seq<Glyph>, glyphs: seq<Glyph>) {
    && multiset(list) == multiset(glyphs) && (forall a, b :: 0 <= a < b < |list| ==> list[a].charCode <= list[b].charCode)
    && FileStands(file, info, list)
  }

  /** The font compiler's last steps. The loader accepts the file exactly when the list is not empty, no two
      of its glyphs share a code, and no metric is stored as zero. It then finds every glyph of the list under
      its code, unchanged, but for code 0xFFFF in a font that has all the codes below it; a code that
      is not in the list it misses, unless the search leaves the table. */
  method CompileFont(info: FontInfo, glyphs: seq<Glyph>) returns (file: seq<byte>)
    ensures |file| < LIMIT ==> exists list :: FileOf(file, info, list, glyphs)
    ensures |file| < LIMIT ==> (Load(file).Some? <==> DistinctCodes(glyphs) && glyphs != [] && Measured(info))
    ensures |file| < LIMIT && Load(file).Some? ==> Load(file) == Some(HeaderFont(info).(index := Load(file).value.index))
    ensures |file| < LIMIT && Load(file).Some? ==>
              forall i :: 0 <= i < |glyphs| && Storable(glyphs[i]) ==>
                FoundOrShadowed(file, Load(file).value.index, glyphs[i], glyphs)
    ensures |file| < LIMIT && Load(file).Some? ==>
              && Load(file).value.index != []
              && forall code: nat :: !HasCode(glyphs, code) ==>
                   (Search(Load(file).value.index, code)
                 == if BMP <= code && (forall i :: 0 <= i < |glyphs| ==> code < glyphs[i].charCode) then OutsideTable else Absent)
  {
    hide *;
    var sorted, place := SortGlyphs(glyphs);
    var font := new FontFile();
    font.WriteFont(info, sorted[..]);
    file := font.bytes;
    ghost var list := sorted[..];
    AscendingExactlyWhenDistinct(glyphs, list, place);
    if |file| < LIMIT {
      FileIsOf(info, list, glyphs, place);
      FontLoads(info, list);
      SortedSize(glyphs, list, place);
      if Load(file).Some? {
        ghost var es := Load(file).value.index;
        HeaderIndex(info, Entries(list, |list|, FirstGlyph(info, list)));
        LoadedInOrder(file);
        LoadedIndexed(info, glyphs, list, place);
        forall i | 0 <= i < |glyphs| && Storable(glyphs[i])
          ensures FoundOrShadowed(file, es, glyphs[i], glyphs)
        {
          FoundExactly(info, glyphs, list, place, i);
        }
        forall code: nat | !HasCode(glyphs, code)
          ensures Search(es, code)
               == if BMP <= code && (forall i :: 0 <= i < |glyphs| ==> code < glyphs[i].charCode) then OutsideTable else Absent
        {
          MissingCode(glyphs, es, place, code);
        }
      }
    }
  }

  lemma FileIsOf(info: FontInfo, list: seq<Glyph>, glyphs: seq<Glyph>, place: seq<nat>)
    requires StablySorted(glyphs, list, place) && |FontBytes(info, list)| < LIMIT
    ensures FileOf(FontBytes(info, list), info, list, glyphs)
  {
    hide FileStands, StablySorted;
    SortedPermutation(glyphs, list, place);
    FileIsWritten(info, list);
  }

  lemma SortedSize(gs: seq<Glyph>, sorted: seq<Glyph>, place: seq<nat>)
    requires StablySorted(gs, sorted, place)
    ensures sorted != [] <==> gs != []
  {
  }

  lemma LoadedIndexed(info: FontInfo, gs: seq<Glyph>, sorted: seq<Glyph>, place: seq<nat>)
    requires StablySorted(gs, sorted, place) && |FontBytes(info, sorted)| < LIMIT && Load(FontBytes(info, sorted)).Some?
    ensures Indexed(gs, Load(FontBytes(info, sorted)).value.index, place)
  {
    hide Load, FontBytes, EntryPlace, ReadEntry, HeaderFont, Entries;
    var es := Load(FontBytes(info, sorted)).value.index;
    FontLoads(info, sorted);
    HeaderIndex(info, Entries(sorted, |sorted|, FirstGlyph(info, sorted)));
    forall i | 0 <= i < |gs|
      ensures es[place[i]].code == gs[i].charCode
    {
      LoadedEntry(info, sorted, place[i]);
    }
  }

  lemma FoundExactly(info: FontInfo, gs: seq<Glyph>, sorted: seq<Glyph>, place: seq<nat>, i: nat)
    requires StablySorted(gs, sorted, place) && |FontBytes(info, sorted)| < LIMIT && Load(FontBytes(info, sorted)).Some?
    requires i < |gs| && Storable(gs[i])
    ensures var file := FontBytes(info, sorted);
            FoundOrShadowed(file, Load(file).value.index, gs[i], gs)
  {
    hide Load, FontBytes, EntryPlace, ReadEntry, ReadGlyph, Storable, StablySorted, FillsBmp, Search, Ordered, Indexed;
    var file := FontBytes(info, sorted);
    PlacedGlyph(gs, sorted, place, i);
    LoadedInOrder(file);
    LoadedIndexed(info, gs, sorted, place);
    PresentCode(gs, Load(file).value.index, place, i);
    LoadedEntry(info, sorted, place[i]);
    IndexIsExact(info, sorted, place[i]);
  }

  lemma PlacedGlyph(gs: seq<Glyph>, sorted: seq<Glyph>, place: seq<nat>, i: nat)
    requires StablySorted(gs, sorted, place) && i < |gs|
    ensures |place| == |gs| == |sorted| && place[i] < |sorted| && sorted[place[i]] == gs[i]
  {
  }
}
