/** How the boot loader finds a code in the index it loaded: a table for the codes below 0x10000, filled
    while the index is read, and a binary search over unsigned bounds for the others. */
module FontLookup {
  import opened Outcomes
  import opened Words
  import opened Pf2Font
  import opened Pf2Loader

  /** Size of the table, and the mark of a code that the font lacks: the largest 16-bit number. */
  const BMP: nat := 0x10000
  const ABSENT: nat := 0xFFFF

  ghost predicate Ordered(es: seq<IndexEntry>) { forall i, j :: 0 <= i < j < |es| ==> es[i].code < es[j].code }

  /** OutsideTable: the search reads past the end of the index, and C promises nothing about its result. */
  datatype Lookup = At(k: nat) | Absent | OutsideTable

  // ----- every loaded index is in order -----

  lemma {:induction false} IndexOrdered(file: seq<byte>, pos: nat, n: nat)
    requires LoadIndex(file, pos, n).Some?
    ensures Ordered(LoadIndex(file, pos, n).value)
    ensures 9 * n <= |file|
  {
    hide ReadEntry;
    if n > 0 {
      IndexOrdered(file, pos, n - 1);
    }
  }

  predicate Loaded(es: seq<IndexEntry>) { 9 * |es| < LIMIT }

  lemma {:induction false} WalkOrdered(file: seq<byte>, pos: nat, font: Font)
    requires Ordered(font.index) && Loaded(font.index) && LoadFrom(file, pos, font).Some?
    ensures var es := LoadFrom(file, pos, font).value.index;
            Ordered(es) && Loaded(es) && es != []
    decreases |file| - pos
  {
    hide LoadIndex, KindOf, Absorb, Unsigned, Ordered, Ascii;
    if pos + 8 <= |file| {
      var kind, length, body := KindOf(file[pos..pos + 4]), Unsigned(file, pos + 4, 4), pos + 8;
      if kind == DataKind {
      } else if kind == IndexKind {
        IndexOrdered(file, body, length / 9);
        LengthBelow(file, pos + 4);
        WalkOrdered(file, body + length, font.(index := LoadIndex(file, body, length / 9).value));
      } else if body + length <= |file| {
        var font' := Absorb(font, kind, file[body..body + length]).value;
        AbsorbKeepsIndex(font, kind, file[body..body + length]);
        WalkOrdered(file, body + length, font');
      }
    }
  }

  lemma LengthBelow(file: seq<byte>, pos: nat)
    requires pos + 4 <= |file|
    ensures Unsigned(file, pos, 4) < LIMIT
  {
    FromLEBound(Reverse(file[pos..pos + 4]));
    Moduli();
  }

  lemma AbsorbKeepsIndex(font: Font, kind: Kind, body: seq<byte>)
    requires kind != IndexKind && kind != DataKind && Absorb(font, kind, body).Some?
    ensures Absorb(font, kind, body).value.index == font.index
  {
    hide WeightOf, CString, Wrap16, FromBE;
  }

  /** Whatever file the loader accepts, its index is not empty and in strictly ascending order. */
  lemma LoadedInOrder(file: seq<byte>)
    requires Load(file).Some?
    ensures var es := Load(file).value.index;
            Ordered(es) && Loaded(es) && es != []
  {
    hide LoadFrom, Ascii, Unsigned;
    WalkOrdered(file, 12, EMPTY);
  }

  // ----- the table -----

  lemma {:induction false} CodeAbove(es: seq<IndexEntry>, i: nat)
    requires Ordered(es) && i < |es|
    ensures i <= es[i].code
  {
    if i > 0 {
      CodeAbove(es, i - 1);
    }
  }

  /** The table holds the place of every code below 0x10000, and the mark where there is none. */
  ghost predicate Mirrors(bmp: seq<nat>, es: seq<IndexEntry>) {
    && |bmp| == BMP
    && (forall k :: 0 <= k < |es| && es[k].code < BMP ==> bmp[es[k].code] == k)
    && (forall c :: 0 <= c < BMP && bmp[c] != ABSENT ==> bmp[c] < |es| && es[bmp[c]].code == c)
  }

  lemma NothingMirrored(bmp: seq<nat>)
    requires |bmp| == BMP && forall c :: 0 <= c < BMP ==> bmp[c] == ABSENT
    ensures Mirrors(bmp, [])
  {
  }

  lemma MirrorsNext(bmp: seq<nat>, es: seq<IndexEntry>, i: nat)
    requires Ordered(es) && i < |es| && Mirrors(bmp, es[..i])
    ensures |bmp| == BMP
    ensures es[i].code < BMP ==> Mirrors(bmp[es[i].code := i % BMP], es[..i + 1])
    ensures es[i].code >= BMP ==> Mirrors(bmp, es[..i + 1])
  {
    hide *;
    MirrorsSize(bmp, es[..i]);
    OneEntryMore(es, i);
    if es[i].code < BMP {
      MirrorsLow(bmp, es[..i], es[i]);
    } else {
      MirrorsHigh(bmp, es[..i], es[i]);
    }
  }

  lemma OneEntryMore(es: seq<IndexEntry>, i: nat)
    requires Ordered(es) && i < |es|
    ensures es[..i + 1] == es[..i] + [es[i]] && forall k :: 0 <= k < i ==> es[..i][k].code < es[i].code
    ensures es[i].code < BMP ==> i % BMP == i
  {
    CodeAbove(es, i);
  }

  lemma MirrorsSize(bmp: seq<nat>, es: seq<IndexEntry>)
    requires Mirrors(bmp, es)
    ensures |bmp| == BMP
  {
  }

  lemma MirrorsHigh(bmp: seq<nat>, es: seq<IndexEntry>, e: IndexEntry)
    requires Mirrors(bmp, es) && e.code >= BMP
    ensures Mirrors(bmp, es + [e])
  {
  }

  lemma MirrorsLow(bmp: seq<nat>, es: seq<IndexEntry>, e: IndexEntry)
    requires Mirrors(bmp, es) && e.code < BMP && forall k :: 0 <= k < |es| ==> es[k].code < e.code
    ensures Mirrors(bmp[e.code := |es|], es + [e])
  {
  }

  method BmpIndex(es: seq<IndexEntry>) returns (bmp: array<nat>)
    requires Ordered(es)
    ensures fresh(bmp) && Mirrors(bmp[..], es)
  {
    hide Mirrors, Ordered;
    bmp := new nat[BMP](_ => ABSENT);
    NothingMirrored(bmp[..]);
    for i := 0 to |es|
      invariant Mirrors(bmp[..], es[..i])
    {
      MirrorsNext(bmp[..], es, i);
      if es[i].code < BMP {
        bmp[es[i].code] := i % BMP;
      }
    }
    assert es[..|es|] == es;
  }

  // ----- the search -----

  /** The one code whose place can equal the mark. */
  predicate Shadowed(es: seq<IndexEntry>, code: nat) {
    code == ABSENT && |es| > ABSENT && es[ABSENT].code == ABSENT
  }

  ghost predicate Has(es: seq<IndexEntry>, code: nat) { exists k :: 0 <= k < |es| && es[k].code == code }

  /** What the lookup of a code should come to, and does. */
  ghost function Search(es: seq<IndexEntry>, code: nat): (r: Lookup)
    requires es != []
    ensures r.At? ==> r.k < |es| && es[r.k].code == code
  {
    if BMP <= code < es[0].code then OutsideTable
    else if !Has(es, code) || Shadowed(es, code) then Absent
    else
      var k :| 0 <= k < |es| && es[k].code == code;
      At(k)
  }

  lemma SearchIsAt(es: seq<IndexEntry>, code: nat, k: nat)
    requires Ordered(es) && k < |es| && es[k].code == code && !Shadowed(es, code)
    ensures Search(es, code) == At(k)
  {
    assert Has(es, code);
    var j := Search(es, code).k;
    assert !(j < k) && !(k < j);
  }

  lemma SearchOutside(es: seq<IndexEntry>, code: nat)
    requires es != [] && BMP <= code < es[0].code
    ensures Search(es, code) == OutsideTable
  {
  }

  lemma SearchAbsent(es: seq<IndexEntry>, code: nat)
    requires es != [] && (code < BMP || es[0].code < code) && (!Has(es, code) || Shadowed(es, code))
    ensures Search(es, code) == Absent
  {
  }

  lemma ShadowedMarked(es: seq<IndexEntry>, bmp: seq<nat>, code: nat)
    requires Mirrors(bmp, es)
    ensures Shadowed(es, code) ==> bmp[code] == ABSENT
  {
  }

  method TableLookup(es: seq<IndexEntry>, bmp: array<nat>, code: nat) returns (r: Lookup)
    requires Ordered(es) && es != [] && Mirrors(bmp[..], es) && code < BMP
    ensures r == Search(es, code)
  {
    hide Search;
    if bmp[code] == ABSENT {
      if Has(es, code) {
        var k :| 0 <= k < |es| && es[k].code == code;
        assert bmp[..][es[k].code] == k;
        CodeAbove(es, k);
      }
      SearchAbsent(es, code);
      r := Absent;
    } else {
      assert es[bmp[..][code]].code == code;
      ShadowedMarked(es, bmp[..], code);
      SearchIsAt(es, code, bmp[code]);
      r := At(bmp[code]);
    }
  }

  /** Every code in front of lo is too small and every code behind hi too big. */
  ghost predicate Narrowed(es: seq<IndexEntry>, code: nat, lo: nat, hi: nat) {
    && (forall k :: 0 <= k < |es| && k < lo ==> es[k].code < code)
    && (forall k :: 0 <= k < |es| && hi < k ==> code < es[k].code)
  }

  function Down(k: nat, bounds: nat): (r: nat)
    requires bounds > 0
    ensures 0 < k <= bounds ==> r == k - 1
    ensures k == 0 ==> r == bounds - 1
  {
    (k - 1) % bounds
  }

  /** The search; bounds are unsigned and have the given number of values. */
  method BinarySearch(es: seq<IndexEntry>, code: nat, bounds: nat) returns (r: Lookup)
    requires Ordered(es) && Loaded(es) && es != [] && BMP <= code && LIMIT <= bounds
    ensures r == Search(es, code)
  {
    hide Search, Narrowed, Ordered, Down;
    var lo, hi: nat := 0, |es| - 1;
    StartNarrow(es, code);
    while lo <= hi
      invariant lo <= |es| && Narrowed(es, code, lo, hi)
      invariant hi < |es| || (hi == bounds - 1 && lo == 0 && code < es[0].code)
      decreases hi < |es|, |es| + hi - lo
    {
      var mid := lo + (hi - lo) / 2;
      if mid >= |es| {
        SearchOutside(es, code);
        return OutsideTable;
      }
      if code < es[mid].code {
        NarrowAbove(es, code, lo, hi, mid);
        hi := Down(mid, bounds);
      } else if code > es[mid].code {
        NarrowBelow(es, code, lo, hi, mid);
        lo := mid + 1;
      } else {
        SearchIsAt(es, code, mid);
        return At(mid);
      }
    }
    NarrowedOut(es, code, lo, hi);
    r := Absent;
  }

  lemma StartNarrow(es: seq<IndexEntry>, code: nat)
    requires es != []
    ensures Narrowed(es, code, 0, |es| - 1)
  {
  }

  lemma NarrowAbove(es: seq<IndexEntry>, code: nat, lo: nat, hi: nat, mid: nat)
    requires Ordered(es) && Narrowed(es, code, lo, hi) && lo <= mid < |es| && code < es[mid].code
    ensures forall hi': nat :: mid <= hi' + 1 ==> Narrowed(es, code, lo, hi')
  {
  }

  lemma NarrowBelow(es: seq<IndexEntry>, code: nat, lo: nat, hi: nat, mid: nat)
    requires Ordered(es) && Narrowed(es, code, lo, hi) && mid < |es| && es[mid].code < code
    ensures Narrowed(es, code, mid + 1, hi)
  {
  }

  lemma NarrowedOut(es: seq<IndexEntry>, code: nat, lo: nat, hi: nat)
    requires es != [] && Narrowed(es, code, lo, hi) && hi < lo && BMP <= code
    ensures Search(es, code) == Absent
  {
    assert es[0].code < code;
    SearchAbsent(es, code);
  }

  /** find_glyph. */
  method FindGlyph(es: seq<IndexEntry>, bmp: array<nat>, code: nat, bounds: nat) returns (r: Lookup)
    requires Ordered(es) && Loaded(es) && es != [] && Mirrors(bmp[..], es) && LIMIT <= bounds
    ensures r == Search(es, code)
  {
    if code < BMP {
      r := TableLookup(es, bmp, code);
    } else {
      r := BinarySearch(es, code, bounds);
    }
  }

  /** A font shadows code 0xFFFF exactly when it has every code below 0x10000. */
  lemma ShadowedExactly(es: seq<IndexEntry>)
    requires Ordered(es)
    ensures Shadowed(es, ABSENT) <==> forall c :: 0 <= c < BMP ==> Has(es, c)
  {
    if Shadowed(es, ABSENT) {
      forall c | 0 <= c < BMP
        ensures Has(es, c)
      {
        FullBelow(es, c, ABSENT);
      }
    }
    if forall c :: 0 <= c < BMP ==> Has(es, c) {
      PlaceIsCode(es, ABSENT);
    }
  }

  lemma {:induction false} FullBelow(es: seq<IndexEntry>, c: nat, top: nat)
    requires Ordered(es) && c <= top < |es| && es[top].code == top
    ensures es[c].code == c
    decreases top
  {
    if c < top {
      CodeAbove(es, top - 1);
      assert es[top - 1].code < es[top].code;
      FullBelow(es, c, top - 1);
    }
  }

  lemma {:induction false} PlaceIsCode(es: seq<IndexEntry>, c: nat)
    requires Ordered(es) && forall d :: 0 <= d <= c ==> Has(es, d)
    ensures c < |es| && es[c].code == c
  {
    assert Has(es, c);
    var k :| 0 <= k < |es| && es[k].code == c;
    CodeAbove(es, k);
    if c > 0 {
      PlaceIsCode(es, c - 1);
      assert k > c - 1;
    }
  }
}
