/** Sorting the glyphs of a font by character code: two counting passes over an array of 65537
    counters, low half of the code first, then the high half. */
module GlyphSort {
  import opened Words
  import opened Pigeonhole

  type uint32 = x: int | 0 <= x < 0x1_0000_0000

  datatype Glyph = Glyph(charCode: uint32, width: nat, height: nat, xOfs: int, yOfs: int, deviceWidth: int, bitmap: seq<byte>)

  const KEYS: nat := 0x10000

  /** The half of the code one pass looks at. */
  function Key(g: Glyph, high: bool): (k: nat)
    ensures k < KEYS
  {
    if high then g.charCode / KEYS else g.charCode % KEYS
  }

  // ----- counting -----

  /** How many glyphs have key k. */
  function CountEq(s: seq<Glyph>, high: bool, k: nat): (c: nat)
    ensures c <= |s|
  {
    if |s| == 0 then 0
    else CountEq(s[..|s| - 1], high, k) + if Key(s[|s| - 1], high) == k then 1 else 0
  }

  /** How many glyphs have a key below k. */
  function CountLess(s: seq<Glyph>, high: bool, k: nat): (c: nat)
    ensures c <= |s|
  {
    if |s| == 0 then 0
    else CountLess(s[..|s| - 1], high, k) + if Key(s[|s| - 1], high) < k then 1 else 0
  }

  /** Where a stable sort by key puts the glyph at index i. */
  function Place(s: seq<Glyph>, high: bool, i: nat): nat
    requires i < |s|
  {
    CountLess(s, high, Key(s[i], high)) + CountEq(s[..i], high, Key(s[i], high))
  }

  lemma {:induction false} LessPlusEq(s: seq<Glyph>, high: bool, k: nat)
    ensures CountLess(s, high, k + 1) == CountLess(s, high, k) + CountEq(s, high, k)
  {
    if |s| > 0 { LessPlusEq(s[..|s| - 1], high, k); }
  }

  lemma {:induction false} LessMonotone(s: seq<Glyph>, high: bool, k: nat, m: nat)
    requires k <= m
    ensures CountLess(s, high, k) <= CountLess(s, high, m)
  {
    if |s| > 0 { LessMonotone(s[..|s| - 1], high, k, m); }
  }

  lemma {:induction false} NoneBelowZero(s: seq<Glyph>, high: bool)
    ensures CountLess(s, high, 0) == 0
  {
    if |s| > 0 { NoneBelowZero(s[..|s| - 1], high); }
  }

  /** A prefix that stops before a glyph of key k misses at least that glyph. */
  lemma {:induction false} EqGrows(s: seq<Glyph>, high: bool, i: nat, j: nat)
    requires i < j <= |s|
    ensures CountEq(s[..i], high, Key(s[i], high)) < CountEq(s[..j], high, Key(s[i], high))
    decreases j
  {
    assert s[..j][..j - 1] == s[..j - 1];
    if i < j - 1 { EqGrows(s, high, i, j - 1); }
  }

  /** Places follow the keys, and among equal keys the order of the input. */
  lemma PlaceOrder(s: seq<Glyph>, high: bool, i: nat, j: nat)
    requires i < |s| && j < |s|
    requires Key(s[i], high) < Key(s[j], high) || (Key(s[i], high) == Key(s[j], high) && i < j)
    ensures Place(s, high, i) < Place(s, high, j)
  {
    var k, m := Key(s[i], high), Key(s[j], high);
    if k < m {
      EqGrows(s, high, i, |s|);
      assert s[..|s|] == s;
      LessPlusEq(s, high, k);
      LessMonotone(s, high, k + 1, m);
    } else {
      EqGrows(s, high, i, j);
    }
  }

  lemma PlaceInRange(s: seq<Glyph>, high: bool, i: nat)
    requires i < |s|
    ensures Place(s, high, i) < |s|
  {
    EqGrows(s, high, i, |s|);
    assert s[..|s|] == s;
    LessPlusEq(s, high, Key(s[i], high));
  }

  /** No two glyphs are scattered to the same index. */
  lemma PlaceInjective(s: seq<Glyph>, high: bool, i: nat, j: nat)
    requires i < |s| && j < |s| && i != j
    ensures Place(s, high, i) != Place(s, high, j)
  {
    if Key(s[i], high) < Key(s[j], high) || (Key(s[i], high) == Key(s[j], high) && i < j) {
      PlaceOrder(s, high, i, j);
    } else {
      PlaceOrder(s, high, j, i);
    }
  }

  // ----- one pass -----

  /** Every glyph stands at its place. */
  ghost predicate Scattered(s: seq<Glyph>, high: bool, dst: seq<Glyph>, n: nat)
    requires n <= |s|
  {
    |dst| == |s| && forall i :: 0 <= i < n ==> Place(s, high, i) < |s| && dst[Place(s, high, i)] == s[i]
  }

  /** First loop: counter[k + 1] becomes the number of glyphs with key k. */
  method CountKeys(counter: array<nat>, src: seq<Glyph>, high: bool)
    requires counter.Length == KEYS + 1 && forall k :: 0 <= k <= KEYS ==> counter[k] == 0
    modifies counter
    ensures counter[0] == 0 && forall k :: 0 <= k < KEYS ==> counter[k + 1] == CountEq(src, high, k)
  {
    for i := 0 to |src|
      invariant counter[0] == 0
      invariant forall k :: 0 <= k < KEYS ==> counter[k + 1] == CountEq(src[..i], high, k)
    {
      assert src[..i + 1][..i] == src[..i];
      var k := Key(src[i], high);
      counter[k + 1] := counter[k + 1] + 1;
    }
    assert src[..|src|] == src;
  }

  /** Second loop: running sums turn the counts into first places. */
  method SumCounters(counter: array<nat>, ghost src: seq<Glyph>, ghost high: bool)
    requires counter.Length == KEYS + 1
    requires counter[0] == 0 && forall k :: 0 <= k < KEYS ==> counter[k + 1] == CountEq(src, high, k)
    modifies counter
    ensures forall k :: 0 <= k <= KEYS ==> counter[k] == CountLess(src, high, k)
  {
    NoneBelowZero(src, high);
    for i := 0 to KEYS
      invariant forall k :: 0 <= k <= i ==> counter[k] == CountLess(src, high, k)
      invariant forall k :: i <= k < KEYS ==> counter[k + 1] == CountEq(src, high, k)
    {
      LessPlusEq(src, high, i);
      counter[i + 1] := counter[i + 1] + counter[i];
    }
  }

  /** Third loop: each glyph goes to the place its key's counter shows. */
  method Scatter(counter: array<nat>, src: seq<Glyph>, high: bool) returns (dst: array<Glyph>)
    requires counter.Length == KEYS + 1
    requires forall k :: 0 <= k < KEYS ==> counter[k] == CountLess(src, high, k)
    modifies counter
    ensures fresh(dst) && Scattered(src, high, dst[..], |src|)
  {
    hide CountLess, CountEq;
    NoneYet(high);
    dst := new Glyph[|src|];
    for i := 0 to |src|
      invariant forall k :: 0 <= k < KEYS ==> counter[k] == CountLess(src, high, k) + CountEq(src[..i], high, k)
      invariant Scattered(src, high, dst[..], i)
    {
      var k := Key(src[i], high);
      PlaceInRange(src, high, i);
      forall j | 0 <= j < i
        ensures Place(src, high, j) != Place(src, high, i)
      {
        PlaceInjective(src, high, j, i);
      }
      EqStep(src, high, i);
      dst[counter[k]] := src[i];
      counter[k] := counter[k] + 1;
    }
  }

  lemma NoneYet(high: bool)
    ensures forall k :: CountEq([], high, k) == 0
  {
  }

  lemma EqStep(s: seq<Glyph>, high: bool, i: nat)
    requires i < |s|
    ensures forall k :: CountEq(s[..i + 1], high, k) == CountEq(s[..i], high, k) + if Key(s[i], high) == k then 1 else 0
  {
    assert s[..i + 1][..i] == s[..i];
  }

  method CountingPass(src: seq<Glyph>, high: bool) returns (dst: array<Glyph>)
    ensures fresh(dst) && Scattered(src, high, dst[..], |src|)
  {
    var counter := new nat[KEYS + 1](_ => 0);
    CountKeys(counter, src, high);
    SumCounters(counter, src, high);
    dst := Scatter(counter, src, high);
  }

  // ----- both passes -----

  /** Where both passes together put the glyph at index i of the list. */
  function FinalPlace(s: seq<Glyph>, mid: seq<Glyph>, i: nat): nat
    requires i < |s| == |mid| && Place(s, false, i) < |mid|
  {
    Place(mid, true, Place(s, false, i))
  }

  /** Smaller code, or same code and earlier in the list. */
  predicate Before(s: seq<Glyph>, i: nat, j: nat)
    requires i < |s| && j < |s|
  {
    s[i].charCode < s[j].charCode || (s[i].charCode == s[j].charCode && i < j)
  }

  /** place says where each glyph of the list ended up; it is a permutation, it follows the character
      codes, and among equal codes it follows the list. */
  ghost predicate StablySorted(s: seq<Glyph>, sorted: seq<Glyph>, place: seq<nat>) {
    && |sorted| == |place| == |s|
    && Distinct(place) && Below(place, |s|)
    && (forall i :: 0 <= i < |s| ==> sorted[place[i]] == s[i])
    && (forall i, j :: 0 <= i < |s| && 0 <= j < |s| && Before(s, i, j) ==> place[i] < place[j])
  }

  lemma CodeOrder(s: seq<Glyph>, mid: seq<Glyph>, i: nat, j: nat)
    requires Scattered(s, false, mid, |s|)
    requires i < |s| && j < |s| && Before(s, i, j)
    ensures Place(s, false, i) < |s| && Place(s, false, j) < |s|
    ensures FinalPlace(s, mid, i) < FinalPlace(s, mid, j)
  {
    var a, b := Place(s, false, i), Place(s, false, j);
    if Key(s[i], true) == Key(s[j], true) {
      PlaceOrder(s, false, i, j);
    }
    PlaceOrder(mid, true, a, b);
  }

  method SortGlyphs(unsorted: seq<Glyph>) returns (sorted: array<Glyph>, ghost place: seq<nat>)
    ensures fresh(sorted) && StablySorted(unsorted, sorted[..], place)
  {
    var tmp := CountingPass(unsorted, false);
    ghost var mid := tmp[..];
    sorted := CountingPass(tmp[..], true);
    place := seq(|unsorted|, i requires 0 <= i < |unsorted| => FinalPlace(unsorted, mid, i));
    BothPasses(unsorted, mid, sorted[..], place);
  }

  lemma BothPasses(s: seq<Glyph>, mid: seq<Glyph>, sorted: seq<Glyph>, place: seq<nat>)
    requires Scattered(s, false, mid, |s|) && Scattered(mid, true, sorted, |mid|)
    requires |place| == |s| && forall i :: 0 <= i < |s| ==> place[i] == FinalPlace(s, mid, i)
    ensures StablySorted(s, sorted, place)
  {
    forall i, j | 0 <= i < |s| && 0 <= j < |s| && Before(s, i, j)
      ensures place[i] < place[j]
    {
      CodeOrder(s, mid, i, j);
    }
    forall i, j | 0 <= i < j < |s|
      ensures place[i] != place[j]
    {
      PlaceInjective(s, false, i, j);
      PlaceInjective(mid, true, Place(s, false, i), Place(s, false, j));
    }
  }

  // ----- what a stable sort means for the font -----

  /** The sorted array is ordered by character code and holds the same glyphs. */
  lemma SortedPermutation(s: seq<Glyph>, sorted: seq<Glyph>, place: seq<nat>)
    requires StablySorted(s, sorted, place)
    ensures multiset(sorted) == multiset(s)
    ensures forall a, b :: 0 <= a < b < |sorted| ==> sorted[a].charCode <= sorted[b].charCode
  {
    PlacementPermutes(s, sorted, place);
    forall a, b | 0 <= a < b < |sorted|
      ensures sorted[a].charCode <= sorted[b].charCode
    {
      DistinctOnto(place, |s|, a);
      DistinctOnto(place, |s|, b);
    }
  }

  /** An array filled through distinct places holds the same elements. */
  lemma {:induction false} PlacementPermutes<T>(s: seq<T>, dst: seq<T>, place: seq<nat>)
    requires |dst| == |place| == |s| && Distinct(place) && Below(place, |s|)
    requires forall i :: 0 <= i < |s| ==> dst[place[i]] == s[i]
    ensures multiset(dst) == multiset(s)
    decreases |s|
  {
    if |s| > 0 {
      var n := |s| - 1;
      var k := place[n];
      var dst' := dst[..k] + dst[k + 1..];
      var place' := seq(n, i requires 0 <= i < n => if place[i] < k then place[i] else place[i] - 1);
      PlacementPermutes(s[..n], dst', place');
      assert s == s[..n] + [s[n]];
      assert dst == dst[..k] + [dst[k]] + dst[k + 1..];
      assert multiset(dst) == multiset(dst') + multiset{dst[k]};
    }
  }
}
