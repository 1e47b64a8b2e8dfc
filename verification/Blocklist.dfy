/** The blocklist of the boot sector: runs of consecutive sectors, written from the end of the
    sector downward, and read back by walking down to the first zero length. */
module Blocklist {
  import opened Outcomes
  import Words

  const SECTOR_SIZE: nat := 512

  datatype Block = Block(start: nat, len: nat, segment: nat)

  const TERMINATOR := Block(0, 0, 0)

  datatype Error = NotAligned | TooFragmented | NoTerminator

  // ----- the encoding, as a function of the sectors -----

  /** The sector follows the last run directly. */
  predicate Merges(list: seq<Block>, sector: nat) {
    |list| > 0 && list[|list| - 1].start + list[|list| - 1].len == sector
  }

  /** One sector more: it extends the last run or opens a new one. The length is a 16-bit field. */
  function Extend(list: seq<Block>, sector: nat, segment: nat): (r: seq<Block>)
    ensures |r| >= 1
  {
    if Merges(list, sector) then
      var last := list[|list| - 1];
      list[..|list| - 1] + [last.(len := (last.len + 1) % 0x1_0000)]
    else
      list + [Block(sector, 1, segment)]
  }

  function SegmentAfter(base: nat, n: nat): nat { (base + 0x20 * n) % 0x1_0000 }

  function Encode(sectors: seq<nat>, base: nat): seq<Block> {
    var n := |sectors|;
    if n == 0 then [] else Extend(Encode(sectors[..n - 1], base), sectors[n - 1], SegmentAfter(base, n - 1))
  }

  /** The sectors a list of blocks stands for. */
  function Expand(list: seq<Block>): seq<nat> {
    var n := |list|;
    if n == 0 then [] else Expand(list[..n - 1]) + Run(list[n - 1].start, list[n - 1].len)
  }

  function Run(start: nat, len: nat): (r: seq<nat>)
    ensures |r| == len && forall k :: 0 <= k < len ==> r[k] == start + k
  {
    seq(len, k requires 0 <= k < len => start + k)
  }

  /** How many consecutive sectors the sequence ends with. */
  function Tail(sectors: seq<nat>): (n: nat)
    ensures n <= |sectors|
  {
    var n := |sectors|;
    if n == 0 then 0
    else if n >= 2 && sectors[n - 2] + 1 == sectors[n - 1] then Tail(sectors[..n - 1]) + 1
    else 1
  }

  /** No run of consecutive sectors is too long for the 16-bit length. */
  predicate RunsFit(sectors: seq<nat>) { forall k :: 0 <= k <= |sectors| ==> Tail(sectors[..k]) < 0x1_0000 }

  // ----- round trip -----

  lemma RunsFitStep(sectors: seq<nat>, sector: nat)
    ensures RunsFit(sectors + [sector]) <==> RunsFit(sectors) && Tail(sectors + [sector]) < 0x1_0000
  {
    var more := sectors + [sector];
    assert more[..|sectors|] == sectors && more[..|more|] == more;
    assert forall k :: 0 <= k <= |sectors| ==> more[..k] == sectors[..k];
  }

  lemma EncodeStep(sectors: seq<nat>, sector: nat, base: nat)
    ensures Encode(sectors + [sector], base) == Extend(Encode(sectors, base), sector, SegmentAfter(base, |sectors|))
  {
    assert (sectors + [sector])[..|sectors|] == sectors;
  }

  lemma ExpandStep(list: seq<Block>, b: Block)
    ensures Expand(list + [b]) == Expand(list) + Run(b.start, b.len)
  {
    assert (list + [b])[..|list|] == list;
  }

  /** The list stands for the sectors, and its last block is the run they end with. */
  predicate Represents(list: seq<Block>, sectors: seq<nat>) {
    && Expand(list) == sectors
    && (sectors == [] <==> list == [])
    && (list != [] ==>
          && list[|list| - 1].len == Tail(sectors) >= 1
          && list[|list| - 1].start + Tail(sectors) == sectors[|sectors| - 1] + 1)
  }

  lemma TailStep(sectors: seq<nat>, sector: nat)
    ensures Tail(sectors + [sector])
              == if sectors != [] && sectors[|sectors| - 1] + 1 == sector then Tail(sectors) + 1 else 1
  {
    assert (sectors + [sector])[..|sectors|] == sectors;
  }

  lemma RunStep(start: nat, len: nat)
    ensures Run(start, len + 1) == Run(start, len) + [start + len]
  {
  }

  lemma SingleRun(start: nat)
    ensures Run(start, 1) == [start]
  {
  }

  lemma ExtendRepresents(list: seq<Block>, sectors: seq<nat>, sector: nat, segment: nat)
    requires Represents(list, sectors) && Tail(sectors + [sector]) < 0x1_0000
    ensures Represents(Extend(list, sector, segment), sectors + [sector])
  {
    var n := |list|;
    hide Tail, Run;
    TailStep(sectors, sector);
    if Merges(list, sector) {
      var b := list[n - 1];
      RunStep(b.start, b.len);
      ExpandStep(list[..n - 1], b.(len := b.len + 1));
      assert Expand(list) == Expand(list[..n - 1]) + Run(b.start, b.len);
      assert Expand(Extend(list, sector, segment)) == sectors + [sector];
    } else {
      ExpandStep(list, Block(sector, 1, segment));
      SingleRun(sector);
    }
  }

  function Weight(list: seq<Block>): nat {
    var n := |list|;
    if n == 0 then 0 else Weight(list[..n - 1]) + list[n - 1].len
  }

  lemma {:induction false} ExpandSize(list: seq<Block>)
    ensures |Expand(list)| == Weight(list)
  {
    if |list| > 0 { ExpandSize(list[..|list| - 1]); }
  }

  lemma WeightStep(list: seq<Block>, b: Block)
    ensures Weight(list + [b]) == Weight(list) + b.len
  {
    assert (list + [b])[..|list|] == list;
  }

  lemma NextLen(len: nat)
    ensures (len + 1) % 0x1_0000 <= len + 1
    ensures len == 0xffff ==> (len + 1) % 0x1_0000 == 0
    ensures len < 0xffff ==> (len + 1) % 0x1_0000 == len + 1
  {
  }

  /** A sector adds at most one to what the list stands for; a length that wraps around loses its run. */
  lemma ExtendWeight(list: seq<Block>, sector: nat, segment: nat)
    ensures Weight(Extend(list, sector, segment)) <= Weight(list) + 1
    ensures Merges(list, sector) && list[|list| - 1].len == 0xffff ==> Weight(Extend(list, sector, segment)) < Weight(list)
  {
    hide Weight;
    if Merges(list, sector) {
      var init, last := list[..|list| - 1], list[|list| - 1];
      assert list == init + [last];
      NextLen(last.len);
      WeightStep(init, last);
      WeightStep(init, last.(len := (last.len + 1) % 0x1_0000));
    } else {
      WeightStep(list, Block(sector, 1, segment));
    }
  }

  lemma MergeIsConsecutive(list: seq<Block>, sectors: seq<nat>, sector: nat)
    requires Represents(list, sectors)
    ensures Merges(list, sector) <==> sectors != [] && sectors[|sectors| - 1] + 1 == sector
    ensures Merges(list, sector) ==> list[|list| - 1].len == Tail(sectors) && Tail(sectors + [sector]) == Tail(sectors) + 1
    ensures |Expand(list)| == |sectors|
  {
    TailStep(sectors, sector);
  }

  predicate RepresentsOrLoses(list: seq<Block>, sectors: seq<nat>) {
    if RunsFit(sectors) then Represents(list, sectors) else Weight(list) < |sectors|
  }

  lemma OneMoreSector(list: seq<Block>, before: seq<nat>, x: nat, segment: nat)
    requires RepresentsOrLoses(list, before)
    ensures RepresentsOrLoses(Extend(list, x, segment), before + [x])
  {
    hide RunsFit, Tail, Expand, Weight, Represents, Merges, Extend;
    RunsFitStep(before, x);
    ExtendWeight(list, x, segment);
    if RunsFit(before) {
      ExpandSize(list);
      MergeIsConsecutive(list, before, x);
      TailStep(before, x);
      FitsSoFar(before);
      if Tail(before + [x]) < 0x1_0000 {
        ExtendRepresents(list, before, x, segment);
      }
    }
  }

  lemma FitsSoFar(sectors: seq<nat>)
    requires RunsFit(sectors)
    ensures Tail(sectors) < 0x1_0000
  {
    assert sectors[..|sectors|] == sectors;
  }

  /** Either every run fits and the list represents the sectors, or sectors have been lost for good. */
  lemma {:induction false} EncodeRepresentsOrLoses(sectors: seq<nat>, base: nat)
    ensures RepresentsOrLoses(Encode(sectors, base), sectors)
  {
    var n := |sectors|;
    if n > 0 {
      assert sectors == sectors[..n - 1] + [sectors[n - 1]];
      EncodeRepresentsOrLoses(sectors[..n - 1], base);
      hide RepresentsOrLoses;
      OneMoreSector(Encode(sectors[..n - 1], base), sectors[..n - 1], sectors[n - 1], SegmentAfter(base, n - 1));
    } else {
      assert RunsFit(sectors) by { assert sectors[..0] == []; }
    }
  }

  /** Expanding the blocks gives back the sectors exactly when no run of consecutive sectors reaches 65536. */
  lemma BlocklistRoundTrip(sectors: seq<nat>, base: nat)
    ensures Expand(Encode(sectors, base)) == sectors <==> RunsFit(sectors)
  {
    EncodeRepresentsOrLoses(sectors, base);
    ExpandSize(Encode(sectors, base));
  }

  /** The installer's limit on the core image, 65535 sectors, rules long runs out. */
  lemma SizeLimitSuffices(sectors: seq<nat>, base: nat)
    requires |sectors| <= 0xffff
    ensures RunsFit(sectors) && Expand(Encode(sectors, base)) == sectors
  {
    assert RunsFit(sectors);
    BlocklistRoundTrip(sectors, base);
  }

  // ----- shape of the list -----

  /** Runs are maximal, lengths are never zero, and each segment follows from the sectors before it. */
  predicate WellShaped(list: seq<Block>, base: nat) {
    |list| == 0 ||
    var init, last := list[..|list| - 1], list[|list| - 1];
    && WellShaped(init, base)
    && 0 < last.len < 0x1_0000
    && !Merges(init, last.start)
    && last.segment == SegmentAfter(base, Weight(init))
  }

  lemma ExtendShape(list: seq<Block>, sector: nat, base: nat)
    requires WellShaped(list, base)
    requires Merges(list, sector) ==> list[|list| - 1].len + 1 < 0x1_0000
    ensures WellShaped(Extend(list, sector, SegmentAfter(base, Weight(list))), base)
  {
    hide Weight, SegmentAfter;
    var more := Extend(list, sector, SegmentAfter(base, Weight(list)));
    if Merges(list, sector) {
      assert more[..|more| - 1] == list[..|list| - 1];
    } else {
      assert more[..|more| - 1] == list;
    }
  }

  lemma MergeFits(list: seq<Block>, before: seq<nat>, x: nat)
    requires Represents(list, before) && RunsFit(before + [x]) && Merges(list, x)
    ensures list[|list| - 1].len + 1 < 0x1_0000
  {
    MergeIsConsecutive(list, before, x);
    FitsSoFar(before + [x]);
  }

  /** When every run fits, the encoder's blocks are maximal runs and every segment is the base plus
      0x20 for each sector before it. */
  lemma {:induction false} EncodeIsWellShaped(sectors: seq<nat>, base: nat)
    requires RunsFit(sectors)
    ensures WellShaped(Encode(sectors, base), base)
    ensures Weight(Encode(sectors, base)) == |sectors|
  {
    hide Weight, WellShaped, Expand, Tail, SegmentAfter, Represents, RunsFit, Merges, Extend;
    Sizes(sectors, base);
    if sectors != [] {
      var before, x := sectors[..|sectors| - 1], sectors[|sectors| - 1];
      assert sectors == before + [x];
      RunsFitStep(before, x);
      EncodeIsWellShaped(before, base);
      Sizes(before, base);
      var list := Encode(before, base);
      if Merges(list, x) { MergeFits(list, before, x); }
      ExtendShape(list, x, base);
    } else {
      NothingIsWellShaped(base);
    }
  }

  lemma NothingIsWellShaped(base: nat)
    ensures WellShaped([], base)
  {
  }

  lemma Sizes(sectors: seq<nat>, base: nat)
    requires RunsFit(sectors)
    ensures Represents(Encode(sectors, base), sectors) && Weight(Encode(sectors, base)) == |sectors|
  {
    EncodeRepresentsOrLoses(sectors, base);
    ExpandSize(Encode(sectors, base));
  }

  // ----- the blocks in numbers -----

  /** The sectors from one place of the sequence to another are consecutive, and the run does not go on in front of them. */
  predicate WholeRun(sectors: seq<nat>, from: nat, to: nat) {
    && from < to <= |sectors|
    && (forall k :: from < k < to ==> sectors[k] == sectors[k - 1] + 1)
    && (from > 0 ==> sectors[from] != sectors[from - 1] + 1)
  }

  /** The places where the sequence has to be cut into runs, both ends included. */
  predicate Cuts(cut: seq<nat>, sectors: seq<nat>) {
    && |cut| > 0 && cut[0] == 0 && cut[|cut| - 1] == |sectors|
    && forall j :: 0 <= j < |cut| - 1 ==> WholeRun(sectors, cut[j], cut[j + 1])
  }

  /** A block for the run: its first sector, its length, and a segment of 0x20 paragraphs for each sector in front. */
  predicate BlockFor(b: Block, sectors: seq<nat>, from: nat, to: nat, base: nat) {
    && from < to <= |sectors|
    && b.start == sectors[from] && b.len == to - from && b.segment == (base + 0x20 * from) % 0x1_0000
  }

  /** One block for each run. */
  predicate BlocksFor(list: seq<Block>, cut: seq<nat>, sectors: seq<nat>, base: nat) {
    |list| == |cut| - 1 && forall j :: 0 <= j < |list| ==> BlockFor(list[j], sectors, cut[j], cut[j + 1], base)
  }

  /** Sector k follows the one before it. */
  predicate Follows(sectors: seq<nat>, k: int) { 0 < k < |sectors| && sectors[k] == sectors[k - 1] + 1 }

  predicate Consecutive(sectors: seq<nat>, from: nat, n: nat) { forall k :: from < k < from + n ==> Follows(sectors, k) }

  /** No 0x10000 sectors in a row are consecutive. */
  predicate NoLongRun(sectors: seq<nat>) { forall from: nat :: Consecutive(sectors, from, 0x1_0000) ==> |sectors| < from + 0x1_0000 }

  lemma {:induction false} TailIs(sectors: seq<nat>, n: nat)
    requires 0 < n <= |sectors|
    ensures Tail(sectors) >= n <==> Consecutive(sectors, |sectors| - n, n)
    decreases |sectors|
  {
    var size := |sectors|;
    if n > 1 {
      TailIs(sectors[..size - 1], n - 1);
      LongerRun(sectors, n);
    }
  }

  lemma LongerRun(sectors: seq<nat>, n: nat)
    requires 1 < n <= |sectors|
    ensures var size := |sectors|;
            Consecutive(sectors, size - n, n) <==> Consecutive(sectors[..size - 1], size - n, n - 1) && sectors[size - 1] == sectors[size - 2] + 1
  {
    var size := |sectors|;
    var front := sectors[..size - 1];
    assert Follows(sectors, size - 1) <==> sectors[size - 1] == sectors[size - 2] + 1;
    if Consecutive(sectors, size - n, n) {
      forall k | size - n < k < size - 1
        ensures Follows(front, k)
      {
        assert Follows(sectors, k);
      }
      assert Follows(sectors, size - 1);
    }
    if Consecutive(front, size - n, n - 1) && Follows(sectors, size - 1) {
      forall k | size - n < k < size
        ensures Follows(sectors, k)
      {
        assert k < size - 1 ==> Follows(front, k);
      }
    }
  }

  lemma TailFits(sectors: seq<nat>, n: nat)
    requires n <= |sectors|
    ensures Tail(sectors[..n]) >= 0x1_0000 <==> 0x1_0000 <= n && Consecutive(sectors, n - 0x1_0000, 0x1_0000)
  {
    hide Tail;
    if 0x1_0000 <= n {
      var front := sectors[..n];
      TailIs(front, 0x1_0000);
      assert forall k :: n - 0x1_0000 < k < n ==> (Follows(front, k) <==> Follows(sectors, k));
    }
  }

  lemma RunsFitExactly(sectors: seq<nat>)
    ensures RunsFit(sectors) <==> NoLongRun(sectors)
  {
    hide Consecutive, Tail;
    if RunsFit(sectors) {
      forall from: nat | Consecutive(sectors, from, 0x1_0000)
        ensures |sectors| < from + 0x1_0000
      {
        if from + 0x1_0000 <= |sectors| {
          TailFits(sectors, from + 0x1_0000);
        }
      }
    }
    if NoLongRun(sectors) {
      forall k | 0 <= k <= |sectors|
        ensures Tail(sectors[..k]) < 0x1_0000
      {
        TailFits(sectors, k);
      }
    }
  }

  /** The blocks of the list are those of the runs. */
  lemma {:induction false} EncodeIsCut(sectors: seq<nat>, base: nat) returns (cut: seq<nat>)
    requires RunsFit(sectors)
    ensures Cuts(cut, sectors) && BlocksFor(Encode(sectors, base), cut, sectors, base)
  {
    hide Represents, RunsFit, Merges, Extend, WholeRun, BlockFor;
    if sectors == [] {
      cut := [0];
    } else {
      var n := |sectors| - 1;
      var before, x := sectors[..n], sectors[n];
      assert sectors == before + [x];
      RunsFitStep(before, x);
      var list := Encode(before, base);
      cut := EncodeIsCut(before, base);
      EncodeRepresentsOrLoses(before, base);
      Sizes(before, base);
      MergeIsConsecutive(list, before, x);
      if Merges(list, x) {
        MergeFits(list, before, x);
        cut := LongerLast(list, cut, before, x, base);
      } else {
        cut := OneMoreRun(list, cut, before, x, base);
      }
    }
  }

  lemma LongerLast(list: seq<Block>, cut: seq<nat>, before: seq<nat>, x: nat, base: nat) returns (cut': seq<nat>)
    requires Cuts(cut, before) && BlocksFor(list, cut, before, base) && Merges(list, x)
    requires before != [] && before[|before| - 1] + 1 == x && list[|list| - 1].len + 1 < 0x1_0000
    ensures Cuts(cut', before + [x]) && BlocksFor(Extend(list, x, SegmentAfter(base, |before|)), cut', before + [x], base)
  {
    hide WholeRun, BlockFor, SegmentAfter;
    var m, n := |cut| - 1, |before|;
    var more, last := before + [x], list[|list| - 1];
    cut' := cut[..m] + [n + 1];
    forall j | 0 <= j < m - 1
      ensures WholeRun(more, cut'[j], cut'[j + 1]) && BlockFor(list[j], more, cut'[j], cut'[j + 1], base)
    {
      RunKept(before, x, cut[j], cut[j + 1], list[j], base);
    }
    assert WholeRun(before, cut[m - 1], cut[m - 1 + 1]) && BlockFor(list[m - 1], before, cut[m - 1], cut[m - 1 + 1], base);
    RunGrows(before, x, cut[m - 1], last, base);
    assert cut'[m - 1] == cut[m - 1] && cut'[m] == n + 1;
    assert Extend(list, x, SegmentAfter(base, n)) == list[..m - 1] + [last.(len := last.len + 1)];
  }

  lemma RunGrows(before: seq<nat>, x: nat, from: nat, b: Block, base: nat)
    requires WholeRun(before, from, |before|) && BlockFor(b, before, from, |before|, base) && before[|before| - 1] + 1 == x
    ensures WholeRun(before + [x], from, |before| + 1) && BlockFor(b.(len := b.len + 1), before + [x], from, |before| + 1, base)
  {
  }

  lemma RunKept(before: seq<nat>, x: nat, from: nat, to: nat, b: Block, base: nat)
    requires WholeRun(before, from, to) && BlockFor(b, before, from, to, base)
    ensures WholeRun(before + [x], from, to) && BlockFor(b, before + [x], from, to, base)
  {
  }

  lemma NewRun(before: seq<nat>, x: nat, base: nat)
    requires before != [] ==> before[|before| - 1] + 1 != x
    ensures var n := |before|;
            WholeRun(before + [x], n, n + 1) && BlockFor(Block(x, 1, SegmentAfter(base, n)), before + [x], n, n + 1, base)
  {
  }

  lemma OneMoreRun(list: seq<Block>, cut: seq<nat>, before: seq<nat>, x: nat, base: nat) returns (cut': seq<nat>)
    requires Cuts(cut, before) && BlocksFor(list, cut, before, base) && !Merges(list, x)
    requires before != [] ==> before[|before| - 1] + 1 != x
    ensures Cuts(cut', before + [x]) && BlocksFor(Extend(list, x, SegmentAfter(base, |before|)), cut', before + [x], base)
  {
    hide WholeRun, BlockFor, Merges, SegmentAfter;
    var m, n := |cut| - 1, |before|;
    var more, b := before + [x], Block(x, 1, SegmentAfter(base, n));
    cut' := cut + [n + 1];
    forall j | 0 <= j < m
      ensures WholeRun(more, cut'[j], cut'[j + 1]) && BlockFor(list[j], more, cut'[j], cut'[j + 1], base)
    {
      RunKept(before, x, cut[j], cut[j + 1], list[j], base);
    }
    NewRun(before, x, base);
    assert cut'[m] == n && cut'[m + 1] == n + 1;
    assert Extend(list, x, SegmentAfter(base, n)) == list + [b];
  }

  /** What the boot sector holds once the list is installed: from the last slot down a block for each run, and a slot of
      length zero. */
  predicate Installed(slots: seq<Block>, cut: seq<nat>, sectors: seq<nat>, base: nat) {
    && Cuts(cut, sectors) && |cut| <= |slots|
    && (forall j :: 0 <= j < |cut| - 1 ==> BlockFor(slots[|slots| - 1 - j], sectors, cut[j], cut[j + 1], base))
    && slots[|slots| - |cut|].len == 0
  }

  lemma ListIsInstalled(list: seq<Block>, sectors: seq<nat>, base: nat, slots: seq<Block>, top: nat)
    requires list == Encode(sectors, base) && RunsFit(sectors)
    requires top < |slots| && slots[top].len == 0 && Downward(slots[top + 1..]) == list
    ensures exists cut :: Installed(slots, cut, sectors, base)
  {
    hide Encode, RunsFit, WholeRun, BlockFor;
    var cut := EncodeIsCut(sectors, base);
    DownwardLength(slots[top + 1..]);
    forall j | 0 <= j < |cut| - 1
      ensures BlockFor(slots[|slots| - 1 - j], sectors, cut[j], cut[j + 1], base)
    {
      assert slots[|slots| - 1 - j] == list[j];
    }
    assert Installed(slots, cut, sectors, base);
  }

  // ----- the boot sector -----

  /** One piece of the core image as the file system reports it. */
  datatype Piece = Piece(sector: nat, offset: nat, length: nat)

  /** Slots as the loader meets them, from the last one down. */
  function Downward(s: seq<Block>): (r: seq<Block>)
    ensures |r| == |s| && forall k :: 0 <= k < |s| ==> r[k] == s[|s| - 1 - k]
  {
    seq(|s|, k requires 0 <= k < |s| => s[|s| - 1 - k])
  }

  lemma NextSegment(base: nat, n: nat)
    ensures (SegmentAfter(base, n) + 0x20) % 0x1_0000 == SegmentAfter(base, n + 1)
  {
    hide SegmentAfter;
    SegmentIs(base, n, base + 0x20 * n);
    SegmentIs(base, n + 1, base + 0x20 * n + 0x20);
    WrapTwice(base + 0x20 * n, 0x20);
  }

  lemma SegmentIs(base: nat, n: nat, x: nat)
    requires x == base + 0x20 * n
    ensures SegmentAfter(base, n) == x % 0x1_0000
  {
  }

  lemma WrapTwice(x: nat, d: nat)
    requires d < 0x1_0000
    ensures (x % 0x1_0000 + d) % 0x1_0000 == (x + d) % 0x1_0000
  {
    var q, r := x / 0x1_0000, x % 0x1_0000;
    if r + d < 0x1_0000 {
      Words.ModUnique(x + d, 0x1_0000, q, r + d);
    } else {
      Words.ModUnique(x + d, 0x1_0000, q + 1, r + d - 0x1_0000);
      Words.ModUnique(r + d, 0x1_0000, 1, r + d - 0x1_0000);
    }
  }

  lemma DownwardLength(s: seq<Block>)
    ensures |Downward(s)| == |s|
  {
  }

  lemma DownwardWrite(s: seq<Block>, b: Block)
    ensures Downward([b] + s) == Downward(s) + [b]
  {
  }

  lemma DownwardUpdate(s: seq<Block>, b: Block)
    requires |s| > 0
    ensures Downward([b] + s[1..]) == Downward(s)[..|s| - 1] + [b]
    ensures Downward(s)[|s| - 1] == s[0]
  {
  }

  /** What Extend does to the list, seen from the slots. */
  lemma ExtendDownward(tail: seq<Block>, sector: nat, segment: nat)
    ensures tail != [] && tail[0].start + tail[0].len == sector ==>
              Downward([tail[0].(len := (tail[0].len + 1) % 0x1_0000)] + tail[1..]) == Extend(Downward(tail), sector, segment)
    ensures !(tail != [] && tail[0].start + tail[0].len == sector) ==>
              Downward([Block(sector, 1, segment)] + tail) == Extend(Downward(tail), sector, segment)
  {
    hide Downward;
    DownwardLength(tail);
    DownwardWrite(tail, Block(sector, 1, segment));
    if tail != [] {
      DownwardUpdate(tail, tail[0].(len := (tail[0].len + 1) % 0x1_0000));
    }
  }

  /** The slots of the boot sector; the list starts in the last slot and grows downward. Below the list
      lies the sector's code, whose bytes read as a slot with a nonzero length (floor). */
  class BootSector {
    const slots: array<Block>
    var block: int
    var currentSegment: nat
    var lastLength: nat
    ghost var floor: nat
    ghost var base: nat
    ghost var sectors: seq<nat>

    constructor (slots: array<Block>, kernelSegment: nat)
      requires slots.Length > 0
      ensures this.slots == slots && block == slots.Length - 1 && lastLength == SECTOR_SIZE && sectors == []
      ensures currentSegment == (kernelSegment + 0x20) % 0x1_0000 && base == currentSegment
    {
      this.slots := slots;
      block := slots.Length - 1;
      currentSegment := (kernelSegment + 0x20) % 0x1_0000;
      lastLength := SECTOR_SIZE;
      floor, base, sectors := 0, (kernelSegment + 0x20) % 0x1_0000, [];
    }

    /** The blocks written so far, first one first. */
    ghost function List(): seq<Block>
      requires -1 <= block < slots.Length
      reads this, slots
    {
      Downward(slots[block + 1..])
    }

    ghost predicate Valid()
      reads this, slots
    {
      && Free() && floor < block
      && List() == Encode(sectors, base)
      && currentSegment == SegmentAfter(base, |sectors|)
    }

    /** Zero the old list, field by field, up to its terminator. */
    method CleanOut() returns (r: Result<(), Error>)
      requires slots.Length > 0
      modifies this`block, slots
      ensures r.Ok? <==> exists t :: 0 <= t < slots.Length && old(slots[..])[t].len == 0
      ensures r.Err? ==> r.error == NoTerminator
      ensures r.Ok? ==> exists t :: CleanedDownTo(old(slots[..]), slots[..], t)
      ensures block == slots.Length - 1
    {
      block := slots.Length - 1;
      while slots[block].len != 0
        invariant 0 <= block < slots.Length
        invariant forall k :: block < k < slots.Length ==> old(slots[..])[k].len != 0 && slots[k] == TERMINATOR
        invariant forall k :: 0 <= k <= block ==> slots[k] == old(slots[..])[k]
        decreases block
      {
        slots[block] := TERMINATOR;
        block := block - 1;
        if block < 0 {
          block := slots.Length - 1;
          return Err(NoTerminator);
        }
      }
      ghost var t, cleaned := block, slots[..];
      block := slots.Length - 1;
      assert slots[..] == cleaned;
      assert CleanedDownTo(old(slots[..]), slots[..], t);
      return Ok(());
    }

    /** The code stands at floor and everything from there up to the current slot is free. */
    ghost predicate Free()
      reads this, slots
    {
      && 0 <= floor <= block < slots.Length
      && slots[floor].len != 0
      && (forall k :: floor < k <= block ==> slots[k].len == 0)
    }

    /** Lengthen the last run or open a new one below it; ok is false when the new slot's successor is taken. */
    method Put(sector: nat) returns (ok: bool)
      requires Free() && floor < block
      modifies this`block, slots
      ensures Free() && (ok <==> floor < block)
      ensures List() == Extend(old(List()), sector, currentSegment)
    {
      hide Downward, Extend, Encode, Expand, Weight;
      ghost var tail := slots[block + 1..];
      ExtendDownward(tail, sector, currentSegment);
      var first := slots.Length - 1;
      if block != first && slots[block + 1].start + slots[block + 1].len == sector {
        slots[block + 1] := slots[block + 1].(len := (slots[block + 1].len + 1) % 0x1_0000);
        assert slots[block + 1..] == [slots[block + 1]] + tail[1..];
        return true;
      } else {
        slots[block] := Block(sector, 1, currentSegment);
        block := block - 1;
        assert slots[block + 1..] == [slots[block + 1]] + tail;
        return slots[block].len == 0;
      }
    }

    /** save_blocklists: one sector more. */
    method SaveBlocklists(piece: Piece) returns (r: Result<(), Error>)
      requires Valid()
      modifies this`block, this`currentSegment, this`lastLength, this`sectors, slots
      ensures r == (if piece.offset != 0 || old(lastLength) != SECTOR_SIZE then Err(NotAligned)
                    else if |Encode(old(sectors) + [piece.sector], base)| < slots.Length - 1 - floor then Ok(())
                    else Err(TooFragmented))
      ensures r.Ok? ==> Valid() && sectors == old(sectors) + [piece.sector] && lastLength == piece.length
    {
      hide Encode, SegmentAfter, Downward, Extend;
      if piece.offset != 0 || lastLength != SECTOR_SIZE {
        return Err(NotAligned);
      }
      EncodeStep(sectors, piece.sector, base);
      NextSegment(base, |sectors|);
      var ok := Put(piece.sector);
      DownwardLength(slots[block + 1..]);
      assert |Encode(sectors + [piece.sector], base)| == slots.Length - 1 - block;
      if !ok {
        return Err(TooFragmented);
      }
      sectors := sectors + [piece.sector];
      lastLength := piece.length;
      currentSegment := (currentSegment + 0x20) % 0x1_0000;
      return Ok(());
    }

    /** The loops over the pieces of the core image. */
    method SaveAll(pieces: seq<Piece>) returns (r: Result<(), Error>)
      requires Valid() && sectors == [] && lastLength == SECTOR_SIZE
      modifies this`block, this`currentSegment, this`lastLength, this`sectors, slots
      ensures r.Ok? <==> Aligned(pieces) && |Encode(Sectors(pieces), base)| < slots.Length - 1 - floor
      ensures r.Ok? ==> Valid() && sectors == Sectors(pieces)
    {
      assert Sectors(pieces[..0]) == [] && |Encode([], base)| < slots.Length - 1 - floor;
      hide Encode, SegmentAfter, Valid;
      for i := 0 to |pieces|
        invariant Valid() && sectors == Sectors(pieces[..i])
        invariant lastLength == if i == 0 then SECTOR_SIZE else pieces[i - 1].length
        invariant Aligned(pieces[..i])
        invariant |Encode(sectors, base)| < slots.Length - 1 - floor
      {
        PiecesStep(pieces, i);
        EncodeGrows(Sectors(pieces), i + 1, base);
        r := SaveBlocklists(pieces[i]);
        if r.Err? {
          return r;
        }
      }
      assert pieces[..|pieces|] == pieces;
      return Ok(());
    }

    /** Make sure that the last blocklist is a terminator. */
    method Terminate()
      requires 0 < block < slots.Length
      modifies this`block, slots
      ensures block == if old(block) == slots.Length - 1 then old(block) - 1 else old(block)
      ensures slots[..] == old(slots[..])[block := TERMINATOR]
    {
      if block == slots.Length - 1 {
        block := block - 1;
      }
      slots[block] := TERMINATOR;
    }

    /** Walk the list as the installer does to check it: down to the first zero length. */
    method ReadBack() returns (r: Result<seq<nat>, Error>)
      requires slots.Length > 0
      modifies this`block
      ensures r.Ok? <==> exists t :: 0 <= t < slots.Length && slots[t].len == 0
      ensures r.Ok? ==> block >= 0 && Reads(slots[..], block, r.value)
    {
      block := slots.Length - 1;
      var read := [];
      while slots[block].len != 0
        invariant 0 <= block < slots.Length
        invariant forall k :: block < k < slots.Length ==> slots[k].len != 0
        invariant read == Expand(Downward(slots[block + 1..]))
        decreases block
      {
        var b := slots[block];
        DownwardWrite(slots[block + 1..], b);
        ExpandStep(Downward(slots[block + 1..]), b);
        assert slots[block..] == [b] + slots[block + 1..];
        read := read + Run(b.start, b.len);
        block := block - 1;
        if block < 0 {
          return Err(NoTerminator);
        }
      }
      return Ok(read);
    }

    /** The whole installation: clean out the list that ends at slot old, store the pieces, terminate,
        read back. It succeeds exactly when the pieces are sector-aligned and their runs fit above the
        code, and then the read-back yields the sectors exactly when no run reaches 65536. */
    method Install(pieces: seq<Piece>, ghost end: nat, ghost code: nat) returns (r: Result<seq<nat>, Error>)
      requires code < end < slots.Length
      requires slots[code].len != 0 && (forall k :: code < k <= end ==> slots[k].len == 0)
      requires forall k :: end < k < slots.Length ==> slots[k].len != 0
      requires sectors == [] && lastLength == SECTOR_SIZE && currentSegment == base < 0x1_0000
      modifies this, slots
      ensures r.Ok? <==> Aligned(pieces) && |Encode(Sectors(pieces), base)| < slots.Length - 1 - code
      ensures r.Ok? ==> (r.value == Sectors(pieces) <==> RunsFit(Sectors(pieces)))
      ensures r.Ok? && NoLongRun(Sectors(pieces)) ==> exists cut :: Installed(slots[..], cut, Sectors(pieces), old(base))
      ensures NoLongRun(Sectors(pieces)) ==>
                exists cut :: Cuts(cut, Sectors(pieces)) && (r.Ok? <==> Aligned(pieces) && |cut| < slots.Length - code)
    {
      hide Encode, Cuts, Installed, NoLongRun, RunsFit, Aligned;
      RunsFitExactly(Sectors(pieces));
      RunsCounted(Sectors(pieces), base);
      var cleaned := CleanOut();
      assert old(slots[..])[end].len == 0 && cleaned.Ok?;
      ghost var t :| CleanedDownTo(old(slots[..]), slots[..], t);
      assert t == end;
      floor := code;
      CleanIsValid(this, end);
      var saved := SaveAll(pieces);
      if saved.Err? {
        return Err(saved.error);
      }
      ghost var list, top, beforeTerm := List(), block, slots[..];
      Terminate();
      ghost var after := slots[..];
      r := ReadBack();
      assert after[top].len == 0 && after[top + 1..] == beforeTerm[top + 1..];
      ReadBackYields(list, Sectors(pieces), base, after, top, block, r.value);
      if NoLongRun(Sectors(pieces)) {
        ListIsInstalled(list, Sectors(pieces), base, after, top);
      }
    }
  }

  lemma RunsCounted(sectors: seq<nat>, base: nat)
    ensures RunsFit(sectors) ==> exists cut :: Cuts(cut, sectors) && |Encode(sectors, base)| == |cut| - 1
  {
    hide Encode, RunsFit, Cuts;
    if RunsFit(sectors) {
      var cut := EncodeIsCut(sectors, base);
    }
  }

  lemma CleanIsValid(s: BootSector, end: nat)
    requires s.floor < end < s.slots.Length && s.block == s.slots.Length - 1
    requires s.slots[s.floor].len != 0 && (forall k :: s.floor < k < s.slots.Length ==> s.slots[k].len == 0)
    requires s.sectors == [] && s.currentSegment == s.base < 0x1_0000
    ensures s.Valid()
  {
  }

  /** A walk that stops early reads a proper part of what the list stands for. */
  lemma {:induction false} WeightOfPart(list: seq<Block>, n: nat)
    requires n <= |list|
    ensures Weight(list[..n]) <= Weight(list)
    decreases |list|
  {
    if n < |list| {
      WeightOfPart(list[..|list| - 1], n);
      assert list[..|list| - 1][..n] == list[..n];
    } else {
      assert list[..n] == list;
    }
  }

  lemma {:induction false} LengthsArePositive(list: seq<Block>, base: nat, k: nat)
    requires WellShaped(list, base) && k < |list|
    ensures list[k].len > 0
  {
    if k < |list| - 1 { LengthsArePositive(list[..|list| - 1], base, k); }
  }

  /** The nonempty slots above t were zeroed; t, the old terminator, and everything below stayed. */
  predicate CleanedDownTo(before: seq<Block>, after: seq<Block>, t: nat) {
    && t < |before| == |after|
    && before[t].len == 0
    && (forall k :: t < k < |before| ==> before[k].len != 0 && after[k] == TERMINATOR)
    && (forall k :: 0 <= k <= t ==> after[k] == before[k])
  }

  /** Where a read-back of the slots stops and what it has read by then. */
  ghost predicate Reads(slots: seq<Block>, t: nat, value: seq<nat>) {
    && t < |slots|
    && slots[t].len == 0
    && (forall k :: t < k < |slots| ==> slots[k].len != 0)
    && value == Expand(Downward(slots[t + 1..]))
  }

  lemma PartOfList(slots: seq<Block>, top: nat, t: nat)
    requires top <= t < |slots|
    ensures Downward(slots[t + 1..]) == Downward(slots[top + 1..])[..|slots| - 1 - t]
    ensures t > top ==> Downward(slots[top + 1..])[|slots| - 1 - t] == slots[t]
  {
  }

  lemma ReadBackYields(list: seq<Block>, sectors: seq<nat>, base: nat, slots: seq<Block>, top: nat, t: nat, value: seq<nat>)
    requires list == Encode(sectors, base) && Reads(slots, t, value)
    requires top < |slots| && slots[top].len == 0 && Downward(slots[top + 1..]) == list
    ensures value == sectors <==> RunsFit(sectors)
  {
    assert t >= top;
    PartOfList(slots, top, t);
    EncodeRepresentsOrLoses(sectors, base);
    var n := |slots| - 1 - t;
    DownwardLength(slots[top + 1..]);
    assert value == Expand(list[..n]);
    hide Encode, Downward, Expand, Weight, RunsFit, WellShaped, Represents;
    if RunsFit(sectors) {
      Sizes(sectors, base);
      if t > top {
        EncodeIsWellShaped(sectors, base);
        LengthsArePositive(list, base, n);
        assert false;
      }
      assert list[..n] == list;
      RepresentsExpands(list, sectors);
    } else {
      ExpandSize(list[..n]);
      WeightOfPart(list, n);
    }
  }

  lemma RepresentsExpands(list: seq<Block>, sectors: seq<nat>)
    requires Represents(list, sectors)
    ensures Expand(list) == sectors
  {
  }

  function Sectors(pieces: seq<Piece>): (r: seq<nat>)
    ensures |r| == |pieces| && forall i :: 0 <= i < |pieces| ==> r[i] == pieces[i].sector
  {
    seq(|pieces|, i requires 0 <= i < |pieces| => pieces[i].sector)
  }

  /** Every piece starts on a sector boundary and every piece but the last fills its sector. */
  predicate Aligned(pieces: seq<Piece>) {
    && (forall i :: 0 <= i < |pieces| ==> pieces[i].offset == 0)
    && (forall i :: 0 <= i < |pieces| - 1 ==> pieces[i].length == 512)
  }

  lemma PiecesStep(pieces: seq<Piece>, i: nat)
    requires i < |pieces|
    ensures Sectors(pieces[..i + 1]) == Sectors(pieces[..i]) + [pieces[i].sector] == Sectors(pieces)[..i + 1]
    ensures Aligned(pieces[..i + 1]) <==>
      Aligned(pieces[..i]) && pieces[i].offset == 0 && (i == 0 || pieces[i - 1].length == SECTOR_SIZE)
    ensures Aligned(pieces) ==> Aligned(pieces[..i + 1])
  {
    var few, more := pieces[..i], pieces[..i + 1];
    assert forall k :: 0 <= k < i ==> more[k] == few[k];
    assert more[i] == pieces[i];
  }

  lemma {:induction false} EncodeGrows(sectors: seq<nat>, n: nat, base: nat)
    requires n <= |sectors|
    ensures |Encode(sectors[..n], base)| <= |Encode(sectors, base)|
    decreases |sectors|
  {
    if n < |sectors| {
      EncodeGrows(sectors[..|sectors| - 1], n, base);
      assert sectors[..|sectors| - 1][..n] == sectors[..n];
    } else {
      assert sectors[..n] == sectors;
    }
  }
}
