/** Reading a packed module area again: every entry intact at its place, the loader's walk over all of
    them, and exactly when a walk by the sizes in the headers would do. */
module ModuleWalk {
  import opened Words
  import opened Outcomes
  import opened ElfLayout
  import opened ModulePack

  /** The entry can be read back at pos. */
  predicate Holds(image: seq<byte>, pos: nat, item: Item, t: Platform) {
    && InRoom(item) && pos + HEADER + item.room <= |image|
    && Get(image[pos..pos + 4], t) == item.kind
    && Get(image[pos + 4..pos + 8], t) == item.claimed + HEADER
    && image[pos + HEADER..pos + HEADER + |item.payload|] == item.payload
  }

  /** A header has 32 bits for each of its fields. */
  predicate Expressible(items: seq<Item>) {
    forall i :: 0 <= i < |items| ==> items[i].kind < 0x1_0000_0000 && items[i].claimed + HEADER < 0x1_0000_0000
  }

  lemma FourBytes()
    ensures Modulus(4) == 0x1_0000_0000
  {
    assert Modulus(2) == 0x1_0000;
    assert Modulus(4) == 256 * (256 * Modulus(2));
  }

  lemma PlacedBytes(image: seq<byte>, pos: nat, item: Item, t: Platform)
    requires InRoom(item) && pos + HEADER + item.room <= |image|
    ensures var after := Place(image, pos, item, t);
            && after[..pos] == image[..pos]
            && after[pos..pos + 4] == Put(item.kind, 4, t) && after[pos + 4..pos + 8] == Put(item.claimed + HEADER, 4, t)
            && after[pos + HEADER..pos + HEADER + |item.payload|] == item.payload
            && after[pos + HEADER + item.room..] == image[pos + HEADER + item.room..]
  {
    hide Put;
    var head := Header(item.kind, item.claimed, t);
    assert head[..4] == Put(item.kind, 4, t) && head[4..] == Put(item.claimed + HEADER, 4, t);
  }

  lemma PlaceHolds(image: seq<byte>, pos: nat, item: Item, t: Platform)
    requires InRoom(item) && pos + HEADER + item.room <= |image| && Expressible([item])
    ensures Holds(Place(image, pos, item, t), pos, item, t)
  {
    hide Put, Get, Place;
    assert item == [item][0];
    FourBytes();
    PlacedBytes(image, pos, item, t);
    GetPut(item.kind, 4, t);
    GetPut(item.claimed + HEADER, 4, t);
  }

  /** What is in front of an entry being written stays readable. */
  lemma HoldsInFront(image: seq<byte>, after: seq<byte>, pos: nat, q: nat, item: Item, t: Platform)
    requires Holds(image, q, item, t) && q + HEADER + item.room <= pos <= |image| == |after| && after[..pos] == image[..pos]
    ensures Holds(after, q, item, t)
  {
    hide Get;
    SameInFront(image, after, pos, q, q + 4);
    SameInFront(image, after, pos, q + 4, q + 8);
    SameInFront(image, after, pos, q + HEADER, q + HEADER + |item.payload|);
  }

  lemma SameInFront(a: seq<byte>, b: seq<byte>, pos: nat, i: nat, j: nat)
    requires i <= j <= pos <= |a| == |b| && a[..pos] == b[..pos]
    ensures a[i..j] == b[i..j]
  {
    assert a[..pos][i..j] == a[i..j] && b[..pos][i..j] == b[i..j];
  }

  lemma FrontStillHolds(was: seq<byte>, after: seq<byte>, pos: nat, front: seq<Item>, t: Platform)
    requires pos + Room(front) <= |was| == |after| && after[..pos + Room(front)] == was[..pos + Room(front)]
    requires forall i :: 0 <= i < |front| ==> Holds(was, pos + Room(front[..i]), front[i], t)
    ensures forall i :: 0 <= i < |front| ==> Holds(after, pos + Room(front[..i]), front[i], t)
  {
    hide Holds, Room;
    forall i | 0 <= i < |front|
      ensures Holds(after, pos + Room(front[..i]), front[i], t)
    {
      RoomOfPrefix(front, i);
      HoldsInFront(was, after, pos + Room(front), pos + Room(front[..i]), front[i], t);
    }
  }

  lemma LastOf(items: seq<Item>)
    requires |items| > 0 && AllFit(items) && Expressible(items)
    ensures var n := |items| - 1;
            && AllFit(items[..n]) && Expressible(items[..n]) && InRoom(items[n]) && Expressible([items[n]])
  {
    hide InRoom;
    var front := items[..|items| - 1];
    assert forall i :: 0 <= i < |front| ==> front[i] == items[i];
  }

  lemma RoomOfLast(items: seq<Item>)
    requires |items| > 0
    ensures Room(items) == Room(items[..|items| - 1]) + HEADER + items[|items| - 1].room
  {
  }

  lemma HoldsByFront(image: seq<byte>, pos: nat, items: seq<Item>, t: Platform)
    requires |items| > 0
    requires var front := items[..|items| - 1];
             (forall i :: 0 <= i < |front| ==> Holds(image, pos + Room(front[..i]), front[i], t))
             && Holds(image, pos + Room(front), items[|items| - 1], t)
    ensures forall i :: 0 <= i < |items| ==> Holds(image, pos + Room(items[..i]), items[i], t)
  {
    hide Holds, Room;
    var front := items[..|items| - 1];
    forall i | 0 <= i < |items|
      ensures Holds(image, pos + Room(items[..i]), items[i], t)
    {
      if i < |front| {
        assert front[..i] == items[..i] && front[i] == items[i];
      }
    }
  }

  /** Every entry is readable at its place, and the rest of the image is untouched. */
  lemma {:induction false} PlaceAllHolds(image: seq<byte>, pos: nat, items: seq<Item>, t: Platform)
    requires AllFit(items) && Expressible(items) && pos + Room(items) <= |image|
    ensures var after := PlaceAll(image, pos, items, t);
            && after[..pos] == image[..pos] && after[pos + Room(items)..] == image[pos + Room(items)..]
            && forall i :: 0 <= i < |items| ==> Holds(after, pos + Room(items[..i]), items[i], t)
    decreases |items|
  {
    hide Place, Holds, InRoom, Room, Expressible, AllFit;
    if |items| == 0 {
      PlaceNone(image, pos, t);
      assert items == [];
    } else {
      var n := |items| - 1;
      var front, last := items[..n], items[n];
      LastOf(items);
      RoomOfLast(items);
      var was, after := PlaceAll(image, pos, front, t), PlaceAll(image, pos, items, t);
      var at := pos + Room(front);
      PlaceAllHolds(image, pos, front, t);
      PlacedBytes(was, at, last, t);
      PlaceHolds(was, at, last, t);
      FrontStillHolds(was, after, pos, front, t);
      HoldsByFront(after, pos, items, t);
      TailKept(image, was, after, at, at + HEADER + last.room);
      SameInFront(was, after, at, 0, pos);
      assert after[..pos] == after[0..pos] && was[..pos] == was[0..pos];
    }
  }

  lemma TailKept(image: seq<byte>, was: seq<byte>, after: seq<byte>, a: nat, b: nat)
    requires a <= b <= |image| == |was| == |after| && was[a..] == image[a..] && after[b..] == was[b..]
    ensures after[b..] == image[b..]
  {
    assert was[a..][b - a..] == was[b..] && image[a..][b - a..] == image[b..];
  }

  // ----- walking -----

  /** How far a walker goes on from a header: the loader rounds up to the address size. */
  function Stride(size: nat, rounded: bool, t: Platform): nat
    requires Supported(t)
  {
    if rounded then (size + t.addr - 1) / t.addr * t.addr else size
  }

  /** From offset at, the walk visits exactly these offsets and ends at stop, the first at or past end. */
  ghost predicate IsWalk(image: seq<byte>, base: nat, at: nat, end: nat, visited: seq<nat>, stop: nat, rounded: bool, t: Platform)
    requires Supported(t)
    decreases |visited|
  {
    if |visited| == 0 then at >= end && stop == at
    else
      && at < end && visited[0] == at && base + at + HEADER <= |image|
      && IsWalk(image, base, at + Stride(Get(image[base + at + 4..base + at + 8], t), rounded, t), end, visited[1..], stop, rounded, t)
  }

  /** There is only one walk. */
  lemma {:induction false} WalkIsUnique(image: seq<byte>, base: nat, at: nat, end: nat, a: seq<nat>, s: nat, b: seq<nat>, u: nat, rounded: bool, t: Platform)
    requires Supported(t) && IsWalk(image, base, at, end, a, s, rounded, t) && IsWalk(image, base, at, end, b, u, rounded, t)
    ensures a == b && s == u
    decreases |a|
  {
    hide Stride, Get;
    if |a| > 0 {
      WalkIsUnique(image, base, at + Stride(Get(image[base + at + 4..base + at + 8], t), rounded, t), end, a[1..], s, b[1..], u, rounded, t);
      assert a == [a[0]] + a[1..] && b == [b[0]] + b[1..];
    }
  }

  /** Where the headers are, the first at from. */
  function Positions(from: nat, items: seq<Item>): (ps: seq<nat>)
    ensures |ps| == |items| && forall i :: 0 <= i < |items| ==> ps[i] == from + Room(items[..i])
  {
    seq(|items|, i requires 0 <= i < |items| => from + Room(items[..i]))
  }

  lemma PositionsFrom(from: nat, items: seq<Item>, i: nat)
    requires i < |items|
    ensures Positions(from, items)[i..] == [from + Room(items[..i])] + Positions(from, items)[i + 1..]
  {
  }

  lemma WalkOn(image: seq<byte>, base: nat, at: nat, end: nat, rest: seq<nat>, stop: nat, item: Item, rounded: bool, t: Platform)
    requires Supported(t) && Holds(image, base + at, item, t) && at < end
    ensures IsWalk(image, base, at, end, [at] + rest, stop, rounded, t)
       <==> IsWalk(image, base, at + Stride(item.claimed + HEADER, rounded, t), end, rest, stop, rounded, t)
  {
    hide Stride, Get;
    assert ([at] + rest)[1..] == rest;
  }

  /** A walk starts where its first visit is. */
  lemma WalkStart(image: seq<byte>, base: nat, at: nat, end: nat, visited: seq<nat>, stop: nat, rounded: bool, t: Platform)
    requires Supported(t) && IsWalk(image, base, at, end, visited, stop, rounded, t)
    ensures at == if |visited| > 0 then visited[0] else stop
  {
    hide Stride, Get;
  }

  /** The entries from the i-th on are all walked, when every stride is what the entry takes. */
  lemma {:induction false} WalkFrom(image: seq<byte>, base: nat, from: nat, items: seq<Item>, i: nat, rounded: bool, t: Platform)
    requires Supported(t) && i <= |items|
    requires forall k :: 0 <= k < |items| ==> Holds(image, base + from + Room(items[..k]), items[k], t)
    requires forall k :: 0 <= k < |items| ==> Stride(items[k].claimed + HEADER, rounded, t) == items[k].room + HEADER
    ensures IsWalk(image, base, from + Room(items[..i]), from + Room(items), Positions(from, items)[i..], from + Room(items), rounded, t)
    decreases |items| - i
  {
    hide Stride, Get, Holds, Room, IsWalk, Positions;
    RoomOfPrefix(items, i);
    if i < |items| {
      WalkFrom(image, base, from, items, i + 1, rounded, t);
      PositionsFrom(from, items, i);
      WalkOn(image, base, from + Room(items[..i]), from + Room(items), Positions(from, items)[i + 1..], from + Room(items), items[i], rounded, t);
    } else {
      assert items[..i] == items;
      WalkEnds(image, base, from + Room(items), rounded, t);
      assert Positions(from, items)[i..] == [];
    }
  }

  lemma WalkEnds(image: seq<byte>, base: nat, at: nat, rounded: bool, t: Platform)
    requires Supported(t)
    ensures IsWalk(image, base, at, at, [], at, rounded, t)
  {
  }

  /** In a walk that visits the headers, every stride is what the entry takes. */
  lemma {:induction false} StridesOf(image: seq<byte>, base: nat, from: nat, items: seq<Item>, i: nat, k: nat, rounded: bool, t: Platform)
    requires Supported(t) && i <= k < |items|
    requires forall k :: 0 <= k < |items| ==> Holds(image, base + from + Room(items[..k]), items[k], t)
    requires IsWalk(image, base, from + Room(items[..i]), from + Room(items), Positions(from, items)[i..], from + Room(items), rounded, t)
    ensures Stride(items[k].claimed + HEADER, rounded, t) == items[k].room + HEADER
    decreases k - i
  {
    hide Stride, Get, Holds, Room, IsWalk, Positions;
    var at, rest := from + Room(items[..i]), Positions(from, items)[i + 1..];
    RoomOfPrefix(items, i);
    PositionsFrom(from, items, i);
    WalkOn(image, base, at, from + Room(items), rest, from + Room(items), items[i], rounded, t);
    WalkStart(image, base, at + Stride(items[i].claimed + HEADER, rounded, t), from + Room(items), rest, from + Room(items), rounded, t);
    if i + 1 < |items| {
      assert rest[0] == Positions(from, items)[i + 1];
    } else {
      assert items[..i + 1] == items;
    }
    if i < k {
      StridesOf(image, base, from, items, i + 1, k, rounded, t);
    }
  }

  // ----- the strides of the entries -----

  lemma RoundUpIsAlignUp(x: nat, a: nat)
    requires a == 4 || a == 8
    ensures (x + a - 1) / a * a == AlignUp(x, a)
  {
    hide AlignUp;
    if a == 4 {
      RoundUpTo4(x);
    } else {
      RoundUpTo8(x);
    }
  }

  lemma RoundUpTo4(x: nat)
    ensures (x + 3) / 4 * 4 == AlignUp(x, 4)
  {
  }

  lemma RoundUpTo8(x: nat)
    ensures (x + 7) / 8 * 8 == AlignUp(x, 8)
  {
  }

  lemma RoundedStride(item: Item, t: Platform)
    requires Supported(t) && AlignUp(item.claimed, t.addr) == item.room
    ensures Stride(item.claimed + HEADER, true, t) == item.room + HEADER
  {
    hide AlignUp;
    RoundUpIsAlignUp(item.claimed + HEADER, t.addr);
    AlignPastHeader(item.claimed, t.addr);
  }

  lemma AlignPastHeader(x: nat, a: nat)
    requires a == 4 || a == 8
    ensures AlignUp(x + HEADER, a) == AlignUp(x, a) + HEADER
  {
    if a == 4 {
      assert (x + 8) % 4 == x % 4;
    } else {
      assert (x + 8) % 8 == x % 8;
    }
  }

  lemma AlignedStays(x: nat, a: nat)
    requires a == 4 || a == 8
    ensures AlignUp(AlignUp(x, a), a) == AlignUp(x, a) && AlignUp(AlignUp(x, 512), a) == AlignUp(x, 512)
    ensures AlignUp(x, a) == x <==> Multiple(x, a)
  {
    hide AlignUp, Multiple;
    AlignUpMultiple(x, a);
    AlignUpMultiple(x, 512);
    AlignUpOfMultiple(AlignUp(x, a), a);
    SectorsAreAligned(AlignUp(x, 512));
    AlignUpOfMultiple(AlignUp(x, 512), a);
    AlignUpOfMultiple(x, a);
  }

  lemma SectorsAreAligned(x: nat)
    requires Multiple(x, 512)
    ensures Multiple(x, 4) && Multiple(x, 8)
  {
    ModUnique(x, 4, 128 * (x / 512), 0);
    ModUnique(x, 8, 64 * (x / 512), 0);
  }

  lemma AlignUpOfMultiple(x: nat, a: nat)
    requires a > 0
    ensures AlignUp(x, a) == x <==> Multiple(x, a)
  {
  }

  /** Every entry's room is its claim rounded up; only a key can claim less. */
  lemma ItemRooms(p: Parts, t: Platform, i: nat)
    requires Supported(t) && i < |Items(p, t)|
    ensures var item := Items(p, t)[i];
            && AlignUp(item.claimed, t.addr) == item.room
            && (item.claimed == item.room || (|p.modules| <= i < |p.modules| + |p.keys| && item == KeyItem(p.keys[i - |p.modules|], t)))
    ensures |ModuleItems(p.modules, t)| == |p.modules| && |KeyItems(p.keys, t)| == |p.keys|
  {
    hide AlignUp, ModuleItems, KeyItems;
    ModuleCount(p.modules, |p.modules|, t);
    KeyCount(p.keys, |p.keys|, t);
    var item := Items(p, t)[i];
    if i < |p.modules| {
      ModuleCount(p.modules, i, t);
      AlignedStays(|p.modules[i]|, t.addr);
    } else if i < |p.modules| + |p.keys| {
      KeyCount(p.keys, i - |p.modules|, t);
    } else {
      SingleRoom(p, t, i - |p.modules| - |p.keys|);
    }
  }

  lemma SingleRoom(p: Parts, t: Platform, i: nat)
    requires Supported(t) && i < |SingleItems(p, t)|
    ensures var item := SingleItems(p, t)[i]; item.claimed == item.room && AlignUp(item.claimed, t.addr) == item.room
  {
    hide AlignUp;
    if p.memdisk.Some? {
      AlignedStays(|p.memdisk.value|, t.addr);
    }
    if p.config.Some? {
      AlignedStays(|p.config.value| + 1, t.addr);
    }
    if p.prefix.Some? {
      AlignedStays(|p.prefix.value| + 1, t.addr);
    }
  }

  // ----- the packed image -----

  predicate Packable(image: seq<byte>, kernelSize: nat, p: Parts, t: Platform) {
    && Supported(t) && AllFit(Items(p, t)) && Expressible(Items(p, t))
    && kernelSize + InfoSize(t) + Room(Items(p, t)) <= |image|
    && InfoSize(t) + Room(Items(p, t)) < Modulus(t.addr)
  }

  function AreaStart(kernelSize: nat, before: bool): nat { if before then 0 else kernelSize }

  /** The offset and the size in the info structure. */
  function InfoOffset(image: seq<byte>, start: nat, t: Platform): nat
    requires Supported(t) && start + InfoSize(t) <= |image|
  {
    Get(image[start + t.addr..start + 2 * t.addr], t)
  }

  function InfoTotal(image: seq<byte>, start: nat, t: Platform): nat
    requires Supported(t) && start + InfoSize(t) <= |image|
  {
    Get(image[start + 2 * t.addr..start + 3 * t.addr], t)
  }

  lemma InfoFields(total: nat, t: Platform)
    requires Supported(t) && total < Modulus(t.addr)
    ensures var s := Info(total, t);
            Get(s[..4], t) == MAGIC && Get(s[t.addr..2 * t.addr], t) == InfoSize(t) && Get(s[2 * t.addr..3 * t.addr], t) == total
  {
    hide Put, Get;
    FourBytes();
    EightBytes();
    GetPut(MAGIC, 4, t);
    GetPut(InfoSize(t), t.addr, t);
    GetPut(total, t.addr, t);
    var s := Info(total, t);
    if t.addr == 8 {
      assert s[..4] == Put(MAGIC, 4, t) && s[8..16] == Put(24, 8, t) && s[16..24] == Put(total, 8, t);
    } else {
      assert s[..4] == Put(MAGIC, 4, t) && s[4..8] == Put(12, 4, t) && s[8..12] == Put(total, 4, t);
    }
  }

  lemma EightBytes()
    ensures Modulus(8) >= 0x1_0000_0000
  {
    FourBytes();
    assert Modulus(6) == 256 * (256 * Modulus(4));
    assert Modulus(8) == 256 * (256 * Modulus(6));
  }

  /** The bytes of the kernel and of the info structure before the entries are written. */
  lemma FrontOfArea(image: seq<byte>, kernelSize: nat, total: nat, t: Platform, before: bool)
    requires Supported(t) && kernelSize + total <= |image| && InfoSize(t) <= total
    ensures var moved := if before then KernelMoved(image, kernelSize, total) else image;
            var start := AreaStart(kernelSize, before);
            var informed := Splice(moved, start, Info(total, t));
            && informed[start..start + InfoSize(t)] == Info(total, t)
            && (before ==> informed[total..total + kernelSize] == image[..kernelSize])
            && (!before ==> informed[..kernelSize] == image[..kernelSize])
  {
    hide Info, Splice, InfoSize;
    if before {
      SpliceReads(image, total, image[..kernelSize]);
      SpliceReads(KernelMoved(image, kernelSize, total), 0, Info(total, t));
      SpliceElse(KernelMoved(image, kernelSize, total), 0, Info(total, t), total, total + kernelSize);
    } else {
      SpliceReads(image, kernelSize, Info(total, t));
      SpliceElse(image, kernelSize, Info(total, t), 0, kernelSize);
      var informed := Splice(image, kernelSize, Info(total, t));
      assert informed[0..kernelSize] == informed[..kernelSize] && image[0..kernelSize] == image[..kernelSize];
    }
  }

  lemma SpliceReads(s: seq<byte>, pos: nat, f: seq<byte>)
    requires pos + |f| <= |s|
    ensures Splice(s, pos, f)[pos..pos + |f|] == f
  {
  }

  lemma SpliceElse(s: seq<byte>, pos: nat, f: seq<byte>, i: nat, j: nat)
    requires pos + |f| <= |s| && i <= j <= |s| && (j <= pos || pos + |f| <= i)
    ensures Splice(s, pos, f)[i..j] == s[i..j]
  {
  }

  /** The kernel is where it belongs, the info structure says where the area is, and every entry is
      intact at its place. */
  lemma AreaReadsBack(image: seq<byte>, kernelSize: nat, p: Parts, t: Platform, before: bool)
    requires Packable(image, kernelSize, p, t)
    ensures var items := Items(p, t);
            var total, start := InfoSize(t) + Room(items), AreaStart(kernelSize, before);
            var after := Packed(image, kernelSize, p, t, before);
            && after[if before then total else 0..(if before then total else 0) + kernelSize] == image[..kernelSize]
            && Get(after[start..start + 4], t) == MAGIC
            && InfoOffset(after, start, t) == InfoSize(t) && InfoTotal(after, start, t) == total
            && forall i :: 0 <= i < |items| ==> Holds(after, start + InfoSize(t) + Room(items[..i]), items[i], t)
  {
    hide Items, Info, Holds, Get, PlaceAll, Room, Splice, KernelMoved, AllFit, Expressible;
    var items := Items(p, t);
    var total, start := InfoSize(t) + Room(items), AreaStart(kernelSize, before);
    var moved := if before then KernelMoved(image, kernelSize, total) else image;
    var informed := Splice(moved, start, Info(total, t));
    var after := Packed(image, kernelSize, p, t, before);
    FrontOfArea(image, kernelSize, total, t, before);
    PlaceAllHolds(informed, start + InfoSize(t), items, t);
    InfoFields(total, t);
    InfoSurvives(informed, after, start, total, t);
    if before {
      SameBehind(informed, after, total, total, total + kernelSize);
    } else {
      SameInFront(informed, after, start + InfoSize(t), 0, kernelSize);
      assert informed[0..kernelSize] == informed[..kernelSize];
    }
  }

  lemma InfoSurvives(informed: seq<byte>, after: seq<byte>, start: nat, total: nat, t: Platform)
    requires Supported(t) && start + InfoSize(t) <= |informed| == |after|
    requires informed[start..start + InfoSize(t)] == Info(total, t)
    requires after[..start + InfoSize(t)] == informed[..start + InfoSize(t)]
    ensures var s := Info(total, t);
            && after[start..start + 4] == s[..4]
            && after[start + t.addr..start + 2 * t.addr] == s[t.addr..2 * t.addr]
            && after[start + 2 * t.addr..start + 3 * t.addr] == s[2 * t.addr..3 * t.addr]
  {
    hide Info;
    var n := InfoSize(t);
    SameInFront(informed, after, start + n, start, start + n);
    Within(after, start, n, 0, 4);
    Within(after, start, n, t.addr, 2 * t.addr);
    Within(after, start, n, 2 * t.addr, 3 * t.addr);
  }

  lemma Within(s: seq<byte>, start: nat, n: nat, i: nat, j: nat)
    requires start + n <= |s| && i <= j <= n
    ensures s[start..start + n][i..j] == s[start + i..start + j]
  {
    var a, b := s[start..start + n][i..j], s[start + i..start + j];
    assert forall k :: 0 <= k < j - i ==> a[k] == s[start..start + n][i + k] == s[start + i + k] == b[k];
  }

  lemma SameBehind(a: seq<byte>, b: seq<byte>, pos: nat, i: nat, j: nat)
    requires pos <= i <= j <= |a| == |b| && a[pos..] == b[pos..]
    ensures a[i..j] == b[i..j]
  {
    assert a[pos..][i - pos..j - pos] == a[i..j] && b[pos..][i - pos..j - pos] == b[i..j];
  }

  /** The loader, which rounds each size up, visits every entry in order and stops exactly at the end of
      the area, whatever the sizes of the keys. */
  lemma LoaderVisitsEveryEntry(image: seq<byte>, kernelSize: nat, p: Parts, t: Platform, before: bool)
    requires Packable(image, kernelSize, p, t)
    ensures var items := Items(p, t);
            var start, after := AreaStart(kernelSize, before), Packed(image, kernelSize, p, t, before);
            IsWalk(after, start, InfoOffset(after, start, t), InfoTotal(after, start, t), Positions(InfoSize(t), items),
                   InfoTotal(after, start, t), true, t)
  {
    hide Items, Info, Holds, Get, Packed, Room, AllFit, Expressible, Stride, IsWalk, AlignUp;
    var items := Items(p, t);
    var start, after := AreaStart(kernelSize, before), Packed(image, kernelSize, p, t, before);
    AreaReadsBack(image, kernelSize, p, t, before);
    forall k | 0 <= k < |items|
      ensures Stride(items[k].claimed + HEADER, true, t) == items[k].room + HEADER
    {
      ItemRooms(p, t, k);
      RoundedStride(items[k], t);
    }
    WalkFrom(after, start, InfoSize(t), items, 0, true, t);
    FromTheFirst(InfoSize(t), items);
  }

  lemma FromTheFirst(from: nat, items: seq<Item>)
    ensures Room(items[..0]) == 0 && Positions(from, items)[0..] == Positions(from, items)
  {
  }

  /** A walk by the sizes in the headers alone does the same if and only if every key's size is a
      multiple of the address size. */
  lemma RawWalkExactlyWhenKeysAligned(image: seq<byte>, kernelSize: nat, p: Parts, t: Platform, before: bool)
    requires Packable(image, kernelSize, p, t)
    ensures var items := Items(p, t);
            var start, after := AreaStart(kernelSize, before), Packed(image, kernelSize, p, t, before);
            (IsWalk(after, start, InfoOffset(after, start, t), InfoTotal(after, start, t), Positions(InfoSize(t), items),
                    InfoTotal(after, start, t), false, t)
             <==> forall k :: 0 <= k < |p.keys| ==> Multiple(|p.keys[k]|, t.addr))
  {
    hide Items, Info, Holds, Get, Packed, Room, AllFit, Expressible, Stride, IsWalk, AlignUp, Multiple, KeyItems, ModuleItems;
    var items := Items(p, t);
    var start, after := AreaStart(kernelSize, before), Packed(image, kernelSize, p, t, before);
    AreaReadsBack(image, kernelSize, p, t, before);
    FromTheFirst(InfoSize(t), items);
    if forall k :: 0 <= k < |p.keys| ==> Multiple(|p.keys[k]|, t.addr) {
      forall k | 0 <= k < |items|
        ensures Stride(items[k].claimed + HEADER, false, t) == items[k].room + HEADER
      {
        RawStride(p, t, k);
      }
      WalkFrom(after, start, InfoSize(t), items, 0, false, t);
    }
    if IsWalk(after, start, InfoSize(t), InfoSize(t) + Room(items), Positions(InfoSize(t), items), InfoSize(t) + Room(items), false, t) {
      forall k | 0 <= k < |p.keys|
        ensures Multiple(|p.keys[k]|, t.addr)
      {
        KeyAmongItems(p, t, k);
        StridesOf(after, start, InfoSize(t), items, 0, |p.modules| + k, false, t);
        KeyStride(p.keys[k], t);
      }
    }
  }

  lemma RawStride(p: Parts, t: Platform, k: nat)
    requires Supported(t) && k < |Items(p, t)| && forall j :: 0 <= j < |p.keys| ==> Multiple(|p.keys[j]|, t.addr)
    ensures var item := Items(p, t)[k]; Stride(item.claimed + HEADER, false, t) == item.room + HEADER
  {
    hide Items, AlignUp, Multiple;
    ItemRooms(p, t, k);
    var item := Items(p, t)[k];
    if item.claimed != item.room {
      AlignedStays(|p.keys[k - |p.modules|]|, t.addr);
    }
  }

  lemma KeyStride(data: seq<byte>, t: Platform)
    requires Supported(t)
    ensures var item := KeyItem(data, t);
            Stride(item.claimed + HEADER, false, t) == item.room + HEADER <==> Multiple(|data|, t.addr)
  {
    hide AlignUp, Multiple;
    AlignedStays(|data|, t.addr);
  }

  lemma KeyAmongItems(p: Parts, t: Platform, k: nat)
    requires Supported(t) && k < |p.keys|
    ensures |p.modules| + k < |Items(p, t)| && Items(p, t)[|p.modules| + k] == KeyItem(p.keys[k], t)
  {
    hide AlignUp, ModuleItems, KeyItems, SingleItems, KeyItem;
    ModuleCount(p.modules, |p.modules|, t);
    KeyCount(p.keys, |p.keys|, t);
    KeyCount(p.keys, k, t);
  }

  // ----- the area in memory -----

  /** In memory an area starts here: its info structure is in order, every entry can be read, and the loader's
      walk visits every header and stops at the stored size. */
  ghost predicate ModulesVisible(mem: seq<byte>, start: nat, p: Parts, t: Platform) {
    && Supported(t) && start + InfoSize(t) <= |mem|
    && Get(mem[start..start + 4], t) == MAGIC
    && InfoOffset(mem, start, t) == InfoSize(t) && InfoTotal(mem, start, t) == InfoSize(t) + Room(Items(p, t))
    && (forall i :: 0 <= i < |Items(p, t)| ==> Holds(mem, start + InfoSize(t) + Room(Items(p, t)[..i]), Items(p, t)[i], t))
    && IsWalk(mem, start, InfoOffset(mem, start, t), InfoTotal(mem, start, t), Positions(InfoSize(t), Items(p, t)),
              InfoTotal(mem, start, t), true, t)
  }

  /** Equal stretches of bytes, further up or down. */
  lemma SameShifted(a: seq<byte>, b: seq<byte>, from: nat, d: nat, i: nat, j: nat)
    requires from <= i <= j <= |a| && d + |a| <= |b| && b[d + from..d + |a|] == a[from..]
    ensures b[d + i..d + j] == a[i..j]
  {
    forall k | i <= k < j
      ensures b[d + k] == a[k]
    {
      assert b[d + from..d + |a|][k - from] == a[from..][k - from];
    }
  }

  lemma HoldsShifted(a: seq<byte>, b: seq<byte>, from: nat, d: nat, pos: nat, item: Item, t: Platform)
    requires Holds(a, pos, item, t) && from <= pos && d + |a| <= |b| && b[d + from..d + |a|] == a[from..]
    ensures Holds(b, d + pos, item, t)
  {
    hide Get;
    SameShifted(a, b, from, d, pos, pos + 4);
    SameShifted(a, b, from, d, pos + 4, pos + 8);
    SameShifted(a, b, from, d, pos + HEADER, pos + HEADER + |item.payload|);
  }

  lemma InfoShifted(a: seq<byte>, b: seq<byte>, start: nat, d: nat, t: Platform)
    requires Supported(t) && start + InfoSize(t) <= |a| && d + |a| <= |b| && b[d + start..d + |a|] == a[start..]
    ensures b[d + start..d + start + 4] == a[start..start + 4]
    ensures InfoOffset(b, d + start, t) == InfoOffset(a, start, t) && InfoTotal(b, d + start, t) == InfoTotal(a, start, t)
  {
    hide Get;
    SameShifted(a, b, start, d, start, start + 4);
    SameShifted(a, b, start, d, start + t.addr, start + 2 * t.addr);
    SameShifted(a, b, start, d, start + 2 * t.addr, start + 3 * t.addr);
  }

  /** Wherever the area behind the kernel ends up in memory, its modules are visible there. */
  lemma AreaIsVisible(image: seq<byte>, kernelSize: nat, p: Parts, t: Platform, mem: seq<byte>, d: nat)
    requires Packable(image, kernelSize, p, t) && d + |image| <= |mem|
    requires mem[d + kernelSize..d + |image|] == Packed(image, kernelSize, p, t, false)[kernelSize..]
    ensures ModulesVisible(mem, d + kernelSize, p, t)
  {
    hide Items, Info, Holds, Get, Packed, Room, AllFit, Expressible, Stride, IsWalk, AlignUp, InfoOffset, InfoTotal, Positions;
    var items, start := Items(p, t), d + kernelSize;
    var after := Packed(image, kernelSize, p, t, false);
    AreaReadsBack(image, kernelSize, p, t, false);
    InfoShifted(after, mem, kernelSize, d, t);
    forall k | 0 <= k < |items|
      ensures Holds(mem, start + InfoSize(t) + Room(items[..k]), items[k], t)
      ensures Stride(items[k].claimed + HEADER, true, t) == items[k].room + HEADER
    {
      HoldsShifted(after, mem, kernelSize, d, kernelSize + InfoSize(t) + Room(items[..k]), items[k], t);
      ItemRooms(p, t, k);
      RoundedStride(items[k], t);
    }
    WalkFrom(mem, start, InfoSize(t), items, 0, true, t);
    FromTheFirst(InfoSize(t), items);
  }
}
