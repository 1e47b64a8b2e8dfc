/** The module area of an image: a size computed first, then headers and payloads written one after the
    other, and the two ways of walking them again. */
module ModulePack {
  import opened Words
  import opened Outcomes
  import opened ElfLayout

  const ELF := 0
  const MEMDISK := 1
  const CONFIG := 2
  const PREFIX := 3
  const PUBKEY := 4
  const HEADER := 8
  const MAGIC := 0x676d696d

  /** The target's address size and byte order. */
  datatype Platform = Platform(addr: nat, big: bool)

  predicate Supported(t: Platform) { t.addr == 4 || t.addr == 8 }

  function Put(v: int, w: nat, t: Platform): (s: seq<byte>)
    ensures |s| == w
  {
    if t.big then ToBE(v, w) else ToLE(v, w)
  }

  function Get(s: seq<byte>, t: Platform): nat { if t.big then FromBE(s) else FromLE(s) }

  lemma GetPut(v: nat, w: nat, t: Platform)
    requires v < Modulus(w)
    ensures Get(Put(v, w, t), t) == v
  {
    hide *;
    LERoundTrip(v, w);
    BERoundTrip(v, w);
    ModUnique(v, Modulus(w), 0, v);
    ByOrder(v, w, t);
  }

  lemma ByOrder(v: nat, w: nat, t: Platform)
    ensures Get(Put(v, w, t), t) == if t.big then FromBE(ToBE(v, w)) else FromLE(ToLE(v, w))
  {
  }

  /** What goes into the area. A prefix is text without a zero byte. */
  datatype Parts = Parts(modules: seq<seq<byte>>, keys: seq<seq<byte>>, memdisk: Option<seq<byte>>,
                         config: Option<seq<byte>>, prefix: Option<seq<byte>>)

  /** One entry: its type, the bytes written after its header, the room set aside for them, and the size
      that its header claims for them. */
  datatype Item = Item(kind: nat, payload: seq<byte>, room: nat, claimed: nat)

  function ModuleItem(data: seq<byte>, t: Platform): Item
    requires Supported(t)
  {
    var room := AlignUp(|data|, t.addr);
    Item(ELF, data + Zeros(room - |data|), room, room)
  }

  /** A key's header claims the unpadded size. */
  function KeyItem(data: seq<byte>, t: Platform): Item
    requires Supported(t)
  {
    Item(PUBKEY, data, AlignUp(|data|, t.addr), |data|)
  }

  function MemdiskItem(data: seq<byte>): Item { Item(MEMDISK, data, AlignUp(|data|, 512), AlignUp(|data|, 512)) }

  function ConfigItem(data: seq<byte>, t: Platform): Item
    requires Supported(t)
  {
    var room := AlignUp(|data| + 1, t.addr);
    Item(CONFIG, data + [0], room, room)
  }

  function PrefixItem(data: seq<byte>, t: Platform): Item
    requires Supported(t)
  {
    var room := AlignUp(|data| + 1, t.addr);
    Item(PREFIX, data + Zeros(room - |data|), room, room)
  }

  function ModuleItems(modules: seq<seq<byte>>, t: Platform): seq<Item>
    requires Supported(t)
  {
    if |modules| == 0 then [] else ModuleItems(modules[..|modules| - 1], t) + [ModuleItem(modules[|modules| - 1], t)]
  }

  function KeyItems(keys: seq<seq<byte>>, t: Platform): seq<Item>
    requires Supported(t)
  {
    if |keys| == 0 then [] else KeyItems(keys[..|keys| - 1], t) + [KeyItem(keys[|keys| - 1], t)]
  }

  /** The entries that there may be one of. */
  function SingleItems(p: Parts, t: Platform): seq<Item>
    requires Supported(t)
  {
    (if p.memdisk.Some? then [MemdiskItem(p.memdisk.value)] else [])
    + (if p.config.Some? then [ConfigItem(p.config.value, t)] else [])
    + (if p.prefix.Some? then [PrefixItem(p.prefix.value, t)] else [])
  }

  /** The entries in the order in which they are written. */
  function Items(p: Parts, t: Platform): seq<Item>
    requires Supported(t)
  {
    ModuleItems(p.modules, t) + KeyItems(p.keys, t) + SingleItems(p, t)
  }

  /** The bytes that entries take, headers included. */
  function Room(items: seq<Item>): nat {
    if |items| == 0 then 0 else Room(items[..|items| - 1]) + HEADER + items[|items| - 1].room
  }

  function InfoSize(t: Platform): nat { if t.addr == 8 then 24 else 12 }

  lemma {:induction false} RoomAdds(a: seq<Item>, b: seq<Item>)
    ensures Room(a + b) == Room(a) + Room(b)
    decreases |b|
  {
    if |b| == 0 {
      assert a + b == a;
    } else {
      assert (a + b)[..|a + b| - 1] == a + b[..|b| - 1];
      RoomAdds(a, b[..|b| - 1]);
    }
  }

  lemma RoomOfSingles(p: Parts, t: Platform)
    requires Supported(t)
    ensures Room(SingleItems(p, t)) == (if p.memdisk.Some? then HEADER + AlignUp(|p.memdisk.value|, 512) else 0)
              + (if p.config.Some? then HEADER + AlignUp(|p.config.value| + 1, t.addr) else 0)
              + (if p.prefix.Some? then HEADER + AlignUp(|p.prefix.value| + 1, t.addr) else 0)
  {
    hide AlignUp;
    var m := if p.memdisk.Some? then [MemdiskItem(p.memdisk.value)] else [];
    var c := if p.config.Some? then [ConfigItem(p.config.value, t)] else [];
    var x := if p.prefix.Some? then [PrefixItem(p.prefix.value, t)] else [];
    RoomAdds(m, c);
    RoomAdds(m + c, x);
  }

  lemma RoomOfParts(p: Parts, t: Platform)
    requires Supported(t)
    ensures Room(Items(p, t)) == Room(ModuleItems(p.modules, t)) + Room(KeyItems(p.keys, t)) + Room(SingleItems(p, t))
  {
    hide ModuleItems, KeyItems, SingleItems, Room;
    RoomAdds(ModuleItems(p.modules, t), KeyItems(p.keys, t));
    RoomAdds(ModuleItems(p.modules, t) + KeyItems(p.keys, t), SingleItems(p, t));
  }

  /** The sizing pass, which goes through the parts in another order than the writing pass. */
  method TotalModuleSize(p: Parts, t: Platform) returns (total: nat)
    requires Supported(t)
    ensures total == InfoSize(t) + Room(Items(p, t))
  {
    hide AlignUp, Items, Room, ModuleItems, KeyItems, SingleItems;
    RoomOfSingles(p, t);
    total := if t.addr == 8 then 24 else 12;
    NoRoom(p, t);
    for i := 0 to |p.keys|
      invariant total == InfoSize(t) + Room(KeyItems(p.keys[..i], t))
    {
      KeyRoom(p.keys, i, t);
      total := total + AlignUp(|p.keys[i]|, t.addr) + HEADER;
    }
    if p.memdisk.Some? {
      total := total + AlignUp(|p.memdisk.value|, 512) + HEADER;
    }
    if p.config.Some? {
      total := total + AlignUp(|p.config.value| + 1, t.addr) + HEADER;
    }
    if p.prefix.Some? {
      total := total + AlignUp(|p.prefix.value| + 1, t.addr) + HEADER;
    }
    ghost var others := total;
    for i := 0 to |p.modules|
      invariant total == others + Room(ModuleItems(p.modules[..i], t))
    {
      ModuleRoom(p.modules, i, t);
      total := total + AlignUp(|p.modules[i]|, t.addr) + HEADER;
    }
    RoomOfParts(p, t);
  }

  lemma NoRoom(p: Parts, t: Platform)
    requires Supported(t)
    ensures Room(KeyItems(p.keys[..0], t)) == 0 && Room(ModuleItems(p.modules[..0], t)) == 0
    ensures p.keys[..|p.keys|] == p.keys && p.modules[..|p.modules|] == p.modules
  {
  }

  lemma KeyRoom(keys: seq<seq<byte>>, i: nat, t: Platform)
    requires Supported(t) && i < |keys|
    ensures KeyItems(keys[..i + 1], t) == KeyItems(keys[..i], t) + [KeyItem(keys[i], t)]
    ensures Room(KeyItems(keys[..i + 1], t)) == Room(KeyItems(keys[..i], t)) + HEADER + AlignUp(|keys[i]|, t.addr)
  {
    hide AlignUp;
    assert keys[..i + 1][..i] == keys[..i];
    RoomAdds(KeyItems(keys[..i], t), [KeyItem(keys[i], t)]);
  }

  lemma ModuleRoom(modules: seq<seq<byte>>, i: nat, t: Platform)
    requires Supported(t) && i < |modules|
    ensures ModuleItems(modules[..i + 1], t) == ModuleItems(modules[..i], t) + [ModuleItem(modules[i], t)]
    ensures Room(ModuleItems(modules[..i + 1], t)) == Room(ModuleItems(modules[..i], t)) + HEADER + AlignUp(|modules[i]|, t.addr)
  {
    hide AlignUp;
    assert modules[..i + 1][..i] == modules[..i];
    RoomAdds(ModuleItems(modules[..i], t), [ModuleItem(modules[i], t)]);
  }

  // ----- writing -----

  function Header(kind: nat, claimed: nat, t: Platform): (s: seq<byte>)
    ensures |s| == HEADER
  {
    Put(kind, 4, t) + Put(claimed + HEADER, 4, t)
  }

  predicate InRoom(item: Item) { |item.payload| <= item.room }

  /** One entry at pos; the rest of its room is left as it is. */
  function Place(image: seq<byte>, pos: nat, item: Item, t: Platform): (r: seq<byte>)
    requires InRoom(item) && pos + HEADER + item.room <= |image|
    ensures |r| == |image|
  {
    Splice(Splice(image, pos, Header(item.kind, item.claimed, t)), pos + HEADER, item.payload)
  }

  predicate AllFit(items: seq<Item>) { forall i :: 0 <= i < |items| ==> InRoom(items[i]) }

  function PlaceAll(image: seq<byte>, pos: nat, items: seq<Item>, t: Platform): (r: seq<byte>)
    requires AllFit(items) && pos + Room(items) <= |image|
    ensures |r| == |image|
  {
    if |items| == 0 then image
    else
      var front := items[..|items| - 1];
      Place(PlaceAll(image, pos, front, t), pos + Room(front), items[|items| - 1], t)
  }

  lemma {:induction false} PlaceAllTwice(image: seq<byte>, pos: nat, a: seq<Item>, b: seq<Item>, t: Platform)
    requires AllFit(a) && AllFit(b) && pos + Room(a) + Room(b) <= |image|
    ensures AllFit(a + b) && Room(a + b) == Room(a) + Room(b)
    ensures PlaceAll(image, pos, a + b, t) == PlaceAll(PlaceAll(image, pos, a, t), pos + Room(a), b, t)
    decreases |b|
  {
    hide Place, InRoom;
    RoomAdds(a, b);
    if |b| == 0 {
      assert a + b == a;
    } else {
      var front := b[..|b| - 1];
      assert (a + b)[..|a + b| - 1] == a + front;
      RoomAdds(a, front);
      PlaceAllTwice(image, pos, a, front, t);
    }
  }

  method Clear(image: array<byte>, pos: nat, n: nat)
    requires pos + n <= image.Length
    modifies image
    ensures image[..] == Splice(old(image[..]), pos, Zeros(n))
  {
    for i := 0 to n
      invariant forall k :: 0 <= k < image.Length ==> image[k] == if pos <= k < pos + i then 0 else old(image[k])
    {
      image[pos + i] := 0;
    }
  }

  lemma SpliceOver(s: seq<byte>, pos: nat, a: seq<byte>, b: seq<byte>)
    requires |a| <= |b| && pos + |b| <= |s|
    ensures Splice(Splice(s, pos, a), pos, b) == Splice(s, pos, b)
  {
  }

  lemma SpliceJoin(s: seq<byte>, pos: nat, a: seq<byte>, b: seq<byte>)
    requires pos + |a| + |b| <= |s|
    ensures Splice(Splice(s, pos, a), pos + |a|, b) == Splice(s, pos, a + b)
    ensures Splice(Splice(s, pos + |a|, b), pos, a) == Splice(s, pos, a + b)
  {
  }

  /** A header, cleared and then filled field by field. */
  method PutHeader(image: array<byte>, pos: nat, kind: nat, claimed: nat, t: Platform)
    requires pos + HEADER <= image.Length
    modifies image
    ensures image[..] == Splice(old(image[..]), pos, Header(kind, claimed, t))
  {
    hide Put;
    Clear(image, pos, HEADER);
    Store(image, pos, Put(kind, 4, t));
    Store(image, pos + 4, Put(claimed + HEADER, 4, t));
    ghost var cleared := Splice(old(image[..]), pos, Zeros(HEADER));
    SpliceJoin(cleared, pos, Put(kind, 4, t), Put(claimed + HEADER, 4, t));
    SpliceOver(old(image[..]), pos, Zeros(HEADER), Header(kind, claimed, t));
  }

  method PutModule(image: array<byte>, pos: nat, data: seq<byte>, t: Platform) returns (next: nat)
    requires Supported(t) && pos + HEADER + AlignUp(|data|, t.addr) <= image.Length
    modifies image
    ensures var item := ModuleItem(data, t);
            InRoom(item) && image[..] == Place(old(image[..]), pos, item, t) && next == pos + HEADER + item.room
  {
    hide AlignUp, Header, Splice;
    var room := AlignUp(|data|, t.addr);
    PutHeader(image, pos, ELF, room, t);
    LoadPadded(image, pos + HEADER, data, room);
    next := pos + HEADER + room;
  }

  /** The padding cleared, then the file loaded in front of it. */
  method LoadPadded(image: array<byte>, pos: nat, data: seq<byte>, room: nat)
    requires |data| <= room && pos + room <= image.Length
    modifies image
    ensures image[..] == Splice(old(image[..]), pos, data + Zeros(room - |data|))
  {
    Clear(image, pos + |data|, room - |data|);
    Store(image, pos, data);
    SpliceJoin(old(image[..]), pos, data, Zeros(room - |data|));
  }

  method PutKey(image: array<byte>, pos: nat, data: seq<byte>, t: Platform) returns (next: nat)
    requires Supported(t) && pos + HEADER + AlignUp(|data|, t.addr) <= image.Length
    modifies image
    ensures var item := KeyItem(data, t);
            InRoom(item) && image[..] == Place(old(image[..]), pos, item, t) && next == pos + HEADER + item.room
  {
    hide AlignUp, Header;
    PutHeader(image, pos, PUBKEY, |data|, t);
    Store(image, pos + HEADER, data);
    next := pos + HEADER + AlignUp(|data|, t.addr);
  }

  method PutMemdisk(image: array<byte>, pos: nat, data: seq<byte>, t: Platform) returns (next: nat)
    requires pos + HEADER + AlignUp(|data|, 512) <= image.Length
    modifies image
    ensures var item := MemdiskItem(data);
            InRoom(item) && image[..] == Place(old(image[..]), pos, item, t) && next == pos + HEADER + item.room
  {
    hide AlignUp, Header;
    PutHeader(image, pos, MEMDISK, AlignUp(|data|, 512), t);
    Store(image, pos + HEADER, data);
    next := pos + HEADER + AlignUp(|data|, 512);
  }

  method PutConfig(image: array<byte>, pos: nat, data: seq<byte>, t: Platform) returns (next: nat)
    requires Supported(t) && pos + HEADER + AlignUp(|data| + 1, t.addr) <= image.Length
    modifies image
    ensures var item := ConfigItem(data, t);
            InRoom(item) && image[..] == Place(old(image[..]), pos, item, t) && next == pos + HEADER + item.room
  {
    hide AlignUp, Header;
    var room := AlignUp(|data| + 1, t.addr);
    PutHeader(image, pos, CONFIG, room, t);
    ghost var headed := image[..];
    Store(image, pos + HEADER, data);
    Store(image, pos + HEADER + |data|, [0]);
    SpliceJoin(headed, pos + HEADER, data, [0]);
    next := pos + HEADER + room;
  }

  method PutPrefix(image: array<byte>, pos: nat, data: seq<byte>, t: Platform) returns (next: nat)
    requires Supported(t) && pos + HEADER + AlignUp(|data| + 1, t.addr) <= image.Length
    modifies image
    ensures var item := PrefixItem(data, t);
            InRoom(item) && image[..] == Place(old(image[..]), pos, item, t) && next == pos + HEADER + item.room
  {
    hide AlignUp, Header;
    var room := AlignUp(|data| + 1, t.addr);
    PutHeader(image, pos, PREFIX, room, t);
    ghost var headed := image[..];
    Clear(image, pos + HEADER, room);
    Store(image, pos + HEADER, data + [0]);
    PrefixBytes(headed, pos + HEADER, data, room);
    next := pos + HEADER + room;
  }

  lemma PrefixBytes(s: seq<byte>, pos: nat, data: seq<byte>, room: nat)
    requires |data| + 1 <= room && pos + room <= |s|
    ensures Splice(Splice(s, pos, Zeros(room)), pos, data + [0]) == Splice(s, pos, data + Zeros(room - |data|))
  {
  }

  lemma {:induction false} ModulesFit(modules: seq<seq<byte>>, t: Platform)
    requires Supported(t)
    ensures AllFit(ModuleItems(modules, t))
  {
    hide AlignUp;
    if |modules| > 0 {
      ModulesFit(modules[..|modules| - 1], t);
    }
  }

  lemma {:induction false} KeysFit(keys: seq<seq<byte>>, t: Platform)
    requires Supported(t)
    ensures AllFit(KeyItems(keys, t))
  {
    hide AlignUp;
    if |keys| > 0 {
      KeysFit(keys[..|keys| - 1], t);
    }
  }

  lemma {:induction false} RoomOfPrefix(items: seq<Item>, i: nat)
    requires i <= |items|
    ensures Room(items[..i]) <= Room(items)
    ensures i < |items| ==> Room(items[..i]) + HEADER + items[i].room == Room(items[..i + 1]) <= Room(items)
    decreases |items| - i
  {
    if i < |items| {
      assert items[..i + 1][..i] == items[..i];
      RoomOfPrefix(items, i + 1);
    } else {
      assert items[..i] == items;
    }
  }

  lemma PlaceNext(image: seq<byte>, pos: nat, items: seq<Item>, item: Item, t: Platform)
    requires AllFit(items) && InRoom(item) && pos + Room(items) + HEADER + item.room <= |image|
    ensures AllFit(items + [item]) && Room(items + [item]) == Room(items) + HEADER + item.room
    ensures PlaceAll(image, pos, items + [item], t) == Place(PlaceAll(image, pos, items, t), pos + Room(items), item, t)
  {
    hide Place;
    assert (items + [item])[..|items|] == items;
  }

  lemma PlaceNone(image: seq<byte>, pos: nat, t: Platform)
    ensures Room([]) == 0 && (pos <= |image| ==> PlaceAll(image, pos, [], t) == image)
  {
  }

  lemma {:induction false} ModuleCount(modules: seq<seq<byte>>, i: nat, t: Platform)
    requires Supported(t) && i <= |modules|
    ensures |ModuleItems(modules, t)| == |modules| && ModuleItems(modules, t)[..i] == ModuleItems(modules[..i], t)
    ensures i < |modules| ==> ModuleItems(modules, t)[i] == ModuleItem(modules[i], t)
    decreases |modules|
  {
    hide ModuleItem;
    if |modules| == 0 {
    } else if i == |modules| {
      ModuleCount(modules[..|modules| - 1], |modules| - 1, t);
      assert modules[..i] == modules;
    } else {
      ModuleCount(modules[..|modules| - 1], i, t);
      assert modules[..|modules| - 1][..i] == modules[..i];
    }
  }

  lemma {:induction false} KeyCount(keys: seq<seq<byte>>, i: nat, t: Platform)
    requires Supported(t) && i <= |keys|
    ensures |KeyItems(keys, t)| == |keys| && KeyItems(keys, t)[..i] == KeyItems(keys[..i], t)
    ensures i < |keys| ==> KeyItems(keys, t)[i] == KeyItem(keys[i], t)
    decreases |keys|
  {
    hide KeyItem;
    if |keys| == 0 {
    } else if i == |keys| {
      KeyCount(keys[..|keys| - 1], |keys| - 1, t);
      assert keys[..i] == keys;
    } else {
      KeyCount(keys[..|keys| - 1], i, t);
      assert keys[..|keys| - 1][..i] == keys[..i];
    }
  }

  method PutModules(image: array<byte>, pos: nat, modules: seq<seq<byte>>, t: Platform) returns (next: nat)
    requires Supported(t) && pos + Room(ModuleItems(modules, t)) <= image.Length
    modifies image
    ensures AllFit(ModuleItems(modules, t)) && next == pos + Room(ModuleItems(modules, t))
    ensures image[..] == PlaceAll(old(image[..]), pos, ModuleItems(modules, t), t)
  {
    hide ModuleItem, AlignUp, Place, PlaceAll, Room, ModuleItems, InRoom;
    ghost var items := ModuleItems(modules, t);
    ModulesFit(modules, t);
    next := pos;
    ModuleCount(modules, 0, t);
    PlaceNone(image[..], pos, t);
    for i := 0 to |modules|
      invariant |items| == |modules| && next == pos + Room(items[..i]) && pos + Room(items[..i]) <= image.Length
      invariant image[..] == PlaceAll(old(image[..]), pos, items[..i], t)
    {
      ModuleCount(modules, i, t);
      RoomOfPrefix(items, i);
      ModuleItemRoom(modules[i], t);
      assert items[..i + 1] == items[..i] + [items[i]];
      PlaceNext(old(image[..]), pos, items[..i], items[i], t);
      next := PutModule(image, next, modules[i], t);
    }
    assert items[..|modules|] == items;
  }

  lemma ModuleItemRoom(data: seq<byte>, t: Platform)
    requires Supported(t)
    ensures ModuleItem(data, t).room == AlignUp(|data|, t.addr)
  {
  }

  method PutKeys(image: array<byte>, pos: nat, keys: seq<seq<byte>>, t: Platform) returns (next: nat)
    requires Supported(t) && pos + Room(KeyItems(keys, t)) <= image.Length
    modifies image
    ensures AllFit(KeyItems(keys, t)) && next == pos + Room(KeyItems(keys, t))
    ensures image[..] == PlaceAll(old(image[..]), pos, KeyItems(keys, t), t)
  {
    hide KeyItem, AlignUp, Place, PlaceAll, Room, KeyItems, InRoom;
    ghost var items := KeyItems(keys, t);
    KeysFit(keys, t);
    next := pos;
    KeyCount(keys, 0, t);
    PlaceNone(image[..], pos, t);
    for i := 0 to |keys|
      invariant |items| == |keys| && next == pos + Room(items[..i]) && pos + Room(items[..i]) <= image.Length
      invariant image[..] == PlaceAll(old(image[..]), pos, items[..i], t)
    {
      KeyCount(keys, i, t);
      RoomOfPrefix(items, i);
      KeyItemRoom(keys[i], t);
      assert items[..i + 1] == items[..i] + [items[i]];
      PlaceNext(old(image[..]), pos, items[..i], items[i], t);
      next := PutKey(image, next, keys[i], t);
    }
    assert items[..|keys|] == items;
  }

  lemma KeyItemRoom(data: seq<byte>, t: Platform)
    requires Supported(t)
    ensures KeyItem(data, t).room == AlignUp(|data|, t.addr)
  {
  }

  method PutSingles(image: array<byte>, pos: nat, p: Parts, t: Platform) returns (next: nat)
    requires Supported(t) && pos + Room(SingleItems(p, t)) <= image.Length
    modifies image
    ensures AllFit(SingleItems(p, t)) && next == pos + Room(SingleItems(p, t))
    ensures image[..] == PlaceAll(old(image[..]), pos, SingleItems(p, t), t)
  {
    hide AlignUp, Place, PlaceAll, Room, InRoom, MemdiskItem, ConfigItem, PrefixItem;
    ghost var done: seq<Item> := [];
    next := pos;
    RoomOfSingles(p, t);
    SingleRooms(p, t);
    PlaceNone(image[..], pos, t);
    if p.memdisk.Some? {
      PlaceNext(old(image[..]), pos, done, MemdiskItem(p.memdisk.value), t);
      next := PutMemdisk(image, next, p.memdisk.value, t);
      done := done + [MemdiskItem(p.memdisk.value)];
    }
    if p.config.Some? {
      PlaceNext(old(image[..]), pos, done, ConfigItem(p.config.value, t), t);
      next := PutConfig(image, next, p.config.value, t);
      done := done + [ConfigItem(p.config.value, t)];
    }
    if p.prefix.Some? {
      PlaceNext(old(image[..]), pos, done, PrefixItem(p.prefix.value, t), t);
      next := PutPrefix(image, next, p.prefix.value, t);
      done := done + [PrefixItem(p.prefix.value, t)];
    }
    assert done == SingleItems(p, t);
  }

  lemma SingleRooms(p: Parts, t: Platform)
    requires Supported(t)
    ensures p.memdisk.Some? ==> var i := MemdiskItem(p.memdisk.value); InRoom(i) && i.room == AlignUp(|p.memdisk.value|, 512)
    ensures p.config.Some? ==> var i := ConfigItem(p.config.value, t); InRoom(i) && i.room == AlignUp(|p.config.value| + 1, t.addr)
    ensures p.prefix.Some? ==> var i := PrefixItem(p.prefix.value, t); InRoom(i) && i.room == AlignUp(|p.prefix.value| + 1, t.addr)
  {
    hide AlignUp;
  }

  /** The writing pass ends where the sizing pass said it would. */
  method PutParts(image: array<byte>, pos: nat, p: Parts, t: Platform) returns (next: nat)
    requires Supported(t) && pos + Room(Items(p, t)) <= image.Length
    modifies image
    ensures AllFit(Items(p, t)) && next == pos + Room(Items(p, t))
    ensures image[..] == PlaceAll(old(image[..]), pos, Items(p, t), t)
  {
    hide AlignUp, Place, PlaceAll, Room, ModuleItems, KeyItems, SingleItems, InRoom;
    RoomOfParts(p, t);
    next := PutModules(image, pos, p.modules, t);
    next := PutKeys(image, next, p.keys, t);
    next := PutSingles(image, next, p, t);
    ModulesFit(p.modules, t);
    KeysFit(p.keys, t);
    PlaceAllTwice(old(image[..]), pos, ModuleItems(p.modules, t), KeyItems(p.keys, t), t);
    PlaceAllTwice(old(image[..]), pos, ModuleItems(p.modules, t) + KeyItems(p.keys, t), SingleItems(p, t), t);
  }

  // ----- the whole area -----

  /** The structure at the front of the area: magic, offset of the first header, size of everything. */
  function Info(total: nat, t: Platform): (s: seq<byte>)
    requires Supported(t)
    ensures |s| == InfoSize(t)
  {
    if t.addr == 8 then Put(MAGIC, 4, t) + Zeros(4) + Put(24, 8, t) + Put(total, 8, t)
    else Put(MAGIC, 4, t) + Put(12, 4, t) + Put(total, 4, t)
  }

  /** A field written over cleared bytes. */
  lemma OverZeros(s: seq<byte>, pos: nat, front: seq<byte>, n: nat, field: seq<byte>)
    requires |field| <= n && pos + |front| + n <= |s|
    ensures Splice(Splice(s, pos, front + Zeros(n)), pos + |front|, field) == Splice(s, pos, front + field + Zeros(n - |field|))
  {
  }

  lemma ZerosSplit(front: seq<byte>, n: nat, k: nat)
    requires k <= n
    ensures front + Zeros(n) == front + Zeros(k) + Zeros(n - k)
    ensures [] + Zeros(n) == Zeros(n) && front + Zeros(0) == front
  {
  }

  /** Fill in the info structure: clear it, then write its fields. */
  method PutInfo(image: array<byte>, pos: nat, total: nat, t: Platform)
    requires Supported(t) && pos + InfoSize(t) <= image.Length
    modifies image
    ensures image[..] == Splice(old(image[..]), pos, Info(total, t))
  {
    hide Put, Splice, Zeros;
    ghost var was := old(image[..]);
    var magic := Put(MAGIC, 4, t);
    Clear(image, pos, InfoSize(t));
    Store(image, pos, magic);
    if t.addr == 8 {
      Store(image, pos + 8, Put(24, 8, t));
      Store(image, pos + 16, Put(total, 8, t));
      ZerosSplit([], 24, 24);
      OverZeros(was, pos, [], 24, magic);
      ZerosSplit([] + magic, 20, 4);
      OverZeros(was, pos, [] + magic + Zeros(4), 16, Put(24, 8, t));
      OverZeros(was, pos, [] + magic + Zeros(4) + Put(24, 8, t), 8, Put(total, 8, t));
      ZerosSplit([] + magic + Zeros(4) + Put(24, 8, t) + Put(total, 8, t), 0, 0);
    } else {
      Store(image, pos + 4, Put(12, 4, t));
      Store(image, pos + 8, Put(total, 4, t));
      ZerosSplit([], 12, 12);
      OverZeros(was, pos, [], 12, magic);
      OverZeros(was, pos, [] + magic, 8, Put(12, 4, t));
      OverZeros(was, pos, [] + magic + Put(12, 4, t), 4, Put(total, 4, t));
      ZerosSplit([] + magic + Put(12, 4, t) + Put(total, 4, t), 0, 0);
    }
    assert [] + magic == magic;
  }

  /** The area starts behind the kernel, or in front of it with the kernel moved up. */
  function KernelMoved(image: seq<byte>, kernelSize: nat, total: nat): (r: seq<byte>)
    requires kernelSize + total <= |image|
    ensures |r| == |image|
  {
    Splice(image, total, image[..kernelSize])
  }

  function Packed(image: seq<byte>, kernelSize: nat, p: Parts, t: Platform, before: bool): (r: seq<byte>)
    requires Supported(t) && AllFit(Items(p, t)) && kernelSize + InfoSize(t) + Room(Items(p, t)) <= |image|
    ensures |r| == |image|
  {
    var total := InfoSize(t) + Room(Items(p, t));
    var start := if before then 0 else kernelSize;
    var moved := if before then KernelMoved(image, kernelSize, total) else image;
    PlaceAll(Splice(moved, start, Info(total, t)), start + InfoSize(t), Items(p, t), t)
  }

  method PackModules(image: array<byte>, kernelSize: nat, p: Parts, t: Platform, before: bool) returns (end: nat, total: nat)
    requires Supported(t) && kernelSize + InfoSize(t) + Room(Items(p, t)) <= image.Length
    modifies image
    ensures total == InfoSize(t) + Room(Items(p, t))
    ensures end == (if before then 0 else kernelSize) + total
    ensures AllFit(Items(p, t)) && image[..] == Packed(old(image[..]), kernelSize, p, t, before)
  {
    hide Items, PlaceAll, Room, Info, AllFit;
    total := TotalModuleSize(p, t);
    if before {
      MoveKernel(image, kernelSize, total);
    }
    end := if before then 0 else kernelSize;
    PutInfo(image, end, total, t);
    end := PutParts(image, end + InfoSize(t), p, t);
  }

  /** memmove of the kernel; the two places may overlap. */
  method MoveKernel(image: array<byte>, kernelSize: nat, total: nat)
    requires kernelSize + total <= image.Length
    modifies image
    ensures image[..] == KernelMoved(old(image[..]), kernelSize, total)
  {
    forall i | 0 <= i < kernelSize {
      image[total + i] := image[i];
    }
  }
}
