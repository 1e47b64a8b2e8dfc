/** The module area as the kernel finds it, in numbers: the info structure, and one entry behind the other with
    its type, its size, its bytes and its padding. */
module AreaMeaning {
  import opened Words
  import opened Outcomes
  import opened ElfLayout
  import opened ModulePack
  import opened ModuleWalk

  function Number(s: seq<byte>, t: Platform): nat { if t.big then FromBE(s) else FromLE(s) }

  /** The types and contents in the order of the area: modules (0), keys (4), memdisk (1), configuration (2), prefix (3). */
  function Contents(p: Parts): seq<(nat, seq<byte>)> {
    seq(|p.modules|, i requires 0 <= i < |p.modules| => (0, p.modules[i]))
    + seq(|p.keys|, i requires 0 <= i < |p.keys| => (4, p.keys[i]))
    + Single(1, p.memdisk) + Single(2, p.config) + Single(3, p.prefix)
  }

  function Single(kind: nat, part: Option<seq<byte>>): seq<(nat, seq<byte>)> {
    if part.Some? then [(kind, part.value)] else []
  }

  /** room is n rounded up to a multiple of unit. */
  predicate RoundedUp(room: int, n: nat, unit: nat) { unit > 0 && n <= room < n + unit && room % unit == 0 }

  /** The entry of this content at pos, the next one at next. */
  predicate Stands(mem: seq<byte>, pos: nat, kind: nat, data: seq<byte>, next: nat, t: Platform) {
    && pos + 8 + |data| <= next <= |mem|
    && Number(mem[pos..pos + 4], t) == kind
    && mem[pos + 8..pos + 8 + |data|] == data
    && var size, room := Number(mem[pos + 4..pos + 8], t), next - (pos + 8);
       && (kind == 0 ==> size == room + 8 && RoundedUp(room, |data|, t.addr) && forall k :: pos + 8 + |data| <= k < next ==> mem[k] == 0)
       && (kind == 1 ==> size == room + 8 && RoundedUp(room, |data|, 512))
       && (kind == 2 ==> size == room + 8 && RoundedUp(room, |data| + 1, t.addr) && mem[pos + 8 + |data|] == 0)
       && (kind == 3 ==> size == room + 8 && RoundedUp(room, |data| + 1, t.addr) && forall k :: pos + 8 + |data| <= k < next ==> mem[k] == 0)
       && (kind == 4 ==> size == |data| + 8 && RoundedUp(room, |data|, t.addr))
  }

  /** at has the offset of every entry, and that of the end. */
  ghost predicate EntriesStand(mem: seq<byte>, start: nat, at: seq<nat>, contents: seq<(nat, seq<byte>)>, t: Platform) {
    |at| == |contents| + 1 &&
    forall i :: 0 <= i < |contents| ==> Stands(mem, start + at[i], contents[i].0, contents[i].1, start + at[i + 1], t)
  }

  ghost predicate AreaMeans(mem: seq<byte>, start: nat, p: Parts, t: Platform) {
    && (t.addr == 4 || t.addr == 8) && start + 3 * t.addr <= |mem|
    && Number(mem[start..start + 4], t) == 0x676d_696d
    && Number(mem[start + t.addr..start + 2 * t.addr], t) == 3 * t.addr
    && exists at :: EntriesStand(mem, start, at, Contents(p), t)
         && at[0] == 3 * t.addr && Number(mem[start + 2 * t.addr..start + 3 * t.addr], t) == at[|Contents(p)|]
  }

  // ----- the entries that are written -----

  function ItemFor(kind: nat, data: seq<byte>, t: Platform): Item
    requires Supported(t)
  {
    if kind == 0 then ModuleItem(data, t) else if kind == 1 then MemdiskItem(data) else if kind == 2 then ConfigItem(data, t)
    else if kind == 3 then PrefixItem(data, t) else KeyItem(data, t)
  }

  lemma RoundsUp(n: nat, unit: nat)
    requires unit > 0
    ensures RoundedUp(AlignUp(n, unit), n, unit)
  {
    AlignUpMultiple(n, unit);
  }

  lemma PayloadStands(mem: seq<byte>, pos: nat, item: Item, t: Platform)
    requires Holds(mem, pos, item, t)
    ensures forall k :: 0 <= k < |item.payload| ==> mem[pos + 8 + k] == item.payload[k]
    ensures Number(mem[pos..pos + 4], t) == item.kind && Number(mem[pos + 4..pos + 8], t) == item.claimed + 8
  {
    forall k | 0 <= k < |item.payload|
      ensures mem[pos + 8 + k] == item.payload[k]
    {
      assert mem[pos + 8..pos + 8 + |item.payload|][k] == mem[pos + 8 + k];
    }
  }

  lemma DataStands(mem: seq<byte>, pos: nat, data: seq<byte>)
    requires pos + |data| <= |mem| && forall k :: 0 <= k < |data| ==> mem[pos + k] == data[k]
    ensures mem[pos..pos + |data|] == data
  {
  }

  /** What the rounding and the payload of each kind of entry are. */
  lemma ItemShape(kind: nat, data: seq<byte>, t: Platform)
    requires Supported(t) && kind <= 4
    ensures var item := ItemFor(kind, data, t);
            && item.kind == kind && |data| <= |item.payload| <= item.room
            && (forall k :: 0 <= k < |data| ==> item.payload[k] == data[k])
            && (forall k :: |data| <= k < |item.payload| ==> item.payload[k] == 0)
            && item.claimed == (if kind == 4 then |data| else item.room)
            && RoundedUp(item.room, if kind == 2 || kind == 3 then |data| + 1 else |data|, if kind == 1 then 512 else t.addr)
            && (kind == 0 || kind == 3 ==> |item.payload| == item.room) && (kind == 2 ==> |item.payload| == |data| + 1)
  {
    hide AlignUp, RoundedUp;
    var n, unit := if kind == 2 || kind == 3 then |data| + 1 else |data|, if kind == 1 then 512 else t.addr;
    RoundsUp(n, unit);
    AtLeast(n, unit);
  }

  lemma AtLeast(n: nat, unit: nat)
    requires unit > 0
    ensures n <= AlignUp(n, unit)
  {
  }

  lemma ItemStands(mem: seq<byte>, pos: nat, kind: nat, data: seq<byte>, t: Platform)
    requires Supported(t) && kind <= 4 && Holds(mem, pos, ItemFor(kind, data, t), t)
    ensures Stands(mem, pos, kind, data, pos + 8 + ItemFor(kind, data, t).room, t)
  {
    hide ItemFor, Number, RoundedUp, Holds;
    var item := ItemFor(kind, data, t);
    ItemShape(kind, data, t);
    PayloadStands(mem, pos, item, t);
    HoldsFits(mem, pos, item, t);
    DataStands(mem, pos + 8, data);
    forall k | pos + 8 + |data| <= k < pos + 8 + |item.payload|
      ensures mem[k] == 0
    {
      assert mem[pos + 8 + (k - pos - 8)] == item.payload[k - pos - 8];
    }
  }

  lemma HoldsFits(mem: seq<byte>, pos: nat, item: Item, t: Platform)
    requires Holds(mem, pos, item, t)
    ensures pos + 8 + item.room <= |mem|
  {
  }

  lemma ItemsAre(p: Parts, t: Platform)
    requires Supported(t)
    ensures |Items(p, t)| == |Contents(p)|
    ensures forall i :: 0 <= i < |Contents(p)| ==> Contents(p)[i].0 <= 4 && Items(p, t)[i] == ItemFor(Contents(p)[i].0, Contents(p)[i].1, t)
  {
    hide ModuleItem, KeyItem, MemdiskItem, ConfigItem, PrefixItem, ModuleItems, KeyItems, SingleItems;
    ModuleCount(p.modules, |p.modules|, t);
    KeyCount(p.keys, |p.keys|, t);
    SinglesAre(p, t);
    var m, k := |p.modules|, |p.keys|;
    forall i | 0 <= i < |Contents(p)|
      ensures Contents(p)[i].0 <= 4 && Items(p, t)[i] == ItemFor(Contents(p)[i].0, Contents(p)[i].1, t)
    {
      if i < m {
        ModuleCount(p.modules, i, t);
        assert Contents(p)[i] == (0, p.modules[i]);
      } else if i < m + k {
        KeyCount(p.keys, i - m, t);
        assert Contents(p)[i] == (4, p.keys[i - m]);
      } else {
        assert Contents(p)[i] == (Single(1, p.memdisk) + Single(2, p.config) + Single(3, p.prefix))[i - m - k];
      }
    }
  }

  lemma SinglesAre(p: Parts, t: Platform)
    requires Supported(t)
    ensures var singles := Single(1, p.memdisk) + Single(2, p.config) + Single(3, p.prefix);
            && |SingleItems(p, t)| == |singles|
            && forall i :: 0 <= i < |singles| ==> singles[i].0 <= 4 && SingleItems(p, t)[i] == ItemFor(singles[i].0, singles[i].1, t)
  {
    hide ModuleItem, KeyItem, MemdiskItem, ConfigItem, PrefixItem;
  }

  // ----- the area -----

  lemma EntriesAreStanding(mem: seq<byte>, start: nat, first: nat, p: Parts, t: Platform) returns (at: seq<nat>)
    requires Supported(t)
    requires forall i :: 0 <= i < |Items(p, t)| ==> Holds(mem, start + first + Room(Items(p, t)[..i]), Items(p, t)[i], t)
    ensures EntriesStand(mem, start, at, Contents(p), t)
    ensures at[0] == first && at[|Contents(p)|] == first + Room(Items(p, t))
  {
    hide Items, Contents, Holds, Stands, ItemFor, Room;
    var items, contents := Items(p, t), Contents(p);
    ItemsAre(p, t);
    at := seq(|contents| + 1, i requires 0 <= i < |contents| + 1 => first + Room(items[..i]));
    forall i | 0 <= i < |contents|
      ensures Stands(mem, start + at[i], contents[i].0, contents[i].1, start + at[i + 1], t)
    {
      ItemStands(mem, start + at[i], contents[i].0, contents[i].1, t);
      RoomOfPrefix(items, i);
    }
    RoomOfNone();
    assert items[..0] == [] && items[..|items|] == items;
  }

  lemma RoomOfNone()
    ensures Room([]) == 0
  {
  }

  lemma InfoMeans(mem: seq<byte>, start: nat, t: Platform)
    requires Supported(t) && start + InfoSize(t) <= |mem|
    ensures InfoSize(t) == 3 * t.addr && Get(mem[start..start + 4], t) == Number(mem[start..start + 4], t)
    ensures InfoOffset(mem, start, t) == Number(mem[start + t.addr..start + 2 * t.addr], t)
    ensures InfoTotal(mem, start, t) == Number(mem[start + 2 * t.addr..start + 3 * t.addr], t)
  {
  }

  /** An area whose entries can be read, in numbers. */
  lemma AreaIsMeant(mem: seq<byte>, start: nat, p: Parts, t: Platform)
    requires Supported(t) && start + InfoSize(t) <= |mem|
    requires Get(mem[start..start + 4], t) == MAGIC
    requires InfoOffset(mem, start, t) == InfoSize(t) && InfoTotal(mem, start, t) == InfoSize(t) + Room(Items(p, t))
    requires forall i :: 0 <= i < |Items(p, t)| ==> Holds(mem, start + InfoSize(t) + Room(Items(p, t)[..i]), Items(p, t)[i], t)
    ensures AreaMeans(mem, start, p, t)
  {
    hide Items, Contents, Holds, EntriesStand, Room, Get, Number;
    InfoMeans(mem, start, t);
    var at := EntriesAreStanding(mem, start, InfoSize(t), p, t);
    EntriesCounted(mem, start, at, Contents(p), t);
  }

  lemma EntriesCounted(mem: seq<byte>, start: nat, at: seq<nat>, contents: seq<(nat, seq<byte>)>, t: Platform)
    requires EntriesStand(mem, start, at, contents, t)
    ensures |at| == |contents| + 1
  {
  }

  lemma VisibleIsMeant(mem: seq<byte>, start: nat, p: Parts, t: Platform)
    requires ModulesVisible(mem, start, p, t)
    ensures AreaMeans(mem, start, p, t)
  {
    hide Items, Holds, Room, Get, AreaMeans, IsWalk;
    AreaIsMeant(mem, start, p, t);
  }

  /** The packed image. */
  lemma PackedIsMeant(image: seq<byte>, kernelSize: nat, p: Parts, t: Platform, before: bool)
    requires Packable(image, kernelSize, p, t)
    ensures AreaMeans(Packed(image, kernelSize, p, t, before), AreaStart(kernelSize, before), p, t)
  {
    hide Items, Packed, Holds, Room, Get, AreaMeans, AllFit, Expressible;
    AreaReadsBack(image, kernelSize, p, t, before);
    AreaIsMeant(Packed(image, kernelSize, p, t, before), AreaStart(kernelSize, before), p, t);
  }
}
