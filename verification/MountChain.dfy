/** The list of visible mounts that lead to a directory, built from the mount table line by line. */
module MountChain {
  import opened Outcomes

  /** One line of the mount table: the mount, and the id of the mount it is on. */
  datatype Mount = Mount(id: int, device: string, root: string)
  datatype Line = Line(mount: Mount, parent: int)

  /** A parent that has not been seen itself; it has no device. */
  function Placeholder(id: int): Mount { Mount(id, "", "") }

  /** The last mount of the chain with this id, or -1. */
  function LastWith(chain: seq<Mount>, id: int): (i: int)
    ensures -1 <= i < |chain| && (i >= 0 ==> chain[i].id == id)
    ensures forall k :: i < k < |chain| ==> chain[k].id != id
  {
    if |chain| == 0 then -1
    else if chain[|chain| - 1].id == id then |chain| - 1
    else LastWith(chain[..|chain| - 1], id)
  }

  /** Where a line goes: behind its parent, cutting off what was there; in front of the mount it repeats,
      which it replaces; or nowhere. */
  function Inserted(chain: seq<Mount>, line: Line): seq<Mount> {
    if |chain| == 0 then [Placeholder(line.parent), line.mount]
    else
      var i := LastWith(chain, line.parent);
      if i >= 0 then chain[..i + 1] + [line.mount]
      else if chain[0].id == line.mount.id then [Placeholder(line.parent), line.mount] + chain[1..]
      else chain
  }

  /** The chain before and after a line: an empty one starts with the parent's id; a mount on the chain takes what was
      mounted on its parent off; a line for the first mount puts the parent in front; any other line says nothing of
      this chain. Where an id occurs more than once, its last mount counts. */
  predicate TakesIn(chain: seq<Mount>, line: Line, after: seq<Mount>) {
    && (chain == [] ==> after == [Mount(line.parent, "", ""), line.mount])
    && (forall i :: 0 <= i < |chain| && chain[i].id == line.parent && (forall k :: i < k < |chain| ==> chain[k].id != line.parent) ==>
          after == chain[..i + 1] + [line.mount])
    && (chain != [] && (forall k :: 0 <= k < |chain| ==> chain[k].id != line.parent) ==>
          after == if chain[0].id == line.mount.id then [Mount(line.parent, "", ""), line.mount] + chain[1..] else chain)
  }

  lemma InsertedTakesIn(chain: seq<Mount>, line: Line)
    ensures TakesIn(chain, line, Inserted(chain, line))
  {
    if chain != [] {
      var j := LastWith(chain, line.parent);
      forall i | 0 <= i < |chain| && chain[i].id == line.parent && (forall k :: i < k < |chain| ==> chain[k].id != line.parent)
        ensures i == j
      {
      }
    }
  }

  // ----- what every chain is -----

  /** mounts[k] came with lines[k], except that the first is a placeholder; and each is what the next
      one was mounted on. */
  ghost predicate Linked(chain: seq<Mount>, lines: seq<Line>) {
    && |chain| == |lines|
    && (forall k :: 0 < k < |chain| ==> chain[k] == lines[k].mount)
    && (forall k :: 0 <= k < |chain| - 1 ==> chain[k].id == lines[k + 1].parent)
    && (|chain| > 0 ==> |chain| >= 2 && chain[0] == Placeholder(chain[0].id))
  }

  /** A line further keeps the chain linked, by lines that were read. */
  lemma InsertKeepsLinked(chain: seq<Mount>, lines: seq<Line>, line: Line, table: seq<Line>) returns (lines': seq<Line>)
    requires Linked(chain, lines) && line in table && forall k :: 0 < k < |lines| ==> lines[k] in table
    ensures Linked(Inserted(chain, line), lines') && forall k :: 0 < k < |lines'| ==> lines'[k] in table
  {
    if |chain| == 0 {
      lines' := [line, line];
    } else {
      var i := LastWith(chain, line.parent);
      if i >= 0 {
        lines' := lines[..i + 1] + [line];
        assert forall k :: 0 < k <= i ==> lines'[k] == lines[k];
      } else if chain[0].id == line.mount.id {
        lines' := [line, line] + lines[1..];
        assert forall k :: 1 < k < |lines'| ==> lines'[k] == lines[k - 1];
      } else {
        lines' := lines;
      }
    }
  }

  /** The chain after a whole table. */
  function Chain(table: seq<Line>): seq<Mount> {
    if |table| == 0 then [] else Inserted(Chain(table[..|table| - 1]), table[|table| - 1])
  }

  /** For every table the chain is linked by lines of the table, and its last mount is one of them. */
  lemma {:induction false} ChainIsLinked(table: seq<Line>) returns (lines: seq<Line>)
    ensures Linked(Chain(table), lines) && forall k :: 0 < k < |lines| ==> lines[k] in table
  {
    hide Inserted, Linked;
    if |table| == 0 {
      lines := [];
      EmptyIsLinked();
    } else {
      var front, last := table[..|table| - 1], table[|table| - 1];
      var before := ChainIsLinked(front);
      assert forall x :: x in front ==> x in table;
      lines := InsertKeepsLinked(Chain(front), before, last, table);
    }
  }

  lemma EmptyIsLinked()
    ensures Linked([], [])
  {
  }

  /** Exactly the first mount is without a device, when every line has one. */
  lemma {:induction false} OnlyFirstIsPlaceholder(table: seq<Line>, k: nat)
    requires (forall i :: 0 <= i < |table| ==> table[i].mount.device != "") && k < |Chain(table)|
    ensures Chain(table)[k].device == "" <==> k == 0
    ensures Chain(table)[0] == Placeholder(Chain(table)[0].id)
  {
    hide Inserted;
    var lines := ChainIsLinked(table);
    assert k > 0 ==> lines[k] in table;
  }

  // ----- the list in memory -----

  class MountList {
    var entries: array<Mount>
    var len: nat

    ghost predicate Valid()
      reads this, entries
    {
      len <= entries.Length && entries.Length >= 4
    }

    ghost function Contents(): seq<Mount>
      reads this, entries
      requires Valid()
    {
      entries[..len]
    }

    constructor ()
      ensures Valid() && Contents() == [] && fresh(entries)
    {
      entries := new Mount[4](_ => Placeholder(0));
      len := 0;
    }

    /** Twice the room, when there is no more. */
    method MakeRoom()
      requires Valid()
      modifies this`entries
      ensures Valid() && len < entries.Length && Contents() == old(Contents())
      ensures entries == old(entries) || fresh(entries)
    {
      if len >= entries.Length {
        var held := entries;
        entries := new Mount[2 * held.Length](i requires 0 <= i reads held => if i < held.Length then held[i] else Placeholder(0));
        assert entries[..len] == held[..len];
      }
    }

    /** Shift everything up by one and put two mounts where the first was. */
    method InsertAtStart(parent: Mount, mount: Mount)
      requires Valid() && 0 < len < entries.Length
      modifies this`len, entries
      ensures Valid() && Contents() == [parent, mount] + old(Contents())[1..]
    {
      len := len + 1;
      forall k | 1 <= k < len {
        entries[k] := entries[k - 1];
      }
      entries[0], entries[1] := parent, mount;
    }

    /** The mount behind mount i, whatever was there. */
    method PutBehind(i: nat, mount: Mount)
      requires Valid() && i < len < entries.Length
      modifies this`len, entries
      ensures Valid() && Contents() == old(Contents())[..i + 1] + [mount]
    {
      len := i + 2;
      entries[i + 1] := mount;
    }

    method Start(parent: Mount, mount: Mount)
      requires Valid() && len == 0
      modifies this`len, entries
      ensures Valid() && Contents() == [parent, mount]
    {
      entries[0], entries[1] := parent, mount;
      len := 2;
    }

    /** Search the chain from its end: the last mount that the line's is on, or else whether the line is for the first. */
    method Search(line: Line) returns (i: int, first: bool)
      requires Valid() && len > 0
      ensures -1 <= i < len && (i >= 0 && !first ==> entries[i].id == line.parent)
      ensures forall k :: i < k < len ==> entries[k].id != line.parent
      ensures first ==> i == 0 && entries[0].id == line.mount.id && entries[0].id != line.parent
      ensures i < 0 ==> entries[0].id != line.mount.id
    {
      i, first := len - 1, false;
      while i >= 0
        invariant -1 <= i < len && !first
        invariant forall k :: i < k < len ==> entries[k].id != line.parent
        invariant i < 0 ==> entries[0].id != line.mount.id
      {
        if entries[i].id == line.parent {
          return;
        } else if i == 0 && entries[i].id == line.mount.id {
          return 0, true;
        }
        i := i - 1;
      }
    }

    /** One line of the table. */
    method Insert(line: Line)
      requires Valid()
      modifies this, entries
      ensures Valid() && Contents() == Inserted(old(Contents()), line)
      ensures TakesIn(old(Contents()), line, Contents())
      ensures entries == old(entries) || fresh(entries)
    {
      hide Inserted, TakesIn, LastWith, Placeholder;
      ghost var chain := Contents();
      InsertedTakesIn(chain, line);
      MakeRoom();
      if len == 0 {
        assert chain == [];
        InsertedFirst(line);
        Start(Placeholder(line.parent), line.mount);
        return;
      }
      var i, first := Search(line);
      if first {
        InsertedInFront(chain, line);
        InsertAtStart(Placeholder(line.parent), line.mount);
      } else if i >= 0 {
        InsertedBehind(chain, line, i);
        PutBehind(i, line.mount);
      } else {
        InsertedNowhere(chain, line);
      }
    }

    /** The mount whose device is taken: the last that has one. */
    method Choose() returns (chosen: Option<Mount>)
      requires Valid()
      ensures chosen == None ==> forall k :: 0 <= k < len ==> entries[k].device == ""
      ensures chosen.Some? ==>
                exists i :: 0 <= i < len && entries[i] == chosen.value && chosen.value.device != ""
                  && forall k :: i < k < len ==> entries[k].device == ""
    {
      var i := len - 1;
      while i >= 0
        invariant -1 <= i < len && forall k :: i < k < len ==> entries[k].device == ""
      {
        if entries[i].device != "" {
          return Some(entries[i]);
        }
        i := i - 1;
      }
      chosen := None;
    }
  }

  // The cases that the search can end in.

  lemma InsertedFirst(line: Line)
    ensures Inserted([], line) == [Placeholder(line.parent), line.mount]
  {
  }

  lemma InsertedBehind(chain: seq<Mount>, line: Line, i: nat)
    requires i < |chain| && chain[i].id == line.parent && forall k :: i < k < |chain| ==> chain[k].id != line.parent
    ensures Inserted(chain, line) == chain[..i + 1] + [line.mount]
  {
    assert LastWith(chain, line.parent) == i;
  }

  lemma InsertedInFront(chain: seq<Mount>, line: Line)
    requires chain != [] && chain[0].id == line.mount.id && forall k :: 0 <= k < |chain| ==> chain[k].id != line.parent
    ensures Inserted(chain, line) == [Placeholder(line.parent), line.mount] + chain[1..]
  {
    assert LastWith(chain, line.parent) == -1;
  }

  lemma InsertedNowhere(chain: seq<Mount>, line: Line)
    requires chain != [] && chain[0].id != line.mount.id && forall k :: 0 <= k < |chain| ==> chain[k].id != line.parent
    ensures Inserted(chain, line) == chain
  {
    assert LastWith(chain, line.parent) == -1;
  }

  /** The whole table, and the mount that is taken in the end: the last of the chain, which came with some
      line of the table, when every line has a device. */
  method FindMount(table: seq<Line>) returns (chosen: Option<Mount>)
    ensures |Chain(table)| == 0 <==> |table| == 0
    ensures (forall i :: 0 <= i < |table| ==> table[i].mount.device != "") ==>
              chosen == if |table| == 0 then None else Some(Chain(table)[|Chain(table)| - 1])
  {
    hide Inserted, Linked;
    var list := new MountList();
    for i := 0 to |table|
      invariant list.Valid() && list.Contents() == Chain(table[..i]) && fresh(list) && fresh(list.entries)
    {
      assert table[..i + 1][..i] == table[..i];
      list.Insert(table[i]);
    }
    assert table[..|table|] == table;
    chosen := list.Choose();
    LastHasDevice(table);
  }

  lemma LastHasDevice(table: seq<Line>)
    ensures |Chain(table)| > 0 <==> |table| > 0
    ensures (forall i :: 0 <= i < |table| ==> table[i].mount.device != "") && |table| > 0 ==>
              |Chain(table)| >= 2 && Chain(table)[|Chain(table)| - 1].device != ""
  {
    var lines := ChainIsLinked(table);
    NonEmpty(table);
    if (forall i :: 0 <= i < |table| ==> table[i].mount.device != "") && |table| > 0 {
      OnlyFirstIsPlaceholder(table, |Chain(table)| - 1);
    }
  }

  lemma {:induction false} NonEmpty(table: seq<Line>)
    ensures |Chain(table)| > 0 <==> |table| > 0
  {
    if |table| > 0 {
      NonEmpty(table[..|table| - 1]);
    }
  }
}
