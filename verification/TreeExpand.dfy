/** Redrawing the tree browser: note the open folders, collapse the root, and open them again by name. */
module TreeExpand {
  import opened TreeNav

  type Name = string
  type Names = seq<Name>

  /** A row that a folder will show when it is opened. */
  datatype Item = Item(id: Name, folder: bool)

  /** What each folder holds, by the names that lead to it; it holds no name twice. */
  type Contents = Names -> seq<Item>

  ghost predicate Distinct(contents: Contents) {
    forall at, i, j :: 0 <= i < j < |contents(at)| ==> contents(at)[i].id != contents(at)[j].id
  }

  /** A tree that came about by opening and closing: closed rows show nothing, open ones all they hold. */
  ghost predicate Grown(contents: Contents, at: Names, n: Node)
    decreases n
  {
    if !n.open then n.subs == []
    else
      && n.folder && |n.subs| == |contents(at)|
      && forall i :: 0 <= i < |n.subs| ==>
           n.subs[i].id == contents(at)[i].id && n.subs[i].folder == contents(at)[i].folder
           && Grown(contents, at + [n.subs[i].id], n.subs[i])
  }

  // ----- opening and closing -----

  function Closed(items: seq<Item>): (subs: seq<Node>)
    ensures |subs| == |items| && forall i :: 0 <= i < |items| ==> subs[i] == Node(items[i].id, items[i].folder, false, [])
  {
    seq(|items|, i requires 0 <= i < |items| => Node(items[i].id, items[i].folder, false, []))
  }

  /** toggle_state with a state: nothing happens to a row that is no folder or is in that state. */
  function SetOpen(contents: Contents, at: Names, n: Node, state: bool): Node {
    if !n.folder || n.open == state then n
    else if state then n.(open := true, subs := Closed(contents(at)))
    else n.(open := false, subs := [])
  }

  /** The first child of that name, or the number of children. */
  function Find(subs: seq<Node>, id: Name): (i: nat)
    ensures i <= |subs| && (i < |subs| ==> subs[i].id == id)
    ensures forall k :: 0 <= k < i ==> subs[k].id != id
  {
    if |subs| == 0 || subs[0].id == id then 0 else 1 + Find(subs[1..], id)
  }

  /** Node.expand: open the row, then go on to the child that the first name names, if there is one. */
  function Expand(contents: Contents, at: Names, n: Node, dirs: Names): Node
    decreases |dirs|
  {
    var m := SetOpen(contents, at, n, true);
    if |dirs| == 0 then m
    else
      var i := Find(m.subs, dirs[0]);
      if i == |m.subs| then m
      else m.(subs := m.subs[i := Expand(contents, at + [dirs[0]], m.subs[i], dirs[1..])])
  }

  /** The row of that name is shown and open. */
  predicate IsOpen(n: Node, p: Names)
    decreases |p|
  {
    if |p| == 0 then n.open
    else Find(n.subs, p[0]) < |n.subs| && IsOpen(n.subs[Find(n.subs, p[0])], p[1..])
  }

  predicate NoOpenSub(n: Node) { forall i :: 0 <= i < |n.subs| ==> !n.subs[i].open }

  /** p leads through open rows to one without open rows below it. */
  predicate Deepest(n: Node, p: Names)
    decreases |p|
  {
    if |p| == 0 then NoOpenSub(n)
    else
      var i := Find(n.subs, p[0]);
      i < |n.subs| && n.subs[i].open && Deepest(n.subs[i], p[1..])
  }

  lemma DistinctFind(contents: Contents, at: Names, n: Node, i: nat)
    requires Distinct(contents) && Grown(contents, at, n) && i < |n.subs|
    ensures Find(n.subs, n.subs[i].id) == i
  {
    hide Distinct;
    var k := Find(n.subs, n.subs[i].id);
    NamesDiffer(contents, at, k, i);
  }

  lemma NamesDiffer(contents: Contents, at: Names, i: nat, j: nat)
    requires Distinct(contents) && i <= j < |contents(at)| && contents(at)[i].id == contents(at)[j].id
    ensures i == j
  {
  }

  // ----- collecting the open rows -----

  /** A row and the names that lead to it from the root. */
  type Entry = (Node, Names)

  predicate Leads(e: Entry, p: Names) { e.1 <= p && Deepest(e.0, p[|e.1|..]) }

  /** Some entry of the stack has p among its deepest open rows. */
  predicate Pending(stack: seq<Entry>, p: Names) {
    exists k :: 0 <= k < |stack| && Leads(stack[k], p)
  }

  function Weight(stack: seq<Entry>): nat {
    if |stack| == 0 then 0 else Weight(stack[..|stack| - 1]) + Size(stack[|stack| - 1].0)
  }

  /** The open ones among the first k children. */
  function OpenSubs(e: Entry, k: nat): seq<Entry>
    requires k <= |e.0.subs|
  {
    if k == 0 then []
    else OpenSubs(e, k - 1) + if e.0.subs[k - 1].open then [(e.0.subs[k - 1], e.1 + [e.0.subs[k - 1].id])] else []
  }

  lemma {:induction false} OpenSubsAre(e: Entry, k: nat)
    requires k <= |e.0.subs|
    ensures forall x :: x in OpenSubs(e, k) <==>
              exists i :: 0 <= i < k && e.0.subs[i].open && x == (e.0.subs[i], e.1 + [e.0.subs[i].id])
  {
    if k > 0 {
      OpenSubsAre(e, k - 1);
    }
  }

  lemma {:induction false} OpenSubsWeigh(e: Entry, k: nat)
    requires k <= |e.0.subs|
    ensures Weight(OpenSubs(e, k)) <= Sizes(e.0, k)
  {
    hide Size;
    if k > 0 {
      OpenSubsWeigh(e, k - 1);
      WeightAdds(OpenSubs(e, k - 1), if e.0.subs[k - 1].open then [(e.0.subs[k - 1], e.1 + [e.0.subs[k - 1].id])] else []);
    }
  }

  lemma {:induction false} WeightAdds(a: seq<Entry>, b: seq<Entry>)
    ensures Weight(a + b) == Weight(a) + Weight(b)
    decreases |b|
  {
    hide Size;
    if |b| == 0 {
      assert a + b == a;
    } else {
      assert (a + b)[..|a + b| - 1] == a + b[..|b| - 1];
      WeightAdds(a, b[..|b| - 1]);
    }
  }

  /** A deepest row is the entry itself, or one of an open child. */
  lemma LeadsThrough(contents: Contents, e: Entry, p: Names)
    requires Distinct(contents) && Grown(contents, e.1, e.0)
    ensures Leads(e, p) <==> (NoOpenSub(e.0) && p == e.1) || Pending(OpenSubs(e, |e.0.subs|), p)
  {
    hide Distinct, Grown;
    OpenSubsAre(e, |e.0.subs|);
    if Leads(e, p) && p != e.1 {
      DownLeads(e, p);
    }
    if Pending(OpenSubs(e, |e.0.subs|), p) {
      var k :| 0 <= k < |OpenSubs(e, |e.0.subs|)| && Leads(OpenSubs(e, |e.0.subs|)[k], p);
      var x := OpenSubs(e, |e.0.subs|)[k];
      assert x in OpenSubs(e, |e.0.subs|);
      var i :| 0 <= i < |e.0.subs| && e.0.subs[i].open && x == (e.0.subs[i], e.1 + [e.0.subs[i].id]);
      UpLeads(contents, e, i, p);
    }
  }

  lemma DownLeads(e: Entry, p: Names)
    requires Leads(e, p) && p != e.1
    ensures Pending(OpenSubs(e, |e.0.subs|), p)
  {
    OpenSubsAre(e, |e.0.subs|);
    var q := p[|e.1|..];
    assert p == e.1 + q;
    var i := Find(e.0.subs, q[0]);
    var x := (e.0.subs[i], e.1 + [q[0]]);
    assert x in OpenSubs(e, |e.0.subs|);
    assert x.1 <= p && p[|x.1|..] == q[1..];
    assert Leads(x, p);
    var k :| 0 <= k < |OpenSubs(e, |e.0.subs|)| && OpenSubs(e, |e.0.subs|)[k] == x;
  }

  lemma UpLeads(contents: Contents, e: Entry, i: nat, p: Names)
    requires Distinct(contents) && Grown(contents, e.1, e.0) && i < |e.0.subs| && e.0.subs[i].open
    requires Leads((e.0.subs[i], e.1 + [e.0.subs[i].id]), p)
    ensures Leads(e, p)
  {
    hide Grown, Distinct;
    DistinctFind(contents, e.1, e.0, i);
    var id := e.0.subs[i].id;
    var q := p[|e.1|..];
    assert (e.1 + [id])[|e.1|] == id && p[..|e.1| + 1] == e.1 + [id];
    assert q[0] == id && q[1..] == p[|e.1| + 1..];
    assert e.1 <= p;
  }

  lemma PendingSplit(a: seq<Entry>, b: seq<Entry>, p: Names)
    ensures Pending(a + b, p) <==> Pending(a, p) || Pending(b, p)
  {
    hide Leads;
    if Pending(b, p) {
      var k :| 0 <= k < |b| && Leads(b[k], p);
      assert (a + b)[|a| + k] == b[k];
    }
    if Pending(a, p) {
      var k :| 0 <= k < |a| && Leads(a[k], p);
      assert (a + b)[k] == a[k];
    }
  }

  /** Popping an entry and pushing its open children keeps what is pending, but for the entry itself. */
  lemma PopAndPush(contents: Contents, rest: seq<Entry>, top: Entry, p: Names)
    requires Distinct(contents) && Grown(contents, top.1, top.0)
    ensures Pending(rest + [top], p) <==> (NoOpenSub(top.0) && p == top.1) || Pending(rest + OpenSubs(top, |top.0.subs|), p)
  {
    hide Leads, Distinct, Grown, OpenSubs, NoOpenSub;
    PendingSplit(rest, [top], p);
    PendingSplit(rest, OpenSubs(top, |top.0.subs|), p);
    LeadsThrough(contents, top, p);
    assert Pending([top], p) <==> Leads(top, p) by {
      assert [top][0] == top;
    }
  }

  lemma PopLightens(rest: seq<Entry>, top: Entry)
    ensures Weight(rest + OpenSubs(top, |top.0.subs|)) < Weight(rest + [top])
  {
    hide Size, Sizes, Weight;
    WeightAdds(rest, OpenSubs(top, |top.0.subs|));
    WeightAdds(rest, [top]);
    OpenSubsWeigh(top, |top.0.subs|);
    SizeOf(top.0);
    OneWeighs(top);
  }

  lemma OneWeighs(e: Entry)
    ensures Weight([e]) == Size(e.0) && Weight([]) == 0
  {
  }

  ghost predicate AllGrown(contents: Contents, stack: seq<Entry>) {
    forall k :: 0 <= k < |stack| ==> Grown(contents, stack[k].1, stack[k].0)
  }

  lemma ChildrenGrown(contents: Contents, e: Entry)
    requires Grown(contents, e.1, e.0)
    ensures AllGrown(contents, OpenSubs(e, |e.0.subs|))
    ensures NoOpenSub(e.0) <==> OpenSubs(e, |e.0.subs|) == []
  {
    OpenSubsAre(e, |e.0.subs|);
    var subs := OpenSubs(e, |e.0.subs|);
    forall k | 0 <= k < |subs|
      ensures Grown(contents, subs[k].1, subs[k].0)
    {
      assert subs[k] in subs;
    }
    if !NoOpenSub(e.0) {
      var i :| 0 <= i < |e.0.subs| && e.0.subs[i].open;
      assert (e.0.subs[i], e.1 + [e.0.subs[i].id]) in subs;
    }
    if subs != [] {
      assert subs[0] in subs;
    }
  }

  /** The check of all children. */
  method PushOpen(e: Entry) returns (pushed: seq<Entry>)
    ensures pushed == OpenSubs(e, |e.0.subs|)
  {
    pushed := [];
    for k := 0 to |e.0.subs|
      invariant pushed == OpenSubs(e, k)
    {
      if e.0.subs[k].open {
        pushed := pushed + [(e.0.subs[k], e.1 + [e.0.subs[k].id])];
      }
    }
  }

  /** Node.expanded: the deepest open rows below root, found with a stack. */
  method Expanded(root: Node, ghost contents: Contents) returns (list: seq<Names>)
    requires Distinct(contents) && Grown(contents, [], root)
    ensures forall p :: p in list <==> Deepest(root, p)
    ensures forall p :: p in list <==> (p == [] || IsOpen(root, p)) && !OpensBelowRow(root, p)
  {
    hide Grown, Distinct, Deepest, OpenSubs, Weight, NoOpenSub, Pending, IsOpen, OpensBelowRow;
    var stack: seq<Entry> := [(root, [])];
    list := [];
    StartPending(root);
    while |stack| > 0
      invariant AllGrown(contents, stack)
      invariant forall p :: Deepest(root, p) <==> p in list || Pending(stack, p)
      decreases Weight(stack)
    {
      var top, rest := stack[|stack| - 1], stack[..|stack| - 1];
      assert stack == rest + [top];
      forall p
        ensures Pending(stack, p) <==> (NoOpenSub(top.0) && p == top.1) || Pending(rest + OpenSubs(top, |top.0.subs|), p)
      {
        PopAndPush(contents, rest, top, p);
      }
      PopLightens(rest, top);
      ChildrenGrown(contents, top);
      var pushed := PushOpen(top);
      stack := rest + pushed;
      if pushed == [] {
        list := list + [top.1];
      }
    }
    NothingPending();
    forall p
      ensures Deepest(root, p) <==> (p == [] || IsOpen(root, p)) && !OpensBelowRow(root, p)
    {
      DeepestExactly(contents, [], root, p);
    }
  }

  lemma StartPending(root: Node)
    ensures forall p :: Deepest(root, p) <==> Pending([(root, [])], p)
  {
    forall p
      ensures Deepest(root, p) <==> Pending([(root, [])], p)
    {
      var e: Entry := (root, []);
      assert [e][0] == e && p[0..] == p;
      assert Leads(e, p) <==> Deepest(root, p);
    }
  }

  lemma NothingPending()
    ensures forall p :: !Pending([], p)
  {
  }

  // ----- opening by name -----

  /** Where a name will be once these rows are shown. */
  function FindItem(items: seq<Item>, id: Name): (i: nat)
    ensures i <= |items| && (i < |items| ==> items[i].id == id)
    ensures forall k :: 0 <= k < i ==> items[k].id != id
  {
    Find(Closed(items), id)
  }

  /** The names lead through folders, whether they are open or not. */
  predicate Possible(contents: Contents, at: Names, folder: bool, dirs: Names)
    decreases |dirs|
  {
    folder && (|dirs| > 0 ==>
      var i := FindItem(contents(at), dirs[0]);
      i < |contents(at)| && Possible(contents, at + [dirs[0]], contents(at)[i].folder, dirs[1..]))
  }

  /** Children and contents have the same names in the same places. */
  lemma SameFind(contents: Contents, at: Names, n: Node, id: Name)
    requires Distinct(contents) && Grown(contents, at, n) && n.open
    ensures Find(n.subs, id) == FindItem(contents(at), id)
  {
    hide Distinct;
    var i, k := Find(n.subs, id), FindItem(contents(at), id);
    assert i < |n.subs| ==> contents(at)[i].id == id;
    assert k < |n.subs| ==> n.subs[k].id == id;
  }

  lemma SetOpenGrown(contents: Contents, at: Names, n: Node, state: bool)
    requires Grown(contents, at, n)
    ensures var m := SetOpen(contents, at, n, state);
            Grown(contents, at, m) && m.id == n.id && m.folder == n.folder && (n.folder ==> m.open == state)
  {
  }

  /** What opening a row shows: the rows that were open below it, if it was open, and no others. */
  lemma OpenedSubs(contents: Contents, at: Names, n: Node, p: Names)
    requires Grown(contents, at, n) && n.folder
    ensures IsOpen(SetOpen(contents, at, n, true), p) <==> p == [] || IsOpen(n, p)
  {
    if !n.open && |p| > 0 {
      var m := SetOpen(contents, at, n, true);
      var i := Find(m.subs, p[0]);
      if i < |m.subs| {
        ClosedShowsNothing(m.subs[i], p[1..]);
      }
    }
  }

  lemma ClosedShowsNothing(n: Node, p: Names)
    requires !n.open && n.subs == []
    ensures !IsOpen(n, p)
  {
  }

  /** Replacing child i changes what is found under its own name only. */
  lemma ReplacedChild(m: Node, i: nat, x: Node, p: Names)
    requires i < |m.subs| && x.id == m.subs[i].id && |p| > 0 && Find(m.subs, m.subs[i].id) == i
    ensures var r := m.(subs := m.subs[i := x]);
            IsOpen(r, p) <==> if p[0] == x.id then IsOpen(x, p[1..]) else IsOpen(m, p)
  {
    hide IsOpen;
    var r := m.(subs := m.subs[i := x]);
    SameNamesSameFind(m.subs, r.subs, p[0]);
    IsOpenBelow(r, p);
    IsOpenBelow(m, p);
  }

  lemma IsOpenBelow(n: Node, p: Names)
    requires |p| > 0
    ensures IsOpen(n, p) <==> Find(n.subs, p[0]) < |n.subs| && IsOpen(n.subs[Find(n.subs, p[0])], p[1..])
  {
  }

  lemma SameNamesSameFind(a: seq<Node>, b: seq<Node>, id: Name)
    requires |a| == |b| && forall k :: 0 <= k < |a| ==> a[k].id == b[k].id
    ensures Find(a, id) == Find(b, id)
  {
    var i, k := Find(a, id), Find(b, id);
    assert i < |a| ==> b[i].id == id;
    assert k < |a| ==> a[k].id == id;
  }

  /** Opening a possible path opens that row and every row on the way, and nothing else. */
  lemma {:induction false} ExpandOpens(contents: Contents, at: Names, n: Node, dirs: Names)
    requires Distinct(contents) && Grown(contents, at, n) && Possible(contents, at, n.folder, dirs)
    ensures var e := Expand(contents, at, n, dirs);
            && Grown(contents, at, e) && e.id == n.id && e.folder == n.folder
            && forall p :: IsOpen(e, p) <==> IsOpen(n, p) || p <= dirs
    decreases |dirs|
  {
    hide Distinct, IsOpen, Grown, FindItem, Find;
    var m := SetOpen(contents, at, n, true);
    SetOpenGrown(contents, at, n, true);
    forall p
      ensures IsOpen(m, p) <==> p == [] || IsOpen(n, p)
    {
      OpenedSubs(contents, at, n, p);
    }
    if |dirs| > 0 {
      var i := Find(m.subs, dirs[0]);
      SameFind(contents, at, m, dirs[0]);
      ChildGrown(contents, at, m, i);
      ExpandOpens(contents, at + [dirs[0]], m.subs[i], dirs[1..]);
      var x := Expand(contents, at + [dirs[0]], m.subs[i], dirs[1..]);
      GrownWithChild(contents, at, m, i, x);
      forall p
        ensures IsOpen(m.(subs := m.subs[i := x]), p) <==> IsOpen(n, p) || p <= dirs
      {
        OpensBelow(m, i, x, dirs, p);
      }
    }
  }

  lemma OpensBelow(m: Node, i: nat, x: Node, dirs: Names, p: Names)
    requires m.open && i < |m.subs| && |dirs| > 0 && m.subs[i].id == dirs[0] == x.id && Find(m.subs, dirs[0]) == i
    requires |p| > 0 ==> (IsOpen(x, p[1..]) <==> IsOpen(m.subs[i], p[1..]) || p[1..] <= dirs[1..])
    ensures IsOpen(m.(subs := m.subs[i := x]), p) <==> IsOpen(m, p) || p <= dirs
  {
    if |p| > 0 {
      hide IsOpen;
      ReplacedChild(m, i, x, p);
      IsOpenBelow(m, p);
      PrefixStep(p, dirs);
    }
  }

  lemma PrefixStep(p: Names, d: Names)
    requires |p| > 0 && |d| > 0
    ensures p <= d <==> p[0] == d[0] && p[1..] <= d[1..]
  {
    if p[0] == d[0] && p[1..] <= d[1..] {
      assert p == [p[0]] + p[1..] && d == [d[0]] + d[1..];
    }
  }

  lemma ChildGrown(contents: Contents, at: Names, m: Node, i: nat)
    requires Grown(contents, at, m) && m.open && i < |m.subs|
    ensures Grown(contents, at + [m.subs[i].id], m.subs[i])
    ensures |m.subs| == |contents(at)| && m.subs[i].id == contents(at)[i].id && m.subs[i].folder == contents(at)[i].folder
  {
  }

  lemma GrownWithChild(contents: Contents, at: Names, m: Node, i: nat, x: Node)
    requires Grown(contents, at, m) && m.open && i < |m.subs|
    requires x.id == m.subs[i].id && x.folder == m.subs[i].folder && Grown(contents, at + [x.id], x)
    ensures Grown(contents, at, m.(subs := m.subs[i := x]))
  {
  }

  // ----- the whole redraw -----

  /** An open row can be reached through folders. */
  lemma {:induction false} OpenIsPossible(contents: Contents, at: Names, n: Node, p: Names)
    requires Distinct(contents) && Grown(contents, at, n) && n.open && IsOpen(n, p)
    ensures Possible(contents, at, n.folder, p)
    decreases |p|
  {
    hide Distinct;
    if |p| > 0 {
      var i := Find(n.subs, p[0]);
      SameFind(contents, at, n, p[0]);
      OpenAbove(contents, at + [p[0]], n.subs[i], p[1..]);
      OpenIsPossible(contents, at + [p[0]], n.subs[i], p[1..]);
    }
  }

  /** Nothing is open below a closed row. */
  lemma OpenAbove(contents: Contents, at: Names, n: Node, p: Names)
    requires Grown(contents, at, n) && IsOpen(n, p)
    ensures n.open
  {
  }

  /** Every open row is on the way to a deepest one. */
  lemma {:induction false} SomeDeepest(contents: Contents, at: Names, n: Node, p: Names) returns (d: Names)
    requires Distinct(contents) && Grown(contents, at, n) && IsOpen(n, p)
    ensures p <= d && Deepest(n, d)
    decreases n
  {
    hide Distinct, Grown;
    if |p| > 0 {
      var i := Find(n.subs, p[0]);
      OpenAbove(contents, at, n, p);
      ChildGrown(contents, at, n, i);
      OpenAbove(contents, at + [n.subs[i].id], n.subs[i], p[1..]);
      var rest := SomeDeepest(contents, at + [n.subs[i].id], n.subs[i], p[1..]);
      d := [p[0]] + rest;
      assert d[1..] == rest;
      PrefixStep(p, d);
    } else if NoOpenSub(n) {
      d := [];
    } else {
      var i :| 0 <= i < |n.subs| && n.subs[i].open;
      ChildGrown(contents, at, n, i);
      DistinctFind(contents, at, n, i);
      var rest := SomeDeepest(contents, at + [n.subs[i].id], n.subs[i], []);
      d := [n.subs[i].id] + rest;
      assert d[1..] == rest;
    }
  }

  lemma {:induction false} DeepestIsOpen(contents: Contents, at: Names, n: Node, d: Names, p: Names)
    requires Grown(contents, at, n) && n.open && Deepest(n, d) && p <= d
    ensures IsOpen(n, p)
    decreases |d|
  {
    if |p| > 0 {
      PrefixStep(p, d);
      var i := Find(n.subs, d[0]);
      DeepestIsOpen(contents, at + [d[0]], n.subs[i], d[1..], p[1..]);
    }
  }

  ghost predicate OpensBelowRow(n: Node, p: Names) { exists id: Name :: IsOpen(n, p + [id]) }

  /** The rows that are noted: the root when nothing is open below it, and every open row with no open row below. */
  lemma {:induction false} DeepestExactly(contents: Contents, at: Names, n: Node, p: Names)
    requires Distinct(contents) && Grown(contents, at, n)
    ensures Deepest(n, p) <==> (p == [] || IsOpen(n, p)) && !OpensBelowRow(n, p)
    decreases |p|
  {
    hide Distinct, Grown;
    if |p| == 0 {
      OpenChildren(contents, at, n);
    } else {
      var i := Find(n.subs, p[0]);
      if i < |n.subs| {
        RowsShow(contents, at, n, i);
        ChildGrown(contents, at, n, i);
        DeepestExactly(contents, at + [n.subs[i].id], n.subs[i], p[1..]);
        SameBelow(n, p);
        if IsOpen(n.subs[i], p[1..]) {
          OpenAbove(contents, at + [n.subs[i].id], n.subs[i], p[1..]);
        }
      }
    }
  }

  lemma RowsShow(contents: Contents, at: Names, n: Node, i: nat)
    requires Grown(contents, at, n) && i < |n.subs|
    ensures n.open
  {
  }

  lemma SameBelow(n: Node, p: Names)
    requires |p| > 0 && Find(n.subs, p[0]) < |n.subs|
    ensures OpensBelowRow(n, p) <==> OpensBelowRow(n.subs[Find(n.subs, p[0])], p[1..])
  {
    hide IsOpen;
    var sub := n.subs[Find(n.subs, p[0])];
    forall id: Name
      ensures IsOpen(n, p + [id]) <==> IsOpen(sub, p[1..] + [id])
    {
      assert (p + [id])[1..] == p[1..] + [id];
      IsOpenBelow(n, p + [id]);
    }
  }

  lemma OpenChildren(contents: Contents, at: Names, n: Node)
    requires Distinct(contents) && Grown(contents, at, n)
    ensures NoOpenSub(n) <==> !OpensBelowRow(n, [])
  {
    hide Distinct, Grown;
    if i :| 0 <= i < |n.subs| && n.subs[i].open {
      DistinctFind(contents, at, n, i);
      assert [n.subs[i].id][1..] == [] && [] + [n.subs[i].id] == [n.subs[i].id];
      assert IsOpen(n, [] + [n.subs[i].id]);
    }
    if OpensBelowRow(n, []) {
      var id: Name :| IsOpen(n, [] + [id]);
      assert [] + [id] == [id] && [id][1..] == [];
      IsOpenBelow(n, [id]);
      assert n.subs[Find(n.subs, id)].open;
    }
  }

  /** A tree is known by its open rows. */
  lemma {:induction false} SameOpenSameTree(contents: Contents, at: Names, a: Node, b: Node)
    requires Distinct(contents) && Grown(contents, at, a) && Grown(contents, at, b)
    requires a.id == b.id && a.folder == b.folder && forall p :: IsOpen(a, p) <==> IsOpen(b, p)
    ensures a == b
    decreases a
  {
    hide Distinct;
    assert IsOpen(a, []) <==> IsOpen(b, []);
    if a.open {
      forall i | 0 <= i < |a.subs|
        ensures a.subs[i] == b.subs[i]
      {
        DistinctFind(contents, at, a, i);
        DistinctFind(contents, at, b, i);
        forall p
          ensures IsOpen(a.subs[i], p) <==> IsOpen(b.subs[i], p)
        {
          var q := [a.subs[i].id] + p;
          assert q[1..] == p;
          assert IsOpen(a, q) <==> IsOpen(b, q);
        }
        SameOpenSameTree(contents, at + [a.subs[i].id], a.subs[i], b.subs[i]);
      }
      assert a.subs == b.subs;
    }
  }

  /** The row of that name is shown. */
  predicate Shown(n: Node, p: Names)
    decreases |p|
  {
    |p| > 0 ==> Find(n.subs, p[0]) < |n.subs| && Shown(n.subs[Find(n.subs, p[0])], p[1..])
  }

  function Row(n: Node, p: Names): Node
    requires Shown(n, p)
    decreases |p|
  {
    if |p| == 0 then n else Row(n.subs[Find(n.subs, p[0])], p[1..])
  }

  /** Going to a row that is shown opens that row if it is a closed folder, and changes nothing else. */
  lemma {:induction false} ExpandShown(contents: Contents, at: Names, n: Node, p: Names)
    requires Grown(contents, at, n) && Shown(n, p)
    ensures Expand(contents, at, n, p) == n <==> Row(n, p).open || !Row(n, p).folder
    decreases |p|
  {
    if |p| > 0 {
      var i := Find(n.subs, p[0]);
      ExpandShown(contents, at + [p[0]], n.subs[i], p[1..]);
      assert n.subs[i := n.subs[i]] == n.subs;
    }
  }

  /** Everything that is open after some of the noted paths. */
  predicate Opened(list: seq<Names>, k: nat, p: Names)
    requires k <= |list|
  {
    exists j :: 0 <= j < k && p <= list[j]
  }

  /** One more path opened by name. */
  lemma OneMoreOpened(contents: Contents, n: Node, list: seq<Names>, k: nat)
    requires Distinct(contents) && Grown(contents, [], n) && k < |list| && Possible(contents, [], n.folder, list[k])
    requires forall p :: IsOpen(n, p) <==> Opened(list, k, p)
    ensures var e := Expand(contents, [], n, list[k]);
            Grown(contents, [], e) && e.id == n.id && e.folder == n.folder && forall p :: IsOpen(e, p) <==> Opened(list, k + 1, p)
  {
    hide Distinct, Grown, IsOpen, Possible, Expand;
    ExpandOpens(contents, [], n, list[k]);
  }

  /** The deepest rows and the rows above them are all the open rows. */
  lemma OpenExactlyAboveDeepest(contents: Contents, root: Node, list: seq<Names>)
    requires Distinct(contents) && Grown(contents, [], root) && root.open && forall p :: p in list <==> Deepest(root, p)
    ensures forall p :: IsOpen(root, p) <==> Opened(list, |list|, p)
    ensures forall k :: 0 <= k < |list| ==> Possible(contents, [], root.folder, list[k])
  {
    hide Distinct, Grown, IsOpen, Deepest, Possible;
    forall p
      ensures IsOpen(root, p) <==> Opened(list, |list|, p)
    {
      if IsOpen(root, p) {
        var d := SomeDeepest(contents, [], root, p);
        var j :| 0 <= j < |list| && list[j] == d;
      }
      if Opened(list, |list|, p) {
        var j :| 0 <= j < |list| && p <= list[j];
        DeepestIsOpen(contents, [], root, list[j], p);
      }
    }
    forall k | 0 <= k < |list|
      ensures Possible(contents, [], root.folder, list[k])
    {
      DeepestIsOpen(contents, [], root, list[k], list[k]);
      OpenIsPossible(contents, [], root, list[k]);
    }
  }

  /** The paths noted below a folder can be opened again. */
  lemma NotedArePossible(contents: Contents, root: Node, list: seq<Names>)
    requires Distinct(contents) && Grown(contents, [], root) && root.folder && forall p :: p in list <==> Deepest(root, p)
    ensures forall k :: 0 <= k < |list| ==> Possible(contents, [], true, list[k])
    ensures !root.open ==> [] in list && forall p :: p in list ==> p == []
  {
    hide Distinct;
    if root.open {
      OpenExactlyAboveDeepest(contents, root, list);
    } else {
      forall k | 0 <= k < |list|
        ensures list[k] == []
      {
        assert Deepest(root, list[k]);
      }
      assert Deepest(root, []);
    }
  }

  lemma CollapsedShowsNothing(contents: Contents, root: Node, list: seq<Names>)
    requires Grown(contents, [], root)
    ensures var r := SetOpen(contents, [], root, false);
            Grown(contents, [], r) && r.id == root.id && r.folder == root.folder
            && forall p :: IsOpen(r, p) <==> Opened(list, 0, p)
  {
    var r := SetOpen(contents, [], root, false);
    forall p
      ensures !IsOpen(r, p)
    {
      ClosedShowsNothing(r, p);
    }
  }

  /** update_tree up to the cursor. What was open is open again, exactly, unless the root was a closed
      folder: the one path noted is then the empty one, which opens it. */
  method Redraw(contents: Contents, root: Node) returns (r: Node)
    requires Distinct(contents) && Grown(contents, [], root)
    ensures r == root <==> root.open || !root.folder
    ensures !root.open && root.folder ==> r == SetOpen(contents, [], root, true)
  {
    hide Distinct, IsOpen, Deepest, Possible, Expand, Opened, OpensBelowRow;
    var list := Expanded(root, contents);
    r := SetOpen(contents, [], root, false);
    CollapsedShowsNothing(contents, root, list);
    if root.folder {
      NotedArePossible(contents, root, list);
    }
    for k := 0 to |list|
      invariant Grown(contents, [], r) && r.id == root.id && r.folder == root.folder
      invariant root.folder ==> forall p :: IsOpen(r, p) <==> Opened(list, k, p)
      invariant !root.folder ==> r == root
    {
      if root.folder {
        OneMoreOpened(contents, r, list, k);
      } else {
        NoFolderStays(contents, r, list[k]);
      }
      r := Expand(contents, [], r, list[k]);
    }
    if root.open {
      OpenExactlyAboveDeepest(contents, root, list);
      SameOpenSameTree(contents, [], r, root);
    } else if root.folder {
      OnlyRootOpened(contents, root, r, list);
    }
  }

  lemma NoFolderStays(contents: Contents, n: Node, dirs: Names)
    requires Grown(contents, [], n) && !n.folder
    ensures Expand(contents, [], n, dirs) == n
  {
  }

  lemma OnlyRootOpened(contents: Contents, root: Node, r: Node, list: seq<Names>)
    requires Distinct(contents) && Grown(contents, [], root) && Grown(contents, [], r) && r.id == root.id && r.folder == root.folder
    requires !root.open && root.folder && [] in list && forall p :: p in list ==> p == []
    requires forall p :: IsOpen(r, p) <==> Opened(list, |list|, p)
    ensures r == SetOpen(contents, [], root, true) != root
  {
    hide Distinct, Grown, IsOpen;
    var m := SetOpen(contents, [], root, true);
    SetOpenGrown(contents, [], root, true);
    forall p
      ensures IsOpen(m, p) <==> IsOpen(r, p)
    {
      OpenedSubs(contents, [], root, p);
      NothingOpenBelow(contents, root, p);
      OnlyEmptyNoted(list, p);
    }
    SameOpenSameTree(contents, [], r, m);
  }

  lemma OnlyEmptyNoted(list: seq<Names>, p: Names)
    requires [] in list && forall q :: q in list ==> q == []
    ensures Opened(list, |list|, p) <==> p == []
  {
    var k :| 0 <= k < |list| && list[k] == [];
    forall j | 0 <= j < |list|
      ensures list[j] == []
    {
      assert list[j] in list;
    }
  }

  lemma NothingOpenBelow(contents: Contents, n: Node, p: Names)
    requires Grown(contents, [], n) && !n.open
    ensures !IsOpen(n, p)
  {
  }

  /** Every row above a row that is shown is open, and leads to it. */
  lemma {:induction false} ShownIsPossible(contents: Contents, at: Names, n: Node, p: Names)
    requires Distinct(contents) && Grown(contents, at, n) && Shown(n, p)
    ensures forall q :: q < p ==> IsOpen(n, q)
    ensures Row(n, p).folder ==> Possible(contents, at, n.folder, p)
    decreases |p|
  {
    hide Distinct;
    if |p| > 0 {
      var i := Find(n.subs, p[0]);
      ChildGrown(contents, at, n, i);
      ShownIsPossible(contents, at + [p[0]], n.subs[i], p[1..]);
      SameFind(contents, at, n, p[0]);
      forall q | q < p
        ensures IsOpen(n, q)
      {
        if |q| > 0 {
          assert q[0] == p[0] && q[1..] < p[1..];
        }
      }
    }
  }

  /** Expanding the path of a row that is shown opens that row, if it is a folder, and no other. */
  lemma ExpandOpensOne(contents: Contents, n: Node, cursor: Names)
    requires Distinct(contents) && Grown(contents, [], n) && Shown(n, cursor)
    ensures var e := Expand(contents, [], n, cursor);
            && Grown(contents, [], e)
            && forall p :: IsOpen(e, p) <==> IsOpen(n, p) || (Row(n, cursor).folder && p == cursor)
  {
    hide Distinct, Grown, IsOpen, Possible, Expand, Shown, Row;
    ShownIsPossible(contents, [], n, cursor);
    if Row(n, cursor).folder {
      ExpandOpens(contents, [], n, cursor);
      forall p
        ensures p <= cursor ==> p == cursor || IsOpen(n, p)
      {
        assert p <= cursor && p != cursor ==> p < cursor;
      }
    } else {
      ExpandShown(contents, [], n, cursor);
    }
  }

  lemma ClosedShowsItself(contents: Contents, root: Node, cursor: Names)
    requires Grown(contents, [], root) && Shown(root, cursor) && !root.open
    ensures cursor == [] && Row(root, cursor) == root && forall p :: !IsOpen(root, p)
  {
  }

  lemma OpenRootShows(contents: Contents, root: Node, p: Names)
    requires Grown(contents, [], root) && !root.open && root.folder
    ensures IsOpen(SetOpen(contents, [], root, true), p) <==> p == []
  {
    OpenedSubs(contents, [], root, p);
    NothingOpenBelow(contents, root, p);
  }

  /** The whole of update_tree, which then goes to the row of the cursor by expanding it too: the tree is
      restored if and only if that row was open or is no folder; otherwise that row alone is open besides. */
  method UpdateTree(contents: Contents, root: Node, cursor: Names) returns (r: Node)
    requires Distinct(contents) && Grown(contents, [], root) && Shown(root, cursor)
    ensures r == root <==> Row(root, cursor).open || !Row(root, cursor).folder
    ensures !root.open && root.folder ==> r == SetOpen(contents, [], root, true)
    ensures Grown(contents, [], r)
    ensures forall p :: IsOpen(r, p) <==> IsOpen(root, p) || (Row(root, cursor).folder && p == cursor)
  {
    hide Distinct, Expand, Grown, IsOpen, Shown, Row;
    r := Redraw(contents, root);
    if root.open || !root.folder {
      ExpandShown(contents, [], r, cursor);
      ExpandOpensOne(contents, r, cursor);
    } else {
      ClosedShowsItself(contents, root, cursor);
      SetOpenGrown(contents, [], root, true);
      OpenRootStays(contents, r);
      forall p
        ensures IsOpen(r, p) <==> p == []
      {
        OpenRootShows(contents, root, p);
      }
    }
    r := Expand(contents, [], r, cursor);
  }

  lemma OpenRootStays(contents: Contents, n: Node)
    requires n.open
    ensures Expand(contents, [], n, []) == n
  {
  }
}
