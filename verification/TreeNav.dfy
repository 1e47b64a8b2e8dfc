/** The configurator's tree browser: a node is found by the child indices that lead to it from the root.
    Moving up and down the visible rows, against the preorder number of each node. */
module TreeNav {

  /** A row of the tree. Only an open folder shows rows below it. */
  datatype Node = Node(id: string, folder: bool, open: bool, subs: seq<Node>)

  type Path = seq<nat>

  predicate In(root: Node, p: Path)
    decreases |p|
  {
    |p| > 0 ==> p[0] < |root.subs| && In(root.subs[p[0]], p[1..])
  }

  function Sub(root: Node, p: Path): Node
    requires In(root, p)
    decreases |p|
  {
    if |p| == 0 then root else Sub(root.subs[p[0]], p[1..])
  }

  /** All rows of the tree. */
  function Size(n: Node): (s: nat)
    ensures s > 0
    decreases n, |n.subs| + 1
  {
    1 + Sizes(n, |n.subs|)
  }

  /** The rows of the first k children. */
  function Sizes(n: Node, k: nat): nat
    requires k <= |n.subs|
    decreases n, k
  {
    if k == 0 then 0 else Sizes(n, k - 1) + Size(n.subs[k - 1])
  }

  /** How many rows are above the one at p. */
  function Number(root: Node, p: Path): nat
    requires In(root, p)
    decreases |p|
  {
    if |p| == 0 then 0 else 1 + Sizes(root, p[0]) + Number(root.subs[p[0]], p[1..])
  }

  // ----- numbers identify rows -----

  lemma {:induction false} SizesGrow(n: Node, i: nat, k: nat)
    requires i < k <= |n.subs|
    ensures Sizes(n, i) + Size(n.subs[i]) <= Sizes(n, k)
    decreases k
  {
    hide Size;
    if i < k - 1 {
      SizesGrow(n, i, k - 1);
    }
  }

  lemma {:induction false} NumberBelowSize(root: Node, p: Path)
    requires In(root, p)
    ensures Number(root, p) < Size(root)
    decreases |p|
  {
    if |p| > 0 {
      NumberBelowSize(root.subs[p[0]], p[1..]);
      SizesGrow(root, p[0], |root.subs|);
    }
  }

  /** No two rows have the same number. */
  lemma {:induction false} NumberIdentifies(root: Node, p: Path, q: Path)
    requires In(root, p) && In(root, q) && Number(root, p) == Number(root, q)
    ensures p == q
    decreases |p|
  {
    if |p| > 0 && |q| > 0 {
      NumberBelowSize(root.subs[p[0]], p[1..]);
      NumberBelowSize(root.subs[q[0]], q[1..]);
      if p[0] < q[0] {
        SizesGrow(root, p[0], q[0]);
      } else if q[0] < p[0] {
        SizesGrow(root, q[0], p[0]);
      } else {
        NumberIdentifies(root.subs[p[0]], p[1..], q[1..]);
      }
      assert p == [p[0]] + p[1..] && q == [q[0]] + q[1..];
    }
  }

  /** Every number below the size is some row's. */
  lemma {:induction false} EveryNumberIsTaken(root: Node, k: nat) returns (p: Path)
    requires k < Size(root)
    ensures In(root, p) && Number(root, p) == k
    decreases root
  {
    if k == 0 {
      p := [];
    } else {
      var i := ChildWith(root, k - 1, |root.subs|);
      var rest := EveryNumberIsTaken(root.subs[i], k - 1 - Sizes(root, i));
      p := [i] + rest;
      assert p[1..] == rest;
    }
  }

  lemma {:induction false} ChildWith(root: Node, k: nat, n: nat) returns (i: nat)
    requires n <= |root.subs| && k < Sizes(root, n)
    ensures i < n && Sizes(root, i) <= k < Sizes(root, i) + Size(root.subs[i])
    decreases n
  {
    hide Size;
    if Sizes(root, n - 1) <= k {
      i := n - 1;
    } else {
      i := ChildWith(root, k, n - 1);
    }
  }

  // ----- one step down the tree -----

  lemma {:induction false} ChildOf(root: Node, p: Path, i: nat)
    requires In(root, p)
    ensures In(root, p + [i]) <==> i < |Sub(root, p).subs|
    ensures i < |Sub(root, p).subs| ==>
              Sub(root, p + [i]) == Sub(root, p).subs[i] && Number(root, p + [i]) == Number(root, p) + 1 + Sizes(Sub(root, p), i)
    decreases |p|
  {
    hide Sizes;
    if |p| > 0 {
      assert (p + [i])[0] == p[0] && (p + [i])[1..] == p[1..] + [i];
      ChildOf(root.subs[p[0]], p[1..], i);
    } else {
      assert p + [i] == [i] && [i][1..] == [];
      NoStep(root, i);
    }
  }

  lemma NoStep(root: Node, i: nat)
    ensures In(root, [i]) <==> i < |root.subs|
    ensures In(root, []) && Sub(root, []) == root && Number(root, []) == 0
    ensures i < |root.subs| ==> Sub(root, [i]) == root.subs[i] && Number(root, [i]) == 1 + Sizes(root, i)
  {
    hide Sizes;
    assert [i][1..] == [];
  }

  lemma {:induction false} ParentIn(root: Node, p: Path)
    requires In(root, p) && |p| > 0
    ensures In(root, p[..|p| - 1]) && p == p[..|p| - 1] + [p[|p| - 1]]
    decreases |p|
  {
    if |p| > 1 {
      ParentIn(root.subs[p[0]], p[1..]);
      assert p[..|p| - 1][1..] == p[1..][..|p| - 2];
    }
  }

  // ----- moving -----

  /** Node.next: the first row below, else the next sibling of the nearest ancestor that has one. */
  method Next(root: Node, at: Path) returns (r: Path)
    requires In(root, at)
    ensures In(root, r)
    ensures Number(root, at) + 1 < Size(root) ==> Number(root, r) == Number(root, at) + 1
    ensures Number(root, at) + 1 == Size(root) ==> r == at
  {
    hide In, Sub, Number, Size, Sizes;
    NumberBelowSize(root, at);
    SizeOf(Sub(root, at));
    if |Sub(root, at).subs| > 0 {
      ChildOf(root, at, 0);
      NumberBelowSize(root, at + [0]);
      return at + [0];
    }
    var n := at;
    while |n| > 0
      invariant In(root, n) && Number(root, n) + Size(Sub(root, n)) == Number(root, at) + 1
      decreases |n|
    {
      ParentIn(root, n);
      var parent: Path, i: nat := n[..|n| - 1], n[|n| - 1] + 1;
      ChildOf(root, parent, i - 1);
      ChildOf(root, parent, i);
      SizeUpTo(Sub(root, parent), i);
      if i < |Sub(root, parent).subs| {
        NumberBelowSize(root, parent + [i]);
        return parent + [i];
      }
      n := parent;
    }
    NoStep(root, 0);
    assert n == [];
    return at;
  }

  lemma SizeOf(n: Node)
    ensures Size(n) == 1 + Sizes(n, |n.subs|) && Sizes(n, 0) == 0
  {
  }

  lemma SizeUpTo(n: Node, i: nat)
    requires 0 < i <= |n.subs|
    ensures Sizes(n, i) == Sizes(n, i - 1) + Size(n.subs[i - 1])
    ensures i == |n.subs| ==> Size(n) == 1 + Sizes(n, i)
  {
  }

  /** Node.prev: the last row below the previous sibling, else the parent. */
  method Prev(root: Node, at: Path) returns (r: Path)
    requires In(root, at)
    ensures In(root, r)
    ensures Number(root, at) > 0 ==> Number(root, r) == Number(root, at) - 1
    ensures Number(root, at) == 0 ==> r == at
  {
    hide In, Sub, Number, Size, Sizes;
    NoStep(root, 0);
    if |at| == 0 {
      return at;
    }
    ParentIn(root, at);
    var parent: Path, i: nat := at[..|at| - 1], at[|at| - 1];
    ChildOf(root, parent, i);
    SizeOf(Sub(root, parent));
    if i == 0 {
      return parent;
    }
    r := parent + [i - 1];
    ChildOf(root, parent, i - 1);
    SizeUpTo(Sub(root, parent), i);
    while |Sub(root, r).subs| > 0
      invariant In(root, r) && Number(root, r) + Size(Sub(root, r)) == Number(root, at)
      decreases Sub(root, r)
    {
      var last := |Sub(root, r).subs| - 1;
      ChildOf(root, r, last);
      SizeUpTo(Sub(root, r), last + 1);
      r := r + [last];
    }
    SizeOf(Sub(root, r));
  }

  /** Up again is where one was, except at the last row, where down leads nowhere. */
  method DownAndUp(root: Node, at: Path) returns (below: Path, back: Path)
    requires In(root, at)
    ensures In(root, below)
    ensures Number(root, at) + 1 < Size(root) ==> below != at && back == at
    ensures Number(root, at) + 1 == Size(root) ==> below == at
  {
    hide In, Number, Size;
    NumberBelowSize(root, at);
    below := Next(root, at);
    back := Prev(root, below);
    if Number(root, at) + 1 < Size(root) {
      NumberIdentifies(root, back, at);
    }
  }

  /** From the root, going down again and again visits every row once, in order of number. */
  method WalkDown(root: Node) returns (rows: seq<Path>)
    ensures |rows| == Size(root)
    ensures forall k :: 0 <= k < |rows| ==> In(root, rows[k]) && Number(root, rows[k]) == k
    ensures forall p :: In(root, p) ==> p in rows
  {
    hide In, Number, Size;
    NoStep(root, 0);
    var at: Path := [];
    rows := [at];
    NumberBelowSize(root, at);
    var next := Next(root, at);
    while next != at
      invariant |rows| > 0 && rows[|rows| - 1] == at && In(root, at) && In(root, next)
      invariant forall k :: 0 <= k < |rows| ==> In(root, rows[k]) && Number(root, rows[k]) == k
      invariant |rows| < Size(root) ==> Number(root, next) == |rows|
      invariant |rows| <= Size(root) && (|rows| == Size(root) ==> next == at)
      decreases Size(root) - |rows|
    {
      at := next;
      rows := rows + [at];
      next := Next(root, at);
    }
    forall p | In(root, p)
      ensures p in rows
    {
      NumberBelowSize(root, p);
      NumberIdentifies(root, p, rows[Number(root, p)]);
    }
  }
}
