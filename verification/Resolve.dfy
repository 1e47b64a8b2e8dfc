/** The module dependency resolver: a depth-first walk over the dependency list that pushes each
    module, and the path of its file, once its dependencies have been pushed. */
module Resolve {

  datatype Dep = Dep(name: string, needs: seq<string>)

  // ----- names and paths -----

  /** Index of the last occurrence of c among the first n characters, or -1. */
  function LastBefore(s: string, c: char, n: nat): (i: int)
    requires n <= |s|
    ensures -1 <= i < n
  {
    if n == 0 then -1
    else if s[n - 1] == c then n - 1
    else LastBefore(s, c, n - 1)
  }

  function LastIndex(s: string, c: char): (i: int)
    ensures -1 <= i < |s|
  {
    LastBefore(s, c, |s|)
  }

  lemma {:induction false} LastBeforeIs(s: string, c: char, n: nat)
    requires n <= |s|
    ensures LastBefore(s, c, n) >= 0 ==> s[LastBefore(s, c, n)] == c
    ensures forall k :: LastBefore(s, c, n) < k < n ==> s[k] != c
  {
    if n > 0 {
      LastBeforeIs(s, c, n - 1);
    }
  }

  /** The text from the last dot on is ".mod". */
  predicate HasModSuffix(s: string) {
    var i := LastIndex(s, '.');
    i >= 0 && s[i..] == ".mod"
  }

  function BaseName(s: string): string { s[LastIndex(s, '/') + 1..] }

  function ModuleName(s: string): string {
    var base := BaseName(s);
    if HasModSuffix(base) then base[..|base| - 4] else base
  }

  function ModulePath(dir: string, s: string): string {
    var file := if HasModSuffix(s) then s else s + ".mod";
    if '/' in s then file else dir + "/" + file
  }

  lemma LastIndexIs(s: string, c: char, i: int)
    requires -1 <= i < |s|
    requires i >= 0 ==> s[i] == c
    requires forall k :: i < k < |s| ==> s[k] != c
    ensures LastIndex(s, c) == i
  {
    LastBeforeIs(s, c, |s|);
  }

  /** A string has the suffix exactly when it ends in ".mod". */
  lemma SuffixIsEnding(s: string)
    ensures HasModSuffix(s) <==> |s| >= 4 && s[|s| - 4..] == ".mod"
  {
    var i := LastIndex(s, '.');
    if |s| >= 4 && s[|s| - 4..] == ".mod" {
      assert s[|s| - 4] == s[|s| - 4..][0] && s[|s| - 3] == s[|s| - 4..][1];
      assert s[|s| - 2] == s[|s| - 4..][2] && s[|s| - 1] == s[|s| - 4..][3];
      LastIndexIs(s, '.', |s| - 4);
    }
  }

  /** Stripping the suffix of a base name that carries it, or not, gives the bare name. */
  lemma NameOfFile(base: string, prefix: string)
    requires '/' !in base && (prefix == "" || prefix[|prefix| - 1] == '/')
    ensures ModuleName(prefix + base) == if HasModSuffix(base) then base[..|base| - 4] else base
  {
    var s := prefix + base;
    LastIndexIs(s, '/', |prefix| - 1);
    assert s[|prefix|..] == base;
  }

  /** A string without the suffix has a base name without it, and the other way round. */
  lemma SuffixSurvives(prefix: string, base: string)
    requires prefix == "" || prefix[|prefix| - 1] == '/'
    ensures HasModSuffix(prefix + base) <==> HasModSuffix(base)
  {
    var s := prefix + base;
    SuffixIsEnding(s);
    SuffixIsEnding(base);
    if |base| >= 4 {
      assert s[|s| - 4..] == base[|base| - 4..];
    } else if |s| >= 4 {
      assert s[|s| - 4..][3 - |base|] == '/';
      assert forall k :: 0 <= k < 4 ==> ".mod"[k] != '/';
    }
  }

  /** Appending the suffix to a base name and stripping it again. */
  lemma SuffixAdded(base: string)
    ensures HasModSuffix(base + ".mod") && (base + ".mod")[..|base| + 4 - 4] == base
    ensures '/' !in base ==> '/' !in base + ".mod"
  {
    SuffixIsEnding(base + ".mod");
    assert (base + ".mod")[|base|..] == ".mod";
    assert forall c :: c in base + ".mod" ==> c in base || c in ".mod";
  }

  lemma FileKeepsName(prefix: string, base: string, s: string)
    requires '/' !in base && (prefix == "" || prefix[|prefix| - 1] == '/')
    requires s == prefix + base
    ensures ModuleName(if HasModSuffix(s) then s else s + ".mod") == ModuleName(s)
  {
    hide HasModSuffix, ModuleName;
    SuffixSurvives(prefix, base);
    NameOfFile(base, prefix);
    SuffixAdded(base);
    NameOfFile(base + ".mod", prefix);
    assert s + ".mod" == prefix + (base + ".mod");
  }

  /** The path of a module leads back to its name, for every way of writing the module. */
  lemma PathKeepsName(dir: string, s: string)
    ensures ModuleName(ModulePath(dir, s)) == ModuleName(s)
  {
    hide HasModSuffix, ModuleName;
    if '/' in s {
      LastBeforeIs(s, '/', |s|);
      var k := LastIndex(s, '/') + 1;
      FileKeepsName(s[..k], s[k..], s);
    } else {
      var file := if HasModSuffix(s) then s else s + ".mod";
      SuffixAdded(s);
      NameOfFile(file, dir + "/");
      NameOfFile(file, "");
      FileKeepsName("", s, s);
      assert "" + file == file && "" + s == s;
    }
  }

  // ----- the dependency graph -----

  /** The list of the first entry with this name; a module without entry needs nothing. */
  function Needs(deps: seq<Dep>, name: string): seq<string> {
    if |deps| == 0 then []
    else if deps[0].name == name then deps[0].needs
    else Needs(deps[1..], name)
  }

  predicate Edge(deps: seq<Dep>, a: string, b: string) {
    exists i :: 0 <= i < |Needs(deps, a)| && ModuleName(Needs(deps, a)[i]) == b
  }

  predicate IsPath(deps: seq<Dep>, p: seq<string>) {
    |p| > 0 && forall i :: 0 <= i < |p| - 1 ==> Edge(deps, p[i], p[i + 1])
  }

  ghost predicate Reachable(deps: seq<Dep>, a: string, b: string) {
    exists p :: IsPath(deps, p) && p[0] == a && p[|p| - 1] == b
  }

  /** Ranks fall along every edge, so there is no cycle. */
  ghost predicate Acyclic(deps: seq<Dep>, rank: string -> nat) {
    forall a, b :: Edge(deps, a, b) ==> rank(b) < rank(a)
  }

  lemma ReachableSelf(deps: seq<Dep>, a: string)
    ensures Reachable(deps, a, a)
  {
    assert IsPath(deps, [a]);
  }

  lemma ReachableStep(deps: seq<Dep>, a: string, c: string, b: string)
    requires Edge(deps, a, c) && Reachable(deps, c, b)
    ensures Reachable(deps, a, b)
  {
    var p :| IsPath(deps, p) && p[0] == c && p[|p| - 1] == b;
    assert IsPath(deps, [a] + p);
  }

  // ----- the lists -----

  class PathNode {
    var name: string
    var next: PathNode?

    constructor (name: string, next: PathNode?)
      ensures this.name == name && this.next == next
    {
      this.name, this.next := name, next;
    }
  }

  /** head is the first of exactly these nodes, in this order. */
  ghost predicate IsList(head: PathNode?, nodes: seq<PathNode>)
    reads nodes
  {
    if |nodes| == 0 then head == null
    else head == nodes[0] && head !in nodes[1..] && IsList(head.next, nodes[1..])
  }

  /** The path get_module_path makes for some way of writing the module. */
  ghost predicate IsPathOf(dir: string, path: string, modName: string) {
    exists s :: path == ModulePath(dir, s) && ModuleName(s) == modName
  }

  ghost predicate Distinct(s: seq<string>) { forall i, j :: 0 <= i < j < |s| ==> s[i] != s[j] }

  /** Newest first: every dependency of a listed module is further down the list. */
  ghost predicate DependenciesFirst(deps: seq<Dep>, mods: seq<string>) {
    forall i, b :: 0 <= i < |mods| && Edge(deps, mods[i], b) ==> b in mods[i + 1..]
  }

  class Resolver {
    const dir: string
    const deps: seq<Dep>
    ghost const rank: string -> nat
    var mods: seq<string>
    var pathHead: PathNode?
    ghost var nodes: seq<PathNode>

    constructor (dir: string, deps: seq<Dep>, ghost rank: string -> nat)
      requires Acyclic(deps, rank)
      ensures Valid() && mods == [] && nodes == [] && this.dir == dir && this.deps == deps && this.rank == rank
    {
      this.dir, this.deps, this.rank := dir, deps, rank;
      mods, pathHead, nodes := [], null, [];
    }

    /** The path list runs parallel to the module list; no module is listed twice or before its dependencies. */
    ghost predicate Valid()
      reads this, nodes
    {
      && Acyclic(deps, rank)
      && IsList(pathHead, nodes)
      && |nodes| == |mods|
      && (forall i :: 0 <= i < |mods| ==> IsPathOf(dir, nodes[i].name, mods[i]))
      && Distinct(mods)
      && DependenciesFirst(deps, mods)
    }

    /** Put a module whose dependencies are all listed in front of both lists. */
    method Push(modName: string, path: string)
      requires Valid() && modName !in mods && IsPathOf(dir, path, modName)
      requires forall b :: Edge(deps, modName, b) ==> b in mods
      modifies this
      ensures Valid() && mods == [modName] + old(mods)
      ensures forall i :: 0 <= i < |nodes| ==> nodes[i] in old(nodes) || fresh(nodes[i])
    {
      hide IsPathOf, DependenciesFirst, Distinct;
      var node := new PathNode(path, pathHead);
      assert node !in nodes;
      nodes := [node] + nodes;
      assert nodes[1..] == old(nodes);
      pathHead := node;
      mods := [modName] + mods;
      assert forall i :: 1 <= i < |nodes| ==> nodes[i] == old(nodes)[i - 1] && mods[i] == old(mods)[i - 1];
      PushKeepsOrder(deps, old(mods), modName);
    }

    /** One dependency of modName, on the way to listing them all. */
    method AddNeed(modName: string, need: string, ghost before: seq<string>)
      requires Valid() && Edge(deps, modName, ModuleName(need))
      requires Grown(deps, rank, before, mods, modName, rank(modName))
      modifies this
      ensures Valid() && ModuleName(need) in mods
      ensures Grown(deps, rank, before, mods, modName, rank(modName))
      ensures forall m :: m in old(mods) ==> m in mods
      ensures forall i :: 0 <= i < |nodes| ==> nodes[i] in old(nodes) || fresh(nodes[i])
      decreases rank(modName), 0
    {
      assert Acyclic(deps, rank);
      hide Valid, Grown, ModuleName;
      AddModule(need);
      GrownFurther(deps, rank, before, old(mods), mods, modName, ModuleName(need));
    }

    /** The inner loop of add_module: everything the module needs. */
    method AddNeeds(modName: string)
      requires Valid()
      modifies this
      ensures Valid()
      ensures Grown(deps, rank, old(mods), mods, modName, rank(modName))
      ensures forall b :: Edge(deps, modName, b) ==> b in mods
      ensures forall i :: 0 <= i < |nodes| ==> nodes[i] in old(nodes) || fresh(nodes[i])
      decreases rank(modName), 1
    {
      hide Valid, Grown, ModuleName;
      var needs := Needs(deps, modName);
      NothingGrown(deps, rank, mods, modName);
      for i := 0 to |needs|
        invariant Valid()
        invariant Grown(deps, rank, old(mods), mods, modName, rank(modName))
        invariant forall k :: 0 <= k < i ==> ModuleName(needs[k]) in mods
        invariant forall j :: 0 <= j < |nodes| ==> nodes[j] in old(nodes) || fresh(nodes[j])
      {
        AddNeed(modName, needs[i], old(mods));
      }
    }

    /** add_module: dependencies first, then the module itself, unless it is listed already. */
    method AddModule(name: string)
      requires Valid()
      modifies this
      ensures Valid() && ModuleName(name) in mods
      ensures Grown(deps, rank, old(mods), mods, ModuleName(name), rank(ModuleName(name)) + 1)
      ensures forall i :: 0 <= i < |nodes| ==> nodes[i] in old(nodes) || fresh(nodes[i])
      decreases rank(ModuleName(name)), 2
    {
      hide Valid, Grown, ModuleName, ModulePath;
      var modName := ModuleName(name);
      NothingGrown(deps, rank, mods, modName);
      if modName in mods {
        return;
      }
      AddNeeds(modName);
      NotAmongNew(deps, rank, old(mods), mods, modName);
      assert IsPathOf(dir, ModulePath(dir, name), modName);
      GrownByItself(deps, rank, old(mods), mods, modName);
      Push(modName, ModulePath(dir, name));
    }

    /** The loop over the requested modules. */
    method AddAll(requests: seq<string>)
      requires Valid() && mods == [] && nodes == []
      modifies this
      ensures Valid() && CoversFirst(deps, requests, |requests|, mods)
      ensures forall i :: 0 <= i < |nodes| ==> fresh(nodes[i])
    {
      hide ModuleName, CoversFirst, Valid, Grown;
      NothingCovered(deps, requests);
      for k := 0 to |requests|
        invariant Valid() && CoversFirst(deps, requests, k, mods)
        invariant forall i :: 0 <= i < |nodes| ==> fresh(nodes[i])
      {
        ghost var before := mods;
        AddModule(requests[k]);
        CoversMore(deps, rank, requests, k, before, mods);
      }
    }
  }

  /** The list grew in front, only by modules reachable from root and of rank below the bound. */
  ghost predicate Grown(deps: seq<Dep>, rank: string -> nat, before: seq<string>, after: seq<string>, root: string, bound: nat) {
    && |before| <= |after|
    && after[|after| - |before|..] == before
    && forall m :: m in after[..|after| - |before|] ==> Reachable(deps, root, m) && rank(m) < bound
  }

  lemma NothingGrown(deps: seq<Dep>, rank: string -> nat, mods: seq<string>, root: string)
    ensures Grown(deps, rank, mods, mods, root, rank(root)) && Grown(deps, rank, mods, mods, root, rank(root) + 1)
  {
  }

  lemma GrownByItself(deps: seq<Dep>, rank: string -> nat, before: seq<string>, after: seq<string>, modName: string)
    requires Grown(deps, rank, before, after, modName, rank(modName))
    ensures Grown(deps, rank, before, [modName] + after, modName, rank(modName) + 1)
  {
    var more, n := [modName] + after, |after| - |before|;
    assert more[n + 1..] == after[n..] && more[..n + 1] == [modName] + after[..n];
    ReachableSelf(deps, modName);
  }

  lemma GrownFurther(deps: seq<Dep>, rank: string -> nat, a: seq<string>, b: seq<string>, c: seq<string>, root: string, needed: string)
    requires Grown(deps, rank, a, b, root, rank(root)) && Grown(deps, rank, b, c, needed, rank(needed) + 1)
    requires Acyclic(deps, rank) && Edge(deps, root, needed)
    ensures Grown(deps, rank, a, c, root, rank(root))
    ensures forall m :: m in b ==> m in c
  {
    var n, k := |c| - |b|, |c| - |a|;
    assert c[k..] == c[n..][k - n..] == a;
    forall m | m in c[..k]
      ensures Reachable(deps, root, m) && rank(m) < rank(root)
    {
      if m in c[..n] {
        ReachableStep(deps, root, needed, m);
      } else {
        var i :| 0 <= i < k && c[i] == m;
        assert b[..|b| - |a|][i - n] == m;
      }
    }
    forall m | m in b
      ensures m in c
    {
      var i :| 0 <= i < |b| && b[i] == m;
      assert c[n + i] == m;
    }
  }

  lemma NotAmongNew(deps: seq<Dep>, rank: string -> nat, before: seq<string>, after: seq<string>, modName: string)
    requires Grown(deps, rank, before, after, modName, rank(modName)) && modName !in before
    ensures modName !in after
  {
    var n := |after| - |before|;
    assert after == after[..n] + before;
  }

  lemma PushKeepsOrder(deps: seq<Dep>, mods: seq<string>, modName: string)
    requires DependenciesFirst(deps, mods) && Distinct(mods) && modName !in mods
    requires forall b :: Edge(deps, modName, b) ==> b in mods
    ensures DependenciesFirst(deps, [modName] + mods) && Distinct([modName] + mods)
  {
    var more := [modName] + mods;
    forall i, b | 0 <= i < |more| && Edge(deps, more[i], b)
      ensures b in more[i + 1..]
    {
      if i == 0 {
        assert more[1..] == mods;
      } else {
        assert more[i + 1..] == mods[i..] && more[i] == mods[i - 1];
      }
    }
  }

  // ----- reversing the path list in place -----

  function Reversed<T>(s: seq<T>): (r: seq<T>)
    ensures |r| == |s| && forall i :: 0 <= i < |s| ==> r[i] == s[|s| - 1 - i]
  {
    if |s| == 0 then [] else Reversed(s[1..]) + [s[0]]
  }

  method ReversePaths(head: PathNode?, ghost nodes: seq<PathNode>) returns (first: PathNode?, ghost reversed: seq<PathNode>)
    requires IsList(head, nodes)
    modifies nodes
    ensures IsList(first, reversed) && reversed == Reversed(nodes)
    ensures forall i :: 0 <= i < |nodes| ==> nodes[i].name == old(nodes[i].name)
  {
    var p := head;
    first := null;
    ghost var rest := nodes;
    ghost var done: seq<PathNode> := [];
    while p != null
      invariant IsList(p, rest) && IsList(first, done)
      invariant forall n :: n in rest ==> n !in done && n in nodes
      invariant forall n :: n in done ==> n in nodes
      invariant Reversed(nodes) == Reversed(rest) + done
      invariant forall i :: 0 <= i < |nodes| ==> nodes[i].name == old(nodes[i].name)
      decreases |rest|
    {
      var next := p.next;
      ghost var tail, behind := rest[1..], done;
      assert rest == [p] + tail && p !in behind && p !in tail;
      p.next := first;
      first := p;
      done := [p] + behind;
      assert done[1..] == behind;
      rest := tail;
      p := next;
    }
    assert rest == [] && [] + done == done;
    reversed := done;
  }

  // ----- the whole resolution -----

  /** Each module once, every dependency before its dependents, and exactly the modules that the
      requests reach. */
  ghost predicate Resolved(deps: seq<Dep>, requests: seq<string>, names: seq<string>) {
    && Distinct(names)
    && (forall i, b :: 0 <= i < |names| && Edge(deps, names[i], b) ==> b in names[..i])
    && (forall m :: m in names <==> Requested(deps, requests, m))
  }

  ghost predicate Requested(deps: seq<Dep>, requests: seq<string>, m: string) {
    exists k :: 0 <= k < |requests| && Reachable(deps, ModuleName(requests[k]), m)
  }

  /** What holds of the module list after the first k requests. */
  ghost predicate CoversFirst(deps: seq<Dep>, requests: seq<string>, k: nat, mods: seq<string>)
    requires k <= |requests|
  {
    && (forall i :: 0 <= i < k ==> ModuleName(requests[i]) in mods)
    && (forall m :: m in mods ==> Requested(deps, requests, m))
  }

  lemma CoversMore(deps: seq<Dep>, rank: string -> nat, requests: seq<string>, k: nat, before: seq<string>, after: seq<string>)
    requires k < |requests| && CoversFirst(deps, requests, k, before)
    requires ModuleName(requests[k]) in after
    requires Grown(deps, rank, before, after, ModuleName(requests[k]), rank(ModuleName(requests[k])) + 1)
    ensures CoversFirst(deps, requests, k + 1, after)
  {
    hide ModuleName, Reachable;
    var n := |after| - |before|;
    assert after == after[..n] + before;
    forall m | m in after
      ensures Requested(deps, requests, m)
    {
      if m in after[..n] {
        assert Reachable(deps, ModuleName(requests[k]), m);
      }
    }
  }

  /** A list that holds every dependency of its members holds everything they reach. */
  lemma {:induction false} ClosedUnderPaths(deps: seq<Dep>, mods: seq<string>, p: seq<string>)
    requires DependenciesFirst(deps, mods) && IsPath(deps, p) && p[0] in mods
    ensures p[|p| - 1] in mods
    decreases |p|
  {
    if |p| > 1 {
      var i :| 0 <= i < |mods| && mods[i] == p[0];
      assert Edge(deps, mods[i], p[1]);
      assert p[1] in mods[i + 1..];
      ClosedUnderPaths(deps, mods, p[1..]);
    }
  }

  lemma ReversedOrder(deps: seq<Dep>, mods: seq<string>)
    requires DependenciesFirst(deps, mods)
    ensures var names := Reversed(mods);
            forall i, b :: 0 <= i < |names| && Edge(deps, names[i], b) ==> b in names[..i]
  {
    hide Edge, Reversed;
    var names, n := Reversed(mods), |mods|;
    forall i, b | 0 <= i < n && Edge(deps, names[i], b)
      ensures b in names[..i]
    {
      assert names[i] == mods[n - 1 - i];
      var j :| 0 <= j < i && mods[n - i..][j] == b;
      assert names[i - 1 - j] == b;
    }
  }

  lemma ListedIsRequested(deps: seq<Dep>, requests: seq<string>, mods: seq<string>, m: string)
    requires DependenciesFirst(deps, mods) && CoversFirst(deps, requests, |requests|, mods)
    ensures m in mods <==> Requested(deps, requests, m)
  {
    hide Edge, ModuleName;
    if Requested(deps, requests, m) {
      var k :| 0 <= k < |requests| && Reachable(deps, ModuleName(requests[k]), m);
      var p :| IsPath(deps, p) && p[0] == ModuleName(requests[k]) && p[|p| - 1] == m;
      ClosedUnderPaths(deps, mods, p);
    }
  }

  lemma ReversedIsResolved(deps: seq<Dep>, requests: seq<string>, mods: seq<string>)
    requires Distinct(mods) && DependenciesFirst(deps, mods) && CoversFirst(deps, requests, |requests|, mods)
    ensures Resolved(deps, requests, Reversed(mods))
  {
    hide Edge, Requested, DependenciesFirst, CoversFirst;
    ReversedOrder(deps, mods);
    forall m
      ensures m in Reversed(mods) <==> Requested(deps, requests, m)
    {
      SameMembers(mods, m);
      ListedIsRequested(deps, requests, mods, m);
    }
  }

  lemma SameMembers(s: seq<string>, x: string)
    ensures x in Reversed(s) <==> x in s
  {
    if x in s {
      var i :| 0 <= i < |s| && s[i] == x;
      assert Reversed(s)[|s| - 1 - i] == x;
    }
  }

  /** The two parallel lists, newest first, once every request has been added. */
  method ListModules(dir: string, deps: seq<Dep>, requests: seq<string>, ghost rank: string -> nat)
    returns (head: PathNode?, ghost nodes: seq<PathNode>, ghost mods: seq<string>)
    requires Acyclic(deps, rank)
    ensures IsList(head, nodes) && |nodes| == |mods| && Resolved(deps, requests, Reversed(mods))
    ensures forall i :: 0 <= i < |nodes| ==> fresh(nodes[i]) && IsPathOf(dir, nodes[i].name, mods[i])
  {
    var r := new Resolver(dir, deps, rank);
    r.AddAll(requests);
    hide ModuleName, CoversFirst, IsPathOf, DependenciesFirst, Distinct, Resolved, Grown, Acyclic, Reversed, IsList;
    ReversedIsResolved(deps, requests, r.mods);
    head, nodes, mods := r.pathHead, r.nodes, r.mods;
  }

  // ----- the result in terms of the dependency list itself -----

  /** Entry i is the first one of its name. */
  predicate FirstOfName(deps: seq<Dep>, i: nat)
    requires i < |deps|
  {
    forall j :: 0 <= j < i ==> deps[j].name != deps[i].name
  }

  lemma {:induction false} NeedsOfFirst(deps: seq<Dep>, i: nat)
    requires i < |deps| && FirstOfName(deps, i)
    ensures Needs(deps, deps[i].name) == deps[i].needs
  {
    if i > 0 {
      assert deps[0].name != deps[i].name;
      forall j | 0 <= j < i - 1
        ensures deps[1..][j].name != deps[i].name
      {
        assert deps[j + 1].name != deps[i].name;
      }
      NeedsOfFirst(deps[1..], i - 1);
    }
  }

  lemma {:induction false} FirstEntry(deps: seq<Dep>, name: string) returns (i: nat)
    requires Needs(deps, name) != []
    ensures i < |deps| && FirstOfName(deps, i) && deps[i].name == name
  {
    if deps[0].name == name {
      i := 0;
    } else {
      var k := FirstEntry(deps[1..], name);
      i := k + 1;
      forall j | 0 <= j < i
        ensures deps[j].name != name
      {
        assert j > 0 ==> deps[j] == deps[1..][j - 1];
      }
    }
  }

  predicate InFront(names: seq<string>, b: nat, x: string)
    requires b <= |names|
  {
    exists a :: 0 <= a < b && names[a] == x
  }

  /** Whatever the first entry of a listed module needs stands in front of it. */
  ghost predicate NeedsInFront(deps: seq<Dep>, names: seq<string>) {
    forall i, k, b :: 0 <= i < |deps| && FirstOfName(deps, i) && 0 <= k < |deps[i].needs| && 0 <= b < |names| && names[b] == deps[i].name ==>
      InFront(names, b, ModuleName(deps[i].needs[k]))
  }

  /** A listed module is a request, or needed by the first entry of another listed module. */
  ghost predicate AskedFor(deps: seq<Dep>, requests: seq<string>, names: seq<string>, m: string) {
    || (exists r :: 0 <= r < |requests| && ModuleName(requests[r]) == m)
    || (exists i, k :: 0 <= i < |deps| && FirstOfName(deps, i) && 0 <= k < |deps[i].needs|
                       && ModuleName(deps[i].needs[k]) == m && deps[i].name in names && deps[i].name != m)
  }

  lemma ResolvedIsInFront(deps: seq<Dep>, requests: seq<string>, names: seq<string>)
    requires Resolved(deps, requests, names)
    ensures NeedsInFront(deps, names)
    ensures forall r :: 0 <= r < |requests| ==> ModuleName(requests[r]) in names
  {
    hide ModuleName, Needs, FirstOfName;
    forall i, k, b | 0 <= i < |deps| && FirstOfName(deps, i) && 0 <= k < |deps[i].needs| && 0 <= b < |names| && names[b] == deps[i].name
      ensures InFront(names, b, ModuleName(deps[i].needs[k]))
    {
      NeedsOfFirst(deps, i);
      assert Edge(deps, names[b], ModuleName(deps[i].needs[k]));
      assert ModuleName(deps[i].needs[k]) in names[..b];
    }
    forall r | 0 <= r < |requests|
      ensures ModuleName(requests[r]) in names
    {
      ReachableSelf(deps, ModuleName(requests[r]));
      assert Requested(deps, requests, ModuleName(requests[r]));
    }
  }

  lemma ResolvedIsAskedFor(deps: seq<Dep>, requests: seq<string>, names: seq<string>, rank: string -> nat, m: string)
    requires Resolved(deps, requests, names) && Acyclic(deps, rank) && m in names
    ensures AskedFor(deps, requests, names, m)
  {
    hide ModuleName, Needs;
    assert Requested(deps, requests, m);
    var r :| 0 <= r < |requests| && Reachable(deps, ModuleName(requests[r]), m);
    var p :| IsPath(deps, p) && p[0] == ModuleName(requests[r]) && p[|p| - 1] == m;
    if |p| > 1 {
      var c := p[|p| - 2];
      assert Edge(deps, p[|p| - 2], p[|p| - 2 + 1]);
      assert IsPath(deps, p[..|p| - 1]);
      assert Requested(deps, requests, c);
      var k :| 0 <= k < |Needs(deps, c)| && ModuleName(Needs(deps, c)[k]) == m;
      var i := FirstEntry(deps, c);
      NeedsOfFirst(deps, i);
    }
  }

  /** grub_util_resolve_dependencies, from the parsed dependency list on: the returned list of paths is
      in link order. */
  method ResolveDependencies(dir: string, deps: seq<Dep>, requests: seq<string>, ghost rank: string -> nat)
    returns (head: PathNode?, ghost nodes: seq<PathNode>, ghost names: seq<string>)
    requires Acyclic(deps, rank)
    ensures IsList(head, nodes) && |nodes| == |names| && Resolved(deps, requests, names)
    ensures forall i :: 0 <= i < |nodes| ==> IsPathOf(dir, nodes[i].name, names[i]) && ModuleName(nodes[i].name) == names[i]
    ensures forall i, j :: 0 <= i < j < |names| ==> names[i] != names[j]
    ensures NeedsInFront(deps, names) && forall r :: 0 <= r < |requests| ==> ModuleName(requests[r]) in names
    ensures forall m :: m in names ==> AskedFor(deps, requests, names, m)
  {
    hide *;
    var listed, newestFirst, mods := ListModules(dir, deps, requests, rank);
    names := Reversed(mods);
    head, nodes := ReversePaths(listed, newestFirst);
    forall i | 0 <= i < |nodes|
      ensures ModuleName(nodes[i].name) == names[i]
    {
      PathOfKeepsName(dir, nodes[i].name, names[i]);
    }
    ResolvedOnce(deps, requests, names);
    ResolvedIsInFront(deps, requests, names);
    forall m | m in names
      ensures AskedFor(deps, requests, names, m)
    {
      ResolvedIsAskedFor(deps, requests, names, rank, m);
    }
  }

  lemma ResolvedOnce(deps: seq<Dep>, requests: seq<string>, names: seq<string>)
    requires Resolved(deps, requests, names)
    ensures forall i, j :: 0 <= i < j < |names| ==> names[i] != names[j]
  {
  }

  // ----- names and paths, character by character -----

  lemma SuffixIs(s: string)
    ensures HasModSuffix(s) <==> |s| >= 4 && s[|s| - 4..] == ".mod"
  {
    var i := LastIndex(s, '.');
    if HasModSuffix(s) {
      assert |s[i..]| == |s| - i == |".mod"|;
    }
    if |s| >= 4 && s[|s| - 4..] == ".mod" {
      var tail := s[|s| - 4..];
      assert tail[0] == '.' && tail[1] == 'm' && tail[2] == 'o' && tail[3] == 'd';
      assert tail[0] == s[|s| - 4] && tail[1] == s[|s| - 3] && tail[2] == s[|s| - 2] && tail[3] == s[|s| - 1];
      LastIndexIs(s, '.', |s| - 4);
    }
  }

  /** The module of a file is the last part of its path, without the ending ".mod" if it has it. */
  lemma NameOfFileIs(front: string, stem: string)
    requires (front == "" || front[|front| - 1] == '/') && '/' !in stem
    ensures ModuleName(front + stem + ".mod") == stem
    ensures (|stem| < 4 || stem[|stem| - 4..] != ".mod") ==> ModuleName(front + stem) == stem
  {
    BaseIs(front, stem + ".mod");
    BaseIs(front, stem);
    assert front + stem + ".mod" == front + (stem + ".mod");
    SuffixIs(stem + ".mod");
    SuffixIs(stem);
    EndsInMod(stem);
  }

  lemma BaseIs(front: string, base: string)
    requires (front == "" || front[|front| - 1] == '/') && '/' !in base
    ensures BaseName(front + base) == base
  {
    var s := front + base;
    LastIndexIs(s, '/', |front| - 1);
  }

  lemma EndsInMod(stem: string)
    ensures var s := stem + ".mod"; |s| >= 4 && s[|s| - 4..] == ".mod" && s[..|s| - 4] == stem
  {
  }

  /** The path of a module: as written when it names a directory, else in dir; ".mod" is added if it is not there. */
  lemma PathIs(dir: string, s: string)
    ensures var file := if |s| >= 4 && s[|s| - 4..] == ".mod" then s else s + ".mod";
            ModulePath(dir, s) == if '/' in s then file else dir + "/" + file
  {
    SuffixIs(s);
  }

  lemma PathOfKeepsName(dir: string, path: string, modName: string)
    requires IsPathOf(dir, path, modName)
    ensures ModuleName(path) == modName
  {
    hide ModuleName, ModulePath;
    var s :| path == ModulePath(dir, s) && ModuleName(s) == modName;
    PathKeepsName(dir, s);
  }

  lemma NothingCovered(deps: seq<Dep>, requests: seq<string>)
    ensures CoversFirst(deps, requests, 0, [])
  {
  }
}
