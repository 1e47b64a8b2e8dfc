/** The constraint index of a rulebase: for each symbol, the requirements to check when it changes. */
module CmlIndex {
  import opened Outcomes
  import opened CmlEval
  import opened CmlMeaning

  /** Definitions that a rank orders; the rank itself is not computed with. */
  ghost predicate Usable(reduced: seq<Exp>, defs: Definitions, rank: string -> nat, n: nat) {
    WellFounded(defs, rank) && forall i :: 0 <= i < |reduced| ==> Below(reduced[i], rank, n)
  }

  /** The requirements that mention s, in order, each once. */
  ghost function Index(s: string, reduced: seq<Exp>, defs: Definitions, rank: string -> nat, n: nat): seq<Exp>
    requires Usable(reduced, defs, rank, n)
  {
    if |reduced| == 0 then []
    else
      var front := Index(s, reduced[..|reduced| - 1], defs, rank, n);
      var last := reduced[|reduced| - 1];
      Noted(front, last, s in Flatten(last, defs, rank, n))
  }

  function Noted(entries: seq<Exp>, r: Exp, mentions: bool): seq<Exp> {
    if mentions && r !in entries then entries + [r] else entries
  }

  lemma NotedOnceMore(entries: seq<Exp>, r: Exp, mentions: bool)
    ensures Noted(entries, r, false) == entries
    ensures var noted := Noted(entries, r, mentions); Noted(entries, r, true) == if r in noted then noted else noted + [r]
  {
  }

  class Rulebase {
    const dictionary: set<string>
    const defs: Definitions
    const reduced: seq<Exp>
    var constraints: map<string, seq<Exp>>

    constructor (dictionary: set<string>, defs: Definitions, reduced: seq<Exp>)
      ensures this.dictionary == dictionary && this.defs == defs && this.reduced == reduced
    {
      this.dictionary, this.defs, this.reduced := dictionary, defs, reduced;
      constraints := map[];
    }

    /** One requirement added to the lists of its symbols; a symbol that occurs twice is noted once. */
    method Note(r: Exp, symbols: seq<string>)
      requires constraints.Keys == dictionary && forall i :: 0 <= i < |symbols| ==> symbols[i] in dictionary
      modifies this
      ensures constraints.Keys == dictionary
      ensures forall s :: s in dictionary ==> constraints[s] == Noted(old(constraints)[s], r, s in symbols)
    {
      hide Noted;
      forall s | s in dictionary
        ensures Noted(constraints[s], r, false) == constraints[s]
      {
        NotedOnceMore(constraints[s], r, false);
      }
      for i := 0 to |symbols|
        invariant constraints.Keys == dictionary
        invariant forall s :: s in dictionary ==> constraints[s] == Noted(old(constraints)[s], r, s in symbols[..i])
      {
        var s := symbols[i];
        assert symbols[..i + 1] == symbols[..i] + [s];
        NotedOnceMore(old(constraints)[s], r, s in symbols[..i]);
        if r !in constraints[s] {
          constraints := constraints[s := constraints[s] + [r]];
        }
      }
      assert symbols[..|symbols|] == symbols;
    }

    /** optimize_constraint_access: every list becomes the index of its symbol. */
    method OptimizeConstraintAccess(ghost rank: string -> nat, ghost n: nat)
      requires Usable(reduced, defs, rank, n)
      requires forall i, s :: 0 <= i < |reduced| && s in Flatten(reduced[i], defs, rank, n) ==> s in dictionary
      modifies this
      ensures constraints.Keys == dictionary
      ensures forall s :: s in dictionary ==> constraints[s] == Index(s, reduced, defs, rank, n)
    {
      hide Flatten, WellFounded, Below, Noted;
      constraints := map s | s in dictionary :: [];
      assert reduced[..0] == [];
      for i := 0 to |reduced|
        invariant constraints.Keys == dictionary && Usable(reduced[..i], defs, rank, n)
        invariant forall s :: s in dictionary ==> constraints[s] == Index(s, reduced[..i], defs, rank, n)
      {
        assert reduced[..i + 1][..i] == reduced[..i];
        var symbols := Flatten(reduced[i], defs, rank, n);
        Note(reduced[i], symbols);
      }
      assert reduced[..|reduced|] == reduced;
    }

    /** Check a symbol's requirements alone: whether they all hold under env. */
    method CheckSymbol(s: string, env: Environment, host: Host, ghost rank: string -> nat, ghost n: nat) returns (ok: bool)
      requires Usable(reduced, defs, rank, n) && s in constraints
      requires constraints[s] == Index(s, reduced, defs, rank, n)
      ensures Usable(Index(s, reduced, defs, rank, n), defs, rank, n)
      ensures ok <==> AllHold(Index(s, reduced, defs, rank, n), defs, env, host, rank, n)
    {
      hide Flatten, WellFounded, Below, Index, Evaluate;
      IndexUsable(s, reduced, defs, rank, n);
      ok := true;
      for i := 0 to |constraints[s]|
        invariant ok <==> forall k :: 0 <= k < i ==> Holds(constraints[s][k], defs, env, host, rank, n)
      {
        var v := Evaluate(constraints[s][i], defs, env, host, rank, n);
        ok := ok && v.Ok? && Truthy(v.value);
      }
    }
  }

  ghost predicate Holds(r: Exp, defs: Definitions, env: Environment, host: Host, rank: string -> nat, n: nat)
    requires WellFounded(defs, rank) && Below(r, rank, n)
  {
    var v := Evaluate(r, defs, env, host, rank, n);
    v.Ok? && Truthy(v.value)
  }

  ghost predicate AllHold(rs: seq<Exp>, defs: Definitions, env: Environment, host: Host, rank: string -> nat, n: nat)
    requires Usable(rs, defs, rank, n)
  {
    forall i :: 0 <= i < |rs| ==> Holds(rs[i], defs, env, host, rank, n)
  }

  ghost predicate NoTwice(rs: seq<Exp>) { forall i, j :: 0 <= i < j < |rs| ==> rs[i] != rs[j] }

  /** The index of a symbol holds the requirements that mention it, and nothing else, each once. */
  lemma {:induction false} IndexHoldsMentions(s: string, reduced: seq<Exp>, defs: Definitions, rank: string -> nat, n: nat)
    requires Usable(reduced, defs, rank, n)
    ensures NoTwice(Index(s, reduced, defs, rank, n))
    ensures forall r :: r in Index(s, reduced, defs, rank, n) <==>
              exists i :: 0 <= i < |reduced| && reduced[i] == r && s in Flatten(reduced[i], defs, rank, n)
  {
    hide Flatten, Below, WellFounded;
    if |reduced| > 0 {
      var front, last := reduced[..|reduced| - 1], reduced[|reduced| - 1];
      IndexHoldsMentions(s, front, defs, rank, n);
      assert forall i :: 0 <= i < |front| ==> front[i] == reduced[i];
    }
  }

  /** In the terms of the rulebase: the requirements that depend on s, by way of any definitions. */
  lemma IndexHoldsDependents(s: string, reduced: seq<Exp>, defs: Definitions, rank: string -> nat, n: nat)
    requires Usable(reduced, defs, rank, n)
    ensures forall r :: r in Index(s, reduced, defs, rank, n) <==> r in reduced && DependsOn(r, s, defs)
  {
    hide Flatten, Below, WellFounded, Index, DependsOn;
    IndexHoldsMentions(s, reduced, defs, rank, n);
    forall i | 0 <= i < |reduced|
      ensures s in Flatten(reduced[i], defs, rank, n) <==> DependsOn(reduced[i], s, defs)
    {
      FlattenedExactly(reduced[i], s, defs, rank, n);
    }
  }

  lemma IndexUsable(s: string, reduced: seq<Exp>, defs: Definitions, rank: string -> nat, n: nat)
    requires Usable(reduced, defs, rank, n)
    ensures Usable(Index(s, reduced, defs, rank, n), defs, rank, n)
  {
    hide Flatten, Below, WellFounded, Index;
    IndexHoldsMentions(s, reduced, defs, rank, n);
    var index := Index(s, reduced, defs, rank, n);
    forall i | 0 <= i < |index|
      ensures Below(index[i], rank, n)
    {
      assert index[i] in index;
    }
  }

  /** Only the symbols in changed have new values. */
  ghost predicate DifferAtMost(changed: set<string>, before: Environment, after: Environment) {
    forall s :: s !in changed ==> before(s) == after(s)
  }

  /** A requirement that held and mentions no changed symbol still holds. */
  lemma UnmentionedStillHolds(r: Exp, changed: set<string>, defs: Definitions, before: Environment, after: Environment, host: Host, rank: string -> nat, n: nat)
    requires WellFounded(defs, rank) && Below(r, rank, n)
    requires Holds(r, defs, before, host, rank, n) && DifferAtMost(changed, before, after)
    requires forall s :: s in changed ==> s !in Flatten(r, defs, rank, n)
    ensures Holds(r, defs, after, host, rank, n)
  {
    hide Flatten, Evaluate;
    EvaluateDependsOnFlattened(r, defs, before, after, host, rank, n);
  }

  /** When every requirement held and some symbols change, checking the requirements indexed under those
      symbols gives the same verdict as checking all of them. */
  lemma IndexIsSound(changed: set<string>, reduced: seq<Exp>, defs: Definitions, before: Environment, after: Environment, host: Host,
                     rank: string -> nat, n: nat)
    requires Usable(reduced, defs, rank, n) && DifferAtMost(changed, before, after)
    requires AllHold(reduced, defs, before, host, rank, n)
    ensures forall s :: s in changed ==> Usable(Index(s, reduced, defs, rank, n), defs, rank, n)
    ensures AllHold(reduced, defs, after, host, rank, n)
       <==> forall s :: s in changed ==> AllHold(Index(s, reduced, defs, rank, n), defs, after, host, rank, n)
  {
    hide Flatten, Below, WellFounded, Index, Holds;
    forall s | s in changed
      ensures Usable(Index(s, reduced, defs, rank, n), defs, rank, n)
      ensures AllHold(reduced, defs, after, host, rank, n) ==> AllHold(Index(s, reduced, defs, rank, n), defs, after, host, rank, n)
    {
      IndexUsable(s, reduced, defs, rank, n);
      IndexHoldsMentions(s, reduced, defs, rank, n);
      var index := Index(s, reduced, defs, rank, n);
      assert forall i :: 0 <= i < |index| ==> index[i] in index;
    }
    if forall s :: s in changed ==> AllHold(Index(s, reduced, defs, rank, n), defs, after, host, rank, n) {
      forall i | 0 <= i < |reduced|
        ensures Holds(reduced[i], defs, after, host, rank, n)
      {
        HoldsAfter(i, changed, reduced, defs, before, after, host, rank, n);
      }
    }
  }

  lemma HoldsAfter(i: nat, changed: set<string>, reduced: seq<Exp>, defs: Definitions, before: Environment, after: Environment, host: Host,
                   rank: string -> nat, n: nat)
    requires Usable(reduced, defs, rank, n) && DifferAtMost(changed, before, after) && i < |reduced|
    requires AllHold(reduced, defs, before, host, rank, n)
    requires forall s :: s in changed ==> Usable(Index(s, reduced, defs, rank, n), defs, rank, n)
                                          && AllHold(Index(s, reduced, defs, rank, n), defs, after, host, rank, n)
    ensures Holds(reduced[i], defs, after, host, rank, n)
  {
    hide Flatten, Below, WellFounded, Index, Holds;
    if s :| s in changed && s in Flatten(reduced[i], defs, rank, n) {
      IndexHoldsMentions(s, reduced, defs, rank, n);
      var index := Index(s, reduced, defs, rank, n);
      assert reduced[i] in index;
      var k :| 0 <= k < |index| && index[k] == reduced[i];
      assert Holds(index[k], defs, after, host, rank, n);
    } else {
      UnmentionedStillHolds(reduced[i], changed, defs, before, after, host, rank, n);
    }
  }
}
