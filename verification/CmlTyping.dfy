/** What a deduced type says of the value. Evaluating a derived symbol follows its references up to a definition
    that is none, or to a choice that does not take its first side; whether the value is of the deduced type is
    settled by what stands there. */
module CmlTyping {
  import opened Outcomes
  import opened CmlParse
  import opened CmlEval
  import opened CmlDeduce

  function KindOf(t: Type): SymbolType {
    match t
    case Boolean => Bool
    case Tristate => TriState
    case Decimal => Numeric
    case Hexadecimal => Numeric
    case Text => SymbolType.Text
    case Menu => Untyped
  }

  /** The derived symbols of a dictionary, each with the type found for it. */
  function Computed(entries: map<string, Entry>, types: map<string, Type>): Definitions {
    map s | s in entries && entries[s].derived :: Derived(if s in types then KindOf(types[s]) else Untyped, entries[s].definition)
  }

  /** What the deduction ends with. */
  ghost predicate Deduced(entries: map<string, Entry>, types: map<string, Type>) {
    forall s, t :: s in types && types[s] == t <==> s in entries && Reaches(entries, s, t)
  }

  /** A symbol's own value: none for an unset symbol and for a derivation without a definition. */
  function ValueOf(s: string, defs: Definitions, env: Environment, host: Host, ghost rank: string -> nat): Result<Option<Value>, CmlEval.Fault>
    requires WellFounded(defs, rank)
  {
    if s !in defs then Ok(env(s))
    else if defs[s].definition.None? then Ok(None)
    else
      var v := Evaluate(defs[s].definition.value, defs, env, host, rank, rank(s));
      if v.Err? then Err(v.error) else Ok(Some(Cast(defs[s].kind, v.value)))
  }

  lemma SymbolReads(s: string, defs: Definitions, env: Environment, host: Host, rank: string -> nat, n: nat)
    requires WellFounded(defs, rank) && rank(s) < n
    ensures var v, w := Evaluate(Sym(s), defs, env, host, rank, n), ValueOf(s, defs, env, host, rank);
            v == if w.Err? then Err(w.error) else Ok(Read(w.value))
  {
    hide Cast;
  }

  predicate Fits(t: Type, v: Value) {
    match t
    case Boolean => v == N || v == Y
    case Tristate => v.Tri?
    case Decimal => v.Num?
    case Hexadecimal => v.Num?
    case Text => v.Str?
    case Menu => true
  }

  /** The values that the cast of type t turns into values of type t: a boolean can be made of a trit or an int,
      though not of a long, and a number of a trit or a number. */
  predicate Castable(t: Type, v: Value) {
    match t
    case Boolean => v.Tri? || (v.Num? && !v.long)
    case Tristate => v.Tri?
    case Decimal => v.Tri? || v.Num?
    case Hexadecimal => v.Tri? || v.Num?
    case Text => v.Str?
    case Menu => true
  }

  lemma CastFits(t: Type, v: Value)
    ensures Fits(t, Cast(KindOf(t), v)) <==> Castable(t, v)
  {
  }

  // ----- along the chain -----

  /** A value that a reference turns into one of type t. What counts as false reads as n, which does for every
      type but strings. */
  predicate Carries(t: Type, w: Option<Value>) {
    if w.None? || !Truthy(w.value) then t != Type.Text else Castable(t, w.value)
  }

  lemma OneReference(t: Type, w: Option<Value>)
    ensures Fits(t, Cast(KindOf(t), Read(w))) <==> Carries(t, w)
    ensures var v := Cast(KindOf(t), Read(w)); Carries(t, Some(v)) <==> Fits(t, v)
  {
  }

  /** Evaluating s comes down to evaluating r: s is r, or a choice that has r when its guard holds, as it does. */
  ghost predicate Passes(s: string, r: string, defs: Definitions, env: Environment, host: Host, rank: string -> nat)
    requires WellFounded(defs, rank)
  {
    s in defs && defs[s].definition.Some? &&
    match defs[s].definition.value
    case Sym(x) => x == r
    case Choose(g, Sym(x), _) =>
      x == r && (var v := Evaluate(g, defs, env, host, rank, rank(s)); v.Ok? && Truthy(v.value))
    case _ => false
  }

  lemma PassedValue(s: string, r: string, defs: Definitions, env: Environment, host: Host, rank: string -> nat)
    requires WellFounded(defs, rank) && Passes(s, r, defs, env, host, rank)
    ensures var v, w := ValueOf(s, defs, env, host, rank), ValueOf(r, defs, env, host, rank);
            v == if w.Err? then Err(w.error) else Ok(Some(Cast(defs[s].kind, Read(w.value))))
  {
    hide Cast, Truthy;
    var e := defs[s].definition.value;
    assert Below(e, rank, rank(s));
    assert Below(if e.Choose? then e.whenTrue else e, rank, rank(s));
    SymbolReads(r, defs, env, host, rank, rank(s));
  }

  ghost predicate PassesAll(path: seq<string>, defs: Definitions, env: Environment, host: Host, rank: string -> nat)
    requires WellFounded(defs, rank)
  {
    forall i :: 0 <= i < |path| - 1 ==> Passes(path[i], path[i + 1], defs, env, host, rank)
  }

  lemma {:induction false} PathFits(path: seq<string>, t: Type, defs: Definitions, env: Environment, host: Host, rank: string -> nat)
    requires WellFounded(defs, rank) && |path| >= 2 && PassesAll(path, defs, env, host, rank)
    requires forall i :: 0 <= i < |path| - 1 ==> path[i] in defs && defs[path[i]].kind == KindOf(t)
    ensures var v, w := ValueOf(path[0], defs, env, host, rank), ValueOf(path[|path| - 1], defs, env, host, rank);
            && (v.Err? <==> w.Err?)
            && (v.Ok? ==> v.value.Some? && (Fits(t, v.value.value) <==> Carries(t, w.value))
                          && (Carries(t, v.value) <==> Fits(t, v.value.value)))
    decreases |path|
  {
    hide Cast, Passes, ValueOf, Carries, Fits, Read;
    assert Passes(path[0], path[0 + 1], defs, env, host, rank);
    PassedValue(path[0], path[1], defs, env, host, rank);
    var w := ValueOf(path[1], defs, env, host, rank);
    if w.Ok? {
      OneReference(t, w.value);
    }
    if |path| > 2 {
      var rest := path[1..];
      assert PassesAll(rest, defs, env, host, rank) by {
        forall i | 0 <= i < |rest| - 1
          ensures Passes(rest[i], rest[i + 1], defs, env, host, rank)
        {
          assert Passes(path[i + 1], path[i + 1 + 1], defs, env, host, rank);
        }
      }
      PathFits(rest, t, defs, env, host, rank);
    }
  }

  lemma {:induction false} ChainType(entries: map<string, Entry>, path: seq<string>, t: Type, i: nat)
    requires Chain(entries, path) && i < |path| && Reaches(entries, path[|path| - 1], t)
    ensures Reaches(entries, path[i], t)
    decreases |path| - i
  {
    hide LeadOf, Refers, Reaches;
    if i < |path| - 1 {
      ChainType(entries, path, t, i + 1);
      assert Untold(entries, path[i]) && Refers(entries[path[i]].definition.value) == Some(path[i + 1]);
      LeadIs(entries, path[i]);
      TypeOneFurther(entries, path[i], t);
    }
  }

  // ----- the way evaluation takes -----

  lemma PassGoesDown(s: string, r: string, defs: Definitions, env: Environment, host: Host, rank: string -> nat)
    requires WellFounded(defs, rank) && Passes(s, r, defs, env, host, rank)
    ensures rank(r) < rank(s)
  {
    var e := defs[s].definition.value;
    assert Below(e, rank, rank(s));
    assert Below(if e.Choose? then e.whenTrue else e, rank, rank(s));
  }

  /** The symbols that evaluating s goes through, as long as each of them is typed by reference and refers on. */
  ghost function Walk(entries: map<string, Entry>, defs: Definitions, s: string, env: Environment, host: Host, rank: string -> nat): (path: seq<string>)
    requires WellFounded(defs, rank)
    ensures |path| > 0 && path[0] == s
    decreases rank(s)
  {
    if GoesOn(entries, defs, s, env, host, rank) then
      var r := Refers(entries[s].definition.value).value;
      PassGoesDown(s, r, defs, env, host, rank);
      [s] + Walk(entries, defs, r, env, host, rank)
    else [s]
  }

  ghost predicate GoesOn(entries: map<string, Entry>, defs: Definitions, s: string, env: Environment, host: Host, rank: string -> nat)
    requires WellFounded(defs, rank)
  {
    && Untold(entries, s) && Refers(entries[s].definition.value).Some?
    && Passes(s, Refers(entries[s].definition.value).value, defs, env, host, rank)
  }

  lemma {:induction false} WalkIsChain(entries: map<string, Entry>, defs: Definitions, s: string, env: Environment, host: Host, rank: string -> nat)
    requires WellFounded(defs, rank)
    ensures var path := Walk(entries, defs, s, env, host, rank);
            && Chain(entries, path) && PassesAll(path, defs, env, host, rank)
            && !GoesOn(entries, defs, path[|path| - 1], env, host, rank)
            && (|path| == 1 <==> !GoesOn(entries, defs, s, env, host, rank))
    decreases rank(s)
  {
    hide Passes, Refers;
    if GoesOn(entries, defs, s, env, host, rank) {
      var r := Refers(entries[s].definition.value).value;
      PassGoesDown(s, r, defs, env, host, rank);
      WalkIsChain(entries, defs, r, env, host, rank);
      var rest := Walk(entries, defs, r, env, host, rank);
      var path := Walk(entries, defs, s, env, host, rank);
      assert forall i :: 0 < i < |path| ==> path[i] == rest[i - 1];
    }
  }

  /** What follows a symbol that has a type has the same type. */
  lemma EndHasType(entries: map<string, Entry>, types: map<string, Type>, path: seq<string>, k: nat)
    requires Deduced(entries, types) && Chain(entries, path) && k < |path| && path[0] in types
    ensures path[k] in types && types[path[k]] == types[path[0]]
  {
    hide Chain, Refers, LeadOf;
    assert Reaches(entries, path[0], types[path[0]]);
    var n: nat :| TypeWithin(entries, path[0], n) == Some(types[path[0]]);
    ChainEnd(entries, path, k, n);
    var u := TypeWithin(entries, path[k], n - k).value;
    assert Reaches(entries, path[k], u);
    ChainType(entries, path[..k + 1], u, 0) by { ChainPrefix(entries, path, k + 1); }
  }

  lemma ChainPrefix(entries: map<string, Entry>, path: seq<string>, k: nat)
    requires Chain(entries, path) && 0 < k <= |path|
    ensures Chain(entries, path[..k])
  {
    var front := path[..k];
    forall i | 0 <= i < k - 1
      ensures Untold(entries, front[i]) && Refers(entries[front[i]].definition.value) == Some(front[i + 1])
    {
      assert front[i] == path[i] && front[i + 1] == path[i + 1];
    }
  }

  // ----- at the end -----

  /** What the deduction promises of an operation's value: y or n for a comparison or a logical operation,
      a number for arithmetic; for minimum, maximum and similarity a trit exactly when both sides are
      trits, or, for similarity, when they differ or the left one is. */
  lemma OperationFits(op: Op, l: Exp, r: Exp, defs: Definitions, env: Environment, host: Host, rank: string -> nat, n: nat)
    requires WellFounded(defs, rank) && Below(l, rank, n) && Below(r, rank, n)
    requires Evaluate(Operate(op, l, r), defs, env, host, rank, n).Ok?
    ensures var v := Evaluate(Operate(op, l, r), defs, env, host, rank, n).value;
            var a := Evaluate(l, defs, env, host, rank, n).value;
            && (Shows(Operate(op, l, r), Boolean) ==> v == N || v == Y)
            && (Shows(Operate(op, l, r), Type.Decimal) ==> v.Num?)
            && (Shows(Operate(op, l, r), Tristate) ==>
                  var b := Evaluate(r, defs, env, host, rank, n).value;
                  v.Tri? <==> if op == Similar then a.Tri? || Compare(a, b, host) != 0 else a.Tri? && b.Tri?)
  {
    hide Compare;
  }

  /** Whether a definition of type t that refers no further lives up to it: a minimum, maximum or similarity must
      be one of trits; a choice that does not hold must have a second side that t can be made of. */
  ghost predicate Honest(t: Type, e: Exp, defs: Definitions, env: Environment, host: Host, rank: string -> nat, n: nat)
    requires WellFounded(defs, rank) && Below(e, rank, n) && Evaluate(e, defs, env, host, rank, n).Ok?
  {
    match e
    case Operate(op, l, r) =>
      var a, b := Evaluate(l, defs, env, host, rank, n), Evaluate(r, defs, env, host, rank, n);
      op == Max || op == Min || op == Similar ==> a.value.Tri? || (op == Similar && Compare(a.value, b.value, host) != 0)
    case Choose(g, _, f) =>
      Truthy(Evaluate(g, defs, env, host, rank, n).value) || Castable(t, Evaluate(f, defs, env, host, rank, n).value)
    case _ => true
  }

  lemma OperationEnds(op: Op, l: Exp, r: Exp, defs: Definitions, env: Environment, host: Host, rank: string -> nat, n: nat)
    requires WellFounded(defs, rank) && Below(l, rank, n) && Below(r, rank, n)
    ensures Below(Operate(op, l, r), rank, n) && OpLead(op).Fixed?
    ensures var v, t := Evaluate(Operate(op, l, r), defs, env, host, rank, n), OpLead(op).found;
            v.Ok? ==> (Castable(t, v.value) <==> Honest(t, Operate(op, l, r), defs, env, host, rank, n))
  {
    hide Compare, Evaluate;
    OperationIs(op, l, r, defs, env, host, rank, n);
    if Evaluate(Operate(op, l, r), defs, env, host, rank, n).Ok? {
      OperationFits(op, l, r, defs, env, host, rank, n);
    }
  }

  /** What is known of the definition of a derived symbol without a declared type. */
  lemma DefinitionKnown(entries: map<string, Entry>, types: map<string, Type>, s: string, env: Environment, host: Host, rank: string -> nat)
    requires WellFounded(Computed(entries, types), rank) && Untold(entries, s)
    ensures var defs, e := Computed(entries, types), entries[s].definition.value;
            && Below(e, rank, rank(s))
            && (var v, raw := ValueOf(s, defs, env, host, rank), Evaluate(e, defs, env, host, rank, rank(s));
                && (v.Ok? <==> raw.Ok?)
                && (v.Ok? && s in types ==> v.value == Some(Cast(KindOf(types[s]), raw.value))))
  {
    var defs := Computed(entries, types);
    assert Below(defs[s].definition.value, rank, rank(s));
    hide Cast;
  }

  lemma TypedLead(entries: map<string, Entry>, types: map<string, Type>, s: string)
    requires Deduced(entries, types) && Untold(entries, s) && s in types
    ensures LeadOf(entries[s]).Fixed? ==> types[s] == LeadOf(entries[s]).found
    ensures !LeadOf(entries[s]).Stuck?
  {
    hide LeadOf;
    assert Reaches(entries, s, types[s]);
  }

  /** A symbol whose evaluation goes no further than its own definition has a value of its type exactly when
      the definition lives up to it. */
  lemma EndFits(entries: map<string, Entry>, types: map<string, Type>, s: string, env: Environment, host: Host, rank: string -> nat)
    requires Deduced(entries, types) && WellFounded(Computed(entries, types), rank)
    requires Untold(entries, s) && s in types && !GoesOn(entries, Computed(entries, types), s, env, host, rank)
    ensures Below(entries[s].definition.value, rank, rank(s))
    ensures var defs, e := Computed(entries, types), entries[s].definition.value;
            var v := ValueOf(s, defs, env, host, rank);
            && (v.Ok? <==> Evaluate(e, defs, env, host, rank, rank(s)).Ok?)
            && (v.Ok? ==> v.value.Some? && (Fits(types[s], v.value.value) <==> Honest(types[s], e, defs, env, host, rank, rank(s))))
  {
    hide Compare, Fits, Castable, Cast, ValueOf;
    var defs, e := Computed(entries, types), entries[s].definition.value;
    DefinitionKnown(entries, types, s, env, host, rank);
    TypedLead(entries, types, s);
    var raw := Evaluate(e, defs, env, host, rank, rank(s));
    if raw.Ok? {
      CastFits(types[s], raw.value);
      DefinitionEnds(entries, types, s, e, env, host, rank);
    }
  }

  lemma DefinitionEnds(entries: map<string, Entry>, types: map<string, Type>, s: string, e: Exp, env: Environment, host: Host, rank: string -> nat)
    requires Deduced(entries, types) && WellFounded(Computed(entries, types), rank)
    requires Untold(entries, s) && s in types && !GoesOn(entries, Computed(entries, types), s, env, host, rank)
    requires e == entries[s].definition.value && Below(e, rank, rank(s))
    requires Evaluate(e, Computed(entries, types), env, host, rank, rank(s)).Ok?
    ensures var defs := Computed(entries, types);
            Castable(types[s], Evaluate(e, defs, env, host, rank, rank(s)).value) <==> Honest(types[s], e, defs, env, host, rank, rank(s))
  {
    hide Compare;
    TypedLead(entries, types, s);
    if e.Operate? {
      OperationEnds(e.op, e.left, e.right, Computed(entries, types), env, host, rank, rank(s));
    }
  }

  // ----- both together -----

  /** The condition on what stands at the end: a value handed on by reference that counts as false does for every
      type but strings; a definition must live up to the type; any other symbol must have a value
      that references pass on. */
  ghost predicate Settles(entries: map<string, Entry>, types: map<string, Type>, t: Type, end: string, direct: bool, env: Environment, host: Host, rank: string -> nat)
    requires WellFounded(Computed(entries, types), rank) && ValueOf(end, Computed(entries, types), env, host, rank).Ok?
  {
    var defs := Computed(entries, types);
    var w := ValueOf(end, defs, env, host, rank).value;
    if !direct && (w.None? || !Truthy(w.value)) then t != Type.Text
    else if Untold(entries, end) then
      DefinitionKnown(entries, types, end, env, host, rank);
      Honest(t, entries[end].definition.value, defs, env, host, rank, rank(end))
    else Carries(t, w)
  }

  /** Every derived symbol with a deduced type, in every environment: it has the type of the symbol at which its
      evaluation ends, and a value of that type exactly when what stands there settles it. */
  lemma DeducedTypeFits(entries: map<string, Entry>, types: map<string, Type>, s: string, env: Environment, host: Host, rank: string -> nat)
    requires Deduced(entries, types) && WellFounded(Computed(entries, types), rank)
    requires Untold(entries, s) && s in types
    ensures var defs := Computed(entries, types);
            var path := Walk(entries, defs, s, env, host, rank);
            var end, v := path[|path| - 1], ValueOf(s, defs, env, host, rank);
            && end in types && types[end] == types[s]
            && (v.Ok? <==> ValueOf(end, defs, env, host, rank).Ok?)
            && (v.Ok? ==> v.value.Some?
                          && (Fits(types[s], v.value.value) <==> Settles(entries, types, types[s], end, |path| == 1, env, host, rank)))
  {
    hide Fits, Carries, ValueOf, Refers, PassesAll, Reaches, Honest, Walk, GoesOn, Chain, Deduced, Cast, Castable, Truthy;
    var defs, t := Computed(entries, types), types[s];
    var path := Walk(entries, defs, s, env, host, rank);
    var end := path[|path| - 1];
    WalkIsChain(entries, defs, s, env, host, rank);
    EndHasType(entries, types, path, |path| - 1);
    if Untold(entries, end) {
      EndFits(entries, types, end, env, host, rank);
      EndPassesOn(entries, types, end, env, host, rank);
    }
    if |path| > 1 {
      forall i | 0 <= i < |path| - 1
        ensures path[i] in defs && defs[path[i]].kind == KindOf(t)
      {
        EndHasType(entries, types, path, i);
        ChainInside(entries, path, i);
      }
      PathFits(path, t, defs, env, host, rank);
      FalseIsCarried(t, ValueOf(end, defs, env, host, rank));
    }
  }

  lemma ChainInside(entries: map<string, Entry>, path: seq<string>, i: nat)
    requires Chain(entries, path) && i < |path| - 1
    ensures Untold(entries, path[i])
  {
  }

  lemma FalseIsCarried(t: Type, w: Result<Option<Value>, CmlEval.Fault>)
    ensures w.Ok? && (w.value.None? || !Truthy(w.value.value)) ==> (Carries(t, w.value) <==> t != Type.Text)
  {
  }

  /** A true value that a cast has produced is passed on exactly when it fits. */
  lemma EndPassesOn(entries: map<string, Entry>, types: map<string, Type>, s: string, env: Environment, host: Host, rank: string -> nat)
    requires WellFounded(Computed(entries, types), rank) && Untold(entries, s) && s in types
    ensures var v := ValueOf(s, Computed(entries, types), env, host, rank);
            v.Ok? ==> v.value.Some? && (Truthy(v.value.value) ==> (Carries(types[s], v.value) <==> Fits(types[s], v.value.value)))
  {
    DefinitionKnown(entries, types, s, env, host, rank);
  }

  // ----- a boolean that is a string -----

  /** Two symbols: A, a boolean that is asked about, and D, derived from (A ? A : "x"). */
  const EXAMPLE: map<string, Entry> :=
    map["A" := Entry(Some(Boolean), false, None), "D" := Entry(None, true, Some(Choose(Sym("A"), Sym("A"), Const(Str("x")))))]

  const EXAMPLE_TYPES: map<string, Type> := map["A" := Boolean, "D" := Boolean]

  function NothingSet(s: string): Option<Value> { None }

  function ExampleRank(s: string): nat { if s == "D" then 1 else 0 }

  lemma TypesOfExample()
    ensures Deduced(EXAMPLE, EXAMPLE_TYPES)
  {
    assert TypeWithin(EXAMPLE, "A", 0) == Some(Boolean);
    assert TypeWithin(EXAMPLE, "D", 1) == Some(Boolean);
    forall s, t | s in EXAMPLE && Reaches(EXAMPLE, s, t)
      ensures t == Boolean
    {
      TypeIsUnique(EXAMPLE, s, t, Boolean);
    }
  }

  /** The deduction makes D a boolean, as the first side of its choice is one; while A is unset its value
      is the string. */
  lemma FalseSideShows(host: Host)
    ensures Deduced(EXAMPLE, EXAMPLE_TYPES) && EXAMPLE_TYPES["D"] == Boolean
    ensures var defs := Computed(EXAMPLE, EXAMPLE_TYPES);
            && WellFounded(defs, ExampleRank)
            && ValueOf("D", defs, NothingSet, host, ExampleRank) == Ok(Some(Str("x")))
    ensures !Fits(Boolean, Str("x"))
  {
    TypesOfExample();
    var defs := Computed(EXAMPLE, EXAMPLE_TYPES);
    var e := EXAMPLE["D"].definition.value;
    assert defs.Keys == {"D"} && defs["D"] == Derived(Bool, Some(e));
    assert WellFounded(defs, ExampleRank) by { assert Below(Sym("A"), ExampleRank, 1) && Below(Const(Str("x")), ExampleRank, 1); }
    assert Evaluate(Sym("A"), defs, NothingSet, host, ExampleRank, 1) == Ok(N);
    assert Evaluate(e, defs, NothingSet, host, ExampleRank, 1) == Ok(Str("x"));
  }
}
