/** What evaluation gives, operator by operator, on trits, numbers and strings; and the symbols that an
    expression depends on, by the definitions that lead to them. */
module CmlMeaning {
  import opened Outcomes
  import opened CmlParse
  import opened CmlEval

  // ----- operators -----

  /** n, zero and the empty string. */
  predicate IsFalse(v: Value) { v == Tri(0) || v == Num(0, false) || v == Num(0, true) || v == Str("") }

  predicate Equal(a: Value, b: Value) {
    (a.Tri? && a == b) || (a.Num? && b.Num? && a.number == b.number) || (a.Str? && a == b)
  }

  /** a is a proper prefix of b, or has the smaller character where they first differ. */
  ghost predicate TextLess(a: string, b: string) {
    exists k: nat :: k <= |a| && k <= |b| && a[..k] == b[..k]
      && (k == |a| < |b| || (k < |a| && k < |b| && a[k] < b[k]))
  }

  /** Values of different types are in the order of the host. */
  ghost predicate Less(a: Value, b: Value, host: Host) {
    if a.Tri? && b.Tri? then a.level < b.level
    else if a.Num? && b.Num? then a.number < b.number
    else if a.Str? && b.Str? then TextLess(a.text, b.text)
    else host.before(a, b)
  }

  /** A string counts as the number it denotes, and every trit but n as one. */
  function NumberOf(v: Value, host: Host): Option<int> {
    match v
    case Tri(_) => Some(if v == Tri(0) then 0 else 1)
    case Num(k, _) => Some(k)
    case Str(s) => host.numberOf(s)
  }

  /** r is y when the condition holds and n when it does not. */
  ghost predicate Says(r: Result<Value, CmlEval.Fault>, condition: bool) { r == Ok(if condition then Tri(2) else Tri(0)) }

  ghost predicate IsNumber(r: Result<Value, CmlEval.Fault>, k: int) { r == Ok(Num(k, true)) }

  /** r is what the operator makes of the two values. */
  ghost predicate Means(op: Op, a: Value, b: Value, r: Result<Value, CmlEval.Fault>, host: Host) {
    && (op == And ==> Says(r, !IsFalse(a) && !IsFalse(b)))
    && (op == Or ==> Says(r, !IsFalse(a) || !IsFalse(b)))
    && (op == Implies ==> Says(r, IsFalse(a) || !IsFalse(b)))
    && (op == Eq ==> Says(r, Equal(a, b)))
    && (op == Ne ==> Says(r, !Equal(a, b)))
    && (op == Lt ==> Says(r, !Equal(a, b) && Less(a, b, host)))
    && (op == Le ==> Says(r, Equal(a, b) || Less(a, b, host)))
    && (op == Gt ==> Says(r, !Equal(a, b) && !Less(a, b, host)))
    && (op == Ge ==> Says(r, Equal(a, b) || !Less(a, b, host)))
    && (op == Similar ==> r == Ok(if Equal(a, b) then a else Tri(0)))
    && (op == Max || op == Min ==> Extreme(op == Max, a, b, r, host))
    && (op == Plus || op == Minus || op == Times ==> Computes(op, NumberOf(a, host), NumberOf(b, host), r))
  }

  /** The larger or smaller of two trits, the bits of two numbers, and nothing else. */
  ghost predicate Extreme(largest: bool, a: Value, b: Value, r: Result<Value, CmlEval.Fault>, host: Host) {
    && (a.Tri? && b.Tri? ==>
          && (r == Ok(a) || r == Ok(b))
          && (if largest then r.value.level >= a.level && r.value.level >= b.level
              else r.value.level <= a.level && r.value.level <= b.level))
    && (a.Num? && b.Num? ==>
          r == Ok(Num(if largest then host.bitOr(a.number, b.number) else host.bitAnd(a.number, b.number), a.long || b.long)))
    && (!(a.Tri? && b.Tri?) && !(a.Num? && b.Num?) ==> r == Err(TypeFault))
  }

  ghost predicate Computes(op: Op, a: Option<int>, b: Option<int>, r: Result<Value, CmlEval.Fault>) {
    && (a.None? || b.None? ==> r == Err(NotANumber))
    && (a.Some? && b.Some? && op == Plus ==> IsNumber(r, a.value + b.value))
    && (a.Some? && b.Some? && op == Minus ==> IsNumber(r, a.value - b.value))
    && (a.Some? && b.Some? && op == Times ==> IsNumber(r, a.value * b.value))
  }

  lemma FalseIs(v: Value)
    ensures IsFalse(v) <==> !Truthy(v)
  {
  }

  /** Text compares as it is written out. */
  lemma {:induction false} TextCompares(a: string, b: string)
    ensures CompareText(a, b) == 0 <==> a == b
    ensures CompareText(a, b) < 0 <==> TextLess(a, b)
    ensures -1 <= CompareText(a, b) <= 1
    decreases |a|
  {
    if a == "" || b == "" {
      if b != "" {
        assert a[..0] == b[..0];
        assert TextLess(a, b);
      }
    } else if a[0] != b[0] {
      FirstDiffers(a, b);
    } else {
      TextCompares(a[1..], b[1..]);
      SameFirst(a, b);
      assert a == [a[0]] + a[1..] && b == [b[0]] + b[1..];
    }
  }

  lemma FirstDiffers(a: string, b: string)
    requires a != "" && b != "" && a[0] != b[0]
    ensures TextLess(a, b) <==> a[0] < b[0]
  {
    if a[0] < b[0] {
      assert a[..0] == b[..0];
    }
    if k: nat :| k <= |a| && k <= |b| && a[..k] == b[..k] && (k == |a| < |b| || (k < |a| && k < |b| && a[k] < b[k])) {
      if k > 0 {
        assert a[..k][0] == b[..k][0];
      }
    }
  }

  lemma SameFirst(a: string, b: string)
    requires a != "" && b != "" && a[0] == b[0]
    ensures TextLess(a, b) <==> TextLess(a[1..], b[1..])
  {
    if k: nat :| k <= |a| && k <= |b| && a[..k] == b[..k] && (k == |a| < |b| || (k < |a| && k < |b| && a[k] < b[k])) {
      assert k > 0;
      assert a[1..][..k - 1] == a[..k][1..] == b[..k][1..] == b[1..][..k - 1];
    }
    if k: nat :| k <= |a[1..]| && k <= |b[1..]| && a[1..][..k] == b[1..][..k]
                 && (k == |a[1..]| < |b[1..]| || (k < |a[1..]| && k < |b[1..]| && a[1..][k] < b[1..][k])) {
      assert a[..k + 1] == [a[0]] + a[1..][..k] == [b[0]] + b[1..][..k] == b[..k + 1];
    }
  }

  lemma ComparesBy(a: Value, b: Value, host: Host)
    ensures Compare(a, b, host) == 0 <==> Equal(a, b)
    ensures !Equal(a, b) ==> (Compare(a, b, host) < 0 <==> Less(a, b, host))
    ensures Equal(a, b) ==> !(a.Str? && Less(a, b, host))
  {
    hide TextLess;
    if a.Str? && b.Str? {
      TextCompares(a.text, b.text);
    }
  }

  lemma NumbersOf(v: Value, host: Host)
    ensures AsNumber(v, host) == if NumberOf(v, host).Some? then Ok(NumberOf(v, host).value) else Err(NotANumber)
  {
  }

  lemma ArithmeticMeans(op: Op, a: Value, b: Value, host: Host)
    requires op == Plus || op == Minus || op == Times
    ensures Computes(op, NumberOf(a, host), NumberOf(b, host), Apply(op, a, b, host))
  {
    hide AsNumber, NumberOf;
    NumbersOf(a, host);
    NumbersOf(b, host);
  }

  lemma ExtremeMeans(op: Op, a: Value, b: Value, host: Host)
    requires op == Max || op == Min
    ensures Extreme(op == Max, a, b, Apply(op, a, b, host), host)
  {
  }

  lemma LogicMeans(op: Op, a: Value, b: Value, host: Host)
    requires op == And || op == Or || op == Implies
    ensures Means(op, a, b, Apply(op, a, b, host), host)
  {
    hide Truthy, IsFalse;
    FalseIs(a);
    FalseIs(b);
  }

  lemma ComparisonMeans(op: Op, a: Value, b: Value, host: Host)
    requires op == Eq || op == Ne || op == Lt || op == Le || op == Gt || op == Ge || op == Similar
    ensures Means(op, a, b, Apply(op, a, b, host), host)
  {
    hide Compare, Less, Equal;
    ComparesBy(a, b, host);
  }

  lemma ApplyMeans(op: Op, a: Value, b: Value, host: Host)
    ensures Means(op, a, b, Apply(op, a, b, host), host)
  {
    hide Apply, Computes, Extreme;
    match op
    case Plus | Minus | Times => ArithmeticMeans(op, a, b, host);
    case Max | Min => ExtremeMeans(op, a, b, host);
    case And | Or | Implies => LogicMeans(op, a, b, host);
    case _ => ComparisonMeans(op, a, b, host);
  }

  /** The left side settles it. */
  predicate Settles(op: Op, a: Value) { if op == Or then !IsFalse(a) else (op == And || op == Implies) && IsFalse(a) }

  /** An operation means what its operator says of the values of its sides. Without a left value there is none;
      without a right one there is only what the left side settles. */
  lemma OperationMeans(op: Op, l: Exp, r: Exp, defs: Definitions, env: Environment, host: Host, rank: string -> nat, n: nat)
    requires WellFounded(defs, rank) && Below(l, rank, n) && Below(r, rank, n)
    ensures var a, b := Evaluate(l, defs, env, host, rank, n), Evaluate(r, defs, env, host, rank, n);
            var v := Evaluate(Operate(op, l, r), defs, env, host, rank, n);
            && (a.Ok? && b.Ok? ==> Means(op, a.value, b.value, v, host))
            && (a.Err? ==> v == a)
            && (a.Ok? && b.Err? && Settles(op, a.value) ==> v == Ok(if op == And then Tri(0) else Tri(2)))
            && (a.Ok? && b.Err? && !Settles(op, a.value) ==> v == b)
  {
    hide Apply, Means, Evaluate, Truthy, IsFalse;
    var a, b := Evaluate(l, defs, env, host, rank, n), Evaluate(r, defs, env, host, rank, n);
    OperationIs(op, l, r, defs, env, host, rank, n);
    SkippingAgrees(op, l, r, defs, env, host, rank, n);
    if a.Ok? {
      FalseIs(a.value);
      if b.Ok? {
        ApplyMeans(op, a.value, b.value, host);
      }
    }
  }

  /** Negation and choice. */
  lemma ConditionMeans(g: Exp, t: Exp, f: Exp, defs: Definitions, env: Environment, host: Host, rank: string -> nat, n: nat)
    requires WellFounded(defs, rank) && Below(g, rank, n) && Below(t, rank, n) && Below(f, rank, n)
    ensures var c := Evaluate(g, defs, env, host, rank, n);
            var v, w := Evaluate(Negate(g), defs, env, host, rank, n), Evaluate(Choose(g, t, f), defs, env, host, rank, n);
            && (c.Err? ==> v == c && w == c)
            && (c.Ok? && IsFalse(c.value) ==> v == Ok(Tri(2)) && w == Evaluate(f, defs, env, host, rank, n))
            && (c.Ok? && !IsFalse(c.value) ==> v == Ok(Tri(0)) && w == Evaluate(t, defs, env, host, rank, n))
  {
    hide Truthy, IsFalse;
    var c := Evaluate(g, defs, env, host, rank, n);
    if c.Ok? {
      FalseIs(c.value);
    }
  }

  // ----- symbols -----

  /** A true value under a derived symbol of this kind. */
  function Converted(kind: SymbolType, v: Value): Value {
    if kind == Bool && (v.Tri? || (v.Num? && !v.long)) then Tri(2)
    else if kind == Numeric && v.Tri? then Num(1, false)
    else v
  }

  /** A symbol that is set reads as its value, and a derived one as that of its definition in its type; what is
      false, unset or undefined reads as n. */
  lemma SymbolMeans(s: string, defs: Definitions, env: Environment, host: Host, rank: string -> nat, n: nat)
    requires WellFounded(defs, rank) && rank(s) < n
    ensures var v := Evaluate(Sym(s), defs, env, host, rank, n);
            && (s !in defs && (env(s).None? || IsFalse(env(s).value)) ==> v == Ok(Tri(0)))
            && (s !in defs && env(s).Some? && !IsFalse(env(s).value) ==> v == Ok(env(s).value))
            && (s in defs && defs[s].definition.None? ==> v == Ok(Tri(0)))
    ensures s in defs && defs[s].definition.Some? ==>
              var v, w := Evaluate(Sym(s), defs, env, host, rank, n), Evaluate(defs[s].definition.value, defs, env, host, rank, rank(s));
              && (w.Err? ==> v == w)
              && (w.Ok? && IsFalse(w.value) ==> v == Ok(Tri(0)))
              && (w.Ok? && !IsFalse(w.value) ==> v == Ok(Converted(defs[s].kind, w.value)))
  {
    if s in defs && defs[s].definition.Some? {
      var w := Evaluate(defs[s].definition.value, defs, env, host, rank, rank(s));
      if w.Ok? {
        CastReads(defs[s].kind, w.value);
      }
    }
  }

  lemma CastReads(kind: SymbolType, v: Value)
    ensures Read(Some(Cast(kind, v))) == if IsFalse(v) then Tri(0) else Converted(kind, v)
  {
  }

  // ----- what an expression depends on -----

  predicate Mentions(e: Exp, s: string) {
    match e
    case Const(_) => false
    case Sym(x) => x == s
    case Negate(x) => Mentions(x, s)
    case Operate(_, l, r) => Mentions(l, s) || Mentions(r, s)
    case Choose(g, t, f) => Mentions(g, s) || Mentions(t, s) || Mentions(f, s)
  }

  /** From a symbol that e mentions, definition by definition, to one that has none. */
  predicate LeadsTo(e: Exp, path: seq<string>, defs: Definitions) {
    && |path| > 0 && Mentions(e, path[0]) && path[|path| - 1] !in defs
    && forall i :: 0 <= i < |path| - 1 ==>
         path[i] in defs && defs[path[i]].definition.Some? && Mentions(defs[path[i]].definition.value, path[i + 1])
  }

  ghost predicate DependsOn(e: Exp, s: string, defs: Definitions) {
    exists path: seq<string> :: LeadsTo(e, path, defs) && path[|path| - 1] == s
  }

  /** A step in front of a path. */
  lemma PathGrows(e: Exp, s: string, path: seq<string>, defs: Definitions)
    requires s in defs && defs[s].definition.Some? && LeadsTo(defs[s].definition.value, path, defs) && Mentions(e, s)
    ensures LeadsTo(e, [s] + path, defs) && ([s] + path)[|path|] == path[|path| - 1]
  {
    hide Mentions;
  }

  lemma WiderMention(e: Exp, f: Exp, s: string, defs: Definitions)
    requires DependsOn(e, s, defs) && forall x :: Mentions(e, x) ==> Mentions(f, x)
    ensures DependsOn(f, s, defs)
  {
    hide Mentions;
    var path :| LeadsTo(e, path, defs) && path[|path| - 1] == s;
    assert LeadsTo(f, path, defs);
  }

  lemma SubDepends(e: Exp, sub: Exp, s: string, defs: Definitions)
    requires e.Negate? ==> sub == e.arg
    requires e.Operate? ==> sub == e.left || sub == e.right
    requires e.Choose? ==> sub == e.guard || sub == e.whenTrue || sub == e.whenFalse
    requires e.Negate? || e.Operate? || e.Choose?
    ensures DependsOn(sub, s, defs) ==> DependsOn(e, s, defs)
  {
    if DependsOn(sub, s, defs) {
      WiderMention(sub, e, s, defs);
    }
  }

  lemma {:induction false} FlattenedIsReached(e: Exp, s: string, defs: Definitions, rank: string -> nat, n: nat)
    requires WellFounded(defs, rank) && Below(e, rank, n) && s in Flatten(e, defs, rank, n)
    ensures DependsOn(e, s, defs)
    decreases n, e
  {
    hide DependsOn;
    match e
    case Const(_) =>
    case Sym(x) =>
      if x in defs {
        FlattenedIsReached(defs[x].definition.value, s, defs, rank, rank(x));
        ReachedThrough(x, s, defs);
      } else {
        ReachedHere(s, defs);
      }
    case Negate(x) =>
      FlattenedIsReached(x, s, defs, rank, n);
      SubDepends(e, x, s, defs);
    case Operate(_, l, r) =>
      var sub := if s in Flatten(l, defs, rank, n) then l else r;
      FlattenedIsReached(sub, s, defs, rank, n);
      SubDepends(e, sub, s, defs);
    case Choose(g, t, f) =>
      var sub := if s in Flatten(g, defs, rank, n) then g else if s in Flatten(t, defs, rank, n) then t else f;
      FlattenedIsReached(sub, s, defs, rank, n);
      SubDepends(e, sub, s, defs);
  }

  lemma ReachedHere(s: string, defs: Definitions)
    requires s !in defs
    ensures DependsOn(Sym(s), s, defs)
  {
    assert LeadsTo(Sym(s), [s], defs);
  }

  lemma ReachedThrough(x: string, s: string, defs: Definitions)
    requires x in defs && defs[x].definition.Some? && DependsOn(defs[x].definition.value, s, defs)
    ensures DependsOn(Sym(x), s, defs)
  {
    var path :| LeadsTo(defs[x].definition.value, path, defs) && path[|path| - 1] == s;
    PathGrows(Sym(x), x, path, defs);
  }

  lemma {:induction false} ReachedIsFlattened(e: Exp, path: seq<string>, defs: Definitions, rank: string -> nat, n: nat)
    requires WellFounded(defs, rank) && Below(e, rank, n) && LeadsTo(e, path, defs)
    ensures path[|path| - 1] in Flatten(e, defs, rank, n)
    decreases n, e
  {
    var s := path[0];
    match e
    case Const(_) =>
    case Sym(x) =>
      if |path| > 1 {
        assert LeadsTo(defs[x].definition.value, path[1..], defs);
        ReachedIsFlattened(defs[x].definition.value, path[1..], defs, rank, rank(x));
      }
    case Negate(x) => ReachedIsFlattened(x, path, defs, rank, n);
    case Operate(_, l, r) =>
      ReachedIsFlattened(if Mentions(l, s) then l else r, path, defs, rank, n);
    case Choose(g, t, f) =>
      ReachedIsFlattened(if Mentions(g, s) then g else if Mentions(t, s) then t else f, path, defs, rank, n);
  }

  /** Flattening gives the symbols without a definition to which definitions lead from those mentioned. */
  lemma FlattenedExactly(e: Exp, s: string, defs: Definitions, rank: string -> nat, n: nat)
    requires WellFounded(defs, rank) && Below(e, rank, n)
    ensures s in Flatten(e, defs, rank, n) <==> DependsOn(e, s, defs)
  {
    hide Flatten, WellFounded, Below;
    if s in Flatten(e, defs, rank, n) {
      FlattenedIsReached(e, s, defs, rank, n);
    }
    if DependsOn(e, s, defs) {
      var path :| LeadsTo(e, path, defs) && path[|path| - 1] == s;
      ReachedIsFlattened(e, path, defs, rank, n);
    }
  }
}
