/** Evaluation of CML2 expressions over an environment of symbol values, and the index that says which
    requirements a symbol takes part in. */
module CmlEval {
  import opened Outcomes
  import opened CmlParse

  /** A trit is n, m or y: 0, 1 or 2. A number is an int or a long; decimal constants are ints, hexadecimal
      ones and the results of arithmetic are longs. */
  datatype Value = Tri(level: nat) | Num(number: int, long: bool) | Str(text: string)

  const N := Tri(0)
  const Y := Tri(2)

  datatype Exp =
    | Const(value: Value)
    | Sym(name: string)
    | Negate(arg: Exp)
    | Operate(op: Op, left: Exp, right: Exp)
    | Choose(guard: Exp, whenTrue: Exp, whenFalse: Exp)

  datatype SymbolType = Bool | TriState | Numeric | Text | Untyped

  /** A symbol that is computed: its type and its definition, which may be missing. */
  datatype Derived = Derived(kind: SymbolType, definition: Option<Exp>)

  type Definitions = map<string, Derived>

  /** The values set for the symbols that are asked about; an unset symbol has none. */
  type Environment = string -> Option<Value>

  /** What the language leaves to its host: the order of objects of different types, the number a string
      denotes, and the bits of numbers. */
  datatype Host = Host(before: (Value, Value) -> bool, numberOf: string -> Option<int>, bitOr: (int, int) -> int, bitAnd: (int, int) -> int)

  datatype Fault = TypeFault | NotANumber

  // ----- values -----

  predicate Truthy(v: Value) {
    match v
    case Tri(l) => l != 0
    case Num(k, _) => k != 0
    case Str(s) => s != ""
  }

  function Tritify(b: bool): Value { if b then Y else N }

  /** Less, equal or greater: -1, 0 or 1; values of different types are never equal. */
  function Compare(a: Value, b: Value, host: Host): int {
    match (a, b)
    case (Tri(x), Tri(z)) => Sign(x - z)
    case (Num(x, _), Num(z, _)) => Sign(x - z)
    case (Str(x), Str(z)) => CompareText(x, z)
    case _ => if host.before(a, b) then -1 else 1
  }

  function Sign(d: int): int { if d < 0 then -1 else if d > 0 then 1 else 0 }

  function CompareText(a: string, b: string): int {
    if a == "" && b == "" then 0
    else if a == "" then -1
    else if b == "" then 1
    else if a[0] != b[0] then Sign(a[0] as int - b[0] as int)
    else CompareText(a[1..], b[1..])
  }

  function AsNumber(v: Value, host: Host): Result<int, Fault> {
    match v
    case Tri(l) => Ok(if l != 0 then 1 else 0)
    case Num(k, _) => Ok(k)
    case Str(s) => if host.numberOf(s).Some? then Ok(host.numberOf(s).value) else Err(NotANumber)
  }

  /** An operator on two values, apart from the three that may skip their right side. */
  function Apply(op: Op, a: Value, b: Value, host: Host): Result<Value, Fault> {
    match op
    case Eq => Ok(Tritify(Compare(a, b, host) == 0))
    case Ne => Ok(Tritify(Compare(a, b, host) != 0))
    case Le => Ok(Tritify(Compare(a, b, host) <= 0))
    case Ge => Ok(Tritify(Compare(a, b, host) >= 0))
    case Lt => Ok(Tritify(Compare(a, b, host) < 0))
    case Gt => Ok(Tritify(Compare(a, b, host) > 0))
    case Max =>
      if a.Tri? && b.Tri? then Ok(if a.level >= b.level then a else b)
      else if a.Num? && b.Num? then Ok(Num(host.bitOr(a.number, b.number), a.long || b.long))
      else Err(TypeFault)
    case Min =>
      if a.Tri? && b.Tri? then Ok(if a.level <= b.level then a else b)
      else if a.Num? && b.Num? then Ok(Num(host.bitAnd(a.number, b.number), a.long || b.long))
      else Err(TypeFault)
    case Similar => Ok(if Compare(a, b, host) != 0 then N else a)
    case Plus => Arithmetic(op, AsNumber(a, host), AsNumber(b, host))
    case Minus => Arithmetic(op, AsNumber(a, host), AsNumber(b, host))
    case Times => Arithmetic(op, AsNumber(a, host), AsNumber(b, host))
    case Or => Ok(Tritify(Truthy(a) || Truthy(b)))
    case And => Ok(Tritify(Truthy(a) && Truthy(b)))
    case Implies => Ok(Tritify(!(Truthy(a) && !Truthy(b))))
  }

  function Arithmetic(op: Op, a: Result<int, Fault>, b: Result<int, Fault>): Result<Value, Fault> {
    if a.Err? then Err(a.error)
    else if b.Err? then Err(b.error)
    else Ok(Num(if op == Plus then a.value + b.value else if op == Minus then a.value - b.value else a.value * b.value, true))
  }

  /** The left side alone decides: its right side is not evaluated. */
  predicate Decides(op: Op, left: Value) {
    (op == Or && Truthy(left)) || ((op == And || op == Implies) && !Truthy(left))
  }

  function Decided(op: Op): Value { if op == And then N else Y }

  /** The value of a definition in the type of its symbol. A long stays a number, whatever the type. */
  function Cast(kind: SymbolType, v: Value): Value {
    if kind == Bool then
      match v
      case Tri(l) => Tritify(l != 0)
      case Num(k, long) => if long then v else Tritify(k != 0)
      case Str(_) => v
    else if kind == Numeric && v.Tri? then Num(if v != N then 1 else 0, false)
    else v
  }

  /** The value of a symbol in an expression: everything false reads as n. */
  function Read(v: Option<Value>): Value { if v.Some? && Truthy(v.value) then v.value else N }

  // ----- well-founded definitions -----

  /** Every symbol that the expression names ranks below n. */
  ghost predicate Below(e: Exp, rank: string -> nat, n: nat) {
    match e
    case Const(_) => true
    case Sym(s) => rank(s) < n
    case Negate(x) => Below(x, rank, n)
    case Operate(_, l, r) => Below(l, rank, n) && Below(r, rank, n)
    case Choose(g, t, f) => Below(g, rank, n) && Below(t, rank, n) && Below(f, rank, n)
  }

  ghost predicate WellFounded(defs: Definitions, rank: string -> nat) {
    forall s :: s in defs && defs[s].definition.Some? ==> Below(defs[s].definition.value, rank, rank(s))
  }

  // ----- evaluation -----

  function Evaluate(e: Exp, defs: Definitions, env: Environment, host: Host, ghost rank: string -> nat, ghost n: nat): Result<Value, Fault>
    requires WellFounded(defs, rank) && Below(e, rank, n)
    decreases n, e
  {
    match e
    case Const(v) => Ok(v)
    case Sym(s) =>
      if s !in defs then Ok(Read(env(s)))
      else if defs[s].definition.None? then Ok(N)
      else
        var v := Evaluate(defs[s].definition.value, defs, env, host, rank, rank(s));
        if v.Err? then v else Ok(Read(Some(Cast(defs[s].kind, v.value))))
    case Negate(x) =>
      var v := Evaluate(x, defs, env, host, rank, n);
      if v.Err? then v else Ok(Tritify(!Truthy(v.value)))
    case Operate(op, l, r) =>
      var a := Evaluate(l, defs, env, host, rank, n);
      if a.Err? then a
      else if Decides(op, a.value) then Ok(Decided(op))
      else
        var b := Evaluate(r, defs, env, host, rank, n);
        if b.Err? then b else Apply(op, a.value, b.value, host)
    case Choose(g, t, f) =>
      var v := Evaluate(g, defs, env, host, rank, n);
      if v.Err? then v
      else if Truthy(v.value) then Evaluate(t, defs, env, host, rank, n)
      else Evaluate(f, defs, env, host, rank, n)
  }

  /** The base symbols of an expression, definitions followed, operators skipped. */
  function Flatten(e: Exp, defs: Definitions, ghost rank: string -> nat, ghost n: nat): seq<string>
    requires WellFounded(defs, rank) && Below(e, rank, n)
    decreases n, e
  {
    match e
    case Const(_) => []
    case Sym(s) =>
      if s !in defs then [s]
      else if defs[s].definition.None? then []
      else Flatten(defs[s].definition.value, defs, rank, rank(s))
    case Negate(x) => Flatten(x, defs, rank, n)
    case Operate(_, l, r) => Flatten(l, defs, rank, n) + Flatten(r, defs, rank, n)
    case Choose(g, t, f) => Flatten(g, defs, rank, n) + Flatten(t, defs, rank, n) + Flatten(f, defs, rank, n)
  }

  ghost predicate Agree(names: seq<string>, a: Environment, b: Environment) {
    forall s :: s in names ==> a(s) == b(s)
  }

  /** Evaluation looks at no symbol but the flattened ones. */
  lemma {:induction false} EvaluateDependsOnFlattened(e: Exp, defs: Definitions, a: Environment, b: Environment, host: Host, rank: string -> nat, n: nat)
    requires WellFounded(defs, rank) && Below(e, rank, n)
    requires Agree(Flatten(e, defs, rank, n), a, b)
    ensures Evaluate(e, defs, a, host, rank, n) == Evaluate(e, defs, b, host, rank, n)
    decreases n, e
  {
    hide Apply, Cast, Truthy, Decides;
    match e
    case Const(_) =>
    case Sym(s) =>
      if s in defs && defs[s].definition.Some? {
        EvaluateDependsOnFlattened(defs[s].definition.value, defs, a, b, host, rank, rank(s));
      }
    case Negate(x) =>
      EvaluateDependsOnFlattened(x, defs, a, b, host, rank, n);
    case Operate(_, l, r) =>
      EvaluateDependsOnFlattened(l, defs, a, b, host, rank, n);
      EvaluateDependsOnFlattened(r, defs, a, b, host, rank, n);
    case Choose(g, t, f) =>
      EvaluateDependsOnFlattened(g, defs, a, b, host, rank, n);
      EvaluateDependsOnFlattened(t, defs, a, b, host, rank, n);
      EvaluateDependsOnFlattened(f, defs, a, b, host, rank, n);
  }

  /** The rank is bookkeeping: any two that order the definitions give the same value and the same symbols. */
  lemma {:induction false} RankDoesNotMatter(e: Exp, defs: Definitions, env: Environment, host: Host, rank: string -> nat, n: nat, rank': string -> nat, n': nat)
    requires WellFounded(defs, rank) && Below(e, rank, n) && WellFounded(defs, rank') && Below(e, rank', n')
    ensures Evaluate(e, defs, env, host, rank, n) == Evaluate(e, defs, env, host, rank', n')
    ensures Flatten(e, defs, rank, n) == Flatten(e, defs, rank', n')
    decreases n, e
  {
    hide Apply, Cast, Truthy, Decides;
    match e
    case Const(_) =>
    case Sym(s) =>
      if s in defs && defs[s].definition.Some? {
        RankDoesNotMatter(defs[s].definition.value, defs, env, host, rank, rank(s), rank', rank'(s));
      }
    case Negate(x) =>
      RankDoesNotMatter(x, defs, env, host, rank, n, rank', n');
    case Operate(_, l, r) =>
      RankDoesNotMatter(l, defs, env, host, rank, n, rank', n');
      RankDoesNotMatter(r, defs, env, host, rank, n, rank', n');
    case Choose(g, t, f) =>
      RankDoesNotMatter(g, defs, env, host, rank, n, rank', n');
      RankDoesNotMatter(t, defs, env, host, rank, n, rank', n');
      RankDoesNotMatter(f, defs, env, host, rank, n, rank', n');
  }

  // ----- laws -----

  /** Skipping the right side only ever hides its fault: when both sides have values, the result is the
      operator applied to them. */
  lemma SkippingAgrees(op: Op, l: Exp, r: Exp, defs: Definitions, env: Environment, host: Host, rank: string -> nat, n: nat)
    requires WellFounded(defs, rank) && Below(l, rank, n) && Below(r, rank, n)
    ensures var a, b := Evaluate(l, defs, env, host, rank, n), Evaluate(r, defs, env, host, rank, n);
            a.Ok? && b.Ok? ==> Evaluate(Operate(op, l, r), defs, env, host, rank, n) == Apply(op, a.value, b.value, host)
  {
    hide Compare;
  }

  function NegateOf(v: Result<Value, Fault>): Result<Value, Fault> {
    if v.Err? then v else Ok(Tritify(!Truthy(v.value)))
  }

  /** An operation on what its sides give. */
  function Combined(op: Op, a: Result<Value, Fault>, b: Result<Value, Fault>, host: Host): Result<Value, Fault> {
    if a.Err? then a
    else if Decides(op, a.value) then Ok(Decided(op))
    else if b.Err? then b
    else Apply(op, a.value, b.value, host)
  }

  lemma OperationIs(op: Op, l: Exp, r: Exp, defs: Definitions, env: Environment, host: Host, rank: string -> nat, n: nat)
    requires WellFounded(defs, rank) && Below(l, rank, n) && Below(r, rank, n)
    ensures Below(Operate(op, l, r), rank, n) && Below(Negate(l), rank, n)
    ensures Evaluate(Operate(op, l, r), defs, env, host, rank, n)
         == Combined(op, Evaluate(l, defs, env, host, rank, n), Evaluate(r, defs, env, host, rank, n), host)
    ensures Evaluate(Negate(l), defs, env, host, rank, n) == NegateOf(Evaluate(l, defs, env, host, rank, n))
  {
    hide Apply, Compare, Truthy;
  }

  lemma CombinedLaws(a: Result<Value, Fault>, b: Result<Value, Fault>, host: Host)
    ensures Combined(Implies, a, b, host) == Combined(Or, NegateOf(a), b, host)
    ensures NegateOf(Combined(And, a, b, host)) == Combined(Or, NegateOf(a), NegateOf(b), host)
    ensures NegateOf(Combined(Or, a, b, host)) == Combined(And, NegateOf(a), NegateOf(b), host)
  {
    hide Compare, Arithmetic, AsNumber;
  }

  lemma CombinedOpposites(a: Result<Value, Fault>, b: Result<Value, Fault>, host: Host)
    ensures Combined(Ne, a, b, host) == NegateOf(Combined(Eq, a, b, host))
    ensures Combined(Gt, a, b, host) == NegateOf(Combined(Le, a, b, host))
    ensures Combined(Lt, a, b, host) == NegateOf(Combined(Ge, a, b, host))
  {
    hide Compare, Arithmetic;
  }

  /** Implication is what logic says it is, and De Morgan's laws hold, faults included. */
  lemma LogicIsClassical(l: Exp, r: Exp, defs: Definitions, env: Environment, host: Host, rank: string -> nat, n: nat)
    requires WellFounded(defs, rank) && Below(l, rank, n) && Below(r, rank, n)
    ensures Evaluate(Operate(Implies, l, r), defs, env, host, rank, n)
         == Evaluate(Operate(Or, Negate(l), r), defs, env, host, rank, n)
    ensures Evaluate(Negate(Operate(And, l, r)), defs, env, host, rank, n)
         == Evaluate(Operate(Or, Negate(l), Negate(r)), defs, env, host, rank, n)
    ensures Evaluate(Negate(Operate(Or, l, r)), defs, env, host, rank, n)
         == Evaluate(Operate(And, Negate(l), Negate(r)), defs, env, host, rank, n)
  {
    hide Evaluate, Combined, NegateOf;
    CombinedLaws(Evaluate(l, defs, env, host, rank, n), Evaluate(r, defs, env, host, rank, n), host);
    OperationIs(Implies, l, r, defs, env, host, rank, n);
    OperationIs(And, l, r, defs, env, host, rank, n);
    OperationIs(Or, l, r, defs, env, host, rank, n);
    OperationIs(Or, r, l, defs, env, host, rank, n);
    OperationIs(Or, Negate(l), r, defs, env, host, rank, n);
    OperationIs(Or, Negate(l), Negate(r), defs, env, host, rank, n);
    OperationIs(And, Negate(l), Negate(r), defs, env, host, rank, n);
    OperationIs(And, Operate(And, l, r), l, defs, env, host, rank, n);
    OperationIs(And, Operate(Or, l, r), l, defs, env, host, rank, n);
  }

  /** A comparison and its opposite never agree. */
  lemma OppositeComparisons(l: Exp, r: Exp, defs: Definitions, env: Environment, host: Host, rank: string -> nat, n: nat)
    requires WellFounded(defs, rank) && Below(l, rank, n) && Below(r, rank, n)
    ensures Evaluate(Operate(Ne, l, r), defs, env, host, rank, n) == NegateOf(Evaluate(Operate(Eq, l, r), defs, env, host, rank, n))
    ensures Evaluate(Operate(Gt, l, r), defs, env, host, rank, n) == NegateOf(Evaluate(Operate(Le, l, r), defs, env, host, rank, n))
    ensures Evaluate(Operate(Lt, l, r), defs, env, host, rank, n) == NegateOf(Evaluate(Operate(Ge, l, r), defs, env, host, rank, n))
  {
    hide Evaluate, Combined, NegateOf;
    CombinedOpposites(Evaluate(l, defs, env, host, rank, n), Evaluate(r, defs, env, host, rank, n), host);
    OperationIs(Ne, l, r, defs, env, host, rank, n);
    OperationIs(Eq, l, r, defs, env, host, rank, n);
    OperationIs(Gt, l, r, defs, env, host, rank, n);
    OperationIs(Le, l, r, defs, env, host, rank, n);
    OperationIs(Lt, l, r, defs, env, host, rank, n);
    OperationIs(Ge, l, r, defs, env, host, rank, n);
  }

  predicate SameType(a: Value, b: Value) { (a.Tri? && b.Tri?) || (a.Num? && b.Num?) || (a.Str? && b.Str?) }

  /** No two values of different types are put in order, in the expression or in a definition it names. */
  ghost predicate OrdersLikeWithLike(e: Exp, defs: Definitions, env: Environment, host: Host, rank: string -> nat, n: nat)
    requires WellFounded(defs, rank) && Below(e, rank, n)
    decreases n, e
  {
    match e
    case Const(_) => true
    case Sym(s) =>
      s in defs && defs[s].definition.Some? ==> OrdersLikeWithLike(defs[s].definition.value, defs, env, host, rank, rank(s))
    case Negate(x) => OrdersLikeWithLike(x, defs, env, host, rank, n)
    case Operate(op, l, r) =>
      && OrdersLikeWithLike(l, defs, env, host, rank, n) && OrdersLikeWithLike(r, defs, env, host, rank, n)
      && (op == Le || op == Ge || op == Lt || op == Gt ==>
            var a, b := Evaluate(l, defs, env, host, rank, n), Evaluate(r, defs, env, host, rank, n);
            a.Ok? && b.Ok? ==> SameType(a.value, b.value))
    case Choose(g, t, f) =>
      && OrdersLikeWithLike(g, defs, env, host, rank, n)
      && OrdersLikeWithLike(t, defs, env, host, rank, n)
      && OrdersLikeWithLike(f, defs, env, host, rank, n)
  }

  lemma ApplyIgnoresOrder(op: Op, a: Value, b: Value, host: Host, other: Host)
    requires other == host.(before := other.before)
    requires op == Le || op == Ge || op == Lt || op == Gt ==> SameType(a, b)
    ensures Apply(op, a, b, host) == Apply(op, a, b, other)
  {
    hide CompareText;
  }

  /** The order that the host happens to have between values of different types shows in nothing but an
      ordering of such values; testing them for equality does not depend on it. */
  lemma {:induction false} HostOrderDoesNotShow(e: Exp, defs: Definitions, env: Environment, host: Host, other: Host, rank: string -> nat, n: nat)
    requires WellFounded(defs, rank) && Below(e, rank, n) && OrdersLikeWithLike(e, defs, env, host, rank, n)
    requires other == host.(before := other.before)
    ensures Evaluate(e, defs, env, host, rank, n) == Evaluate(e, defs, env, other, rank, n)
    decreases n, e
  {
    hide Apply, Cast, Truthy, Decides;
    match e
    case Const(_) =>
    case Sym(s) =>
      if s in defs && defs[s].definition.Some? {
        HostOrderDoesNotShow(defs[s].definition.value, defs, env, host, other, rank, rank(s));
      }
    case Negate(x) =>
      HostOrderDoesNotShow(x, defs, env, host, other, rank, n);
    case Operate(op, l, r) =>
      HostOrderDoesNotShow(l, defs, env, host, other, rank, n);
      HostOrderDoesNotShow(r, defs, env, host, other, rank, n);
      var a, b := Evaluate(l, defs, env, host, rank, n), Evaluate(r, defs, env, host, rank, n);
      if a.Ok? && b.Ok? {
        ApplyIgnoresOrder(op, a.value, b.value, host, other);
      }
    case Choose(g, t, f) =>
      HostOrderDoesNotShow(g, defs, env, host, other, rank, n);
      HostOrderDoesNotShow(t, defs, env, host, other, rank, n);
      HostOrderDoesNotShow(f, defs, env, host, other, rank, n);
  }

  /** On values of one type comparing is a total order. */
  lemma {:induction false} TextOrder(a: string, b: string, c: string)
    ensures CompareText(a, b) == -CompareText(b, a)
    ensures CompareText(a, b) == 0 <==> a == b
    ensures CompareText(a, b) <= 0 && CompareText(b, c) <= 0 ==> CompareText(a, c) <= 0
    decreases |a|
  {
    if a != "" && b != "" {
      TextOrder(a[1..], b[1..], if c == "" then "" else c[1..]);
      assert a == [a[0]] + a[1..] && b == [b[0]] + b[1..];
    }
  }
}
