/** The compiler's type deduction for derived symbols: passes over the dictionary, in whatever order it
    has, until one changes nothing. */
module CmlDeduce {
  import opened Outcomes
  import opened CmlParse
  import opened CmlEval

  datatype Type = Boolean | Tristate | Decimal | Hexadecimal | Text | Menu

  /** A dictionary entry: its declared type, whether it is a derivation, and its definition. */
  datatype Entry = Entry(declared: Option<Type>, derived: bool, definition: Option<Exp>)

  /** Where the type of a definition comes from: itself, another symbol, or nowhere. */
  datatype Lead = Fixed(found: Type) | Follow(name: string) | Stuck

  function OpLead(op: Op): Lead {
    match Level(op)
    case 1 => Fixed(Tristate)
    case 2 | 4 | 5 | 6 => Fixed(Boolean)
    case _ => Fixed(Type.Decimal)
  }

  function LeadOf(entry: Entry): Lead {
    match entry.definition
    case None => Stuck
    case Some(Const(Tri(l))) => Fixed(if l == 1 then Tristate else Boolean)
    case Some(Const(Num(_, long))) => if long then Stuck else Fixed(Type.Decimal)
    case Some(Const(Str(_))) => Fixed(Type.Text)
    case Some(Sym(s)) => Follow(s)
    case Some(Operate(op, _, _)) => OpLead(op)
    case Some(Negate(_)) => Stuck
    case Some(Choose(_, Sym(s), _)) => Follow(s)
    case Some(Choose(_, Const(Tri(_)), _)) => Fixed(Tristate)
    case Some(Choose(_, Const(Num(_, _)), _)) => Fixed(Type.Decimal)
    case Some(Choose(_, Const(Str(_)), _)) => Fixed(Type.Text)
    case Some(Choose(_, _, _)) => Stuck
  }

  // ----- what the definitions mean, apart from any loop -----

  /** The type reached from s by at most n references through untyped derivations. */
  function TypeWithin(entries: map<string, Entry>, s: string, n: nat): Option<Type>
    decreases n
  {
    if s !in entries then None
    else if entries[s].declared.Some? then entries[s].declared
    else if !entries[s].derived then None
    else match LeadOf(entries[s])
      case Fixed(t) => Some(t)
      case Stuck => None
      case Follow(r) => if n == 0 then None else TypeWithin(entries, r, n - 1)
  }

  ghost predicate Reaches(entries: map<string, Entry>, s: string, t: Type) {
    exists n: nat :: TypeWithin(entries, s, n) == Some(t)
  }

  lemma {:induction false} LongerReach(entries: map<string, Entry>, s: string, n: nat, k: nat)
    requires TypeWithin(entries, s, n).Some? && n <= k
    ensures TypeWithin(entries, s, k) == TypeWithin(entries, s, n)
    decreases n
  {
    hide LeadOf;
    if s in entries && entries[s].declared.None? && entries[s].derived && LeadOf(entries[s]).Follow? {
      LongerReach(entries, LeadOf(entries[s]).name, n - 1, k - 1);
    }
  }

  /** A symbol has at most one type. */
  lemma TypeIsUnique(entries: map<string, Entry>, s: string, t: Type, u: Type)
    requires Reaches(entries, s, t) && Reaches(entries, s, u)
    ensures t == u
  {
    var n: nat :| TypeWithin(entries, s, n) == Some(t);
    var k: nat :| TypeWithin(entries, s, k) == Some(u);
    if n <= k {
      LongerReach(entries, s, n, k);
    } else {
      LongerReach(entries, s, k, n);
    }
  }

  predicate OnChain(entries: map<string, Entry>, s: string) {
    s in entries && entries[s].declared.None? && entries[s].derived && LeadOf(entries[s]).Follow?
  }

  /** A derivation that only refers to itself, by however long a way, has no type. */
  lemma {:induction false} CircularHasNone(entries: map<string, Entry>, ring: set<string>, s: string, n: nat)
    requires s in ring
    requires forall r :: r in ring ==> OnChain(entries, r) && LeadOf(entries[r]).name in ring
    ensures TypeWithin(entries, s, n) == None
    decreases n
  {
    hide LeadOf;
    if n > 0 {
      CircularHasNone(entries, ring, LeadOf(entries[s]).name, n - 1);
    }
  }

  // ----- exactly which symbols stay without a type -----

  /** The symbol that a definition is, or that it is when its guard holds. */
  function Refers(definition: Exp): Option<string> {
    match definition
    case Sym(r) => Some(r)
    case Choose(_, Sym(r), _) => Some(r)
    case _ => None
  }

  /** A long number, a negation, or a choice whose first side is no constant and no symbol. */
  predicate Typeless(definition: Exp) {
    match definition
    case Const(Num(_, long)) => long
    case Negate(_) => true
    case Choose(_, t, _) => t.Negate? || t.Operate? || t.Choose?
    case _ => false
  }

  predicate Untold(entries: map<string, Entry>, s: string) {
    s in entries && entries[s].declared.None? && entries[s].derived && entries[s].definition.Some?
  }

  /** Here the search for a type ends without one. */
  predicate DeadEnd(entries: map<string, Entry>, s: string) {
    || s !in entries
    || (entries[s].declared.None? && !entries[s].derived)
    || (entries[s].declared.None? && entries[s].definition.None?)
    || (Untold(entries, s) && Typeless(entries[s].definition.value))
  }

  /** Each symbol is a derivation without a declared type that refers to the next one. */
  predicate Chain(entries: map<string, Entry>, path: seq<string>) {
    |path| > 0 && forall i :: 0 <= i < |path| - 1 ==>
      Untold(entries, path[i]) && Refers(entries[path[i]].definition.value) == Some(path[i + 1])
  }

  predicate Repeats(path: seq<string>) { exists i, j :: 0 <= i < j < |path| && path[i] == path[j] }

  lemma LeadIs(entries: map<string, Entry>, s: string)
    requires s in entries && entries[s].declared.None? && entries[s].derived
    ensures LeadOf(entries[s]).Stuck? <==> DeadEnd(entries, s)
    ensures LeadOf(entries[s]).Follow? <==> Untold(entries, s) && Refers(entries[s].definition.value).Some?
    ensures LeadOf(entries[s]).Follow? ==> Refers(entries[s].definition.value) == Some(LeadOf(entries[s]).name)
  {
  }

  /** A chain has as much of a type as its end has. */
  lemma {:induction false} ChainEnd(entries: map<string, Entry>, path: seq<string>, k: nat, n: nat)
    requires Chain(entries, path) && k < |path|
    requires TypeWithin(entries, path[0], n).Some?
    ensures k <= n && TypeWithin(entries, path[k], n - k).Some?
    decreases k
  {
    hide LeadOf, Refers;
    if k > 0 {
      ChainEnd(entries, path, k - 1, n);
      assert Untold(entries, path[k - 1]) && Refers(entries[path[k - 1]].definition.value) == Some(path[k - 1 + 1]);
      LeadIs(entries, path[k - 1]);
    }
  }

  lemma RingOfChain(entries: map<string, Entry>, path: seq<string>, i: nat, j: nat, n: nat)
    requires Chain(entries, path) && i < j < |path| && path[i] == path[j]
    ensures TypeWithin(entries, path[i], n) == None
  {
    hide LeadOf, Refers, TypeWithin;
    var ring := set k | i <= k < j :: path[k];
    forall r | r in ring
      ensures OnChain(entries, r) && LeadOf(entries[r]).name in ring
    {
      var k :| i <= k < j && path[k] == r;
      LeadIs(entries, r);
      assert path[k + 1] in ring by {
        if k + 1 == j { assert path[k + 1] == path[i]; }
      }
    }
    CircularHasNone(entries, ring, path[i], n);
  }

  /** From a symbol without a type a chain leads as far as one likes, or to a dead end. */
  lemma {:induction false} LongChain(entries: map<string, Entry>, s: string, k: nat) returns (path: seq<string>)
    requires forall t :: !Reaches(entries, s, t)
    ensures Chain(entries, path) && path[0] == s
    ensures DeadEnd(entries, path[|path| - 1]) || |path| > k
    decreases k
  {
    hide LeadOf, Refers, Reaches, TypeWithin;
    path := [s];
    if k > 0 && !DeadEnd(entries, s) {
      NoTypeGoesOn(entries, s);
      var r := Refers(entries[s].definition.value).value;
      var rest := LongChain(entries, r, k - 1);
      path := [s] + rest;
      assert forall i :: 0 < i < |path| ==> path[i] == rest[i - 1];
    }
  }

  lemma TypeAtHand(entries: map<string, Entry>, s: string)
    requires s in entries
    ensures entries[s].declared.Some? ==> Reaches(entries, s, entries[s].declared.value)
    ensures entries[s].declared.None? && entries[s].derived && LeadOf(entries[s]).Fixed? ==> Reaches(entries, s, LeadOf(entries[s]).found)
  {
    hide LeadOf;
    assert entries[s].declared.Some? ==> TypeWithin(entries, s, 0) == entries[s].declared;
    assert entries[s].declared.None? && entries[s].derived && LeadOf(entries[s]).Fixed? ==>
        TypeWithin(entries, s, 0) == Some(LeadOf(entries[s]).found);
  }

  lemma TypeOneFurther(entries: map<string, Entry>, s: string, t: Type)
    requires OnChain(entries, s) && Reaches(entries, LeadOf(entries[s]).name, t)
    ensures Reaches(entries, s, t)
  {
    hide LeadOf;
    var n: nat :| TypeWithin(entries, LeadOf(entries[s]).name, n) == Some(t);
    assert TypeWithin(entries, s, n + 1) == Some(t);
  }

  lemma NoTypeGoesOn(entries: map<string, Entry>, s: string)
    requires (forall t :: !Reaches(entries, s, t)) && !DeadEnd(entries, s)
    ensures Untold(entries, s) && Refers(entries[s].definition.value).Some?
    ensures forall t :: !Reaches(entries, Refers(entries[s].definition.value).value, t)
  {
    hide LeadOf, Refers, Typeless, Reaches;
    TypeAtHand(entries, s);
    LeadIs(entries, s);
    forall t | Reaches(entries, LeadOf(entries[s]).name, t)
      ensures Reaches(entries, s, t)
    {
      TypeOneFurther(entries, s, t);
    }
  }

  /** A sequence of members of a set that is longer than the set repeats itself. */
  lemma {:induction false} LongRepeats(path: seq<string>, all: set<string>)
    requires (forall i :: 0 <= i < |path| ==> path[i] in all) && |path| > |all|
    ensures Repeats(path)
    decreases |path|
  {
    var n := |path| - 1;
    if i :| 0 <= i < n && path[i] == path[n] {
    } else if |path| > 1 {
      LongRepeats(path[..n], all - {path[n]});
      var i, j :| 0 <= i < j < n && path[..n][i] == path[..n][j];
      assert path[i] == path[j];
    }
  }

  /** The chain of references from s comes back to a symbol of its own, or leads to a dead end. */
  ghost predicate LeadsNowhere(entries: map<string, Entry>, s: string) {
    exists path :: Chain(entries, path) && path[0] == s && (Repeats(path) || DeadEnd(entries, path[|path| - 1]))
  }

  /** Which symbols have no type: exactly those whose references lead nowhere. */
  lemma UntypedExactly(entries: map<string, Entry>, s: string)
    ensures (forall t :: !Reaches(entries, s, t)) <==> LeadsNowhere(entries, s)
  {
    hide LeadOf, Refers, Typeless, DeadEnd;
    if forall t :: !Reaches(entries, s, t) {
      var path := LongChain(entries, s, |entries.Keys| + 1);
      if !DeadEnd(entries, path[|path| - 1]) {
        var front := path[..|path| - 1];
        LongRepeats(front, entries.Keys);
        var i, j :| 0 <= i < j < |front| && front[i] == front[j];
        assert path[i] == path[j];
      }
    }
    if path :| Chain(entries, path) && path[0] == s && (Repeats(path) || DeadEnd(entries, path[|path| - 1])) {
      forall n: nat
        ensures TypeWithin(entries, s, n) == None
      {
        ChainGivesNone(entries, path, n);
      }
    }
  }

  lemma ChainGivesNone(entries: map<string, Entry>, path: seq<string>, n: nat)
    requires Chain(entries, path) && (Repeats(path) || DeadEnd(entries, path[|path| - 1]))
    ensures TypeWithin(entries, path[0], n) == None
  {
    hide LeadOf, Refers;
    if TypeWithin(entries, path[0], n).Some? {
      if Repeats(path) {
        var i, j :| 0 <= i < j < |path| && path[i] == path[j];
        ChainEnd(entries, path, i, n);
        RingOfChain(entries, path, i, j, n - i);
      } else {
        ChainEnd(entries, path, |path| - 1, n);
        DeadEndHasNone(entries, path[|path| - 1], n - (|path| - 1));
      }
      assert false;
    }
  }

  lemma DeadEndHasNone(entries: map<string, Entry>, s: string, n: nat)
    requires DeadEnd(entries, s)
    ensures TypeWithin(entries, s, n) == None
  {
  }

  // ----- exactly which symbols have which type -----

  /** The definitions that have a type of their own: m is a trit, n and y are booleans, an int is a decimal; an
      operation has the type of its operator, and a choice that of a constant on its first side. */
  predicate Shows(definition: Exp, t: Type) {
    match t
    case Tristate =>
      (match definition
       case Const(Tri(l)) => l == 1
       case Operate(op, _, _) => op == Max || op == Min || op == Similar
       case Choose(_, Const(Tri(_)), _) => true
       case _ => false)
    case Boolean =>
      (match definition
       case Const(Tri(l)) => l != 1
       case Operate(op, _, _) => op in {And, Or, Implies, Eq, Ne, Lt, Gt, Ge, Le}
       case _ => false)
    case Decimal =>
      (match definition
       case Const(Num(_, long)) => !long
       case Operate(op, _, _) => op == Plus || op == Minus || op == Times
       case Choose(_, Const(Num(_, _)), _) => true
       case _ => false)
    case Text =>
      (match definition
       case Const(Str(_)) => true
       case Choose(_, Const(Str(_)), _) => true
       case _ => false)
    case Hexadecimal => false
    case Menu => false
  }

  predicate HasItself(entries: map<string, Entry>, s: string, t: Type) {
    && s in entries
    && (entries[s].declared == Some(t) || (Untold(entries, s) && Shows(entries[s].definition.value, t)))
  }

  /** The chain of references from s leads to a symbol that has the type by declaration or by its definition. */
  ghost predicate LeadsToType(entries: map<string, Entry>, s: string, t: Type) {
    exists path :: Chain(entries, path) && path[0] == s && HasItself(entries, path[|path| - 1], t)
  }

  lemma FixedIsShown(entries: map<string, Entry>, s: string, t: Type)
    requires s in entries && entries[s].declared.None? && entries[s].derived
    ensures LeadOf(entries[s]) == Fixed(t) <==> HasItself(entries, s, t)
  {
  }

  lemma ChainOneFurther(entries: map<string, Entry>, s: string, r: string, t: Type)
    requires Untold(entries, s) && Refers(entries[s].definition.value) == Some(r) && LeadsToType(entries, r, t)
    ensures LeadsToType(entries, s, t)
  {
    var path :| Chain(entries, path) && path[0] == r && HasItself(entries, path[|path| - 1], t);
    var longer := [s] + path;
    forall i | 0 <= i < |longer| - 1
      ensures Untold(entries, longer[i]) && Refers(entries[longer[i]].definition.value) == Some(longer[i + 1])
    {
      if i > 0 {
        assert longer[i] == path[i - 1] && longer[i + 1] == path[i - 1 + 1];
      }
    }
    assert longer[|longer| - 1] == path[|path| - 1];
  }

  lemma HereLeads(entries: map<string, Entry>, s: string, t: Type)
    requires HasItself(entries, s, t)
    ensures LeadsToType(entries, s, t)
  {
    assert Chain(entries, [s]) && [s][0] == s && [s][|[s]| - 1] == s;
  }

  lemma {:induction false} ReachLeads(entries: map<string, Entry>, s: string, t: Type, n: nat)
    requires TypeWithin(entries, s, n) == Some(t)
    ensures LeadsToType(entries, s, t)
    decreases n
  {
    hide LeadOf, Shows, Refers, LeadsToType;
    if entries[s].declared.Some? {
      HereLeads(entries, s, t);
    } else {
      FixedIsShown(entries, s, t);
      if LeadOf(entries[s]).Follow? {
        var r := LeadOf(entries[s]).name;
        LeadIs(entries, s);
        ReachLeads(entries, r, t, n - 1);
        ChainOneFurther(entries, s, r, t);
      } else {
        HereLeads(entries, s, t);
      }
    }
  }

  lemma {:induction false} LeadReaches(entries: map<string, Entry>, path: seq<string>, t: Type)
    requires Chain(entries, path) && HasItself(entries, path[|path| - 1], t)
    ensures Reaches(entries, path[0], t)
    decreases |path|
  {
    hide LeadOf, Shows, Refers;
    var s := path[0];
    if |path| == 1 {
      if entries[s].declared.None? {
        FixedIsShown(entries, s, t);
      }
      assert TypeWithin(entries, s, 0) == Some(t);
    } else {
      assert Untold(entries, path[0]) && Refers(entries[path[0]].definition.value) == Some(path[0 + 1]);
      LeadIs(entries, s);
      var rest := path[1..];
      forall i | 0 <= i < |rest| - 1
        ensures Untold(entries, rest[i]) && Refers(entries[rest[i]].definition.value) == Some(rest[i + 1])
      {
        assert rest[i] == path[i + 1] && rest[i + 1] == path[i + 1 + 1];
      }
      LeadReaches(entries, rest, t);
      var n: nat :| TypeWithin(entries, rest[0], n) == Some(t);
      assert TypeWithin(entries, s, n + 1) == Some(t);
    }
  }

  /** Which type a symbol has, said on the definitions themselves. */
  lemma TypedExactly(entries: map<string, Entry>, s: string, t: Type)
    ensures Reaches(entries, s, t) <==> LeadsToType(entries, s, t)
  {
    hide HasItself, TypeWithin;
    if Reaches(entries, s, t) {
      var n: nat :| TypeWithin(entries, s, n) == Some(t);
      ReachLeads(entries, s, t, n);
    }
    if LeadsToType(entries, s, t) {
      var path :| Chain(entries, path) && path[0] == s && HasItself(entries, path[|path| - 1], t);
      LeadReaches(entries, path, t);
    }
  }

  // ----- the loop -----

  class Deduction {
    const entries: map<string, Entry>
    var types: map<string, Type>

    constructor (entries: map<string, Entry>)
      ensures this.entries == entries && types == Declared(entries)
    {
      this.entries := entries;
      types := Declared(entries);
    }

    /** The type of one entry, if it can be told from the types known so far. */
    function Derive(s: string): Option<Type>
      requires s in entries
      reads this
    {
      match LeadOf(entries[s])
      case Fixed(t) => Some(t)
      case Stuck => None
      case Follow(r) => if r in types then Some(types[r]) else None
    }

    ghost predicate Sound()
      reads this
    {
      && types.Keys <= entries.Keys
      && (forall s :: s in entries && entries[s].declared.Some? ==> s in types)
      && (forall s :: s in types ==> Reaches(entries, s, types[s]))
    }

    /** Nothing more can be said of s. */
    ghost predicate Settled(s: string)
      requires s in entries
      reads this
    {
      entries[s].derived && s !in types ==> Derive(s) == None
    }

    /** One pass over the dictionary. */
    method Pass(order: seq<string>) returns (changed: bool)
      requires Sound() && forall i :: 0 <= i < |order| ==> order[i] in entries
      modifies this
      ensures Sound() && old(types.Keys) <= types.Keys
      ensures changed ==> old(types.Keys) != types.Keys
      ensures !changed ==> types == old(types) && forall i :: 0 <= i < |order| ==> Settled(order[i])
    {
      hide LeadOf, Reaches;
      changed := false;
      for i := 0 to |order|
        invariant Sound() && old(types.Keys) <= types.Keys
        invariant changed ==> old(types.Keys) != types.Keys
        invariant !changed ==> types == old(types) && forall j :: 0 <= j < i ==> Settled(order[j])
      {
        var s := order[i];
        if entries[s].derived && s !in types {
          var t := Derive(s);
          if t.Some? {
            DerivedReaches(entries, types, s, t.value);
            types := types[s := t.value];
            changed := true;
          }
        }
      }
    }

    /** A pass over the whole dictionary: it types a symbol more, or nothing is left to type. */
    method PassAll(order: seq<string>) returns (changed: bool)
      requires Sound() && forall s :: s in order <==> s in entries
      modifies this
      ensures Sound() && old(types.Keys) <= types.Keys
      ensures changed ==> |entries.Keys - types.Keys| < old(|entries.Keys - types.Keys|)
      ensures !changed ==> types == old(types) && forall s :: s in entries ==> Settled(s)
    {
      hide LeadOf, Reaches, Derive;
      changed := Pass(order);
      if changed {
        FewerLeft(entries.Keys, old(types.Keys), types.Keys);
      } else {
        forall s | s in entries
          ensures Settled(s)
        {
          var i :| 0 <= i < |order| && order[i] == s;
        }
      }
    }

    /** The whole loop. The order of the dictionary does not show in the result: a symbol ends up with a
        type exactly when its references reach it, and without one exactly when they lead nowhere. */
    method Deduce(order: seq<string>)
      requires types == Declared(entries)
      requires forall s :: s in order <==> s in entries
      modifies this
      ensures types.Keys <= entries.Keys
      ensures forall s, t :: s in types && types[s] == t <==> s in entries && Reaches(entries, s, t)
      ensures forall s, t :: s in types && types[s] == t <==> LeadsToType(entries, s, t)
      ensures forall s :: s in entries ==> (s !in types <==> LeadsNowhere(entries, s))
    {
      hide LeadOf, Reaches, LeadsNowhere, LeadsToType;
      DeclaredReach(entries);
      var changed := true;
      while changed
        invariant Sound()
        invariant !changed ==> forall s :: s in entries ==> Settled(s)
        decreases |entries.Keys - types.Keys|, changed
      {
        changed := PassAll(order);
      }
      SettledIsComplete(entries, types);
      forall s, t
        ensures s in types && types[s] == t <==> LeadsToType(entries, s, t)
      {
        TypedExactly(entries, s, t);
        if Reaches(entries, s, t) {
          NoTypeOutside(entries, s, t);
        }
      }
      forall s | s in entries
        ensures s !in types <==> LeadsNowhere(entries, s)
      {
        UntypedExactly(entries, s);
        assert s in types ==> Reaches(entries, s, types[s]);
      }
    }

    /** The derived symbols that the compiler complains about. */
    method Untyped(order: seq<string>) returns (untyped: seq<string>)
      requires forall i :: 0 <= i < |order| ==> order[i] in entries
      ensures forall s :: s in untyped <==> s in order && entries[s].derived && s !in types
    {
      untyped := [];
      for i := 0 to |order|
        invariant forall s :: s in untyped <==> s in order[..i] && entries[s].derived && s !in types
      {
        assert order[..i + 1] == order[..i] + [order[i]];
        if entries[order[i]].derived && order[i] !in types {
          untyped := untyped + [order[i]];
        }
      }
      assert order[..|order|] == order;
    }
  }

  function Declared(entries: map<string, Entry>): (m: map<string, Type>)
    ensures forall s :: s in m <==> s in entries && entries[s].declared.Some?
    ensures forall s :: s in m ==> m[s] == entries[s].declared.value
  {
    map s | s in entries && entries[s].declared.Some? :: entries[s].declared.value
  }

  lemma DeclaredReach(entries: map<string, Entry>)
    ensures forall s :: s in Declared(entries) ==> Reaches(entries, s, Declared(entries)[s])
  {
    forall s | s in Declared(entries)
      ensures Reaches(entries, s, Declared(entries)[s])
    {
      assert TypeWithin(entries, s, 0) == Some(Declared(entries)[s]);
    }
  }

  /** What one step derives is reached. */
  lemma DerivedReaches(entries: map<string, Entry>, types: map<string, Type>, s: string, t: Type)
    requires s in entries && entries[s].declared.None? && entries[s].derived
    requires forall r :: r in types ==> Reaches(entries, r, types[r])
    requires LeadOf(entries[s]) == Fixed(t)
          || (LeadOf(entries[s]).Follow? && LeadOf(entries[s]).name in types && types[LeadOf(entries[s]).name] == t)
    ensures Reaches(entries, s, t)
  {
    hide LeadOf;
    if LeadOf(entries[s]).Follow? {
      var n: nat :| TypeWithin(entries, LeadOf(entries[s]).name, n) == Some(t);
      assert TypeWithin(entries, s, n + 1) == Some(t);
    } else {
      assert TypeWithin(entries, s, 0) == Some(t);
    }
  }

  lemma NoTypeOutside(entries: map<string, Entry>, s: string, t: Type)
    requires Reaches(entries, s, t)
    ensures s in entries
  {
  }

  lemma FewerLeft(all: set<string>, before: set<string>, after: set<string>)
    requires before <= after <= all && before != after
    ensures |all - after| < |all - before|
  {
    var x :| x in after && x !in before;
    assert x in all - before && all - after <= (all - before) - {x};
    SubsetSize(all - after, (all - before) - {x});
  }

  lemma {:induction false} SubsetSize(a: set<string>, b: set<string>)
    requires a <= b
    ensures |a| <= |b|
    decreases a
  {
    if a != {} {
      var x :| x in a;
      SubsetSize(a - {x}, b - {x});
    }
  }

  /** When no entry can be told from the types at hand, every type that is reached is at hand. */
  lemma SettledIsComplete(entries: map<string, Entry>, types: map<string, Type>)
    requires forall s :: s in types ==> Reaches(entries, s, types[s])
    requires forall s :: s in entries && entries[s].declared.Some? ==> s in types
    requires forall s :: s in entries && entries[s].derived && s !in types ==>
               LeadOf(entries[s]).Stuck? || (LeadOf(entries[s]).Follow? && LeadOf(entries[s]).name !in types)
    ensures forall s, t :: s in entries && Reaches(entries, s, t) ==> s in types && types[s] == t
  {
    hide LeadOf;
    forall s, t | s in entries && Reaches(entries, s, t)
      ensures s in types && types[s] == t
    {
      var n: nat :| TypeWithin(entries, s, n) == Some(t);
      ReachedIsTyped(entries, types, s, n);
      TypeIsUnique(entries, s, t, types[s]);
    }
  }

  lemma {:induction false} ReachedIsTyped(entries: map<string, Entry>, types: map<string, Type>, s: string, n: nat)
    requires forall s :: s in entries && entries[s].declared.Some? ==> s in types
    requires forall s :: s in entries && entries[s].derived && s !in types ==>
               LeadOf(entries[s]).Stuck? || (LeadOf(entries[s]).Follow? && LeadOf(entries[s]).name !in types)
    requires TypeWithin(entries, s, n).Some?
    ensures s in types
    decreases n
  {
    hide LeadOf;
    if s !in types && LeadOf(entries[s]).Follow? {
      ReachedIsTyped(entries, types, LeadOf(entries[s]).name, n - 1);
    }
  }
}
