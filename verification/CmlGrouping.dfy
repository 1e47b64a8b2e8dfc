/** How the expression parser groups operators that no bracket separates: for every two operators, by
    name, and for a printer that sets brackets only where the grouping would otherwise change. */
module CmlGrouping {
  import opened Outcomes
  import opened CmlParse

  /** Nothing that continues an expression. */
  predicate Ends(rest: seq<Token>) { |rest| == 0 || !(rest[0].Operator? || rest[0].Question?) }

  lemma EndsIsQuiet(rest: seq<Token>)
    requires Ends(rest)
    ensures Quiet(rest, 9)
  {
  }

  // ----- two operators side by side -----

  /** (a p b) q c, or a p (b q c), or a p b with q left unread. */
  datatype Grouping = First | Second | Stops

  /** The grouping of a p b q c, binding tightest to loosest: max, min and similar; the comparisons; and; or;
      implies; times; plus and minus. A product takes all that follows; comparisons and implications do
      not chain; everything else nests to the right. */
  function Groups(p: Op, q: Op): Grouping {
    match p
    case Max | Min | Similar =>
      (match q
       case Max | Min | Similar => Second
       case _ => First)
    case Eq | Ne | Lt | Gt | Ge | Le =>
      (match q
       case Max | Min | Similar => Second
       case Eq | Ne | Lt | Gt | Ge | Le => Stops
       case _ => First)
    case And =>
      (match q
       case Max | Min | Similar | Eq | Ne | Lt | Gt | Ge | Le | And => Second
       case _ => First)
    case Or =>
      (match q
       case Implies | Times | Plus | Minus => First
       case _ => Second)
    case Implies =>
      (match q
       case Implies => Stops
       case Times | Plus | Minus => First
       case _ => Second)
    case Times | Plus | Minus => Second
  }

  /** What the parser should make of a p b q c before rest. */
  function Grouped(p: Op, q: Op, a: Expr, b: Expr, c: Expr, rest: seq<Token>): Parsed
    requires Complete(c)
  {
    match Groups(p, q)
    case First => Parsed(Binary(q, Binary(p, a, b), c), rest)
    case Second => Parsed(Binary(p, a, Binary(q, b, c)), rest)
    case Stops => Parsed(Binary(p, a, b), [Operator(q)] + (Tokens(c) + rest))
  }

  lemma GroupsByLevel(p: Op, q: Op)
    ensures Groups(p, q) == Second <==> Level(q) <= RightLevel(p)
    ensures Groups(p, q) == First <==> RightLevel(p) < Level(q) && Level(p) < Level(q)
    ensures Groups(p, q) == Stops <==> RightLevel(p) < Level(q) <= Level(p)
    ensures Groups(p, q) == Stops ==> Level(q) == Level(p)
    ensures 0 < Level(p) <= 9 && RightLevel(p) <= 9
  {
  }

  /** Level k does not take the next token as its own. */
  predicate Declines(ts: seq<Token>, k: nat) {
    |ts| == 0 || ((ts[0].Operator? ==> Level(ts[0].op) != k) && (ts[0] == Question ==> k != 8))
  }

  lemma LiftPast(k: nat, ts: seq<Token>)
    requires 0 < k <= 9 && NoNegationFirst(ts)
    requires ParseLevel(k - 1, ts).Ok? ==> Declines(ParseLevel(k - 1, ts).value.rest, k)
    ensures ParseLevel(k, ts) == ParseLevel(k - 1, ts)
  {
    hide ParseAtom, Join, ParseBranches;
  }

  /** From level j to level k past a token of level j or of none above it. */
  lemma {:induction false} ClimbPast(j: nat, k: nat, ts: seq<Token>)
    requires j <= k <= 9 && NoNegationFirst(ts) && ParseLevel(j, ts).Ok?
    requires forall i :: j < i <= k ==> Declines(ParseLevel(j, ts).value.rest, i)
    ensures ParseLevel(k, ts) == ParseLevel(j, ts)
    decreases k - j
  {
    hide ParseLevel, Declines;
    if j < k {
      LiftPast(j + 1, ts);
      ClimbPast(j + 1, k, ts);
    }
  }

  /** An operand that stands in brackets, or is a leaf, at level k. */
  lemma OperandAt(k: nat, e: Expr, rest: seq<Token>)
    requires k <= 9 && Complete(e) && NotFree(e) && Quiet(rest, k)
    ensures ParseLevel(k, Tokens(e) + rest) == Ok(Parsed(e, rest)) && NoNegationFirst(Tokens(e) + rest)
  {
    hide Tokens, ParseAtom, ParseLevel, NotFree, Quiet;
    AtomOutcome(e, rest);
    OutcomeAtLevel(k, e, rest);
    OperandFirst(e, rest);
  }

  /** l op r, where l has been read at the level below the operator's and r is read at the level of its right side. */
  lemma OperationAt(op: Op, k: nat, ts: seq<Token>, l: Expr, more: seq<Token>, r: Expr, rest: seq<Token>)
    requires 0 < Level(op) <= k <= 9 && NoNegationFirst(ts)
    requires ParseLevel(Level(op) - 1, ts) == Ok(Parsed(l, [Operator(op)] + more))
    requires ParseLevel(RightLevel(op), more) == Ok(Parsed(r, rest))
    requires forall i :: Level(op) < i <= k ==> Declines(rest, i)
    ensures ParseLevel(k, ts) == Ok(Parsed(Binary(op, l, r), rest))
  {
    hide ParseLevel, Declines, Level, RightLevel;
    OperatorLevel(op, ts, l, more);
    ClimbPast(Level(op), k, ts);
  }

  lemma QuietDeclines(rest: seq<Token>, k: nat)
    requires Quiet(rest, k)
    ensures forall i :: 0 <= i <= k ==> Declines(rest, i) && Quiet(rest, i)
  {
  }

  lemma OperatorQuiet(op: Op, more: seq<Token>, k: nat)
    requires k < Level(op)
    ensures Quiet([Operator(op)] + more, k)
  {
  }

  lemma OperatorDeclined(op: Op, more: seq<Token>)
    ensures forall i :: 0 <= i && i != Level(op) ==> Declines([Operator(op)] + more, i)
  {
  }

  /** Three operands in brackets, or leaves. */
  predicate Operands(a: Expr, b: Expr, c: Expr) {
    Complete(a) && Complete(b) && Complete(c) && NotFree(a) && NotFree(b) && NotFree(c)
  }

  /** The right side of p takes q along. */
  lemma SecondFirst(p: Op, q: Op, a: Expr, b: Expr, c: Expr, rest: seq<Token>)
    requires Operands(a, b, c) && Quiet(rest, 9) && 0 < Level(p) <= 9 && 0 < Level(q) <= RightLevel(p)
    ensures ParseLevel(9, Tokens(a) + ([Operator(p)] + (Tokens(b) + ([Operator(q)] + (Tokens(c) + rest)))))
         == Ok(Parsed(Binary(p, a, Binary(q, b, c)), rest))
  {
    hide Tokens, ParseLevel, NotFree, Complete, Level, RightLevel, Quiet, Declines;
    var more := Tokens(c) + rest;
    var mid := Tokens(b) + ([Operator(q)] + more);
    QuietDeclines(rest, 9);
    OperandAt(RightLevel(q), c, rest);
    OperatorQuiet(q, more, Level(q) - 1);
    OperandAt(Level(q) - 1, b, [Operator(q)] + more);
    OperationAt(q, RightLevel(p), mid, b, more, c, rest);
    OperatorQuiet(p, mid, Level(p) - 1);
    OperandAt(Level(p) - 1, a, [Operator(p)] + mid);
    OperationAt(p, 9, Tokens(a) + ([Operator(p)] + mid), a, mid, Binary(q, b, c), rest);
  }

  /** The right side of p stops at q. */
  lemma StopsAtSecond(p: Op, q: Op, k: nat, a: Expr, b: Expr, more: seq<Token>)
    requires Complete(a) && Complete(b) && NotFree(a) && NotFree(b)
    requires 0 < Level(p) <= k <= 9 && RightLevel(p) < Level(q) && (k < Level(q) || Level(q) == Level(p))
    ensures var ts := Tokens(a) + ([Operator(p)] + (Tokens(b) + ([Operator(q)] + more)));
            NoNegationFirst(ts) && ParseLevel(k, ts) == Ok(Parsed(Binary(p, a, b), [Operator(q)] + more))
  {
    hide Tokens, ParseLevel, NotFree, Complete, Level, RightLevel, Quiet, Declines;
    var mid := Tokens(b) + ([Operator(q)] + more);
    OperatorQuiet(q, more, RightLevel(p));
    OperandAt(RightLevel(p), b, [Operator(q)] + more);
    OperatorDeclined(q, more);
    OperatorQuiet(p, mid, Level(p) - 1);
    OperandAt(Level(p) - 1, a, [Operator(p)] + mid);
    OperationAt(p, k, Tokens(a) + ([Operator(p)] + mid), a, mid, b, [Operator(q)] + more);
  }

  lemma FirstFirst(p: Op, q: Op, a: Expr, b: Expr, c: Expr, rest: seq<Token>)
    requires Operands(a, b, c) && Quiet(rest, 9) && RightLevel(p) < Level(q) && 0 < Level(p) < Level(q) <= 9
    ensures ParseLevel(9, Tokens(a) + ([Operator(p)] + (Tokens(b) + ([Operator(q)] + (Tokens(c) + rest)))))
         == Ok(Parsed(Binary(q, Binary(p, a, b), c), rest))
  {
    hide Tokens, ParseLevel, NotFree, Complete, Level, RightLevel, Quiet, Declines;
    var more := Tokens(c) + rest;
    QuietDeclines(rest, 9);
    OperandAt(RightLevel(q), c, rest);
    StopsAtSecond(p, q, Level(q) - 1, a, b, more);
    OperationAt(q, 9, Tokens(a) + ([Operator(p)] + (Tokens(b) + ([Operator(q)] + more))), Binary(p, a, b), more, c, rest);
  }

  /** Every two operators, between complete expressions without negation. */
  lemma TwoOperators(p: Op, q: Op, a: Expr, b: Expr, c: Expr, rest: seq<Token>)
    requires Complete(a) && Complete(b) && Complete(c) && NotFree(a) && NotFree(b) && NotFree(c) && Ends(rest)
    ensures ParseExprInner(Tokens(a) + ([Operator(p)] + (Tokens(b) + ([Operator(q)] + (Tokens(c) + rest)))))
         == Ok(Grouped(p, q, a, b, c, rest))
  {
    hide Tokens, ParseExprInner, ParseLevel, NotFree, Complete, Level, RightLevel, Quiet, Groups, Ends;
    GroupsByLevel(p, q);
    GroupsByLevel(q, p);
    EndsIsQuiet(rest);
    match Groups(p, q) {
      case First => FirstFirst(p, q, a, b, c, rest);
      case Second => SecondFirst(p, q, a, b, c, rest);
      case Stops => StopsAtSecond(p, q, 9, a, b, Tokens(c) + rest);
    }
    TopLevel(Tokens(a) + ([Operator(p)] + (Tokens(b) + ([Operator(q)] + (Tokens(c) + rest)))));
  }

  lemma TopLevel(ts: seq<Token>)
    ensures ParseLevel(9, ts) == ParseExprInner(ts)
  {
    hide ParseExprInner;
  }

  // ----- brackets only where they are needed -----

  /** How loosely an expression holds together; what is looser than its place needs brackets. */
  function Looseness(e: Expr): nat {
    match e
    case Binary(Max, _, _) | Binary(Min, _, _) | Binary(Similar, _, _) => 1
    case Binary(Eq, _, _) | Binary(Ne, _, _) | Binary(Lt, _, _) | Binary(Gt, _, _) | Binary(Ge, _, _) | Binary(Le, _, _) => 2
    case Binary(And, _, _) => 3
    case Binary(Or, _, _) => 4
    case Binary(Implies, _, _) => 5
    case Binary(Times, _, _) => 6
    case Ternary(_, _, _) => 7
    case Binary(Plus, _, _) | Binary(Minus, _, _) => 8
    case _ => 0
  }

  /** The loosest expression that may stand bare to the left of the operator, and to its right. */
  function LeftLimit(op: Op): nat {
    match op
    case Max | Min | Similar => 0
    case Eq | Ne | Lt | Gt | Ge | Le => 1
    case And => 2
    case Or => 3
    case Implies => 4
    case Times => 5
    case Plus | Minus => 7
  }

  function RightLimit(op: Op): nat {
    match op
    case Max | Min | Similar => 1
    case Eq | Ne | Lt | Gt | Ge | Le => 1
    case And => 3
    case Or => 4
    case Implies => 4
    case Times => 8
    case Plus | Minus => 8
  }

  /** A product, or a choice that ends in one, would take a sum that follows. */
  predicate Swallows(e: Expr) {
    match e
    case Binary(Times, _, _) => true
    case Ternary(_, _, Binary(Times, _, _)) => true
    case _ => false
  }

  function Place(e: Expr, limit: nat, open: bool): (ts: seq<Token>)
    requires Complete(e) && NotFree(e)
    ensures |ts| > 0 && (ts[0].Leaf? || ts[0] == Open)
    decreases e, 1
  {
    if Looseness(e) <= limit && (open || !Swallows(e)) then Bare(e) else [Open] + Bare(e) + [Close]
  }

  /** The expression without a bracket around it, and with no more inside than grouping asks for. */
  function Bare(e: Expr): (ts: seq<Token>)
    requires Complete(e) && NotFree(e)
    ensures |ts| > 0 && (ts[0].Leaf? || ts[0] == Open)
    decreases e, 0
  {
    match e
    case Atom(kind, text) => [Leaf(kind, text)]
    case Binary(op, l, r) => Place(l, LeftLimit(op), false) + [Operator(op)] + Place(r, RightLimit(op), true)
    case Ternary(g, t, f) => Place(g, 6, false) + [Question] + Place(t, 6, true) + [Colon] + Place(f, 6, true)
  }

  /** The parser's level for what is this loose. */
  function LevelFor(looseness: nat): (k: nat)
    requires looseness <= 8
    ensures k <= 9
  {
    if looseness <= 2 then looseness else looseness + 1
  }

  lemma LimitsAgree(op: Op, l: Expr, r: Expr)
    ensures Looseness(Binary(op, l, r)) <= 8 && LevelFor(Looseness(Binary(op, l, r))) == Level(op) > 0
    ensures LeftLimit(op) <= 7 && RightLimit(op) <= 8 && LevelFor(LeftLimit(op)) <= Level(op) - 1 && LevelFor(RightLimit(op)) == RightLevel(op)
    ensures RightLevel(op) <= Level(op) || Swallows(Binary(op, l, r))
    ensures RightLimit(op) < 6 || RightLimit(op) == 8 == RightLevel(op) - 1
    ensures RightLimit(op) == 8 ==> Level(op) == 9 || Swallows(Binary(op, l, r))
  {
  }

  lemma PlaceLimit(e: Expr)
    ensures Looseness(e) <= 8 && (Swallows(e) ==> Looseness(e) >= 6)
  {
  }

  /** Text of a bracket, or of an operation, before more. */
  lemma StartsWell(ts: seq<Token>, rest: seq<Token>)
    requires |ts| > 0 && (ts[0].Leaf? || ts[0] == Open)
    ensures NoNegationFirst(ts + rest)
  {
  }

  /** What may follow e: nothing that a level up to that of its place takes, and nothing at all that
      continues an expression when e would take it. */
  predicate MayFollow(rest: seq<Token>, e: Expr, k: nat) { Quiet(rest, k) && (Swallows(e) ==> Quiet(rest, 9)) }

  lemma {:induction false} PlaceReads(e: Expr, limit: nat, open: bool, k: nat, rest: seq<Token>)
    requires Complete(e) && NotFree(e) && limit <= 8 && LevelFor(limit) <= k <= 9
    requires Quiet(rest, k) && (open && Looseness(e) <= limit ==> MayFollow(rest, e, k))
    ensures ParseLevel(k, Place(e, limit, open) + rest) == Ok(Parsed(e, rest)) && NoNegationFirst(Place(e, limit, open) + rest)
    decreases e, 1, 0
  {
    hide ParseLevel, Bare, Quiet, Looseness, Swallows, NotFree, Complete;
    PlaceLimit(e);
    StartsWell(Place(e, limit, open), rest);
    if Looseness(e) <= limit && (open || !Swallows(e)) {
      QuietDeclines(rest, k);
      BareReads(e, rest);
      Climb(LevelFor(Looseness(e)), k, Bare(e) + rest);
    } else {
      var inner := Bare(e) + ([Close] + rest);
      assert Quiet([Close] + rest, 9) by { EndsIsQuiet([Close] + rest); }
      QuietDeclines([Close] + rest, 9);
      StartsWell(Bare(e), [Close] + rest);
      BareReads(e, [Close] + rest);
      Climb(LevelFor(Looseness(e)), 9, inner);
      Bracket(inner, e, rest);
      assert Place(e, limit, open) + rest == [Open] + inner;
      AtomLevel([Open] + inner);
      Climb(0, k, [Open] + inner);
    }
  }

  lemma AtomLevel(ts: seq<Token>)
    ensures ParseLevel(0, ts) == ParseAtom(ts)
  {
    hide ParseAtom;
  }

  lemma {:induction false} BareReads(e: Expr, rest: seq<Token>)
    requires Complete(e) && NotFree(e) && Looseness(e) <= 8 && MayFollow(rest, e, LevelFor(Looseness(e)))
    ensures ParseLevel(LevelFor(Looseness(e)), Bare(e) + rest) == Ok(Parsed(e, rest))
    decreases e, 0, 1
  {
    hide ParseLevel, Place, ParseAtom;
    match e
    case Atom(_, _) =>
      LeafReads(e, rest);
    case Binary(op, l, r) =>
      OperationReads(e, rest);
    case Ternary(g, t, f) =>
      ChoiceReads(e, rest);
  }

  lemma LeafReads(e: Expr, rest: seq<Token>)
    requires e.Atom?
    ensures ParseLevel(0, Bare(e) + rest) == Ok(Parsed(e, rest))
  {
    assert (Bare(e) + rest)[1..] == rest;
  }

  lemma {:induction false} OperationReads(e: Expr, rest: seq<Token>)
    requires e.Binary? && Complete(e) && NotFree(e) && Looseness(e) <= 8 && MayFollow(rest, e, LevelFor(Looseness(e)))
    ensures ParseLevel(LevelFor(Looseness(e)), Bare(e) + rest) == Ok(Parsed(e, rest))
    decreases e, 0, 0
  {
    hide ParseLevel, Place, Quiet, Level, RightLevel, Looseness, LeftLimit, RightLimit, LevelFor, Declines;
    var op, l, r := e.op, e.left, e.right;
    LimitsAgree(op, l, r);
    PlaceLimit(r);
    QuietDeclines(rest, if Swallows(e) then 9 else Level(op));
    var more := Place(r, RightLimit(op), true) + rest;
    var left := Place(l, LeftLimit(op), false);
    PlaceReads(r, RightLimit(op), true, RightLevel(op), rest);
    OperatorQuiet(op, more, Level(op) - 1);
    PlaceReads(l, LeftLimit(op), false, Level(op) - 1, [Operator(op)] + more);
    OperationAt(op, Level(op), left + ([Operator(op)] + more), l, more, r, rest);
    assert Bare(e) + rest == left + ([Operator(op)] + more);
  }

  lemma {:induction false} ChoiceReads(e: Expr, rest: seq<Token>)
    requires e.Ternary? && Complete(e) && NotFree(e) && MayFollow(rest, e, 8)
    ensures ParseLevel(8, Bare(e) + rest) == Ok(Parsed(e, rest))
    decreases e, 0, 0
  {
    hide ParseLevel, Place, Quiet, ParseSummand, ParseTernary, ParseBranches;
    var g, t, f := e.guard, e.whenTrue, e.whenFalse;
    var more2 := Place(f, 6, true) + rest;
    var more1 := Place(t, 6, true) + ([Colon] + more2);
    var guard := Place(g, 6, false);
    QuietDeclines(rest, 8);
    FalseSideSwallows(g, t, f);
    PlaceReads(f, 6, true, 7, rest);
    EndsIsQuiet([Colon] + more2);
    QuietDeclines([Colon] + more2, 9);
    PlaceReads(t, 6, true, 7, [Colon] + more2);
    QuestionQuiet(more1);
    PlaceReads(g, 6, false, 7, [Question] + more1);
    SummandLevel(guard + ([Question] + more1));
    SummandLevel(more1);
    SummandLevel(more2);
    QuestionLevel(guard + ([Question] + more1), g, more1);
    ColonLevel(g, more1, t, more2);
    assert Bare(e) + rest == guard + ([Question] + more1);
  }

  lemma FalseSideSwallows(g: Expr, t: Expr, f: Expr)
    ensures Looseness(f) <= 6 && Swallows(f) ==> Swallows(Ternary(g, t, f))
  {
  }

  lemma QuestionQuiet(more: seq<Token>)
    ensures Quiet([Question] + more, 7)
  {
  }

  lemma SummandLevel(ts: seq<Token>)
    ensures ParseLevel(7, ts) == ParseSummand(ts)
    ensures ParseLevel(8, ts) == ParseTernary(ts)
  {
    hide ParseSummand, ParseTernary;
  }

  /** Printed with these brackets only, every expression without negation comes back. */
  lemma GroupingIsKept(e: Expr, rest: seq<Token>)
    requires Complete(e) && NotFree(e) && Ends(rest)
    ensures ParseExprInner(Place(e, 8, true) + rest) == Ok(Parsed(e, rest))
  {
    hide ParseLevel, ParseExprInner, Place, Quiet, Ends;
    EndsIsQuiet(rest);
    PlaceReads(e, 8, true, 9, rest);
    TopLevel(Place(e, 8, true) + rest);
  }

  /** The left operation of two stands without brackets exactly when the parser groups it first, the right
      one exactly when it groups that one first. */
  lemma BracketsOnlyWhereNeeded(p: Op, q: Op, a: Expr, b: Expr, c: Expr)
    requires Operands(a, b, c)
    ensures var l, r := Binary(p, a, b), Binary(q, b, c);
            && (Place(l, LeftLimit(q), false) == Bare(l) <==> Groups(p, q) == First)
            && (Place(r, RightLimit(p), true) == Bare(r) <==> Groups(p, q) == Second)
  {
    hide Bare;
    var l, r := Binary(p, a, b), Binary(q, b, c);
    assert |[Open] + Bare(l) + [Close]| != |Bare(l)| && |[Open] + Bare(r) + [Close]| != |Bare(r)|;
  }
}
