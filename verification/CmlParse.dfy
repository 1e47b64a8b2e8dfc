/** The expression parser of the CML2 compiler, one function for each of its ten levels, against the
    infix printer: printing and parsing again gives back every expression without negation, and only those. */
module CmlParse {
  import opened Outcomes

  datatype Op = Max | Min | Similar | Eq | Ne | Lt | Gt | Ge | Le | And | Or | Implies | Times | Plus | Minus

  datatype LeafKind = Word | Trit | String | Decimal | Hexadecimal

  /** The lexer's tokens. It makes no Negation: "not" comes out as a word. */
  datatype Token =
    | Leaf(kind: LeafKind, text: string)
    | Operator(op: Op)
    | Question
    | Colon
    | Open
    | Close
    | Negation
    | Keyword(word: string)
    | Other(raw: string)

  /** Missing stands for the None that parse_atom returns on a token it has no use for. */
  datatype Expr =
    | Atom(kind: LeafKind, text: string)
    | Not(arg: Expr)
    | Binary(op: Op, left: Expr, right: Expr)
    | Ternary(guard: Expr, whenTrue: Expr, whenFalse: Expr)
    | Missing

  datatype Fault = NoCloseParen | KeywordForAtom | NoColon

  datatype Parsed = Parsed(expr: Expr, rest: seq<Token>)

  /** The level whose function looks for the operator: higher ones bind looser. */
  function Level(op: Op): nat {
    match op
    case Max | Min | Similar => 1
    case Eq | Ne | Lt | Gt | Ge | Le => 2
    case And => 4
    case Or => 5
    case Implies => 6
    case Times => 7
    case Plus | Minus => 9
  }

  predicate NextIs(ts: seq<Token>, level: nat) {
    |ts| > 0 && ts[0].Operator? && Level(ts[0].op) == level
  }

  /** What every parsing function owes: it leaves a shorter or equal rest, and on tokens the lexer can
      make it builds no negation. */
  predicate Proper(ts: seq<Token>, r: Result<Parsed, Fault>) {
    r.Ok? ==> |r.value.rest| <= |ts| && (Lexed(ts) ==> Lexed(r.value.rest) && NotFree(r.value.expr))
  }

  predicate Lexed(ts: seq<Token>) { forall i :: 0 <= i < |ts| ==> ts[i] != Negation }

  predicate NotFree(e: Expr) {
    match e
    case Atom(_, _) => true
    case Not(_) => false
    case Binary(_, l, r) => NotFree(l) && NotFree(r)
    case Ternary(g, t, f) => NotFree(g) && NotFree(t) && NotFree(f)
    case Missing => true
  }

  // ----- the parser -----

  function ParseAtom(ts: seq<Token>): (r: Result<Parsed, Fault>)
    ensures Proper(ts, r)
    decreases |ts|, 0
  {
    if |ts| == 0 then Ok(Parsed(Missing, ts))
    else match ts[0]
      case Leaf(kind, text) => Ok(Parsed(Atom(kind, text), ts[1..]))
      case Open =>
        var sub := ParseExprInner(ts[1..]);
        if sub.Err? then sub
        else if |sub.value.rest| == 0 || sub.value.rest[0] != Close then Err(NoCloseParen)
        else Ok(Parsed(sub.value.expr, sub.value.rest[1..]))
      case Keyword(_) => Err(KeywordForAtom)
      case _ => Ok(Parsed(Missing, ts[1..]))
  }

  /** op with the left side already parsed and the right side next. */
  function Join(op: Op, left: Expr, right: Result<Parsed, Fault>): Result<Parsed, Fault> {
    if right.Err? then right else Ok(Parsed(Binary(op, left, right.value.expr), right.value.rest))
  }

  function ParseTerm(ts: seq<Token>): (r: Result<Parsed, Fault>)
    ensures Proper(ts, r)
    decreases |ts|, 1
  {
    var left := ParseAtom(ts);
    if left.Err? || !NextIs(left.value.rest, 1) then left
    else Join(left.value.rest[0].op, left.value.expr, ParseTerm(left.value.rest[1..]))
  }

  /** A comparison takes one right side only. */
  function ParseRelational(ts: seq<Token>): (r: Result<Parsed, Fault>)
    ensures Proper(ts, r)
    decreases |ts|, 2
  {
    var left := ParseTerm(ts);
    if left.Err? || !NextIs(left.value.rest, 2) then left
    else Join(left.value.rest[0].op, left.value.expr, ParseTerm(left.value.rest[1..]))
  }

  function ParseAssertion(ts: seq<Token>): (r: Result<Parsed, Fault>)
    ensures Proper(ts, r)
    decreases |ts|, 3
  {
    if |ts| > 0 && ts[0] == Negation then
      var arg := ParseRelational(ts[1..]);
      if arg.Err? then arg else Ok(Parsed(Not(arg.value.expr), arg.value.rest))
    else ParseRelational(ts)
  }

  function ParseConjunct(ts: seq<Token>): (r: Result<Parsed, Fault>)
    ensures Proper(ts, r)
    decreases |ts|, 4
  {
    var left := ParseAssertion(ts);
    if left.Err? || !NextIs(left.value.rest, 4) then left
    else Join(And, left.value.expr, ParseConjunct(left.value.rest[1..]))
  }

  function ParseDisjunct(ts: seq<Token>): (r: Result<Parsed, Fault>)
    ensures Proper(ts, r)
    decreases |ts|, 5
  {
    var left := ParseConjunct(ts);
    if left.Err? || !NextIs(left.value.rest, 5) then left
    else Join(Or, left.value.expr, ParseDisjunct(left.value.rest[1..]))
  }

  /** An implication does not chain. */
  function ParseFactor(ts: seq<Token>): (r: Result<Parsed, Fault>)
    ensures Proper(ts, r)
    decreases |ts|, 6
  {
    var left := ParseDisjunct(ts);
    if left.Err? || !NextIs(left.value.rest, 6) then left
    else Join(Implies, left.value.expr, ParseDisjunct(left.value.rest[1..]))
  }

  /** The right side of a product is a whole expression. */
  function ParseSummand(ts: seq<Token>): (r: Result<Parsed, Fault>)
    ensures Proper(ts, r)
    decreases |ts|, 7
  {
    var left := ParseFactor(ts);
    if left.Err? || !NextIs(left.value.rest, 7) then left
    else Join(Times, left.value.expr, ParseExprInner(left.value.rest[1..]))
  }

  function ParseTernary(ts: seq<Token>): (r: Result<Parsed, Fault>)
    ensures Proper(ts, r)
    decreases |ts|, 8
  {
    var guard := ParseSummand(ts);
    if guard.Err? || |guard.value.rest| == 0 || guard.value.rest[0] != Question then guard
    else ParseBranches(guard.value.expr, guard.value.rest[1..])
  }

  function ParseBranches(guard: Expr, ts: seq<Token>): (r: Result<Parsed, Fault>)
    ensures r.Ok? ==> |r.value.rest| <= |ts| && (Lexed(ts) && NotFree(guard) ==> Lexed(r.value.rest) && NotFree(r.value.expr))
    decreases |ts|, 8
  {
    var whenTrue := ParseSummand(ts);
    if whenTrue.Err? then whenTrue
    else if |whenTrue.value.rest| == 0 || whenTrue.value.rest[0] != Colon then Err(NoColon)
    else
      var whenFalse := ParseSummand(whenTrue.value.rest[1..]);
      if whenFalse.Err? then whenFalse
      else Ok(Parsed(Ternary(guard, whenTrue.value.expr, whenFalse.value.expr), whenFalse.value.rest))
  }

  function ParseExprInner(ts: seq<Token>): (r: Result<Parsed, Fault>)
    ensures Proper(ts, r)
    decreases |ts|, 9
  {
    var left := ParseTernary(ts);
    if left.Err? || !NextIs(left.value.rest, 9) then left
    else Join(left.value.rest[0].op, left.value.expr, ParseExprInner(left.value.rest[1..]))
  }

  // ----- the printer -----

  /** display_expression, lexed: brackets around every operation, a bare prefix for a negation. */
  function Tokens(e: Expr): (ts: seq<Token>)
    requires Complete(e)
    ensures |ts| > 0
  {
    match e
    case Atom(kind, text) => [Leaf(kind, text)]
    case Not(x) => [Leaf(Word, "not")] + Tokens(x)
    case Binary(op, l, r) => [Open] + Tokens(l) + [Operator(op)] + Tokens(r) + [Close]
    case Ternary(g, t, f) => [Open] + Tokens(g) + [Question] + Tokens(t) + [Colon] + Tokens(f) + [Close]
  }

  predicate Complete(e: Expr) {
    match e
    case Atom(_, _) => true
    case Not(x) => Complete(x)
    case Binary(_, l, r) => Complete(l) && Complete(r)
    case Ternary(g, t, f) => Complete(g) && Complete(t) && Complete(f)
    case Missing => false
  }

  // ----- climbing the levels -----

  function ParseLevel(k: nat, ts: seq<Token>): Result<Parsed, Fault>
    requires k <= 9
  {
    if k == 0 then ParseAtom(ts)
    else if k == 1 then ParseTerm(ts)
    else if k == 2 then ParseRelational(ts)
    else if k == 3 then ParseAssertion(ts)
    else if k == 4 then ParseConjunct(ts)
    else if k == 5 then ParseDisjunct(ts)
    else if k == 6 then ParseFactor(ts)
    else if k == 7 then ParseSummand(ts)
    else if k == 8 then ParseTernary(ts)
    else ParseExprInner(ts)
  }

  /** No level up to k takes the next token as its own. */
  predicate Quiet(ts: seq<Token>, k: nat) {
    |ts| == 0 || ((ts[0].Operator? ==> Level(ts[0].op) > k) && (ts[0] == Question ==> k < 8))
  }

  predicate NoNegationFirst(ts: seq<Token>) { |ts| > 0 && ts[0] != Negation }

  /** A level hands on what the one below it found, or its fault, when the next token is not its own. */
  lemma Lift(k: nat, ts: seq<Token>)
    requires 0 < k <= 9 && NoNegationFirst(ts)
    requires ParseLevel(k - 1, ts).Ok? ==> Quiet(ParseLevel(k - 1, ts).value.rest, k)
    ensures ParseLevel(k, ts) == ParseLevel(k - 1, ts)
  {
    hide ParseAtom, Join, ParseBranches;
  }

  lemma {:induction false} Climb(j: nat, k: nat, ts: seq<Token>)
    requires j <= k <= 9 && NoNegationFirst(ts)
    requires ParseLevel(j, ts).Ok? ==> Quiet(ParseLevel(j, ts).value.rest, k)
    ensures ParseLevel(k, ts) == ParseLevel(j, ts)
    decreases k - j
  {
    hide ParseLevel;
    if j < k {
      Lift(j + 1, ts);
      Climb(j + 1, k, ts);
    }
  }

  /** The level that reads the right side of an operator. */
  function RightLevel(op: Op): (k: nat)
    ensures k <= 9
  {
    match Level(op)
    case 1 | 2 => 1
    case 4 => 4
    case 5 | 6 => 5
    case _ => 9
  }

  /** At its own level an operator joins the two sides. */
  lemma OperatorLevel(op: Op, ts: seq<Token>, left: Expr, more: seq<Token>)
    requires ParseLevel(Level(op) - 1, ts) == Ok(Parsed(left, [Operator(op)] + more)) && NoNegationFirst(ts)
    ensures ParseLevel(Level(op), ts) == Join(op, left, ParseLevel(RightLevel(op), more))
  {
    hide ParseAtom, Join, ParseBranches;
    assert ([Operator(op)] + more)[1..] == more;
  }

  lemma QuestionLevel(ts: seq<Token>, guard: Expr, more: seq<Token>)
    requires ParseSummand(ts) == Ok(Parsed(guard, [Question] + more))
    ensures ParseTernary(ts) == ParseBranches(guard, more)
  {
    hide ParseSummand, ParseBranches;
    assert ([Question] + more)[1..] == more;
  }

  lemma ColonLevel(guard: Expr, ts: seq<Token>, whenTrue: Expr, more: seq<Token>)
    requires ParseSummand(ts) == Ok(Parsed(whenTrue, [Colon] + more))
    ensures var b := ParseSummand(more);
            ParseBranches(guard, ts) == if b.Err? then b else Ok(Parsed(Ternary(guard, whenTrue, b.value.expr), b.value.rest))
  {
    hide ParseSummand;
    assert ([Colon] + more)[1..] == more;
  }

  /** What a bracket makes of what is inside it. */
  lemma Bracket(ts: seq<Token>, e: Expr, rest: seq<Token>)
    requires ParseLevel(9, ts) == Ok(Parsed(e, [Close] + rest))
    ensures ParseAtom([Open] + ts) == Ok(Parsed(e, rest))
  {
    hide ParseExprInner;
    assert ([Open] + ts)[1..] == ts && ([Close] + rest)[1..] == rest;
  }

  lemma BracketFails(ts: seq<Token>)
    requires var r := ParseLevel(9, ts); r.Ok? ==> |r.value.rest| > 0 && r.value.rest[0] != Close
    ensures ParseAtom([Open] + ts).Err?
  {
    hide ParseExprInner;
    assert ([Open] + ts)[1..] == ts;
  }

  // ----- printing and parsing again -----

  /** Text that opens an operand: nothing a level could take for an operator, a bracket closing, or a negation. */
  lemma OperandFirst(e: Expr, rest: seq<Token>)
    requires Complete(e)
    ensures var ts := Tokens(e) + rest;
            |ts| > 0 && (ts[0].Leaf? || ts[0] == Open) && Quiet(ts, 9) && NoNegationFirst(ts)
  {
  }

  /** What the operand's printed form does at level k, before any rest that is quiet there: it is read
      back, or, when it holds a negation, it is not. */
  predicate Outcome(e: Expr, rest: seq<Token>, r: Result<Parsed, Fault>)
    requires Complete(e)
  {
    && (NotFree(e) ==> r == Ok(Parsed(e, rest)))
    && (!NotFree(e) && e.Not? ==> r == Ok(Parsed(Atom(Word, "not"), Tokens(e.arg) + rest)))
    && (!NotFree(e) && !e.Not? ==> r.Err?)
  }

  lemma OutcomeAtLevel(k: nat, e: Expr, rest: seq<Token>)
    requires k <= 9 && Complete(e) && Outcome(e, rest, ParseAtom(Tokens(e) + rest)) && Quiet(rest, k)
    ensures Outcome(e, rest, ParseLevel(k, Tokens(e) + rest))
  {
    hide Tokens, ParseAtom, NotFree;
    var ts := Tokens(e) + rest;
    assert ParseLevel(0, ts) == ParseAtom(ts);
    OperandFirst(e, rest);
    if !NotFree(e) && e.Not? {
      OperandFirst(e.arg, rest);
    }
    Climb(0, k, ts);
  }

  /** Inside a bracket: read to the closing one, or stopped before it. */
  predicate Inside(good: bool, e: Expr, rest: seq<Token>, r: Result<Parsed, Fault>) {
    if good then r == Ok(Parsed(e, [Close] + rest))
    else r.Ok? ==> |r.value.rest| > 0 && r.value.rest[0] != Close
  }

  lemma BinaryInside(op: Op, l: Expr, r: Expr, rest: seq<Token>)
    requires Complete(l) && Complete(r)
    requires var more := Tokens(r) + ([Close] + rest);
             var mid := [Operator(op)] + more;
             Outcome(l, mid, ParseAtom(Tokens(l) + mid)) && Outcome(r, [Close] + rest, ParseAtom(more))
    ensures var inner := Tokens(l) + ([Operator(op)] + (Tokens(r) + ([Close] + rest)));
            Inside(NotFree(l) && NotFree(r), Binary(op, l, r), rest, ParseLevel(9, inner))
  {
    hide Tokens, ParseAtom, ParseLevel, NotFree;
    var more := Tokens(r) + ([Close] + rest);
    var mid := [Operator(op)] + more;
    var inner, k := Tokens(l) + mid, Level(op);
    OperandFirst(l, mid);
    OutcomeAtLevel(k - 1, l, mid);
    if !NotFree(l) {
      if l.Not? {
        OperandFirst(l.arg, mid);
      }
      Climb(k - 1, 9, inner);
    } else {
      OperatorLevel(op, inner, l, more);
      OutcomeAtLevel(RightLevel(op), r, [Close] + rest);
      if r.Not? && !NotFree(r) {
        OperandFirst(r.arg, [Close] + rest);
      }
      Climb(k, 9, inner);
    }
  }

  lemma TernaryInside(g: Expr, t: Expr, f: Expr, rest: seq<Token>)
    requires Complete(g) && Complete(t) && Complete(f)
    requires var more2 := Tokens(f) + ([Close] + rest);
             var more1 := Tokens(t) + ([Colon] + more2);
             && Outcome(g, [Question] + more1, ParseAtom(Tokens(g) + ([Question] + more1)))
             && Outcome(t, [Colon] + more2, ParseAtom(more1)) && Outcome(f, [Close] + rest, ParseAtom(more2))
    ensures var inner := Tokens(g) + ([Question] + (Tokens(t) + ([Colon] + (Tokens(f) + ([Close] + rest)))));
            Inside(NotFree(g) && NotFree(t) && NotFree(f), Ternary(g, t, f), rest, ParseLevel(9, inner))
  {
    hide Tokens, ParseAtom, ParseSummand, ParseTernary, ParseBranches, NotFree;
    var more2 := Tokens(f) + ([Close] + rest);
    var more1 := Tokens(t) + ([Colon] + more2);
    var inner := Tokens(g) + ([Question] + more1);
    OperandFirst(g, [Question] + more1);
    OutcomeAtLevel(7, g, [Question] + more1);
    if !NotFree(g) {
      if g.Not? {
        OperandFirst(g.arg, [Question] + more1);
      }
      Climb(7, 9, inner);
    } else {
      QuestionLevel(inner, g, more1);
      BranchesInside(g, t, f, rest);
      Climb(8, 9, inner);
    }
  }

  lemma BranchesInside(g: Expr, t: Expr, f: Expr, rest: seq<Token>)
    requires Complete(t) && Complete(f)
    requires var more2 := Tokens(f) + ([Close] + rest);
             var more1 := Tokens(t) + ([Colon] + more2);
             Outcome(t, [Colon] + more2, ParseAtom(more1)) && Outcome(f, [Close] + rest, ParseAtom(more2))
    ensures var r := ParseBranches(g, Tokens(t) + ([Colon] + (Tokens(f) + ([Close] + rest))));
            && Inside(NotFree(t) && NotFree(f), Ternary(g, t, f), rest, r)
            && (r.Ok? ==> Quiet(r.value.rest, 9))
  {
    hide Tokens, ParseAtom, ParseSummand, NotFree;
    var more2 := Tokens(f) + ([Close] + rest);
    var more1 := Tokens(t) + ([Colon] + more2);
    OutcomeAtLevel(7, t, [Colon] + more2);
    assert ParseLevel(7, more1) == ParseSummand(more1);
    if !NotFree(t) {
      if t.Not? {
        OperandFirst(t.arg, [Colon] + more2);
      }
    } else {
      ColonLevel(g, more1, t, more2);
      OutcomeAtLevel(7, f, [Close] + rest);
      assert ParseLevel(7, more2) == ParseSummand(more2);
      if f.Not? && !NotFree(f) {
        OperandFirst(f.arg, [Close] + rest);
      }
    }
  }

  lemma BinaryTokens(op: Op, l: Expr, r: Expr, rest: seq<Token>)
    requires Complete(l) && Complete(r)
    ensures Tokens(Binary(op, l, r)) + rest == [Open] + (Tokens(l) + ([Operator(op)] + (Tokens(r) + ([Close] + rest))))
  {
  }

  lemma TernaryTokens(g: Expr, t: Expr, f: Expr, rest: seq<Token>)
    requires Complete(g) && Complete(t) && Complete(f)
    ensures Tokens(Ternary(g, t, f)) + rest
         == [Open] + (Tokens(g) + ([Question] + (Tokens(t) + ([Colon] + (Tokens(f) + ([Close] + rest))))))
  {
  }

  lemma InsideToOutside(e: Expr, inner: seq<Token>, rest: seq<Token>)
    requires Complete(e) && !e.Not? && Inside(NotFree(e), e, rest, ParseLevel(9, inner))
    ensures Outcome(e, rest, ParseAtom([Open] + inner))
  {
    hide ParseLevel, ParseAtom, NotFree, Tokens;
    if NotFree(e) {
      Bracket(inner, e, rest);
    } else {
      BracketFails(inner);
    }
  }

  lemma {:induction false} AtomOutcome(e: Expr, rest: seq<Token>)
    requires Complete(e)
    ensures Outcome(e, rest, ParseAtom(Tokens(e) + rest))
    decreases e
  {
    hide ParseAtom, ParseLevel, Outcome, Inside;
    match e
    case Atom(_, _) | Not(_) =>
      PrefixOutcome(e, rest);
    case Binary(op, l, r) =>
      var more := Tokens(r) + ([Close] + rest);
      AtomOutcome(r, [Close] + rest);
      AtomOutcome(l, [Operator(op)] + more);
      BinaryInside(op, l, r, rest);
      BinaryTokens(op, l, r, rest);
      InsideToOutside(e, Tokens(l) + ([Operator(op)] + more), rest);
    case Ternary(g, t, f) =>
      var more2 := Tokens(f) + ([Close] + rest);
      var more1 := Tokens(t) + ([Colon] + more2);
      AtomOutcome(f, [Close] + rest);
      AtomOutcome(t, [Colon] + more2);
      AtomOutcome(g, [Question] + more1);
      TernaryInside(g, t, f, rest);
      TernaryTokens(g, t, f, rest);
      InsideToOutside(e, Tokens(g) + ([Question] + more1), rest);
  }

  lemma PrefixOutcome(e: Expr, rest: seq<Token>)
    requires Complete(e) && (e.Atom? || e.Not?)
    ensures Outcome(e, rest, ParseAtom(Tokens(e) + rest))
  {
    if e.Not? {
      assert (Tokens(e) + rest)[1..] == Tokens(e.arg) + rest;
    } else {
      assert (Tokens(e) + rest)[1..] == rest;
    }
  }

  /** Reading back what was printed, before any token that is no operator, gives the same expression and
      leaves exactly the rest, if and only if the expression holds no negation. */
  lemma ParseUndoesPrint(e: Expr, rest: seq<Token>)
    requires Complete(e) && Quiet(rest, 9)
    ensures ParseExprInner(Tokens(e) + rest) == Ok(Parsed(e, rest)) <==> NotFree(e)
  {
    hide ParseAtom, ParseTernary, Tokens, NotFree;
    AtomOutcome(e, rest);
    OutcomeAtLevel(9, e, rest);
  }

  /** Whatever the parser made of a rulebase's text comes back from its printed form. */
  lemma PrintedFormIsStable(ts: seq<Token>, rest: seq<Token>)
    requires Lexed(ts) && ParseExprInner(ts).Ok? && Complete(ParseExprInner(ts).value.expr) && Quiet(rest, 9)
    ensures var e := ParseExprInner(ts).value.expr;
            NotFree(e) && ParseExprInner(Tokens(e) + rest) == Ok(Parsed(e, rest))
  {
    hide ParseExprInner, Tokens, NotFree;
    ParseUndoesPrint(ParseExprInner(ts).value.expr, rest);
  }

  /** A printed negation does not come back: its operand is left unread. */
  lemma NegationIsLost()
    ensures var e := Not(Atom(Word, "A"));
            ParseExprInner(Tokens(e)) == Ok(Parsed(Atom(Word, "not"), [Leaf(Word, "A")]))
  {
    var e := Not(Atom(Word, "A"));
    AtomOutcome(e, []);
    OutcomeAtLevel(9, e, []);
    assert Tokens(e) + [] == Tokens(e) && Tokens(e.arg) + [] == [Leaf(Word, "A")];
  }
}
