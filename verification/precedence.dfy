/** How the XPath parser nests binary operators: precedence climbing.

  A token stands for a whole location path, literal, number or function call, or for an operator, a
  minus sign or a parenthesis. The names of operators are also names of elements: what such a token
  means depends on where it stands. The tree keeps a node for a pair of parentheses, which the source
  does not, so that it can be compared with the tokens it was read from. */
module Precedence {

  datatype Operator =
    | Or | And | Equal | NotEqual | Less | Greater | LessOrEqual | GreaterOrEqual
    | Plus | Subtract | Multiply | Divide | Modulo | Union

  datatype Token =
    | Path                 // selects nodes
    | Value                // a number, a literal, or a call that gives one
    | Word(op: Operator)   // `or`, `and`, `div`, `mod`: an operator, or a path of that name
    | Star                 // `*`: times, or any element
    | Sign(op: Operator)   // any other operator but minus
    | Minus
    | Open
    | Close

  const UNION: nat := 7

  /** `binary_op_t::parse`: the precedence of an operator. */
  function PrecedenceOf(op: Operator): (p: nat)
    ensures 1 <= p <= UNION && (p == UNION <==> op == Union)
  {
    match op
    case Or => 1
    case And => 2
    case Equal => 3
    case NotEqual => 3
    case Less => 4
    case Greater => 4
    case LessOrEqual => 4
    case GreaterOrEqual => 4
    case Plus => 5
    case Subtract => 5
    case Multiply => 6
    case Divide => 6
    case Modulo => 6
    case Union => 7
  }

  predicate IsOperator(t: Token) {
    t.Word? || t.Star? || t.Sign? || t.Minus?
  }

  function OperatorOf(t: Token): Operator
    requires IsOperator(t)
  {
    match t
    case Word(op) => op
    case Sign(op) => op
    case Star => Multiply
    case Minus => Subtract
  }

  /** The tokens that are an operand by themselves. */
  predicate IsAtom(t: Token) {
    t.Path? || t.Value? || t.Word? || t.Star?
  }

  datatype Tree = Leaf(t: Token) | Group(inner: Tree) | Negate(inner: Tree) | Binary(left: Tree, t: Token, right: Tree)

  function Tokens(e: Tree): seq<Token> {
    match e
    case Leaf(t) => [t]
    case Group(inner) => [Open] + Tokens(inner) + [Close]
    case Negate(inner) => [Minus] + Tokens(inner)
    case Binary(l, t, r) => Tokens(l) + [t] + Tokens(r)
  }

  /** `rettype() == xpath_type_node_set`. */
  predicate IsNodeSet(e: Tree) {
    match e
    case Leaf(t) => !t.Value?
    case Group(inner) => IsNodeSet(inner)
    case Negate(_) => false
    case Binary(_, t, _) => IsOperator(t) && OperatorOf(t) == Union
  }

  /** How tightly the outermost operator of an expression binds; an operand binds tighter than any. */
  function Tightness(e: Tree): nat {
    if e.Binary? && IsOperator(e.t) then PrecedenceOf(OperatorOf(e.t)) else UNION + 1
  }

  /** The tightest operator that may follow an expression without becoming part of it: a unary minus takes
    every union that follows. */
  function Yields(e: Tree): nat {
    if e.Negate? then UNION - 1 else if e.Binary? then Tightness(e) else UNION
  }

  /** Section 3.4 of XPath 1.0: left operands bind at least as tightly as their operator, right operands
    strictly tighter, and a unary minus applies to a union. */
  predicate Proper(e: Tree) {
    match e
    case Leaf(t) => IsAtom(t)
    case Group(inner) => Proper(inner)
    case Negate(inner) => Proper(inner) && Tightness(inner) >= UNION
    case Binary(l, t, r) =>
      && Proper(l) && Proper(r) && IsOperator(t)
      && PrecedenceOf(OperatorOf(t)) <= Yields(l)
      && PrecedenceOf(OperatorOf(t)) < Tightness(r)
      && (OperatorOf(t) == Union ==> IsNodeSet(l) && IsNodeSet(r))
  }

  // ------------------------------------------------------------------ the parser

  const DEPTH_LIMIT: nat := 1024

  datatype Result = Parsed(e: Tree, rest: seq<Token>, depth: nat) | SyntaxError | TooDeep

  /** Whether an operator of at least that precedence comes next. */
  predicate Next(ts: seq<Token>, limit: nat) {
    ts != [] && IsOperator(ts[0]) && PrecedenceOf(OperatorOf(ts[0])) >= limit
  }

  /** `parse_path_or_unary_expression`. */
  function ParseOperand(ts: seq<Token>, depth: nat, max: nat): (r: Result)
    ensures r.Parsed? ==> |r.rest| < |ts| && r.depth == depth
    decreases |ts|, 0
  {
    if ts == [] then SyntaxError
    else if IsAtom(ts[0]) then Parsed(Leaf(ts[0]), ts[1..], depth)
    else if ts[0] == Open then
      match ParseExpression(ts[1..], 0, depth, max)
      case Parsed(e, rest, _) => if rest != [] && rest[0] == Close then Parsed(Group(e), rest[1..], depth)
        else SyntaxError
      case error => error
    else if ts[0] == Minus then
      match ParseExpression(ts[1..], UNION, depth, max)
      case Parsed(e, rest, _) => Parsed(Negate(e), rest, depth)
      case error => error
    else SyntaxError
  }

  /** `parse_expression`: the depth is restored afterwards. */
  function ParseExpression(ts: seq<Token>, limit: nat, depth: nat, max: nat): (r: Result)
    ensures r.Parsed? ==> |r.rest| < |ts| && r.depth == depth
    decreases |ts|, 1
  {
    if depth + 1 > max then TooDeep
    else
      match ParseOperand(ts, depth + 1, max)
      case Parsed(e, rest, d) =>
        (match Climb(e, limit, rest, d, max)
         case Parsed(e', rest', _) => Parsed(e', rest', depth)
         case error => error)
      case error => error
  }

  /** The outer loop of `parse_expression_rec`: each round reads one operator and its right side. */
  function Climb(lhs: Tree, limit: nat, ts: seq<Token>, depth: nat, max: nat): (r: Result)
    ensures r.Parsed? ==> |r.rest| <= |ts| && (Next(ts, limit) ==> |r.rest| < |ts|)
    decreases |ts|, 0
  {
    if !Next(ts, limit) then Parsed(lhs, ts, depth)
    else if depth + 1 > max then TooDeep
    else
      match ParseOperand(ts[1..], depth + 1, max)
      case Parsed(e, rest, d) =>
        (match Tighter(e, PrecedenceOf(OperatorOf(ts[0])), rest, d, max)
         case Parsed(rhs, rest', d') =>
           if OperatorOf(ts[0]) == Union && !(IsNodeSet(lhs) && IsNodeSet(rhs)) then SyntaxError
           else Climb(Binary(lhs, ts[0], rhs), limit, rest', d', max)
         case error => error)
      case error => error
  }

  /** The inner loop: as long as a tighter operator follows, it belongs to the right side. */
  function Tighter(rhs: Tree, p: nat, ts: seq<Token>, depth: nat, max: nat): (r: Result)
    ensures r.Parsed? ==> |r.rest| <= |ts|
    decreases |ts|, 1
  {
    if !Next(ts, p + 1) then Parsed(rhs, ts, depth)
    else
      match Climb(rhs, PrecedenceOf(OperatorOf(ts[0])), ts, depth, max)
      case Parsed(rhs', rest, d) => Tighter(rhs', p, rest, d, max)
      case error => error
  }

  /** `parse`: the whole query must be one expression. */
  function ParseQuery(ts: seq<Token>, max: nat): Result {
    match ParseExpression(ts, 0, 0, max)
    case Parsed(e, rest, d) => if rest == [] then Parsed(e, rest, d) else SyntaxError
    case error => error
  }

  // ------------------------------------------------------------------ what is accepted is right

  /** An expression and what follows it: no operator that should have become part of it. */
  predicate Fits(e: Tree, ts: seq<Token>) {
    !Next(ts, Yields(e) + 1)
  }

  lemma {:induction false} OperandSound(ts: seq<Token>, depth: nat, max: nat)
    ensures var r := ParseOperand(ts, depth, max);
            r.Parsed? ==> Proper(r.e) && !r.e.Binary? && Tokens(r.e) + r.rest == ts && Fits(r.e, r.rest)
    decreases |ts|, 0
  {
    hide Proper, Tokens, ParseExpression;
    if ts != [] {
      if IsAtom(ts[0]) {
        AtomSound(ts);
      } else if ts[0] == Open {
        ExpressionSound(ts[1..], 0, depth, max);
        var r := ParseExpression(ts[1..], 0, depth, max);
        if r.Parsed? && r.rest != [] && r.rest[0] == Close { GroupSound(ts, r.e, r.rest); }
      } else if ts[0] == Minus {
        ExpressionSound(ts[1..], UNION, depth, max);
        var r := ParseExpression(ts[1..], UNION, depth, max);
        if r.Parsed? { NegateSound(ts, r.e, r.rest); }
      }
    }
  }

  lemma AtomSound(ts: seq<Token>)
    requires ts != [] && IsAtom(ts[0])
    ensures Proper(Leaf(ts[0])) && Tokens(Leaf(ts[0])) + ts[1..] == ts
  {
  }

  lemma GroupSound(ts: seq<Token>, e: Tree, rest: seq<Token>)
    requires ts != [] && ts[0] == Open && rest != [] && rest[0] == Close && Proper(e) && Tokens(e) + rest == ts[1..]
    ensures Proper(Group(e)) && Tokens(Group(e)) + rest[1..] == ts
  {
    assert [Open] + Tokens(e) + [Close] + rest[1..] == [Open] + (Tokens(e) + rest);
  }

  lemma NegateSound(ts: seq<Token>, e: Tree, rest: seq<Token>)
    requires ts != [] && ts[0] == Minus && Proper(e) && Tightness(e) >= UNION && Tokens(e) + rest == ts[1..]
    ensures Proper(Negate(e)) && Tokens(Negate(e)) + rest == ts
  {
    assert [Minus] + Tokens(e) + rest == [Minus] + (Tokens(e) + rest);
  }

  lemma {:induction false} ExpressionSound(ts: seq<Token>, limit: nat, depth: nat, max: nat)
    requires limit <= UNION
    ensures var r := ParseExpression(ts, limit, depth, max);
            r.Parsed? ==> Proper(r.e) && Tightness(r.e) >= limit && Tokens(r.e) + r.rest == ts && !Next(r.rest, limit)
    decreases |ts|, 1
  {
    hide Proper, Tokens;
    OperandSound(ts, depth + 1, max);
    var r := ParseOperand(ts, depth + 1, max);
    if depth + 1 <= max && r.Parsed? { ClimbSound(r.e, limit, r.rest, r.depth, max); }
  }

  lemma {:induction false} ClimbSound(lhs: Tree, limit: nat, ts: seq<Token>, depth: nat, max: nat)
    requires Proper(lhs) && Tightness(lhs) >= limit && Fits(lhs, ts)
    ensures var r := Climb(lhs, limit, ts, depth, max);
            r.Parsed? ==> Proper(r.e) && Tightness(r.e) >= limit && Tokens(r.e) + r.rest == Tokens(lhs) + ts
                          && !Next(r.rest, limit) && Fits(r.e, r.rest)
    decreases |ts|, 0
  {
    hide Tokens, Proper;
    if Next(ts, limit) && depth + 1 <= max {
      var p := PrecedenceOf(OperatorOf(ts[0]));
      OperandSound(ts[1..], depth + 1, max);
      var o := ParseOperand(ts[1..], depth + 1, max);
      if o.Parsed? {
        TighterSound(o.e, p, o.rest, o.depth, max);
        var t := Tighter(o.e, p, o.rest, o.depth, max);
        if t.Parsed? && (OperatorOf(ts[0]) == Union ==> IsNodeSet(lhs) && IsNodeSet(t.e)) {
          var e := Binary(lhs, ts[0], t.e);
          BinaryProper(lhs, ts[0], t.e);
          BinaryTokens(lhs, ts, t.e, t.rest);
          ClimbSound(e, limit, t.rest, t.depth, max);
        }
      }
    }
  }

  lemma BinaryProper(l: Tree, t: Token, r: Tree)
    requires Proper(l) && Proper(r) && IsOperator(t)
    requires PrecedenceOf(OperatorOf(t)) <= Yields(l) && PrecedenceOf(OperatorOf(t)) < Tightness(r)
    requires OperatorOf(t) == Union ==> IsNodeSet(l) && IsNodeSet(r)
    ensures Proper(Binary(l, t, r))
  {
  }

  lemma BinaryTokens(l: Tree, ts: seq<Token>, r: Tree, rest: seq<Token>)
    requires ts != [] && Tokens(r) + rest == ts[1..]
    ensures Tokens(Binary(l, ts[0], r)) + rest == Tokens(l) + ts
  {
    assert ts == [ts[0]] + (Tokens(r) + rest);
    assert Tokens(l) + [ts[0]] + Tokens(r) + rest == Tokens(l) + ([ts[0]] + (Tokens(r) + rest));
  }

  lemma {:induction false} TighterSound(rhs: Tree, p: nat, ts: seq<Token>, depth: nat, max: nat)
    requires Proper(rhs) && Tightness(rhs) > p && Fits(rhs, ts)
    ensures var r := Tighter(rhs, p, ts, depth, max);
            r.Parsed? ==>
                && Proper(r.e) && Tightness(r.e) > p && Tokens(r.e) + r.rest == Tokens(rhs) + ts
                && !Next(r.rest, p + 1)
    decreases |ts|, 1
  {
    hide Tokens, Proper;
    if Next(ts, p + 1) {
      var q := PrecedenceOf(OperatorOf(ts[0]));
      YieldsTight(rhs);
      ClimbSound(rhs, q, ts, depth, max);
      var r := Climb(rhs, q, ts, depth, max);
      if r.Parsed? { TighterSound(r.e, p, r.rest, r.depth, max); }
    }
  }

  lemma YieldsTight(e: Tree)
    ensures Yields(e) <= Tightness(e)
  {
  }

  // ------------------------------------------------------------------ what is right is accepted

  /** The operand an expression starts with, and the tokens after it. */
  function First(e: Tree): (f: Tree)
    ensures !f.Binary? && (e.Binary? ==> f < e)
  {
    if e.Binary? then First(e.left) else e
  }

  function AfterFirst(e: Tree): seq<Token> {
    if e.Binary? then AfterFirst(e.left) + [e.t] + Tokens(e.right) else []
  }

  /** The operators outside all groups: how far the depth grows while they are read. */
  function Spine(e: Tree): nat {
    if e.Binary? then Spine(e.left) + 1 + Spine(e.right) else 0
  }

  lemma {:induction false} FirstTokens(e: Tree)
    requires Proper(e)
    ensures Tokens(e) == Tokens(First(e)) + AfterFirst(e) && Proper(First(e)) && |Tokens(First(e))| <= |Tokens(e)|
  {
    if e.Binary? {
      FirstTokens(e.left);
      assert Tokens(First(e)) + AfterFirst(e.left) + [e.t] + Tokens(e.right)
        == Tokens(First(e)) + (AfterFirst(e.left) + [e.t] + Tokens(e.right));
    } else {
      assert Tokens(e) + [] == Tokens(e);
    }
  }

  /** The parser either finds the result or runs out of depth. */
  predicate Finds(r: Result, s: Result) {
    r == TooDeep || r == s
  }

  lemma FirstYields(e: Tree, k: seq<Token>)
    requires Proper(e) && Fits(e, k)
    ensures Fits(First(e), AfterFirst(e) + k)
    decreases e
  {
    if e.Binary? {
      FirstYields(e.left, [e.t] + Tokens(e.right) + k);
      assert AfterFirst(e) + k == AfterFirst(e.left) + ([e.t] + Tokens(e.right) + k);
    } else {
      assert AfterFirst(e) + k == k;
    }
  }

  lemma {:induction false} OperandFound(e: Tree, k: seq<Token>, depth: nat, max: nat)
    requires Proper(e) && !e.Binary? && Fits(e, k)
    ensures Finds(ParseOperand(Tokens(e) + k, depth, max), Parsed(e, k, depth))
    decreases |Tokens(e)|, 0
  {
    var ts := Tokens(e) + k;
    match e {
      case Leaf(t) => assert ts[1..] == k;
      case Group(inner) =>
        assert ts[1..] == Tokens(inner) + ([Close] + k);
        ExpressionFound(inner, 0, [Close] + k, depth, max);
        assert ([Close] + k)[1..] == k;
      case Negate(inner) =>
        assert ts[1..] == Tokens(inner) + k;
        UnionFits(inner, k);
        ExpressionFound(inner, UNION, k, depth, max);
    }
  }

  /** What may follow the operand of a minus sign. */
  lemma UnionFits(inner: Tree, k: seq<Token>)
    requires Fits(Negate(inner), k) && Tightness(inner) >= UNION
    ensures Fits(inner, k) && !Next(k, UNION)
  {
  }

  lemma {:induction false} ExpressionFound(e: Tree, limit: nat, k: seq<Token>, depth: nat, max: nat)
    requires Proper(e) && Tightness(e) >= limit && Fits(e, k) && !Next(k, limit)
    ensures Finds(ParseExpression(Tokens(e) + k, limit, depth, max), Parsed(e, k, depth))
    decreases |Tokens(e)|, 3
  {
    hide Proper, Tokens, Climb, ParseOperand, Fits, Tightness, Yields, AfterFirst, Spine;
    FirstTokens(e);
    RegroupTokens(Tokens(First(e)), AfterFirst(e), k);
    FirstYields(e, k);
    OperandFound(First(e), AfterFirst(e) + k, depth + 1, max);
    ClimbFound(e, limit, k, depth + 1, max);
    ClimbStops(e, limit, k, depth + 1 + Spine(e), max);
  }

  lemma ClimbStops(e: Tree, limit: nat, k: seq<Token>, depth: nat, max: nat)
    requires !Next(k, limit)
    ensures Climb(e, limit, k, depth, max) == Parsed(e, k, depth)
  {
  }

  /** The tokens after the left side of a binary expression. */
  function More(e: Tree, k: seq<Token>): seq<Token>
    requires e.Binary?
  {
    [e.t] + (Tokens(e.right) + k)
  }

  lemma MoreTokens(e: Tree, k: seq<Token>)
    requires e.Binary?
    ensures AfterFirst(e) + k == AfterFirst(e.left) + More(e, k)
    ensures More(e, k) != [] && More(e, k)[0] == e.t && More(e, k)[1..] == Tokens(e.right) + k
    ensures |Tokens(e.left)| < |Tokens(e)| && |Tokens(e.right)| < |Tokens(e)|
    ensures First(e) == First(e.left) && Spine(e) == Spine(e.left) + 1 + Spine(e.right)
  {
    var a, t, r := AfterFirst(e.left), [e.t], Tokens(e.right);
    assert (a + t + r) + k == a + (t + (r + k));
  }

  lemma Parts(e: Tree, k: seq<Token>)
    requires Proper(e) && e.Binary?
    ensures Fits(e.left, More(e, k))
    ensures Proper(e.left) && Proper(e.right) && IsOperator(e.t)
    ensures OperatorOf(e.t) == Union ==> IsNodeSet(e.left) && IsNodeSet(e.right)
    ensures Tightness(e.left) >= PrecedenceOf(OperatorOf(e.t)) == Tightness(e) == Yields(e)
    ensures Tightness(e.right) > PrecedenceOf(OperatorOf(e.t))
    ensures Fits(e, k) ==> Fits(e.right, k) && !Next(k, PrecedenceOf(OperatorOf(e.t)) + 1)
    ensures Next(More(e, k), PrecedenceOf(OperatorOf(e.t)))
  {
    hide Tokens;
    YieldsTight(e.left);
    YieldsTight(e.right);
    assert More(e, k)[0] == e.t;
  }

  lemma OperandAlone(e: Tree, k: seq<Token>)
    requires !e.Binary?
    ensures First(e) == e && AfterFirst(e) + k == k && Spine(e) == 0
  {
  }

  /** Climbing from the first operand of an expression gets to the expression. */
  lemma {:induction false} ClimbFound(e: Tree, limit: nat, k: seq<Token>, depth: nat, max: nat)
    requires Proper(e) && Tightness(e) >= limit && Fits(e, k)
    ensures Finds(Climb(First(e), limit, AfterFirst(e) + k, depth, max), Climb(e, limit, k, depth + Spine(e), max))
    decreases |Tokens(e)|, 1
  {
    hide *;
    if e.Binary? {
      MoreTokens(e, k);
      Parts(e, k);
      ClimbFound(e.left, limit, More(e, k), depth, max);
      RoundFound(e, limit, k, depth + Spine(e.left), max);
      FindsAlso(Climb(First(e), limit, AfterFirst(e) + k, depth, max),
          Climb(e.left, limit, More(e, k), depth + Spine(e.left), max),
                Climb(e, limit, k, depth + Spine(e), max));
    } else {
      OperandAlone(e, k);
      FindsItself(Climb(e, limit, k, depth, max));
    }
  }

  lemma FindsAlso(r: Result, s: Result, t: Result)
    requires Finds(r, s) && Finds(s, t)
    ensures Finds(r, t)
  {
  }

  lemma FindsItself(r: Result)
    ensures Finds(r, r)
  {
  }

  /** One round of the outer loop, by its parts. */
  lemma ClimbRound(l: Tree, limit: nat, ts: seq<Token>, depth: nat, max: nat, o: Tree, after: seq<Token>, r: Tree,
      k: seq<Token>, d: nat)
    requires Next(ts, limit)
    requires Finds(ParseOperand(ts[1..], depth + 1, max), Parsed(o, after, depth + 1))
    requires Finds(Tighter(o, PrecedenceOf(OperatorOf(ts[0])), after, depth + 1, max), Parsed(r, k, d))
    requires OperatorOf(ts[0]) == Union ==> IsNodeSet(l) && IsNodeSet(r)
    ensures Finds(Climb(l, limit, ts, depth, max), Climb(Binary(l, ts[0], r), limit, k, d, max))
  {
  }

  /** One round: from the left side to the whole. */
  lemma {:induction false} RoundFound(e: Tree, limit: nat, k: seq<Token>, depth: nat, max: nat)
    requires Proper(e) && e.Binary? && Tightness(e) >= limit && Fits(e, k)
    ensures Finds(Climb(e.left, limit, More(e, k), depth, max), Climb(e, limit, k, depth + 1 + Spine(e.right), max))
    decreases |Tokens(e)|, 0
  {
    hide *;
    MoreTokens(e, k);
    Parts(e, k);
    var r, p := e.right, PrecedenceOf(OperatorOf(e.t));
    NextLower(More(e, k), p, limit);
    FirstTokens(r);
    RegroupTokens(Tokens(First(r)), AfterFirst(r), k);
    FirstYields(r, k);
    OperandFound(First(r), AfterFirst(r) + k, depth + 1, max);
    TighterFound(r, p, k, depth + 1, max);
    TighterStops(r, p, k, depth + 1 + Spine(r), max);
    ClimbRound(e.left, limit, More(e, k), depth, max, First(r), AfterFirst(r) + k, r, k, depth + 1 + Spine(r));
    Rebuilt(e);
  }

  lemma NextLower(ts: seq<Token>, p: nat, q: nat)
    requires Next(ts, p) && q <= p
    ensures Next(ts, q)
  {
  }

  lemma RegroupTokens(a: seq<Token>, b: seq<Token>, c: seq<Token>)
    ensures (a + b) + c == a + (b + c)
  {
  }

  lemma Rebuilt(e: Tree)
    requires e.Binary?
    ensures Binary(e.left, e.t, e.right) == e
  {
  }

  lemma TighterStops(e: Tree, p: nat, k: seq<Token>, depth: nat, max: nat)
    requires !Next(k, p + 1)
    ensures Tighter(e, p, k, depth, max) == Parsed(e, k, depth)
  {
  }

  /** Taking in tighter operators from the first operand of an expression gets to the expression. */
  lemma {:induction false} TighterFound(e: Tree, p: nat, k: seq<Token>, depth: nat, max: nat)
    requires Proper(e) && Tightness(e) > p && Fits(e, k)
    ensures Finds(Tighter(First(e), p, AfterFirst(e) + k, depth, max), Tighter(e, p, k, depth + Spine(e), max))
    decreases |Tokens(e)|, 2
  {
    hide *;
    if e.Binary? {
      MoreTokens(e, k);
      Parts(e, k);
      TighterFound(e.left, p, More(e, k), depth, max);
      TighterRound(e, p, k, depth + Spine(e.left), max);
      FindsAlso(Tighter(First(e), p, AfterFirst(e) + k, depth, max),
          Tighter(e.left, p, More(e, k), depth + Spine(e.left), max),
                Tighter(e, p, k, depth + Spine(e), max));
    } else {
      OperandAlone(e, k);
      FindsItself(Tighter(e, p, k, depth, max));
    }
  }

  lemma {:induction false} TighterRound(e: Tree, p: nat, k: seq<Token>, depth: nat, max: nat)
    requires Proper(e) && e.Binary? && Tightness(e) > p && Fits(e, k)
    ensures Finds(Tighter(e.left, p, More(e, k), depth, max), Tighter(e, p, k, depth + 1 + Spine(e.right), max))
    decreases |Tokens(e)|, 1
  {
    hide *;
    MoreTokens(e, k);
    Parts(e, k);
    var q := PrecedenceOf(OperatorOf(e.t));
    NextLower(More(e, k), q, p + 1);
    RoundFound(e, q, k, depth, max);
    InnerRound(e.left, p, More(e, k), depth, max, e, k, depth + 1 + Spine(e.right));
  }

  /** One round of the inner loop: what it reads next is at most as tight as the operator just read, so
    going on inside the outer loop it has called or going on itself makes no difference. */
  lemma InnerRound(l: Tree, p: nat, ts: seq<Token>, depth: nat, max: nat, e: Tree, k: seq<Token>, d: nat)
    requires Next(ts, p + 1) && !Next(k, PrecedenceOf(OperatorOf(ts[0])) + 1)
    requires Finds(Climb(l, PrecedenceOf(OperatorOf(ts[0])), ts, depth, max),
               Climb(e, PrecedenceOf(OperatorOf(ts[0])), k, d, max))
    ensures Finds(Tighter(l, p, ts, depth, max), Tighter(e, p, k, d, max))
  {
    hide Climb, PrecedenceOf, OperatorOf;
    var q := PrecedenceOf(OperatorOf(ts[0]));
    if !Next(k, q) { ClimbStops(e, q, k, d, max); } else { SamePrecedence(k, q); }
  }

  lemma SamePrecedence(k: seq<Token>, q: nat)
    requires Next(k, q) && !Next(k, q + 1)
    ensures PrecedenceOf(OperatorOf(k[0])) == q
  {
  }

  // ------------------------------------------------------------------ depth

  lemma {:induction false} OperandDepth(ts: seq<Token>, depth: nat, max: nat)
    requires depth + |ts| <= max
    ensures ParseOperand(ts, depth, max) != TooDeep
    decreases |ts|, 0
  {
    if ts != [] && ts[0] == Open { ExpressionDepth(ts[1..], 0, depth, max); }
    if ts != [] && ts[0] == Minus { ExpressionDepth(ts[1..], UNION, depth, max); }
  }

  /** With a limit above the number of tokens the depth never runs out. */
  lemma {:induction false} ExpressionDepth(ts: seq<Token>, limit: nat, depth: nat, max: nat)
    requires depth + |ts| + 1 <= max
    ensures ParseExpression(ts, limit, depth, max) != TooDeep
    decreases |ts|, 1
  {
    OperandDepth(ts, depth + 1, max);
    var r := ParseOperand(ts, depth + 1, max);
    if r.Parsed? { ClimbDepth(r.e, limit, r.rest, r.depth, max); }
  }

  lemma {:induction false} ClimbDepth(lhs: Tree, limit: nat, ts: seq<Token>, depth: nat, max: nat)
    requires depth + |ts| <= max
    ensures var r := Climb(lhs, limit, ts, depth, max);
            r != TooDeep && (r.Parsed? ==> r.depth + |r.rest| <= depth + |ts|)
    decreases |ts|, 0
  {
    if Next(ts, limit) {
      OperandDepth(ts[1..], depth + 1, max);
      var o := ParseOperand(ts[1..], depth + 1, max);
      if o.Parsed? {
        TighterDepth(o.e, PrecedenceOf(OperatorOf(ts[0])), o.rest, o.depth, max);
        var t := Tighter(o.e, PrecedenceOf(OperatorOf(ts[0])), o.rest, o.depth, max);
        if t.Parsed? { ClimbDepth(Binary(lhs, ts[0], t.e), limit, t.rest, t.depth, max); }
      }
    }
  }

  lemma {:induction false} TighterDepth(rhs: Tree, p: nat, ts: seq<Token>, depth: nat, max: nat)
    requires depth + |ts| <= max
    ensures var r := Tighter(rhs, p, ts, depth, max); r != TooDeep && (r.Parsed? ==> r.depth + |r.rest| <= depth + |ts|)
    decreases |ts|, 1
  {
    if Next(ts, p + 1) {
      ClimbDepth(rhs, PrecedenceOf(OperatorOf(ts[0])), ts, depth, max);
      var r := Climb(rhs, PrecedenceOf(OperatorOf(ts[0])), ts, depth, max);
      if r.Parsed? { TighterDepth(r.e, p, r.rest, r.depth, max); }
    }
  }

  // ------------------------------------------------------------------ the result

  /** Precedence climbing is exact. What the parser accepts is a proper tree of exactly these tokens, in
    order; and the tokens of a proper tree are parsed into that tree, unless the depth runs out, which it
    cannot if the limit is above the number of tokens. */
  lemma ClimbingExact(ts: seq<Token>, e: Tree, max: nat)
    ensures var r := ParseQuery(ts, max); r.Parsed? ==> Proper(r.e) && Tokens(r.e) == ts
    ensures Proper(e) && Tokens(e) == ts ==> Finds(ParseQuery(ts, max), Parsed(e, [], 0))
    ensures |ts| < max ==> ParseQuery(ts, max) != TooDeep
  {
    hide Proper, Tokens, ParseExpression;
    ExpressionSound(ts, 0, 0, max);
    var r := ParseExpression(ts, 0, 0, max);
    if r.Parsed? && r.rest == [] { assert Tokens(r.e) + r.rest == Tokens(r.e); }
    if Proper(e) && Tokens(e) == ts {
      assert Tokens(e) + [] == ts;
      ExpressionFound(e, 0, [], 0, max);
    }
    if |ts| < max { ExpressionDepth(ts, 0, 0, max); }
  }

  // ------------------------------------------------------------------ how much depth a query takes

  /** The depth reached while an expression is read from some depth on: operators outside groups add up,
    what is inside a group or after a minus sign is read one deeper and given back. */
  function Need(e: Tree, depth: nat): (n: nat)
    ensures n >= depth + Spine(e)
  {
    match e
    case Leaf(_) => depth
    case Group(inner) => Need(inner, depth + 1)
    case Negate(inner) => Need(inner, depth + 1)
    case Binary(l, _, r) =>
      var left, right := Need(l, depth), Need(r, depth + Spine(l) + 1);
      if left >= right then left else right
  }

  /** Reading on never lowers the need. */
  lemma {:induction false} ClimbGrows(lhs: Tree, limit: nat, ts: seq<Token>, depth: nat, start: nat, max: nat)
    requires depth == start + Spine(lhs)
    ensures var r := Climb(lhs, limit, ts, depth, max);
            r.Parsed? ==> r.depth == start + Spine(r.e) && Need(r.e, start) >= Need(lhs, start)
    decreases |ts|, 0
  {
    hide PrecedenceOf, OperatorOf, IsNodeSet, IsOperator, ParseOperand, Tighter, Climb, Need, Spine;
    ClimbParts(lhs, limit, ts, depth, max);
    if Next(ts, limit) && depth + 1 <= max {
      var p := PrecedenceOf(OperatorOf(ts[0]));
      var o := ParseOperand(ts[1..], depth + 1, max);
      if o.Parsed? {
        OperandNotBinary(ts[1..], depth + 1, max);
        TighterGrows(o.e, p, o.rest, o.depth, depth + 1, max);
        var t := Tighter(o.e, p, o.rest, o.depth, max);
        if t.Parsed? {
          BinaryNeed(lhs, ts[0], t.e, start);
          ClimbGrows(Binary(lhs, ts[0], t.e), limit, t.rest, t.depth, start, max);
        }
      }
    }
  }

  lemma OperandNotBinary(ts: seq<Token>, depth: nat, max: nat)
    ensures ParseOperand(ts, depth, max).Parsed? ==> Spine(ParseOperand(ts, depth, max).e) == 0
  {
  }

  lemma {:induction false} TighterGrows(rhs: Tree, p: nat, ts: seq<Token>, depth: nat, start: nat, max: nat)
    requires depth == start + Spine(rhs)
    ensures var r := Tighter(rhs, p, ts, depth, max);
            r.Parsed? ==> r.depth == start + Spine(r.e) && Need(r.e, start) >= Need(rhs, start)
    decreases |ts|, 1
  {
    hide Climb, Need, Spine, PrecedenceOf, OperatorOf;
    if Next(ts, p + 1) {
      ClimbGrows(rhs, PrecedenceOf(OperatorOf(ts[0])), ts, depth, start, max);
      var r := Climb(rhs, PrecedenceOf(OperatorOf(ts[0])), ts, depth, max);
      if r.Parsed? { TighterGrows(r.e, p, r.rest, r.depth, start, max); }
    }
  }

  /** The same result under a lower limit, or none. */
  predicate Limited(low: Result, high: Result, need: nat, max: nat) {
    low == if need <= max then high else TooDeep
  }

  lemma {:induction false} OperandNeeds(ts: seq<Token>, depth: nat, max: nat, high: nat)
    requires depth <= max <= high && ParseOperand(ts, depth, high).Parsed?
    ensures var r := ParseOperand(ts, depth, high); Limited(ParseOperand(ts, depth, max), r, Need(r.e, depth), max)
    decreases |ts|, 0
  {
    hide ParseExpression;
    if ts[0] == Open {
      ExpressionNeeds(ts[1..], 0, depth, max, high);
    } else if ts[0] == Minus {
      ExpressionNeeds(ts[1..], UNION, depth, max, high);
    }
  }

  lemma {:induction false} ExpressionNeeds(ts: seq<Token>, limit: nat, depth: nat, max: nat, high: nat)
    requires max <= high && ParseExpression(ts, limit, depth, high).Parsed?
    ensures var r := ParseExpression(ts, limit, depth, high);
            Limited(ParseExpression(ts, limit, depth, max), r, Need(r.e, depth + 1), max)
    decreases |ts|, 1
  {
    hide ParseOperand, Climb, Need;
    var o := ParseOperand(ts, depth + 1, high);
    OperandNotBinary(ts, depth + 1, high);
    ClimbGrows(o.e, limit, o.rest, o.depth, depth + 1, high);
    if depth + 1 <= max {
      OperandNeeds(ts, depth + 1, max, high);
      if Need(o.e, depth + 1) <= max { ClimbNeeds(o.e, limit, o.rest, o.depth, depth + 1, max, high); }
    }
  }

  lemma {:induction false} ClimbNeeds(lhs: Tree, limit: nat, ts: seq<Token>, depth: nat, start: nat, max: nat,
      high: nat)
    requires depth == start + Spine(lhs) && Need(lhs, start) <= max <= high
             && Climb(lhs, limit, ts, depth, high).Parsed?
    ensures var r := Climb(lhs, limit, ts, depth, high);
            Limited(Climb(lhs, limit, ts, depth, max), r, Need(r.e, start), max)
    decreases |ts|, 0
  {
    hide PrecedenceOf, OperatorOf, IsNodeSet, IsOperator, ParseOperand, Tighter, Climb, Need, Spine;
    ClimbParts(lhs, limit, ts, depth, high);
    ClimbParts(lhs, limit, ts, depth, max);
    if Next(ts, limit) {
      var p := PrecedenceOf(OperatorOf(ts[0]));
      var o := ParseOperand(ts[1..], depth + 1, high);
      OperandNotBinary(ts[1..], depth + 1, high);
      var t := Tighter(o.e, p, o.rest, o.depth, high);
      TighterGrows(o.e, p, o.rest, o.depth, depth + 1, high);
      var e := Binary(lhs, ts[0], t.e);
      BinaryNeed(lhs, ts[0], t.e, start);
      ClimbGrows(e, limit, t.rest, t.depth, start, high);
      if depth + 1 <= max {
        OperandNeeds(ts[1..], depth + 1, max, high);
        if Need(o.e, depth + 1) <= max {
          TighterNeeds(o.e, p, o.rest, o.depth, depth + 1, max, high);
          if Need(t.e, depth + 1) <= max { ClimbNeeds(e, limit, t.rest, t.depth, start, max, high); }
        }
      }
    }
  }

  lemma BinaryNeed(l: Tree, t: Token, r: Tree, depth: nat)
    ensures var right := Need(r, depth + Spine(l) + 1);
            Need(Binary(l, t, r), depth) == if Need(l, depth) >= right then Need(l, depth) else right
    ensures Spine(Binary(l, t, r)) == Spine(l) + 1 + Spine(r)
  {
  }

  /** One round of the outer loop. */
  lemma ClimbParts(lhs: Tree, limit: nat, ts: seq<Token>, depth: nat, max: nat)
    ensures !Next(ts, limit) ==> Climb(lhs, limit, ts, depth, max) == Parsed(lhs, ts, depth)
    ensures Next(ts, limit) && depth + 1 > max ==> Climb(lhs, limit, ts, depth, max) == TooDeep
    ensures Next(ts, limit) && depth + 1 <= max ==>
      var o := ParseOperand(ts[1..], depth + 1, max);
      if !o.Parsed? then Climb(lhs, limit, ts, depth, max) == o
      else
        var t := Tighter(o.e, PrecedenceOf(OperatorOf(ts[0])), o.rest, o.depth, max);
        if !t.Parsed? then Climb(lhs, limit, ts, depth, max) == t
        else Climb(lhs, limit, ts, depth, max)
             == if OperatorOf(ts[0]) == Union && !(IsNodeSet(lhs) && IsNodeSet(t.e)) then SyntaxError
                else Climb(Binary(lhs, ts[0], t.e), limit, t.rest, t.depth, max)
  {
    hide ParseOperand, Tighter, IsNodeSet, PrecedenceOf;
  }

  lemma {:induction false} TighterNeeds(rhs: Tree, p: nat, ts: seq<Token>, depth: nat, start: nat, max: nat, high: nat)
    requires depth == start + Spine(rhs) && Need(rhs, start) <= max <= high && Tighter(rhs, p, ts, depth, high).Parsed?
    ensures var r := Tighter(rhs, p, ts, depth, high);
            Limited(Tighter(rhs, p, ts, depth, max), r, Need(r.e, start), max)
    decreases |ts|, 1
  {
    hide Climb, Need, Spine, PrecedenceOf, OperatorOf;
    if Next(ts, p + 1) {
      var q := PrecedenceOf(OperatorOf(ts[0]));
      var c := Climb(rhs, q, ts, depth, high);
      ClimbGrows(rhs, q, ts, depth, start, high);
      TighterGrows(c.e, p, c.rest, c.depth, start, high);
      ClimbNeeds(rhs, q, ts, depth, start, max, high);
      if Need(c.e, start) <= max { TighterNeeds(c.e, p, c.rest, c.depth, start, max, high); }
    }
  }

  /** The limit decides exactly: the tokens of a proper tree are accepted, as that tree, if and only if the
    tree does not need more depth than there is. */
  lemma AcceptedWithinLimit(e: Tree, max: nat)
    requires Proper(e)
    ensures ParseQuery(Tokens(e), max) == if Need(e, 1) <= max then Parsed(e, [], 0) else TooDeep
  {
    hide Proper, Tokens, ParseExpression, Need;
    var high := max + |Tokens(e)| + 1;
    ClimbingExact(Tokens(e), e, high);
    ExpressionNeeds(Tokens(e), 0, 0, max, high);
  }

  /** How deep groups and minus signs are nested. */
  function Nesting(e: Tree): nat {
    match e
    case Leaf(_) => 0
    case Group(inner) => Nesting(inner) + 1
    case Negate(inner) => Nesting(inner) + 1
    case Binary(l, _, r) => if Nesting(l) >= Nesting(r) then Nesting(l) else Nesting(r)
  }

  lemma {:induction false} NestingNeeded(e: Tree, depth: nat)
    ensures Nesting(e) + depth <= Need(e, depth)
  {
    match e
    case Leaf(_) =>
    case Group(inner) => NestingNeeded(inner, depth + 1);
    case Negate(inner) => NestingNeeded(inner, depth + 1);
    case Binary(l, _, r) =>
      NestingNeeded(l, depth);
      NestingNeeded(r, depth + Spine(l) + 1);
  }

  /** Neither groups nor the operators outside them are nested beyond the limit. */
  lemma NestingWithinLimit(ts: seq<Token>, max: nat)
    ensures var r := ParseQuery(ts, max); r.Parsed? ==> Nesting(r.e) < max && Spine(r.e) < max
  {
    var r := ParseQuery(ts, max);
    if r.Parsed? {
      ClimbingExact(ts, r.e, max);
      AcceptedWithinLimit(r.e, max);
      NestingNeeded(r.e, 1);
    }
  }

  /** The height of the tree that is built, in which a group leaves no node. */
  function Height(e: Tree): (h: nat)
    ensures h >= 1
  {
    match e
    case Leaf(_) => 1
    case Group(inner) => Height(inner)
    case Negate(inner) => Height(inner) + 1
    case Binary(l, _, r) => 1 + if Height(l) >= Height(r) then Height(l) else Height(r)
  }

  function Chain(first: Tree, n: nat): Tree {
    if n == 0 then first else Binary(Chain(first, n - 1), Minus, Leaf(Path))
  }

  lemma {:induction false} AboutChain(first: Tree, n: nat, depth: nat)
    requires Proper(first) && !first.Binary?
    ensures var e := Chain(first, n);
            && Proper(e) && Yields(e) >= 5 && Spine(e) == n && Height(e) == Height(first) + n
            && Need(e, depth) == if Need(first, depth) >= depth + n then Need(first, depth) else depth + n
  {
    hide Proper, Yields, Spine, Height, Need;
    if n > 0 {
      AboutChain(first, n - 1, depth);
      OneMoreTerm(Chain(first, n - 1), depth);
    } else {
      NoTerms(first, depth);
    }
  }

  lemma NoTerms(first: Tree, depth: nat)
    requires !first.Binary?
    ensures Yields(first) >= 5 && Spine(first) == 0
  {
  }

  lemma OneMoreTerm(l: Tree, depth: nat)
    requires Proper(l) && Yields(l) >= 5
    ensures var e := Binary(l, Minus, Leaf(Path));
            && Proper(e) && Yields(e) == 5 && Spine(e) == Spine(l) + 1 && Height(e) == Height(l) + 1
            && Need(e, depth) == if Need(l, depth) >= depth + Spine(l) + 1 then Need(l, depth) else depth + Spine(l) + 1
  {
    hide Proper, Yields, Spine, Height, Need;
    TermProper(l);
    TermHigher(l);
    TermNeeds(l, depth);
  }

  lemma TermProper(l: Tree)
    requires Proper(l) && Yields(l) >= 5
    ensures var e := Binary(l, Minus, Leaf(Path)); Proper(e) && Yields(e) == 5
  {
    var r := Leaf(Path);
    assert Proper(r) && Tightness(r) == UNION + 1;
    assert OperatorOf(Minus) == Subtract && PrecedenceOf(Subtract) == 5;
    BinaryProper(l, Minus, r);
  }

  lemma TermHigher(l: Tree)
    ensures Height(Binary(l, Minus, Leaf(Path))) == Height(l) + 1 && Spine(Binary(l, Minus, Leaf(Path))) == Spine(l) + 1
  {
    assert Height(Leaf(Path)) == 1 && Spine(Leaf(Path)) == 0;
  }

  lemma TermNeeds(l: Tree, depth: nat)
    ensures Need(Binary(l, Minus, Leaf(Path)), depth)
            == if Need(l, depth) >= depth + Spine(l) + 1 then Need(l, depth) else depth + Spine(l) + 1
  {
    assert Need(Leaf(Path), depth + Spine(l) + 1) == depth + Spine(l) + 1;
  }

  function Triangle(k: nat): nat {
    if k == 0 then 0 else Triangle(k - 1) + k
  }

  lemma {:induction false} TriangleClosed(k: nat)
    ensures 2 * Triangle(k) == k * (k + 1)
  {
    if k > 0 {
      TriangleClosed(k - 1);
      assert k * (k + 1) == (k - 1) * k + 2 * k;
    }
  }

  lemma {:induction false} TriangleGrows(j: nat, k: nat)
    requires j <= k
    ensures Triangle(j) <= Triangle(k)
  {
    if j < k { TriangleGrows(j, k - 1); }
  }

  /** What a tree is built with besides operands and operators. */
  predicate Uses(e: Tree, groups: bool, minus: bool) {
    match e
    case Leaf(_) => true
    case Group(inner) => groups && Uses(inner, groups, minus)
    case Negate(inner) => minus && Uses(inner, groups, minus)
    case Binary(l, _, r) => Uses(l, groups, minus) && Uses(r, groups, minus)
  }

  lemma {:induction false} UsesAll(e: Tree)
    ensures Uses(e, true, true)
  {
    match e
    case Leaf(_) =>
    case Group(inner) => UsesAll(inner);
    case Negate(inner) => UsesAll(inner);
    case Binary(l, _, r) => UsesAll(l); UsesAll(r);
  }

  /** The operands of a union have no minus sign outside. */
  lemma {:induction false} NodeSetHasNoMinus(e: Tree)
    requires Proper(e) && IsNodeSet(e)
    ensures Uses(e, true, false)
  {
    match e
    case Leaf(_) =>
    case Group(inner) => NodeSetHasNoMinus(inner);
    case Negate(_) =>
    case Binary(l, _, r) => NodeSetHasNoMinus(l); NodeSetHasNoMinus(r);
  }

  /** Operators alone: every one of them was given its own level. */
  lemma {:induction false} FlatHeight(e: Tree)
    requires Uses(e, false, false)
    ensures Height(e) <= Spine(e) + 1
  {
    match e
    case Leaf(_) =>
    case Group(_) =>
    case Negate(_) =>
    case Binary(l, _, r) => FlatHeight(l); FlatHeight(r);
  }

  /** How high an operand can be that needs `k` levels. */
  function OperandHeight(minus: bool, k: nat): nat {
    if k == 0 then 1 else Triangle(k - 1) + if minus then 2 else 1
  }

  lemma OperandHeightGrows(minus: bool, j: nat, k: nat)
    requires j <= k
    ensures OperandHeight(minus, j) <= OperandHeight(minus, k)
    ensures k > 0 ==> OperandHeight(minus, k - 1) + k - 1 <= OperandHeight(minus, k)
    ensures k > 0 ==> OperandHeight(true, k - 1) + 1 <= OperandHeight(true, k)
    ensures k > 0 ==> OperandHeight(false, k - 1) + k <= OperandHeight(true, k)
  {
    if 0 < j { TriangleGrows(j - 1, k - 1); }
  }

  /** The height of an expression exceeds its outer operators by no more than its operands can have. */
  lemma {:induction false} HeightOverSpine(e: Tree, minus: bool, depth: nat)
    requires Proper(e) && Uses(e, true, minus)
    ensures Height(e) <= Spine(e) + OperandHeight(minus, Need(e, depth) - depth)
    decreases e, 0
  {
    hide OperandHeight, Need, Height, Spine, Proper, Uses;
    ProperParts(e, minus);
    SpineNeeded(e, depth);
    var k := Need(e, depth) - depth;
    OperandHeightGrows(minus, 0, k);
    AnyOperandHeight(minus, k);
    HeightParts(e, depth);
    match e
    case Leaf(_) =>
    case Group(inner) =>
      SpineNeeded(inner, depth + 1);
      HeightOverSpine(inner, minus, depth + 1);
    case Negate(inner) =>
      NegatedHeight(inner, depth);
    case Binary(l, t, r) =>
      var below := depth + Spine(l) + 1;
      SpineNeeded(l, depth);
      SpineNeeded(r, below);
      HeightOverSpine(l, minus, depth);
      HeightOverSpine(r, minus, below);
      OperandHeightGrows(minus, Need(l, depth) - depth, k);
      OperandHeightGrows(minus, Need(r, below) - below, k);
  }

  lemma ProperParts(e: Tree, minus: bool)
    requires Proper(e) && Uses(e, true, minus)
    ensures e.Group? ==> Proper(e.inner) && Uses(e.inner, true, minus)
    ensures e.Negate? ==> minus && Proper(e.inner) && Uses(e.inner, true, minus) && Tightness(e.inner) >= UNION
    ensures e.Binary? ==> Proper(e.left) && Proper(e.right) && Uses(e.left, true, minus) && Uses(e.right, true, minus)
  {
  }

  lemma HeightParts(e: Tree, depth: nat)
    ensures e.Leaf? ==> Height(e) == 1
    ensures e.Group? ==> Height(e) == Height(e.inner) && Need(e, depth) == Need(e.inner, depth + 1)
    ensures e.Negate? ==> Height(e) == Height(e.inner) + 1 && Need(e, depth) == Need(e.inner, depth + 1)
    ensures e.Binary? ==>
              && Height(e) == 1 + (if Height(e.left) >= Height(e.right) then Height(e.left) else Height(e.right))
              && Spine(e) == Spine(e.left) + 1 + Spine(e.right)
              && Need(e.left, depth) <= Need(e, depth) && Need(e.right, depth + Spine(e.left) + 1) <= Need(e, depth)
    ensures !e.Binary? ==> Spine(e) == 0
  {
  }

  lemma AnyOperandHeight(minus: bool, k: nat)
    ensures OperandHeight(minus, k) >= 1
  {
  }

  /** A minus sign is followed by one operand or by a union of several, which holds no further one. */
  lemma {:induction false} NegatedHeight(inner: Tree, depth: nat)
    requires Proper(Negate(inner))
    ensures Height(inner) + 1 <= OperandHeight(true, Need(inner, depth + 1) - depth)
    decreases inner, 1
  {
    hide OperandHeight, Need, Height, Spine;
    SpineNeeded(inner, depth + 1);
    HeightParts(inner, depth + 1);
    var k := Need(inner, depth + 1) - depth;
    OperandHeightGrows(true, 0, k);
    if inner.Binary? {
      assert IsNodeSet(inner);
      NodeSetHasNoMinus(inner);
      HeightOverSpine(inner, false, depth + 1);
    } else {
      UsesAll(inner);
      HeightOverSpine(inner, true, depth + 1);
    }
  }

  /** The greatest height the limit leaves room for. */
  function HeightLimit(max: nat): nat {
    if max <= 1 then 1 else 2 + Triangle(max - 1)
  }

  /** The limit on the depth does limit the height, but quadratically. */
  lemma HeightWithinLimit(ts: seq<Token>, max: nat)
    ensures var r := ParseQuery(ts, max); r.Parsed? ==> Height(r.e) <= HeightLimit(max)
    ensures max > 1 ==> 2 * HeightLimit(max) == 4 + (max - 1) * max
  {
    hide ParseQuery, Proper, Need, Tokens, Height;
    if max > 1 { TriangleClosed(max - 1); }
    var r := ParseQuery(ts, max);
    if r.Parsed? {
      ClimbingExact(ts, r.e, max);
      AcceptedWithinLimit(r.e, max);
      UsesAll(r.e);
      HeightOverSpine(r.e, true, 1);
      SpineNeeded(r.e, 1);
      OperandHeightGrows(true, Need(r.e, 1) - 1, max - 1);
    }
  }

  lemma SpineNeeded(e: Tree, depth: nat)
    ensures Need(e, depth) >= depth + Spine(e)
  {
  }

  /** Chains of terms, each `k` long and in front of a group that holds the next shorter one. */
  function Tower(k: nat): Tree {
    if k == 0 then Leaf(Path)
    else if k == 1 then Chain(Negate(Leaf(Path)), 1)
    else Chain(Group(Tower(k - 1)), k)
  }

  lemma {:induction false} AboutTower(k: nat, depth: nat)
    ensures Proper(Tower(k)) && Height(Tower(k)) == HeightLimit(k + 1) && Need(Tower(k), depth) == depth + k
  {
    hide Chain, Proper, Height, Need;
    LeafFacts(depth);
    if k == 1 {
      LeafFacts(depth + 1);
      NegateFacts(Leaf(Path), depth);
      AboutChain(Negate(Leaf(Path)), 1, depth);
      assert Triangle(1) == 1;
    } else if k > 1 {
      AboutTower(k - 1, depth + 1);
      GroupFacts(Tower(k - 1), depth);
      AboutChain(Group(Tower(k - 1)), k, depth);
    }
  }

  /** And this bound is reached at every limit: a group gives back the depth it took, so each level of a
    tower can use all that is left. */
  lemma HeightReached(max: nat) returns (e: Tree)
    requires max > 0
    ensures ParseQuery(Tokens(e), max) == Parsed(e, [], 0) && Height(e) == HeightLimit(max)
  {
    hide Tokens, ParseQuery, Need, Proper, Height, Tower;
    e := Tower(max - 1);
    AboutTower(max - 1, 1);
    AcceptedWithinLimit(e, max);
  }

  predicate Accepted(e: Tree, max: nat) {
    Proper(e) && ParseQuery(Tokens(e), max) == Parsed(e, [], 0)
  }

  /** When the limit bounds the height itself: for queries with neither groups nor minus signs, at a limit
    of two also for queries with groups, and otherwise only where nothing but a single operand is
    accepted. */
  lemma WhenHeightIsLimited(groups: bool, minus: bool, max: nat)
    ensures (forall e | Accepted(e, max) && Uses(e, groups, minus) :: Height(e) <= max)
            <==> max <= 1 || (!minus && (!groups || max <= 2))
  {
    hide Accepted, Uses, Height;
    if max <= 1 || (!minus && (!groups || max <= 2)) {
      forall e | Accepted(e, max) && Uses(e, groups, minus) ensures Height(e) <= max {
        HeightLimited(e, groups, minus, max);
      }
    } else {
      var e := TooHigh(groups, minus, max);
      assert Accepted(e, max) && Uses(e, groups, minus);
    }
  }

  lemma HeightLimited(e: Tree, groups: bool, minus: bool, max: nat)
    requires Accepted(e, max) && Uses(e, groups, minus) && (max <= 1 || (!minus && (!groups || max <= 2)))
    ensures Height(e) <= max
  {
    hide Proper, ParseQuery, Tokens, Need, Height, Uses;
    AcceptedWithinLimit(e, max);
    SpineNeeded(e, 1);
    if !minus && !groups {
      FlatHeight(e);
    } else {
      UsesMore(e, groups, minus);
      HeightOverSpine(e, minus, 1);
      assert Triangle(0) == 0;
    }
  }

  lemma {:induction false} UsesMore(e: Tree, groups: bool, minus: bool)
    requires Uses(e, groups, minus)
    ensures Uses(e, true, minus)
  {
    match e
    case Leaf(_) =>
    case Group(inner) => UsesMore(inner, groups, minus);
    case Negate(inner) => UsesMore(inner, groups, minus);
    case Binary(l, _, r) => UsesMore(l, groups, minus); UsesMore(r, groups, minus);
  }

  lemma {:induction false} ChainUses(first: Tree, n: nat, groups: bool, minus: bool)
    requires Uses(first, groups, minus)
    ensures Uses(Chain(first, n), groups, minus)
  {
    if n > 0 { ChainUses(first, n - 1, groups, minus); }
  }

  /** One minus sign, or one group, in front of as many terms as fit. */
  lemma TooHigh(groups: bool, minus: bool, max: nat) returns (e: Tree)
    requires max > 1 && (minus || (groups && max > 2))
    ensures Accepted(e, max) && Uses(e, groups, minus) && Height(e) > max
  {
    hide Chain, Proper, Height, Need, ParseQuery, Tokens;
    LeafFacts(1);
    LeafFacts(2);
    if minus {
      NegateFacts(Leaf(Path), 1);
      ChainUses(Negate(Leaf(Path)), max - 1, groups, minus);
      AboutChain(Negate(Leaf(Path)), max - 1, 1);
      e := Chain(Negate(Leaf(Path)), max - 1);
    } else {
      var inner := Chain(Leaf(Path), max - 2);
      ChainUses(Leaf(Path), max - 2, groups, minus);
      AboutChain(Leaf(Path), max - 2, 2);
      GroupFacts(inner, 1);
      ChainUses(Group(inner), max - 1, groups, minus);
      AboutChain(Group(inner), max - 1, 1);
      e := Chain(Group(inner), max - 1);
    }
    AcceptedWithinLimit(e, max);
  }

  lemma LeafFacts(depth: nat)
    ensures Proper(Leaf(Path)) && Height(Leaf(Path)) == 1 && Need(Leaf(Path), depth) == depth
  {
  }

  lemma NegateFacts(e: Tree, depth: nat)
    requires e.Leaf? && Proper(e)
    ensures Proper(Negate(e)) && Height(Negate(e)) == 2 && Need(Negate(e), depth) == depth + 1
  {
  }

  lemma GroupFacts(e: Tree, depth: nat)
    requires Proper(e)
    ensures Proper(Group(e)) && Height(Group(e)) == Height(e) && Need(Group(e), depth) == Need(e, depth + 1)
  {
  }

  /** No two proper trees have the same tokens: precedence and associativity leave no choice. */
  lemma ProperTreeUnique(e: Tree, f: Tree)
    requires Proper(e) && Proper(f) && Tokens(e) == Tokens(f)
    ensures e == f
  {
    hide Proper, Tokens, ParseQuery;
    var max := |Tokens(e)| + 1;
    ClimbingExact(Tokens(e), e, max);
    ClimbingExact(Tokens(e), f, max);
  }

  // ------------------------------------------------------------------ the parser as it runs

  datatype Outcome = Node(e: Tree) | Error(tooDeep: bool)

  class XPathParser {
    const tokens: seq<Token>
    const max: nat
    var pos: nat
    var depth: nat

    constructor (tokens: seq<Token>)
      ensures this.tokens == tokens && max == DEPTH_LIMIT && pos == 0 && depth == 0
    {
      this.tokens := tokens;
      max := DEPTH_LIMIT;
      pos, depth := 0, 0;
    }

    ghost function Left(): seq<Token>
      requires pos <= |tokens|
      reads this
    {
      tokens[pos..]
    }

    /** The parser has got to where the pure parser says, or has failed as it says. */
    ghost predicate Agrees(out: Outcome, r: Result)
      reads this
    {
      if r.Parsed? then out == Node(r.e) && pos <= |tokens| && Left() == r.rest && depth == r.depth
      else out == Error(r.TooDeep?)
    }

    predicate NextIs(limit: nat)
      reads this
    {
      pos < |tokens| && IsOperator(tokens[pos]) && PrecedenceOf(OperatorOf(tokens[pos])) >= limit
    }

    /** `parse_path_or_unary_expression`. */
    method ParsePathOrUnaryExpression() returns (out: Outcome)
      requires pos <= |tokens|
      modifies this`pos, this`depth
      ensures Agrees(out, old(ParseOperand(Left(), depth, max)))
      decreases |tokens| - pos, 0
    {
      if pos == |tokens| { return Error(false); }
      var t := tokens[pos];
      assert Left()[0] == t && Left()[1..] == tokens[pos + 1..];
      if !IsAtom(t) && t != Open && t != Minus { return Error(false); }
      pos := pos + 1;
      if IsAtom(t) {
        out := Node(Leaf(t));
      } else if t == Open {
        out := ReadExpression(0);
        if out.Node? {
          if pos == |tokens| || tokens[pos] != Close { return Error(false); }
          assert Left()[1..] == tokens[pos + 1..];
          pos := pos + 1;
          out := Node(Group(out.e));
        }
      } else {
        out := ReadExpression(UNION);
        if out.Node? { out := Node(Negate(out.e)); }
      }
    }

    /** `parse_expression`. */
    method ReadExpression(limit: nat) returns (out: Outcome)
      requires pos <= |tokens|
      modifies this`pos, this`depth
      ensures Agrees(out, old(ParseExpression(Left(), limit, depth, max)))
      decreases |tokens| - pos, 1
    {
      var oldDepth := depth;
      depth := depth + 1;
      if depth > max { return Error(true); }
      out := ParsePathOrUnaryExpression();
      if out.Node? {
        out := ParseExpressionRec(out.e, limit);
        depth := oldDepth;
      }
    }

    /** `parse_expression_rec`: the two loops of precedence climbing. */
    method ParseExpressionRec(lhs: Tree, limit: nat) returns (out: Outcome)
      requires pos <= |tokens|
      modifies this`pos, this`depth
      ensures Agrees(out, old(Climb(lhs, limit, Left(), depth, max)))
      decreases |tokens| - pos, 0
    {
      hide Tighter, ParseOperand, PrecedenceOf, OperatorOf, IsNodeSet;
      ghost var r := Climb(lhs, limit, Left(), depth, max);
      var left := lhs;
      while NextIs(limit)
        invariant old(pos) <= pos <= |tokens|
        invariant Climb(left, limit, Left(), depth, max) == r
        decreases |tokens| - pos
      {
        var t := tokens[pos];
        assert Left()[0] == t && Left()[1..] == tokens[pos + 1..];
        pos := pos + 1;
        depth := depth + 1;
        if depth > max { return Error(true); }
        out := ParsePathOrUnaryExpression();
        if out.Error? { return; }
        out := ParseTighter(out.e, PrecedenceOf(OperatorOf(t)));
        if out.Error? { return; }
        if OperatorOf(t) == Union && !(IsNodeSet(left) && IsNodeSet(out.e)) { return Error(false); }
        left := Binary(left, t, out.e);
      }
      out := Node(left);
    }

    /** The inner loop. */
    method ParseTighter(rhs: Tree, p: nat) returns (out: Outcome)
      requires pos <= |tokens|
      modifies this`pos, this`depth
      ensures Agrees(out, old(Tighter(rhs, p, Left(), depth, max)))
      decreases |tokens| - pos, 1
    {
      ghost var r := Tighter(rhs, p, Left(), depth, max);
      out := Node(rhs);
      while NextIs(p + 1)
        invariant old(pos) <= pos <= |tokens| && out.Node?
        invariant Tighter(out.e, p, Left(), depth, max) == r
        decreases |tokens| - pos
      {
        out := ParseExpressionRec(out.e, PrecedenceOf(OperatorOf(tokens[pos])));
        if out.Error? { return; }
      }
    }

    /** `parse`: nothing may be left over. */
    method Parse() returns (out: Outcome)
      requires pos == 0 && depth == 0
      modifies this`pos, this`depth
      ensures var r := ParseQuery(tokens, max); if r.Parsed? then out == Node(r.e) else out == Error(r.TooDeep?)
    {
      assert Left() == tokens;
      out := ReadExpression(0);
      if out.Node? && pos < |tokens| { out := Error(false); }
    }
  }
}
