/** XPath expressions as the engine stores them, and what they mean.

  The meaning is given on sets of nodes and single values, with no order flags, no evaluation modes
  and no predicate classes: it is what both the evaluator and the optimizer are proved against. */
module XPath {
  import opened Document
  import opened Axes
  import opened DocumentOrder
  import opened NodeSets

  /** A number as far as the proofs need it: a real value, or not a number. */
  datatype Num = NaN | Real(r: real)

  datatype Operator = Add | Subtract | Multiply | Divide | Modulo

  datatype Comparison = Equal | NotEqual | Less | LessOrEqual | Greater | GreaterOrEqual

  datatype Type = NodeSetType | NumberType | StringType | BooleanType

  /** How a predicate was classified by the optimizer; `Default` before it has run. */
  datatype PredicateClass = Default | PositionInvariant | Constant | ConstantOne

  datatype UnaryFunction = Count | Name | StringLength | ToString | ToBoolean | ToNumber | Not | Negate

  datatype BinaryFunction = Or | And | Compare(cmp: Comparison) | Arithmetic(op: Operator) | BeginsWith | Contains
      | Concat

  datatype Expr =
    | Root
    | Step(left: Source, axis: Axis, test: NodeTest, predicates: Predicates)
    | Union(l: Expr, r: Expr)
    | Filter(inner: Expr, cls: PredicateClass, test_: Expr)
    | NumberConstant(n: Num)
    | StringConstant(s: string)
    | BooleanConstant(b: bool)
    | Position
    | Last
    | Unary(f: UnaryFunction, e: Expr)
    | Binary(g: BinaryFunction, l: Expr, r: Expr)
    | Translate(e: Expr, from: Expr, to: Expr)
    | TranslateTable(e: Expr, table: seq<nat>)
    | CompareAttribute(name: string, value: string)

  /** The left side of a step: the context node, or the nodes another expression selects. */
  datatype Source = FromContext | From(e: Expr)

  datatype Predicates = NoPredicates | Predicate(cls: PredicateClass, e: Expr, next: Predicates)

  function TypeOfUnary(f: UnaryFunction): Type {
    match f
    case Count => NumberType
    case Name => StringType
    case StringLength => NumberType
    case ToString => StringType
    case ToBoolean => BooleanType
    case ToNumber => NumberType
    case Not => BooleanType
    case Negate => NumberType
  }

  function TypeOfBinary(g: BinaryFunction): Type {
    match g
    case Arithmetic(_) => NumberType
    case Concat => StringType
    case _ => BooleanType
  }

  function TypeOf(e: Expr): Type {
    match e
    case Root => NodeSetType
    case Step(_, _, _, _) => NodeSetType
    case Union(_, _) => NodeSetType
    case Filter(_, _, _) => NodeSetType
    case NumberConstant(_) => NumberType
    case StringConstant(_) => StringType
    case BooleanConstant(_) => BooleanType
    case Position => NumberType
    case Last => NumberType
    case Unary(f, _) => TypeOfUnary(f)
    case Binary(g, _, _) => TypeOfBinary(g)
    case Translate(_, _, _) => StringType
    case TranslateTable(_, _) => StringType
    case CompareAttribute(_, _) => BooleanType
  }

  /** What the expression parser guarantees: node sets where node sets are needed, and literals that
    are C strings. */
  predicate WellTyped(e: Expr) {
    match e
    case Step(left, _, _, ps) => (left.From? ==> WellTyped(left.e) && TypeOf(left.e) == NodeSetType) && WellTypedAll(ps)
    case Union(l, r) => WellTyped(l) && WellTyped(r) && TypeOf(l) == NodeSetType && TypeOf(r) == NodeSetType
    case Filter(inner, _, p) => WellTyped(inner) && WellTyped(p) && TypeOf(inner) == NodeSetType
    case StringConstant(s) => '\0' !in s
    case Unary(f, e1) => WellTyped(e1) && (f.Count? || f.Name? ==> TypeOf(e1) == NodeSetType)
    case Binary(_, l, r) => WellTyped(l) && WellTyped(r)
    case Translate(e1, f, t) => WellTyped(e1) && WellTyped(f) && WellTyped(t)
    case TranslateTable(e1, table) => WellTyped(e1) && ValidTable(table)
    case _ => true
  }

  predicate WellTypedAll(ps: Predicates) {
    ps.Predicate? ==> WellTyped(ps.e) && WellTypedAll(ps.next)
  }

  // ------------------------------------------------------------------ environment

  /** Everything an evaluation depends on besides the expression: the document, where its nodes are
    stored, and the arithmetic and conversions of doubles, which are left abstract. */
  datatype Env = Env(doc: Table, address: XNode -> nat,
                     toNumber: string -> Num, toText: Num -> string,
                     arithmetic: (Operator, Num, Num) -> Num, negate: Num -> Num)

  datatype Context = Context(node: XNode, position: nat, size: nat)

  ghost predicate ValidEnv(env: Env) {
    WellFormed(env.doc) && DistinctAddresses(env.address)
  }

  // ------------------------------------------------------------------ values

  /** The text of the pcdata and cdata nodes among rows `lo .. hi`, in document order. */
  function TextBetween(d: Table, lo: nat, hi: nat): string
    requires hi <= |d|
  {
    if lo >= hi then ""
    else TextBetween(d, lo, hi - 1)
         + (if d[hi - 1].data.kind.Pcdata? || d[hi - 1].data.kind.Cdata? then d[hi - 1].data.value else "")
  }

  function StringValue(d: Table, x: XNode): string
    requires ValidNode(d, x)
  {
    match x
    case NullNode => ""
    case AttributeNode(p, k) => d[p].data.attributes[k].value
    case TreeNode(n) =>
      if d[n].data.kind.DocumentNode? || d[n].data.kind.Element? then d[n].data.value + TextBetween(d, n + 1, End(d, n))
      else d[n].data.value
  }

  function QualifiedName(d: Table, x: XNode): string
    requires ValidNode(d, x)
  {
    match x
    case NullNode => ""
    case AttributeNode(p, k) => d[p].data.attributes[k].name
    case TreeNode(n) => d[n].data.name
  }

  predicate CompareNumbers(cmp: Comparison, x: Num, y: Num) {
    match cmp
    case Equal => x.Real? && y.Real? && x.r == y.r
    case NotEqual => !(x.Real? && y.Real? && x.r == y.r)
    case Less => x.Real? && y.Real? && x.r < y.r
    case LessOrEqual => x.Real? && y.Real? && x.r <= y.r
    case Greater => x.Real? && y.Real? && x.r > y.r
    case GreaterOrEqual => x.Real? && y.Real? && x.r >= y.r
  }

  predicate CompareEqual<T(==)>(cmp: Comparison, x: T, y: T)
    requires cmp.Equal? || cmp.NotEqual?
  {
    (x == y) == cmp.Equal?
  }

  function NumberOfBool(b: bool): Num {
    Real(if b then 1.0 else 0.0)
  }

  predicate BoolOfNumber(x: Num) {
    x.Real? && x.r != 0.0
  }

  predicate IsSubstring(s: string, t: string) {
    exists i | 0 <= i <= |s| :: t <= s[i..]
  }

  /** `find_char`: the first position of `c` in `s`, or the length of `s`. */
  function IndexOf(s: string, c: char): (i: nat)
    ensures i <= |s|
    ensures i < |s| ==> s[i] == c
  {
    if s == "" || s[0] == c then 0 else 1 + IndexOf(s[1..], c)
  }

  function TranslateChar(c: char, from: string, to: string): string {
    var i := IndexOf(from, c);
    if i == |from| then [c] else if i < |to| then [to[i]] else ""
  }

  function TranslateText(s: string, from: string, to: string): string {
    if s == "" then "" else TranslateText(s[..|s| - 1], from, to) + TranslateChar(s[|s| - 1], from, to)
  }

  /** A code for each ASCII character, 128 meaning that the character is dropped. */
  predicate ValidTable(table: seq<nat>) {
    |table| == 128 && forall i | 0 <= i < 128 :: table[i] <= 128
  }

  function TableChar(c: char, table: seq<nat>): string
    requires ValidTable(table)
  {
    if c as int < 128 then (if table[c as int] == 128 then "" else [table[c as int] as char]) else [c]
  }

  function TableText(s: string, table: seq<nat>): string
    requires ValidTable(table)
  {
    if s == "" then "" else TableText(s[..|s| - 1], table) + TableChar(s[|s| - 1], table)
  }

  /** The value of the first attribute of that name, if the context is an element that has one. */
  predicate HasAttributeValue(d: Table, x: XNode, name: string, value: string)
    requires WellFormed(d) && ValidNode(d, x)
  {
    var found := AxisNodes(d, AttributeAxis, NameTest(name), x);
    found != [] && ValidNode(d, found[0]) && StringValue(d, found[0]) == value
  }

  // ------------------------------------------------------------------ sets in document order

  ghost predicate IsFirst(x: XNode, s: set<XNode>) {
    x in s && forall y | y in s && y != x :: Precedes(x, y)
  }

  lemma {:induction false} FirstExists(s: set<XNode>) returns (m: XNode)
    requires s != {}
    ensures IsFirst(m, s)
  {
    var x :| x in s;
    if s == {x} {
      m := x;
    } else {
      var rest := s - {x};
      m := FirstExists(rest);
      PrecedesIsStrictTotal(x, m, m);
      if Precedes(x, m) {
        forall y | y in s && y != x ensures Precedes(x, y) { PrecedesIsStrictTotal(x, m, y); }
        m := x;
      }
    }
  }

  ghost function InDocumentOrder(s: set<XNode>): seq<XNode> {
    if s == {} then []
    else
      FirstOfNonEmpty(s);
      var m :| IsFirst(m, s);
      [m] + InDocumentOrder(s - {m})
  }

  lemma FirstOfNonEmpty(s: set<XNode>)
    requires s != {}
    ensures exists m :: IsFirst(m, s)
  {
    var m := FirstExists(s);
  }

  lemma {:induction false} InDocumentOrderListsSet(s: set<XNode>)
    ensures InOrder(InDocumentOrder(s)) && forall x :: x in InDocumentOrder(s) <==> x in s
  {
    if s != {} {
      FirstOfNonEmpty(s);
      var m := InDocumentOrder(s)[0];
      InDocumentOrderListsSet(s - {m});
    }
  }

  /** A set has only one listing in document order. */
  lemma {:induction false} OrderedListingUnique(s: seq<XNode>, t: seq<XNode>)
    requires InOrder(s) && InOrder(t) && forall x :: x in s <==> x in t
    ensures s == t
  {
    assert t != [] ==> t[0] in t;
    if s != [] {
      assert s[0] in s;
      var i :| 0 <= i < |t| && t[i] == s[0];
      var j :| 0 <= j < |s| && s[j] == t[0];
      PrecedesIsStrictTotal(s[0], t[0], s[0]);
      assert s[0] == t[0];
      forall x ensures x in s[1..] <==> x in t[1..] {
        PrecedesIsStrictTotal(s[0], s[0], s[0]);
        assert x in s <==> x == s[0] || x in s[1..];
        assert x in t <==> x == t[0] || x in t[1..];
        assert s[0] !in s[1..] && t[0] !in t[1..];
      }
      OrderedListingUnique(s[1..], t[1..]);
    }
  }

  // ------------------------------------------------------------------ meaning

  /** The nodes a node-set expression selects from context node `x`. */
  ghost function SetOf(env: Env, e: Expr, x: XNode): (r: set<XNode>)
    requires ValidEnv(env) && ValidNode(env.doc, x)
    ensures forall y | y in r :: ValidNode(env.doc, y) && !y.NullNode?
    decreases e, 0
  {
    match e
    case Root => if x.NullNode? then {} else {TreeNode(0)}
    case Union(l, r) => SetOf(env, l, x) + SetOf(env, r, x)
    case Filter(inner, _, p) =>
      InDocumentOrderListsSet(SetOf(env, inner, x));
      set y | y in Keep(env, InDocumentOrder(SetOf(env, inner, x)), p)
    case Step(left, axis, test, ps) =>
      StepSet(env, axis, test, ps, StepContexts(env, left, x))
    case _ => {}
  }

  ghost function AllNodes(d: Table): set<XNode> {
    (set i | 0 <= i < |d| :: TreeNode(i))
    + (set p, k | 0 <= p < |d| && 0 <= k < |d[p].data.attributes| :: AttributeNode(p, k))
  }

  /** One step from some node of `starts` selects `z`. */
  ghost predicate Reaches(env: Env, axis: Axis, test: NodeTest, ps: Predicates, starts: set<XNode>, z: XNode)
    requires ValidEnv(env) && forall y | y in starts :: ValidNode(env.doc, y)
    decreases ps, 2
  {
    exists y | y in starts :: z in StepFrom(env, axis, test, ps, y)
  }

  ghost function StepSet(env: Env, axis: Axis, test: NodeTest, ps: Predicates, starts: set<XNode>): (r: set<XNode>)
    requires ValidEnv(env) && forall y | y in starts :: ValidNode(env.doc, y)
    ensures forall z | z in r :: ValidNode(env.doc, z) && !z.NullNode?
    decreases ps, 3
  {
    set z | z in AllNodes(env.doc) && Reaches(env, axis, test, ps, starts, z)
  }

  /** The nodes a step starts from. */
  ghost function StepContexts(env: Env, left: Source, x: XNode): (r: set<XNode>)
    requires ValidEnv(env) && ValidNode(env.doc, x)
    ensures forall y | y in r :: ValidNode(env.doc, y)
    decreases left, 0
  {
    match left
    case FromContext => {x}
    case From(f) => SetOf(env, f, x)
  }

  /** The nodes one step selects from `y`, in axis order. */
  ghost function StepFrom(env: Env, axis: Axis, test: NodeTest, ps: Predicates, y: XNode): (r: seq<XNode>)
    requires ValidEnv(env) && ValidNode(env.doc, y)
    ensures forall z | z in r :: ValidNode(env.doc, z) && !z.NullNode?
    decreases ps, 1
  {
    AxisNodesOrdered(env.doc, axis, test, y);
    KeepAll(env, AxisNodes(env.doc, axis, test, y), ps)
  }

  ghost function KeepAll(env: Env, s: seq<XNode>, ps: Predicates): (r: seq<XNode>)
    requires ValidEnv(env) && ValidNodes(env.doc, s)
    ensures forall y | y in r :: y in s
    decreases ps, 0
  {
    match ps
    case NoPredicates => s
    case Predicate(_, e, next) => KeepAll(env, Keep(env, s, e), next)
  }

  /** The nodes of `s` for which the predicate holds, each at its position in `s`. */
  ghost function Keep(env: Env, s: seq<XNode>, e: Expr): (r: seq<XNode>)
    requires ValidEnv(env) && ValidNodes(env.doc, s)
    ensures forall y | y in r :: y in s
    decreases e, 7, 0
  {
    KeepUpTo(env, s, e, |s|)
  }

  ghost function KeepUpTo(env: Env, s: seq<XNode>, e: Expr, n: nat): (r: seq<XNode>)
    requires ValidEnv(env) && ValidNodes(env.doc, s) && n <= |s|
    ensures forall y | y in r :: y in s[..n]
    decreases e, 6, n
  {
    if n == 0 then []
    else KeepUpTo(env, s, e, n - 1) + (if Holds(env, e, Context(s[n - 1], n, |s|)) then [s[n - 1]] else [])
  }

  /** A number is a test on the position; anything else is a condition. */
  ghost predicate Holds(env: Env, e: Expr, c: Context)
    requires ValidEnv(env) && ValidNode(env.doc, c.node)
    decreases e, 5
  {
    if TypeOf(e) == NumberType then CompareNumbers(Equal, NumberOf(env, e, c), Real(c.position as real))
      else BoolOf(env, e, c)
  }

  ghost function FirstValue(env: Env, e: Expr, x: XNode): (r: XNode)
    requires ValidEnv(env) && ValidNode(env.doc, x)
    ensures ValidNode(env.doc, r)
    decreases e, 1
  {
    var s := SetOf(env, e, x);
    InDocumentOrderListsSet(s);
    if s == {} then NullNode else InDocumentOrder(s)[0]
  }

  ghost function BoolOf(env: Env, e: Expr, c: Context): bool
    requires ValidEnv(env) && ValidNode(env.doc, c.node)
    decreases e, if TypeOf(e) == BooleanType then 1 else 3
  {
    if TypeOf(e) == NumberType then BoolOfNumber(NumberOf(env, e, c))
    else if TypeOf(e) == StringType then TextOf(env, e, c) != ""
    else if TypeOf(e) == NodeSetType then SetOf(env, e, c.node) != {}
    else
      match e
      case BooleanConstant(b) => b
      case CompareAttribute(name, value) => HasAttributeValue(env.doc, c.node, name, value)
      case Unary(f, e1) => if f.Not? then !BoolOf(env, e1, c) else BoolOf(env, e1, c)
      case Binary(g, l, r) =>
        (match g
         case Or => BoolOf(env, l, c) || BoolOf(env, r, c)
         case And => BoolOf(env, l, c) && BoolOf(env, r, c)
         case BeginsWith => StartsWith(TextOf(env, l, c), TextOf(env, r, c))
         case Contains => IsSubstring(TextOf(env, l, c), TextOf(env, r, c))
         case Compare(cmp) => CompareValues(env, cmp, l, r, c)
         case _ => false)
      case _ => false
  }

  ghost function NumberOf(env: Env, e: Expr, c: Context): Num
    requires ValidEnv(env) && ValidNode(env.doc, c.node)
    decreases e, if TypeOf(e) == NumberType then 1 else 4
  {
    if TypeOf(e) == BooleanType then NumberOfBool(BoolOf(env, e, c))
    else if TypeOf(e) != NumberType then env.toNumber(TextOf(env, e, c))
    else
      match e
      case NumberConstant(n) => n
      case Position => Real(c.position as real)
      case Last => Real(c.size as real)
      case Unary(f, e1) =>
        (match f
         case Count => Real(|SetOf(env, e1, c.node)| as real)
         case StringLength => Real(|TextOf(env, e1, c)| as real)
         case Negate => env.negate(NumberOf(env, e1, c))
         case _ => NumberOf(env, e1, c))
      case Binary(g, l, r) =>
        if g.Arithmetic? then env.arithmetic(g.op, NumberOf(env, l, c), NumberOf(env, r, c)) else NaN
      case _ => NaN
  }

  ghost function TextOf(env: Env, e: Expr, c: Context): string
    requires ValidEnv(env) && ValidNode(env.doc, c.node)
    decreases e, if TypeOf(e) == StringType then 1 else 2
  {
    if TypeOf(e) == BooleanType then (if BoolOf(env, e, c) then "true" else "false")
    else if TypeOf(e) == NumberType then env.toText(NumberOf(env, e, c))
    else if TypeOf(e) == NodeSetType then StringValue(env.doc, FirstValue(env, e, c.node))
    else
      match e
      case StringConstant(s) => s
      case Unary(f, e1) => if f.Name? then QualifiedName(env.doc, FirstValue(env, e1, c.node)) else TextOf(env, e1, c)
      case Binary(_, l, r) => TextOf(env, l, c) + TextOf(env, r, c)
      case Translate(e1, from, to) => TranslateText(TextOf(env, e1, c), TextOf(env, from, c), TextOf(env, to, c))
      case TranslateTable(e1, table) => if ValidTable(table) then TableText(TextOf(env, e1, c), table) else ""
      case _ => ""
  }

  /** Comparison by the types of the operands; a node set satisfies a comparison if some node of it
    does (section 3.4 of XPath 1.0). */
  ghost predicate CompareValues(env: Env, cmp: Comparison, l: Expr, r: Expr, c: Context)
    requires ValidEnv(env) && ValidNode(env.doc, c.node)
    decreases Binary(Compare(cmp), l, r), 0, 1
  {
    if cmp.Equal? || cmp.NotEqual? then EqualityHolds(env, cmp, l, r, c) else RelationHolds(env, cmp, l, r, c)
  }

  ghost predicate EqualityHolds(env: Env, cmp: Comparison, l: Expr, r: Expr, c: Context)
    requires ValidEnv(env) && ValidNode(env.doc, c.node) && (cmp.Equal? || cmp.NotEqual?)
    decreases Binary(Compare(cmp), l, r), 0, 0
  {
    var ls, rs := SetOf(env, l, c.node), SetOf(env, r, c.node);
    var lt, rt := TypeOf(l), TypeOf(r);
    if lt == NodeSetType && rt == NodeSetType then
      exists x, y | x in ls && y in rs :: CompareEqual(cmp, StringValue(env.doc, x), StringValue(env.doc, y))
    else if lt == BooleanType || rt == BooleanType then
      CompareEqual(cmp, BoolOf(env, l, c), BoolOf(env, r, c))
    else if lt == NodeSetType then
      if rt == NumberType then exists x | x in ls ::
        CompareNumbers(cmp, NumberOf(env, r, c), env.toNumber(StringValue(env.doc, x)))
      else exists x | x in ls :: CompareEqual(cmp, TextOf(env, r, c), StringValue(env.doc, x))
    else if rt == NodeSetType then
      if lt == NumberType then exists y | y in rs ::
        CompareNumbers(cmp, NumberOf(env, l, c), env.toNumber(StringValue(env.doc, y)))
      else exists y | y in rs :: CompareEqual(cmp, TextOf(env, l, c), StringValue(env.doc, y))
    else if lt == NumberType || rt == NumberType then CompareNumbers(cmp, NumberOf(env, l, c), NumberOf(env, r, c))
    else CompareEqual(cmp, TextOf(env, l, c), TextOf(env, r, c))
  }

  ghost predicate RelationHolds(env: Env, cmp: Comparison, l: Expr, r: Expr, c: Context)
    requires ValidEnv(env) && ValidNode(env.doc, c.node)
    decreases Binary(Compare(cmp), l, r), 0, 0
  {
    var ls, rs := SetOf(env, l, c.node), SetOf(env, r, c.node);
    var lt, rt := TypeOf(l), TypeOf(r);
    if lt == NodeSetType && rt == NodeSetType then
      exists x, y | x in ls && y in rs ::
        CompareNumbers(cmp, env.toNumber(StringValue(env.doc, x)), env.toNumber(StringValue(env.doc, y)))
    else if lt == NodeSetType then
      exists x | x in ls :: CompareNumbers(cmp, env.toNumber(StringValue(env.doc, x)), NumberOf(env, r, c))
    else if rt == NodeSetType then
      exists y | y in rs :: CompareNumbers(cmp, NumberOf(env, l, c), env.toNumber(StringValue(env.doc, y)))
    else CompareNumbers(cmp, NumberOf(env, l, c), NumberOf(env, r, c))
  }
}
