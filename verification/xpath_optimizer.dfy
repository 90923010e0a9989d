/** The rewriting pass over a parsed expression, and the proof that it changes no answer.

  The engine rewrites the nodes of the syntax tree in place; here the pass is a function from
  expressions to expressions, children first, as the engine orders it. */
module XPathOptimizer {
  import opened Document
  import opened Axes
  import opened DocumentOrder
  import opened NodeSets
  import opened XPath

  // ------------------------------------------------------------------ position invariance

  /** `is_posinv_expr`: no use of position() or last() outside nested predicates. */
  predicate IsPositionInvariant(e: Expr) {
    match e
    case Position => false
    case Last => false
    case Union(l, r) => IsPositionInvariant(l) && IsPositionInvariant(r)
    case Unary(_, e1) => IsPositionInvariant(e1)
    case Binary(_, l, r) => IsPositionInvariant(l) && IsPositionInvariant(r)
    case Translate(e1, f, t) => IsPositionInvariant(e1) && IsPositionInvariant(f) && IsPositionInvariant(t)
    case TranslateTable(e1, _) => IsPositionInvariant(e1)
    case _ => true
  }

  /** `is_posinv_step`. */
  predicate AllPositionInvariant(ps: Predicates) {
    ps.Predicate? ==> ps.cls.PositionInvariant? && AllPositionInvariant(ps.next)
  }

  // ------------------------------------------------------------------ the rewrites

  predicate IsPositionTest(e: Expr) {
    e.Binary? && e.g == Compare(Equal) && e.l.Position? && TypeOf(e.r) == NumberType
  }

  /** `[position()=e]` becomes `[e]`. */
  function StripPosition(e: Expr): Expr {
    if IsPositionTest(e) then e.r else e
  }

  function ClassOf(e: Expr): PredicateClass {
    if e.NumberConstant? && e.n == Real(1.0) then ConstantOne
    else if e.NumberConstant? || e.Last? then Constant
    else if TypeOf(e) != NumberType && IsPositionInvariant(e) then PositionInvariant
    else Default
  }

  predicate IsAnyDescendantOrSelf(left: Source) {
    left.From? && left.e.Step? && left.e.axis.DescendantOrSelf? && left.e.test.TypeNode?
      && left.e.predicates.NoPredicates?
  }

  predicate IsFusable(left: Source, axis: Axis, ps: Predicates) {
    && (axis.Child? || axis.SelfAxis? || axis.Descendant? || axis.DescendantOrSelf?)
    && IsAnyDescendantOrSelf(left)
    && AllPositionInvariant(ps)
  }

  function FusedAxis(axis: Axis): Axis {
    if axis.Child? || axis.Descendant? then Descendant else DescendantOrSelf
  }

  /** `descendant-or-self::node()/child::t` becomes `descendant::t`, and likewise for the self,
    descendant and descendant-or-self axes, if the predicates do not look at positions. */
  function FuseStep(left: Source, axis: Axis, test: NodeTest, ps: Predicates): Expr {
    if IsFusable(left, axis, ps) then Step(left.e.left, FusedAxis(axis), test, ps) else Step(left, axis, test, ps)
  }

  predicate IsAttributeComparison(e: Expr) {
    && e.Binary? && e.g == Compare(Equal)
    && e.l.Step? && e.l.left.FromContext? && e.l.axis.AttributeAxis? && e.l.test.NameTest?
       && e.l.predicates.NoPredicates?
    && e.r.StringConstant?
  }

  /** `translate_table_generate`: the code of every ASCII character, or nothing if a used character is
    not ASCII. Entries still unset after `from` is read map a character to itself. */
  function FillTable(table: seq<nat>, from: string, to: string): (r: seq<nat>)
    requires |table| == 128 && forall i | 0 <= i < 128 :: table[i] <= 128
    ensures r == [] || (|r| == 128 && forall i | 0 <= i < 128 :: r[i] <= 128)
    decreases |from|
  {
    if from == "" then table
    else
      var tc := if to == "" then 0 else to[0] as int;
      if from[0] as int >= 128 || tc >= 128 then []
      else
        var fc := from[0] as int;
        var next := if table[fc] == 0 then table[fc := if tc != 0 then tc else 128] else table;
        FillTable(next, from[1..], if tc != 0 then to[1..] else to)
  }

  function GenerateTable(from: string, to: string): (r: seq<nat>)
    ensures r == [] || ValidTable(r)
  {
    var filled := FillTable(seq(128, _ => 0), from, to);
    if filled == [] then [] else seq(128, i requires 0 <= i < 128 => if filled[i] == 0 then i else filled[i])
  }

  function OptimizeSource(left: Source): Source {
    if left.From? then From(Optimize(left.e)) else left
  }

  function OptimizePredicates(ps: Predicates): Predicates {
    match ps
    case NoPredicates => NoPredicates
    case Predicate(_, e, next) =>
      var e1 := StripPosition(Optimize(e));
      Predicate(ClassOf(e1), e1, OptimizePredicates(next))
  }

  function OptimizeTranslate(e: Expr, from: Expr, to: Expr): Expr {
    if from.StringConstant? && to.StringConstant? then
      var table := GenerateTable(from.s, to.s);
      if table == [] then Translate(e, from, to) else TranslateTable(e, table)
    else Translate(e, from, to)
  }

  function OptimizeBinary(g: BinaryFunction, l: Expr, r: Expr): Expr {
    if IsAttributeComparison(Binary(g, l, r)) then CompareAttribute(l.test.name, r.s) else Binary(g, l, r)
  }

  function Optimize(e: Expr): Expr {
    match e
    case Step(left, axis, test, ps) => FuseStep(OptimizeSource(left), axis, test, OptimizePredicates(ps))
    case Union(l, r) => Union(Optimize(l), Optimize(r))
    case Filter(inner, _, p) =>
      var p1 := StripPosition(Optimize(p));
      Filter(Optimize(inner), ClassOf(p1), p1)
    case Unary(f, e1) => Unary(f, Optimize(e1))
    case Binary(g, l, r) => OptimizeBinary(g, Optimize(l), Optimize(r))
    case Translate(e1, f, t) => OptimizeTranslate(Optimize(e1), Optimize(f), Optimize(t))
    case TranslateTable(e1, table) => TranslateTable(Optimize(e1), table)
    case _ => e
  }

  // ------------------------------------------------------------------ classes and types

  /** What a class promises the evaluator about the predicate it is attached to. */
  predicate ClassHolds(cls: PredicateClass, e: Expr) {
    match cls
    case Default => true
    case ConstantOne => e == NumberConstant(Real(1.0))
    case Constant => e.NumberConstant? || e.Last?
    case PositionInvariant => TypeOf(e) != NumberType && IsPositionInvariant(e)
  }

  predicate Classified(e: Expr) {
    match e
    case Step(left, _, _, ps) => (left.From? ==> Classified(left.e)) && ClassifiedAll(ps)
    case Union(l, r) => Classified(l) && Classified(r)
    case Filter(inner, cls, p) => Classified(inner) && Classified(p) && ClassHolds(cls, p)
    case Unary(_, e1) => Classified(e1)
    case Binary(_, l, r) => Classified(l) && Classified(r)
    case Translate(e1, f, t) => Classified(e1) && Classified(f) && Classified(t)
    case TranslateTable(e1, _) => Classified(e1)
    case _ => true
  }

  predicate ClassifiedAll(ps: Predicates) {
    ps.Predicate? ==> Classified(ps.e) && ClassHolds(ps.cls, ps.e) && ClassifiedAll(ps.next)
  }

  ghost predicate Sound(e: Expr, ty: Type) {
    TypeOf(e) == ty && WellTyped(e) && Classified(e)
  }

  lemma FuseStepSound(left: Source, axis: Axis, test: NodeTest, ps: Predicates)
    requires left.From? ==> Sound(left.e, NodeSetType)
    requires WellTypedAll(ps) && ClassifiedAll(ps)
    ensures Sound(FuseStep(left, axis, test, ps), NodeSetType)
  {
    hide AllPositionInvariant;
  }

  lemma StripPositionSound(e: Expr)
    requires WellTyped(e) && Classified(e)
    ensures WellTyped(StripPosition(e)) && Classified(StripPosition(e))
    ensures ClassHolds(ClassOf(StripPosition(e)), StripPosition(e))
  {
    hide IsPositionInvariant;
  }

  lemma BinarySound(g: BinaryFunction, l: Expr, r: Expr)
    requires WellTyped(l) && Classified(l) && WellTyped(r) && Classified(r)
    ensures Sound(OptimizeBinary(g, l, r), TypeOfBinary(g))
  {
  }

  lemma TranslateSound(e: Expr, f: Expr, t: Expr)
    requires WellTyped(e) && Classified(e) && WellTyped(f) && Classified(f) && WellTyped(t) && Classified(t)
    ensures Sound(OptimizeTranslate(e, f, t), StringType)
  {
    PlainTranslateSound(e, f, t);
    hide Sound, WellTyped, Classified;
    if f.StringConstant? && t.StringConstant? && GenerateTable(f.s, t.s) != [] {
      TableSound(e, GenerateTable(f.s, t.s));
    }
  }

  lemma PlainTranslateSound(e: Expr, f: Expr, t: Expr)
    requires WellTyped(e) && Classified(e) && WellTyped(f) && Classified(f) && WellTyped(t) && Classified(t)
    ensures Sound(Translate(e, f, t), StringType)
  {
  }

  lemma TableSound(e: Expr, table: seq<nat>)
    requires WellTyped(e) && Classified(e) && ValidTable(table)
    ensures Sound(TranslateTable(e, table), StringType)
  {
  }

  /** The pass keeps every type, and every class it attaches holds. */
  lemma {:induction false} OptimizeKeepsTypes(e: Expr)
    requires WellTyped(e)
    ensures Sound(Optimize(e), TypeOf(e))
    decreases e
  {
    hide FuseStep, OptimizeBinary, OptimizeTranslate, StripPosition, ClassOf, TypeOfUnary, TypeOfBinary,
         OptimizePredicates, WellTypedAll, ClassifiedAll;
    match e {
      case Step(left, axis, test, ps) =>
        if left.From? { OptimizeKeepsTypes(left.e); }
        OptimizePredicatesKeepsTypes(ps);
        FuseStepSound(OptimizeSource(left), axis, test, OptimizePredicates(ps));
      case Union(l, r) =>
        OptimizeKeepsTypes(l);
        OptimizeKeepsTypes(r);
      case Filter(inner, _, p) =>
        OptimizeKeepsTypes(inner);
        OptimizeKeepsTypes(p);
        StripPositionSound(Optimize(p));
      case Unary(_, e1) =>
        OptimizeKeepsTypes(e1);
      case Binary(g, l, r) =>
        OptimizeKeepsTypes(l);
        OptimizeKeepsTypes(r);
        BinarySound(g, Optimize(l), Optimize(r));
      case Translate(e1, f, t) =>
        OptimizeKeepsTypes(e1);
        OptimizeKeepsTypes(f);
        OptimizeKeepsTypes(t);
        TranslateSound(Optimize(e1), Optimize(f), Optimize(t));
      case TranslateTable(e1, _) =>
        OptimizeKeepsTypes(e1);
      case _ =>
    }
  }

  lemma {:induction false} OptimizePredicatesKeepsTypes(ps: Predicates)
    requires WellTypedAll(ps)
    ensures WellTypedAll(OptimizePredicates(ps)) && ClassifiedAll(OptimizePredicates(ps))
    decreases ps
  {
    hide StripPosition, ClassOf, Optimize;
    if ps.Predicate? {
      OptimizeKeepsTypes(ps.e);
      StripPositionSound(Optimize(ps.e));
      OptimizePredicatesKeepsTypes(ps.next);
    }
  }

  // ------------------------------------------------------------------ position-invariant predicates

  /** Two expressions, each in a context, that cannot be told apart. */
  ghost predicate SameValues(env: Env, e: Expr, c: Context, e': Expr, c': Context)
    requires ValidEnv(env) && ValidNode(env.doc, c.node) && ValidNode(env.doc, c'.node)
  {
    && TypeOf(e) == TypeOf(e')
    && SetOf(env, e, c.node) == SetOf(env, e', c'.node)
    && BoolOf(env, e, c) == BoolOf(env, e', c')
    && NumberOf(env, e, c) == NumberOf(env, e', c')
    && TextOf(env, e, c) == TextOf(env, e', c')
  }

  /** Equal in its own type is equal in every type: the conversions only look at the value. */
  lemma Converted(env: Env, e: Expr, c: Context, e': Expr, c': Context)
    requires ValidEnv(env) && ValidNode(env.doc, c.node) && ValidNode(env.doc, c'.node)
    requires TypeOf(e) == TypeOf(e')
    requires TypeOf(e) == NodeSetType ==> SetOf(env, e, c.node) == SetOf(env, e', c'.node)
    requires TypeOf(e) == BooleanType ==> BoolOf(env, e, c) == BoolOf(env, e', c')
    requires TypeOf(e) == NumberType ==> NumberOf(env, e, c) == NumberOf(env, e', c')
    requires TypeOf(e) == StringType ==> TextOf(env, e, c) == TextOf(env, e', c')
    ensures SameValues(env, e, c, e', c')
  {
    hide WellFormed, ValidEnv, DistinctAddresses, BoolOf, NumberOf, TextOf, SetOf, ValidNode;
    match TypeOf(e) {
      case NodeSetType => SetConverted(env, e, c, e', c');
      case NumberType => NumberConverted(env, e, c, e', c');
      case StringType => TextConverted(env, e, c, e', c');
      case BooleanType => BoolConverted(env, e, c, e', c');
    }
  }

  lemma SetConverted(env: Env, e: Expr, c: Context, e': Expr, c': Context)
    requires ValidEnv(env) && ValidNode(env.doc, c.node) && ValidNode(env.doc, c'.node)
    requires TypeOf(e) == TypeOf(e') == NodeSetType && SetOf(env, e, c.node) == SetOf(env, e', c'.node)
    ensures SameValues(env, e, c, e', c')
  {
    hide WellFormed, ValidEnv, DistinctAddresses, CompareValues, StringValue, QualifiedName, ValidNode,
         HasAttributeValue, SetOf, InDocumentOrder;
    assert FirstValue(env, e, c.node) == FirstValue(env, e', c'.node);
    assert TextOf(env, e, c) == TextOf(env, e', c');
  }

  lemma NumberConverted(env: Env, e: Expr, c: Context, e': Expr, c': Context)
    requires ValidEnv(env) && ValidNode(env.doc, c.node) && ValidNode(env.doc, c'.node)
    requires TypeOf(e) == TypeOf(e') == NumberType && NumberOf(env, e, c) == NumberOf(env, e', c')
    ensures SameValues(env, e, c, e', c')
  {
    hide WellFormed, ValidEnv, DistinctAddresses, NumberOf, ValidNode;
    assert SetOf(env, e, c.node) == {} == SetOf(env, e', c'.node);
  }

  lemma BoolConverted(env: Env, e: Expr, c: Context, e': Expr, c': Context)
    requires ValidEnv(env) && ValidNode(env.doc, c.node) && ValidNode(env.doc, c'.node)
    requires TypeOf(e) == TypeOf(e') == BooleanType && BoolOf(env, e, c) == BoolOf(env, e', c')
    ensures SameValues(env, e, c, e', c')
  {
    hide WellFormed, ValidEnv, DistinctAddresses, BoolOf, ValidNode;
    assert SetOf(env, e, c.node) == {} == SetOf(env, e', c'.node);
  }

  lemma TextConverted(env: Env, e: Expr, c: Context, e': Expr, c': Context)
    requires ValidEnv(env) && ValidNode(env.doc, c.node) && ValidNode(env.doc, c'.node)
    requires TypeOf(e) == TypeOf(e') == StringType && TextOf(env, e, c) == TextOf(env, e', c')
    ensures SameValues(env, e, c, e', c')
  {
    hide WellFormed, ValidEnv, DistinctAddresses, TextOf, ValidNode;
    assert SetOf(env, e, c.node) == {} == SetOf(env, e', c'.node);
  }

  lemma CompareCongruent(env: Env, cmp: Comparison, l: Expr, r: Expr, c: Context, l': Expr, r': Expr, c': Context)
    requires ValidEnv(env) && ValidNode(env.doc, c.node) && ValidNode(env.doc, c'.node)
    requires SameValues(env, l, c, l', c') && SameValues(env, r, c, r', c')
    ensures CompareValues(env, cmp, l, r, c) == CompareValues(env, cmp, l', r', c')
  {
    hide WellFormed, ValidEnv, DistinctAddresses, SetOf, BoolOf, NumberOf, TextOf, StringValue, ValidNode, CompareEqual,
         CompareNumbers, EqualityHolds, RelationHolds;
    if cmp.Equal? || cmp.NotEqual? {
      EqualityCongruent(env, cmp, l, r, c, l', r', c');
    } else {
      RelationCongruent(env, cmp, l, r, c, l', r', c');
    }
  }

  lemma EqualityCongruent(env: Env, cmp: Comparison, l: Expr, r: Expr, c: Context, l': Expr, r': Expr, c': Context)
    requires ValidEnv(env) && ValidNode(env.doc, c.node) && ValidNode(env.doc, c'.node) && (cmp.Equal? || cmp.NotEqual?)
    requires SameValues(env, l, c, l', c') && SameValues(env, r, c, r', c')
    ensures EqualityHolds(env, cmp, l, r, c) == EqualityHolds(env, cmp, l', r', c')
  {
    hide WellFormed, ValidEnv, DistinctAddresses, SetOf, BoolOf, NumberOf, TextOf, StringValue, ValidNode, CompareEqual,
         CompareNumbers, RelationHolds;
  }

  lemma RelationCongruent(env: Env, cmp: Comparison, l: Expr, r: Expr, c: Context, l': Expr, r': Expr, c': Context)
    requires ValidEnv(env) && ValidNode(env.doc, c.node) && ValidNode(env.doc, c'.node)
    requires SameValues(env, l, c, l', c') && SameValues(env, r, c, r', c')
    ensures RelationHolds(env, cmp, l, r, c) == RelationHolds(env, cmp, l', r', c')
  {
    hide WellFormed, ValidEnv, DistinctAddresses, SetOf, BoolOf, NumberOf, TextOf, StringValue, ValidNode, CompareEqual,
         CompareNumbers, EqualityHolds;
  }

  lemma BinaryCongruent(env: Env, g: BinaryFunction, l: Expr, r: Expr, c: Context, l': Expr, r': Expr, c': Context)
    requires ValidEnv(env) && ValidNode(env.doc, c.node) && ValidNode(env.doc, c'.node)
    requires SameValues(env, l, c, l', c') && SameValues(env, r, c, r', c')
    ensures SameValues(env, Binary(g, l, r), c, Binary(g, l', r'), c')
  {
    hide WellFormed, ValidEnv, DistinctAddresses, CompareValues, StringValue, ValidNode, CompareEqual, CompareNumbers,
         HasAttributeValue, FirstValue, SetOf, IsSubstring;
    if g.Compare? { CompareCongruent(env, g.cmp, l, r, c, l', r', c'); }
    Converted(env, Binary(g, l, r), c, Binary(g, l', r'), c');
  }

  lemma UnaryCongruent(env: Env, f: UnaryFunction, e: Expr, c: Context, e': Expr, c': Context)
    requires ValidEnv(env) && ValidNode(env.doc, c.node) && ValidNode(env.doc, c'.node)
    requires SameValues(env, e, c, e', c')
    ensures SameValues(env, Unary(f, e), c, Unary(f, e'), c')
  {
    hide WellFormed, ValidEnv, DistinctAddresses, CompareValues, StringValue, QualifiedName, ValidNode, CompareEqual,
         CompareNumbers, HasAttributeValue, SetOf;
    Converted(env, Unary(f, e), c, Unary(f, e'), c');
  }

  lemma TranslateCongruent(env: Env, e: Expr, f: Expr, t: Expr, c: Context, e': Expr, f': Expr, t': Expr, c': Context)
    requires ValidEnv(env) && ValidNode(env.doc, c.node) && ValidNode(env.doc, c'.node)
    requires SameValues(env, e, c, e', c') && SameValues(env, f, c, f', c') && SameValues(env, t, c, t', c')
    ensures SameValues(env, Translate(e, f, t), c, Translate(e', f', t'), c')
  {
    hide WellFormed, ValidEnv, DistinctAddresses, CompareValues, StringValue, QualifiedName, ValidNode, CompareEqual,
         CompareNumbers, HasAttributeValue, SetOf;
    Converted(env, Translate(e, f, t), c, Translate(e', f', t'), c');
  }

  lemma TableCongruent(env: Env, e: Expr, table: seq<nat>, c: Context, e': Expr, c': Context)
    requires ValidEnv(env) && ValidNode(env.doc, c.node) && ValidNode(env.doc, c'.node)
    requires SameValues(env, e, c, e', c')
    ensures SameValues(env, TranslateTable(e, table), c, TranslateTable(e', table), c')
  {
    hide WellFormed, ValidEnv, DistinctAddresses, CompareValues, StringValue, QualifiedName, ValidNode, CompareEqual,
         CompareNumbers, HasAttributeValue, SetOf;
    Converted(env, TranslateTable(e, table), c, TranslateTable(e', table), c');
  }

  /** A position-invariant expression has the same value at every position. */
  lemma {:induction false} PositionFree(env: Env, e: Expr, c: Context, k: Context)
    requires ValidEnv(env) && ValidNode(env.doc, c.node) && c.node == k.node && IsPositionInvariant(e)
    ensures SameValues(env, e, c, e, k)
    decreases e
  {
    hide WellFormed, ValidEnv, DistinctAddresses, CompareValues, SetOf, FirstValue, StringValue, QualifiedName,
         HasAttributeValue, ValidNode;
    match e {
      case Unary(f, e1) =>
        PositionFree(env, e1, c, k);
        UnaryCongruent(env, f, e1, c, e1, k);
      case Binary(g, l, r) =>
        PositionFree(env, l, c, k);
        PositionFree(env, r, c, k);
        BinaryCongruent(env, g, l, r, c, l, r, k);
      case Translate(e1, f, t) =>
        PositionFree(env, e1, c, k);
        PositionFree(env, f, c, k);
        PositionFree(env, t, c, k);
        TranslateCongruent(env, e1, f, t, c, e1, f, t, k);
      case TranslateTable(e1, table) =>
        PositionFree(env, e1, c, k);
        TableCongruent(env, e1, table, c, e1, k);
      case _ =>
        Converted(env, e, c, e, k);
    }
  }

  /** A position-invariant predicate keeps a node whatever list it is in. */
  lemma {:induction false} KeepInvariant(env: Env, s: seq<XNode>, e: Expr, n: nat, y: XNode)
    requires ValidEnv(env) && ValidNodes(env.doc, s) && n <= |s| && ValidNode(env.doc, y)
    requires ClassHolds(PositionInvariant, e)
    ensures y in KeepUpTo(env, s, e, n) <==> y in s[..n] && Holds(env, e, Context(y, 1, 1))
    decreases n
  {
    hide WellFormed, ValidEnv, DistinctAddresses, CompareValues, SetOf, StringValue, ValidNode, BoolOf, NumberOf,
         TextOf;
    if n > 0 {
      KeepInvariant(env, s, e, n - 1, y);
      PositionFree(env, e, Context(s[n - 1], n, |s|), Context(s[n - 1], 1, 1));
      assert s[..n] == s[..n - 1] + [s[n - 1]];
    }
  }

  ghost predicate HoldAll(env: Env, ps: Predicates, y: XNode)
    requires ValidEnv(env) && ValidNode(env.doc, y)
  {
    ps.Predicate? ==> Holds(env, ps.e, Context(y, 1, 1)) && HoldAll(env, ps.next, y)
  }

  lemma {:induction false} KeepAllInvariant(env: Env, s: seq<XNode>, ps: Predicates, y: XNode)
    requires ValidEnv(env) && ValidNodes(env.doc, s) && ValidNode(env.doc, y)
    requires ClassifiedAll(ps) && AllPositionInvariant(ps)
    ensures y in KeepAll(env, s, ps) <==> y in s && HoldAll(env, ps, y)
    decreases ps
  {
    if ps.Predicate? {
      KeepInvariant(env, s, ps.e, |s|, y);
      assert s[..|s|] == s;
      KeepAllInvariant(env, Keep(env, s, ps.e), ps.next, y);
    }
  }

  // ------------------------------------------------------------------ fusing steps

  /** A descendant-or-self::node() step followed by a step on one of the four axes reaches exactly what
    one step on the fused axis reaches. */
  lemma FusedTreeAxis(d: Table, axis: Axis, test: NodeTest, n: nat, j: nat)
    requires WellFormed(d) && n < |d| && j < |d|
    requires axis.Child? || axis.SelfAxis? || axis.Descendant? || axis.DescendantOrSelf?
    ensures (exists m: nat | m < |d| :: IsAncestorOrSelf(d, n, m) && OnAxis(d, axis, m, j))
            <==> OnAxis(d, FusedAxis(axis), n, j)
  {
    forall m: nat | m < |d| && IsAncestorOrSelf(d, n, m) && OnAxis(d, axis, m, j)
      ensures OnAxis(d, FusedAxis(axis), n, j)
    {
      SubtreeIsInterval(d, n, m);
      SubtreeIsInterval(d, m, j);
      SubtreeIsInterval(d, n, j);
      SubtreeNested(d, n, m);
      if axis.Child? { SubtreeIsInterval(d, m, m); }
    }
    if OnAxis(d, FusedAxis(axis), n, j) {
      AncestorStep(d, n);
      AncestorStep(d, j);
      var m: nat := if axis.Child? then d[j].parent else if axis.SelfAxis? then j else n;
      assert IsAncestorOrSelf(d, n, m) && OnAxis(d, axis, m, j);
    }
  }

  lemma SelfOrDescendantOfTree(d: Table, n: nat, w: XNode)
    requires WellFormed(d) && n < |d|
    ensures w in AxisNodes(d, DescendantOrSelf, TypeNode, TreeNode(n))
            <==> w.TreeNode? && w.id < |d| && IsAncestorOrSelf(d, n, w.id)
  {
    TreeAxisOnlyTreeNodes(d, DescendantOrSelf, TypeNode, n);
    if w.TreeNode? && w.id < |d| { TreeAxisMembers(d, DescendantOrSelf, TypeNode, n, w.id); }
  }

  lemma FusedAxisNodes(d: Table, axis: Axis, test: NodeTest, y: XNode, z: XNode)
    requires WellFormed(d) && ValidNode(d, y)
    requires axis.Child? || axis.SelfAxis? || axis.Descendant? || axis.DescendantOrSelf?
    ensures (exists w | ValidNode(d, w) ::
              w in AxisNodes(d, DescendantOrSelf, TypeNode, y) && z in AxisNodes(d, axis, test, w))
            <==> z in AxisNodes(d, FusedAxis(axis), test, y)
  {
    if y.TreeNode? { FusedFromTree(d, axis, test, y.id, z); } else { FusedFromOther(d, axis, test, y, z); }
  }

  lemma FusedFromOther(d: Table, axis: Axis, test: NodeTest, y: XNode, z: XNode)
    requires WellFormed(d) && ValidNode(d, y) && !y.TreeNode?
    requires axis.Child? || axis.SelfAxis? || axis.Descendant? || axis.DescendantOrSelf?
    ensures (exists w | ValidNode(d, w) ::
              w in AxisNodes(d, DescendantOrSelf, TypeNode, y) && z in AxisNodes(d, axis, test, w))
            <==> z in AxisNodes(d, FusedAxis(axis), test, y)
  {
    hide WellFormed, TreeAxis;
    var first := AxisNodes(d, DescendantOrSelf, TypeNode, y);
    assert first == [] || first == [y];
    assert y in first && z in AxisNodes(d, axis, test, y) <==> z in AxisNodes(d, FusedAxis(axis), test, y);
  }

  lemma FusedFromTree(d: Table, axis: Axis, test: NodeTest, n: nat, z: XNode)
    requires WellFormed(d) && n < |d|
    requires axis.Child? || axis.SelfAxis? || axis.Descendant? || axis.DescendantOrSelf?
    ensures (exists w | ValidNode(d, w) ::
              w in AxisNodes(d, DescendantOrSelf, TypeNode, TreeNode(n)) && z in AxisNodes(d, axis, test, w))
            <==> z in AxisNodes(d, FusedAxis(axis), test, TreeNode(n))
  {
    hide WellFormed, IsAncestorOrSelf, OnAxis, TreeAxis;
    TreeAxisOnlyTreeNodes(d, FusedAxis(axis), test, n);
    forall m: nat | m < |d|
      ensures forall x | x in TreeAxis(d, axis, test, m) :: x.TreeNode? && x.id < |d|
    {
      TreeAxisOnlyTreeNodes(d, axis, test, m);
    }
    forall w
      ensures w in AxisNodes(d, DescendantOrSelf, TypeNode, TreeNode(n))
              <==> w.TreeNode? && w.id < |d| && IsAncestorOrSelf(d, n, w.id)
    {
      SelfOrDescendantOfTree(d, n, w);
    }
    if z.TreeNode? && z.id < |d| {
      FusedTreeAxis(d, axis, test, n, z.id);
      TreeAxisMembers(d, FusedAxis(axis), test, n, z.id);
      forall m: nat | m < |d|
        ensures z in TreeAxis(d, axis, test, m) <==> OnAxis(d, axis, m, z.id) && Matches(test, d[z.id].data)
      {
        TreeAxisMembers(d, axis, test, m, z.id);
      }
      if OnAxis(d, FusedAxis(axis), n, z.id) {
        var m: nat :| m < |d| && IsAncestorOrSelf(d, n, m) && OnAxis(d, axis, m, z.id);
        assert TreeNode(m) in AxisNodes(d, DescendantOrSelf, TypeNode, TreeNode(n));
        assert Matches(test, d[z.id].data) ==> z in AxisNodes(d, axis, test, TreeNode(m));
      }
    }
  }

  /** A fused step selects the same set: the predicates, being position-invariant, filter the reached
    nodes one by one, whichever list they come in. */
  lemma FusedStepSame(env: Env, left: Source, axis: Axis, test: NodeTest, ps: Predicates, x: XNode)
    requires ValidEnv(env) && ValidNode(env.doc, x)
    requires ClassifiedAll(ps)
    ensures SetOf(env, FuseStep(left, axis, test, ps), x) == SetOf(env, Step(left, axis, test, ps), x)
  {
    hide WellFormed, ValidEnv, DistinctAddresses, SetOf, StepFrom, KeepAll, AllPositionInvariant, ClassifiedAll,
         Reaches, ValidNode;
    if IsFusable(left, axis, ps) {
      forall z
        ensures z in SetOf(env, FuseStep(left, axis, test, ps), x) <==> z in SetOf(env, Step(left, axis, test, ps), x)
      {
        if z in SetOf(env, Step(left, axis, test, ps), x) { FusedHasSplit(env, left, axis, test, ps, x, z); }
        if z in SetOf(env, FuseStep(left, axis, test, ps), x) { SplitHasFused(env, left, axis, test, ps, x, z); }
      }
    }
  }

  lemma FusedHasSplit(env: Env, left: Source, axis: Axis, test: NodeTest, ps: Predicates, x: XNode, z: XNode)
    requires ValidEnv(env) && ValidNode(env.doc, x) && ClassifiedAll(ps) && IsFusable(left, axis, ps)
    requires z in SetOf(env, Step(left, axis, test, ps), x)
    ensures z in SetOf(env, FuseStep(left, axis, test, ps), x)
  {
    hide WellFormed, ValidEnv, DistinctAddresses, SetOf, StepFrom, KeepAll, Reaches, AxisNodes, ClassifiedAll,
         AllPositionInvariant, ValidNode;
    SetOfStep(env, left, axis, test, ps, x, z);
    var w := ReachedFrom(env, axis, test, ps, StepContexts(env, left, x), z);
    FromContexts(env, left, x);
    SetOfStep(env, left.e.left, DescendantOrSelf, TypeNode, NoPredicates, x, w);
    var y := ReachedFrom(env, DescendantOrSelf, TypeNode, NoPredicates, StepContexts(env, left.e.left, x), w);
    FusedJoins(env, axis, test, ps, y, w, z);
    ReachesFrom(env, FusedAxis(axis), test, ps, StepContexts(env, left.e.left, x), y, z);
    SetOfStep(env, left.e.left, FusedAxis(axis), test, ps, x, z);
  }

  lemma FromContexts(env: Env, left: Source, x: XNode)
    requires ValidEnv(env) && ValidNode(env.doc, x) && left.From?
    ensures StepContexts(env, left, x) == SetOf(env, left.e, x)
  {
    hide WellFormed, DistinctAddresses, ValidEnv, SetOf, ValidNode;
  }

  lemma SplitHasFused(env: Env, left: Source, axis: Axis, test: NodeTest, ps: Predicates, x: XNode, z: XNode)
    requires ValidEnv(env) && ValidNode(env.doc, x) && ClassifiedAll(ps) && IsFusable(left, axis, ps)
    requires z in SetOf(env, FuseStep(left, axis, test, ps), x)
    ensures z in SetOf(env, Step(left, axis, test, ps), x)
  {
    hide WellFormed, ValidEnv, DistinctAddresses, SetOf, StepFrom, KeepAll, Reaches, AxisNodes, ClassifiedAll,
         AllPositionInvariant, ValidNode;
    SetOfStep(env, left.e.left, FusedAxis(axis), test, ps, x, z);
    var y := ReachedFrom(env, FusedAxis(axis), test, ps, StepContexts(env, left.e.left, x), z);
    var w := FusedSplits(env, axis, test, ps, y, z);
    ReachesFrom(env, DescendantOrSelf, TypeNode, NoPredicates, StepContexts(env, left.e.left, x), y, w);
    SetOfStep(env, left.e.left, DescendantOrSelf, TypeNode, NoPredicates, x, w);
    FromContexts(env, left, x);
    ReachesFrom(env, axis, test, ps, StepContexts(env, left, x), w, z);
    SetOfStep(env, left, axis, test, ps, x, z);
  }

  lemma StepSetReached(env: Env, axis: Axis, test: NodeTest, ps: Predicates, starts: set<XNode>, z: XNode)
    requires ValidEnv(env) && forall y | y in starts :: ValidNode(env.doc, y)
    ensures z in StepSet(env, axis, test, ps, starts)
            <==> z in AllNodes(env.doc) && Reaches(env, axis, test, ps, starts, z)
  {
    hide WellFormed, DistinctAddresses, ValidEnv, KeepAll, AxisNodes, AllNodes, ValidNode, StepFrom, Reaches;
  }

  lemma ReachedFrom(env: Env, axis: Axis, test: NodeTest, ps: Predicates, starts: set<XNode>, z: XNode)
    returns (y: XNode)
    requires ValidEnv(env) && forall y | y in starts :: ValidNode(env.doc, y)
    requires Reaches(env, axis, test, ps, starts, z)
    ensures y in starts && ValidNode(env.doc, y) && z in StepFrom(env, axis, test, ps, y)
  {
    hide WellFormed, DistinctAddresses, ValidEnv, KeepAll, AxisNodes, AllNodes, ValidNode, StepFrom;
    y :| y in starts && z in StepFrom(env, axis, test, ps, y);
  }

  lemma ReachesFrom(env: Env, axis: Axis, test: NodeTest, ps: Predicates, starts: set<XNode>, y: XNode, z: XNode)
    requires ValidEnv(env) && forall y | y in starts :: ValidNode(env.doc, y)
    requires y in starts && z in StepFrom(env, axis, test, ps, y)
    ensures Reaches(env, axis, test, ps, starts, z) && z in AllNodes(env.doc)
  {
    InAllNodes(env.doc, z);
    hide WellFormed, DistinctAddresses, ValidEnv, KeepAll, AxisNodes, AllNodes, ValidNode, StepFrom;
  }

  lemma ReachedIsNode(env: Env, axis: Axis, test: NodeTest, ps: Predicates, starts: set<XNode>, z: XNode)
    requires ValidEnv(env) && forall y | y in starts :: ValidNode(env.doc, y)
    requires Reaches(env, axis, test, ps, starts, z)
    ensures z in AllNodes(env.doc)
  {
    var y := ReachedFrom(env, axis, test, ps, starts, z);
    ReachesFrom(env, axis, test, ps, starts, y, z);
  }

  lemma InAllNodes(d: Table, z: XNode)
    requires ValidNode(d, z) && !z.NullNode?
    ensures z in AllNodes(d)
  {
  }

  lemma SetOfStep(env: Env, left: Source, axis: Axis, test: NodeTest, ps: Predicates, x: XNode, z: XNode)
    requires ValidEnv(env) && ValidNode(env.doc, x)
    ensures z in SetOf(env, Step(left, axis, test, ps), x)
            <==> Reaches(env, axis, test, ps, StepContexts(env, left, x), z)
  {
    SetOfStepReaches(env, left, axis, test, ps, x, z);
    hide WellFormed, DistinctAddresses, ValidEnv, StepSet, StepFrom, SetOf, Reaches, AllNodes, ValidNode, StepContexts;
    if Reaches(env, axis, test, ps, StepContexts(env, left, x), z) {
      ReachedIsNode(env, axis, test, ps, StepContexts(env, left, x), z);
    }
  }

  lemma SetOfStepReaches(env: Env, left: Source, axis: Axis, test: NodeTest, ps: Predicates, x: XNode, z: XNode)
    requires ValidEnv(env) && ValidNode(env.doc, x)
    ensures z in SetOf(env, Step(left, axis, test, ps), x)
            <==> z in AllNodes(env.doc) && Reaches(env, axis, test, ps, StepContexts(env, left, x), z)
  {
    hide WellFormed, DistinctAddresses, ValidEnv, StepSet, StepFrom, Reaches, AllNodes, ValidNode, StepContexts;
    StepSetReached(env, axis, test, ps, StepContexts(env, left, x), z);
  }

  lemma StepFromMembers(env: Env, axis: Axis, test: NodeTest, ps: Predicates, y: XNode, z: XNode)
    requires ValidEnv(env) && ValidNode(env.doc, y) && ValidNode(env.doc, z)
    requires ClassifiedAll(ps) && AllPositionInvariant(ps)
    ensures z in StepFrom(env, axis, test, ps, y) <==> z in AxisNodes(env.doc, axis, test, y) && HoldAll(env, ps, z)
  {
    hide WellFormed, DistinctAddresses, AxisNodes, ClassifiedAll, AllPositionInvariant, ValidNode, KeepAll, HoldAll;
    AxisNodesOrdered(env.doc, axis, test, y);
    KeepAllInvariant(env, AxisNodes(env.doc, axis, test, y), ps, z);
  }

  lemma FusedJoins(env: Env, axis: Axis, test: NodeTest, ps: Predicates, y: XNode, w: XNode, z: XNode)
    requires ValidEnv(env) && ValidNode(env.doc, y) && ValidNode(env.doc, w)
    requires axis.Child? || axis.SelfAxis? || axis.Descendant? || axis.DescendantOrSelf?
    requires ClassifiedAll(ps) && AllPositionInvariant(ps)
    requires w in StepFrom(env, DescendantOrSelf, TypeNode, NoPredicates, y) && z in StepFrom(env, axis, test, ps, w)
    ensures z in StepFrom(env, FusedAxis(axis), test, ps, y)
  {
    hide WellFormed, DistinctAddresses, AxisNodes, ClassifiedAll, ValidNode, StepFrom, HoldAll;
    assert ClassifiedAll(NoPredicates) && HoldAll(env, NoPredicates, w) by { NoPredicatesHold(env, w); }
    StepFromMembers(env, DescendantOrSelf, TypeNode, NoPredicates, y, w);
    StepFromMembers(env, axis, test, ps, w, z);
    StepFromMembers(env, FusedAxis(axis), test, ps, y, z);
    FusedAxisNodes(env.doc, axis, test, y, z);
  }

  lemma FusedSplits(env: Env, axis: Axis, test: NodeTest, ps: Predicates, y: XNode, z: XNode) returns (w: XNode)
    requires ValidEnv(env) && ValidNode(env.doc, y)
    requires axis.Child? || axis.SelfAxis? || axis.Descendant? || axis.DescendantOrSelf?
    requires ClassifiedAll(ps) && AllPositionInvariant(ps)
    requires z in StepFrom(env, FusedAxis(axis), test, ps, y)
    ensures ValidNode(env.doc, w) && w in StepFrom(env, DescendantOrSelf, TypeNode, NoPredicates, y)
            && z in StepFrom(env, axis, test, ps, w)
  {
    hide WellFormed, DistinctAddresses, AxisNodes, ClassifiedAll, ValidNode, StepFrom, HoldAll;
    StepFromMembers(env, FusedAxis(axis), test, ps, y, z);
    FusedAxisNodes(env.doc, axis, test, y, z);
    w :| ValidNode(env.doc, w) && w in AxisNodes(env.doc, DescendantOrSelf, TypeNode, y)
      && z in AxisNodes(env.doc, axis, test, w);
    assert ClassifiedAll(NoPredicates) && HoldAll(env, NoPredicates, w) by { NoPredicatesHold(env, w); }
    StepFromMembers(env, DescendantOrSelf, TypeNode, NoPredicates, y, w);
    StepFromMembers(env, axis, test, ps, w, z);
  }

  lemma NoPredicatesHold(env: Env, w: XNode)
    requires ValidEnv(env) && ValidNode(env.doc, w)
    ensures ClassifiedAll(NoPredicates) && HoldAll(env, NoPredicates, w)
  {
  }

  // ------------------------------------------------------------------ translate()

  lemma {:induction false} FillTableValue(table: seq<nat>, from: string, to: string, c: nat)
    requires ValidTable(table) && c < 128 && '\0' !in from && '\0' !in to
    requires FillTable(table, from, to) != []
    ensures var i := IndexOf(from, c as char);
            FillTable(table, from, to)[c]
            == if table[c] != 0 then table[c] else if i == |from| then 0 else if i < |to| then to[i] as nat else 128
    ensures forall k | 0 <= k < |from| :: from[k] as int < 128 && (k < |to| ==> to[k] as int < 128)
    decreases |from|
  {
    if from != "" {
      var tc := if to == "" then 0 else to[0] as int;
      var fc := from[0] as int;
      var next := if table[fc] == 0 then table[fc := if tc != 0 then tc else 128] else table;
      assert to != "" ==> to[0] in to;
      FillTableValue(next, from[1..], if tc != 0 then to[1..] else to, c);
      assert forall k | 1 <= k < |from| :: from[k] == from[1..][k - 1];
      assert forall k | 1 <= k < |to| :: to[k] == to[1..][k - 1];
    }
  }

  /** There is a table exactly if all characters that are looked at are ASCII. */
  lemma {:induction false} TableExists(table: seq<nat>, from: string, to: string)
    requires ValidTable(table) && '\0' !in from && '\0' !in to
    ensures FillTable(table, from, to) != []
            <==> forall k | 0 <= k < |from| :: from[k] as int < 128 && (k < |to| ==> to[k] as int < 128)
    decreases |from|
  {
    if FillTable(table, from, to) != [] {
      FillTableValue(table, from, to, 0);
    } else {
      var tc := if to == "" then 0 else to[0] as int;
      if from[0] as int < 128 && tc < 128 {
        var fc := from[0] as int;
        var next := if table[fc] == 0 then table[fc := if tc != 0 then tc else 128] else table;
        assert to != "" ==> to[0] in to;
        var rest := if tc != 0 then to[1..] else to;
        TableExists(next, from[1..], rest);
        var k :| 0 <= k < |from[1..]| && !(from[1..][k] as int < 128 && (k < |rest| ==> rest[k] as int < 128));
        assert from[k + 1] == from[1..][k] && (k < |rest| ==> to != "" && to[k + 1] == rest[k]);
      } else {
        assert !(from[0] as int < 128 && (0 < |to| ==> to[0] as int < 128));
      }
    }
  }

  /** The lookup table, when there is one, translates every character as the two strings do. */
  lemma TableCharAgrees(from: string, to: string, c: char)
    requires '\0' !in from && '\0' !in to && GenerateTable(from, to) != []
    ensures TableChar(c, GenerateTable(from, to)) == TranslateChar(c, from, to)
  {
    var empty := seq(128, _ => 0);
    if c as int < 128 {
      FillTableValue(empty, from, to, c as int);
      var i := IndexOf(from, c);
      if i < |from| && i < |to| { assert to[i] in to; }
    } else {
      FillTableValue(empty, from, to, 0);
      assert IndexOf(from, c) == |from|;
    }
  }

  lemma {:induction false} TranslateTableAgrees(s: string, from: string, to: string)
    requires '\0' !in from && '\0' !in to && GenerateTable(from, to) != []
    ensures TableText(s, GenerateTable(from, to)) == TranslateText(s, from, to)
  {
    if s != "" {
      TranslateTableAgrees(s[..|s| - 1], from, to);
      TableCharAgrees(from, to, s[|s| - 1]);
    }
  }

  // ------------------------------------------------------------------ @name = 'value'

  lemma {:induction false} NamedAttributeSingle(d: Table, name: string, p: nat, k: nat)
    requires p < |d|
    ensures |AttributesFrom(d, NameTest(name), p, k)| <= 1
    decreases |d[p].data.attributes| - k
  {
    if k < |d[p].data.attributes| { NamedAttributeSingle(d, name, p, k + 1); }
  }

  lemma AttributeComparisonSame(env: Env, name: string, value: string, c: Context)
    requires ValidEnv(env) && ValidNode(env.doc, c.node)
    ensures CompareValues(env, Equal, Step(FromContext, AttributeAxis, NameTest(name), NoPredicates),
              StringConstant(value), c)
            == HasAttributeValue(env.doc, c.node, name, value)
  {
    hide WellFormed, DistinctAddresses, BoolOf, NumberOf, SetOf;
    var l := Step(FromContext, AttributeAxis, NameTest(name), NoPredicates);
    var found := AxisNodes(env.doc, AttributeAxis, NameTest(name), c.node);
    AxisNodesOrdered(env.doc, AttributeAxis, NameTest(name), c.node);
    if c.node.TreeNode? { NamedAttributeSingle(env.doc, name, c.node.id, 0); }
    assert |found| <= 1;
    forall z ensures z in SetOf(env, l, c.node) <==> z in found {
      SetOfStep(env, FromContext, AttributeAxis, NameTest(name), NoPredicates, c.node, z);
      assert StepContexts(env, FromContext, c.node) == {c.node};
      assert StepFrom(env, AttributeAxis, NameTest(name), NoPredicates, c.node) == found;
    }
    if found != [] { assert found[0] in SetOf(env, l, c.node); }
    assert EqualityHolds(env, Equal, l, StringConstant(value), c)
      == exists z | z in SetOf(env, l, c.node) ::
         CompareEqual(Equal, TextOf(env, StringConstant(value), c), StringValue(env.doc, z));
  }

  // ------------------------------------------------------------------ the pass preserves meaning

  /** Dropping `position()=` changes no predicate: a number stands for the test on the position. */
  lemma StripPositionSame(env: Env, e: Expr, c: Context)
    requires ValidEnv(env) && ValidNode(env.doc, c.node)
    ensures Holds(env, StripPosition(e), c) == Holds(env, e, c)
  {
    hide WellFormed, DistinctAddresses, SetOf, TextOf, BoolOf, NumberOf, CompareValues, EqualityHolds;
    if IsPositionTest(e) {
      assert TypeOf(e) == BooleanType;
      TestOfPosition(env, e, c);
    }
  }

  lemma TestOfPosition(env: Env, e: Expr, c: Context)
    requires ValidEnv(env) && ValidNode(env.doc, c.node) && IsPositionTest(e)
    ensures BoolOf(env, e, c) == CompareNumbers(Equal, Real(c.position as real), NumberOf(env, e.r, c))
  {
    hide WellFormed, DistinctAddresses, SetOf, TextOf, EqualityHolds, CompareNumbers;
    assert BoolOf(env, e, c) == CompareValues(env, Equal, Position, e.r, c);
    assert CompareValues(env, Equal, Position, e.r, c) == EqualityHolds(env, Equal, Position, e.r, c);
    EqualityOfNumbers(env, Position, e.r, c);
    assert NumberOf(env, Position, c) == Real(c.position as real);
  }

  lemma EqualityOfNumbers(env: Env, l: Expr, r: Expr, c: Context)
    requires ValidEnv(env) && ValidNode(env.doc, c.node) && TypeOf(l) == NumberType && TypeOf(r) == NumberType
    ensures EqualityHolds(env, Equal, l, r, c) == CompareNumbers(Equal, NumberOf(env, l, c), NumberOf(env, r, c))
  {
    hide WellFormed, DistinctAddresses, SetOf, TextOf, NumberOf, BoolOf, CompareNumbers;
  }

  lemma {:induction false} KeepSame(env: Env, s: seq<XNode>, e: Expr, n: nat)
    requires ValidEnv(env) && ValidNodes(env.doc, s) && n <= |s| && WellTyped(e)
    ensures KeepUpTo(env, s, StripPosition(Optimize(e)), n) == KeepUpTo(env, s, e, n)
    decreases e, 1, n
  {
    hide WellFormed, DistinctAddresses, SetOf, TextOf, BoolOf, NumberOf, Optimize, StripPosition, WellTyped, ValidEnv;
    if n > 0 {
      KeepSame(env, s, e, n - 1);
      OptimizeSame(env, e, Context(s[n - 1], n, |s|));
      StripPositionSame(env, Optimize(e), Context(s[n - 1], n, |s|));
    }
  }

  lemma {:induction false} KeepAllSame(env: Env, s: seq<XNode>, ps: Predicates)
    requires ValidEnv(env) && ValidNodes(env.doc, s) && WellTypedAll(ps)
    ensures KeepAll(env, s, OptimizePredicates(ps)) == KeepAll(env, s, ps)
    decreases ps, 0
  {
    hide WellFormed, DistinctAddresses, SetOf, TextOf, BoolOf, NumberOf, Optimize, StripPosition, WellTyped, KeepUpTo,
         ValidEnv;
    if ps.Predicate? {
      KeepSame(env, s, ps.e, |s|);
      KeepAllSame(env, Keep(env, s, ps.e), ps.next);
    }
  }

  lemma StepFromSame(env: Env, axis: Axis, test: NodeTest, ps: Predicates, y: XNode)
    requires ValidEnv(env) && ValidNode(env.doc, y) && WellTypedAll(ps)
    ensures StepFrom(env, axis, test, OptimizePredicates(ps), y) == StepFrom(env, axis, test, ps, y)
    decreases ps, 1
  {
    hide WellFormed, DistinctAddresses, Optimize, WellTypedAll, AxisNodes, OptimizePredicates, ValidNode, KeepAll;
    AxisNodesOrdered(env.doc, axis, test, y);
    KeepAllSame(env, AxisNodes(env.doc, axis, test, y), ps);
  }

  lemma ReachesSame(env: Env, axis: Axis, test: NodeTest, ps: Predicates, starts: set<XNode>, z: XNode)
    requires ValidEnv(env) && (forall y | y in starts :: ValidNode(env.doc, y)) && WellTypedAll(ps)
    ensures Reaches(env, axis, test, OptimizePredicates(ps), starts, z) == Reaches(env, axis, test, ps, starts, z)
    decreases ps, 3
  {
    hide WellFormed, DistinctAddresses, ValidEnv, Optimize, WellTypedAll, OptimizePredicates, ValidNode, StepFrom,
         Reaches, AllNodes;
    if Reaches(env, axis, test, ps, starts, z) { ReachesOptimized(env, axis, test, ps, starts, z); }
    if Reaches(env, axis, test, OptimizePredicates(ps), starts, z) {
      ReachesUnoptimized(env, axis, test, ps, starts, z);
    }
  }

  lemma ReachesOptimized(env: Env, axis: Axis, test: NodeTest, ps: Predicates, starts: set<XNode>, z: XNode)
    requires ValidEnv(env) && (forall y | y in starts :: ValidNode(env.doc, y)) && WellTypedAll(ps)
    requires Reaches(env, axis, test, ps, starts, z)
    ensures Reaches(env, axis, test, OptimizePredicates(ps), starts, z)
    decreases ps, 2
  {
    hide WellFormed, DistinctAddresses, ValidEnv, Optimize, WellTypedAll, OptimizePredicates, ValidNode, StepFrom,
         Reaches, AllNodes;
    var y := ReachedFrom(env, axis, test, ps, starts, z);
    StepFromSame(env, axis, test, ps, y);
    ReachesFrom(env, axis, test, OptimizePredicates(ps), starts, y, z);
  }

  lemma ReachesUnoptimized(env: Env, axis: Axis, test: NodeTest, ps: Predicates, starts: set<XNode>, z: XNode)
    requires ValidEnv(env) && (forall y | y in starts :: ValidNode(env.doc, y)) && WellTypedAll(ps)
    requires Reaches(env, axis, test, OptimizePredicates(ps), starts, z)
    ensures Reaches(env, axis, test, ps, starts, z)
    decreases ps, 2
  {
    hide WellFormed, DistinctAddresses, ValidEnv, Optimize, WellTypedAll, OptimizePredicates, ValidNode, StepFrom,
         Reaches, AllNodes;
    var y := ReachedFrom(env, axis, test, OptimizePredicates(ps), starts, z);
    StepFromSame(env, axis, test, ps, y);
    ReachesFrom(env, axis, test, ps, starts, y, z);
  }

  lemma StepSame(env: Env, left: Source, axis: Axis, test: NodeTest, ps: Predicates, x: XNode)
    requires ValidEnv(env) && ValidNode(env.doc, x) && WellTypedAll(ps)
    requires StepContexts(env, OptimizeSource(left), x) == StepContexts(env, left, x)
    ensures SetOf(env, Step(OptimizeSource(left), axis, test, OptimizePredicates(ps)), x)
            == SetOf(env, Step(left, axis, test, ps), x)
    decreases ps, 4
  {
    hide WellFormed, DistinctAddresses, ValidEnv, Optimize, WellTypedAll, SetOf, OptimizePredicates, OptimizeSource,
         StepContexts, ValidNode, Reaches, StepFrom, AllNodes;
    forall z
      ensures z in SetOf(env, Step(OptimizeSource(left), axis, test, OptimizePredicates(ps)), x)
              <==> z in SetOf(env, Step(left, axis, test, ps), x)
    {
      SetOfStep(env, left, axis, test, ps, x, z);
      SetOfStep(env, OptimizeSource(left), axis, test, OptimizePredicates(ps), x, z);
      ReachesSame(env, axis, test, ps, StepContexts(env, left, x), z);
    }
  }

  lemma OptimizeStepSame(env: Env, left: Source, axis: Axis, test: NodeTest, ps: Predicates, c: Context)
    requires ValidEnv(env) && ValidNode(env.doc, c.node) && WellTypedAll(ps)
    requires left.From? ==> TypeOf(left.e) == NodeSetType && SameValues(env, left.e, c, Optimize(left.e), c)
    ensures SameValues(env, Step(left, axis, test, ps), c,
              FuseStep(OptimizeSource(left), axis, test, OptimizePredicates(ps)), c)
    decreases ps, 5
  {
    hide WellFormed, DistinctAddresses, Optimize, WellTypedAll, SetOf, OptimizePredicates, ValidNode, BoolOf, NumberOf,
         TextOf, ValidEnv;
    StepSame(env, left, axis, test, ps, c.node);
    OptimizePredicatesKeepsTypes(ps);
    FusedStepSame(env, OptimizeSource(left), axis, test, OptimizePredicates(ps), c.node);
    Converted(env, Step(left, axis, test, ps), c, FuseStep(OptimizeSource(left), axis, test, OptimizePredicates(ps)),
        c);
  }

  lemma OptimizeFilterSame(env: Env, inner: Expr, cls: PredicateClass, p: Expr, c: Context)
    requires ValidEnv(env) && ValidNode(env.doc, c.node) && WellTyped(p)
    requires SameValues(env, inner, c, Optimize(inner), c)
    ensures SameValues(env, Filter(inner, cls, p), c, Optimize(Filter(inner, cls, p)), c)
    decreases p, 2
  {
    hide WellFormed, DistinctAddresses, WellTyped, BoolOf, NumberOf, TextOf, KeepUpTo, InDocumentOrder, StripPosition;
    InDocumentOrderListsSet(SetOf(env, inner, c.node));
    KeepSame(env, InDocumentOrder(SetOf(env, inner, c.node)), p, |InDocumentOrder(SetOf(env, inner, c.node))|);
    Converted(env, Filter(inner, cls, p), c, Optimize(Filter(inner, cls, p)), c);
  }

  lemma OptimizeBinarySame(env: Env, g: BinaryFunction, l: Expr, r: Expr, c: Context, l': Expr, r': Expr)
    requires ValidEnv(env) && ValidNode(env.doc, c.node)
    requires SameValues(env, l, c, l', c) && SameValues(env, r, c, r', c)
    ensures SameValues(env, Binary(g, l, r), c, OptimizeBinary(g, l', r'), c)
  {
    BinaryCongruent(env, g, l, r, c, l', r', c);
    hide WellFormed, DistinctAddresses, ValidEnv, CompareValues, HasAttributeValue, SetOf;
    if IsAttributeComparison(Binary(g, l', r')) {
      AttributeComparisonSame(env, l'.test.name, r'.s, c);
      Converted(env, Binary(g, l', r'), c, OptimizeBinary(g, l', r'), c);
    }
  }

  lemma OptimizeTranslateSame(env: Env, e: Expr, f: Expr, t: Expr, c: Context, e': Expr, f': Expr, t': Expr)
    requires ValidEnv(env) && ValidNode(env.doc, c.node) && WellTyped(f') && WellTyped(t')
    requires SameValues(env, e, c, e', c) && SameValues(env, f, c, f', c) && SameValues(env, t, c, t', c)
    ensures SameValues(env, Translate(e, f, t), c, OptimizeTranslate(e', f', t'), c)
  {
    TranslateCongruent(env, e, f, t, c, e', f', t', c);
    hide WellFormed, DistinctAddresses, ValidEnv, SetOf, GenerateTable, TableText, TranslateText;
    if f'.StringConstant? && t'.StringConstant? && GenerateTable(f'.s, t'.s) != [] {
      TranslateTableAgrees(TextOf(env, e', c), f'.s, t'.s);
      Converted(env, Translate(e', f', t'), c, OptimizeTranslate(e', f', t'), c);
    }
  }

  /** The optimizer preserves meaning: for every well-typed query, every document and every context,
    the optimized query selects the same set of nodes and has the same value in every type. */
  lemma {:induction false} OptimizeSame(env: Env, e: Expr, c: Context)
    requires ValidEnv(env) && ValidNode(env.doc, c.node) && WellTyped(e)
    ensures SameValues(env, e, c, Optimize(e), c)
    decreases e, 0
  {
    hide WellFormed, DistinctAddresses, ValidEnv, BoolOf, NumberOf, TextOf, ValidNode, StepContexts, StepFrom, Keep,
         InDocumentOrder, FuseStep, OptimizeBinary, OptimizeTranslate;
    match e {
      case Step(left, axis, test, ps) =>
        if left.From? { OptimizeSame(env, left.e, c); }
        OptimizeStepSame(env, left, axis, test, ps, c);
      case Union(l, r) =>
        OptimizeSame(env, l, c);
        OptimizeSame(env, r, c);
        Converted(env, e, c, Optimize(e), c);
      case Filter(inner, cls, p) =>
        OptimizeSame(env, inner, c);
        OptimizeFilterSame(env, inner, cls, p, c);
      case Unary(f, e1) =>
        OptimizeSame(env, e1, c);
        UnaryCongruent(env, f, e1, c, Optimize(e1), c);
      case Binary(g, l, r) =>
        OptimizeSame(env, l, c);
        OptimizeSame(env, r, c);
        OptimizeBinarySame(env, g, l, r, c, Optimize(l), Optimize(r));
      case Translate(e1, f, t) =>
        OptimizeSame(env, e1, c);
        OptimizeSame(env, f, c);
        OptimizeSame(env, t, c);
        OptimizeKeepsTypes(f);
        OptimizeKeepsTypes(t);
        OptimizeTranslateSame(env, e1, f, t, c, Optimize(e1), Optimize(f), Optimize(t));
      case TranslateTable(e1, table) =>
        OptimizeSame(env, e1, c);
        TableCongruent(env, e1, table, c, Optimize(e1), c);
      case _ =>
    }
  }
}
