/** The evaluator: recursive over expressions, iterative over node sets, with order flags and early
  exits. Every method is proved against the meaning of the expression in module `XPath`. */
module XPathEvaluator {
  import opened Document
  import opened Axes
  import opened DocumentOrder
  import opened NodeSets
  import opened XPath
  import opened XPathOptimizer

  /** How much of a node set the caller needs: all of it, any node of it, or its first node. */
  datatype Mode = All | Any | First

  /** `eval_once`: whether one node is enough, given the order in which nodes are found. */
  predicate EvalOnce(ty: OrderType, mode: Mode) {
    if ty == Sorted then mode != All else mode == Any
  }

  /** What a node set returned in some mode promises about the set it stands for. */
  ghost predicate Answers(ns: seq<XNode>, ty: OrderType, full: set<XNode>, mode: Mode) {
    && NoDuplicates(ns)
    && Truthful(ns, ty)
    && (forall x | x in ns :: x in full)
    && (mode == All ==> forall x | x in full :: x in ns)
    && (mode == First ==> forall m | IsFirst(m, full) :: m in ns)
    && (mode == Any && full != {} ==> ns != [])
  }

  /** With either early exit the first node of the answer is the first node of the whole set. */
  lemma FirstOfAnswer(ns: seq<XNode>, ty: OrderType, full: set<XNode>, mode: Mode, x: XNode)
    requires Answers(ns, ty, full, mode) && mode != Any && ns != []
    requires x in ns && forall y | y in ns && y != x :: Precedes(x, y)
    ensures IsFirst(x, full)
  {
    var m := FirstExists(full);
    assert m in ns;
    PrecedesIsStrictTotal(x, m, x);
  }

  lemma AnswerEmpty(ns: seq<XNode>, ty: OrderType, full: set<XNode>, mode: Mode)
    requires Answers(ns, ty, full, mode)
    ensures ns == [] <==> full == {}
  {
    assert ns != [] ==> ns[0] in ns;
    if full != {} {
      var m := FirstExists(full);
    }
  }

  lemma AnswerCount(ns: seq<XNode>, ty: OrderType, full: set<XNode>)
    requires Answers(ns, ty, full, All)
    ensures |ns| == |full|
  {
    CountDistinct(ns);
    assert (set x | x in ns) == full;
  }

  lemma {:induction false} CountDistinct(ns: seq<XNode>)
    requires NoDuplicates(ns)
    ensures |set x | x in ns| == |ns|
  {
    if ns != [] {
      var init := ns[..|ns| - 1];
      CountDistinct(init);
      assert ns == init + [ns[|ns| - 1]];
      assert (set x | x in ns) == (set x | x in init) + {ns[|ns| - 1]};
    }
  }

  // ------------------------------------------------------------------ lists kept by predicates

  /** `s` lists some of the elements of `t` in the order of `t`. */
  ghost predicate Subsequence(s: seq<XNode>, t: seq<XNode>) {
    && (forall x | x in s :: x in t)
    && (NoDuplicates(t) ==> NoDuplicates(s))
    && (InOrder(t) ==> InOrder(s))
    && (InReverseOrder(t) ==> InReverseOrder(s))
  }

  lemma {:induction false} KeepUpToSubsequence(env: Env, s: seq<XNode>, e: Expr, n: nat)
    requires ValidEnv(env) && ValidNodes(env.doc, s) && n <= |s|
    ensures Subsequence(KeepUpTo(env, s, e, n), s[..n])
    decreases n
  {
    hide WellFormed, ValidEnv, ValidNode, Holds, Precedes;
    if n > 0 {
      KeepUpToSubsequence(env, s, e, n - 1);
      ExtendSubsequence(KeepUpTo(env, s, e, n - 1), s, n);
      assert KeepUpTo(env, s, e, n - 1) + [] == KeepUpTo(env, s, e, n - 1);
    }
  }

  lemma ExtendSubsequence(k: seq<XNode>, s: seq<XNode>, n: nat)
    requires 0 < n <= |s| && Subsequence(k, s[..n - 1])
    ensures Subsequence(k, s[..n]) && Subsequence(k + [s[n - 1]], s[..n])
  {
    hide Precedes;
    var t, u := s[..n - 1], s[..n];
    assert u == t + [s[n - 1]];
    forall x | x in k ensures exists i :: 0 <= i < n - 1 && u[i] == x {
      var i :| 0 <= i < |t| && t[i] == x;
      assert u[i] == x;
    }
    assert forall i | 0 <= i < |k| :: k[i] in k;
    assert forall i | 0 <= i < n :: u[i] == s[i];
    assert NoDuplicates(u) ==> NoDuplicates(t);
    assert InOrder(u) ==> InOrder(t);
    assert InReverseOrder(u) ==> InReverseOrder(t);
  }

  lemma KeepSubsequence(env: Env, s: seq<XNode>, e: Expr)
    requires ValidEnv(env) && ValidNodes(env.doc, s)
    ensures Subsequence(Keep(env, s, e), s)
  {
    hide WellFormed, ValidEnv, ValidNode, KeepUpTo;
    KeepUpToSubsequence(env, s, e, |s|);
    assert s[..|s|] == s;
  }

  lemma {:induction false} KeepAllSubsequence(env: Env, s: seq<XNode>, ps: Predicates)
    requires ValidEnv(env) && ValidNodes(env.doc, s)
    ensures Subsequence(KeepAll(env, s, ps), s)
    decreases ps
  {
    hide WellFormed, ValidEnv, ValidNode, Keep;
    if ps.Predicate? {
      KeepSubsequence(env, s, ps.e);
      KeepAllSubsequence(env, Keep(env, s, ps.e), ps.next);
    }
  }

  /** The position a number asks for: itself if it is a whole number, else none. */
  function PositionOf(v: Num): int {
    if v.Real? && v.r == v.r.Floor as real then v.r.Floor else 0
  }

  lemma PositionOfWhole(v: Num, k: nat)
    requires k > 0
    ensures CompareNumbers(Equal, v, Real(k as real)) <==> PositionOf(v) == k
  {
  }

  lemma ConstantHolds(env: Env, e: Expr, c: Context, v: Num)
    requires ValidEnv(env) && ValidNode(env.doc, c.node) && (e.NumberConstant? || e.Last?)
    requires v == if e.NumberConstant? then e.n else Real(c.size as real)
    ensures Holds(env, e, c) <==> CompareNumbers(Equal, v, Real(c.position as real))
  {
    hide WellFormed, ValidEnv, ValidNode, BoolOf, SetOf, TextOf, CompareNumbers;
  }

  /** A constant predicate keeps the node at that position, if there is one. */
  lemma {:induction false} KeepConstant(env: Env, s: seq<XNode>, e: Expr, n: nat, v: Num)
    requires ValidEnv(env) && ValidNodes(env.doc, s) && n <= |s|
    requires e.NumberConstant? || e.Last?
    requires v == if e.NumberConstant? then e.n else Real(|s| as real)
    ensures KeepUpTo(env, s, e, n) == if 1 <= PositionOf(v) <= n then [s[PositionOf(v) - 1]] else []
    decreases n
  {
    hide WellFormed, ValidEnv, ValidNode, BoolOf, SetOf, TextOf, NumberOf, Holds, TypeOf, PositionOf, CompareNumbers,
         DistinctAddresses;
    if n > 0 {
      KeepConstant(env, s, e, n - 1, v);
      ConstantHolds(env, e, Context(s[n - 1], n, |s|), v);
      PositionOfWhole(v, n);
    }
  }

  // ------------------------------------------------------------------ predicates

  /** `apply_predicate_boolean` and `apply_predicate_number` on the nodes added since `first`. */
  method ApplyPredicateTest(env: Env, ns: seq<XNode>, first: nat, e: Expr, once: bool) returns (r: seq<XNode>)
    requires ValidEnv(env) && first <= |ns| && ValidNodes(env.doc, ns[first..])
    requires WellTyped(e) && Classified(e)
    ensures r == ns[..first] + FirstOnly(once, Keep(env, ns[first..], e))
    decreases e, 8
  {
    hide WellFormed, ValidEnv, ValidNode, BoolOf, NumberOf, WellTyped, Classified;
    ghost var s := ns[first..];
    var size := |ns| - first;
    r := ns[..first];
    ghost var kept: seq<XNode> := [];
    for i := 0 to size
      invariant kept == KeepUpTo(env, s, e, i)
      invariant r == ns[..first] + kept
      invariant once ==> kept == []
    {
      var x := ns[first + i];
      assert x == s[i] && x in s;
      var c := Context(x, i + 1, size);
      var holds;
      if TypeOf(e) == NumberType {
        var v := EvalNumber(env, e, c);
        holds := CompareNumbers(Equal, v, Real((i + 1) as real));
      } else {
        holds := EvalBoolean(env, e, c);
      }
      assert holds == Holds(env, e, c);
      if holds {
        r := r + [x];
        kept := kept + [x];
        if once {
          KeptPrefix(env, s, e, i + 1);
          return;
        }
      }
    }
  }

  lemma {:induction false} KeptPrefix(env: Env, s: seq<XNode>, e: Expr, n: nat)
    requires ValidEnv(env) && ValidNodes(env.doc, s) && n <= |s|
    ensures KeepUpTo(env, s, e, n) <= Keep(env, s, e)
    decreases |s| - n
  {
    hide WellFormed, ValidEnv, ValidNode, Holds;
    if n < |s| { KeptPrefix(env, s, e, n + 1); }
  }

  lemma PositionInRange(v: Num, size: nat)
    ensures 1 <= PositionOf(v) <= size
            <==> v.Real? && 1.0 <= v.r <= size as real && v.r == v.r.Floor as real
  {
    if v.Real? && v.r == v.r.Floor as real {
      assert 1.0 <= v.r <==> 1 <= v.r.Floor;
    }
  }

  /** `apply_predicate_number_const`. */
  method ApplyPredicateConstant(env: Env, ns: seq<XNode>, first: nat, e: Expr) returns (r: seq<XNode>)
    requires ValidEnv(env) && first <= |ns| && ValidNodes(env.doc, ns[first..])
    requires e.NumberConstant? || e.Last?
    ensures r == ns[..first] + Keep(env, ns[first..], e)
    ensures |r| <= first + 1
    decreases e, 8
  {
    assert ValidNode(env.doc, NullNode);
    hide WellFormed, ValidEnv, ValidNode, BoolOf, SetOf, TextOf, KeepUpTo, DistinctAddresses, WellTyped, Classified;
    var size := |ns| - first;
    var er := EvalNumber(env, e, Context(NullNode, 1, size));
    KeepConstant(env, ns[first..], e, size, er);
    PositionInRange(er, size);
    r := ns[..first];
    if er.Real? && 1.0 <= er.r <= size as real {
      var eri := er.r.Floor;
      if er.r == eri as real {
        r := r + [ns[first + eri - 1]];
      }
    }
  }

  /** `apply_predicate`, dispatching on the class the optimizer attached. */
  method ApplyPredicate(env: Env, ns: seq<XNode>, first: nat, cls: PredicateClass, e: Expr, once: bool)
    returns (r: seq<XNode>)
    requires ValidEnv(env) && first <= |ns| && ValidNodes(env.doc, ns[first..])
    requires WellTyped(e) && Classified(e) && ClassHolds(cls, e)
    ensures r == ns[..first] + FirstOnly(once, Keep(env, ns[first..], e))
    decreases e, 9
  {
    hide WellFormed, ValidEnv, ValidNode, BoolOf, NumberOf, WellTyped, Classified, Holds;
    if |ns| == first { return ns; }
    if cls == Constant || cls == ConstantOne {
      r := ApplyPredicateConstant(env, ns, first, e);
    } else {
      r := ApplyPredicateTest(env, ns, first, e, once);
    }
  }

  /** `apply_predicates`: each predicate on what the one before it kept; only the last may stop early. */
  method ApplyPredicates(env: Env, ns: seq<XNode>, first: nat, ps: Predicates, once: bool) returns (r: seq<XNode>)
    requires ValidEnv(env) && first <= |ns| && ValidNodes(env.doc, ns[first..])
    requires WellTypedAll(ps) && ClassifiedAll(ps)
    ensures ps.NoPredicates? ==> r == ns
    ensures ps.Predicate? ==> r == ns[..first] + FirstOnly(once, KeepAll(env, ns[first..], ps))
    decreases ps, 1
  {
    hide WellFormed, ValidEnv, ValidNode, BoolOf, NumberOf, WellTyped, Classified, Holds, Keep, ClassHolds;
    r := ns;
    var pred := ps;
    ghost var rest := ns[first..];
    while pred.Predicate?
      invariant WellTypedAll(pred) && ClassifiedAll(pred)
      invariant ValidNodes(env.doc, rest)
      invariant KeepAll(env, ns[first..], ps) == KeepAll(env, rest, pred)
      invariant |r| >= first && r[..first] == ns[..first]
      invariant pred.Predicate? ==> r == ns[..first] + rest
      invariant pred.NoPredicates? ==> r == if ps.NoPredicates? then ns else ns[..first] + FirstOnly(once, rest)
      invariant pred == ps || pred < ps
      decreases pred
    {
      assert r[first..] == rest;
      r := ApplyPredicate(env, r, first, pred.cls, pred.e, pred.next.NoPredicates? && once);
      rest := Keep(env, rest, pred.e);
      pred := pred.next;
    }
  }

  // ------------------------------------------------------------------ steps

  /** What a step adds for one start node: everything, or only the first node when that is enough. */
  ghost predicate Contributes(t: seq<XNode>, full: seq<XNode>, axis: Axis, mode: Mode) {
    || t == full
    || (full != [] && t == [full[0]] && (mode == Any || (mode == First && !IsReverse(axis))))
  }

  /** `ns` holds what it has to of the nodes `full` reached from one start node. */
  ghost predicate Covered(ns: seq<XNode>, full: seq<XNode>, axis: Axis, mode: Mode) {
    || (forall z | z in full :: z in ns)
    || (full != [] && full[0] in ns && (mode == Any || (mode == First && !IsReverse(axis))))
  }

  /** The start node from which a child, attribute or self step can have reached `z`. */
  function StartOf(d: Table, axis: Axis, z: XNode): XNode
    requires ValidNode(d, z)
  {
    match axis
    case Child => if z.TreeNode? && d[z.id].parent >= 0 then TreeNode(d[z.id].parent) else NullNode
    case AttributeAxis => if z.AttributeNode? then TreeNode(z.owner) else NullNode
    case _ => z
  }

  predicate HasOneStart(axis: Axis) {
    axis.Child? || axis.AttributeAxis? || axis.SelfAxis?
  }

  lemma OneStart(d: Table, axis: Axis, test: NodeTest, y: XNode, z: XNode)
    requires WellFormed(d) && ValidNode(d, y) && HasOneStart(axis) && z in AxisNodes(d, axis, test, y)
    ensures ValidNode(d, z) && StartOf(d, axis, z) == y
  {
    AxisNodesOrdered(d, axis, test, y);
    if y.TreeNode? {
      if axis.AttributeAxis? {
        AttributesInOrder(d, test, y.id, 0);
      } else {
        TreeAxisOnlyTreeNodes(d, axis, test, y.id);
      }
    }
  }

  /** The early exits of one `step_fill` and its predicates are harmless. */
  lemma ContributionOf(env: Env, axis: Axis, test: NodeTest, ps: Predicates, y: XNode, mode: Mode, ty: OrderType,
      once: bool, fill: seq<XNode>, t: seq<XNode>)
    requires ValidEnv(env) && ValidNode(env.doc, y) && ClassifiedAll(ps)
    requires once <==> StepOnce(axis, test, ps, mode)
    requires IsReverse(axis) ==> ty != Sorted
    requires fill == FirstOnly(once, AxisNodes(env.doc, axis, test, y)) && ValidNodes(env.doc, fill)
    requires ps.NoPredicates? ==> t == fill
    requires ps.Predicate? ==> t == FirstOnly(EvalOnce(ty, mode), KeepAll(env, fill, ps))
    ensures Contributes(t, StepFrom(env, axis, test, ps, y), axis, mode)
  {
    hide WellFormed, DistinctAddresses, ValidNode, BoolOf, NumberOf, Holds, AttributesFrom, TreeAxis, AttributeStep;
    AxisNodesOrdered(env.doc, axis, test, y);
    var all := AxisNodes(env.doc, axis, test, y);
    if axis.AttributeAxis? && test.NameTest? {
      NamedAttributes(env.doc, test.name, y);
      assert fill == all;
    } else if ps.Predicate? && once {
      OneByPosition(env, all, fill, ps.e);
      assert KeepAll(env, fill, ps) == KeepAll(env, all, ps);
    }
  }

  lemma NamedAttributes(d: Table, name: string, y: XNode)
    requires WellFormed(d) && ValidNode(d, y)
    ensures |AxisNodes(d, AttributeAxis, NameTest(name), y)| <= 1
  {
    if y.TreeNode? { NamedAttributeSingle(d, name, y.id, 0); }
  }

  lemma OneByPosition(env: Env, all: seq<XNode>, fill: seq<XNode>, e: Expr)
    requires ValidEnv(env) && ValidNodes(env.doc, all) && ValidNodes(env.doc, fill)
    requires fill == FirstOnly(true, all) && e == NumberConstant(Real(1.0))
    ensures Keep(env, fill, e) == Keep(env, all, e)
  {
    hide WellFormed, ValidEnv, ValidNode, KeepUpTo;
    KeepConstant(env, all, e, |all|, Real(1.0));
    KeepConstant(env, fill, e, |fill|, Real(1.0));
  }

  /** `once` of `step_do`: stop `step_fill` at the first match. */
  predicate StepOnce(axis: Axis, test: NodeTest, ps: Predicates, mode: Mode) {
    || (axis.AttributeAxis? && test.NameTest?)
    || (ps.NoPredicates? && EvalOnce(if IsReverse(axis) then SortedReverse else Sorted, mode))
    || (ps.Predicate? && ps.next.NoPredicates? && ps.cls == ConstantOne)
  }

  /** After the first `k` start nodes. */
  ghost predicate StepInvariant(env: Env, axis: Axis, test: NodeTest, ps: Predicates, mode: Mode,
                                s: seq<XNode>, sty: OrderType, k: nat, ns: seq<XNode>, ty: OrderType)
    requires ValidEnv(env) && k <= |s| && forall y | y in s :: ValidNode(env.doc, y)
  {
    && ValidNodes(env.doc, ns)
    && (forall z | z in ns :: exists i | 0 <= i < k :: z in StepFrom(env, axis, test, ps, s[i]))
    && (forall i | 0 <= i < k :: Covered(ns, StepFrom(env, axis, test, ps, s[i]), axis, mode))
    && Truthful(ns, ty)
    && (HasOneStart(axis) ==> NoDuplicates(ns))
    && (if axis.SelfAxis? then ty == sty
         else ty == Unsorted || ty == (if IsReverse(axis) then SortedReverse else Sorted))
  }

  lemma StepFromOrdered(env: Env, axis: Axis, test: NodeTest, ps: Predicates, y: XNode)
    requires ValidEnv(env) && ValidNode(env.doc, y)
    ensures var r := StepFrom(env, axis, test, ps, y);
            && (if IsReverse(axis) then InReverseOrder(r) else InOrder(r))
            && (HasOneStart(axis) ==> forall z | z in r :: StartOf(env.doc, axis, z) == y)
  {
    hide WellFormed, DistinctAddresses, ValidNode, KeepAll, AxisNodes, Precedes;
    AxisNodesOrdered(env.doc, axis, test, y);
    KeepAllSubsequence(env, AxisNodes(env.doc, axis, test, y), ps);
    if HasOneStart(axis) {
      forall z | z in StepFrom(env, axis, test, ps, y) ensures StartOf(env.doc, axis, z) == y {
        OneStart(env.doc, axis, test, y, z);
      }
    }
  }

  lemma StepInvariantKept(env: Env, axis: Axis, test: NodeTest, ps: Predicates, mode: Mode,
                          s: seq<XNode>, sty: OrderType, k: nat, ns: seq<XNode>, before: OrderType, ty: OrderType,
                            t: seq<XNode>)
    requires ValidEnv(env) && k < |s| && (forall y | y in s :: ValidNode(env.doc, y))
    requires NoDuplicates(s) && Truthful(s, sty)
    requires StepInvariant(env, axis, test, ps, mode, s, sty, k, ns, before)
    requires ty == if !axis.SelfAxis? && ns != [] then Unsorted else before
    requires Contributes(t, StepFrom(env, axis, test, ps, s[k]), axis, mode)
    ensures StepInvariant(env, axis, test, ps, mode, s, sty, k + 1, ns + t, ty)
  {
    hide WellFormed, ValidEnv, ValidNode, StepFrom, Precedes, StartOf, Truthful, NoDuplicates, Covered;
    var full := StepFrom(env, axis, test, ps, s[k]);
    ContributionOrdered(env, axis, test, ps, s[k], t, mode);
    forall z | z in ns + t ensures exists i | 0 <= i < k + 1 :: z in StepFrom(env, axis, test, ps, s[i]) {
      if z in ns { var i :| 0 <= i < k && z in StepFrom(env, axis, test, ps, s[i]); }
    }
    forall i | 0 <= i < k + 1 ensures Covered(ns + t, StepFrom(env, axis, test, ps, s[i]), axis, mode) {
      if i < k {
        StillCovered(ns, t, StepFrom(env, axis, test, ps, s[i]), axis, mode);
      } else {
        NowCovered(ns, t, full, axis, mode);
      }
    }
    if HasOneStart(axis) { AppendedDistinct(env, axis, test, ps, s, k, ns, t); }
    if axis.SelfAxis? {
      AppendedInOrder(env, test, ps, s, sty, k, ns, t);
    } else {
      AnyOrder(ns + t);
      assert ns == [] ==> ns + t == t;
    }
  }

  lemma AnyOrder(s: seq<XNode>)
    ensures Truthful(s, Unsorted)
  {
  }

  lemma StillCovered(ns: seq<XNode>, t: seq<XNode>, full: seq<XNode>, axis: Axis, mode: Mode)
    requires Covered(ns, full, axis, mode)
    ensures Covered(ns + t, full, axis, mode)
  {
  }

  lemma NowCovered(ns: seq<XNode>, t: seq<XNode>, full: seq<XNode>, axis: Axis, mode: Mode)
    requires Contributes(t, full, axis, mode)
    ensures Covered(ns + t, full, axis, mode)
  {
  }

  lemma ContributionOrdered(env: Env, axis: Axis, test: NodeTest, ps: Predicates, y: XNode, t: seq<XNode>, mode: Mode)
    requires ValidEnv(env) && ValidNode(env.doc, y)
    requires Contributes(t, StepFrom(env, axis, test, ps, y), axis, mode)
    ensures forall z | z in t :: z in StepFrom(env, axis, test, ps, y)
    ensures NoDuplicates(t) && Truthful(t, if IsReverse(axis) then SortedReverse else Sorted)
  {
    hide WellFormed, ValidEnv, StepFrom;
    StepFromOrdered(env, axis, test, ps, y);
    OrderedHasNoDuplicates(t, if IsReverse(axis) then SortedReverse else Sorted);
  }

  lemma AppendedDistinct(env: Env, axis: Axis, test: NodeTest, ps: Predicates, s: seq<XNode>, k: nat, ns: seq<XNode>,
      t: seq<XNode>)
    requires ValidEnv(env) && k < |s| && (forall y | y in s :: ValidNode(env.doc, y)) && HasOneStart(axis)
    requires NoDuplicates(s) && NoDuplicates(ns) && NoDuplicates(t)
    requires forall z | z in ns :: exists i | 0 <= i < k :: z in StepFrom(env, axis, test, ps, s[i])
    requires forall z | z in t :: z in StepFrom(env, axis, test, ps, s[k])
    ensures NoDuplicates(ns + t)
  {
    hide WellFormed, ValidEnv, ValidNode, StepFrom, StartOf;
    forall z | z in ns && z in t ensures false {
      var i :| 0 <= i < k && z in StepFrom(env, axis, test, ps, s[i]);
      StepFromOrdered(env, axis, test, ps, s[i]);
      StepFromOrdered(env, axis, test, ps, s[k]);
    }
    assert forall i | 0 <= i < |ns| :: ns[i] in ns;
    assert forall j | 0 <= j < |t| :: t[j] in t;
  }

  lemma AppendedInOrder(env: Env, test: NodeTest, ps: Predicates, s: seq<XNode>, sty: OrderType, k: nat, ns: seq<XNode>,
      t: seq<XNode>)
    requires ValidEnv(env) && k < |s| && (forall y | y in s :: ValidNode(env.doc, y))
    requires Truthful(s, sty) && Truthful(ns, sty) && NoDuplicates(t)
    requires forall z | z in ns :: exists i | 0 <= i < k :: z in StepFrom(env, SelfAxis, test, ps, s[i])
    requires forall z | z in t :: z in StepFrom(env, SelfAxis, test, ps, s[k])
    ensures Truthful(ns + t, sty)
  {
    hide WellFormed, ValidEnv, ValidNode, StepFrom, Precedes;
    StepFromOrdered(env, SelfAxis, test, ps, s[k]);
    forall z | z in t ensures z == s[k] {}
    forall z | z in ns ensures exists i | 0 <= i < k :: z == s[i] {
      var i :| 0 <= i < k && z in StepFrom(env, SelfAxis, test, ps, s[i]);
      StepFromOrdered(env, SelfAxis, test, ps, s[i]);
    }
    assert forall i | 0 <= i < |ns| :: ns[i] in ns;
    assert forall j | 0 <= j < |t| :: t[j] in t;
  }

  /** All start nodes done, and duplicates removed where there can be any. */
  lemma StepAnswers(env: Env, e: Expr, x: XNode, mode: Mode, s: seq<XNode>, sty: OrderType, ns: seq<XNode>,
      ty: OrderType, r: seq<XNode>)
    requires ValidEnv(env) && ValidNode(env.doc, x) && e.Step?
    requires (forall y | y in s :: ValidNode(env.doc, y)) && forall y :: y in s <==> y in StepContexts(env, e.left, x)
    requires StepInvariant(env, e.axis, e.test, e.predicates, mode, s, sty, |s|, ns, ty)
    requires r == if !HasOneStart(e.axis) && ty == Unsorted then FirstOccurrences(ns) else ns
    ensures Answers(r, ty, SetOf(env, e, x), mode)
  {
    hide WellFormed, ValidEnv, ValidNode, StepFrom, Precedes, SetOf, StepContexts, FirstOccurrences, Reaches;
    FirstOccurrencesKeepsSet(ns);
    if !HasOneStart(e.axis) && ty != Unsorted { OrderedHasNoDuplicates(ns, ty); }
    assert forall z :: z in r <==> z in ns;
    forall z
      ensures z in SetOf(env, e, x)
              <==> exists i | 0 <= i < |s| :: z in StepFrom(env, e.axis, e.test, e.predicates, s[i])
    {
      StepSetListed(env, e, x, s, z);
    }
    forall m | IsFirst(m, SetOf(env, e, x)) && mode == First ensures m in r {
      var i :| 0 <= i < |s| && m in StepFrom(env, e.axis, e.test, e.predicates, s[i]);
      FirstCovered(env, e, s[i], mode, ns, m, SetOf(env, e, x));
    }
    if mode == Any && SetOf(env, e, x) != {} {
      var m := FirstExists(SetOf(env, e, x));
      var i :| 0 <= i < |s| && m in StepFrom(env, e.axis, e.test, e.predicates, s[i]);
      assert Covered(ns, StepFrom(env, e.axis, e.test, e.predicates, s[i]), e.axis, mode);
      assert ns != [];
      assert ns[0] in r;
    }
  }

  lemma StepSetListed(env: Env, e: Expr, x: XNode, s: seq<XNode>, z: XNode)
    requires ValidEnv(env) && ValidNode(env.doc, x) && e.Step?
    requires (forall y | y in s :: ValidNode(env.doc, y)) && forall y :: y in s <==> y in StepContexts(env, e.left, x)
    ensures z in SetOf(env, e, x) <==> exists i | 0 <= i < |s| :: z in StepFrom(env, e.axis, e.test, e.predicates, s[i])
  {
    hide WellFormed, ValidEnv, ValidNode, StepFrom, Precedes, SetOf, StepContexts, FirstOccurrences, Reaches;
    SetOfStep(env, e.left, e.axis, e.test, e.predicates, x, z);
    if Reaches(env, e.axis, e.test, e.predicates, StepContexts(env, e.left, x), z) {
      var y := ReachedFrom(env, e.axis, e.test, e.predicates, StepContexts(env, e.left, x), z);
      var i :| 0 <= i < |s| && s[i] == y;
    } else {
      forall i | 0 <= i < |s| ensures z !in StepFrom(env, e.axis, e.test, e.predicates, s[i]) {
        if z in StepFrom(env, e.axis, e.test, e.predicates, s[i]) {
          ReachesFrom(env, e.axis, e.test, e.predicates, StepContexts(env, e.left, x), s[i], z);
        }
      }
    }
  }

  lemma FirstCovered(env: Env, e: Expr, y: XNode, mode: Mode, ns: seq<XNode>, m: XNode, all: set<XNode>)
    requires ValidEnv(env) && ValidNode(env.doc, y) && e.Step? && mode == First
    requires Covered(ns, StepFrom(env, e.axis, e.test, e.predicates, y), e.axis, mode)
    requires m in StepFrom(env, e.axis, e.test, e.predicates, y) && IsFirst(m, all)
    requires forall z | z in StepFrom(env, e.axis, e.test, e.predicates, y) :: z in all
    ensures m in ns
  {
    hide WellFormed, ValidEnv, ValidNode, StepFrom;
    var full := StepFrom(env, e.axis, e.test, e.predicates, y);
    StepFromOrdered(env, e.axis, e.test, e.predicates, y);
    assert full != [] && full[0] in full;
    assert !IsReverse(e.axis) ==> forall k | 0 < k < |full| :: Precedes(full[0], full[k]);
    PrecedesIsStrictTotal(m, full[0], m);
  }

  lemma StepParts(e: Expr)
    requires e.Step? && WellTyped(e) && Classified(e)
    ensures e.left.From? ==> Sound(e.left.e, NodeSetType)
    ensures WellTypedAll(e.predicates) && ClassifiedAll(e.predicates)
  {
  }

  lemma ContextsListed(env: Env, left: Source, x: XNode, s: seq<XNode>, sty: OrderType)
    requires ValidEnv(env) && ValidNode(env.doc, x)
    requires left.FromContext? ==> s == [x] && sty == Sorted
    requires left.From? ==> Answers(s, sty, SetOf(env, left.e, x), All)
    ensures (forall y | y in s :: ValidNode(env.doc, y)) && (forall y :: y in s <==> y in StepContexts(env, left, x))
    ensures NoDuplicates(s) && Truthful(s, sty)
  {
  }

  /** `step_do`. */
  method StepDo(env: Env, e: Expr, c: Context, mode: Mode) returns (ns: seq<XNode>, ty: OrderType)
    requires ValidEnv(env) && ValidNode(env.doc, c.node)
    requires e.Step? && Sound(e, NodeSetType)
    ensures Answers(ns, ty, SetOf(env, e, c.node), mode)
    decreases e, 0
  {
    hide WellFormed, ValidEnv, SetOf, StepFrom, StepContexts, WellTyped, Classified, WellTypedAll, ClassifiedAll,
         StepInvariant, Answers, AxisNodes, KeepAll, Contributes, ValidNode, Truthful, NoDuplicates, FirstOccurrences;
    StepParts(e);
    var axis, test, ps := e.axis, e.test, e.predicates;
    var once := StepOnce(axis, test, ps, mode);
    var s, sty := [c.node], Sorted;
    if e.left.From? {
      s, sty := EvalNodeSet(env, e.left.e, c, All);
    }
    ContextsListed(env, e.left, c.node, s, sty);
    ns := [];
    ty := if IsReverse(axis) then SortedReverse else Sorted;
    if axis.SelfAxis? { ty := sty; }
    StepInvariantStart(env, axis, test, ps, mode, s, sty, ty);
    for k := 0 to |s|
      invariant StepInvariant(env, axis, test, ps, mode, s, sty, k, ns, ty)
    {
      ghost var before := ty;
      StepFlag(env, axis, test, ps, mode, s, sty, k, ns, ty);
      if !axis.SelfAxis? && |ns| != 0 { ty := Unsorted; }
      var added := StepOne(env, e, s[k], mode, ns, ty, once);
      ghost var t := added[|ns|..];
      assert added == ns + t;
      StepInvariantKept(env, axis, test, ps, mode, s, sty, k, ns, before, ty, t);
      ns := added;
    }
    ghost var all := ns;
    StepTruth(env, axis, test, ps, mode, s, sty, ns, ty);
    if !HasOneStart(axis) && ty == Unsorted {
      ns := RemoveDuplicates(ns, ty, env.address);
    }
    StepAnswers(env, e, c.node, mode, s, sty, all, ty, ns);
  }

  lemma StepFlag(env: Env, axis: Axis, test: NodeTest, ps: Predicates, mode: Mode, s: seq<XNode>, sty: OrderType,
      k: nat, ns: seq<XNode>, ty: OrderType)
    requires ValidEnv(env) && k <= |s| && forall y | y in s :: ValidNode(env.doc, y)
    requires StepInvariant(env, axis, test, ps, mode, s, sty, k, ns, ty)
    ensures IsReverse(axis) ==> ty != Sorted
  {
  }

  lemma StepInvariantStart(env: Env, axis: Axis, test: NodeTest, ps: Predicates, mode: Mode, s: seq<XNode>,
      sty: OrderType, ty: OrderType)
    requires ValidEnv(env) && forall y | y in s :: ValidNode(env.doc, y)
    requires ty == if axis.SelfAxis? then sty else if IsReverse(axis) then SortedReverse else Sorted
    ensures StepInvariant(env, axis, test, ps, mode, s, sty, 0, [], ty)
  {
  }

  lemma StepTruth(env: Env, axis: Axis, test: NodeTest, ps: Predicates, mode: Mode, s: seq<XNode>, sty: OrderType,
      ns: seq<XNode>, ty: OrderType)
    requires ValidEnv(env) && forall y | y in s :: ValidNode(env.doc, y)
    requires StepInvariant(env, axis, test, ps, mode, s, sty, |s|, ns, ty)
    ensures Truthful(ns, ty) && (forall x | x in ns :: !x.NullNode?) && DistinctAddresses(env.address)
  {
  }

  /** One start node: `step_fill`, then the predicates on what it added. */
  method StepOne(env: Env, e: Expr, y: XNode, mode: Mode, ns: seq<XNode>, ty: OrderType, once: bool)
    returns (added: seq<XNode>)
    requires ValidEnv(env) && ValidNode(env.doc, y)
    requires e.Step? && WellTypedAll(e.predicates) && ClassifiedAll(e.predicates)
    requires once == StepOnce(e.axis, e.test, e.predicates, mode)
    requires IsReverse(e.axis) ==> ty != Sorted
    ensures |added| >= |ns| && added[..|ns|] == ns
    ensures Contributes(added[|ns|..], StepFrom(env, e.axis, e.test, e.predicates, y), e.axis, mode)
    decreases e.predicates, 2
  {
    hide WellFormed, ValidEnv, StepFrom, WellTypedAll, ClassifiedAll, AxisNodes, KeepAll, Contributes, ValidNode, Holds;
    assert WellFormed(env.doc) by { EnvParts(env); }
    var fill := StepFill(env.doc, e.axis, e.test, y, once);
    AxisNodesOrdered(env.doc, e.axis, e.test, y);
    assert (ns + fill)[|ns|..] == fill && (ns + fill)[..|ns|] == ns;
    added := ApplyPredicates(env, ns + fill, |ns|, e.predicates, EvalOnce(ty, mode));
    ContributionOf(env, e.axis, e.test, e.predicates, y, mode, ty, once, fill, added[|ns|..]);
  }

  lemma EnvParts(env: Env)
    requires ValidEnv(env)
    ensures WellFormed(env.doc) && DistinctAddresses(env.address)
  {
  }

  // ------------------------------------------------------------------ unions and filters

  lemma UnionAnswers(ls: seq<XNode>, lt: OrderType, a: set<XNode>, rs: seq<XNode>, rt: OrderType, b: set<XNode>,
      mode: Mode)
    requires Answers(ls, lt, a, mode) && Answers(rs, rt, b, mode)
    ensures Answers(FirstOccurrences(ls + rs), Unsorted, a + b, mode) || exists x | x in ls + rs :: x.NullNode?
  {
    hide FirstOccurrences, Precedes;
    FirstOccurrencesKeepsSet(ls + rs);
    if forall x | x in ls + rs :: !x.NullNode? {
      var r := FirstOccurrences(ls + rs);
      assert forall x :: x in r <==> x in ls || x in rs;
      if mode == Any && a + b != {} {
        assert ls != [] ==> ls[0] in r;
        assert rs != [] ==> rs[0] in r;
      }
      assert forall m | IsFirst(m, a + b) :: (m in a ==> IsFirst(m, a)) && (m in b ==> IsFirst(m, b));
    }
  }

  lemma SetNotNull(env: Env, e: Expr, x: XNode, ns: seq<XNode>)
    requires ValidEnv(env) && ValidNode(env.doc, x) && forall y | y in ns :: y in SetOf(env, e, x)
    ensures ValidNodes(env.doc, ns)
  {
  }

  /** A filter that is evaluated on the whole set in document order, on the set in any order with a
    position-invariant predicate, or on its first node for `[1]`. */
  lemma FilterAnswers(env: Env, e: Expr, x: XNode, mode: Mode, s: seq<XNode>, sty: OrderType, r: seq<XNode>)
    requires ValidEnv(env) && ValidNode(env.doc, x) && e.Filter? && ClassHolds(e.cls, e.test_)
    requires Answers(s, sty, SetOf(env, e.inner, x), if e.cls == ConstantOne then First else All)
    requires e.cls != PositionInvariant ==> sty == Sorted
    requires ValidNodes(env.doc, s)
    requires r == FirstOnly(EvalOnce(sty, mode), Keep(env, s, e.test_))
    ensures Answers(r, sty, SetOf(env, e, x), mode)
  {
    hide WellFormed, ValidEnv, ValidNode, Precedes, Holds, BoolOf, NumberOf, InDocumentOrder, KeepUpTo, ClassHolds;
    var all := SetOf(env, e.inner, x);
    var listed := InDocumentOrder(all);
    InDocumentOrderListsSet(all);
    assert forall y :: y in SetOf(env, e, x) <==> y in Keep(env, listed, e.test_);
    var kept := Keep(env, s, e.test_);
    KeepSubsequence(env, s, e.test_);
    if e.cls == PositionInvariant {
      SameKept(env, s, listed, e.test_);
    } else if e.cls == ConstantOne {
      FirstKept(env, s, listed, all, e.test_);
    } else {
      OrderedListingUnique(s, listed);
    }
    assert forall y :: y in kept <==> y in SetOf(env, e, x);
    OneIsEnough(kept, sty, SetOf(env, e, x), mode);
  }

  lemma SameKept(env: Env, s: seq<XNode>, t: seq<XNode>, e: Expr)
    requires ValidEnv(env) && ValidNodes(env.doc, s) && ValidNodes(env.doc, t) && ClassHolds(PositionInvariant, e)
    requires forall y :: y in s <==> y in t
    ensures forall y :: y in Keep(env, s, e) <==> y in Keep(env, t, e)
  {
    hide WellFormed, ValidEnv, Holds, KeepUpTo, ClassHolds;
    assert s[..|s|] == s && t[..|t|] == t;
    forall y ensures y in Keep(env, s, e) <==> y in Keep(env, t, e) {
      if ValidNode(env.doc, y) {
        KeepInvariant(env, s, e, |s|, y);
        KeepInvariant(env, t, e, |t|, y);
      }
    }
  }

  lemma FirstKept(env: Env, s: seq<XNode>, t: seq<XNode>, all: set<XNode>, e: Expr)
    requires ValidEnv(env) && ValidNodes(env.doc, s) && ValidNodes(env.doc, t) && ClassHolds(ConstantOne, e)
    requires InOrder(s) && InOrder(t) && (forall y :: y in t <==> y in all)
    requires Answers(s, Sorted, all, First)
    ensures Keep(env, s, e) == Keep(env, t, e)
  {
    hide WellFormed, ValidEnv, ValidNode, KeepUpTo, NumberOf, BoolOf;
    KeepConstant(env, s, e, |s|, Real(1.0));
    KeepConstant(env, t, e, |t|, Real(1.0));
    AnswerEmpty(s, Sorted, all, First);
    assert s != [] ==> s[0] in s;
    if t != [] {
      assert t[0] in t;
      assert IsFirst(t[0], all) by {
        forall y | y in all && y != t[0] ensures Precedes(t[0], y) {
          var i :| 0 <= i < |t| && t[i] == y;
        }
      }
      var i :| 0 <= i < |s| && s[i] == t[0];
      PrecedesIsStrictTotal(s[0], s[i], s[0]);
    }
  }

  lemma OneIsEnough(kept: seq<XNode>, ty: OrderType, full: set<XNode>, mode: Mode)
    requires NoDuplicates(kept) && Truthful(kept, ty) && forall y :: y in kept <==> y in full
    ensures Answers(FirstOnly(EvalOnce(ty, mode), kept), ty, full, mode)
  {
    var r := FirstOnly(EvalOnce(ty, mode), kept);
    assert forall i | 0 <= i < |r| :: r[i] == kept[i];
    assert forall x | x in r :: x in kept;
    if kept != [] { assert kept[0] in kept && r[0] == kept[0]; }
    forall m | mode == First && IsFirst(m, full) ensures m in r {
      var i :| 0 <= i < |kept| && kept[i] == m;
      if i > 0 && ty == Sorted {
        assert Precedes(kept[0], kept[i]);
        PrecedesIsStrictTotal(m, kept[0], m);
      }
    }
  }

  /** `eval_node_set`: no duplicates, a truthful order flag, and the right nodes for the mode. */
  method EvalNodeSet(env: Env, e: Expr, c: Context, mode: Mode) returns (ns: seq<XNode>, ty: OrderType)
    requires ValidEnv(env) && ValidNode(env.doc, c.node)
    requires Sound(e, NodeSetType)
    ensures Answers(ns, ty, SetOf(env, e, c.node), mode)
    decreases e, 1
  {
    hide WellFormed, ValidEnv, Answers, BoolOf, NumberOf, ValidNode, Keep, FirstOccurrences, Precedes, InDocumentOrder,
         Sound, ValidNodes, DistinctAddresses;
    SoundParts(e);
    match e {
      case Root =>
        RootAnswers(c.node, mode);
        ns := if c.node.NullNode? then [] else [TreeNode(0)];
        ty := Sorted;
      case Step(_, _, _, _) =>
        ns, ty := StepDo(env, e, c, mode);
      case Union(l, r) =>
        var ls, lt := EvalNodeSet(env, l, c, mode);
        var rs, rt := EvalNodeSet(env, r, c, mode);
        ty := Unsorted;
        EnvParts(env);
        UnionNotNull(env, e, c.node, ls, lt, rs, rt, mode);
        ns := RemoveDuplicates(ls + rs, ty, env.address);
      case Filter(inner, cls, p) =>
        ns, ty := EvalFilter(env, e, c, mode);
    }
  }

  lemma SoundParts(e: Expr)
    requires Sound(e, NodeSetType)
    ensures e.Root? || e.Step? || e.Union? || e.Filter?
    ensures e.Union? ==> Sound(e.l, NodeSetType) && Sound(e.r, NodeSetType)
    ensures e.Filter? ==>
              && Sound(e.inner, NodeSetType) && WellTyped(e.test_) && Classified(e.test_)
              && ClassHolds(e.cls, e.test_)
  {
  }

  lemma RootAnswers(x: XNode, mode: Mode)
    ensures Answers(if x.NullNode? then [] else [TreeNode(0)], Sorted, if x.NullNode? then {} else {TreeNode(0)}, mode)
  {
  }

  lemma UnionNotNull(env: Env, e: Expr, x: XNode, ls: seq<XNode>, lt: OrderType, rs: seq<XNode>, rt: OrderType,
      mode: Mode)
    requires ValidEnv(env) && ValidNode(env.doc, x) && e.Union?
    requires Answers(ls, lt, SetOf(env, e.l, x), mode) && Answers(rs, rt, SetOf(env, e.r, x), mode)
    ensures forall y | y in ls + rs :: !y.NullNode?
    ensures Answers(FirstOccurrences(ls + rs), Unsorted, SetOf(env, e, x), mode)
  {
    hide WellFormed, ValidEnv, BoolOf, NumberOf, FirstOccurrences, Precedes, InDocumentOrder;
    SetNotNull(env, e.l, x, ls);
    SetNotNull(env, e.r, x, rs);
    UnionAnswers(ls, lt, SetOf(env, e.l, x), rs, rt, SetOf(env, e.r, x), mode);
  }

  method EvalFilter(env: Env, e: Expr, c: Context, mode: Mode) returns (ns: seq<XNode>, ty: OrderType)
    requires ValidEnv(env) && ValidNode(env.doc, c.node)
    requires e.Filter? && Sound(e, NodeSetType)
    ensures Answers(ns, ty, SetOf(env, e, c.node), mode)
    decreases e, 0
  {
    hide WellFormed, ValidEnv, SetOf, BoolOf, NumberOf, ValidNode, Keep, Precedes, ClassHolds, DistinctAddresses,
         ValidNodes, Sound, Truthful;
    SoundParts(e);
    var s, sty := EvalNodeSet(env, e.inner, c, if e.cls == ConstantOne then First else All);
    EnvParts(env);
    SetNotNull(env, e.inner, c.node, s);
    if e.cls != PositionInvariant {
      ghost var before, flag := s, sty;
      s := SortDo(env.doc, s, sty);
      SortedAnswers(before, flag, s, SetOf(env, e.inner, c.node), if e.cls == ConstantOne then First else All);
      SetNotNull(env, e.inner, c.node, s);
      sty := Sorted;
    }
    ty := sty;
    assert s[0..] == s && s[..0] == [];
    ns := ApplyPredicate(env, s, 0, e.cls, e.test_, EvalOnce(ty, mode));
    FilterAnswers(env, e, c.node, mode, s, sty, ns);
  }

  lemma SortedAnswers(s: seq<XNode>, ty: OrderType, t: seq<XNode>, full: set<XNode>, mode: Mode)
    requires Answers(s, ty, full, mode) && InOrder(t) && |t| == |s| && forall x :: x in t <==> x in s
    ensures Answers(t, Sorted, full, mode)
  {
    OrderedHasNoDuplicates(t, Sorted);
  }

  // ------------------------------------------------------------------ values

  /** `string_value`. */
  method NodeText(d: Table, x: XNode) returns (r: string)
    requires WellFormed(d) && ValidNode(d, x)
    ensures r == StringValue(d, x)
  {
    hide WellFormed;
    match x {
      case NullNode => r := "";
      case AttributeNode(p, k) => r := d[p].data.attributes[k].value;
      case TreeNode(n) =>
        r := d[n].data.value;
        if d[n].data.kind.DocumentNode? || d[n].data.kind.Element? {
          FirstChildIsNextRow(d, n);
          var cur := FirstChild(d, n);
          var text := "";
          while cur != -1
            invariant cur != -1 ==> n < cur < End(d, n)
            invariant text == TextBetween(d, n + 1, if cur == -1 then End(d, n) else cur)
            decreases if cur == -1 then 0 else |d| - cur
          {
            if d[cur].data.kind.Pcdata? || d[cur].data.kind.Cdata? { text := text + d[cur].data.value; }
            cur := NextInPreorder(d, cur, n);
          }
          r := r + text;
        }
    }
  }

  method EvalFirst(env: Env, e: Expr, c: Context) returns (x: XNode)
    requires ValidEnv(env) && ValidNode(env.doc, c.node) && Sound(e, NodeSetType)
    ensures x == FirstValue(env, e, c.node)
    decreases e, 2
  {
    hide WellFormed, ValidEnv, BoolOf, NumberOf, ValidNode, Keep, Precedes, DistinctAddresses, ValidNodes, Sound, SetOf;
    var ns, ty := EvalNodeSet(env, e, c, First);
    EnvParts(env);
    SetNotNull(env, e, c.node, ns);
    x := NodeSets.First(env.doc, ns, ty);
    FirstIsFirstValue(env, e, c.node, ns, ty, x);
  }

  lemma FirstIsFirstValue(env: Env, e: Expr, x: XNode, ns: seq<XNode>, ty: OrderType, r: XNode)
    requires ValidEnv(env) && ValidNode(env.doc, x) && Answers(ns, ty, SetOf(env, e, x), First)
    requires ns == [] ==> r == NullNode
    requires ns != [] ==> r in ns && forall y | y in ns && y != r :: Precedes(r, y)
    ensures r == FirstValue(env, e, x)
  {
    hide WellFormed, ValidEnv, ValidNode, SetOf, Answers, InDocumentOrder;
    var all := SetOf(env, e, x);
    AnswerEmpty(ns, ty, all, First);
    if ns != [] {
      FirstOfAnswer(ns, ty, all, First, r);
      InDocumentOrderListsSet(all);
      var listed := InDocumentOrder(all);
      assert listed != [] by { assert r in listed; }
      assert listed[0] in listed;
      if listed[0] != r {
        var i :| 0 <= i < |listed| && listed[i] == r;
        PrecedesIsStrictTotal(r, listed[0], r);
      }
    }
  }

  method EvalBoolean(env: Env, e: Expr, c: Context) returns (b: bool)
    requires ValidEnv(env) && ValidNode(env.doc, c.node) && WellTyped(e) && Classified(e)
    ensures b == BoolOf(env, e, c)
    decreases e, if TypeOf(e) == BooleanType then 1 else 4
  {
    hide WellFormed, ValidEnv, ValidNode, Keep, Precedes, DistinctAddresses, SetOf, FirstValue, StringValue, NumberOf,
         TextOf, CompareValues;
    match TypeOf(e) {
      case NumberType =>
        var n := EvalNumber(env, e, c);
        b := BoolOfNumber(n);
      case StringType =>
        var t := EvalString(env, e, c);
        b := t != "";
      case NodeSetType =>
        var ns, ty := EvalNodeSet(env, e, c, Any);
        AnswerEmpty(ns, ty, SetOf(env, e, c.node), Any);
        b := ns != [];
      case BooleanType =>
        match e {
          case BooleanConstant(k) => b := k;
          case CompareAttribute(name, value) =>
            b := EvalCompareAttribute(env, name, value, c);
          case Unary(f, e1) =>
            b := EvalBoolean(env, e1, c);
            if f.Not? { b := !b; }
          case Binary(g, l, r) =>
            b := EvalBooleanBinary(env, g, l, r, c);
        }
    }
  }

  lemma BoolOfBinary(env: Env, g: BinaryFunction, l: Expr, r: Expr, c: Context)
    requires ValidEnv(env) && ValidNode(env.doc, c.node) && TypeOfBinary(g) == BooleanType
    ensures g.Or? ==> BoolOf(env, Binary(g, l, r), c) == (BoolOf(env, l, c) || BoolOf(env, r, c))
    ensures g.And? ==> BoolOf(env, Binary(g, l, r), c) == (BoolOf(env, l, c) && BoolOf(env, r, c))
    ensures g.BeginsWith? ==> BoolOf(env, Binary(g, l, r), c) == StartsWith(TextOf(env, l, c), TextOf(env, r, c))
    ensures g.Contains? ==> BoolOf(env, Binary(g, l, r), c) == IsSubstring(TextOf(env, l, c), TextOf(env, r, c))
    ensures g.Compare? ==> BoolOf(env, Binary(g, l, r), c) == CompareValues(env, g.cmp, l, r, c)
  {
    hide ValidEnv, ValidNode, SetOf, FirstValue, NumberOf, TextOf, CompareValues, IsSubstring;
  }

  method EvalBooleanBinary(env: Env, g: BinaryFunction, l: Expr, r: Expr, c: Context) returns (b: bool)
    requires ValidEnv(env) && ValidNode(env.doc, c.node) && WellTyped(l) && Classified(l) && WellTyped(r)
             && Classified(r)
    requires TypeOfBinary(g) == BooleanType
    ensures b == BoolOf(env, Binary(g, l, r), c)
    decreases Binary(g, l, r), 0, 6
  {
    hide WellFormed, ValidEnv, ValidNode, Keep, DistinctAddresses, SetOf, FirstValue, BoolOf, NumberOf, TextOf,
         CompareValues, WellTyped, Classified, ValidNodes, StringValue, IsSubstring;
    BoolOfBinary(env, g, l, r, c);
    match g {
      case Or =>
        b := EvalBoolean(env, l, c);
        if !b { b := EvalBoolean(env, r, c); }
      case And =>
        b := EvalBoolean(env, l, c);
        if b { b := EvalBoolean(env, r, c); }
      case BeginsWith =>
        var s := EvalString(env, l, c);
        var t := EvalString(env, r, c);
        b := StartsWith(s, t);
      case Contains =>
        var s := EvalString(env, l, c);
        var t := EvalString(env, r, c);
        b := IsSubstring(s, t);
      case Compare(cmp) => b := EvalCompare(env, cmp, l, r, c, Binary(g, l, r));
    }
  }

  method EvalCompare(env: Env, cmp: Comparison, l: Expr, r: Expr, c: Context, ghost whole: Expr) returns (b: bool)
    requires ValidEnv(env) && ValidNode(env.doc, c.node) && WellTyped(l) && Classified(l) && WellTyped(r)
             && Classified(r)
    requires l < whole && r < whole
    ensures b == CompareValues(env, cmp, l, r, c)
    decreases whole, 0, 5
  {
    hide WellFormed, ValidEnv, ValidNode, Keep, DistinctAddresses, SetOf, FirstValue, NumberOf, TextOf, CompareValues,
         WellTyped, Classified, ValidNodes, StringValue;
    match cmp {
      case Greater =>
        CompareFlipped(env, l, r, c);
        b := CompareRel(env, Less, r, l, c, whole);
      case GreaterOrEqual =>
        CompareFlipped(env, l, r, c);
        b := CompareRel(env, LessOrEqual, r, l, c, whole);
      case Less => b := CompareRel(env, cmp, l, r, c, whole);
      case LessOrEqual => b := CompareRel(env, cmp, l, r, c, whole);
      case Equal => b := CompareEq(env, cmp, l, r, c, whole);
      case NotEqual => b := CompareEq(env, cmp, l, r, c, whole);
    }
  }

  lemma CompareFlipped(env: Env, l: Expr, r: Expr, c: Context)
    requires ValidEnv(env) && ValidNode(env.doc, c.node)
    ensures CompareValues(env, Greater, l, r, c) == CompareValues(env, Less, r, l, c)
    ensures CompareValues(env, GreaterOrEqual, l, r, c) == CompareValues(env, LessOrEqual, r, l, c)
  {
    FlippedOne(env, Greater, Less, l, r, c);
    FlippedOne(env, GreaterOrEqual, LessOrEqual, l, r, c);
  }

  lemma FlippedOne(env: Env, greater: Comparison, less: Comparison, l: Expr, r: Expr, c: Context)
    requires ValidEnv(env) && ValidNode(env.doc, c.node)
    requires (greater == Greater && less == Less) || (greater == GreaterOrEqual && less == LessOrEqual)
    ensures CompareValues(env, greater, l, r, c) == CompareValues(env, less, r, l, c)
  {
    hide WellFormed, ValidEnv, ValidNode, SetOf, NumberOf, TextOf, BoolOf, StringValue, CompareNumbers,
         DistinctAddresses, EqualityHolds;
    forall x, y ensures CompareNumbers(greater, x, y) == CompareNumbers(less, y, x) { NumbersFlipped(x, y); }
  }

  lemma NumbersFlipped(x: Num, y: Num)
    ensures CompareNumbers(Greater, x, y) == CompareNumbers(Less, y, x)
    ensures CompareNumbers(GreaterOrEqual, x, y) == CompareNumbers(LessOrEqual, y, x)
  {
  }

  /** `ast_opt_compare_attribute`: look the attribute up instead of evaluating a step. */
  method EvalCompareAttribute(env: Env, name: string, value: string, c: Context) returns (b: bool)
    requires ValidEnv(env) && ValidNode(env.doc, c.node)
    ensures b == HasAttributeValue(env.doc, c.node, name, value)
  {
    b := false;
    if c.node.TreeNode? {
      var n := c.node.id;
      for k := 0 to |env.doc[n].data.attributes|
        invariant AttributesFrom(env.doc, NameTest(name), n, 0) == AttributesFrom(env.doc, NameTest(name), n, k)
          || !IsXPathAttribute(name)
        invariant !IsXPathAttribute(name) ==> forall j | 0 <= j < k :: env.doc[n].data.attributes[j].name != name
      {
        var a := env.doc[n].data.attributes[k];
        if a.name == name {
          if !IsXPathAttribute(name) { NoNamespaceAttribute(env.doc, name, n, 0); }
          return a.value == value && IsXPathAttribute(a.name);
        }
      }
      if !IsXPathAttribute(name) { NoNamespaceAttribute(env.doc, name, n, 0); }
    }
  }

  lemma {:induction false} NoNamespaceAttribute(d: Table, name: string, p: nat, k: nat)
    requires p < |d| && !IsXPathAttribute(name)
    ensures AttributesFrom(d, NameTest(name), p, k) == []
    decreases |d[p].data.attributes| - k
  {
    if k < |d[p].data.attributes| { NoNamespaceAttribute(d, name, p, k + 1); }
  }

  // ------------------------------------------------------------------ comparisons

  method AnyText(env: Env, cmp: Comparison, t: string, ns: seq<XNode>) returns (b: bool)
    requires ValidEnv(env) && ValidNodes(env.doc, ns) && (cmp.Equal? || cmp.NotEqual?)
    ensures b <==> exists x | x in ns :: CompareEqual(cmp, t, StringValue(env.doc, x))
  {
    hide WellFormed, ValidNode, DistinctAddresses, StringValue, CompareEqual;
    for i := 0 to |ns|
      invariant forall x | x in ns[..i] :: !CompareEqual(cmp, t, StringValue(env.doc, x))
    {
      assert ns[i] in ns && ns[..i + 1] == ns[..i] + [ns[i]];
      var v := NodeText(env.doc, ns[i]);
      if CompareEqual(cmp, t, v) { return true; }
    }
    assert ns[..|ns|] == ns;
    return false;
  }

  method AnyNumber(env: Env, cmp: Comparison, n: Num, ns: seq<XNode>, flip: bool) returns (b: bool)
    requires ValidEnv(env) && ValidNodes(env.doc, ns)
    ensures b <==> exists x | x in ns ::
              (if flip then CompareNumbers(cmp, env.toNumber(StringValue(env.doc, x)), n)
                  else CompareNumbers(cmp, n, env.toNumber(StringValue(env.doc, x))))
  {
    hide WellFormed, ValidNode, DistinctAddresses, StringValue, CompareNumbers;
    for i := 0 to |ns|
      invariant forall x | x in ns[..i] ::
        !(if flip then CompareNumbers(cmp, env.toNumber(StringValue(env.doc, x)), n)
            else CompareNumbers(cmp, n, env.toNumber(StringValue(env.doc, x))))
    {
      assert ns[i] in ns && ns[..i + 1] == ns[..i] + [ns[i]];
      var v := NodeText(env.doc, ns[i]);
      if (if flip then CompareNumbers(cmp, env.toNumber(v), n) else CompareNumbers(cmp, n, env.toNumber(v))) {
        return true;
      }
    }
    assert ns[..|ns|] == ns;
    return false;
  }

  method AnyTextPair(env: Env, cmp: Comparison, ls: seq<XNode>, rs: seq<XNode>) returns (b: bool)
    requires ValidEnv(env) && ValidNodes(env.doc, ls) && ValidNodes(env.doc, rs) && (cmp.Equal? || cmp.NotEqual?)
    ensures b <==> exists x, y | x in ls && y in rs ::
            CompareEqual(cmp, StringValue(env.doc, x), StringValue(env.doc, y))
  {
    hide WellFormed, ValidNode, DistinctAddresses, StringValue, CompareEqual;
    for i := 0 to |ls|
      invariant forall x, y | x in ls[..i] && y in rs ::
                !CompareEqual(cmp, StringValue(env.doc, x), StringValue(env.doc, y))
    {
      assert ls[i] in ls && ls[..i + 1] == ls[..i] + [ls[i]];
      var v := NodeText(env.doc, ls[i]);
      b := AnyText(env, cmp, v, rs);
      if b { return; }
    }
    assert ls[..|ls|] == ls;
    return false;
  }

  method AnyNumberPair(env: Env, cmp: Comparison, ls: seq<XNode>, rs: seq<XNode>) returns (b: bool)
    requires ValidEnv(env) && ValidNodes(env.doc, ls) && ValidNodes(env.doc, rs)
    ensures b <==> exists x, y | x in ls && y in rs ::
            CompareNumbers(cmp, env.toNumber(StringValue(env.doc, x)), env.toNumber(StringValue(env.doc, y)))
  {
    hide WellFormed, ValidNode, DistinctAddresses, StringValue, CompareNumbers;
    for i := 0 to |ls|
      invariant forall x, y | x in ls[..i] && y in rs ::
                !CompareNumbers(cmp, env.toNumber(StringValue(env.doc, x)), env.toNumber(StringValue(env.doc, y)))
    {
      assert ls[i] in ls && ls[..i + 1] == ls[..i] + [ls[i]];
      var v := NodeText(env.doc, ls[i]);
      b := AnyNumber(env, cmp, env.toNumber(v), rs, false);
      if b { return; }
    }
    assert ls[..|ls|] == ls;
    return false;
  }

  method EvalAll(env: Env, e: Expr, c: Context) returns (ns: seq<XNode>)
    requires ValidEnv(env) && ValidNode(env.doc, c.node) && Sound(e, NodeSetType)
    ensures ValidNodes(env.doc, ns) && (forall x :: x in ns <==> x in SetOf(env, e, c.node))
            && |ns| == |SetOf(env, e, c.node)|
    decreases e, 2
  {
    hide WellFormed, ValidEnv, BoolOf, NumberOf, ValidNode, Keep, Precedes, DistinctAddresses, ValidNodes, Sound, SetOf;
    var ty;
    ns, ty := EvalNodeSet(env, e, c, All);
    SetNotNull(env, e, c.node, ns);
    AnswerCount(ns, ty, SetOf(env, e, c.node));
  }

  /** What a comparison of two node sets means, given listings of both. */
  lemma EqualityOfSets(env: Env, cmp: Comparison, l: Expr, r: Expr, c: Context, ls: seq<XNode>, rs: seq<XNode>)
    requires ValidEnv(env) && ValidNode(env.doc, c.node) && ValidNodes(env.doc, ls) && ValidNodes(env.doc, rs)
    requires (cmp.Equal? || cmp.NotEqual?) && TypeOf(l) == NodeSetType && TypeOf(r) == NodeSetType
    requires (forall x :: x in ls <==> x in SetOf(env, l, c.node))
             && (forall y :: y in rs <==> y in SetOf(env, r, c.node))
    ensures CompareValues(env, cmp, l, r, c)
            <==> exists x, y | x in ls && y in rs :: CompareEqual(cmp, StringValue(env.doc, x), StringValue(env.doc, y))
  {
    hide WellFormed, ValidEnv, ValidNode, ValidNodes, DistinctAddresses, SetOf, StringValue, CompareNumbers,
         CompareEqual, RelationHolds, BoolOf, NumberOf, TextOf, FirstValue;
  }

  lemma EqualityOfNumber(env: Env, cmp: Comparison, l: Expr, r: Expr, c: Context, rs: seq<XNode>)
    requires ValidEnv(env) && ValidNode(env.doc, c.node) && ValidNodes(env.doc, rs)
    requires (cmp.Equal? || cmp.NotEqual?) && TypeOf(l) == NumberType && TypeOf(r) == NodeSetType
    requires forall y :: y in rs <==> y in SetOf(env, r, c.node)
    ensures CompareValues(env, cmp, l, r, c)
            <==> exists y | y in rs :: CompareNumbers(cmp, NumberOf(env, l, c), env.toNumber(StringValue(env.doc, y)))
  {
    hide WellFormed, ValidEnv, ValidNode, ValidNodes, DistinctAddresses, SetOf, StringValue, CompareNumbers,
         CompareEqual, RelationHolds, BoolOf, NumberOf, TextOf, FirstValue;
  }

  lemma EqualityOfText(env: Env, cmp: Comparison, l: Expr, r: Expr, c: Context, rs: seq<XNode>)
    requires ValidEnv(env) && ValidNode(env.doc, c.node) && ValidNodes(env.doc, rs)
    requires (cmp.Equal? || cmp.NotEqual?) && TypeOf(l) == StringType && TypeOf(r) == NodeSetType
    requires forall y :: y in rs <==> y in SetOf(env, r, c.node)
    ensures CompareValues(env, cmp, l, r, c)
            <==> exists y | y in rs :: CompareEqual(cmp, TextOf(env, l, c), StringValue(env.doc, y))
  {
    hide WellFormed, ValidEnv, ValidNode, ValidNodes, DistinctAddresses, SetOf, StringValue, CompareNumbers,
         CompareEqual, RelationHolds, BoolOf, NumberOf, TextOf, FirstValue;
  }

  lemma EqualityOfValues(env: Env, cmp: Comparison, l: Expr, r: Expr, c: Context)
    requires ValidEnv(env) && ValidNode(env.doc, c.node) && (cmp.Equal? || cmp.NotEqual?)
    requires TypeOf(l) == BooleanType || TypeOf(r) == BooleanType
             || (TypeOf(l) != NodeSetType && TypeOf(r) != NodeSetType)
    ensures CompareValues(env, cmp, l, r, c)
            == if TypeOf(l) == BooleanType
               || TypeOf(r) == BooleanType then CompareEqual(cmp, BoolOf(env, l, c), BoolOf(env, r, c))
               else if TypeOf(l) == NumberType || TypeOf(r) == NumberType
                    then CompareNumbers(cmp, NumberOf(env, l, c), NumberOf(env, r, c))
               else CompareEqual(cmp, TextOf(env, l, c), TextOf(env, r, c))
  {
    hide WellFormed, ValidEnv, ValidNode, ValidNodes, DistinctAddresses, SetOf, StringValue, CompareNumbers,
         CompareEqual, RelationHolds, BoolOf, NumberOf, TextOf, FirstValue;
  }

  /** `compare_eq`, which puts a lone node set on the right. */
  method CompareEq(env: Env, cmp: Comparison, l: Expr, r: Expr, c: Context, ghost whole: Expr) returns (b: bool)
    requires ValidEnv(env) && ValidNode(env.doc, c.node) && WellTyped(l) && Classified(l) && WellTyped(r)
             && Classified(r)
    requires (cmp.Equal? || cmp.NotEqual?) && l < whole && r < whole
    ensures b == CompareValues(env, cmp, l, r, c)
    decreases whole, 0, 4
  {
    hide WellFormed, ValidEnv, ValidNode, ValidNodes, Keep, DistinctAddresses, SetOf, BoolOf, NumberOf, TextOf,
         WellTyped, Classified, StringValue, CompareNumbers, CompareEqual, CompareValues;
    var lhs, rhs := l, r;
    if TypeOf(l) != NodeSetType && TypeOf(r) != NodeSetType {
      b := CompareEqValues(env, cmp, l, r, c, whole);
    } else if TypeOf(l) == NodeSetType && TypeOf(r) == NodeSetType {
      var ls := EvalAll(env, l, c);
      var rs := EvalAll(env, r, c);
      EqualityOfSets(env, cmp, l, r, c, ls, rs);
      b := AnyTextPair(env, cmp, ls, rs);
    } else {
      if TypeOf(l) == NodeSetType { lhs, rhs := r, l; }
      CompareEqSwap(env, cmp, l, r, c);
      b := CompareEqMixed(env, cmp, lhs, rhs, c, whole);
    }
  }

  method CompareEqValues(env: Env, cmp: Comparison, l: Expr, r: Expr, c: Context, ghost whole: Expr) returns (b: bool)
    requires ValidEnv(env) && ValidNode(env.doc, c.node) && WellTyped(l) && Classified(l) && WellTyped(r)
             && Classified(r)
    requires TypeOf(l) != NodeSetType && TypeOf(r) != NodeSetType
    requires (cmp.Equal? || cmp.NotEqual?) && l < whole && r < whole
    ensures b == CompareValues(env, cmp, l, r, c)
    decreases whole, 0, 2
  {
    hide WellFormed, ValidEnv, ValidNode, Keep, DistinctAddresses, SetOf, BoolOf, NumberOf, TextOf, WellTyped,
         Classified, StringValue, CompareNumbers, CompareEqual, CompareValues;
    EqualityOfValues(env, cmp, l, r, c);
    if TypeOf(l) == BooleanType || TypeOf(r) == BooleanType {
      var x := EvalBoolean(env, l, c);
      var y := EvalBoolean(env, r, c);
      b := CompareEqual(cmp, x, y);
    } else if TypeOf(l) == NumberType || TypeOf(r) == NumberType {
      var x := EvalNumber(env, l, c);
      var y := EvalNumber(env, r, c);
      b := CompareNumbers(cmp, x, y);
    } else {
      var x := EvalString(env, l, c);
      var y := EvalString(env, r, c);
      b := CompareEqual(cmp, x, y);
    }
  }

  method CompareEqMixed(env: Env, cmp: Comparison, l: Expr, r: Expr, c: Context, ghost whole: Expr) returns (b: bool)
    requires ValidEnv(env) && ValidNode(env.doc, c.node) && WellTyped(l) && Classified(l) && WellTyped(r)
             && Classified(r)
    requires TypeOf(l) != NodeSetType && TypeOf(r) == NodeSetType
    requires (cmp.Equal? || cmp.NotEqual?) && l < whole && r < whole
    ensures b == CompareValues(env, cmp, l, r, c)
    decreases whole, 0, 3
  {
    hide WellFormed, ValidEnv, ValidNode, ValidNodes, Keep, DistinctAddresses, SetOf, BoolOf, NumberOf, TextOf,
         WellTyped, Classified, StringValue, CompareNumbers, CompareEqual, CompareValues;
    if TypeOf(l) == BooleanType {
      EqualityOfValues(env, cmp, l, r, c);
      var x := EvalBoolean(env, l, c);
      var y := EvalBoolean(env, r, c);
      b := CompareEqual(cmp, x, y);
    } else {
      var rs := EvalAll(env, r, c);
      if TypeOf(l) == NumberType {
        EqualityOfNumber(env, cmp, l, r, c, rs);
        var x := EvalNumber(env, l, c);
        b := AnyNumber(env, cmp, x, rs, false);
      } else {
        EqualityOfText(env, cmp, l, r, c, rs);
        var x := EvalString(env, l, c);
        b := AnyText(env, cmp, x, rs);
      }
    }
  }

  lemma CompareEqSwap(env: Env, cmp: Comparison, l: Expr, r: Expr, c: Context)
    requires ValidEnv(env) && ValidNode(env.doc, c.node) && (cmp.Equal? || cmp.NotEqual?)
    requires TypeOf(l) == NodeSetType || TypeOf(r) == NodeSetType
    ensures CompareValues(env, cmp, l, r, c) == CompareValues(env, cmp, r, l, c)
  {
    hide WellFormed, ValidEnv, ValidNode, SetOf, NumberOf, TextOf, BoolOf, StringValue;
  }

  lemma RelationIsComparison(env: Env, cmp: Comparison, l: Expr, r: Expr, c: Context)
    requires ValidEnv(env) && ValidNode(env.doc, c.node) && !cmp.Equal? && !cmp.NotEqual?
    ensures CompareValues(env, cmp, l, r, c) == RelationHolds(env, cmp, l, r, c)
  {
    hide WellFormed, ValidEnv, ValidNode, ValidNodes, DistinctAddresses, SetOf, StringValue, CompareNumbers,
         CompareEqual, EqualityHolds, RelationHolds, BoolOf, NumberOf, TextOf, FirstValue;
  }

  lemma RelationOfSets(env: Env, cmp: Comparison, l: Expr, r: Expr, c: Context, ls: seq<XNode>, rs: seq<XNode>)
    requires ValidEnv(env) && ValidNode(env.doc, c.node) && ValidNodes(env.doc, ls) && ValidNodes(env.doc, rs)
    requires !cmp.Equal? && !cmp.NotEqual? && TypeOf(l) == NodeSetType && TypeOf(r) == NodeSetType
    requires (forall x :: x in ls <==> x in SetOf(env, l, c.node))
             && (forall y :: y in rs <==> y in SetOf(env, r, c.node))
    ensures CompareValues(env, cmp, l, r, c)
            <==> exists x, y | x in ls && y in rs ::
                 CompareNumbers(cmp, env.toNumber(StringValue(env.doc, x)), env.toNumber(StringValue(env.doc, y)))
  {
    RelationIsComparison(env, cmp, l, r, c);
    hide WellFormed, ValidEnv, ValidNode, ValidNodes, DistinctAddresses, SetOf, StringValue, CompareNumbers,
         CompareEqual, CompareValues, EqualityHolds, BoolOf, NumberOf, TextOf, FirstValue;
  }

  lemma RelationOfSetLeft(env: Env, cmp: Comparison, l: Expr, r: Expr, c: Context, ls: seq<XNode>)
    requires ValidEnv(env) && ValidNode(env.doc, c.node) && ValidNodes(env.doc, ls)
    requires !cmp.Equal? && !cmp.NotEqual? && TypeOf(l) == NodeSetType && TypeOf(r) != NodeSetType
    requires forall x :: x in ls <==> x in SetOf(env, l, c.node)
    ensures CompareValues(env, cmp, l, r, c)
            <==> exists x | x in ls :: CompareNumbers(cmp, env.toNumber(StringValue(env.doc, x)), NumberOf(env, r, c))
  {
    RelationIsComparison(env, cmp, l, r, c);
    hide WellFormed, ValidEnv, ValidNode, ValidNodes, DistinctAddresses, SetOf, StringValue, CompareNumbers,
         CompareEqual, CompareValues, EqualityHolds, BoolOf, NumberOf, TextOf, FirstValue;
  }

  lemma RelationOfSetRight(env: Env, cmp: Comparison, l: Expr, r: Expr, c: Context, rs: seq<XNode>)
    requires ValidEnv(env) && ValidNode(env.doc, c.node) && ValidNodes(env.doc, rs)
    requires !cmp.Equal? && !cmp.NotEqual? && TypeOf(l) != NodeSetType && TypeOf(r) == NodeSetType
    requires forall y :: y in rs <==> y in SetOf(env, r, c.node)
    ensures CompareValues(env, cmp, l, r, c)
            <==> exists y | y in rs :: CompareNumbers(cmp, NumberOf(env, l, c), env.toNumber(StringValue(env.doc, y)))
  {
    RelationIsComparison(env, cmp, l, r, c);
    hide WellFormed, ValidEnv, ValidNode, ValidNodes, DistinctAddresses, SetOf, StringValue, CompareNumbers,
         CompareEqual, CompareValues, EqualityHolds, BoolOf, NumberOf, TextOf, FirstValue;
  }

  lemma RelationOfValues(env: Env, cmp: Comparison, l: Expr, r: Expr, c: Context)
    requires ValidEnv(env) && ValidNode(env.doc, c.node)
    requires !cmp.Equal? && !cmp.NotEqual? && TypeOf(l) != NodeSetType && TypeOf(r) != NodeSetType
    ensures CompareValues(env, cmp, l, r, c) == CompareNumbers(cmp, NumberOf(env, l, c), NumberOf(env, r, c))
  {
    RelationIsComparison(env, cmp, l, r, c);
    hide WellFormed, ValidEnv, ValidNode, ValidNodes, DistinctAddresses, SetOf, StringValue, CompareNumbers,
         CompareEqual, CompareValues, EqualityHolds, BoolOf, NumberOf, TextOf, FirstValue;
  }

  /** `compare_rel` for less and less-or-equal; the other two swap their operands first. */
  method CompareRel(env: Env, cmp: Comparison, l: Expr, r: Expr, c: Context, ghost whole: Expr) returns (b: bool)
    requires ValidEnv(env) && ValidNode(env.doc, c.node) && WellTyped(l) && Classified(l) && WellTyped(r)
             && Classified(r)
    requires !cmp.Equal? && !cmp.NotEqual? && l < whole && r < whole
    ensures b == CompareValues(env, cmp, l, r, c)
    decreases whole, 0, 3
  {
    hide WellFormed, ValidEnv, ValidNode, ValidNodes, Keep, DistinctAddresses, SetOf, BoolOf, NumberOf, TextOf,
         WellTyped, Classified, StringValue, CompareNumbers, CompareEqual, CompareValues;
    if TypeOf(l) != NodeSetType && TypeOf(r) != NodeSetType {
      RelationOfValues(env, cmp, l, r, c);
      var x := EvalNumber(env, l, c);
      var y := EvalNumber(env, r, c);
      b := CompareNumbers(cmp, x, y);
    } else if TypeOf(l) == NodeSetType && TypeOf(r) == NodeSetType {
      var ls := EvalAll(env, l, c);
      var rs := EvalAll(env, r, c);
      RelationOfSets(env, cmp, l, r, c, ls, rs);
      b := AnyNumberPair(env, cmp, ls, rs);
    } else if TypeOf(l) != NodeSetType {
      var x := EvalNumber(env, l, c);
      var rs := EvalAll(env, r, c);
      RelationOfSetRight(env, cmp, l, r, c, rs);
      b := AnyNumber(env, cmp, x, rs, false);
    } else {
      var ls := EvalAll(env, l, c);
      var y := EvalNumber(env, r, c);
      RelationOfSetLeft(env, cmp, l, r, c, ls);
      b := AnyNumber(env, cmp, y, ls, true);
    }
  }

  // ------------------------------------------------------------------ numbers and strings

  method EvalNumber(env: Env, e: Expr, c: Context) returns (n: Num)
    requires ValidEnv(env) && ValidNode(env.doc, c.node) && WellTyped(e) && Classified(e)
    ensures n == NumberOf(env, e, c)
    decreases e, if TypeOf(e) == NumberType then 3 else 6
  {
    hide WellFormed, ValidEnv, ValidNode, Keep, DistinctAddresses, SetOf, BoolOf, TextOf, FirstValue;
    if TypeOf(e) == BooleanType {
      var b := EvalBoolean(env, e, c);
      n := NumberOfBool(b);
    } else if TypeOf(e) != NumberType {
      var t := EvalString(env, e, c);
      n := env.toNumber(t);
    } else {
      match e {
        case NumberConstant(k) => n := k;
        case Position => n := Real(c.position as real);
        case Last => n := Real(c.size as real);
        case Unary(f, e1) =>
          if f.Count? {
            var ns := EvalAll(env, e1, c);
            n := Real(|ns| as real);
          } else if f.StringLength? {
            var t := EvalString(env, e1, c);
            n := Real(|t| as real);
          } else {
            n := EvalNumber(env, e1, c);
            if f.Negate? { n := env.negate(n); }
          }
        case Binary(g, l, r) =>
          var x := EvalNumber(env, l, c);
          var y := EvalNumber(env, r, c);
          n := env.arithmetic(g.op, x, y);
      }
    }
  }

  method EvalString(env: Env, e: Expr, c: Context) returns (t: string)
    requires ValidEnv(env) && ValidNode(env.doc, c.node) && WellTyped(e) && Classified(e)
    ensures t == TextOf(env, e, c)
    decreases e, if TypeOf(e) == StringType then 3 else 5
  {
    hide WellFormed, ValidEnv, ValidNode, Keep, DistinctAddresses, SetOf, BoolOf, NumberOf, FirstValue, StringValue;
    if TypeOf(e) == BooleanType {
      var b := EvalBoolean(env, e, c);
      t := if b then "true" else "false";
    } else if TypeOf(e) == NumberType {
      var n := EvalNumber(env, e, c);
      t := env.toText(n);
    } else if TypeOf(e) == NodeSetType {
      var x := EvalFirst(env, e, c);
      EnvParts(env);
      t := NodeText(env.doc, x);
    } else {
      match e {
        case StringConstant(s) => t := s;
        case Unary(f, e1) =>
          if f.Name? {
            var x := EvalFirst(env, e1, c);
            t := QualifiedName(env.doc, x);
          } else {
            t := EvalString(env, e1, c);
          }
        case Binary(_, l, r) =>
          var x := EvalString(env, l, c);
          var y := EvalString(env, r, c);
          t := x + y;
        case Translate(e1, f, to) =>
          var s := EvalString(env, e1, c);
          var from := EvalString(env, f, c);
          var into := EvalString(env, to, c);
          t := TranslateBuffer(s, from, into);
        case TranslateTable(e1, table) =>
          var s := EvalString(env, e1, c);
          t := TranslateBufferByTable(s, table);
      }
    }
  }

  /** `translate`. */
  method TranslateBuffer(s: string, from: string, to: string) returns (t: string)
    ensures t == TranslateText(s, from, to)
  {
    t := "";
    for k := 0 to |s|
      invariant t == TranslateText(s[..k], from, to)
    {
      assert s[..k + 1][..k] == s[..k];
      var pos := IndexOf(from, s[k]);
      if pos == |from| {
        t := t + [s[k]];
      } else if pos < |to| {
        t := t + [to[pos]];
      }
    }
    assert s[..|s|] == s;
  }

  /** `translate_table`. */
  method TranslateBufferByTable(s: string, table: seq<nat>) returns (t: string)
    requires ValidTable(table)
    ensures t == TableText(s, table)
  {
    t := "";
    for k := 0 to |s|
      invariant t == TableText(s[..k], table)
    {
      assert s[..k + 1][..k] == s[..k];
      if s[k] as int < 128 {
        var code := table[s[k] as int];
        if code != 128 { t := t + [code as char]; }
      } else {
        t := t + [s[k]];
      }
    }
    assert s[..|s|] == s;
  }

  // ------------------------------------------------------------------ queries

  /** A compiled query evaluated for all its nodes: optimizer and evaluator together answer with the
    meaning of the query as written. */
  method SelectNodes(env: Env, query: Expr, x: XNode) returns (ns: seq<XNode>, ty: OrderType)
    requires ValidEnv(env) && ValidNode(env.doc, x) && WellTyped(query) && TypeOf(query) == NodeSetType
    ensures NoDuplicates(ns) && Truthful(ns, ty)
    ensures forall y :: y in ns <==> y in SetOf(env, query, x)
  {
    hide WellFormed, ValidEnv, ValidNode, SetOf, Optimize, BoolOf, NumberOf, TextOf;
    OptimizeKeepsTypes(query);
    OptimizeSame(env, query, Context(x, 1, 1));
    ns, ty := EvalNodeSet(env, Optimize(query), Context(x, 1, 1), All);
  }

  /** A compiled query evaluated for its first node only. */
  method SelectNode(env: Env, query: Expr, x: XNode) returns (r: XNode)
    requires ValidEnv(env) && ValidNode(env.doc, x) && WellTyped(query) && TypeOf(query) == NodeSetType
    ensures SetOf(env, query, x) == {} ==> r == NullNode
    ensures SetOf(env, query, x) != {} ==> IsFirst(r, SetOf(env, query, x))
  {
    hide WellFormed, ValidEnv, ValidNode, SetOf, Optimize, BoolOf, NumberOf, TextOf, InDocumentOrder;
    OptimizeKeepsTypes(query);
    OptimizeSame(env, query, Context(x, 1, 1));
    var ns, ty := EvalNodeSet(env, Optimize(query), Context(x, 1, 1), First);
    EnvParts(env);
    SetNotNull(env, Optimize(query), x, ns);
    r := NodeSets.First(env.doc, ns, ty);
    AnswerEmpty(ns, ty, SetOf(env, query, x), First);
    if ns != [] { FirstOfAnswer(ns, ty, SetOf(env, query, x), First, r); }
  }

  /** A compiled query evaluated as a condition. */
  method Test(env: Env, query: Expr, x: XNode) returns (b: bool)
    requires ValidEnv(env) && ValidNode(env.doc, x) && WellTyped(query)
    ensures b == BoolOf(env, query, Context(x, 1, 1))
  {
    hide WellFormed, ValidEnv, ValidNode, SetOf, Optimize, BoolOf, NumberOf, TextOf;
    OptimizeKeepsTypes(query);
    OptimizeSame(env, query, Context(x, 1, 1));
    b := EvalBoolean(env, Optimize(query), Context(x, 1, 1));
  }
}
