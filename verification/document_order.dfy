/** Document order: the order of rows, with the attributes of a node after it and before its children.

  `NodeIsBefore` and `Before` are the pointer-climbing comparison of the engine; `Precedes` is what
  they are proved to compute. */
module DocumentOrder {
  import opened Document
  import opened Axes

  // ------------------------------------------------------------------ the order

  function Major(x: XNode): int {
    match x
    case NullNode => -1
    case TreeNode(i) => i
    case AttributeNode(p, _) => p
  }

  function Minor(x: XNode): int {
    match x
    case AttributeNode(_, k) => k + 1
    case _ => 0
  }

  predicate Precedes(x: XNode, y: XNode) {
    Major(x) < Major(y) || (Major(x) == Major(y) && Minor(x) < Minor(y))
  }

  ghost predicate InOrder(s: seq<XNode>) {
    forall i, j | 0 <= i < j < |s| :: Precedes(s[i], s[j])
  }

  ghost predicate InReverseOrder(s: seq<XNode>) {
    forall i, j | 0 <= i < j < |s| :: Precedes(s[j], s[i])
  }

  /** Strict and total on nodes, with a node before its attributes and these before its children. */
  lemma PrecedesIsStrictTotal(x: XNode, y: XNode, z: XNode)
    ensures !Precedes(x, x)
    ensures Precedes(x, y) && Precedes(y, z) ==> Precedes(x, z)
    ensures Precedes(x, y) || Precedes(y, x) || x == y
  {
  }

  lemma AttributesBetweenElementAndChildren(d: Table, p: nat, k: nat, j: nat)
    requires WellFormed(d) && p < |d| && 0 < j < |d|
    ensures Precedes(TreeNode(p), AttributeNode(p, k))
    ensures IsAncestorOrSelf(d, p, j) && j != p ==> Precedes(AttributeNode(p, k), TreeNode(j))
  {
    SubtreeIsInterval(d, p, j);
  }

  // ------------------------------------------------------------------ axes and order

  lemma {:induction false} AscendingInOrder(s: set<nat>, lo: nat, hi: nat)
    ensures InOrder(Ascending(s, lo, hi))
  {
    if lo < hi {
      AscendingInOrder(s, lo, hi - 1);
      forall x | x in Ascending(s, lo, hi - 1) ensures x.TreeNode? && x.id < hi - 1 {
        AscendingMembers(s, lo, hi - 1, x);
      }
    }
  }

  lemma {:induction false} DescendingInOrder(s: set<nat>, lo: nat, hi: nat)
    ensures InReverseOrder(Descending(s, lo, hi))
    decreases hi - lo
  {
    if lo < hi {
      DescendingInOrder(s, lo + 1, hi);
      forall x | x in Descending(s, lo + 1, hi) ensures x.TreeNode? && x.id > lo {
        DescendingMembers(s, lo + 1, hi, x);
      }
    }
  }

  lemma {:induction false} AttributesInOrder(d: Table, test: NodeTest, p: nat, k: nat)
    requires p < |d|
    ensures InOrder(AttributesFrom(d, test, p, k))
    ensures forall x | x in AttributesFrom(d, test, p, k) ::
            x.AttributeNode? && x.owner == p && k <= x.index < |d[p].data.attributes|
    decreases |d[p].data.attributes| - k
  {
    if k < |d[p].data.attributes| { AttributesInOrder(d, test, p, k + 1); }
  }

  /** What is on an axis of a tree node: the declarative axis, filtered by the node test. */
  lemma TreeAxisMembers(d: Table, axis: Axis, test: NodeTest, n: nat, j: nat)
    requires WellFormed(d) && n < |d| && j < |d| && !axis.AttributeAxis?
    ensures TreeNode(j) in TreeAxis(d, axis, test, n) <==> OnAxis(d, axis, n, j) && Matches(test, d[j].data)
  {
    AscendingMembers(Selected(d, axis, test, n), 0, |d|, TreeNode(j));
    DescendingMembers(Selected(d, axis, test, n), 0, |d|, TreeNode(j));
  }

  lemma TreeAxisOnlyTreeNodes(d: Table, axis: Axis, test: NodeTest, n: nat)
    requires WellFormed(d) && n < |d| && !axis.AttributeAxis?
    ensures forall x | x in TreeAxis(d, axis, test, n) :: x.TreeNode? && x.id < |d| && OnAxis(d, axis, n, x.id)
  {
    forall x | x in TreeAxis(d, axis, test, n) ensures x.TreeNode? && x.id < |d| && OnAxis(d, axis, n, x.id) {
      AscendingMembers(Selected(d, axis, test, n), 0, |d|, x);
      DescendingMembers(Selected(d, axis, test, n), 0, |d|, x);
    }
  }

  /** Forward axes come out in document order, reverse axes in reverse document order, and every node
    of an axis is a node of the document. */
  lemma AxisNodesOrdered(d: Table, axis: Axis, test: NodeTest, x: XNode)
    requires WellFormed(d) && ValidNode(d, x)
    ensures var ns := AxisNodes(d, axis, test, x);
            && (if IsReverse(axis) then InReverseOrder(ns) else InOrder(ns))
            && (forall y | y in ns :: ValidNode(d, y) && !y.NullNode?)
  {
    match x {
      case NullNode =>
      case TreeNode(n) =>
        TreeAxisOrdered(d, axis, test, n);
      case AttributeNode(p, k) =>
        AttributeStepOrdered(d, axis, test, p, k);
    }
  }

  lemma TreeAxisOrdered(d: Table, axis: Axis, test: NodeTest, n: nat)
    requires WellFormed(d) && n < |d|
    ensures var ns := TreeAxis(d, axis, test, n);
            && (if IsReverse(axis) then InReverseOrder(ns) else InOrder(ns))
            && (forall y | y in ns :: ValidNode(d, y) && !y.NullNode?)
  {
    if axis.AttributeAxis? {
      AttributesInOrder(d, test, n, 0);
    } else {
      TreeAxisOnlyTreeNodes(d, axis, test, n);
      AscendingInOrder(Selected(d, axis, test, n), 0, |d|);
      DescendingInOrder(Selected(d, axis, test, n), 0, |d|);
    }
  }

  lemma AttributeStepOrdered(d: Table, axis: Axis, test: NodeTest, p: nat, k: nat)
    requires WellFormed(d) && p < |d| && k < |d[p].data.attributes|
    ensures var ns := AttributeStep(d, axis, test, p, k);
            && (if IsReverse(axis) then InReverseOrder(ns) else InOrder(ns))
            && (forall y | y in ns :: ValidNode(d, y) && !y.NullNode?)
  {
    match axis {
      case Following =>
        var s := set j | p < j < |d| && Matches(test, d[j].data);
        AfterStartTag(d, test, p, s);
        AscendingInOrder(s, 0, |d|);
        TreeAxisOrdered(d, Descendant, test, p);
        TreeAxisOrdered(d, Following, test, p);
      case Ancestor =>
        TreeAxisOrdered(d, AncestorOrSelf, test, p);
      case AncestorOrSelf =>
        TreeAxisOrdered(d, AncestorOrSelf, test, p);
        TreeAxisOnlyTreeNodes(d, AncestorOrSelf, test, p);
        forall y | y in TreeAxis(d, AncestorOrSelf, test, p) ensures Precedes(y, AttributeNode(p, k)) {
          SubtreeIsInterval(d, y.id, p);
        }
      case ParentAxis =>
        TreeAxisOrdered(d, SelfAxis, test, p);
      case Preceding =>
        TreeAxisOrdered(d, Preceding, test, p);
      case _ =>
    }
  }

  /** The five axes partition the document (section 2.2 of XPath 1.0): for every node `n`, every node
    of the tree is listed by exactly one of the self, ancestor, descendant, following and preceding
    walks, and `AxisNodesOrdered` says none lists it twice. */
  lemma AxesPartitionDocument(d: Table, n: nat, j: nat)
    requires WellFormed(d) && n < |d| && j < |d|
    ensures var on := (axis: Axis) => (if TreeNode(j) in AxisNodes(d, axis, TypeNode, TreeNode(n)) then 1 else 0);
            on(SelfAxis) + on(Ancestor) + on(Descendant) + on(Following) + on(Preceding) == 1
  {
    TreeAxisMembers(d, SelfAxis, TypeNode, n, j);
    TreeAxisMembers(d, Ancestor, TypeNode, n, j);
    TreeAxisMembers(d, Descendant, TypeNode, n, j);
    TreeAxisMembers(d, Following, TypeNode, n, j);
    TreeAxisMembers(d, Preceding, TypeNode, n, j);
    SubtreeIsInterval(d, n, j);
    SubtreeIsInterval(d, j, n);
  }

  // ------------------------------------------------------------------ node_is_before

  function Depth(d: Table, i: nat): nat
    requires WellFormed(d) && i < |d|
    decreases i
  {
    if i == 0 then 0 else 1 + Depth(d, d[i].parent)
  }

  /** Going up from two nodes in separate subtrees does not change which comes first. */
  lemma OrderOfSeparateSubtrees(d: Table, l: nat, r: nat, la: nat, ra: nat)
    requires WellFormed(d) && l < |d| && r < |d| && la < |d| && ra < |d|
    requires IsAncestorOrSelf(d, la, l) && IsAncestorOrSelf(d, ra, r)
    requires Depth(d, la) == Depth(d, ra) && la != ra
    ensures l < r <==> la < ra
  {
    SubtreeIsInterval(d, la, l);
    SubtreeIsInterval(d, ra, r);
    SubtreeIsInterval(d, la, ra);
    SubtreeIsInterval(d, ra, la);
    if IsAncestorOrSelf(d, la, ra) { AncestorIsHigher(d, la, ra); }
    if IsAncestorOrSelf(d, ra, la) { AncestorIsHigher(d, ra, la); }
  }

  lemma {:induction false} AncestorIsHigher(d: Table, a: nat, j: nat)
    requires WellFormed(d) && a < |d| && j < |d| && IsAncestorOrSelf(d, a, j)
    ensures a == j || Depth(d, a) < Depth(d, j)
    decreases j
  {
    if a != j { AncestorIsHigher(d, a, d[j].parent); }
  }

  /** `node_is_before_sibling`: scan the two sibling chains in step. */
  method NodeIsBeforeSibling(d: Table, ln: nat, rn: nat) returns (before: bool)
    requires WellFormed(d) && 0 < ln < |d| && 0 < rn < |d| && ln != rn
    requires Parent(d, ln) == Parent(d, rn)
    ensures before <==> ln < rn
  {
    var ls: int, rs: int := ln, rn;
    ghost var p := d[ln].parent;
    while ls != -1 && rs != -1
      invariant ls == -1 || (ln <= ls < |d| && d[ls].parent == p)
      invariant rs == -1 || (rn <= rs < |d| && d[rs].parent == p)
      invariant rn >= (if ls == -1 then |d| else ls) || rn < ln
      invariant ln >= (if rs == -1 then |d| else rs) || ln < rn
      decreases (if ls == -1 then 0 else 1 + |d| - ls)
    {
      if ls == rn { return true; }
      if rs == ln { return false; }
      NoneBeforeFirst(d, p, ls + 1);
      NoneBeforeFirst(d, p, rs + 1);
      ls := NextSibling(d, ls);
      rs := NextSibling(d, rs);
    }
    return rs == -1;
  }

  /** `node_is_before`: climb both parent chains in step; if one runs out first, lift the deeper node
    by the difference of depths and climb again. */
  method NodeIsBefore(d: Table, l: nat, r: nat) returns (before: bool)
    requires WellFormed(d) && l < |d| && r < |d| && l != r
    ensures before <==> l < r
  {
    hide End;
    var lp: int, rp: int := l, r;
    while lp != -1 && rp != -1 && Parent(d, lp) != Parent(d, rp)
      invariant -1 <= lp < |d| && -1 <= rp < |d|
      invariant lp != -1 ==> IsAncestorOrSelf(d, lp, l)
      invariant rp != -1 ==> IsAncestorOrSelf(d, rp, r)
      invariant Height(d, lp) - Height(d, rp) == Depth(d, l) - Depth(d, r)
      invariant lp != rp
      decreases lp
    {
      lp := Up(d, lp, l);
      rp := Up(d, rp, r);
    }
    if lp != -1 && rp != -1 {
      SiblingsSameDepth(d, lp, rp);
      OrderOfSeparateSubtrees(d, l, r, lp, rp);
      before := NodeIsBeforeSibling(d, lp, rp);
      return;
    }
    var leftHigher := lp == -1;
    var ln, rn := l, r;
    ghost var lift := Depth(d, l) - Height(d, lp);
    while lp != -1
      invariant -1 <= lp < |d| && 0 <= ln < |d| && IsAncestorOrSelf(d, ln, l)
      invariant leftHigher ==> lp == -1 && ln == l
      invariant Depth(d, ln) - Height(d, lp) == lift
      decreases lp
    {
      assert ln > 0;
      AncestorOfAncestor(d, d[ln].parent, ln, l);
      lp := Parent(d, lp);
      ln := Parent(d, ln);
    }
    while rp != -1
      invariant -1 <= rp < |d| && 0 <= rn < |d| && IsAncestorOrSelf(d, rn, r)
      invariant !leftHigher ==> rp == -1 && rn == r
      invariant Depth(d, rn) - Height(d, rp) == lift
      decreases rp
    {
      assert rn > 0;
      AncestorOfAncestor(d, d[rn].parent, rn, r);
      rp := Parent(d, rp);
      rn := Parent(d, rn);
    }
    if ln == rn {
      SubtreeIsInterval(d, ln, l);
      SubtreeIsInterval(d, rn, r);
      return leftHigher;
    }
    while Parent(d, ln) != Parent(d, rn)
      invariant 0 <= ln < |d| && 0 <= rn < |d| && ln != rn
      invariant IsAncestorOrSelf(d, ln, l) && IsAncestorOrSelf(d, rn, r)
      invariant Depth(d, ln) == Depth(d, rn)
      decreases ln
    {
      AncestorOfAncestor(d, d[ln].parent, ln, l);
      AncestorOfAncestor(d, d[rn].parent, rn, r);
      ln := Parent(d, ln);
      rn := Parent(d, rn);
    }
    OrderOfSeparateSubtrees(d, l, r, ln, rn);
    before := NodeIsBeforeSibling(d, ln, rn);
  }

  /** Depth counted from the null pointer above the root. */
  ghost function Height(d: Table, i: int): int
    requires WellFormed(d) && -1 <= i < |d|
  {
    if i == -1 then -1 else Depth(d, i)
  }

  method Up(d: Table, i: nat, ghost below: nat) returns (p: int)
    requires WellFormed(d) && i < |d| && below < |d| && IsAncestorOrSelf(d, i, below)
    ensures p == d[i].parent && -1 <= p < i
    ensures p != -1 ==> IsAncestorOrSelf(d, p, below)
    ensures Height(d, p) == Height(d, i) - 1
  {
    p := Parent(d, i);
    if p != -1 { AncestorOfAncestor(d, p, i, below); }
  }

  lemma SiblingsSameDepth(d: Table, a: nat, b: nat)
    requires WellFormed(d) && a < |d| && b < |d| && d[a].parent == d[b].parent
    ensures Depth(d, a) == Depth(d, b)
  {
  }

  // ------------------------------------------------------------------ document_order_comparator

  /** The slow path of the comparator, on distinct non-null nodes of one document. */
  method Before(d: Table, x: XNode, y: XNode) returns (before: bool)
    requires WellFormed(d) && ValidNode(d, x) && ValidNode(d, y)
    requires !x.NullNode? && !y.NullNode? && x != y
    ensures before <==> Precedes(x, y)
  {
    var ln, rn := Major(x), Major(y);
    if x.AttributeNode? && y.AttributeNode? {
      if x.owner == y.owner {
        var k := x.index;
        while k < |d[x.owner].data.attributes|
          invariant x.index <= k
          invariant y.index < x.index || k <= y.index
        {
          if k == y.index { return true; }
          k := k + 1;
        }
        return false;
      }
    } else if x.AttributeNode? {
      if x.owner == y.id { return false; }
    } else if y.AttributeNode? {
      if y.owner == x.id { return true; }
    }
    before := NodeIsBefore(d, ln, rn);
  }
}
