/** XPath axes: what each axis contains, and the pointer walks of `step_fill` that enumerate it. */
module Axes {
  import opened Document

  datatype Axis =
    | Ancestor | AncestorOrSelf | AttributeAxis | Child | Descendant | DescendantOrSelf
    | Following | FollowingSibling | NamespaceAxis | ParentAxis | Preceding | PrecedingSibling | SelfAxis

  datatype NodeTest =
    | NameTest(name: string) | TypeNode | TypeComment | TypeText | TypePi | PiTarget(name: string)
    | AnyName | AnyInNamespace(prefix: string)

  /** An `xpath_node`: nothing, a node of the tree, or an attribute of a node. */
  datatype XNode = NullNode | TreeNode(id: nat) | AttributeNode(owner: nat, index: nat)

  predicate ValidNode(d: Table, x: XNode) {
    match x
    case NullNode => true
    case TreeNode(i) => i < |d|
    case AttributeNode(p, k) => p < |d| && k < |d[p].data.attributes|
  }

  predicate IsReverse(axis: Axis) {
    axis.Ancestor? || axis.AncestorOrSelf? || axis.Preceding? || axis.PrecedingSibling?
  }

  // ------------------------------------------------------------------ node tests

  predicate StartsWith(s: string, pattern: string) {
    pattern <= s
  }

  /** Attributes that declare namespaces are not XPath attributes. */
  predicate IsXPathAttribute(name: string) {
    !(StartsWith(name, "xmlns") && (|name| == 5 || name[5] == ':'))
  }

  predicate Matches(test: NodeTest, n: NodeData) {
    match test
    case NameTest(name) => n.kind == Element && n.name == name
    case TypeNode => true
    case TypeComment => n.kind == Comment
    case TypeText => n.kind == Pcdata || n.kind == Cdata
    case TypePi => n.kind == Pi
    case PiTarget(name) => n.kind == Pi && n.name == name
    case AnyName => n.kind == Element
    case AnyInNamespace(prefix) => n.kind == Element && StartsWith(n.name, prefix)
  }

  predicate MatchesAttribute(test: NodeTest, name: string) {
    match test
    case NameTest(n) => name == n && IsXPathAttribute(name)
    case TypeNode => IsXPathAttribute(name)
    case AnyName => IsXPathAttribute(name)
    case AnyInNamespace(prefix) => StartsWith(name, prefix) && IsXPathAttribute(name)
    case _ => false
  }

  // ------------------------------------------------------------------ the axes, declaratively

  /** Node `j` lies on `axis` of node `n` (section 2.2 of XPath 1.0). */
  predicate OnAxis(d: Table, axis: Axis, n: nat, j: nat)
    requires WellFormed(d) && n < |d| && j < |d|
  {
    match axis
    case Ancestor => j != n && IsAncestorOrSelf(d, j, n)
    case AncestorOrSelf => IsAncestorOrSelf(d, j, n)
    case Child => j > 0 && d[j].parent == n
    case Descendant => j != n && IsAncestorOrSelf(d, n, j)
    case DescendantOrSelf => IsAncestorOrSelf(d, n, j)
    case Following => j > n && !IsAncestorOrSelf(d, n, j)
    case FollowingSibling => n > 0 && j > n && d[j].parent == d[n].parent
    case ParentAxis => n > 0 && d[n].parent == j
    case Preceding => j < n && !IsAncestorOrSelf(d, j, n)
    case PrecedingSibling => 0 < j < n && d[j].parent == d[n].parent
    case SelfAxis => j == n
    case AttributeAxis => false
    case NamespaceAxis => false
  }

  /** The tree nodes on an axis of `n` that pass the node test. */
  function Selected(d: Table, axis: Axis, test: NodeTest, n: nat): set<nat>
    requires WellFormed(d) && n < |d|
  {
    set j | 0 <= j < |d| && OnAxis(d, axis, n, j) && Matches(test, d[j].data)
  }

  function Ascending(s: set<nat>, lo: nat, hi: nat): seq<XNode> {
    if lo >= hi then [] else Ascending(s, lo, hi - 1) + (if hi - 1 in s then [TreeNode(hi - 1)] else [])
  }

  function Descending(s: set<nat>, lo: nat, hi: nat): seq<XNode>
    decreases hi - lo
  {
    if lo >= hi then [] else Descending(s, lo + 1, hi) + (if lo in s then [TreeNode(lo)] else [])
  }

  /** The attributes of `p` passing the test, in order; a name test takes the first attribute of that
    name (all of them when the element has no two attributes of one name). */
  function AttributesFrom(d: Table, test: NodeTest, p: nat, k: nat): seq<XNode>
    requires p < |d|
    decreases |d[p].data.attributes| - k
  {
    if k >= |d[p].data.attributes| then []
    else if !MatchesAttribute(test, d[p].data.attributes[k].name) then AttributesFrom(d, test, p, k + 1)
    else if test.NameTest? then [AttributeNode(p, k)]
    else [AttributeNode(p, k)] + AttributesFrom(d, test, p, k + 1)
  }

  function FirstOnly<T>(once: bool, s: seq<T>): seq<T> {
    if once && |s| > 1 then s[..1] else s
  }

  /** All attributes of `p` that pass the test, in order. */
  function AttributesMatching(d: Table, test: NodeTest, p: nat, k: nat): seq<XNode>
    requires p < |d|
    decreases |d[p].data.attributes| - k
  {
    if k >= |d[p].data.attributes| then []
    else (if MatchesAttribute(test, d[p].data.attributes[k].name) then [AttributeNode(p, k)] else [])
         + AttributesMatching(d, test, p, k + 1)
  }

  /** Stopping at the first match is what makes a name test select one attribute. */
  lemma {:induction false} FirstOfThatName(d: Table, test: NodeTest, p: nat, k: nat)
    requires p < |d|
    ensures AttributesFrom(d, test, p, k) == FirstOnly(test.NameTest?, AttributesMatching(d, test, p, k))
    decreases |d[p].data.attributes| - k
  {
    if k < |d[p].data.attributes| { FirstOfThatName(d, test, p, k + 1); }
  }

  /** The nodes of an axis of a tree node that pass the test, in axis order. */
  function TreeAxis(d: Table, axis: Axis, test: NodeTest, n: nat): seq<XNode>
    requires WellFormed(d) && n < |d|
  {
    if axis.AttributeAxis? then AttributesFrom(d, test, n, 0)
    else if IsReverse(axis) then Descending(Selected(d, axis, test, n), 0, |d|)
    else Ascending(Selected(d, axis, test, n), 0, |d|)
  }

  /** The same for an attribute: its parent element is its first ancestor, what follows its element's
    start tag follows it, and only the self axes can name it. */
  function AttributeStep(d: Table, axis: Axis, test: NodeTest, p: nat, k: nat): seq<XNode>
    requires WellFormed(d) && p < |d| && k < |d[p].data.attributes|
  {
    var self := if test.TypeNode? && IsXPathAttribute(d[p].data.attributes[k].name) then [AttributeNode(p, k)] else [];
    match axis
    case Ancestor => TreeAxis(d, AncestorOrSelf, test, p)
    case AncestorOrSelf => self + TreeAxis(d, AncestorOrSelf, test, p)
    case DescendantOrSelf => self
    case SelfAxis => self
    case Following => TreeAxis(d, Descendant, test, p) + TreeAxis(d, Following, test, p)
    case ParentAxis => TreeAxis(d, SelfAxis, test, p)
    case Preceding => TreeAxis(d, Preceding, test, p)
    case _ => []
  }

  function AxisNodes(d: Table, axis: Axis, test: NodeTest, x: XNode): seq<XNode>
    requires WellFormed(d) && ValidNode(d, x)
  {
    match x
    case NullNode => []
    case TreeNode(n) => TreeAxis(d, axis, test, n)
    case AttributeNode(p, k) => AttributeStep(d, axis, test, p, k)
  }

  /** Everything an axis holds: all attributes of a name, where an element has several of it. */
  function Reached(d: Table, axis: Axis, test: NodeTest, x: XNode): seq<XNode>
    requires WellFormed(d) && ValidNode(d, x)
  {
    if axis.AttributeAxis? && x.TreeNode? then AttributesMatching(d, test, x.id, 0) else AxisNodes(d, axis, test, x)
  }

  lemma ReachedOnce(d: Table, axis: Axis, test: NodeTest, x: XNode, once: bool)
    requires WellFormed(d) && ValidNode(d, x) && (axis.AttributeAxis? && test.NameTest? ==> once)
    ensures FirstOnly(once, Reached(d, axis, test, x)) == FirstOnly(once, AxisNodes(d, axis, test, x))
  {
    if axis.AttributeAxis? && x.TreeNode? { FirstOfThatName(d, test, x.id, 0); }
  }

  // ------------------------------------------------------------------ listing lemmas

  lemma {:induction false} AscendingMembers(s: set<nat>, lo: nat, hi: nat, x: XNode)
    ensures x in Ascending(s, lo, hi) <==> x.TreeNode? && lo <= x.id < hi && x.id in s
  {
    if lo < hi { AscendingMembers(s, lo, hi - 1, x); }
  }

  lemma {:induction false} DescendingMembers(s: set<nat>, lo: nat, hi: nat, x: XNode)
    ensures x in Descending(s, lo, hi) <==> x.TreeNode? && lo <= x.id < hi && x.id in s
    decreases hi - lo
  {
    if lo < hi { DescendingMembers(s, lo + 1, hi, x); }
  }

  lemma {:induction false} AscendingSplit(s: set<nat>, lo: nat, m: nat, hi: nat)
    requires lo <= m <= hi
    ensures Ascending(s, lo, hi) == Ascending(s, lo, m) + Ascending(s, m, hi)
    decreases hi
  {
    if m < hi {
      AscendingSplit(s, lo, m, hi - 1);
    }
  }

  lemma {:induction false} DescendingSplit(s: set<nat>, lo: nat, m: nat, hi: nat)
    requires lo <= m <= hi
    ensures Descending(s, lo, hi) == Descending(s, m, hi) + Descending(s, lo, m)
    decreases hi - lo
  {
    if lo < m {
      DescendingSplit(s, lo + 1, m, hi);
    }
  }

  lemma {:induction false} NothingAscending(s: set<nat>, lo: nat, hi: nat)
    requires forall j | lo <= j < hi :: j !in s
    ensures Ascending(s, lo, hi) == []
  {
    if lo < hi { NothingAscending(s, lo, hi - 1); }
  }

  lemma {:induction false} NothingDescending(s: set<nat>, lo: nat, hi: nat)
    requires forall j | lo <= j < hi :: j !in s
    ensures Descending(s, lo, hi) == []
    decreases hi - lo
  {
    if lo < hi { NothingDescending(s, lo + 1, hi); }
  }

  lemma AscendingGap(s: set<nat>, lo: nat, m: nat, hi: nat)
    requires lo <= m <= hi
    requires forall j | m <= j < hi :: j !in s
    ensures Ascending(s, lo, hi) == Ascending(s, lo, m)
  {
    AscendingSplit(s, lo, m, hi);
    NothingAscending(s, m, hi);
  }

  lemma DescendingGap(s: set<nat>, lo: nat, m: nat, hi: nat)
    requires lo <= m <= hi
    requires forall j | lo <= j < m :: j !in s
    ensures Descending(s, lo, hi) == Descending(s, m, hi)
  {
    DescendingSplit(s, lo, m, hi);
    NothingDescending(s, lo, m);
  }

  /** The listing of a range with nothing selected outside `lo .. hi`, cut at `m`. */
  lemma AscendingWindow(s: set<nat>, lo: nat, m: nat, hi: nat, size: nat)
    requires lo <= m <= hi <= size
    requires forall j | j in s :: lo <= j < hi
    ensures Ascending(s, lo, m) <= Ascending(s, 0, size)
    ensures m == hi ==> Ascending(s, lo, m) == Ascending(s, 0, size)
  {
    AscendingSplit(s, 0, lo, size);
    AscendingSplit(s, lo, m, size);
    NothingAscending(s, 0, lo);
    if m == hi { NothingAscending(s, m, size); }
  }

  lemma DescendingWindow(s: set<nat>, lo: nat, m: nat, hi: nat, size: nat)
    requires lo <= m <= hi <= size
    requires forall j | j in s :: lo <= j < hi
    ensures Descending(s, m, hi) <= Descending(s, 0, size)
    ensures m == lo ==> Descending(s, m, hi) == Descending(s, 0, size)
  {
    DescendingSplit(s, 0, hi, size);
    DescendingSplit(s, 0, m, hi);
    NothingDescending(s, hi, size);
    if m == lo { NothingDescending(s, 0, m); }
  }

  // ------------------------------------------------------------------ step_fill

  /** One step of the loops that visit a subtree (or, with no `root`, the rest of the document): down
    to the first child, else up until a next sibling exists. It is the next row of the table. */
  method NextInPreorder(d: Table, from: nat, root: int) returns (next: int)
    requires WellFormed(d) && from < |d|
    requires root == -1 || (0 <= root < |d| && root <= from < End(d, root))
    ensures next == if from + 1 < (if root == -1 then |d| else End(d, root)) then from + 1 else -1
  {
    hide IsAncestorOrSelf, ScanEnd, End, FirstWithParent, LastWithParent, WellFormed, Matches;
    var cur := from;
    FirstChildIsNextRow(d, cur);
    if FirstChild(d, cur) != -1 {
      if root != -1 { SubtreeNested(d, root, cur); }
      return FirstChild(d, cur);
    }
    NextSiblingIsEnd(d, cur);
    if cur == root { return -1; }
    while NextSibling(d, cur) == -1
      invariant 0 <= cur < |d| && cur != root && End(d, cur) == from + 1
      invariant root != -1 ==> root < cur < End(d, root)
      decreases cur
    {
      NextSiblingIsEnd(d, cur);
      if root != -1 { SubtreeNested(d, root, cur); }
      cur := Parent(d, cur);
      if cur == root { return -1; }
    }
    NextSiblingIsEnd(d, cur);
    if root != -1 { SubtreeNested(d, root, cur); SubtreeNested(d, root, Parent(d, cur)); NextWithinParent(d, cur); }
    return NextSibling(d, cur);
  }

  lemma DescendantWindow(d: Table, test: NodeTest, n: nat, orSelf: bool)
    requires WellFormed(d) && n < |d|
    ensures var s := Selected(d, if orSelf then DescendantOrSelf else Descendant, test, n);
            && (forall j | j in s :: n <= j < End(d, n))
            && (n in s <==> orSelf && Matches(test, d[n].data))
            && (forall j | n < j < End(d, n) :: j in s <==> Matches(test, d[j].data))
  {
    forall j | 0 <= j < |d| ensures IsAncestorOrSelf(d, n, j) <==> n <= j < End(d, n) { SubtreeIsInterval(d, n, j); }
  }

  lemma AscendingStep(s: set<nat>, lo: nat, hi: nat)
    requires lo <= hi
    ensures Ascending(s, lo, hi + 1) == Ascending(s, lo, hi) + (if hi in s then [TreeNode(hi)] else [])
  {
  }

  lemma DescendingStep(s: set<nat>, lo: nat, hi: nat)
    requires lo < hi
    ensures Descending(s, lo, hi) == Descending(s, lo + 1, hi) + (if lo in s then [TreeNode(lo)] else [])
  {
  }

  /** `axis_descendant` and `axis_descendant_or_self`, for a set `s` of the matching nodes in the
    subtree of `n`. */
  method WalkDescendants(d: Table, test: NodeTest, n: nat, once: bool, orSelf: bool, ghost s: set<nat>)
    returns (ns: seq<XNode>)
    requires WellFormed(d) && n < |d|
    requires forall j | j in s :: n <= j < End(d, n)
    requires n in s <==> orSelf && Matches(test, d[n].data)
    requires forall j | n < j < End(d, n) :: j in s <==> Matches(test, d[j].data)
    ensures ns == FirstOnly(once, Ascending(s, 0, |d|))
  {
    hide IsAncestorOrSelf, ScanEnd, End, FirstWithParent, LastWithParent, WellFormed, Matches, FirstChild, NextSibling,
         Parent, OnAxis, Ascending;
    ghost var end := End(d, n);
    ns := [];
    AscendingStep(s, n, n);
    NothingAscending(s, n, n);
    AscendingWindow(s, n, n + 1, end, |d|);
    if orSelf && Matches(test, d[n].data) {
      ns := ns + [TreeNode(n)];
      if once { return; }
    }
    FirstChildIsNextRow(d, n);
    var cur := FirstChild(d, n);
    while cur != -1
      invariant cur != -1 ==> n < cur < end
      invariant ns == Ascending(s, n, if cur == -1 then end else cur)
      invariant once ==> ns == []
      decreases if cur == -1 then 0 else |d| - cur
    {
      AscendingStep(s, n, cur);
      AscendingWindow(s, n, cur + 1, end, |d|);
      if Matches(test, d[cur].data) {
        ns := ns + [TreeNode(cur)];
        if once { return; }
      }
      cur := NextInPreorder(d, cur, n);
    }
    AscendingWindow(s, n, end, end, |d|);
  }

  /** `axis_child` and `axis_following_sibling`: the chain of `next_sibling` links from `first`. */
  method WalkSiblings(d: Table, test: NodeTest, first: int, once: bool, ghost s: set<nat>, ghost p: int, ghost lo: nat)
    returns (ns: seq<XNode>)
    requires WellFormed(d) && p < lo && 0 < lo <= |d| && first == FirstWithParent(d, p, lo)
    requires forall j | j in s :: lo <= j < |d|
    requires forall j | lo <= j < |d| :: j in s <==> d[j].parent == p && Matches(test, d[j].data)
    ensures ns == FirstOnly(once, Ascending(s, 0, |d|))
  {
    hide IsAncestorOrSelf, ScanEnd, End, FirstWithParent, LastWithParent, WellFormed, Matches;
    ns := [];
    var c := first;
    ghost var done := lo;
    NothingAscending(s, lo, lo);
    while c != -1
      invariant lo <= done <= |d| && c == FirstWithParent(d, p, done)
      invariant ns == Ascending(s, lo, done)
      invariant once ==> ns == []
      decreases |d| - done
    {
      NoneBeforeFirst(d, p, done);
      AscendingGap(s, lo, done, c);
      AscendingWindow(s, lo, c + 1, |d|, |d|);
      if Matches(test, d[c].data) {
        ns := ns + [TreeNode(c)];
        if once { return; }
      }
      done := c + 1;
      c := NextSibling(d, c);
    }
    NoneBeforeFirst(d, p, done);
    AscendingGap(s, lo, done, |d|);
    AscendingWindow(s, lo, |d|, |d|, |d|);
  }

  /** The test `prev_sibling_c->next_sibling` and the step it guards: the previous sibling, or -1 for a
    node without one (whose `prev_sibling_c` wraps around to a last child). */
  method StepBack(d: Table, i: nat) returns (q: int)
    requires WellFormed(d) && i < |d|
    ensures -1 <= q < i
    ensures q == -1 ==> i == 0 || i - 1 == d[i].parent
    ensures q != -1 ==> q > 0 && End(d, q) == i && d[q].parent == d[i].parent
    ensures i > 0 ==> q == LastWithParent(d, d[i].parent, i)
  {
    hide IsAncestorOrSelf, ScanEnd, End, FirstWithParent, LastWithParent, WellFormed, Matches;
    PrevSiblingLeadsBack(d, i);
    q := PrevSiblingCyclic(d, i);
    if NextSibling(d, q) == -1 { q := -1; }
  }

  /** `axis_preceding_sibling`: the chain of `prev_sibling_c` links until it wraps to a last child. */
  method WalkPrecedingSiblings(d: Table, test: NodeTest, n: nat, once: bool, ghost s: set<nat>, ghost p: int)
    returns (ns: seq<XNode>)
    requires WellFormed(d) && n < |d| && p == d[n].parent
    requires forall j | j in s :: 0 < j < n
    requires n > 0 ==> forall j | 0 <= j < n :: j in s <==> d[j].parent == p && Matches(test, d[j].data)
    ensures ns == FirstOnly(once, Descending(s, 0, |d|))
  {
    hide IsAncestorOrSelf, ScanEnd, End, FirstWithParent, LastWithParent, WellFormed, Matches;
    ns := [];
    var c := StepBack(d, n);
    ghost var done: nat := n;
    DescendingWindow(s, 0, n, n, |d|);
    while c != -1
      invariant 0 <= done <= n && (done == 0 ==> n == 0) && d[done].parent == p
      invariant if n == 0 then c == -1 else c == LastWithParent(d, p, done) && c != 0
      invariant ns == Descending(s, done, n)
      invariant once ==> ns == []
      decreases done
    {
      NoneAfterLast(d, p, done);
      DescendingGap(s, c + 1, done, n);
      DescendingWindow(s, 0, c, n, |d|);
      if Matches(test, d[c].data) {
        ns := ns + [TreeNode(c)];
        if once { return; }
      }
      done := c;
      c := StepBack(d, c);
    }
    if n > 0 { NoneAfterLast(d, p, done); }
    DescendingGap(s, 0, done, n);
    DescendingWindow(s, 0, 0, n, |d|);
  }

  /** `axis_following`: out of the subtree of `n`, then in preorder to the end of the document. */
  method WalkFollowing(d: Table, test: NodeTest, n: nat, once: bool, ghost s: set<nat>) returns (ns: seq<XNode>)
    requires WellFormed(d) && n < |d|
    requires forall j | j in s :: End(d, n) <= j < |d|
    requires forall j | End(d, n) <= j < |d| :: j in s <==> Matches(test, d[j].data)
    ensures ns == FirstOnly(once, Ascending(s, 0, |d|))
  {
    hide IsAncestorOrSelf, ScanEnd, End, FirstWithParent, LastWithParent, WellFormed, Matches;
    ghost var start := End(d, n);
    ns := [];
    AscendingWindow(s, start, start, |d|, |d|);
    var cur := n;
    NextSiblingIsEnd(d, cur);
    while NextSibling(d, cur) == -1
      invariant 0 <= cur < |d| && End(d, cur) == start
      decreases cur
    {
      NextSiblingIsEnd(d, cur);
      cur := Parent(d, cur);
      if cur == -1 { return; }
    }
    NextSiblingIsEnd(d, cur);
    cur := NextSibling(d, cur);
    NothingAscending(s, start, start);
    while cur != -1
      invariant cur != -1 ==> start <= cur < |d|
      invariant ns == Ascending(s, start, if cur == -1 then |d| else cur)
      invariant once ==> ns == []
      decreases if cur == -1 then 0 else |d| - cur
    {
      AscendingWindow(s, start, cur + 1, |d|, |d|);
      if Matches(test, d[cur].data) {
        ns := ns + [TreeNode(cur)];
        if once { return; }
      }
      cur := NextInPreorder(d, cur, -1);
    }
    AscendingWindow(s, start, |d|, |d|, |d|);
  }

  /** `axis_following` of an attribute of `p`: everything after the start tag of `p`. */
  method WalkFollowingAttribute(d: Table, test: NodeTest, p: nat, once: bool, ghost s: set<nat>)
    returns (ns: seq<XNode>)
    requires WellFormed(d) && p < |d|
    requires forall j | j in s :: p < j < |d|
    requires forall j | p < j < |d| :: j in s <==> Matches(test, d[j].data)
    ensures ns == FirstOnly(once, Ascending(s, 0, |d|))
  {
    hide IsAncestorOrSelf, ScanEnd, End, FirstWithParent, LastWithParent, WellFormed, Matches;
    ns := [];
    var cur := p;
    NothingAscending(s, p + 1, p + 1);
    while true
      invariant p <= cur < |d|
      invariant ns == Ascending(s, p + 1, cur + 1)
      invariant once ==> ns == []
      decreases |d| - cur
    {
      var next := NextInPreorder(d, cur, -1);
      AscendingWindow(s, p + 1, cur + 1, |d|, |d|);
      if next == -1 { return; }
      cur := next;
      AscendingWindow(s, p + 1, cur + 1, |d|, |d|);
      if Matches(test, d[cur].data) {
        ns := ns + [TreeNode(cur)];
        if once { return; }
      }
    }
  }

  /** Up from `n` to the first node with a previous sibling, and to that sibling; -1 if there is none.
    Everything skipped between the sibling's subtree and `n` is an ancestor of `n`. */
  method ExitBackwards(d: Table, n: nat) returns (cur: int)
    requires WellFormed(d) && n < |d|
    ensures -1 <= cur < n
    ensures cur != -1 ==> End(d, cur) <= n
    ensures forall j | (if cur == -1 then 0 else End(d, cur)) <= j < n :: IsAncestorOrSelf(d, j, n)
  {
    hide IsAncestorOrSelf, ScanEnd, End, FirstWithParent, LastWithParent, WellFormed, Matches;
    var node := n;
    AncestorStep(d, n);
    cur := StepBack(d, node);
    while cur == -1
      invariant 0 <= node <= n && -1 <= cur < node
      invariant cur == -1 ==> node == 0 || node - 1 == d[node].parent
      invariant cur != -1 ==> End(d, cur) == node
      invariant forall j | node <= j < n :: IsAncestorOrSelf(d, j, n)
      invariant IsAncestorOrSelf(d, node, n)
      decreases node, cur == -1
    {
      if node == 0 { return; }
      AncestorStep(d, node);
      AncestorOfAncestor(d, node - 1, node, n);
      node := Parent(d, node);
      cur := StepBack(d, node);
    }
  }

  /** `axis_preceding`: backwards through the document in reverse preorder, leaving out the ancestors
    of `n` met on the way up. */
  method WalkPreceding(d: Table, test: NodeTest, n: nat, once: bool, ghost s: set<nat>) returns (ns: seq<XNode>)
    requires WellFormed(d) && n < |d|
    requires forall j | j in s :: 0 <= j < n && !IsAncestorOrSelf(d, j, n)
    requires forall j | 0 <= j < n && !IsAncestorOrSelf(d, j, n) :: j in s <==> Matches(test, d[j].data)
    ensures ns == FirstOnly(once, Descending(s, 0, |d|))
  {
    hide IsAncestorOrSelf, ScanEnd, End, FirstWithParent, LastWithParent, WellFormed, Matches;
    ns := [];
    var cur := ExitBackwards(d, n);
    NothingDescending(s, if cur == -1 then 0 else End(d, cur), n);
    DescendingWindow(s, 0, 0, n, |d|);
    while cur != -1
      invariant -1 <= cur < |d| && (cur != -1 ==> End(d, cur) <= n)
      invariant cur == -1 ==> ns == FirstOnly(once, Descending(s, 0, n))
      invariant cur != -1 ==> ns == Descending(s, End(d, cur), n) && (once ==> ns == [])
      decreases if cur == -1 then 0 else End(d, cur), |d| - cur
    {
      FirstChildIsNextRow(d, cur);
      if FirstChild(d, cur) != -1 {
        LastChildEndsParent(d, cur);
        cur := PrevSiblingCyclic(d, FirstChild(d, cur));
      } else {
        SubtreeIsInterval(d, cur, n);
        DescendingWindow(s, 0, cur, n, |d|);
        if Matches(test, d[cur].data) {
          ns := ns + [TreeNode(cur)];
          if once { return; }
        }
        ns, cur := ClimbBackwards(d, test, n, once, s, cur, ns);
      }
    }
  }

  /** The inner loop of `axis_preceding`, from a visited leaf `from`. */
  method ClimbBackwards(d: Table, test: NodeTest, n: nat, once: bool, ghost s: set<nat>, from: nat, found: seq<XNode>)
    returns (ns: seq<XNode>, cur: int)
    requires WellFormed(d) && n < |d| && from < n
    requires forall j | j in s :: 0 <= j < n && !IsAncestorOrSelf(d, j, n)
    requires forall j | 0 <= j < n && !IsAncestorOrSelf(d, j, n) :: j in s <==> Matches(test, d[j].data)
    requires found == Descending(s, from, n) && (once ==> found == [])
    ensures -1 <= cur < from && (cur != -1 ==> End(d, cur) <= from)
    ensures once && ns != [] ==> cur == -1 && ns == FirstOnly(once, Descending(s, 0, n))
    ensures !(once && ns != []) ==> ns == Descending(s, if cur == -1 then 0 else End(d, cur), n)
  {
    hide IsAncestorOrSelf, ScanEnd, End, FirstWithParent, LastWithParent, WellFormed, Matches;
    ns := found;
    var node := from;
    cur := StepBack(d, node);
    while cur == -1
      invariant 0 <= node <= from && -1 <= cur < node
      invariant cur == -1 ==> node == 0 || node - 1 == d[node].parent
      invariant cur != -1 ==> End(d, cur) == node
      invariant ns == Descending(s, node, n)
      invariant once ==> ns == []
      decreases node, cur == -1
    {
      if node == 0 { return; }
      node := Parent(d, node);
      DescendingWindow(s, 0, node, n, n);
      if !IsAncestorOrSelf(d, node, n) && Matches(test, d[node].data) {
        ns := ns + [TreeNode(node)];
        if once { return ns, -1; }
      }
      cur := StepBack(d, node);
    }
  }

  /** `axis_ancestor` and `axis_ancestor_or_self`: up the parent links from `from`. */
  method WalkAncestors(d: Table, test: NodeTest, from: int, once: bool, ghost n: nat, ghost s: set<nat>)
    returns (ns: seq<XNode>)
    requires WellFormed(d) && n < |d| && (from == n || from == d[n].parent)
    requires forall j | j in s :: 0 <= j <= from && IsAncestorOrSelf(d, j, n)
    requires forall j | 0 <= j <= from && IsAncestorOrSelf(d, j, n) :: j in s <==> Matches(test, d[j].data)
    ensures ns == FirstOnly(once, Descending(s, 0, |d|))
  {
    hide IsAncestorOrSelf, ScanEnd, End, FirstWithParent, LastWithParent, WellFormed, Matches, Descending, Parent;
    ns := [];
    var cur := from;
    AncestorStep(d, n);
    assert -1 <= Parent(d, n);
    NothingDescending(s, from + 1, from + 1);
    while cur != -1
      invariant -1 <= cur <= from && (cur != -1 ==> IsAncestorOrSelf(d, cur, n))
      invariant ns == Descending(s, cur + 1, from + 1)
      invariant once ==> ns == []
      decreases cur
    {
      DescendingStep(s, cur, from + 1);
      DescendingWindow(s, 0, cur, from + 1, |d|);
      if Matches(test, d[cur].data) {
        ns := ns + [TreeNode(cur)];
        if once { return; }
      }
      var up := Parent(d, cur);
      AncestorStep(d, cur);
      forall j | up < j < cur ensures j !in s {
        AncestorsAreParents(d, j, cur, n);
      }
      DescendingGap(s, up + 1, cur, from + 1);
      if up != -1 { AncestorOfAncestor(d, up, cur, n); }
      cur := up;
    }
    DescendingWindow(s, 0, 0, from + 1, |d|);
  }

  lemma AncestorStep(d: Table, i: nat)
    requires WellFormed(d) && i < |d|
    ensures IsAncestorOrSelf(d, i, i)
    ensures i > 0 ==> IsAncestorOrSelf(d, d[i].parent, i)
  {
  }

  lemma {:induction false} AncestorOfAncestor(d: Table, a: nat, b: nat, n: nat)
    requires WellFormed(d) && a < |d| && b < |d| && n < |d|
    requires IsAncestorOrSelf(d, a, b) && IsAncestorOrSelf(d, b, n)
    ensures IsAncestorOrSelf(d, a, n)
    decreases n
  {
    if b != n { AncestorOfAncestor(d, a, b, d[n].parent); }
  }

  /** Between an ancestor `b` of `n` and the parent of `b` no node is an ancestor of `n`. */
  lemma {:induction false} AncestorsAreParents(d: Table, j: nat, b: nat, n: nat)
    requires WellFormed(d) && b < |d| && n < |d| && IsAncestorOrSelf(d, b, n) && d[b].parent < j < b
    ensures !IsAncestorOrSelf(d, j, n)
  {
    SubtreeIsInterval(d, j, n);
    SubtreeIsInterval(d, j, b);
    SubtreeIsInterval(d, b, n);
    if b > 0 { assert j < |d|; SubtreeIsInterval(d, j, d[b].parent); }
  }

  /** `axis_attribute`: the chain of attributes of `n`. */
  method WalkAttributes(d: Table, test: NodeTest, n: nat, once: bool) returns (ns: seq<XNode>)
    requires n < |d|
    ensures ns == FirstOnly(once, AttributesMatching(d, test, n, 0))
  {
    hide AttributesMatching, MatchesAttribute;
    ns := [];
    for k := 0 to |d[n].data.attributes|
      invariant ns + AttributesMatching(d, test, n, k) == AttributesMatching(d, test, n, 0)
      invariant once ==> ns == []
    {
      MatchingStep(d, test, n, k);
      if MatchesAttribute(test, d[n].data.attributes[k].name) {
        Reassociate(ns, [AttributeNode(n, k)], AttributesMatching(d, test, n, k + 1));
        ns := ns + [AttributeNode(n, k)];
        if once { return; }
      }
    }
    NoneMatching(d, test, n);
  }

  lemma MatchingStep(d: Table, test: NodeTest, p: nat, k: nat)
    requires p < |d| && k < |d[p].data.attributes|
    ensures AttributesMatching(d, test, p, k)
            == if MatchesAttribute(test, d[p].data.attributes[k].name) then [AttributeNode(p, k)]
               + AttributesMatching(d, test, p, k + 1)
               else AttributesMatching(d, test, p, k + 1)
  {
    hide MatchesAttribute;
  }

  lemma NoneMatching(d: Table, test: NodeTest, p: nat)
    requires p < |d|
    ensures AttributesMatching(d, test, p, |d[p].data.attributes|) == []
  {
  }

  lemma Reassociate(a: seq<XNode>, b: seq<XNode>, c: seq<XNode>)
    ensures a + (b + c) == (a + b) + c
  {
  }

  /** `axis_self` and `axis_parent`: at most one node, `m`, or none if `m` is -1. */
  method WalkSingle(d: Table, test: NodeTest, m: int, once: bool, ghost s: set<nat>) returns (ns: seq<XNode>)
    requires -1 <= m < |d|
    requires s == if m != -1 && Matches(test, d[m].data) then {m} else {}
    ensures ns == FirstOnly(once, Ascending(s, 0, |d|))
  {
    ns := [];
    if m == -1 {
      NothingAscending(s, 0, |d|);
    } else {
      AscendingWindow(s, m, m + 1, m + 1, |d|);
      NothingAscending(s, m, m);
      if Matches(test, d[m].data) { ns := [TreeNode(m)]; }
    }
  }

  lemma ReachedNode(d: Table, axis: Axis, test: NodeTest, n: nat)
    requires WellFormed(d) && n < |d|
    ensures Reached(d, axis, test, TreeNode(n))
            == if axis.AttributeAxis? then AttributesMatching(d, test, n, 0)
               else if IsReverse(axis) then Descending(Selected(d, axis, test, n), 0, |d|)
               else Ascending(Selected(d, axis, test, n), 0, |d|)
  {
    hide WellFormed, Selected, Ascending, Descending, AttributesMatching;
  }

  lemma NoNamespaces(d: Table, test: NodeTest, n: nat)
    requires WellFormed(d) && n < |d|
    ensures FirstOnly(true, Ascending(Selected(d, NamespaceAxis, test, n), 0, |d|)) == []
    ensures FirstOnly(false, Ascending(Selected(d, NamespaceAxis, test, n), 0, |d|)) == []
  {
    hide WellFormed;
    NothingAscending(Selected(d, NamespaceAxis, test, n), 0, |d|);
  }

  /** `step_fill` for a tree node. */
  method StepFillNode(d: Table, axis: Axis, test: NodeTest, n: nat, once: bool) returns (ns: seq<XNode>)
    requires WellFormed(d) && n < |d|
    ensures ns == FirstOnly(once, Reached(d, axis, test, TreeNode(n)))
  {
    hide Selected, Ascending, Descending, OnAxis, Matches, End, FirstOnly, Reached, AttributesMatching;
    ReachedNode(d, axis, test, n);
    match axis {
      case AttributeAxis =>
        ns := WalkAttributes(d, test, n, once);
      case Child =>
        ChildWindow(d, test, n);
        ns := WalkSiblings(d, test, FirstChild(d, n), once, Selected(d, axis, test, n), n, n + 1);
      case FollowingSibling =>
        FollowingSiblingWindow(d, test, n);
        ns := WalkSiblings(d, test, NextSibling(d, n), once, Selected(d, axis, test, n), d[n].parent, n + 1);
      case PrecedingSibling =>
        PrecedingSiblingWindow(d, test, n);
        ns := WalkPrecedingSiblings(d, test, n, once, Selected(d, axis, test, n), d[n].parent);
      case Descendant =>
        DescendantWindow(d, test, n, false);
        ns := WalkDescendants(d, test, n, once, false, Selected(d, axis, test, n));
      case DescendantOrSelf =>
        DescendantWindow(d, test, n, true);
        ns := WalkDescendants(d, test, n, once, true, Selected(d, axis, test, n));
      case Following =>
        FollowingWindow(d, test, n);
        ns := WalkFollowing(d, test, n, once, Selected(d, axis, test, n));
      case Preceding =>
        PrecedingWindow(d, test, n);
        ns := WalkPreceding(d, test, n, once, Selected(d, axis, test, n));
      case Ancestor =>
        AncestorWindow(d, axis, test, n);
        ns := WalkAncestors(d, test, Parent(d, n), once, n, Selected(d, axis, test, n));
      case AncestorOrSelf =>
        AncestorWindow(d, axis, test, n);
        ns := WalkAncestors(d, test, n, once, n, Selected(d, axis, test, n));
      case SelfAxis =>
        SingleWindow(d, SelfAxis, test, n);
        ns := WalkSingle(d, test, n, once, Selected(d, axis, test, n));
      case ParentAxis =>
        SingleWindow(d, ParentAxis, test, n);
        ns := WalkSingle(d, test, Parent(d, n), once, Selected(d, axis, test, n));
      case NamespaceAxis =>
        NoNamespaces(d, test, n);
        ns := [];
    }
  }

  /** `step_fill` for an attribute `k` of node `p`. */
  method StepFillAttribute(d: Table, axis: Axis, test: NodeTest, p: nat, k: nat, once: bool) returns (ns: seq<XNode>)
    requires WellFormed(d) && p < |d| && k < |d[p].data.attributes|
    ensures ns == FirstOnly(once, AttributeStep(d, axis, test, p, k))
  {
    var self := if test.TypeNode? && IsXPathAttribute(d[p].data.attributes[k].name) then [AttributeNode(p, k)] else [];
    match axis {
      case Ancestor =>
        ns := StepFillNode(d, AncestorOrSelf, test, p, once);
      case AncestorOrSelf =>
        if once && self != [] { return self; }
        ns := StepFillNode(d, AncestorOrSelf, test, p, once);
        ns := self + ns;
      case DescendantOrSelf =>
        ns := self;
      case SelfAxis =>
        ns := self;
      case Following =>
        ghost var s := set j | p < j < |d| && Matches(test, d[j].data);
        AfterStartTag(d, test, p, s);
        ns := WalkFollowingAttribute(d, test, p, once, s);
      case ParentAxis =>
        ns := StepFillNode(d, SelfAxis, test, p, once);
      case Preceding =>
        ns := StepFillNode(d, Preceding, test, p, once);
      case _ =>
        ns := [];
    }
  }

  /** `step_fill`: everything the axis holds, or the first of it. A step along the attribute axis with a
    name test always asks for the first. */
  method StepFill(d: Table, axis: Axis, test: NodeTest, x: XNode, once: bool) returns (ns: seq<XNode>)
    requires WellFormed(d) && ValidNode(d, x)
    ensures ns == FirstOnly(once, Reached(d, axis, test, x))
    ensures (axis.AttributeAxis? && test.NameTest? ==> once) ==> ns == FirstOnly(once, AxisNodes(d, axis, test, x))
  {
    if axis.AttributeAxis? && test.NameTest? ==> once { ReachedOnce(d, axis, test, x, once); }
    match x {
      case TreeNode(n) => ns := StepFillNode(d, axis, test, n, once);
      case AttributeNode(p, k) => ns := StepFillAttribute(d, axis, test, p, k, once);
      case NullNode => ns := [];
    }
  }

  // ------------------------------------------------------------------ what each walk has to find

  lemma ChildWindow(d: Table, test: NodeTest, n: nat)
    requires WellFormed(d) && n < |d|
    ensures var s := Selected(d, Child, test, n);
            && (forall j | j in s :: n + 1 <= j < |d|)
            && (forall j | n + 1 <= j < |d| :: j in s <==> d[j].parent == n && Matches(test, d[j].data))
  {
  }

  lemma FollowingSiblingWindow(d: Table, test: NodeTest, n: nat)
    requires WellFormed(d) && n < |d|
    ensures var s := Selected(d, FollowingSibling, test, n);
            && (forall j | j in s :: n + 1 <= j < |d|)
            && (forall j | n + 1 <= j < |d| :: j in s <==> d[j].parent == d[n].parent && Matches(test, d[j].data))
            && NextSibling(d, n) == FirstWithParent(d, d[n].parent, n + 1)
  {
  }

  lemma PrecedingSiblingWindow(d: Table, test: NodeTest, n: nat)
    requires WellFormed(d) && n < |d|
    ensures var s := Selected(d, PrecedingSibling, test, n);
            && (forall j | j in s :: 0 < j < n)
            && (n > 0 ==> forall j | 0 <= j < n :: j in s <==> d[j].parent == d[n].parent && Matches(test, d[j].data))
  {
  }

  lemma FollowingWindow(d: Table, test: NodeTest, n: nat)
    requires WellFormed(d) && n < |d|
    ensures var s := Selected(d, Following, test, n);
            && (forall j | j in s :: End(d, n) <= j < |d|)
            && (forall j | End(d, n) <= j < |d| :: j in s <==> Matches(test, d[j].data))
  {
    forall j | 0 <= j < |d| ensures IsAncestorOrSelf(d, n, j) <==> n <= j < End(d, n) { SubtreeIsInterval(d, n, j); }
  }

  lemma PrecedingWindow(d: Table, test: NodeTest, n: nat)
    requires WellFormed(d) && n < |d|
    ensures var s := Selected(d, Preceding, test, n);
            && (forall j | j in s :: 0 <= j < n && !IsAncestorOrSelf(d, j, n))
            && (forall j | 0 <= j < n && !IsAncestorOrSelf(d, j, n) :: j in s <==> Matches(test, d[j].data))
  {
  }

  lemma AncestorWindow(d: Table, axis: Axis, test: NodeTest, n: nat)
    requires WellFormed(d) && n < |d| && (axis == Ancestor || axis == AncestorOrSelf)
    ensures var s := Selected(d, axis, test, n);
            var from := if axis == AncestorOrSelf then n as int else d[n].parent;
            && (forall j | j in s :: 0 <= j <= from && IsAncestorOrSelf(d, j, n))
            && (forall j | 0 <= j <= from && IsAncestorOrSelf(d, j, n) :: j in s <==> Matches(test, d[j].data))
  {
    forall j | 0 <= j < |d| && IsAncestorOrSelf(d, j, n) ensures j <= n && (j != n ==> j <= d[n].parent) {
      SubtreeIsInterval(d, j, n);
      if j != n { SubtreeIsInterval(d, j, d[n].parent); }
    }
  }

  lemma SingleWindow(d: Table, axis: Axis, test: NodeTest, n: nat)
    requires WellFormed(d) && n < |d| && (axis == SelfAxis || axis == ParentAxis)
    ensures var m := if axis == SelfAxis then n as int else d[n].parent;
            Selected(d, axis, test, n) == if m != -1 && Matches(test, d[m].data) then {m} else {}
  {
  }

  lemma AfterStartTag(d: Table, test: NodeTest, p: nat, s: set<nat>)
    requires WellFormed(d) && p < |d| && s == set j | p < j < |d| && Matches(test, d[j].data)
    ensures Ascending(s, 0, |d|) == TreeAxis(d, Descendant, test, p) + TreeAxis(d, Following, test, p)
  {
    DescendantWindow(d, test, p, false);
    FollowingWindow(d, test, p);
    AscendingUnion(s, Selected(d, Descendant, test, p), Selected(d, Following, test, p), End(d, p), |d|);
  }

  lemma AscendingUnion(s: set<nat>, low: set<nat>, high: set<nat>, m: nat, size: nat)
    requires m <= size
    requires forall j | j in low :: j < m
    requires forall j | j in high :: m <= j
    requires forall j | 0 <= j < size :: j in s <==> j in low || j in high
    ensures Ascending(s, 0, size) == Ascending(low, 0, size) + Ascending(high, 0, size)
  {
    AscendingSplit(s, 0, m, size);
    AscendingSplit(high, 0, m, size);
    AscendingGap(low, 0, m, size);
    NothingAscending(high, 0, m);
    SameAscending(s, low, 0, m);
    SameAscending(s, high, m, size);
  }

  lemma {:induction false} SameAscending(s: set<nat>, t: set<nat>, lo: nat, hi: nat)
    requires forall j | lo <= j < hi :: j in s <==> j in t
    ensures Ascending(s, lo, hi) == Ascending(t, lo, hi)
  {
    if lo < hi { SameAscending(s, t, lo, hi - 1); }
  }
}
