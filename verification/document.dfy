/** The document tree as the XPath engine and the printer see it.

  A document is a table of node records in document order; node ids are preorder positions and
  every record names its parent. `WellFormed` is exactly the condition that such a table is the
  preorder listing of one tree. The link fields of a node (`first_child`, `next_sibling`,
  `prev_sibling_c`) are functions of the table. Module `Dom` is about the linked form of a mutable
  tree, and module `DomTable` shows that its links are these functions. */
module Document {

  datatype NodeType = DocumentNode | Element | Pcdata | Cdata | Comment | Pi | Declaration | Doctype

  datatype Attribute = Attribute(name: string, value: string)

  datatype NodeData = NodeData(kind: NodeType, name: string, value: string, attributes: seq<Attribute>)

  datatype Row = Row(parent: int, data: NodeData)

  type Table = seq<Row>

  /** The preorder listing of one tree: the root comes first, every other node has an earlier parent,
    and a node between a parent and its child belongs to that parent's subtree. */
  ghost predicate WellFormed(d: Table) {
    && |d| > 0
    && d[0].parent == -1
    && (forall i {:trigger d[i].parent} | 0 < i < |d| :: 0 <= d[i].parent < i)
    && (forall i, j {:trigger Nested(d, i, j)} | 0 < j < i < |d| :: Nested(d, i, j))
  }

  /** A node between a parent and its child has no parent further out. */
  ghost predicate Nested(d: Table, i: nat, j: nat)
    requires i < |d| && j < |d|
  {
    d[i].parent < j ==> d[i].parent <= d[j].parent
  }

  lemma NestedAt(d: Table, i: int, j: int)
    requires WellFormed(d)
    ensures 0 < j < i < |d| && d[i].parent < j ==> d[i].parent <= d[j].parent
  {
    assert 0 < j < i < |d| ==> Nested(d, i, j);
  }

  // ------------------------------------------------------------------ subtrees

  /** `a` is `j` or one of its ancestors. */
  predicate IsAncestorOrSelf(d: Table, a: int, j: int)
    requires WellFormed(d) && 0 <= j < |d|
    decreases j
  {
    a == j || (j > 0 && IsAncestorOrSelf(d, a, d[j].parent))
  }

  /** The first position at or after `e` whose parent lies before `a`. */
  function ScanEnd(d: Table, a: nat, e: nat): (r: nat)
    requires e <= |d|
    ensures e <= r <= |d|
    ensures forall j | e <= j < r :: d[j].parent >= a
    ensures r < |d| ==> d[r].parent < a
    decreases |d| - e
  {
    if e == |d| || d[e].parent < a then e else ScanEnd(d, a, e + 1)
  }

  /** The subtree of `a` occupies exactly the positions `a .. End(d, a)`. */
  function End(d: Table, a: nat): (r: nat)
    requires a < |d|
    ensures a < r <= |d|
  {
    ScanEnd(d, a, a + 1)
  }

  lemma AboutEnd(d: Table, a: nat)
    requires a < |d|
    ensures forall j | a < j < End(d, a) :: d[j].parent >= a
    ensures End(d, a) < |d| ==> d[End(d, a)].parent < a
  {
  }

  /** A position is the end of a subtree if nothing before it points out of it and it does. */
  lemma {:induction false} ScanEndUnique(d: Table, a: nat, from: nat, e: nat)
    requires a < |d| && from <= e <= |d|
    requires forall j | from <= j < e :: d[j].parent >= a
    requires e < |d| ==> d[e].parent < a
    ensures ScanEnd(d, a, from) == e
    decreases e - from
  {
    if from < e { ScanEndUnique(d, a, from + 1, e); }
  }

  lemma {:induction false} SubtreeIsInterval(d: Table, a: nat, j: nat)
    requires WellFormed(d) && a < |d| && j < |d|
    ensures IsAncestorOrSelf(d, a, j) <==> a <= j < End(d, a)
    decreases j
  {
    AboutEnd(d, a);
    if j > a {
      SubtreeIsInterval(d, a, d[j].parent);
      if j < End(d, a) {
        assert d[j].parent >= a;
      } else if d[j].parent >= a {
        var e := End(d, a);
        NestedAt(d, j, e);
      }
    } else if j < a {
      if j > 0 { SubtreeIsInterval(d, a, d[j].parent); }
    }
  }

  lemma SubtreeNested(d: Table, a: nat, b: nat)
    requires WellFormed(d) && a < |d| && a <= b < End(d, a)
    ensures End(d, b) <= End(d, a)
    ensures b > a ==> a <= Parent(d, b)
  {
    AboutEnd(d, a);
    AboutEnd(d, b);
  }

  // ------------------------------------------------------------------ links

  /** The first child of `p` at or after position `from`, or -1. */
  function FirstWithParent(d: Table, p: int, from: nat): (r: int)
    requires from <= |d|
    ensures r == -1 || (from <= r < |d| && d[r].parent == p)
    decreases |d| - from
  {
    if from == |d| then -1 else if d[from].parent == p then from else FirstWithParent(d, p, from + 1)
  }

  lemma {:induction false} NoneBeforeFirst(d: Table, p: int, from: nat)
    requires from <= |d|
    ensures var r := FirstWithParent(d, p, from);
            forall j | from <= j < (if r == -1 then |d| else r) :: d[j].parent != p
    decreases |d| - from
  {
    if from < |d| { NoneBeforeFirst(d, p, from + 1); }
  }

  /** The last child of `p` before position `to`, or -1. */
  function LastWithParent(d: Table, p: int, to: nat): (r: int)
    requires to <= |d|
    ensures r == -1 || (0 <= r < to && d[r].parent == p)
  {
    if to == 0 then -1 else if d[to - 1].parent == p then to - 1 else LastWithParent(d, p, to - 1)
  }

  lemma {:induction false} NoneAfterLast(d: Table, p: int, to: nat)
    requires to <= |d|
    ensures forall j | LastWithParent(d, p, to) < j < to :: d[j].parent != p
  {
    if to > 0 { NoneAfterLast(d, p, to - 1); }
  }

  function Parent(d: Table, i: nat): (p: int)
    requires WellFormed(d) && i < |d|
    ensures p == d[i].parent && -1 <= p < i && (p == -1 <==> i == 0)
  {
    d[i].parent
  }

  function FirstChild(d: Table, i: nat): int
    requires i < |d|
  {
    FirstWithParent(d, i, i + 1)
  }

  function NextSibling(d: Table, i: nat): int
    requires i < |d|
  {
    if i == 0 then -1 else FirstWithParent(d, d[i].parent, i + 1)
  }

  /** The previous sibling; for a first child the last sibling, and for the root the root itself. */
  function PrevSiblingCyclic(d: Table, i: nat): int
    requires WellFormed(d) && i < |d|
  {
    if i == 0 then 0
    else
      var prev := LastWithParent(d, d[i].parent, i);
      if prev != -1 then prev else LastWithParent(d, d[i].parent, |d|)
  }

  lemma FirstChildIsNextRow(d: Table, i: nat)
    requires WellFormed(d) && i < |d|
    ensures FirstChild(d, i) == (if End(d, i) > i + 1 then i + 1 else -1)
  {
    AboutEnd(d, i);
    NoneBeforeFirst(d, i, i + 1);
    if End(d, i) > i + 1 {
      assert d[i + 1].parent >= i;
    } else {
      var c := FirstChild(d, i);
      NestedAt(d, c, i + 1);
    }
  }

  /** A node with a next sibling is followed, after its subtree, by that sibling; without one its
    subtree ends where its parent's does. */
  lemma NextSiblingIsEnd(d: Table, i: nat)
    requires WellFormed(d) && i < |d|
    ensures NextSibling(d, i) != -1 ==> i > 0 && NextSibling(d, i) == End(d, i) && d[End(d, i)].parent == d[i].parent
    ensures NextSibling(d, i) == -1 && i > 0 ==> End(d, d[i].parent) == End(d, i)
    ensures i == 0 ==> End(d, i) == |d|
  {
    if i > 0 {
      var e, p := End(d, i), d[i].parent;
      var s := NextSibling(d, i);
      AboutEnd(d, i);
      NoneBeforeFirst(d, p, i + 1);
      assert forall j | i < j < e :: d[j].parent >= i > p;
      if s != -1 {
        assert s >= e;
        NestedAt(d, s, e);
        NestedAt(d, e, i);
      } else {
        NestedAt(d, e, i);
        assert forall j | p < j < e :: d[j].parent >= p by {
          forall j | p < j < e ensures d[j].parent >= p {
            NestedAt(d, i, j);
          }
        }
        ScanEndUnique(d, p, p + 1, e);
      }
    } else {
      AboutEnd(d, 0);
    }
  }

  lemma NextWithinParent(d: Table, i: nat)
    requires WellFormed(d) && i < |d| && NextSibling(d, i) != -1
    ensures i > 0 && NextSibling(d, i) < End(d, Parent(d, i))
  {
    NextSiblingIsEnd(d, i);
    SubtreeIsInterval(d, Parent(d, i), NextSibling(d, i));
  }

  lemma LastChildEndsParent(d: Table, p: nat)
    requires WellFormed(d) && p < |d| && FirstChild(d, p) != -1
    ensures var c := PrevSiblingCyclic(d, FirstChild(d, p));
            && p < c < |d| && d[c].parent == p && End(d, c) == End(d, p)
  {
    var f := FirstChild(d, p);
    NoneBeforeFirst(d, p, p + 1);
    NoneAfterLast(d, p, |d|);
    assert LastWithParent(d, p, f) == -1;
    var c := LastWithParent(d, p, |d|);
    assert c >= f;
    assert NextSibling(d, c) == -1;
    NextSiblingIsEnd(d, c);
  }

  /** `prev_sibling_c` leads to a node with a next sibling exactly for a node that is not first. */
  lemma PrevSiblingLeadsBack(d: Table, i: nat)
    requires WellFormed(d) && i < |d|
    ensures var q := PrevSiblingCyclic(d, i);
            && 0 <= q < |d|
            && (NextSibling(d, q) != -1
               ==> 0 < q < i && NextSibling(d, q) == i && End(d, q) == i && d[q].parent == d[i].parent)
            && (NextSibling(d, q) != -1 ==> q == LastWithParent(d, d[i].parent, i))
            && (NextSibling(d, q) == -1 ==> i == 0 || (i - 1 == d[i].parent))
            && (NextSibling(d, q) == -1 && i > 0 ==> LastWithParent(d, d[i].parent, i) == -1)
  {
    if i > 0 {
      var p := d[i].parent;
      var prev := LastWithParent(d, p, i);
      NoneAfterLast(d, p, i);
      if prev != -1 {
        assert prev > 0;
        NoneBeforeFirst(d, p, prev + 1);
        assert NextSibling(d, prev) == i;
        NextSiblingIsEnd(d, prev);
      } else {
        var q := LastWithParent(d, p, |d|);
        NoneAfterLast(d, p, |d|);
        assert q >= i;
        assert NextSibling(d, q) == -1;
        NoneBeforeFirst(d, p, p + 1);
        assert FirstChild(d, p) == i;
        FirstChildIsNextRow(d, p);
      }
    }
  }
}
