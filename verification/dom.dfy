/** The linked form of the mutable tree.

  A node points to its parent, its first child and its next sibling, and to its previous sibling in a
  cyclic way: the first child points to the last. `Valid` says that these pointers spell out one list
  of children per node, given by a ghost map; every operation on the pointers is proved to be the
  matching operation on those lists. */
module Dom {
  import opened Document

  class Node {
    var data: NodeData
    var parent: Node?
    var firstChild: Node?
    var nextSibling: Node?
    var prevCyclic: Node?

    constructor (d: NodeData)
      ensures data == d && parent == null && firstChild == null && nextSibling == null && prevCyclic == null
    {
      data, parent, firstChild, nextSibling, prevCyclic := d, null, null, null, null;
    }
  }

  /** The children of every node, in order. */
  type Kids = map<Node, seq<Node>>

  /** The pointers of one node. */
  datatype Links = Links(parent: Node?, first: Node?, next: Node?, prev: Node?)

  type LinkMap = map<Node, Links>

  ghost function LinksOf(nodes: set<Node>): LinkMap
    reads nodes
  {
    map n | n in nodes :: Links(n.parent, n.firstChild, n.nextSibling, n.prevCyclic)
  }

  // ------------------------------------------------------------------ one list per node

  ghost predicate Distinct(s: seq<Node>) {
    forall i, j | 0 <= i < j < |s| :: s[i] != s[j]
  }

  lemma DistinctAt(s: seq<Node>, i: nat, j: nat)
    requires Distinct(s) && i < |s| && j < |s|
    ensures s[i] == s[j] <==> i == j
  {
    assert i < j ==> s[i] != s[j];
    assert j < i ==> s[j] != s[i];
  }

  /** The links of child number `i`. */
  ghost predicate SpellsAt(l: LinkMap, n: Node, s: seq<Node>, i: nat)
    requires i < |s| && s[i] in l
  {
    l[s[i]] == Links(n, l[s[i]].first, if i + 1 < |s| then s[i + 1] else null, if i > 0 then s[i - 1] else s[|s| - 1])
  }

  ghost predicate Within(l: LinkMap, s: seq<Node>) {
    forall c | c in s :: c in l
  }

  /** The links around node `n` spell out the list `s`. */
  ghost predicate Spells(l: LinkMap, n: Node, s: seq<Node>)
    requires n in l && Within(l, s)
  {
    && Distinct(s)
    && l[n].first == (if s == [] then null else s[0])
    && (forall i {:trigger SpellsAt(l, n, s, i)} | 0 <= i < |s| :: SpellsAt(l, n, s, i))
  }

  ghost predicate Closed(l: LinkMap, kids: Kids) {
    kids.Keys == l.Keys && forall n {:trigger kids[n]} | n in kids :: Within(l, kids[n])
  }

  /** The links are one list of children per node, and whatever has a parent is in its list. */
  ghost predicate Lists(l: LinkMap, kids: Kids) {
    && Closed(l, kids)
    && (forall n {:trigger kids[n]} | n in kids :: Spells(l, n, kids[n]))
    && (forall n {:trigger l[n].parent} | n in l && l[n].parent != null :: l[n].parent in l && n in kids[l[n].parent])
  }

  ghost predicate Valid(nodes: set<Node>, kids: Kids)
    reads nodes
  {
    Lists(LinksOf(nodes), kids)
  }

  lemma InList(l: LinkMap, kids: Kids, n: Node, c: Node)
    requires Lists(l, kids) && n in kids && c in l
    ensures c in kids[n] <==> l[c].parent == n
  {
    if c in kids[n] {
      assert Spells(l, n, kids[n]);
      assert SpellsAt(l, n, kids[n], IndexIn(kids[n], c));
    }
  }

  /** A list is still spelled out if nothing on it, nor its owner's first link, has changed. */
  lemma SpellsSame(l: LinkMap, m: LinkMap, n: Node, s: seq<Node>)
    requires n in l && n in m && Within(l, s) && Within(m, s) && Spells(l, n, s) && m[n].first == l[n].first
    requires forall c | c in s :: m[c].parent == l[c].parent && m[c].next == l[c].next && m[c].prev == l[c].prev
    ensures Spells(m, n, s)
  {
    forall i | 0 <= i < |s| ensures SpellsAt(m, n, s, i) {
      assert s[i] in s;
      assert SpellsAt(l, n, s, i);
    }
  }

  /** Links that no list but one depends on may change. */
  lemma OneListChanged(l: LinkMap, kids: Kids, m: LinkMap, p: Node, s: seq<Node>)
    requires Lists(l, kids) && p in kids && m.Keys == l.Keys && Within(m, s)
    requires Spells(m, p, s)
    requires forall n | n in l && n != p :: m[n].first == l[n].first
    requires forall c | c in l && c !in kids[p] && c !in s ::
             m[c].parent == l[c].parent && m[c].next == l[c].next && m[c].prev == l[c].prev
    requires forall c | c in s && c !in kids[p] :: l[c].parent == null
    requires forall c | c in kids[p] && c !in s :: m[c].parent == null
    ensures Lists(m, kids[p := s])
  {
    hide Spells, Distinct;
    var kids' := kids[p := s];
    forall n | n in kids' ensures Spells(m, n, kids'[n]) {
      if n != p {
        forall c | c in kids[n] ensures c !in s && c !in kids[p] { InList(l, kids, n, c); InList(l, kids, p, c); }
        SpellsSame(l, m, n, kids[n]);
      }
    }
    forall n | n in m && m[n].parent != null ensures m[n].parent in m && n in kids'[m[n].parent] {
      if n in s {
        ParentOf(m, p, s, n);
      } else {
        assert n !in kids[p];
        assert l[n].parent == m[n].parent;
        InList(l, kids, p, n);
      }
    }
  }

  lemma ParentOf(l: LinkMap, p: Node, s: seq<Node>, c: Node)
    requires p in l && Within(l, s) && Spells(l, p, s) && c in s
    ensures l[c].parent == p
  {
    assert SpellsAt(l, p, s, IndexIn(s, c));
  }

  // ------------------------------------------------------------------ what each operation does to the links

  /** A node in no list. */
  ghost predicate Detached(l: LinkMap, n: Node) {
    n in l && l[n].parent == null && l[n].next == null
  }

  function IndexIn(s: seq<Node>, c: Node): (i: nat)
    requires c in s
    ensures i < |s| && s[i] == c
  {
    if s[0] == c then 0 else IndexIn(s[1..], c) + 1
  }

  function Inserted(s: seq<Node>, i: nat, c: Node): (t: seq<Node>)
    requires i <= |s|
    ensures |t| == |s| + 1 && t[i] == c
    ensures forall k {:trigger t[k]} | 0 <= k < |t| :: t[k] == if k < i then s[k] else if k == i then c else s[k - 1]
    ensures c in t && (forall x | x in s :: x in t) && forall x | x in t :: x == c || x in s
  {
    var t := s[..i] + [c] + s[i..];
    assert s == s[..i] + s[i..];
    t
  }

  function Removed(s: seq<Node>, i: nat): (t: seq<Node>)
    requires i < |s|
    ensures |t| == |s| - 1
    ensures forall k {:trigger t[k]} | 0 <= k < |t| :: t[k] == if k < i then s[k] else s[k + 1]
    ensures forall x | x in t :: x in s
    ensures forall x | x in s && x != s[i] :: x in t
  {
    assert s == s[..i] + [s[i]] + s[i + 1..];
    s[..i] + s[i + 1..]
  }

  /** The links after inserting detached node `c` as child number `i` of `p`: the nodes before and after
    it point to it, cyclically for the previous links, and the first link of `p` if it comes first. */
  function InsertedLinks(l: LinkMap, p: Node, s: seq<Node>, i: nat, c: Node): (m: LinkMap)
    requires p in l && c in l && Within(l, s) && i <= |s|
    ensures m.Keys == l.Keys
  {
    map n | n in l ::
      Links(if n == c then p else l[n].parent,
            if n == p && i == 0 then c else l[n].first,
            if n == c then (if i < |s| then s[i] else null) else if i > 0 && n == s[i - 1] then c else l[n].next,
            if n == c then (if s == [] then c else if i > 0 then s[i - 1] else s[|s| - 1])
            else if s != [] && n == s[if i < |s| then i else 0] then c else l[n].prev)
  }

  lemma InsertSpells(l: LinkMap, p: Node, s: seq<Node>, i: nat, c: Node)
    requires p in l && c in l && Within(l, s) && i <= |s| && Spells(l, p, s) && c !in s
    ensures Spells(InsertedLinks(l, p, s, i, c), p, Inserted(s, i, c))
  {
    var t, m := Inserted(s, i, c), InsertedLinks(l, p, s, i, c);
    InsertDistinct(s, i, c);
    forall k | 0 <= k < |t| ensures SpellsAt(m, p, t, k) {
      if k != i {
        InsertSpellsAt(l, p, s, i, c, if k < i then k else k - 1);
      }
    }
  }

  lemma InsertDistinct(s: seq<Node>, i: nat, c: Node)
    requires i <= |s| && Distinct(s) && c !in s
    ensures Distinct(Inserted(s, i, c))
  {
    var t := Inserted(s, i, c);
    forall j, k | 0 <= j < k < |t| ensures t[j] != t[k] {
      if j != i && k != i { DistinctAt(s, if j < i then j else j - 1, if k < i then k else k - 1); }
    }
  }

  lemma InsertSpellsAt(l: LinkMap, p: Node, s: seq<Node>, i: nat, c: Node, j: nat)
    requires p in l && c in l && Within(l, s) && i <= |s| && Spells(l, p, s) && c !in s && j < |s|
    ensures SpellsAt(InsertedLinks(l, p, s, i, c), p, Inserted(s, i, c), if j < i then j else j + 1)
  {
    assert SpellsAt(l, p, s, j);
    if i > 0 { DistinctAt(s, j, i - 1); }
    DistinctAt(s, j, if i < |s| then i else 0);
    hide Spells, Distinct;
  }

  lemma InsertKeepsLists(l: LinkMap, kids: Kids, p: Node, i: nat, c: Node)
    requires Lists(l, kids) && p in kids && Detached(l, c) && i <= |kids[p]|
    ensures Lists(InsertedLinks(l, p, kids[p], i, c), kids[p := Inserted(kids[p], i, c)])
  {
    InList(l, kids, p, c);
    assert Spells(l, p, kids[p]);
    InsertSpells(l, p, kids[p], i, c);
    hide Spells, Distinct, Lists;
    OneListChanged(l, kids, InsertedLinks(l, p, kids[p], i, c), p, Inserted(kids[p], i, c));
  }

  /** The links after taking child number `i` out of the list of `p`. */
  function RemovedLinks(l: LinkMap, p: Node, s: seq<Node>, i: nat): (m: LinkMap)
    requires p in l && Within(l, s) && i < |s|
    ensures m.Keys == l.Keys
  {
    map n | n in l ::
      if n == s[i] then Links(null, if n == p && i == 0 then (if |s| > 1 then s[1] else null)
          else l[n].first, null, null)
      else
        Links(l[n].parent,
              if n == p && i == 0 then (if |s| > 1 then s[1] else null) else l[n].first,
              if i > 0 && n == s[i - 1] then (if i + 1 < |s| then s[i + 1] else null) else l[n].next,
              if n == s[if i + 1 < |s| then i + 1 else 0] then (if i > 0 then s[i - 1] else s[|s| - 1]) else l[n].prev)
  }

  lemma RemoveSpells(l: LinkMap, p: Node, s: seq<Node>, i: nat)
    requires p in l && Within(l, s) && i < |s| && Spells(l, p, s)
    ensures Spells(RemovedLinks(l, p, s, i), p, Removed(s, i))
  {
    var t, m := Removed(s, i), RemovedLinks(l, p, s, i);
    RemoveDistinct(s, i);
    forall k | 0 <= k < |t| ensures SpellsAt(m, p, t, k) {
      RemoveSpellsAt(l, p, s, i, if k < i then k else k + 1);
    }
  }

  lemma RemoveDistinct(s: seq<Node>, i: nat)
    requires i < |s| && Distinct(s)
    ensures Distinct(Removed(s, i)) && s[i] !in Removed(s, i)
  {
    var t := Removed(s, i);
    forall j, k | 0 <= j < k < |t| ensures t[j] != t[k] {
      DistinctAt(s, if j < i then j else j + 1, if k < i then k else k + 1);
    }
    forall k | 0 <= k < |t| ensures t[k] != s[i] { DistinctAt(s, if k < i then k else k + 1, i); }
  }

  lemma RemoveSpellsAt(l: LinkMap, p: Node, s: seq<Node>, i: nat, j: nat)
    requires p in l && Within(l, s) && i < |s| && Spells(l, p, s) && j < |s| && j != i
    ensures SpellsAt(RemovedLinks(l, p, s, i), p, Removed(s, i), if j < i then j else j - 1)
  {
    assert SpellsAt(l, p, s, j);
    DistinctAt(s, j, i);
    if i > 0 { DistinctAt(s, j, i - 1); }
    DistinctAt(s, j, if i + 1 < |s| then i + 1 else 0);
    hide Spells, Distinct;
  }

  lemma RemoveKeepsLists(l: LinkMap, kids: Kids, p: Node, i: nat)
    requires Lists(l, kids) && p in kids && i < |kids[p]|
    ensures Lists(RemovedLinks(l, p, kids[p], i), kids[p := Removed(kids[p], i)])
    ensures Detached(RemovedLinks(l, p, kids[p], i), kids[p][i])
  {
    assert Spells(l, p, kids[p]);
    RemoveSpells(l, p, kids[p], i);
    RemoveDistinct(kids[p], i);
    hide Spells, Distinct, Lists;
    OneListChanged(l, kids, RemovedLinks(l, p, kids[p], i), p, Removed(kids[p], i));
  }

  // ------------------------------------------------------------------ the operations on the pointers

  /** Nothing but links has changed, and no parent but that of `child`. */
  twostate predicate OnlyLinksOf(nodes: set<Node>, child: Node)
    reads nodes
  {
    forall n | n in nodes :: n.data == old(n.data) && (n != child ==> n.parent == old(n.parent))
  }

  lemma FirstAndLast(l: LinkMap, kids: Kids, p: Node)
    requires Lists(l, kids) && p in kids
    ensures var s := kids[p];
            && Within(l, s)
            && l[p].first == (if s == [] then null else s[0])
            && (s != [] ==> s[0] in l && l[s[0]].prev == s[|s| - 1] && s[|s| - 1] in l && l[s[0]].parent == p)
  {
    var s := kids[p];
    assert Spells(l, p, s);
    if s != [] {
      assert SpellsAt(l, p, s, 0);
      assert s[|s| - 1] in s;
    }
  }

  lemma Around(l: LinkMap, kids: Kids, p: Node, i: nat)
    requires Lists(l, kids) && p in kids && i < |kids[p]|
    ensures var s := kids[p];
            && s[i] in l
            && l[s[i]].parent == p
            && l[s[i]].next == (if i + 1 < |s| then s[i + 1] else null)
            && l[s[i]].prev == (if i > 0 then s[i - 1] else s[|s| - 1])
            && (i > 0 ==> s[i - 1] in l && l[s[i - 1]].next == s[i])
            && s[|s| - 1] in l && l[s[|s| - 1]].next == null
            && (i + 1 < |s| ==> s[i + 1] in l)
            && s[0] in l && l[p].first == s[0]
  {
    var s := kids[p];
    assert Spells(l, p, s);
    assert SpellsAt(l, p, s, i);
    if i > 0 { assert SpellsAt(l, p, s, i - 1); }
    assert SpellsAt(l, p, s, |s| - 1);
  }

  ghost function LinksAt(n: Node): Links
    reads n
  {
    Links(n.parent, n.firstChild, n.nextSibling, n.prevCyclic)
  }

  /** The links of `n` once `c` stands in the list of `p` between `before` and `after`; `wrap` is the node
    whose previous node it has become, `prev` its own. */
  function Spliced(x: Links, n: Node, c: Node, p: Node, before: Node?, after: Node?, wrap: Node, prev: Node): Links {
    Links(if n == c then p else x.parent,
          if n == p && before == null then c else x.first,
          if n == c then after else if n == before then c else x.next,
          if n == c then prev else if n == wrap then c else x.prev)
  }

  /** The links of `n` once `c` has been taken out from between `before` and `after`. */
  function Unspliced(x: Links, n: Node, c: Node, p: Node, before: Node?, after: Node?, wrap: Node, prev: Node): Links {
    Links(if n == c then null else x.parent,
          if n == p && before == null then after else x.first,
          if n == c then null else if n == before then after else x.next,
          if n == c then null else if n == wrap then prev else x.prev)
  }

  function Before(s: seq<Node>, i: nat): Node?
    requires i <= |s|
  {
    if i > 0 then s[i - 1] else null
  }

  function After(s: seq<Node>, i: nat): Node? {
    if i < |s| then s[i] else null
  }

  /** The node whose previous link points to position `i`. */
  function Wrap(s: seq<Node>, i: nat, c: Node): Node {
    if s == [] then c else s[if i < |s| then i else 0]
  }

  function Prev(s: seq<Node>, i: nat, c: Node): Node
    requires i <= |s|
  {
    if s == [] then c else if i > 0 then s[i - 1] else s[|s| - 1]
  }

  lemma SplicedIsInserted(l: LinkMap, m: LinkMap, p: Node, s: seq<Node>, i: nat, c: Node)
    requires p in l && c in l && Within(l, s) && i <= |s| && m.Keys == l.Keys
    requires forall n | n in l ::
             m[n] == Spliced(l[n], n, c, p, Before(s, i), After(s, i), Wrap(s, i, c), Prev(s, i, c))
    ensures m == InsertedLinks(l, p, s, i, c)
  {
    var t := InsertedLinks(l, p, s, i, c);
    forall n | n in l ensures m[n] == t[n] {}
  }

  lemma UnsplicedIsRemoved(l: LinkMap, m: LinkMap, p: Node, s: seq<Node>, i: nat)
    requires p in l && Within(l, s) && i < |s| && m.Keys == l.Keys
    requires forall n | n in l ::
             m[n] == Unspliced(l[n], n, s[i], p, Before(s, i), After(s, i + 1), Wrap(s, i + 1, s[i]), Prev(s, i, s[i]))
    ensures m == RemovedLinks(l, p, s, i)
  {
    var t := RemovedLinks(l, p, s, i);
    forall n | n in l ensures m[n] == t[n] {}
  }

  // ------------------------------------------------------------------ the pointer assignments

  method SpliceLast(child: Node, node: Node, ghost nodes: set<Node>, ghost before: Node?, ghost wrap: Node,
      ghost prev: Node)
    requires child in nodes && node in nodes && child.nextSibling == null
    requires if node.firstChild == null then before == null && wrap == prev == child
             else before in nodes && wrap in nodes && before == prev == node.firstChild.prevCyclic
                  && wrap == node.firstChild
                  && child != before && child != wrap
    modifies nodes
    ensures forall n | n in nodes ::
            n.data == old(n.data) && LinksAt(n) == Spliced(old(LinksAt(n)), n, child, node, before, null, wrap, prev)
  {
    child.parent := node;
    var head := node.firstChild;
    if head != null {
      var tail := head.prevCyclic;
      tail.nextSibling := child;
      child.prevCyclic := tail;
      head.prevCyclic := child;
    } else {
      node.firstChild := child;
      child.prevCyclic := child;
    }
  }

  method SpliceFirst(child: Node, node: Node, ghost nodes: set<Node>, ghost wrap: Node, ghost prev: Node)
    requires child in nodes && node in nodes
    requires if node.firstChild == null then wrap == prev == child
             else prev in nodes && wrap in nodes && prev == node.firstChild.prevCyclic && wrap == node.firstChild
                  && child != wrap
    modifies nodes
    ensures forall n | n in nodes ::
            n.data == old(n.data)
            && LinksAt(n) == Spliced(old(LinksAt(n)), n, child, node, null, old(node.firstChild), wrap, prev)
  {
    child.parent := node;
    var head := node.firstChild;
    if head != null {
      child.prevCyclic := head.prevCyclic;
      head.prevCyclic := child;
    } else {
      child.prevCyclic := child;
    }
    child.nextSibling := head;
    node.firstChild := child;
  }

  method SpliceAfter(child: Node, node: Node, ghost nodes: set<Node>, ghost wrap: Node)
    requires child in nodes && node in nodes && node.parent != null && node.parent in nodes
             && node.parent.firstChild != null
    requires wrap in nodes && wrap == if node.nextSibling != null then node.nextSibling else node.parent.firstChild
    requires child != node && child != wrap
    modifies nodes
    ensures forall n | n in nodes :: n.data == old(n.data)
              && LinksAt(n) == Spliced(old(LinksAt(n)), n, child, old(node.parent), node, old(node.nextSibling), wrap,
                   node)
  {
    var parent := node.parent;
    child.parent := parent;
    var next := node.nextSibling;
    if next != null {
      next.prevCyclic := child;
    } else {
      parent.firstChild.prevCyclic := child;
    }
    child.nextSibling := next;
    child.prevCyclic := node;
    node.nextSibling := child;
  }

  method SpliceBefore(child: Node, node: Node, ghost nodes: set<Node>, ghost before: Node?, ghost prev: Node)
    requires child in nodes && node in nodes && node.parent != null && node.parent in nodes
    requires prev in nodes && prev == node.prevCyclic && child != prev && child != node
    requires before == if prev.nextSibling != null then prev else null
    modifies nodes
    ensures forall n | n in nodes :: n.data == old(n.data)
              && LinksAt(n) == Spliced(old(LinksAt(n)), n, child, old(node.parent), before, node, node, prev)
  {
    var parent := node.parent;
    child.parent := parent;
    var prev_ := node.prevCyclic;
    if prev_.nextSibling != null {
      prev_.nextSibling := child;
    } else {
      parent.firstChild := child;
    }
    child.prevCyclic := prev_;
    child.nextSibling := node;
    node.prevCyclic := child;
  }

  method Unsplice(node: Node, ghost nodes: set<Node>, ghost before: Node?, ghost wrap: Node)
    requires node in nodes && node.parent != null && node.parent in nodes && node.parent.firstChild != null
             && node.prevCyclic != null && node.prevCyclic in nodes
    requires wrap in nodes && wrap == if node.nextSibling != null then node.nextSibling else node.parent.firstChild
    requires before == if node.prevCyclic.nextSibling != null then node.prevCyclic else null
    requires node != before && (node == wrap ==> node.prevCyclic == node)
    modifies nodes
    ensures forall n | n in nodes :: n.data == old(n.data)
              && LinksAt(n) == Unspliced(old(LinksAt(n)), n, node, old(node.parent), before, old(node.nextSibling),
                   wrap, old(node.prevCyclic))
  {
    var parent := node.parent;
    var next := node.nextSibling;
    var prev := node.prevCyclic;
    if next != null {
      next.prevCyclic := prev;
    } else {
      parent.firstChild.prevCyclic := prev;
    }
    if prev.nextSibling != null {
      prev.nextSibling := next;
    } else {
      parent.firstChild := next;
    }
    node.parent := null;
    node.prevCyclic := null;
    node.nextSibling := null;
  }

  // ------------------------------------------------------------------ the operations on the lists

  ghost function PutLast(kids: Kids, p: Node, c: Node): Kids
    requires p in kids
  {
    kids[p := Inserted(kids[p], |kids[p]|, c)]
  }

  ghost function PutFirst(kids: Kids, p: Node, c: Node): Kids
    requires p in kids
  {
    kids[p := Inserted(kids[p], 0, c)]
  }

  ghost function PutAfter(kids: Kids, p: Node, n: Node, c: Node): Kids
    requires p in kids && n in kids[p]
  {
    kids[p := Inserted(kids[p], IndexIn(kids[p], n) + 1, c)]
  }

  ghost function PutBefore(kids: Kids, p: Node, n: Node, c: Node): Kids
    requires p in kids && n in kids[p]
  {
    kids[p := Inserted(kids[p], IndexIn(kids[p], n), c)]
  }

  ghost function Taken(kids: Kids, p: Node, c: Node): Kids
    requires p in kids && c in kids[p]
  {
    kids[p := Removed(kids[p], IndexIn(kids[p], c))]
  }

  /** `append_node`. */
  method AppendNode(child: Node, node: Node, ghost nodes: set<Node>, ghost kids: Kids)
    requires Valid(nodes, kids) && child in nodes && node in nodes && Detached(LinksOf(nodes), child)
    modifies nodes
    ensures Valid(nodes, PutLast(kids, node, child))
    ensures OnlyLinksOf(nodes, child) && child.parent == node
  {
    ghost var l, s := LinksOf(nodes), kids[node];
    FirstAndLast(l, kids, node);
    InList(l, kids, node, child);
    InsertKeepsLists(l, kids, node, |s|, child);
    hide Lists, InsertedLinks, Inserted;
    SpliceLast(child, node, nodes, Before(s, |s|), Wrap(s, |s|, child), Prev(s, |s|, child));
    SplicedIsInserted(l, LinksOf(nodes), node, s, |s|, child);
  }

  /** `prepend_node`. */
  method PrependNode(child: Node, node: Node, ghost nodes: set<Node>, ghost kids: Kids)
    requires Valid(nodes, kids) && child in nodes && node in nodes && Detached(LinksOf(nodes), child)
    modifies nodes
    ensures Valid(nodes, PutFirst(kids, node, child))
    ensures OnlyLinksOf(nodes, child) && child.parent == node
  {
    ghost var l, s := LinksOf(nodes), kids[node];
    FirstAndLast(l, kids, node);
    InList(l, kids, node, child);
    InsertKeepsLists(l, kids, node, 0, child);
    hide Lists, InsertedLinks, Inserted;
    SpliceFirst(child, node, nodes, Wrap(s, 0, child), Prev(s, 0, child));
    SplicedIsInserted(l, LinksOf(nodes), node, s, 0, child);
  }

  /** What stands around child number `i`, as the pointers say it. */
  lemma Neighbours(l: LinkMap, kids: Kids, c: Node) returns (p: Node, i: nat)
    requires Lists(l, kids) && c in l && l[c].parent != null
    ensures p == l[c].parent && p in kids && p in l && c in kids[p] && i == IndexIn(kids[p], c) && Within(l, kids[p])
    ensures var s := kids[p];
            && l[p].first != null && l[p].first in l
            && l[c].prev != null && l[c].prev in l && (l[c].next != null ==> l[c].next in l)
            && After(s, i + 1) == l[c].next && After(s, i) == c && Before(s, i + 1) == c && Prev(s, i + 1, c) == c
            && Prev(s, i, c) == l[c].prev && Before(s, i) == (if l[l[c].prev].next != null then l[c].prev else null)
            && Wrap(s, i + 1, c) == (if l[c].next != null then l[c].next else l[p].first) && Wrap(s, i, c) == c
            && Wrap(s, i + 1, c) in l
            && c != Before(s, i) && (c == Wrap(s, i + 1, c) ==> l[c].prev == c)
            && Wrap(s, i + 1, c) in s && Prev(s, i, c) in s
  {
    p := l[c].parent;
    var s := kids[p];
    i := IndexIn(s, c);
    Around(l, kids, p, i);
    ListDistinct(l, kids, p);
    if i > 0 { DistinctAt(s, i, i - 1); }
    DistinctAt(s, i, if i + 1 < |s| then i + 1 else 0);
    hide Lists, Distinct, Spells;
  }

  lemma SameAround(s: seq<Node>, i: nat, c: Node, x: Node)
    requires i <= |s| && s != []
    ensures Wrap(s, i, c) == Wrap(s, i, x) && Prev(s, i, c) == Prev(s, i, x)
  {
  }

  /** `insert_node_after`. */
  method InsertNodeAfter(child: Node, node: Node, ghost nodes: set<Node>, ghost kids: Kids)
    requires Valid(nodes, kids) && child in nodes && node in nodes && Detached(LinksOf(nodes), child)
             && node.parent != null
    modifies nodes
    ensures var p := old(node.parent);
            && p in kids && node in kids[p]
            && Valid(nodes, PutAfter(kids, p, node, child))
            && child.parent == p
    ensures OnlyLinksOf(nodes, child)
  {
    hide Lists, InsertedLinks, Inserted, Before, After, Wrap, Prev, IndexIn, Within;
    ghost var l := LinksOf(nodes);
    ghost var p, i := Neighbours(l, kids, node);
    ghost var s := kids[p];
    SameAround(s, i + 1, node, child);
    InList(l, kids, p, child);
    InsertKeepsLists(l, kids, p, i + 1, child);
    SpliceAfter(child, node, nodes, Wrap(s, i + 1, child));
    SplicedIsInserted(l, LinksOf(nodes), p, s, i + 1, child);
  }

  /** `insert_node_before`. */
  method InsertNodeBefore(child: Node, node: Node, ghost nodes: set<Node>, ghost kids: Kids)
    requires Valid(nodes, kids) && child in nodes && node in nodes && Detached(LinksOf(nodes), child)
             && node.parent != null
    modifies nodes
    ensures var p := old(node.parent);
            && p in kids && node in kids[p]
            && Valid(nodes, PutBefore(kids, p, node, child))
            && child.parent == p
    ensures OnlyLinksOf(nodes, child)
  {
    hide Lists, InsertedLinks, Inserted, Before, After, Wrap, Prev, IndexIn, Within;
    ghost var l := LinksOf(nodes);
    ghost var p, i := Neighbours(l, kids, node);
    ghost var s := kids[p];
    SameAround(s, i, node, child);
    InList(l, kids, p, child);
    InsertKeepsLists(l, kids, p, i, child);
    SpliceBefore(child, node, nodes, Before(s, i), Prev(s, i, child));
    SplicedIsInserted(l, LinksOf(nodes), p, s, i, child);
  }

  /** `remove_node`. */
  method RemoveNode(node: Node, ghost nodes: set<Node>, ghost kids: Kids)
    requires Valid(nodes, kids) && node in nodes && node.parent != null
    modifies nodes
    ensures var p := old(node.parent);
            && p in kids && node in kids[p]
            && Valid(nodes, Taken(kids, p, node))
    ensures Detached(LinksOf(nodes), node)
    ensures OnlyLinksOf(nodes, node)
  {
    ghost var l := LinksOf(nodes);
    ghost var p, i := Neighbours(l, kids, node);
    ghost var s := kids[p];
    RemoveKeepsLists(l, kids, p, i);
    hide Lists, RemovedLinks, Removed, Before, After, Wrap, Prev, Within;
    Unsplice(node, nodes, Before(s, i), Wrap(s, i + 1, node));
    UnsplicedIsRemoved(l, LinksOf(nodes), p, s, i);
  }

  lemma ListDistinct(l: LinkMap, kids: Kids, p: Node)
    requires Lists(l, kids) && p in kids
    ensures Distinct(kids[p])
  {
    assert Spells(l, p, kids[p]);
  }

  // ------------------------------------------------------------------ moving a subtree

  /** A measure that grows from every node to its children: there is no cycle of parents. */
  ghost predicate Ranked(l: LinkMap, h: map<Node, nat>) {
    l.Keys == h.Keys && forall n {:trigger l[n].parent} | n in l && l[n].parent != null ::
      l[n].parent in l && h[l[n].parent] < h[n]
  }

  /** `n` is `c` or one of its descendants. */
  ghost predicate Below(l: LinkMap, h: map<Node, nat>, n: Node, c: Node)
    requires Ranked(l, h) && n in l
    decreases h[n]
  {
    n == c || (l[n].parent != null && Below(l, h, l[n].parent, c))
  }

  /** Moving a node to a place that is not below it leaves no cycle. */
  lemma MovedRanked(l: LinkMap, h: map<Node, nat>, m: LinkMap, c: Node, p: Node) returns (h': map<Node, nat>)
    requires Ranked(l, h) && c in l && p in l && !Below(l, h, p, c) && m.Keys == l.Keys
    requires forall n | n in l :: m[n].parent == if n == c then p else l[n].parent
    ensures Ranked(m, h')
  {
    h' := map n | n in l :: if Below(l, h, n, c) then h[n] + h[p] + 1 else h[n];
    forall n | n in m && m[n].parent != null ensures m[n].parent in m && h'[m[n].parent] < h'[n] {
      assert l[n].parent != null ==> l[n].parent in l;
    }
  }

  /** `allow_insert_child`. */
  predicate AllowInsertChild(parent: NodeType, child: NodeType) {
    && (parent == DocumentNode || parent == Element)
    && child != DocumentNode
    && (parent != DocumentNode ==> child != Declaration && child != Doctype)
  }

  /** Only the document stands alone. */
  ghost predicate Attached(nodes: set<Node>)
    reads nodes
  {
    forall n | n in nodes && n.parent == null :: n.data.kind == DocumentNode
  }

  /** `allow_move`: the kinds fit, and the new parent is not in the subtree that is moved. */
  method AllowMove(parent: Node, child: Node, ghost nodes: set<Node>, ghost h: map<Node, nat>) returns (ok: bool)
    requires Ranked(LinksOf(nodes), h) && parent in nodes && child in nodes
    ensures ok <==> AllowInsertChild(parent.data.kind, child.data.kind) && !Below(LinksOf(nodes), h, parent, child)
  {
    if !AllowInsertChild(parent.data.kind, child.data.kind) { return false; }
    ghost var l := LinksOf(nodes);
    var cur: Node? := parent;
    while cur != null
      invariant cur != null ==> cur in nodes
      invariant Below(l, h, parent, child) <==> cur != null && Below(l, h, cur, child)
      decreases if cur == null then 0 else h[cur] + 1
    {
      if cur == child { return false; }
      assert l[cur].parent == cur.parent;
      cur := cur.parent;
    }
    return true;
  }

  /** Everything a move needs to know of the tree. */
  ghost predicate Tree(nodes: set<Node>, kids: Kids, h: map<Node, nat>)
    reads nodes
  {
    Valid(nodes, kids) && Ranked(LinksOf(nodes), h) && Attached(nodes)
  }

  ghost predicate MayMove(nodes: set<Node>, h: map<Node, nat>, parent: Node, c: Node)
    requires Ranked(LinksOf(nodes), h) && parent in nodes && c in nodes
    reads nodes
  {
    AllowInsertChild(parent.data.kind, c.data.kind) && !Below(LinksOf(nodes), h, parent, c)
  }

  lemma KnownParents(nodes: set<Node>, l: LinkMap)
    requires l == LinksOf(nodes)
    ensures l.Keys == nodes && forall n | n in nodes :: l[n].parent == n.parent
  {
  }

  /** What was another child of the new parent still is one. */
  lemma StillThere(kids: Kids, q: Node, c: Node, p: Node, n: Node)
    requires q in kids && c in kids[q] && p in kids && n in kids[p] && n != c
    ensures n in Taken(kids, q, c)[p]
  {
  }

  lemma AfterMove(nodes: set<Node>, l: LinkMap, h: map<Node, nat>, c: Node, p: Node) returns (h': map<Node, nat>)
    requires l.Keys == nodes && Ranked(l, h) && c in l && p in l && !Below(l, h, p, c)
    requires forall n | n in nodes :: n.parent == if n == c then p else l[n].parent
    ensures Ranked(LinksOf(nodes), h')
  {
    h' := MovedRanked(l, h, LinksOf(nodes), c, p);
  }

  lemma HasList(nodes: set<Node>, kids: Kids, c: Node)
    requires Valid(nodes, kids) && c in nodes && c.parent != null
    ensures c.parent in nodes && c.parent in kids && c in kids[c.parent]
  {
    assert LinksOf(nodes)[c].parent == c.parent;
  }

  /** `append_move`: the node leaves its list and becomes the last child; the tree stays a tree. */
  method AppendMove(self: Node, moved: Node, ghost nodes: set<Node>, ghost kids: Kids, ghost h: map<Node, nat>)
    returns (ok: bool, ghost kids': Kids, ghost h': map<Node, nat>)
    requires Tree(nodes, kids, h) && self in nodes && moved in nodes
    modifies nodes
    ensures ok == old(MayMove(nodes, h, self, moved))
    ensures !ok ==> unchanged(nodes) && kids' == kids && h' == h
    ensures ok ==> old(moved.parent) in kids && moved in kids[old(moved.parent)]
                   && var k := Taken(kids, old(moved.parent), moved);
                      kids' == PutLast(k, self, moved)
    ensures Tree(nodes, kids', h') && forall n | n in nodes :: n.data == old(n.data)
  {
    kids', h' := kids, h;
    ok := AllowMove(self, moved, nodes, h);
    if ok {
      HasList(nodes, kids, moved);
      ghost var l := LinksOf(nodes);
      KnownParents(nodes, l);
      hide Valid, Ranked, Below, Detached, Inserted, Removed, IndexIn, LinksOf, AllowInsertChild, PutLast, PutFirst,
           PutAfter, PutBefore;
      kids' := Taken(kids, moved.parent, moved);
      RemoveNode(moved, nodes, kids);
      AppendNode(moved, self, nodes, kids');
      kids' := PutLast(kids', self, moved);
      h' := AfterMove(nodes, l, h, moved, self);
    }
  }

  /** `prepend_move`. */
  method PrependMove(self: Node, moved: Node, ghost nodes: set<Node>, ghost kids: Kids, ghost h: map<Node, nat>)
    returns (ok: bool, ghost kids': Kids, ghost h': map<Node, nat>)
    requires Tree(nodes, kids, h) && self in nodes && moved in nodes
    modifies nodes
    ensures ok == old(MayMove(nodes, h, self, moved))
    ensures !ok ==> unchanged(nodes) && kids' == kids && h' == h
    ensures ok ==> old(moved.parent) in kids && moved in kids[old(moved.parent)]
                   && var k := Taken(kids, old(moved.parent), moved);
                      kids' == PutFirst(k, self, moved)
    ensures Tree(nodes, kids', h') && forall n | n in nodes :: n.data == old(n.data)
  {
    kids', h' := kids, h;
    ok := AllowMove(self, moved, nodes, h);
    if ok {
      HasList(nodes, kids, moved);
      ghost var l := LinksOf(nodes);
      KnownParents(nodes, l);
      hide Valid, Ranked, Below, Detached, Inserted, Removed, IndexIn, LinksOf, AllowInsertChild, PutLast, PutFirst,
           PutAfter, PutBefore;
      kids' := Taken(kids, moved.parent, moved);
      RemoveNode(moved, nodes, kids);
      PrependNode(moved, self, nodes, kids');
      kids' := PutFirst(kids', self, moved);
      h' := AfterMove(nodes, l, h, moved, self);
    }
  }

  /** `insert_move_after`. */
  method InsertMoveAfter(self: Node, moved: Node, node: Node, ghost nodes: set<Node>, ghost kids: Kids,
      ghost h: map<Node, nat>)
    returns (ok: bool, ghost kids': Kids, ghost h': map<Node, nat>)
    requires Tree(nodes, kids, h) && self in nodes && moved in nodes && node in nodes
    modifies nodes
    ensures ok == old(MayMove(nodes, h, self, moved) && node.parent == self && moved != node)
    ensures !ok ==> unchanged(nodes) && kids' == kids && h' == h
    ensures ok ==> old(moved.parent) in kids && moved in kids[old(moved.parent)]
                   && var k := Taken(kids, old(moved.parent), moved);
                      node in k[self] && kids' == PutAfter(k, self, node, moved)
    ensures Tree(nodes, kids', h') && forall n | n in nodes :: n.data == old(n.data)
  {
    kids', h' := kids, h;
    ok := AllowMove(self, moved, nodes, h);
    ok := ok && node.parent == self && moved != node;
    if ok {
      HasList(nodes, kids, moved);
      ghost var l := LinksOf(nodes);
      KnownParents(nodes, l);
      hide Valid, Ranked, Below, Detached, Inserted, Removed, IndexIn, LinksOf, AllowInsertChild, PutLast, PutFirst,
           PutAfter, PutBefore;
      HasList(nodes, kids, node);
      StillThere(kids, moved.parent, moved, self, node);
      kids' := Taken(kids, moved.parent, moved);
      hide Taken;
      RemoveNode(moved, nodes, kids);
      InsertNodeAfter(moved, node, nodes, kids');
      kids' := PutAfter(kids', self, node, moved);
      h' := AfterMove(nodes, l, h, moved, self);
    }
  }

  /** `insert_move_before`. */
  method InsertMoveBefore(self: Node, moved: Node, node: Node, ghost nodes: set<Node>, ghost kids: Kids,
      ghost h: map<Node, nat>)
    returns (ok: bool, ghost kids': Kids, ghost h': map<Node, nat>)
    requires Tree(nodes, kids, h) && self in nodes && moved in nodes && node in nodes
    modifies nodes
    ensures ok == old(MayMove(nodes, h, self, moved) && node.parent == self && moved != node)
    ensures !ok ==> unchanged(nodes) && kids' == kids && h' == h
    ensures ok ==> old(moved.parent) in kids && moved in kids[old(moved.parent)]
                   && var k := Taken(kids, old(moved.parent), moved);
                      node in k[self] && kids' == PutBefore(k, self, node, moved)
    ensures Tree(nodes, kids', h') && forall n | n in nodes :: n.data == old(n.data)
  {
    kids', h' := kids, h;
    ok := AllowMove(self, moved, nodes, h);
    ok := ok && node.parent == self && moved != node;
    if ok {
      HasList(nodes, kids, moved);
      ghost var l := LinksOf(nodes);
      KnownParents(nodes, l);
      hide Valid, Ranked, Below, Detached, Inserted, Removed, IndexIn, LinksOf, AllowInsertChild, PutLast, PutFirst,
           PutAfter, PutBefore;
      HasList(nodes, kids, node);
      StillThere(kids, moved.parent, moved, self, node);
      kids' := Taken(kids, moved.parent, moved);
      hide Taken;
      RemoveNode(moved, nodes, kids);
      InsertNodeBefore(moved, node, nodes, kids');
      kids' := PutBefore(kids', self, node, moved);
      h' := AfterMove(nodes, l, h, moved, self);
    }
  }

  // ------------------------------------------------------------------ new children

  /** A node that has been allocated and belongs nowhere yet. */
  predicate Unlinked(n: Node)
    reads n
  {
    n.parent == null && n.firstChild == null && n.nextSibling == null && n.prevCyclic == null
  }

  /** Where among its new siblings a node goes. */
  datatype Spot = AtEnd | AtFront | Behind(node: Node) | InFront(node: Node)

  predicate HasSpot(kids: Kids, p: Node, spot: Spot)
    requires p in kids
  {
    spot.Behind? || spot.InFront? ==> spot.node in kids[p]
  }

  ghost function Put(kids: Kids, p: Node, spot: Spot, c: Node): (kids': Kids)
    requires p in kids && HasSpot(kids, p, spot)
    ensures kids'.Keys == kids.Keys
  {
    match spot
    case AtEnd => PutLast(kids, p, c)
    case AtFront => PutFirst(kids, p, c)
    case Behind(node) => PutAfter(kids, p, node, c)
    case InFront(node) => PutBefore(kids, p, node, c)
  }

  /** The insertion asked for. */
  method InsertAt(child: Node, self: Node, spot: Spot, ghost nodes: set<Node>, ghost kids: Kids)
    requires Valid(nodes, kids) && child in nodes && self in nodes && Detached(LinksOf(nodes), child)
    requires self in kids && HasSpot(kids, self, spot)
             && (spot.Behind? || spot.InFront? ==> spot.node in nodes && spot.node.parent == self)
    modifies nodes
    ensures Valid(nodes, Put(kids, self, spot, child))
    ensures OnlyLinksOf(nodes, child) && child.parent == self
  {
    hide Valid, Detached, PutLast, PutFirst, PutAfter, PutBefore, LinksOf;
    match spot {
      case AtEnd => AppendNode(child, self, nodes, kids);
      case AtFront => PrependNode(child, self, nodes, kids);
      case Behind(node) => InsertNodeAfter(child, node, nodes, kids);
      case InFront(node) => InsertNodeBefore(child, node, nodes, kids);
    }
  }

  /** One more node, in no list and with an empty list of its own. */
  lemma WithNew(l: LinkMap, kids: Kids, m: LinkMap, c: Node)
    requires Lists(l, kids) && c !in l && m.Keys == l.Keys + {c} && forall n | n in l :: m[n] == l[n]
    requires m[c] == Links(null, null, null, null)
    ensures Lists(m, kids[c := []]) && Detached(m, c)
  {
    var kids' := kids[c := []];
    forall n | n in kids' ensures Within(m, kids'[n]) && Spells(m, n, kids'[n]) {
      if n != c {
        assert Spells(l, n, kids[n]);
        hide Spells;
        SpellsSame(l, m, n, kids[n]);
      }
    }
    hide Spells, Distinct;
    forall n | n in m && m[n].parent != null ensures m[n].parent in m && n in kids'[m[n].parent] {
      assert l[n].parent != null;
    }
  }

  /** `append_child`, `prepend_child`, `insert_child_after` and `insert_child_before`, for a node of the
    kind asked for. */
  method AddChild(self: Node, c: Node, spot: Spot, ghost nodes: set<Node>, ghost kids: Kids, ghost h: map<Node, nat>)
    returns (ok: bool, ghost nodes': set<Node>, ghost kids': Kids, ghost h': map<Node, nat>)
    requires Tree(nodes, kids, h) && self in nodes && c !in nodes && Unlinked(c)
    requires spot.Behind? || spot.InFront? ==> spot.node in nodes
    modifies nodes, c
    ensures self in kids && ok == (AllowInsertChild(old(self.data.kind), old(c.data.kind)) && HasSpot(kids, self, spot))
    ensures !ok ==> unchanged(nodes) && unchanged(c) && nodes' == nodes && kids' == kids
    ensures ok ==>
              && nodes' == nodes + {c} && HasSpot(kids[c := []], self, spot)
              && kids' == Put(kids[c := []], self, spot, c)
    ensures Tree(nodes', kids', h') && c.data == old(c.data) && forall n | n in nodes :: n.data == old(n.data)
  {
    hide Valid, Ranked, Lists, Detached, Inserted, IndexIn, AllowInsertChild, Put, HasSpot, LinksOf;
    OwnLists(nodes, kids);
    nodes', kids', h' := nodes, kids, h;
    ok := AllowInsertChild(self.data.kind, c.data.kind);
    PutKeepsOthers(kids, self, spot, c);
    if spot.Behind? || spot.InFront? {
      ParentLists(nodes, kids, self, spot.node);
      ok := ok && spot.node.parent == self;
    }
    SpotIs(kids, self, spot);
    if ok {
      ghost var l := LinksOf(nodes);
      KnownParents(nodes, l);
      nodes' := nodes + {c};
      ghost var more := kids[c := []];
      NewIsValid(nodes, kids, c);
      InsertAt(c, self, spot, nodes', more);
      kids' := Put(more, self, spot, c);
      h' := h[c := RankOf(h, self) + 1];
      NewIsTree(nodes, l, h, c, self, kids');
    }
  }

  lemma PutKeepsOthers(kids: Kids, p: Node, spot: Spot, c: Node)
    requires p in kids && p != c
    ensures HasSpot(kids[c := []], p, spot) <==> HasSpot(kids, p, spot)
  {
  }

  ghost function RankOf(h: map<Node, nat>, n: Node): nat {
    if n in h then h[n] else 0
  }

  lemma OwnLists(nodes: set<Node>, kids: Kids)
    requires Valid(nodes, kids)
    ensures kids.Keys == nodes
  {
  }

  lemma ParentLists(nodes: set<Node>, kids: Kids, p: Node, c: Node)
    requires Valid(nodes, kids) && p in nodes && c in nodes
    ensures p in kids && (c in kids[p] <==> c.parent == p)
  {
    InList(LinksOf(nodes), kids, p, c);
  }

  lemma NewIsValid(nodes: set<Node>, kids: Kids, c: Node)
    requires Valid(nodes, kids) && c !in nodes && Unlinked(c)
    ensures Valid(nodes + {c}, kids[c := []]) && Detached(LinksOf(nodes + {c}), c)
  {
    hide Lists, Detached;
    WithNew(LinksOf(nodes), kids, LinksOf(nodes + {c}), c);
  }

  lemma SpotIs(kids: Kids, p: Node, spot: Spot)
    requires p in kids
    ensures HasSpot(kids, p, spot) <==> (spot.Behind? || spot.InFront? ==> spot.node in kids[p])
  {
  }

  lemma NewIsTree(nodes: set<Node>, l: LinkMap, h: map<Node, nat>, c: Node, p: Node, kids: Kids)
    requires Ranked(l, h) && l.Keys == nodes && c !in nodes && p in nodes && Valid(nodes + {c}, kids)
    requires forall n | n in nodes + {c} :: n.parent == if n == c then p else l[n].parent
    requires forall n | n in nodes && l[n].parent == null :: n.data.kind == DocumentNode
    ensures Tree(nodes + {c}, kids, h[c := RankOf(h, p) + 1])
  {
    hide Valid, Ranked;
    NewIsRanked(nodes, l, h, c, p, LinksOf(nodes + {c}));
  }

  lemma NewIsRanked(nodes: set<Node>, l: LinkMap, h: map<Node, nat>, c: Node, p: Node, m: LinkMap)
    requires Ranked(l, h) && l.Keys == nodes && c !in nodes && p in nodes && m.Keys == nodes + {c}
    requires forall n | n in m :: m[n].parent == if n == c then p else l[n].parent
    ensures Ranked(m, h[c := RankOf(h, p) + 1])
  {
    assert forall n | n in nodes && l[n].parent != null :: l[n].parent in l;
  }

  // ------------------------------------------------------------------ taking a subtree out

  /** `n` is `c` or below it, as the lists say it. */
  least predicate Reaches(kids: Kids, c: Node, n: Node) {
    n == c || exists p | p in kids && n in kids[p] :: Reaches(kids, c, p)
  }

  least lemma ReachedIsBelow(l: LinkMap, kids: Kids, h: map<Node, nat>, c: Node, n: Node)
    requires Reaches(kids, c, n)
    requires Lists(l, kids) && Ranked(l, h) && n in l
    ensures Below(l, h, n, c)
  {
    if n != c {
      var p :| p in kids && n in kids[p] && Reaches#[_k - 1](kids, c, p);
      InList(l, kids, p, n);
      ReachedIsBelow#[_k - 1](l, kids, h, c, p);
    }
  }

  lemma {:induction false} BelowIsReached(l: LinkMap, kids: Kids, h: map<Node, nat>, c: Node, n: Node)
    requires Lists(l, kids) && Ranked(l, h) && n in l && Below(l, h, n, c)
    ensures Reaches(kids, c, n)
    decreases h[n]
  {
    if n != c {
      var p := l[n].parent;
      InList(l, kids, p, n);
      BelowIsReached(l, kids, h, c, p);
      assert p in kids && n in kids[p];
    }
  }

  /** The pointers upwards and the lists downwards say the same of who is below whom. */
  lemma BelowReaches(l: LinkMap, kids: Kids, h: map<Node, nat>, n: Node, c: Node)
    requires Lists(l, kids) && Ranked(l, h) && n in l
    ensures Below(l, h, n, c) <==> Reaches(kids, c, n)
  {
    hide Lists, Ranked;
    if Below(l, h, n, c) { BelowIsReached(l, kids, h, c, n); }
    if Reaches(kids, c, n) { ReachedIsBelow(l, kids, h, c, n); }
  }

  ghost function Subtree(kids: Kids, c: Node): set<Node> {
    set n | n in kids && Reaches(kids, c, n)
  }

  ghost function Without(kids: Kids, gone: set<Node>): (kids': Kids)
    ensures kids'.Keys == kids.Keys - gone
  {
    map n | n in kids && n !in gone :: kids[n]
  }

  /** The lists of the nodes that are left, once nothing that is left is on a list of what is gone or
    the other way round. */
  lemma WithoutSubtree(l: LinkMap, kids: Kids, m: LinkMap, gone: set<Node>)
    requires Lists(l, kids) && m.Keys == l.Keys - gone && forall n | n in m :: m[n] == l[n]
    requires forall n, c | n in kids && c in kids[n] :: n in gone <==> c in gone
    ensures Lists(m, Without(kids, gone))
  {
    var kids' := Without(kids, gone);
    forall n | n in kids' ensures Within(m, kids'[n]) && Spells(m, n, kids'[n]) {
      assert Within(l, kids[n]) && Spells(l, n, kids[n]);
      assert Within(m, kids[n]);
      hide Spells;
      SpellsSame(l, m, n, kids[n]);
    }
    hide Spells, Distinct;
    forall n | n in m && m[n].parent != null ensures m[n].parent in m && n in kids'[m[n].parent] {
      assert l[n].parent in l && n in kids[l[n].parent];
    }
  }

  /** Once the root of a subtree is in no list, no list reaches across its border. */
  lemma SubtreeCut(l: LinkMap, kids: Kids, h: map<Node, nat>, c: Node, m: LinkMap, cut: Kids, n: Node, x: Node)
    requires Lists(l, kids) && Ranked(l, h) && c in l && Lists(m, cut) && m.Keys == l.Keys
    requires forall k | k in l :: m[k].parent == if k == c then null else l[k].parent
    requires n in cut && x in cut[n]
    ensures n in Subtree(kids, c) <==> x in Subtree(kids, c)
  {
    hide Lists, Ranked, Reaches;
    ListsClosed(l, kids);
    ListsClosed(m, cut);
    InCut(m, cut, n, x);
    BelowReaches(l, kids, h, n, c);
    BelowReaches(l, kids, h, x, c);
    BelowParent(l, h, x, c);
  }

  lemma InCut(m: LinkMap, cut: Kids, n: Node, x: Node)
    requires Lists(m, cut) && n in cut && x in cut[n]
    ensures x in m && m[x].parent == n
  {
    assert Within(m, cut[n]);
    InList(m, cut, n, x);
  }

  lemma ListsClosed(l: LinkMap, kids: Kids)
    requires Lists(l, kids)
    ensures kids.Keys == l.Keys
  {
  }

  lemma BelowParent(l: LinkMap, h: map<Node, nat>, n: Node, c: Node)
    requires Ranked(l, h) && n in l
    ensures n != c && l[n].parent != null ==> l[n].parent in l && (Below(l, h, n, c) <==> Below(l, h, l[n].parent, c))
  {
  }

  /** `remove_child`: the child leaves its list, and it and everything below it is destroyed. */
  method RemoveChild(self: Node, c: Node, ghost nodes: set<Node>, ghost kids: Kids, ghost h: map<Node, nat>)
    returns (ok: bool, ghost nodes': set<Node>, ghost kids': Kids, ghost h': map<Node, nat>)
    requires Tree(nodes, kids, h) && self in nodes && c in nodes
    modifies nodes
    ensures self in kids && ok == (c in kids[self])
    ensures !ok ==> unchanged(nodes) && nodes' == nodes && kids' == kids
    ensures ok ==> nodes' == nodes - Subtree(kids, c) && kids' == Without(Taken(kids, self, c), Subtree(kids, c))
    ensures Tree(nodes', kids', h') && forall n | n in nodes :: n.data == old(n.data)
  {
    hide Ranked, Lists, Removed, IndexIn, Subtree, Without, Taken, LinksOf;
    OwnLists(nodes, kids);
    ParentLists(nodes, kids, self, c);
    nodes', kids', h' := nodes, kids, h;
    ok := c.parent == self;
    if ok {
      ghost var l := LinksOf(nodes);
      KnownParents(nodes, l);
      RemoveNode(c, nodes, kids);
      KnownParents(nodes, LinksOf(nodes));
      ghost var gone := Subtree(kids, c);
      nodes' := nodes - gone;
      kids' := Without(Taken(kids, self, c), gone);
      h' := map n | n in h && n !in gone :: h[n];
      AfterRemoval(nodes, l, kids, h, c, Taken(kids, self, c));
    }
  }

  lemma AfterRemoval(nodes: set<Node>, l: LinkMap, kids: Kids, h: map<Node, nat>, c: Node, cut: Kids)
    requires Lists(l, kids) && Ranked(l, h) && l.Keys == nodes && c in nodes && Valid(nodes, cut)
    requires forall n | n in nodes :: n.parent == if n == c then null else l[n].parent
    requires forall n | n in nodes && l[n].parent == null :: n.data.kind == DocumentNode
    ensures var gone := Subtree(kids, c);
            Tree(nodes - gone, Without(cut, gone), map n | n in h && n !in gone :: h[n])
  {
    hide Ranked, Lists, Without, Subtree;
    var gone := Subtree(kids, c);
    var m, left := LinksOf(nodes), LinksOf(nodes - gone);
    KnownParents(nodes, m);
    forall n, x | n in cut && x in cut[n] ensures n in gone <==> x in gone { SubtreeCut(l, kids, h, c, m, cut, n, x); }
    LeftLinks(nodes, gone);
    WithoutSubtree(m, cut, left, gone);
    ListsClosed(l, kids);
    RootGone(kids, c);
    LeftRanked(nodes, l, kids, h, c, left);
  }

  lemma LeftLinks(nodes: set<Node>, gone: set<Node>)
    ensures var l, m := LinksOf(nodes), LinksOf(nodes - gone);
            m.Keys == l.Keys - gone && forall n | n in m :: m[n] == l[n] && m[n].parent == n.parent
  {
  }

  lemma RootGone(kids: Kids, c: Node)
    requires c in kids
    ensures c in Subtree(kids, c)
  {
  }

  lemma LeftRanked(nodes: set<Node>, l: LinkMap, kids: Kids, h: map<Node, nat>, c: Node, m: LinkMap)
    requires Lists(l, kids) && Ranked(l, h) && l.Keys == nodes && c in nodes && m.Keys == nodes - Subtree(kids, c)
    requires forall n | n in m :: m[n].parent == if n == c then null else l[n].parent
    ensures Ranked(m, map n | n in h && n !in Subtree(kids, c) :: h[n])
  {
    hide Lists, Reaches;
    ListsClosed(l, kids);
    forall n | n in m && m[n].parent != null ensures m[n].parent in m && h[m[n].parent] < h[n] {
      assert l[n].parent != null;
      BelowReaches(l, kids, h, n, c);
      BelowReaches(l, kids, h, l[n].parent, c);
      BelowParent(l, h, n, c);
    }
  }

  // ------------------------------------------------------------------ any run of edits

  datatype Edit =
    | Move(self: Node, moved: Node, spot: Spot)
    | Add(self: Node, added: Node, spot: Spot)
    | Remove(self: Node, child: Node)

  /** The tree as lists alone: the nodes that are alive, those that ever were, and the list of each. */
  datatype Shape = Shape(nodes: set<Node>, used: set<Node>, kids: Kids)

  predicate Sound(s: Shape) {
    s.kids.Keys == s.nodes && s.nodes <= s.used
  }

  /** An edit names nodes that are alive, and adds one that never was. */
  predicate Meaningful(s: Shape, e: Edit) {
    && e.self in s.nodes
    && (match e
       case Move(_, moved, spot) => moved in s.nodes && (spot.Behind? || spot.InFront? ==> spot.node in s.nodes)
       case Add(_, added, spot) => added !in s.used && (spot.Behind? || spot.InFront? ==> spot.node in s.nodes)
       case Remove(_, child) => child in s.nodes)
  }

  type Kinds = map<Node, NodeType>

  ghost predicate Fits(kinds: Kinds, p: Node, c: Node) {
    p in kinds && c in kinds && AllowInsertChild(kinds[p], kinds[c])
  }

  ghost function Unlisted(kids: Kids, c: Node): (kids': Kids)
    ensures kids'.Keys == kids.Keys
  {
    if exists p :: p in kids && c in kids[p] then
      var p :| p in kids && c in kids[p];
      Taken(kids, p, c)
    else kids
  }

  /** What an edit does to the lists, and whether it is carried out. */
  ghost function Applied(kinds: Kinds, s: Shape, e: Edit): (r: (bool, Shape))
    requires Sound(s) && Meaningful(s, e)
    ensures Sound(r.1)
  {
    match e
    case Move(self, moved, spot) =>
      var kids := Unlisted(s.kids, moved);
      if Fits(kinds, self, moved) && !Reaches(s.kids, moved, self) && HasSpot(kids, self, spot) then
        (true, s.(kids := Put(kids, self, spot, moved)))
      else (false, s)
    case Add(self, added, spot) =>
      var kids := s.kids[added := []];
      if Fits(kinds, self, added) && HasSpot(s.kids, self, spot) then
        (true, Shape(s.nodes + {added}, s.used + {added}, Put(kids, self, spot, added)))
      else (false, s)
    case Remove(self, child) =>
      if child in s.kids[self] then
        var gone := Subtree(s.kids, child);
        (true, Shape(s.nodes - gone, s.used, Without(Taken(s.kids, self, child), gone)))
      else (false, s)
  }

  /** What a run of edits does, one after the other. */
  ghost function AppliedAll(kinds: Kinds, s: Shape, edits: seq<Edit>): (r: (seq<bool>, Shape))
    requires Sound(s) && AllMeaningful(kinds, s, edits)
    ensures Sound(r.1) && |r.0| == |edits|
    decreases |edits|, 1
  {
    if edits == [] then ([], s)
    else
      var before := AppliedAll(kinds, s, edits[..|edits| - 1]);
      var last := Applied(kinds, before.1, edits[|edits| - 1]);
      (before.0 + [last.0], last.1)
  }

  ghost predicate AllMeaningful(kinds: Kinds, s: Shape, edits: seq<Edit>)
    requires Sound(s)
    decreases |edits|, 0
  {
    edits == [] || (AllMeaningful(kinds, s, edits[..|edits| - 1])
                    && Meaningful(AppliedAll(kinds, s, edits[..|edits| - 1]).1, edits[|edits| - 1]))
  }

  // ------------------------------------------------------------------ the run on the pointers

  /** The kinds of all nodes of a run, which no edit changes. */
  ghost predicate KindsAre(kinds: Kinds, all: set<Node>)
    reads all
  {
    kinds.Keys == all && forall n | n in all :: kinds[n] == n.data.kind
  }

  /** The pointers are those of the shape, and what was never part of it has none. */
  ghost predicate Stands(s: Shape, all: set<Node>, h: map<Node, nat>)
    reads all
  {
    && Sound(s) && s.used <= all
    && Tree(s.nodes, s.kids, h)
    && forall n | n in all && n !in s.used :: Unlinked(n)
  }

  lemma UnlistedIs(nodes: set<Node>, kids: Kids, c: Node)
    requires Valid(nodes, kids) && c in nodes && c.parent != null
    ensures c.parent in kids && c in kids[c.parent] && Unlisted(kids, c) == Taken(kids, c.parent, c)
  {
    hide Taken;
    HasList(nodes, kids, c);
    forall p | p in kids && c in kids[p] ensures p == c.parent { ListedUnderParent(nodes, kids, p, c); }
  }

  lemma ListedUnderParent(nodes: set<Node>, kids: Kids, p: Node, c: Node)
    requires Valid(nodes, kids) && p in kids && c in kids[p] && c in nodes
    ensures c.parent == p
  {
    OwnLists(nodes, kids);
    ParentLists(nodes, kids, p, c);
  }

  /** A move is allowed by the pointers exactly if it is by the lists. */
  lemma MayMoveIs(kinds: Kinds, nodes: set<Node>, kids: Kids, h: map<Node, nat>, p: Node, c: Node)
    requires Tree(nodes, kids, h) && KindsAre(kinds, kinds.Keys) && p in nodes && c in nodes && nodes <= kinds.Keys
    ensures MayMove(nodes, h, p, c) <==> Fits(kinds, p, c) && !Reaches(kids, c, p)
    ensures MayMove(nodes, h, p, c) ==> c.parent != null
  {
    hide Lists, Ranked, Below, Reaches;
    BelowReaches(LinksOf(nodes), kids, h, p, c);
  }

  lemma TakenHas(kids: Kids, q: Node, c: Node, p: Node, n: Node)
    requires q in kids && c in kids[q] && p in kids && Distinct(kids[q]) && (p != q ==> c !in kids[p])
    ensures n in Taken(kids, q, c)[p] <==> n in kids[p] && n != c
  {
    var i := IndexIn(kids[q], c);
    RemoveDistinct(kids[q], i);
  }

  lemma SpotLeft(nodes: set<Node>, kids: Kids, moved: Node, p: Node, spot: Spot)
    requires Valid(nodes, kids) && p in nodes && moved in nodes && moved.parent != null
    requires spot.Behind? || spot.InFront? ==> spot.node in nodes
    ensures var k := Unlisted(kids, moved);
            p in k && (HasSpot(k, p, spot)
                <==> (spot.Behind? || spot.InFront? ==> spot.node.parent == p && moved != spot.node))
  {
    UnlistedIs(nodes, kids, moved);
    OwnLists(nodes, kids);
    ListDistinct(LinksOf(nodes), kids, moved.parent);
    ParentLists(nodes, kids, p, moved);
    if spot.Behind? || spot.InFront? {
      ParentLists(nodes, kids, p, spot.node);
      TakenHas(kids, moved.parent, moved, p, spot.node);
    }
    hide Lists, Distinct, Taken;
  }

  /** The four moves. */
  method MoveChild(self: Node, moved: Node, spot: Spot, ghost nodes: set<Node>, ghost kids: Kids,
      ghost h: map<Node, nat>)
    returns (ok: bool, ghost kids': Kids, ghost h': map<Node, nat>)
    requires Tree(nodes, kids, h) && self in nodes && moved in nodes
             && (spot.Behind? || spot.InFront? ==> spot.node in nodes)
    modifies nodes
    ensures self in Unlisted(kids, moved)
    ensures ok == (old(MayMove(nodes, h, self, moved)) && HasSpot(Unlisted(kids, moved), self, spot))
    ensures kids' == if ok then Put(Unlisted(kids, moved), self, spot, moved) else kids
    ensures Tree(nodes, kids', h') && forall n | n in nodes :: n.data == old(n.data)
  {
    hide Valid, Ranked, Below, Unlisted, Taken, PutLast, PutFirst, PutAfter, PutBefore, AllowInsertChild, LinksOf;
    OwnLists(nodes, kids);
    MovableIsListed(nodes, kids, h, self, moved, spot);
    match spot {
      case AtEnd => ok, kids', h' := AppendMove(self, moved, nodes, kids, h);
      case AtFront => ok, kids', h' := PrependMove(self, moved, nodes, kids, h);
      case Behind(node) => ok, kids', h' := InsertMoveAfter(self, moved, node, nodes, kids, h);
      case InFront(node) => ok, kids', h' := InsertMoveBefore(self, moved, node, nodes, kids, h);
    }
  }

  /** What may be moved is on a list, from which it is taken. */
  lemma MovableIsListed(nodes: set<Node>, kids: Kids, h: map<Node, nat>, p: Node, c: Node, spot: Spot)
    requires Tree(nodes, kids, h) && p in nodes && c in nodes && (spot.Behind? || spot.InFront? ==> spot.node in nodes)
    ensures p in Unlisted(kids, c)
    ensures MayMove(nodes, h, p, c) ==>
              && c.parent != null && c.parent in kids && c in kids[c.parent]
              && Unlisted(kids, c) == Taken(kids, c.parent, c)
              && (HasSpot(Unlisted(kids, c), p, spot)
                 <==> (spot.Behind? || spot.InFront? ==> spot.node.parent == p && c != spot.node))
  {
    hide Valid, Ranked, Below, Unlisted, Taken;
    OwnLists(nodes, kids);
    if MayMove(nodes, h, p, c) {
      assert c.parent != null;
      HasList(nodes, kids, c);
      UnlistedIs(nodes, kids, c);
      SpotLeft(nodes, kids, c, p, spot);
    }
  }

  /** One edit of any kind. */
  method ApplyEdit(e: Edit, ghost kinds: Kinds, ghost all: set<Node>, ghost s: Shape, ghost h: map<Node, nat>)
    returns (ok: bool, ghost s': Shape, ghost h': map<Node, nat>)
    requires Stands(s, all, h) && KindsAre(kinds, all) && Meaningful(s, e) && (e.Add? ==> e.added in all)
    modifies all
    ensures (ok, s') == Applied(kinds, s, e)
    ensures Stands(s', all, h') && forall n | n in all :: n.data == old(n.data)
  {
    hide Tree, MayMove, Put, Unlisted, HasSpot, Reaches, Subtree, Without, Taken, Fits;
    s', h' := s, h;
    ghost var kids;
    match e {
      case Move(self, moved, spot) =>
        MoveIs(kinds, all, s, h, self, moved);
        ok, kids, h' := MoveChild(self, moved, spot, s.nodes, s.kids, h);
        s' := s.(kids := kids);
      case Add(self, added, spot) =>
        ghost var nodes;
        FitsIs(kinds, all, self, added);
        AddIs(s.kids, self, spot, added);
        ok, nodes, kids, h' := AddChild(self, added, spot, s.nodes, s.kids, h);
        if ok { s' := Shape(nodes, s.used + {added}, kids); } else { h' := h; }
      case Remove(self, child) =>
        ghost var nodes;
        ok, nodes, kids, h' := RemoveChild(self, child, s.nodes, s.kids, h);
        s' := Shape(nodes, s.used, kids);
    }
  }

  lemma MoveIs(kinds: Kinds, all: set<Node>, s: Shape, h: map<Node, nat>, p: Node, c: Node)
    requires Stands(s, all, h) && KindsAre(kinds, all) && p in s.nodes && c in s.nodes
    ensures Ranked(LinksOf(s.nodes), h) && (MayMove(s.nodes, h, p, c) <==> Fits(kinds, p, c) && !Reaches(s.kids, c, p))
  {
    hide Valid, Ranked, MayMove, Fits, Reaches;
    MayMoveIs(kinds, s.nodes, s.kids, h, p, c);
  }

  lemma FitsIs(kinds: Kinds, all: set<Node>, p: Node, c: Node)
    requires KindsAre(kinds, all) && p in all && c in all
    ensures Fits(kinds, p, c) <==> AllowInsertChild(p.data.kind, c.data.kind)
  {
  }

  lemma AddIs(kids: Kids, p: Node, spot: Spot, c: Node)
    requires p in kids && p != c
    ensures HasSpot(kids[c := []], p, spot) <==> HasSpot(kids, p, spot)
  {
  }

  /** Any run of edits: additions, moves and removals, in any order and of nodes added on the way. The
    answers and the lists come out as the edits say one after the other, the links stay one list per
    node, and the parents stay without a cycle. */
  method EditAll(edits: seq<Edit>, ghost kinds: Kinds, ghost all: set<Node>, ghost s: Shape, ghost h: map<Node, nat>)
    returns (done: seq<bool>, ghost s': Shape, ghost h': map<Node, nat>)
    requires Stands(s, all, h) && KindsAre(kinds, all) && AllMeaningful(kinds, s, edits)
    requires forall k | 0 <= k < |edits| && edits[k].Add? :: edits[k].added in all
    modifies all
    ensures (done, s') == AppliedAll(kinds, s, edits)
    ensures Stands(s', all, h') && forall n | n in all :: n.data == old(n.data)
  {
    hide Stands, Applied, Meaningful, AllMeaningful, AppliedAll;
    s', h', done := s, h, [];
    StandsSound(s, all, h);
    NoEdits(kinds, s);
    for k := 0 to |edits|
      invariant Stands(s', all, h') && forall n | n in all :: n.data == old(n.data)
      invariant AllMeaningful(kinds, s, edits[..k]) && (done, s') == AppliedAll(kinds, s, edits[..k])
    {
      AllMeaningfulTo(kinds, s, edits, k + 1);
      OneMoreEdit(kinds, s, edits[..k + 1]);
      assert edits[..k + 1][..k] == edits[..k];
      var ok;
      ok, s', h' := ApplyEdit(edits[k], kinds, all, s', h');
      done := done + [ok];
    }
    assert edits[..|edits|] == edits;
  }

  lemma StandsSound(s: Shape, all: set<Node>, h: map<Node, nat>)
    requires Stands(s, all, h)
    ensures Sound(s)
  {
  }

  lemma NoEdits(kinds: Kinds, s: Shape)
    requires Sound(s)
    ensures AllMeaningful(kinds, s, []) && AppliedAll(kinds, s, []) == ([], s)
  {
  }

  lemma {:induction false} AllMeaningfulTo(kinds: Kinds, s: Shape, edits: seq<Edit>, k: nat)
    requires Sound(s) && AllMeaningful(kinds, s, edits) && k <= |edits|
    ensures AllMeaningful(kinds, s, edits[..k])
    decreases |edits|
  {
    if k == |edits| {
      assert edits[..k] == edits;
    } else {
      AllMeaningfulTo(kinds, s, edits[..|edits| - 1], k);
      assert edits[..|edits| - 1][..k] == edits[..k];
    }
  }

  lemma OneMoreEdit(kinds: Kinds, s: Shape, edits: seq<Edit>)
    requires Sound(s) && edits != [] && AllMeaningful(kinds, s, edits)
    ensures var n := |edits| - 1;
            && AllMeaningful(kinds, s, edits[..n])
            && var before := AppliedAll(kinds, s, edits[..n]);
               && Meaningful(before.1, edits[n])
               && AppliedAll(kinds, s, edits)
                  == (before.0 + [Applied(kinds, before.1, edits[n]).0], Applied(kinds, before.1, edits[n]).1)
  {
    hide Applied, Meaningful;
  }
}
