/** The pointer tree and the table are one.

  Module `Dom` keeps a tree in links; the axes, the printer and the parser see a table of rows in
  document order. Listing a linked tree in preorder gives a table that is well formed, and the link
  functions of that table, which search for rows, say exactly what the link fields of the nodes say. */
module DomTable {
  import opened Document
  import opened Dom

  // ------------------------------------------------------------------ the listing

  /** A node and the position of its parent. */
  datatype Entry = Entry(node: Node, parent: int)

  /** Ranks grow from every node to its children and stay below a bound. */
  ghost predicate Ranks(kids: Kids, h: map<Node, nat>, top: nat) {
    && kids.Keys == h.Keys
    && forall n {:trigger kids[n]} | n in kids :: h[n] <= top && forall c | c in kids[n] :: c in kids && h[n] < h[c]
  }

  ghost predicate Under(kids: Kids, h: map<Node, nat>, low: nat, cs: seq<Node>)
    requires kids.Keys == h.Keys
  {
    forall c | c in cs :: c in kids && low < h[c]
  }

  /** Node `n` at position `at`, below position `p`, and everything below it. */
  ghost function Listing(kids: Kids, h: map<Node, nat>, top: nat, n: Node, p: int, at: nat): (t: seq<Entry>)
    requires Ranks(kids, h, top) && n in kids
    ensures |t| > 0 && t[0] == Entry(n, p)
    decreases 2 * (top - h[n]) + 1, 0
  {
    [Entry(n, p)] + Listings(kids, h, top, h[n], kids[n], at, at + 1)
  }

  /** Several siblings, the first of them at position `at`. */
  ghost function Listings(kids: Kids, h: map<Node, nat>, top: nat, low: nat, cs: seq<Node>, p: int,
      at: nat): (t: seq<Entry>)
    requires Ranks(kids, h, top) && low <= top && Under(kids, h, low, cs)
    decreases 2 * (top - low), |cs|
  {
    if cs == [] then []
    else
      assert cs[0] in cs;
      var first := Listing(kids, h, top, cs[0], p, at);
      first + Listings(kids, h, top, low, cs[1..], p, at + |first|)
  }

  /** The nodes listed with parent position `p`, in order. */
  ghost function Kin(t: seq<Entry>, p: int): seq<Node> {
    if t == [] then [] else (if t[0].parent == p then [t[0].node] else []) + Kin(t[1..], p)
  }

  lemma KinParts(t: seq<Entry>, p: int)
    ensures t == [] ==> Kin(t, p) == []
    ensures t != [] ==> Kin(t, p) == (if t[0].parent == p then [t[0].node] else []) + Kin(t[1..], p)
  {
  }

  lemma {:induction false} KinJoined(a: seq<Entry>, b: seq<Entry>, p: int)
    ensures Kin(a + b, p) == Kin(a, p) + Kin(b, p)
  {
    hide Kin;
    KinParts(a, p);
    if a == [] {
      assert a + b == b;
      assert [] + Kin(b, p) == Kin(b, p);
    } else {
      KinParts(a + b, p);
      assert (a + b)[1..] == a[1..] + b;
      KinJoined(a[1..], b, p);
      Grouped(if a[0].parent == p then [a[0].node] else [], Kin(a[1..], p), Kin(b, p));
    }
  }

  lemma Grouped(a: seq<Node>, b: seq<Node>, c: seq<Node>)
    ensures a + (b + c) == (a + b) + c
  {
  }

  lemma KinOne(e: Entry, b: seq<Entry>, p: int)
    ensures Kin([e] + b, p) == (if e.parent == p then [e.node] else []) + Kin(b, p)
  {
    assert ([e] + b)[1..] == b;
  }

  /** Entries at the positions from `at` on: each names `p` or an earlier one of them as its parent, and
    what stands between a node and its parent stays within that parent. */
  ghost predicate Placed(t: seq<Entry>, p: int, at: nat) {
    && (forall k | 0 <= k < |t| :: t[k].parent == p || at <= t[k].parent < at + k)
    && (forall j, k {:trigger Inside(t, at, j, k)} | 0 <= j < k < |t| :: Inside(t, at, j, k))
  }

  predicate Inside(t: seq<Entry>, at: nat, j: nat, k: nat)
    requires j < |t| && k < |t|
  {
    t[k].parent < at + j ==> t[k].parent <= t[j].parent
  }

  /** Every listed node comes with its own list of children. */
  ghost predicate Complete(kids: Kids, t: seq<Entry>, at: nat) {
    forall k | 0 <= k < |t| :: t[k].node in kids && Kin(t, at + k) == kids[t[k].node]
  }

  lemma {:induction false} NoKin(t: seq<Entry>, p: int, at: nat, q: int)
    requires (forall k | 0 <= k < |t| :: t[k].parent == p || at <= t[k].parent < at + |t|) && q != p
             && !(at <= q < at + |t|)
    ensures Kin(t, q) == []
  {
    KinNone(t, q);
  }

  lemma {:induction false} KinNone(t: seq<Entry>, q: int)
    requires forall k | 0 <= k < |t| :: t[k].parent != q
    ensures Kin(t, q) == []
  {
    if t != [] { KinNone(t[1..], q); }
  }

  lemma PlacedJoined(a: seq<Entry>, b: seq<Entry>, p: int, at: nat)
    requires p < at && Placed(a, p, at) && Placed(b, p, at + |a|)
    ensures Placed(a + b, p, at)
  {
    var t := a + b;
    forall j, k | 0 <= j < k < |t| ensures Inside(t, at, j, k) {
      if k < |a| { assert Inside(a, at, j, k); } else if j >= |a| { assert Inside(b, at + |a|, j - |a|, k - |a|); }
    }
  }

  lemma CompleteJoined(kids: Kids, a: seq<Entry>, b: seq<Entry>, p: int, at: nat)
    requires p < at && Placed(a, p, at) && Placed(b, p, at + |a|) && Complete(kids, a, at)
             && Complete(kids, b, at + |a|)
    ensures Complete(kids, a + b, at)
  {
    var t := a + b;
    forall k | 0 <= k < |t| ensures t[k].node in kids && Kin(t, at + k) == kids[t[k].node] {
      KinJoined(a, b, at + k);
      if k < |a| { NoKin(b, p, at + |a|, at + k); } else { NoKin(a, p, at, at + k); }
    }
  }

  lemma PlacedBelow(n: Node, p: int, at: nat, b: seq<Entry>)
    requires p < at && Placed(b, at, at + 1)
    ensures Placed([Entry(n, p)] + b, p, at)
  {
    var t := [Entry(n, p)] + b;
    forall k | 0 <= k < |t| ensures t[k].parent == p || at <= t[k].parent < at + k {
      if k > 0 { assert t[k] == b[k - 1]; }
    }
    forall j, k | 0 <= j < k < |t| ensures Inside(t, at, j, k) {
      assert t[k] == b[k - 1];
      if j > 0 { assert t[j] == b[j - 1]; assert Inside(b, at + 1, j - 1, k - 1); }
    }
  }

  lemma CompleteBelow(kids: Kids, n: Node, p: int, at: nat, b: seq<Entry>)
    requires p < at && n in kids && Placed(b, at, at + 1) && Complete(kids, b, at + 1) && Kin(b, at) == kids[n]
    ensures Complete(kids, [Entry(n, p)] + b, at)
    ensures Kin([Entry(n, p)] + b, p) == [n]
  {
    var t := [Entry(n, p)] + b;
    forall k | 0 <= k < |t| ensures t[k].node in kids && Kin(t, at + k) == kids[t[k].node] {
      KinOne(Entry(n, p), b, at + k);
      if k > 0 { assert t[k] == b[k - 1]; assert Kin(b, at + 1 + (k - 1)) == kids[b[k - 1].node]; }
    }
    KinOne(Entry(n, p), b, p);
    NoKin(b, at, at + 1, p);
  }

  lemma {:induction false} ListingRight(kids: Kids, h: map<Node, nat>, top: nat, n: Node, p: int, at: nat)
    requires Ranks(kids, h, top) && n in kids && p < at
    ensures var t := Listing(kids, h, top, n, p, at); Placed(t, p, at) && Complete(kids, t, at) && Kin(t, p) == [n]
    decreases 2 * (top - h[n]) + 1, 0
  {
    hide Placed, Complete, Kin;
    var b := Listings(kids, h, top, h[n], kids[n], at, at + 1);
    ListingsRight(kids, h, top, h[n], kids[n], at, at + 1);
    PlacedBelow(n, p, at, b);
    CompleteBelow(kids, n, p, at, b);
  }

  lemma NoListing(kids: Kids, p: int, at: nat)
    ensures Placed([], p, at) && Complete(kids, [], at) && Kin([], p) == []
  {
  }

  lemma ListingsStep(kids: Kids, h: map<Node, nat>, top: nat, low: nat, cs: seq<Node>, p: int, at: nat)
    requires Ranks(kids, h, top) && low <= top && Under(kids, h, low, cs)
    ensures cs == [] ==> Listings(kids, h, top, low, cs, p, at) == []
    ensures cs != [] ==>
              && cs[0] in kids && cs[0] in h && low < h[cs[0]] <= top && Under(kids, h, low, cs[1..])
              && var first := Listing(kids, h, top, cs[0], p, at);
                 Listings(kids, h, top, low, cs, p, at) == first + Listings(kids, h, top, low, cs[1..], p, at + |first|)
  {
    hide Listing;
    if cs != [] { assert cs[0] in cs; }
  }

  lemma {:induction false} ListingsRight(kids: Kids, h: map<Node, nat>, top: nat, low: nat, cs: seq<Node>, p: int,
      at: nat)
    requires Ranks(kids, h, top) && low <= top && Under(kids, h, low, cs) && p < at
    ensures var t := Listings(kids, h, top, low, cs, p, at);
            Placed(t, p, at) && Complete(kids, t, at) && Kin(t, p) == cs
    decreases 2 * (top - low), |cs|
  {
    hide Placed, Complete, Kin, Listing, Listings, Ranks;
    ListingsStep(kids, h, top, low, cs, p, at);
    if cs == [] {
      NoListing(kids, p, at);
    } else {
      var first := Listing(kids, h, top, cs[0], p, at);
      var rest := Listings(kids, h, top, low, cs[1..], p, at + |first|);
      ListingRight(kids, h, top, cs[0], p, at);
      ListingsRight(kids, h, top, low, cs[1..], p, at + |first|);
      PlacedJoined(first, rest, p, at);
      CompleteJoined(kids, first, rest, p, at);
      KinJoined(first, rest, p);
      assert cs == [cs[0]] + cs[1..];
    }
  }

  // ------------------------------------------------------------------ the table

  /** The listing as a table. */
  ghost function TableOf(t: seq<Entry>, data: map<Node, NodeData>): (d: Table)
    requires forall k | 0 <= k < |t| :: t[k].node in data
    ensures |d| == |t| && forall k | 0 <= k < |d| :: d[k] == Row(t[k].parent, data[t[k].node])
  {
    seq(|t|, k requires 0 <= k < |t| => Row(t[k].parent, data[t[k].node]))
  }

  lemma PlacedIsWellFormed(t: seq<Entry>, d: Table)
    requires t != [] && t[0].parent == -1 && Placed(t[1..], 0, 1) && |d| == |t| && forall k | 0 <= k < |d| ::
             d[k].parent == t[k].parent
    ensures WellFormed(d)
  {
    forall i | 0 < i < |d| ensures 0 <= d[i].parent < i { assert t[i] == t[1..][i - 1]; }
    forall i, j | 0 < j < i < |d| ensures Nested(d, i, j) { assert Inside(t[1..], 1, j - 1, i - 1); }
  }

  predicate SameParents(t: seq<Entry>, d: Table) {
    |d| == |t| && forall k | 0 <= k < |d| :: d[k].parent == t[k].parent
  }

  /** The row found from some position on is the first of the kin listed from there. */
  lemma {:induction false} FirstIsKin(t: seq<Entry>, d: Table, p: int, from: nat)
    requires SameParents(t, d) && from <= |d|
    ensures var r, s := FirstWithParent(d, p, from), Kin(t[from..], p);
            (r == -1 <==> s == []) && (r != -1 ==> t[r].node == s[0])
    decreases |d| - from
  {
    if from < |d| {
      assert t[from..][1..] == t[from + 1..];
      FirstIsKin(t, d, p, from + 1);
    }
  }

  lemma {:induction false} LastIsKin(t: seq<Entry>, d: Table, p: int, to: nat)
    requires SameParents(t, d) && to <= |d|
    ensures var r, s := LastWithParent(d, p, to), Kin(t[..to], p);
            (r == -1 <==> s == []) && (r != -1 ==> t[r].node == s[|s| - 1])
  {
    if to > 0 {
      assert t[..to] == t[..to - 1] + [t[to - 1]];
      KinJoined(t[..to - 1], [t[to - 1]], p);
      KinOne(t[to - 1], [], p);
      assert [t[to - 1]] + [] == [t[to - 1]];
      LastIsKin(t, d, p, to - 1);
    }
  }

  /** Where a listed node stands among its kin. */
  lemma KinSplit(t: seq<Entry>, i: nat)
    requires i < |t|
    ensures var p := t[i].parent; Kin(t, p) == Kin(t[..i], p) + ([t[i].node] + Kin(t[i + 1..], p))
  {
    hide Kin;
    var p := t[i].parent;
    assert t == t[..i] + ([t[i]] + t[i + 1..]);
    KinJoined(t[..i], [t[i]] + t[i + 1..], p);
    KinOne(t[i], t[i + 1..], p);
  }

  // ------------------------------------------------------------------ the links are the table's

  ghost predicate At(t: seq<Entry>, r: int, n: Node?) {
    if n == null then r == -1 else 0 <= r < |t| && t[r].node == n
  }

  lemma NodeWithin(l: LinkMap, kids: Kids, t: seq<Entry>, i: nat)
    requires Lists(l, kids) && Complete(kids, t, 0) && i < |t|
    ensures t[i].node in kids && t[i].node in l && Kin(t, i) == kids[t[i].node]
  {
    assert Kin(t, 0 + i) == kids[t[i].node];
  }

  lemma FirstChildIsLink(l: LinkMap, kids: Kids, t: seq<Entry>, d: Table, i: nat)
    requires Lists(l, kids) && WellFormed(d) && SameParents(t, d) && Complete(kids, t, 0) && i < |t|
    ensures t[i].node in l && At(t, FirstChild(d, i), l[t[i].node].first)
  {
    hide Lists, WellFormed, Complete;
    NodeWithin(l, kids, t, i);
    FirstAndLast(l, kids, t[i].node);
    FirstIsKin(t, d, i, i + 1);
    BeforeNone(t, d, i, i + 1);
    assert t == t[..i + 1] + t[i + 1..];
    KinJoined(t[..i + 1], t[i + 1..], i);
  }

  /** No row up to a node is one of its children. */
  lemma BeforeNone(t: seq<Entry>, d: Table, i: nat, to: nat)
    requires WellFormed(d) && SameParents(t, d) && i < |t| && to <= i + 1
    ensures Kin(t[..to], i) == []
  {
    forall k | 0 <= k < |t[..to]| ensures t[..to][k].parent != i { assert d[k].parent < k || k == 0; }
    KinNone(t[..to], i);
  }

  /** A listed node other than the first is in the list of its parent, at the place its kin gives it. */
  lemma Listed(l: LinkMap, kids: Kids, t: seq<Entry>, d: Table, i: nat)
    requires Lists(l, kids) && WellFormed(d) && SameParents(t, d) && Complete(kids, t, 0) && 0 < i < |t|
    ensures var p := t[i].parent;
            && 0 <= p < i && t[p].node in kids && t[p].node in l
            && var s, k := kids[t[p].node], |Kin(t[..i], p)|;
               && s == Kin(t[..i], p) + ([t[i].node] + Kin(t[i + 1..], p))
               && k < |s| && s[k] == t[i].node && t[i].node in l
               && l[t[i].node].parent == t[p].node
               && l[t[i].node].next == (if k + 1 < |s| then s[k + 1] else null)
               && l[t[i].node].prev == (if k > 0 then s[k - 1] else s[|s| - 1])
  {
    RowBound(d, i);
    hide Lists, WellFormed, Complete;
    var p := t[i].parent;
    NodeWithin(l, kids, t, p);
    KinSplit(t, i);
    Around(l, kids, t[p].node, |Kin(t[..i], p)|);
  }

  lemma RowBound(d: Table, i: nat)
    requires WellFormed(d) && 0 < i < |d|
    ensures 0 <= d[i].parent < i
  {
  }

  lemma NextSiblingIsLink(l: LinkMap, kids: Kids, t: seq<Entry>, d: Table, i: nat)
    requires Lists(l, kids) && WellFormed(d) && SameParents(t, d) && Complete(kids, t, 0) && 0 < i < |t|
    ensures t[i].node in l && At(t, NextSibling(d, i), l[t[i].node].next)
  {
    hide Lists, WellFormed, Complete;
    Listed(l, kids, t, d, i);
    FirstIsKin(t, d, t[i].parent, i + 1);
  }

  lemma PrevSiblingIsLink(l: LinkMap, kids: Kids, t: seq<Entry>, d: Table, i: nat)
    requires Lists(l, kids) && WellFormed(d) && SameParents(t, d) && Complete(kids, t, 0) && 0 < i < |t|
    ensures t[i].node in l && At(t, PrevSiblingCyclic(d, i), l[t[i].node].prev)
  {
    hide Lists, WellFormed, Complete;
    Listed(l, kids, t, d, i);
    var p := t[i].parent;
    LastIsKin(t, d, p, i);
    LastIsKin(t, d, p, |d|);
    assert t[..|d|] == t;
    KinSplit(t, i);
  }

  lemma ParentIsLink(l: LinkMap, kids: Kids, t: seq<Entry>, d: Table, i: nat)
    requires Lists(l, kids) && WellFormed(d) && SameParents(t, d) && Complete(kids, t, 0) && 0 < i < |t|
    ensures t[i].node in l && At(t, Parent(d, i), l[t[i].node].parent)
  {
    hide Lists, WellFormed, Complete;
    Listed(l, kids, t, d, i);
  }

  // ------------------------------------------------------------------ no node twice, none left out

  /** Two entries for one node are one entry: their parents are, and a list holds no node twice. */
  lemma {:induction false} ListedOnce(l: LinkMap, kids: Kids, t: seq<Entry>, d: Table, i: nat, j: nat)
    requires Lists(l, kids) && WellFormed(d) && SameParents(t, d) && Complete(kids, t, 0)
    requires i < |t| && j < |t| && t[i].node == t[j].node && t[0].node in l && l[t[0].node].parent == null
    ensures i == j
    decreases i + j
  {
    hide Lists, WellFormed, Complete;
    if i > 0 { Listed(l, kids, t, d, i); }
    if j > 0 { Listed(l, kids, t, d, j); }
    if i > 0 && j > 0 {
      ListedOnce(l, kids, t, d, t[i].parent, t[j].parent);
      var p := t[i].parent;
      ListDistinct(l, kids, t[p].node);
      DistinctAt(kids[t[p].node], |Kin(t[..i], p)|, |Kin(t[..j], p)|);
      KinGrows(t, p, i, j);
      KinGrows(t, p, j, i);
    }
  }

  lemma KinGrows(t: seq<Entry>, p: int, i: nat, j: nat)
    requires i <= |t| && j <= |t| && (i < j ==> t[i].parent == p)
    ensures i < j ==> |Kin(t[..i], p)| < |Kin(t[..j], p)|
  {
    if i < j {
      assert t[..j] == t[..i] + ([t[i]] + t[i + 1..j]);
      KinJoined(t[..i], [t[i]] + t[i + 1..j], p);
      KinOne(t[i], t[i + 1..j], p);
    }
  }

  lemma {:induction false} InKin(t: seq<Entry>, p: int, c: Node)
    requires c in Kin(t, p)
    ensures exists k | 0 <= k < |t| :: t[k].node == c
  {
    if t[0].parent == p && t[0].node == c {
    } else {
      InKin(t[1..], p, c);
      var k :| 0 <= k < |t[1..]| && t[1..][k].node == c;
      assert t[k + 1].node == c;
    }
  }

  lemma {:induction false} AllListed(l: LinkMap, kids: Kids, h: map<Node, nat>, t: seq<Entry>, n: Node)
    requires Lists(l, kids) && Ranked(l, h) && Complete(kids, t, 0) && t != [] && n in l && Below(l, h, n, t[0].node)
    ensures exists k | 0 <= k < |t| :: t[k].node == n
    decreases h[n]
  {
    hide Lists, Complete;
    if n == t[0].node {
    } else {
      AllListed(l, kids, h, t, l[n].parent);
      var q :| 0 <= q < |t| && t[q].node == l[n].parent;
      NodeWithin(l, kids, t, q);
      InList(l, kids, t[q].node, n);
      InKin(t, q, n);
    }
  }

  // ------------------------------------------------------------------ the result

  lemma {:induction false} HasTop(h: map<Node, nat>) returns (top: nat)
    ensures forall n | n in h :: h[n] <= top
    decreases |h|
  {
    if h == map[] {
      top := 0;
    } else {
      var n :| n in h;
      var rest := map k | k in h && k != n :: h[k];
      assert rest.Keys == h.Keys - {n};
      assert |rest.Keys| == |rest| && |h.Keys| == |h|;
      var below := HasTop(rest);
      top := if below >= h[n] then below else h[n];
      forall k | k in h ensures h[k] <= top { if k != n { assert k in rest; } }
    }
  }

  lemma RanksOf(l: LinkMap, kids: Kids, h: map<Node, nat>, top: nat)
    requires Lists(l, kids) && Ranked(l, h) && forall n | n in h :: h[n] <= top
    ensures Ranks(kids, h, top)
  {
    hide Spells;
    forall n | n in kids ensures h[n] <= top && forall c | c in kids[n] :: c in kids && h[n] < h[c] {
      forall c | c in kids[n] ensures c in kids && h[n] < h[c] {
        assert Within(l, kids[n]);
        InList(l, kids, n, c);
      }
    }
  }

  ghost function DataOf(nodes: set<Node>): map<Node, NodeData>
    reads nodes
  {
    map n | n in nodes :: n.data
  }

  /** The links of entry `i`, as the table gives them. */
  ghost predicate LinksAre(l: LinkMap, t: seq<Entry>, d: Table, i: nat)
    requires WellFormed(d) && |d| == |t| && i < |t|
  {
    && t[i].node in l
    && At(t, FirstChild(d, i), l[t[i].node].first)
    && (i > 0 ==>
          && At(t, Parent(d, i), l[t[i].node].parent)
          && At(t, NextSibling(d, i), l[t[i].node].next)
          && At(t, PrevSiblingCyclic(d, i), l[t[i].node].prev))
  }

  /** Listed in preorder, a linked tree becomes a well-formed table: every node below the root has
    exactly one row, with its own data, and the first child, next sibling, parent and cyclic previous
    sibling of a row are the rows of the nodes its link fields point to. */
  lemma LinkedTreeIsTable(nodes: set<Node>, kids: Kids, h: map<Node, nat>, root: Node) returns (t: seq<Entry>, d: Table)
    requires Valid(nodes, kids) && Ranked(LinksOf(nodes), h) && root in nodes && root.parent == null
    ensures WellFormed(d) && |d| == |t| && t[0].node == root
    ensures forall i | 0 <= i < |d| ::
            t[i].node in nodes && d[i].data == t[i].node.data && LinksAre(LinksOf(nodes), t, d, i)
    ensures forall i, j | 0 <= i < |t| && 0 <= j < |t| :: t[i].node == t[j].node ==> i == j
    ensures forall n | n in nodes && Below(LinksOf(nodes), h, n, root) :: exists i | 0 <= i < |t| :: t[i].node == n
  {
    hide Lists, Ranked, Placed, Complete, WellFormed, LinksAre, Listing, Listings, Below;
    var l := LinksOf(nodes);
    ListsClosed(l, kids);
    KnownParents(nodes, l);
    var top := HasTop(h);
    RanksOf(l, kids, h, top);
    t := Listing(kids, h, top, root, -1, 0);
    WholeListing(kids, h, top, root);
    forall k | 0 <= k < |t| ensures t[k].node in nodes { NodeWithin(l, kids, t, k); }
    d := TableOf(t, DataOf(nodes));
    PlacedIsWellFormed(t, d);
    forall i | 0 <= i < |d| ensures LinksAre(l, t, d, i) { AllLinks(l, kids, t, d, i); }
    forall i, j | 0 <= i < |t| && 0 <= j < |t| && t[i].node == t[j].node ensures i == j {
      ListedOnce(l, kids, t, d, i, j);
    }
    forall n | n in nodes && Below(l, h, n, root)
      ensures exists i | 0 <= i < |t| :: t[i].node == n
    {
      AllListed(l, kids, h, t, n);
    }
  }

  lemma AllLinks(l: LinkMap, kids: Kids, t: seq<Entry>, d: Table, i: nat)
    requires Lists(l, kids) && WellFormed(d) && SameParents(t, d) && Complete(kids, t, 0) && i < |t|
    ensures LinksAre(l, t, d, i)
  {
    hide Lists, WellFormed, Complete, At;
    FirstChildIsLink(l, kids, t, d, i);
    if i > 0 {
      ParentIsLink(l, kids, t, d, i);
      NextSiblingIsLink(l, kids, t, d, i);
      PrevSiblingIsLink(l, kids, t, d, i);
    }
  }

  lemma WholeListing(kids: Kids, h: map<Node, nat>, top: nat, root: Node)
    requires Ranks(kids, h, top) && root in kids
    ensures var t := Listing(kids, h, top, root, -1, 0);
            Placed(t[1..], 0, 1) && Complete(kids, t, 0)
  {
    hide Placed, Complete;
    ListingRight(kids, h, top, root, -1, 0);
    ListingsRight(kids, h, top, h[root], kids[root], 0, 1);
  }
}
