/** Copying a tree, even into one of its own descendants: `node_copy_tree`.

  The copy is made by one walk over the source that also steps through the copy. The walk leaves out
  the node the copy is growing under, so the source it sees is the tree as it was before that node was
  attached, although both may be parts of one tree. */
module TreeCopy {
  import opened Document
  import opened Dom

  /** The tree at the start of the copy: its links, a rank of its nodes, its lists of children, the node
    that the copy grows under and the node that is copied. */
  datatype Source = Source(l: LinkMap, h: map<Node, nat>, kids: Kids, dn: Node, sn: Node)

  ghost predicate Sound(s: Source) {
    && Lists(s.l, s.kids) && Ranked(s.l, s.h)
    && s.dn in s.l && s.sn in s.l && s.dn != s.sn && s.kids[s.dn] == []
  }

  /** The children of `x` without the copy. */
  ghost function Children(s: Source, x: Node): (c: seq<Node>)
    requires x in s.kids
  {
    if s.dn in s.kids[x] then Removed(s.kids[x], IndexIn(s.kids[x], s.dn)) else s.kids[x]
  }

  /** How many of these children come before `c`. */
  ghost function Rank(s: Source, x: Node, c: Node): (i: nat)
    requires x in s.kids && c in s.kids[x]
  {
    var i := IndexIn(s.kids[x], c);
    if s.dn in s.kids[x] && IndexIn(s.kids[x], s.dn) < i then i - 1 else i
  }

  ghost predicate StrictlyAbove(s: Source, x: Node, c: Node)
    requires Sound(s) && c in s.l
  {
    x != c && Below(s.l, s.h, c, x)
  }

  // ------------------------------------------------------------------ what has been copied

  function Images(copyOf: map<Node, Node>, s: seq<Node>): (r: seq<Node>)
    requires forall x | x in s :: x in copyOf
    ensures |r| == |s| && forall i | 0 <= i < |r| :: r[i] == copyOf[s[i]]
  {
    seq(|s|, i requires 0 <= i < |s| => copyOf[s[i]])
  }

  /** The first `n` children of `x` have been copied, and only they. */
  ghost predicate Copied(s: Source, copyOf: map<Node, Node>, n: nat, kids: Kids, x: Node)
    requires x in s.kids && x in copyOf
  {
    var c := Children(s, x);
    && n <= |c|
    && (forall i {:trigger c[i]} | 0 <= i < |c| :: c[i] in copyOf <==> i < n)
    && copyOf[x] in kids
    && kids[copyOf[x]] == Images(copyOf, c[..n])
  }

  /** Nodes other than the root are copied after their parents. */
  ghost predicate TopDown(s: Source, copyOf: map<Node, Node>) {
    forall x {:trigger s.l[x].parent} | x in copyOf && x in s.l && x != s.sn ::
      s.l[x].parent != null && s.l[x].parent in copyOf
  }

  /** Different nodes have different copies, and all but the first copy are new nodes. */
  ghost predicate OneToOne(s: Source, copyOf: map<Node, Node>) {
    && (forall x, y {:trigger copyOf[x], copyOf[y]} | x in copyOf && y in copyOf && copyOf[x] == copyOf[y] :: x == y)
    && (forall x {:trigger copyOf[x]} | x in copyOf && x != s.sn :: copyOf[x] !in s.l)
  }

  /** Nothing outside the copy has changed. */
  ghost predicate Untouched(s: Source, kids: Kids) {
    forall n {:trigger kids[n]} {:trigger n in kids} | n in s.l && n != s.dn ::
      n in s.kids && n in kids && kids[n] == s.kids[n]
  }

  /** The state of the copy: `done` counts the children copied so far of every node that has a copy. */
  ghost predicate Partial(s: Source, copyOf: map<Node, Node>, done: map<Node, nat>, kids: Kids)
    requires Sound(s)
  {
    && s.sn in copyOf && copyOf[s.sn] == s.dn && s.dn !in copyOf
    && copyOf.Keys <= s.l.Keys && done.Keys == copyOf.Keys
    && (forall x {:trigger copyOf[x]} | x in copyOf :: Copied(s, copyOf, done[x], kids, x))
    && TopDown(s, copyOf) && OneToOne(s, copyOf) && Untouched(s, kids)
  }

  /** Everything that is not strictly above `c` has all its children copied. */
  ghost predicate Finished(s: Source, done: map<Node, nat>, c: Node)
    requires Sound(s) && c in s.l
  {
    forall x {:trigger done[x]} | x in done && x in s.kids && !StrictlyAbove(s, x, c) :: done[x] == |Children(s, x)|
  }

  /** Above `c`, every node was copied last among the children of its parent. */
  ghost predicate OnPath(s: Source, done: map<Node, nat>, c: Node)
    requires Sound(s) && c in s.l
  {
    forall y {:trigger s.l[y].parent} | y in done && y in s.l && y != s.sn && StrictlyAbove(s, y, c)
      && s.l[y].parent != null && s.l[y].parent in done && y in s.kids[s.l[y].parent] ::
      done[s.l[y].parent] == Rank(s, s.l[y].parent, y) + 1
  }

  // ------------------------------------------------------------------ positions among the children

  lemma ListOf(s: Source, x: Node)
    requires Sound(s) && x in s.kids
    ensures x in s.l && Within(s.l, s.kids[x]) && Distinct(s.kids[x])
    ensures forall c {:trigger c in s.kids[x]} | c in s.kids[x] :: s.l[c].parent == x
  {
    assert Spells(s.l, x, s.kids[x]);
    forall c | c in s.kids[x] ensures s.l[c].parent == x { InList(s.l, s.kids, x, c); }
  }

  lemma ChildOf(s: Source, c: Node)
    requires Sound(s) && c in s.l && s.l[c].parent != null
    ensures var p := s.l[c].parent; p in s.l && p in s.kids && c in s.kids[p] && s.h[p] < s.h[c]
  {
  }

  lemma IndexUnique(s: seq<Node>, i: nat)
    requires Distinct(s) && i < |s|
    ensures IndexIn(s, s[i]) == i
  {
    DistinctAt(s, i, IndexIn(s, s[i]));
  }

  /** Child number `i` of `x` and its place among the children without the copy. */
  lemma RankAt(s: Source, x: Node, i: nat)
    requires Sound(s) && x in s.kids && i < |s.kids[x]|
    ensures var k := s.kids[x];
            && IndexIn(k, k[i]) == i
            && (i == 0 ==> Rank(s, x, k[i]) == 0)
            && (i + 1 < |k| ==> Rank(s, x, k[i + 1]) == Rank(s, x, k[i]) + if k[i] == s.dn then 0 else 1)
            && (i + 1 == |k| ==> |Children(s, x)| == Rank(s, x, k[i]) + if k[i] == s.dn then 0 else 1)
            && (k[i] != s.dn ==> Rank(s, x, k[i]) < |Children(s, x)| && Children(s, x)[Rank(s, x, k[i])] == k[i])
  {
    var k := s.kids[x];
    ListOf(s, x);
    hide Sound, Lists, Ranked;
    IndexUnique(k, i);
    if i + 1 < |k| { IndexUnique(k, i + 1); }
    if s.dn in k { IndexUnique(k, IndexIn(k, s.dn)); }
    hide Distinct;
  }

  /** The children without the copy are the other children. */
  lemma ChildrenAre(s: Source, x: Node, i: nat)
    requires Sound(s) && x in s.kids && i < |Children(s, x)|
    ensures var c := Children(s, x)[i];
            c in s.l && s.l[c].parent == x && c in s.kids[x] && c != s.dn && Rank(s, x, c) == i
  {
    ListOf(s, x);
    var k, c := s.kids[x], Children(s, x)[i];
    hide Sound, Lists, Ranked;
    var d := if s.dn in k then IndexIn(k, s.dn) else |k|;
    var j := if i < d then i else i + 1;
    assert c == k[j] && c in k;
    IndexUnique(k, j);
    if s.dn in k { DistinctAt(k, j, d); }
  }

  lemma BelowParent(s: Source, c: Node, x: Node)
    requires Sound(s) && c in s.l && s.l[c].parent != null
    ensures s.l[c].parent in s.l
    ensures Below(s.l, s.h, c, x) <==> c == x || Below(s.l, s.h, s.l[c].parent, x)
    ensures StrictlyAbove(s, x, c) ==> x == s.l[c].parent || StrictlyAbove(s, x, s.l[c].parent)
    ensures x == s.l[c].parent || StrictlyAbove(s, x, s.l[c].parent) ==> StrictlyAbove(s, x, c)
  {
    NotBelowChild(s, s.l[c].parent, c);
  }

  /** What a node is below of ranks no higher than it. */
  lemma {:induction false} BelowRanks(s: Source, n: Node, c: Node)
    requires Sound(s) && n in s.l && Below(s.l, s.h, n, c)
    ensures c in s.l && s.h[c] <= s.h[n]
    decreases s.h[n]
  {
    if n != c { BelowRanks(s, s.l[n].parent, c); }
  }

  lemma NotBelowChild(s: Source, p: Node, c: Node)
    requires Sound(s) && c in s.l && s.l[c].parent == p
    ensures p in s.l && !Below(s.l, s.h, p, c)
  {
    if Below(s.l, s.h, p, c) { BelowRanks(s, p, c); }
  }

  // ------------------------------------------------------------------ the steps of the walk

  /** `c` is in the source below its root, under a node that has been copied. */
  ghost predicate Inside(s: Source, copyOf: map<Node, Node>, c: Node) {
    && Sound(s) && c in s.l && c != s.sn && s.l[c].parent != null && s.l[c].parent in copyOf
    && s.l[c].parent in s.kids && c in s.kids[s.l[c].parent]
  }

  /** The walk has come to `c` and not looked at it yet. */
  ghost predicate Arriving(s: Source, copyOf: map<Node, Node>, done: map<Node, nat>, kids: Kids, c: Node) {
    && Inside(s, copyOf, c) && Partial(s, copyOf, done, kids)
    && c !in copyOf
    && done[s.l[c].parent] == Rank(s, s.l[c].parent, c)
    && Finished(s, done, c) && OnPath(s, done, c)
  }

  /** The walk is through with `c` and all below it. */
  ghost predicate Leaving(s: Source, copyOf: map<Node, Node>, done: map<Node, nat>, kids: Kids, c: Node) {
    && Sound(s) && c in s.l && Partial(s, copyOf, done, kids)
    && (c == s.dn || c in copyOf)
    && (c != s.sn ==> Inside(s, copyOf, c) && done[s.l[c].parent] == Rank(s, s.l[c].parent, c) + if c == s.dn then 0
         else 1)
    && Finished(s, done, c) && OnPath(s, done, c)
  }

  /** The node the copy grows under is passed over. */
  lemma SkipCopy(s: Source, copyOf: map<Node, Node>, done: map<Node, nat>, kids: Kids)
    requires Arriving(s, copyOf, done, kids, s.dn)
    ensures Leaving(s, copyOf, done, kids, s.dn)
  {
  }

  lemma NextArrives(s: Source, copyOf: map<Node, Node>, done: map<Node, nat>, kids: Kids, c: Node, next: Node)
    requires Leaving(s, copyOf, done, kids, c) && c != s.sn
    requires var k := s.kids[s.l[c].parent]; var i := IndexIn(k, c); i + 1 < |k| && k[i + 1] == next
    ensures Arriving(s, copyOf, done, kids, next) && s.l[next].parent == s.l[c].parent
    ensures c == s.dn ==> next != s.dn
  {
    var p := s.l[c].parent;
    var i := IndexIn(s.kids[p], c);
    RankAt(s, p, i);
    RankAt(s, p, i + 1);
    ListOf(s, p);
    ListOf(s, s.sn);
    IndexUnique(s.kids[p], i + 1);
    assert next in s.kids[p];
    NotCopiedYet(s, copyOf, done, kids, p, next);
    SiblingFinished(s, copyOf, done, kids, c, next);
    NotRoot(s, copyOf, done, kids, p, next);
    if c == s.dn { DistinctAt(s.kids[p], i, i + 1); }
  }

  /** The root of the source is below no copied node. */
  lemma NotRoot(s: Source, copyOf: map<Node, Node>, done: map<Node, nat>, kids: Kids, p: Node, c: Node)
    requires Sound(s) && Partial(s, copyOf, done, kids) && p in copyOf && c in s.l && s.l[c].parent == p
    ensures c != s.sn
  {
    if c == s.sn {
      CopiedBelow(s, copyOf, done, kids, p);
      NotBelowChild(s, p, s.sn);
    }
  }

  lemma {:induction false} CopiedBelow(s: Source, copyOf: map<Node, Node>, done: map<Node, nat>, kids: Kids, x: Node)
    requires Sound(s) && Partial(s, copyOf, done, kids) && x in copyOf
    ensures x in s.l && Below(s.l, s.h, x, s.sn)
    decreases s.h[x]
  {
    if x != s.sn { CopiedBelow(s, copyOf, done, kids, s.l[x].parent); }
  }

  lemma NotCopiedYet(s: Source, copyOf: map<Node, Node>, done: map<Node, nat>, kids: Kids, p: Node, c: Node)
    requires Sound(s) && Partial(s, copyOf, done, kids) && p in copyOf && p in s.kids && c in s.kids[p]
             && done[p] <= Rank(s, p, c)
    ensures c !in copyOf
  {
    if c != s.dn {
      RankAt(s, p, IndexIn(s.kids[p], c));
      assert Copied(s, copyOf, done[p], kids, p);
    }
  }

  lemma SiblingFinished(s: Source, copyOf: map<Node, Node>, done: map<Node, nat>, kids: Kids, c: Node, next: Node)
    requires Leaving(s, copyOf, done, kids, c) && c != s.sn && next in s.l && s.l[next].parent == s.l[c].parent
             && next !in copyOf
    ensures Finished(s, done, next) && OnPath(s, done, next)
  {
    var p := s.l[c].parent;
    forall x | x in s.l ensures StrictlyAbove(s, x, c) <==> StrictlyAbove(s, x, next) {
      BelowParent(s, c, x);
      BelowParent(s, next, x);
    }
    hide Partial, StrictlyAbove, Children, Rank;
  }

  lemma ParentComplete(s: Source, copyOf: map<Node, Node>, done: map<Node, nat>, kids: Kids, c: Node)
    requires Leaving(s, copyOf, done, kids, c) && c != s.sn
    requires var k := s.kids[s.l[c].parent]; IndexIn(k, c) + 1 == |k|
    ensures var p := s.l[c].parent; p in copyOf && p in s.kids && done[p] == |Children(s, p)|
  {
    RankAt(s, s.l[c].parent, IndexIn(s.kids[s.l[c].parent], c));
  }

  lemma ParentFinished(s: Source, copyOf: map<Node, Node>, done: map<Node, nat>, kids: Kids, c: Node, p: Node)
    requires Sound(s) && c in s.l && s.l[c].parent == p && p in s.l && p in s.kids && Finished(s, done, c)
             && OnPath(s, done, c)
    requires p in done && done[p] == |Children(s, p)|
    ensures Finished(s, done, p) && OnPath(s, done, p)
  {
    forall x | x in s.l ensures StrictlyAbove(s, x, c) <==> x == p || StrictlyAbove(s, x, p) { BelowParent(s, c, x); }
    hide StrictlyAbove, Children, Rank, Sound;
  }

  /** The parent itself was copied last among the children of its own parent. */
  lemma ParentOnPath(s: Source, copyOf: map<Node, Node>, done: map<Node, nat>, kids: Kids, c: Node, p: Node)
    requires Sound(s) && c in s.l && s.l[c].parent == p && Partial(s, copyOf, done, kids) && OnPath(s, done, c)
             && p in copyOf && p != s.sn
    ensures Inside(s, copyOf, p) && done[s.l[p].parent] == Rank(s, s.l[p].parent, p) + 1
  {
    assert s.l[p].parent != null && s.l[p].parent in copyOf;
    ChildOf(s, p);
    BelowParent(s, c, p);
    hide Copied, Lists, Ranked, StrictlyAbove, Rank;
  }

  lemma LeavingParts(s: Source, copyOf: map<Node, Node>, done: map<Node, nat>, kids: Kids, c: Node)
    requires Leaving(s, copyOf, done, kids, c) && c != s.sn
    ensures Sound(s) && c in s.l && Partial(s, copyOf, done, kids) && Finished(s, done, c) && OnPath(s, done, c)
    ensures s.l[c].parent != null && s.l[c].parent in copyOf
  {
  }

  lemma LeavingMade(s: Source, copyOf: map<Node, Node>, done: map<Node, nat>, kids: Kids, c: Node)
    requires Sound(s) && c in copyOf && c in s.l && c != s.dn && Partial(s, copyOf, done, kids) && Finished(s, done, c)
             && OnPath(s, done, c)
    requires c != s.sn ==>
               && Inside(s, copyOf, c) && s.l[c].parent in done
               && done[s.l[c].parent] == Rank(s, s.l[c].parent, c) + 1
    ensures Leaving(s, copyOf, done, kids, c)
  {
    hide Partial, Finished, OnPath, Rank, Lists, Ranked;
  }

  /** After the last child the walk leaves the parent. */
  lemma ParentLeft(s: Source, copyOf: map<Node, Node>, done: map<Node, nat>, kids: Kids, c: Node)
    requires Leaving(s, copyOf, done, kids, c) && c != s.sn
    requires var k := s.kids[s.l[c].parent]; IndexIn(k, c) + 1 == |k|
    ensures Leaving(s, copyOf, done, kids, s.l[c].parent)
    ensures s.h[s.l[c].parent] < s.h[c]
  {
    LeavingParts(s, copyOf, done, kids, c);
    var p := s.l[c].parent;
    ChildOf(s, c);
    ParentComplete(s, copyOf, done, kids, c);
    NotTheCopy(s, copyOf, done, kids, p);
    ParentFinished(s, copyOf, done, kids, c, p);
    if p != s.sn { ParentOnPath(s, copyOf, done, kids, c, p); }
    hide Leaving, Finished, OnPath, Sound, Partial, Rank, Children, Inside, IndexIn, Lists, Ranked;
    LeavingMade(s, copyOf, done, kids, p);
  }

  lemma NotTheCopy(s: Source, copyOf: map<Node, Node>, done: map<Node, nat>, kids: Kids, x: Node)
    requires Sound(s) && Partial(s, copyOf, done, kids) && x in copyOf
    ensures x != s.dn && x in s.l && x in done
  {
  }

  /** At the end everything in the source has been copied. */
  lemma AllCopied(s: Source, copyOf: map<Node, Node>, done: map<Node, nat>, kids: Kids)
    requires Leaving(s, copyOf, done, kids, s.sn)
    ensures forall x | x in copyOf :: x in s.kids && done[x] == |Children(s, x)|
  {
    forall x | x in copyOf ensures x in s.kids && done[x] == |Children(s, x)| {
      CopiedBelow(s, copyOf, done, kids, x);
      if StrictlyAbove(s, x, s.sn) { BelowRanks(s, s.sn, x); BelowRanks(s, x, s.sn); SameRank(s, s.sn, x); }
    }
  }

  lemma SameRank(s: Source, n: Node, c: Node)
    requires Sound(s) && n in s.l && Below(s.l, s.h, n, c) && n != c
    ensures c in s.l && s.h[c] < s.h[n]
  {
    BelowRanks(s, s.l[n].parent, c);
  }

  // ------------------------------------------------------------------ one more copy

  /** The lists after a new node `copy` has been appended to `d`. */
  ghost function WithCopy(kids: Kids, d: Node, copy: Node): Kids
    requires d in kids && d != copy
  {
    PutLast(kids[copy := []], d, copy)
  }

  lemma OtherStillCopied(s: Source, copyOf: map<Node, Node>, n: nat, kids: Kids, x: Node, c: Node, copy: Node,
      kids': Kids)
    requires Sound(s) && x in s.kids && x in copyOf && Copied(s, copyOf, n, kids, x)
    requires c in s.l && s.l[c].parent != x
    requires copyOf[x] in kids' && kids'[copyOf[x]] == kids[copyOf[x]] && c !in copyOf
    ensures Copied(s, copyOf[c := copy], n, kids', x)
  {
    var k := Children(s, x);
    forall i {:trigger k[i]} | 0 <= i < |k| ensures k[i] in copyOf[c := copy] <==> i < n { ChildrenAre(s, x, i); }
    forall i | 0 <= i < n ensures k[i] in copyOf && k[i] != c { ChildrenAre(s, x, i); }
    hide Sound, Children;
    assert Images(copyOf[c := copy], k[..n]) == Images(copyOf, k[..n]);
  }

  lemma ParentCopiedMore(s: Source, copyOf: map<Node, Node>, n: nat, kids: Kids, p: Node, c: Node, copy: Node)
    requires Sound(s) && p in s.kids && p in copyOf && Copied(s, copyOf, n, kids, p)
    requires c in s.kids[p] && c != s.dn && c !in copyOf && n == Rank(s, p, c) && copy !in kids
    ensures Copied(s, copyOf[c := copy], n + 1, WithCopy(kids, copyOf[p], copy), p)
  {
    RankAt(s, p, IndexIn(s.kids[p], c));
    NotBelowChildOf(s, p, c);
    var k := Children(s, p);
    assert k[n] == c;
    forall i {:trigger k[i]} | 0 <= i < |k| ensures (k[i] == c <==> i == n) { ChildrenAre(s, p, i); }
    hide Sound, Children, Rank;
    assert k[..n + 1] == k[..n] + [c];
    ImagesMore(copyOf, k[..n], c, copy);
    var list := kids[copyOf[p]];
    assert Inserted(list, |list|, copy) == list + [copy];
    hide Images;
  }

  lemma ImagesMore(copyOf: map<Node, Node>, k: seq<Node>, c: Node, copy: Node)
    requires c !in copyOf && (forall x | x in k :: x in copyOf)
    ensures forall x | x in k + [c] :: x in copyOf[c := copy]
    ensures Images(copyOf[c := copy], k + [c]) == Images(copyOf, k) + [copy]
  {
  }

  lemma NotBelowChildOf(s: Source, p: Node, c: Node)
    requires Sound(s) && p in s.kids && c in s.kids[p]
    ensures c in s.l && p in s.l && s.l[c].parent == p && c != p
  {
    ListOf(s, p);
    ChildOf(s, c);
  }

  /** No child of a node that has no copy yet has one. */
  lemma ChildNotCopied(s: Source, copyOf: map<Node, Node>, done: map<Node, nat>, kids: Kids, c: Node, k: Node)
    requires Inside(s, copyOf, c) && Partial(s, copyOf, done, kids) && c !in copyOf && k in s.l && s.l[k].parent == c
    ensures k !in copyOf && k != c && k != s.sn
  {
    var p := s.l[c].parent;
    CopiedBelow(s, copyOf, done, kids, p);
    NotBelowChild(s, c, k);
    BelowParent(s, c, s.sn);
    if k in copyOf { NotRootChild(s, copyOf, done, kids, k); }
    hide Partial;
  }

  lemma NewCopied(s: Source, copyOf: map<Node, Node>, done: map<Node, nat>, kids: Kids, c: Node, copy: Node,
      kids': Kids)
    requires Inside(s, copyOf, c) && Partial(s, copyOf, done, kids) && c in s.kids && c !in copyOf
    requires copy in kids' && kids'[copy] == []
    ensures Copied(s, copyOf[c := copy], 0, kids', c)
  {
    var k := Children(s, c);
    forall i {:trigger k[i]} | 0 <= i < |k| ensures k[i] !in copyOf[c := copy] {
      ChildrenAre(s, c, i);
      ChildNotCopied(s, copyOf, done, kids, c, k[i]);
    }
    hide Partial, Sound;
  }

  /** A copied node other than the root has a copied parent. */
  lemma NotRootChild(s: Source, copyOf: map<Node, Node>, done: map<Node, nat>, kids: Kids, x: Node)
    requires Sound(s) && Partial(s, copyOf, done, kids) && x in copyOf
    ensures x in s.l && (x == s.sn || (s.l[x].parent != null && s.l[x].parent in copyOf))
  {
  }

  lemma CopyParts(s: Source, copyOf: map<Node, Node>, done: map<Node, nat>, kids: Kids, x: Node)
    requires Sound(s) && Partial(s, copyOf, done, kids) && x in copyOf
    ensures x in s.l && x in s.kids && x in done && Copied(s, copyOf, done[x], kids, x) && copyOf[x] in kids
    ensures x != s.sn ==> copyOf[x] !in s.l
    ensures forall y | y in copyOf && copyOf[y] == copyOf[x] :: y == x
  {
  }

  lemma OneToOneMore(s: Source, copyOf: map<Node, Node>, c: Node, copy: Node)
    requires OneToOne(s, copyOf) && c !in copyOf && copy !in s.l && forall x | x in copyOf :: copyOf[x] != copy
    ensures OneToOne(s, copyOf[c := copy])
  {
  }

  lemma TopDownMore(s: Source, copyOf: map<Node, Node>, c: Node, copy: Node)
    requires TopDown(s, copyOf) && c in s.l && s.l[c].parent != null && s.l[c].parent in copyOf
    ensures TopDown(s, copyOf[c := copy])
  {
  }

  lemma UntouchedMore(s: Source, kids: Kids, d: Node, copy: Node)
    requires Untouched(s, kids) && d in kids && d != copy && (d == s.dn || d !in s.l) && copy !in s.l
    ensures Untouched(s, WithCopy(kids, d, copy))
  {
  }

  ghost function More(done: map<Node, nat>, p: Node, c: Node): map<Node, nat>
    requires p in done
  {
    done[p := done[p] + 1][c := 0]
  }

  lemma ArrivingParts(s: Source, copyOf: map<Node, Node>, done: map<Node, nat>, kids: Kids, c: Node)
    requires Arriving(s, copyOf, done, kids, c)
    ensures Inside(s, copyOf, c) && Sound(s) && Partial(s, copyOf, done, kids) && c !in copyOf && Finished(s, done, c)
            && OnPath(s, done, c)
    ensures var p := s.l[c].parent; p in copyOf && p in done && done[p] == Rank(s, p, c)
    ensures s.sn in copyOf && copyOf[s.sn] == s.dn && copyOf.Keys <= s.l.Keys && done.Keys == copyOf.Keys
            && s.dn !in copyOf
    ensures TopDown(s, copyOf) && OneToOne(s, copyOf) && Untouched(s, kids)
  {
  }

  lemma InsideParts(s: Source, copyOf: map<Node, Node>, c: Node)
    requires Inside(s, copyOf, c)
    ensures c in s.l && s.l[c].parent != null && c in s.kids && s.l[c].parent in s.kids && c in s.kids[s.l[c].parent]
  {
  }

  lemma WithCopyAt(kids: Kids, d: Node, copy: Node)
    requires d in kids && d != copy && copy !in kids
    ensures var k := WithCopy(kids, d, copy);
            && copy in k && k[copy] == []
            && forall y | y in kids && y != d :: y in k && k[y] == kids[y]
  {
  }

  lemma OthersStillCopied(s: Source, copyOf: map<Node, Node>, done: map<Node, nat>, kids: Kids, c: Node, copy: Node,
      p: Node, x: Node)
    requires Sound(s) && Partial(s, copyOf, done, kids) && c in s.l && p == s.l[c].parent && c !in copyOf
    requires p in copyOf && copyOf[p] in kids && copyOf[p] != copy && copy !in kids && x in copyOf && x != p
    ensures x in s.kids && x in done && Copied(s, copyOf[c := copy], done[x], WithCopy(kids, copyOf[p], copy), x)
  {
    CopyParts(s, copyOf, done, kids, x);
    hide Partial, Sound, Copied, WithCopy;
    WithCopyAt(kids, copyOf[p], copy);
    OtherStillCopied(s, copyOf, done[x], kids, x, c, copy, WithCopy(kids, copyOf[p], copy));
  }

  lemma AllStillCopied(s: Source, copyOf: map<Node, Node>, done: map<Node, nat>, kids: Kids, c: Node, copy: Node,
      x: Node)
    requires Arriving(s, copyOf, done, kids, c) && c != s.dn && copy !in kids && copy !in s.l
    requires x == c || x in copyOf
    ensures var p := s.l[c].parent;
            && p in copyOf && copyOf[p] in kids && p in done && x in s.kids && copyOf[p] != copy
            && x in More(done, p, c)
               && Copied(s, copyOf[c := copy], More(done, p, c)[x], WithCopy(kids, copyOf[p], copy), x)
  {
    ArrivingParts(s, copyOf, done, kids, c);
    var p := s.l[c].parent;
    InsideParts(s, copyOf, c);
    CopyParts(s, copyOf, done, kids, p);
    NotBelowChildOf(s, p, c);
    WithCopyAt(kids, copyOf[p], copy);
    hide *;
    if x == c {
      NewCopied(s, copyOf, done, kids, c, copy, WithCopy(kids, copyOf[p], copy));
      MoreAt(done, p, c, x);
    } else if x == p {
      ParentCopiedMore(s, copyOf, done[p], kids, p, c, copy);
      MoreAt(done, p, c, x);
    } else {
      OthersStillCopied(s, copyOf, done, kids, c, copy, p, x);
      MoreAt(done, p, c, x);
    }
  }

  lemma MoreAt(done: map<Node, nat>, p: Node, c: Node, x: Node)
    requires p in done && p != c && (x == c || x in done)
    ensures x in More(done, p, c) && More(done, p, c)[x]
            == if x == c then 0 else if x == p then done[p] + 1 else done[x]
  {
  }

  /** Appending a new node to the copy of the parent of `c` makes it the copy of `c`. */
  lemma CopyAdded(s: Source, copyOf: map<Node, Node>, done: map<Node, nat>, kids: Kids, c: Node, copy: Node)
    requires Arriving(s, copyOf, done, kids, c) && c != s.dn && copy !in kids && copy !in s.l
    ensures var p := s.l[c].parent;
            && p in copyOf && copyOf[p] in kids && p in done && copyOf[p] != copy
            && Partial(s, copyOf[c := copy], More(done, p, c), WithCopy(kids, copyOf[p], copy))
  {
    ArrivingParts(s, copyOf, done, kids, c);
    var p := s.l[c].parent;
    CopyParts(s, copyOf, done, kids, p);
    forall x | x in copyOf ensures copyOf[x] != copy { CopyParts(s, copyOf, done, kids, x); }
    InsideParts(s, copyOf, c);
    hide Arriving, Inside, Partial, Copied, OneToOne, TopDown, Untouched, OnPath, Finished, Sound, WithCopy, Rank,
         Children, More;
    OneToOneMore(s, copyOf, c, copy);
    TopDownMore(s, copyOf, c, copy);
    UntouchedMore(s, kids, copyOf[p], copy);
    forall x | x in copyOf[c := copy]
      ensures x in s.kids && x in More(done, p, c)
              && Copied(s, copyOf[c := copy], More(done, p, c)[x], WithCopy(kids, copyOf[p], copy), x)
    {
      AllStillCopied(s, copyOf, done, kids, c, copy, x);
    }
    PartialMade(s, copyOf, done, kids, c, copy, p);
  }

  lemma PartialMade(s: Source, copyOf: map<Node, Node>, done: map<Node, nat>, kids: Kids, c: Node, copy: Node, p: Node)
    requires Sound(s) && s.sn in copyOf && copyOf[s.sn] == s.dn && s.dn !in copyOf && c != s.sn && c != s.dn
    requires copyOf.Keys <= s.l.Keys && done.Keys == copyOf.Keys && c in s.l && p in copyOf && copyOf[p] in kids
             && copyOf[p] != copy
    requires TopDown(s, copyOf[c := copy]) && OneToOne(s, copyOf[c := copy])
             && Untouched(s, WithCopy(kids, copyOf[p], copy))
    requires forall x | x in copyOf[c := copy] ::
             x in s.kids && x in More(done, p, c)
             && Copied(s, copyOf[c := copy], More(done, p, c)[x], WithCopy(kids, copyOf[p], copy), x)
    ensures Partial(s, copyOf[c := copy], More(done, p, c), WithCopy(kids, copyOf[p], copy))
  {
    hide Copied, OneToOne, TopDown, Untouched, Sound, WithCopy;
  }

  /** What is strictly above `c` has its parent strictly above the parent of `c`. */
  lemma AboveParent(s: Source, c: Node, y: Node)
    requires Sound(s) && c in s.l && s.l[c].parent != null && StrictlyAbove(s, y, c)
    ensures y in s.l && s.l[y].parent != c && s.l[y].parent != s.l[c].parent && y != c
  {
    var p := s.l[c].parent;
    BelowParent(s, c, y);
    BelowRanks(s, p, y);
    ChildOf(s, c);
    if s.l[y].parent != null { ChildOf(s, y); }
  }

  lemma FinishedMore(s: Source, copyOf: map<Node, Node>, done: map<Node, nat>, c: Node, at: Node)
    requires Inside(s, copyOf, c) && s.l[c].parent in done && Finished(s, done, c) && at in s.l
    requires at == c || s.l[at].parent == c
    requires at == c ==> s.kids[c] == []
    requires c in s.kids
    ensures Finished(s, More(done, s.l[c].parent, c), at)
  {
    var p := s.l[c].parent;
    ChildOf(s, c);
    BelowParent(s, c, p);
    forall x | x in s.l ensures StrictlyAbove(s, x, at) <==> StrictlyAbove(s, x, c) || (at != c && x == c) {
      if at != c { BelowParent(s, at, x); }
    }
    assert !StrictlyAbove(s, c, c);
    hide Below, StrictlyAbove, Sound;
    var more := More(done, p, c);
    forall x | x in more && x in s.kids && !StrictlyAbove(s, x, at) ensures more[x] == |Children(s, x)| {
      MoreAt(done, p, c, x);
    }
  }

  lemma OnPathMore(s: Source, copyOf: map<Node, Node>, done: map<Node, nat>, c: Node, at: Node)
    requires Inside(s, copyOf, c) && s.l[c].parent in done && OnPath(s, done, c) && at in s.l
    requires done[s.l[c].parent] == Rank(s, s.l[c].parent, c)
    requires at == c || s.l[at].parent == c
    ensures OnPath(s, More(done, s.l[c].parent, c), at)
  {
    var p := s.l[c].parent;
    ChildOf(s, c);
    var more := More(done, p, c);
    forall y | y in more && y in s.l && y != s.sn && StrictlyAbove(s, y, at) && s.l[y].parent != null
      && s.l[y].parent in more && y in s.kids[s.l[y].parent]
      ensures more[s.l[y].parent] == Rank(s, s.l[y].parent, y) + 1
    {
      if at != c { BelowParent(s, at, y); }
      MoreAt(done, p, c, s.l[y].parent);
      if y != c { AboveParent(s, c, y); }
    }
  }

  /** A copied node without children is left at once. */
  lemma LeafLeft(s: Source, copyOf: map<Node, Node>, done: map<Node, nat>, kids: Kids, c: Node, copy: Node)
    requires Arriving(s, copyOf, done, kids, c) && c != s.dn && copy !in kids && copy !in s.l
    requires c in s.kids && s.kids[c] == []
    ensures var p := s.l[c].parent;
            && p in copyOf && copyOf[p] in kids && p in done && copyOf[p] != copy
            && Leaving(s, copyOf[c := copy], More(done, p, c), WithCopy(kids, copyOf[p], copy), c)
  {
    ArrivingParts(s, copyOf, done, kids, c);
    InsideParts(s, copyOf, c);
    var p := s.l[c].parent;
    CopyAdded(s, copyOf, done, kids, c, copy);
    FinishedMore(s, copyOf, done, c, c);
    OnPathMore(s, copyOf, done, c, c);
    NotBelowChildOf(s, p, c);
    MoreAt(done, p, c, p);
    assert Inside(s, copyOf[c := copy], c);
    hide *;
    LeavingMade(s, copyOf[c := copy], More(done, p, c), WithCopy(kids, copyOf[p], copy), c);
  }

  lemma ArrivingMade(s: Source, copyOf: map<Node, Node>, done: map<Node, nat>, kids: Kids, c: Node)
    requires Sound(s) && Inside(s, copyOf, c) && Partial(s, copyOf, done, kids) && c !in copyOf && Finished(s, done, c)
             && OnPath(s, done, c)
    requires s.l[c].parent in done && done[s.l[c].parent] == Rank(s, s.l[c].parent, c)
    ensures Arriving(s, copyOf, done, kids, c)
  {
  }

  /** A copied node with children is followed by the first of them. */
  lemma FirstChildArrives(s: Source, copyOf: map<Node, Node>, done: map<Node, nat>, kids: Kids, c: Node, copy: Node)
    requires Arriving(s, copyOf, done, kids, c) && c != s.dn && copy !in kids && copy !in s.l
    requires c in s.kids && s.kids[c] != []
    ensures var p := s.l[c].parent;
            && p in copyOf && copyOf[p] in kids && p in done && copyOf[p] != copy
            && Arriving(s, copyOf[c := copy], More(done, p, c), WithCopy(kids, copyOf[p], copy), s.kids[c][0])
            && s.l[s.kids[c][0]].parent == c
  {
    ArrivingParts(s, copyOf, done, kids, c);
    InsideParts(s, copyOf, c);
    var p, first := s.l[c].parent, s.kids[c][0];
    CopyAdded(s, copyOf, done, kids, c, copy);
    ListOf(s, c);
    assert first in s.kids[c];
    ChildNotCopied(s, copyOf, done, kids, c, first);
    FinishedMore(s, copyOf, done, c, first);
    OnPathMore(s, copyOf, done, c, first);
    NotBelowChildOf(s, p, c);
    MoreAt(done, p, c, c);
    RankAt(s, c, 0);
    assert Inside(s, copyOf[c := copy], first);
    hide *;
    ArrivingMade(s, copyOf[c := copy], More(done, p, c), WithCopy(kids, copyOf[p], copy), first);
  }

  // ------------------------------------------------------------------ the walk

  /** `append_new_node`: a new node at the end of the children of `node`. */
  method AppendNewNode(node: Node, data: NodeData, ghost nodes: set<Node>, ghost kids: Kids) returns (copy: Node)
    requires Valid(nodes, kids) && node in nodes
    modifies nodes
    ensures fresh(copy) && node in kids && copy !in kids && copy.data == data && copy.parent == node
    ensures Valid(nodes + {copy}, WithCopy(kids, node, copy))
    ensures forall n | n in nodes :: n.data == old(n.data) && n.parent == old(n.parent)
  {
    copy := new Node(data);
    ghost var more := nodes + {copy};
    NewNodeValid(nodes, kids, copy);
    assert LinksOf(more)[copy] == Links(null, null, null, null);
    hide Valid;
    AppendNode(copy, node, more, kids[copy := []]);
  }

  lemma NewNodeValid(nodes: set<Node>, kids: Kids, copy: Node)
    requires Valid(nodes, kids) && copy !in nodes
    requires copy.parent == null && copy.firstChild == null && copy.nextSibling == null
    ensures kids.Keys == nodes && Valid(nodes + {copy}, kids[copy := []])
  {
    var l, m := LinksOf(nodes), LinksOf(nodes + {copy});
    var kids' := kids[copy := []];
    forall n | n in kids' ensures Within(m, kids'[n]) && Spells(m, n, kids'[n]) {
      if n != copy {
        assert Within(l, kids[n]) && Spells(l, n, kids[n]);
        SpellsSame(l, m, n, kids[n]);
      }
    }
    assert forall n | n in m && m[n].parent != null :: l[n].parent == m[n].parent;
  }

  /** The heap stands for the state of the copy, and no old node but `dn` has other links or data. */
  ghost predicate Stands(s: Source, nodes: set<Node>, kids: Kids, copyOf: map<Node, Node>)
    reads nodes, s.l.Keys
  {
    && Valid(nodes, kids) && s.l.Keys <= nodes
    && (forall n | n in s.l :: n.parent == s.l[n].parent)
    && (forall x | x in copyOf && x in s.l :: copyOf[x] in nodes && copyOf[x].data == x.data)
  }

  lemma StandsParts(s: Source, nodes: set<Node>, kids: Kids, copyOf: map<Node, Node>, done: map<Node, nat>, c: Node)
    requires Stands(s, nodes, kids, copyOf) && Sound(s) && Partial(s, copyOf, done, kids) && c in s.l && c != s.dn
    ensures kids.Keys == nodes && c in s.kids && Within(LinksOf(nodes), s.kids[c])
    ensures c.firstChild == if s.kids[c] == [] then null else s.kids[c][0]
  {
    assert c in kids && kids[c] == s.kids[c];
    assert Spells(LinksOf(nodes), c, kids[c]);
  }

  lemma SiblingOf(s: Source, nodes: set<Node>, kids: Kids, copyOf: map<Node, Node>, done: map<Node, nat>, c: Node)
    requires Stands(s, nodes, kids, copyOf) && Inside(s, copyOf, c) && Partial(s, copyOf, done, kids)
    ensures var p := s.l[c].parent; var k := s.kids[p]; var i := IndexIn(k, c);
            && p in s.l && c.parent == p
            && c.nextSibling == if i + 1 < |k| then k[i + 1] else null
  {
    hide Partial, Sound, Lists;
    var p := s.l[c].parent;
    SameList(s, copyOf, done, kids, p);
    Around(LinksOf(nodes), kids, p, IndexIn(kids[p], c));
  }

  lemma SameList(s: Source, copyOf: map<Node, Node>, done: map<Node, nat>, kids: Kids, p: Node)
    requires Sound(s) && Partial(s, copyOf, done, kids) && p in copyOf
    ensures p in s.l && p in s.kids && p in kids && kids[p] == s.kids[p]
  {
    CopyParts(s, copyOf, done, kids, p);
    NotTheCopy(s, copyOf, done, kids, p);
  }

  /** The copy of a node hangs under the copy of its parent. */
  lemma CopyHangs(s: Source, nodes: set<Node>, kids: Kids, copyOf: map<Node, Node>, done: map<Node, nat>, c: Node)
    requires Stands(s, nodes, kids, copyOf) && Leaving(s, copyOf, done, kids, c) && c != s.sn && c in copyOf
    ensures s.l[c].parent in copyOf && copyOf[c] in nodes && copyOf[c].parent == copyOf[s.l[c].parent]
  {
    var p := s.l[c].parent;
    CopyParts(s, copyOf, done, kids, c);
    CopyParts(s, copyOf, done, kids, p);
    NotTheCopy(s, copyOf, done, kids, c);
    RankAt(s, p, IndexIn(s.kids[p], c));
    var r := Rank(s, p, c);
    assert kids[copyOf[p]][r] == copyOf[c];
    hide Partial, Inside, Sound, Copied;
    InList(LinksOf(nodes), kids, copyOf[p], copyOf[c]);
  }

  lemma StillAbove(s: Source, c: Node, x: Node, p: Node)
    requires Sound(s) && c in s.l && x in s.l && s.l[x].parent == p && (x == c || StrictlyAbove(s, x, c))
    ensures StrictlyAbove(s, p, c)
  {
    BelowTransitive(s, c, x, p);
    BelowParent(s, x, p);
    BelowRanks(s, c, x);
    ChildOf(s, x);
  }

  lemma {:induction false} BelowTransitive(s: Source, n: Node, x: Node, y: Node)
    requires Sound(s) && n in s.l && Below(s.l, s.h, n, x) && x in s.l && s.l[x].parent == y
    ensures y in s.l && Below(s.l, s.h, n, y)
    decreases s.h[n]
  {
    if n != x { BelowTransitive(s, s.l[n].parent, x, y); }
  }

  /** The walk does not come back to the node it passed over. */
  lemma NotBackAt(s: Source, copyOf: map<Node, Node>, done: map<Node, nat>, kids: Kids, c0: Node, c: Node, next: Node)
    requires Leaving(s, copyOf, done, kids, c) && c != s.sn && Arriving(s, copyOf, done, kids, next)
             && s.l[next].parent == s.l[c].parent
    requires c0 in s.l && (c == c0 || StrictlyAbove(s, c, c0))
    requires c == s.dn ==> next != s.dn
    ensures c0 == s.dn ==> next != s.dn
  {
    if c0 == s.dn && next == s.dn && c != c0 { AboveParent(s, s.dn, c); }
  }

  /** One step on from a node the walk is through with. */
  lemma StepOn(s: Source, nodes: set<Node>, kids: Kids, copyOf: map<Node, Node>, done: map<Node, nat>, c0: Node,
      c: Node)
    requires Stands(s, nodes, kids, copyOf) && Leaving(s, copyOf, done, kids, c) && c != s.sn
    requires Sound(s) && c0 in s.l && (c == c0 || StrictlyAbove(s, c, c0))
    ensures c.nextSibling != null
            ==> Arriving(s, copyOf, done, kids, c.nextSibling) && (c0 == s.dn ==> c.nextSibling != s.dn)
                                      && c.nextSibling != s.sn && c.nextSibling in s.l && c in s.l
                                         && s.l[c.nextSibling].parent == s.l[c].parent
    ensures c.nextSibling == null
            ==> c.parent != null && Leaving(s, copyOf, done, kids, c.parent) && c in s.l && c.parent == s.l[c].parent
    ensures c.nextSibling == null
            ==> c.parent in copyOf && c.parent in s.l && c in s.h && c.parent in s.h && s.h[c.parent] < s.h[c]
                                      && StrictlyAbove(s, c.parent, c0)
    ensures c.nextSibling == null && c.parent != s.sn
            ==> s.l[c.parent].parent in copyOf && copyOf[c.parent].parent == copyOf[s.l[c.parent].parent]
  {
    LeavingParts(s, copyOf, done, kids, c);
    assert Inside(s, copyOf, c);
    SiblingOf(s, nodes, kids, copyOf, done, c);
    if c.nextSibling != null {
      NextArrives(s, copyOf, done, kids, c, c.nextSibling);
      NotBackAt(s, copyOf, done, kids, c0, c, c.nextSibling);
    } else {
      ParentLeft(s, copyOf, done, kids, c);
      StillAbove(s, c0, c, c.parent);
      if c.parent != s.sn { CopyHangs(s, nodes, kids, copyOf, done, c.parent); }
    }
    hide Partial, Finished, OnPath, Valid;
  }

  /** The inner loop of `node_copy_tree`: on to the next node of the source, stepping up in the copy as
    the walk steps up in the source. */
  method NextNode(ghost s: Source, sn: Node, sit0: Node, dit0: Node, ghost nodes: set<Node>, ghost kids: Kids,
      ghost copyOf: map<Node, Node>, ghost done: map<Node, nat>)
    returns (sit: Node, dit: Node?)
    requires Sound(s) && Stands(s, nodes, kids, copyOf) && Leaving(s, copyOf, done, kids, sit0) && sn == s.sn
    requires sit0 != sn && sit0 in s.l && s.l[sit0].parent in copyOf && dit0 == copyOf[s.l[sit0].parent]
    ensures sit == sn ==> Leaving(s, copyOf, done, kids, sit)
    ensures sit != sn ==>
              && Arriving(s, copyOf, done, kids, sit) && sit in s.l && s.l[sit].parent in copyOf
              && dit == copyOf[s.l[sit].parent]
    ensures sit0 == s.dn ==> sit != s.dn
  {
    hide *;
    sit, dit := sit0, dit0;
    RootIsNotCopy(s);
    var arrived := false;
    while sit != sn && !arrived
      invariant sit in s.l && sit in s.h
      invariant arrived ==> sit != sn && Arriving(s, copyOf, done, kids, sit) && (sit0 == s.dn ==> sit != s.dn)
      invariant !arrived ==> Leaving(s, copyOf, done, kids, sit) && (sit == sit0 || StrictlyAbove(s, sit, sit0))
      invariant !arrived && sit0 == s.dn && sit == s.dn ==> sit != sn
      invariant sit != sn ==> s.l[sit].parent in copyOf && dit == copyOf[s.l[sit].parent]
      decreases !arrived, s.h[sit]
    {
      StepOn(s, nodes, kids, copyOf, done, sit0, sit);
      if sit.nextSibling != null {
        sit, arrived := sit.nextSibling, true;
      } else {
        sit, dit := sit.parent, dit.parent;
      }
    }
  }

  lemma RootIsNotCopy(s: Source)
    requires Sound(s)
    ensures s.sn != s.dn && s.l.Keys == s.h.Keys
  {
  }

  lemma StandsMore(s: Source, nodes: set<Node>, kids: Kids, copyOf: map<Node, Node>, more: set<Node>, kids': Kids,
      c: Node, copy: Node)
    requires s.l.Keys <= nodes <= more && copy in more && c in s.l && c != s.dn
    requires Valid(more, kids') && (forall n | n in s.l :: n.parent == s.l[n].parent)
    requires forall x | x in copyOf && x in s.l :: copyOf[x] in nodes && copyOf[x].data == x.data
    requires copy.data == c.data
    ensures Stands(s, more, kids', copyOf[c := copy])
  {
    hide Valid;
  }

  lemma StandsHas(s: Source, nodes: set<Node>, kids: Kids, copyOf: map<Node, Node>)
    requires Stands(s, nodes, kids, copyOf)
    ensures Valid(nodes, kids) && kids.Keys == nodes && s.l.Keys <= nodes
            && (forall n | n in s.l :: n.parent == s.l[n].parent)
    ensures forall x | x in copyOf && x in s.l :: copyOf[x] in nodes && copyOf[x].data == x.data
  {
  }

  /** One node of the source gets its copy, and the walk goes down to its first child if it has one. */
  method CopyNode(ghost s: Source, sit: Node, dit: Node, ghost nodes: set<Node>, ghost kids: Kids,
      ghost copyOf: map<Node, Node>, ghost done: map<Node, nat>)
    returns (copy: Node, ghost nodes': set<Node>, ghost kids': Kids, ghost copyOf': map<Node, Node>,
        ghost done': map<Node, nat>)
    requires Stands(s, nodes, kids, copyOf) && Arriving(s, copyOf, done, kids, sit) && sit in s.l && sit != s.dn
    requires s.l[sit].parent in copyOf && dit == copyOf[s.l[sit].parent] && dit in nodes
    modifies nodes
    ensures fresh(copy) && nodes' == nodes + {copy} && copyOf' == copyOf[sit := copy]
    ensures Stands(s, nodes', kids', copyOf') && sit in s.kids
    ensures s.kids[sit] == [] ==> Leaving(s, copyOf', done', kids', sit)
    ensures s.kids[sit] != []
            ==> Arriving(s, copyOf', done', kids', s.kids[sit][0]) && s.l[s.kids[sit][0]].parent == sit
    ensures forall n | n in nodes :: n.data == old(n.data)
  {
    hide *;
    ArrivingParts(s, copyOf, done, kids, sit);
    InsideParts(s, copyOf, sit);
    StandsHas(s, nodes, kids, copyOf);
    copy := AppendNewNode(dit, sit.data, nodes, kids);
    nodes', kids', copyOf' := nodes + {copy}, WithCopy(kids, dit, copy), copyOf[sit := copy];
    done' := More(done, s.l[sit].parent, sit);
    StandsMore(s, nodes, kids, copyOf, nodes', kids', sit, copy);
    if s.kids[sit] == [] {
      LeafLeft(s, copyOf, done, kids, sit, copy);
    } else {
      FirstChildArrives(s, copyOf, done, kids, sit, copy);
    }
  }

  // ------------------------------------------------------------------ the whole copy

  lemma StartCopied(s: Source, nodes: set<Node>)
    requires Sound(s)
    ensures Partial(s, map[s.sn := s.dn], map[s.sn := 0], s.kids)
  {
    var k := Children(s, s.sn);
    forall i {:trigger k[i]} | 0 <= i < |k| ensures k[i] != s.sn {
      ChildrenAre(s, s.sn, i);
      ChildOf(s, k[i]);
    }
    hide Lists, Ranked, Children;
  }

  lemma StartLeaves(s: Source, nodes: set<Node>)
    requires Sound(s) && s.sn in s.kids && s.kids[s.sn] == []
    ensures Leaving(s, map[s.sn := s.dn], map[s.sn := 0], s.kids, s.sn)
  {
    StartCopied(s, nodes);
    hide Partial, Lists, Ranked;
  }

  lemma StartArrives(s: Source, nodes: set<Node>)
    requires Sound(s) && s.sn in s.kids && s.kids[s.sn] != []
    ensures s.kids[s.sn][0] in s.l && s.l[s.kids[s.sn][0]].parent == s.sn && s.kids[s.sn][0] != s.sn
    ensures Arriving(s, map[s.sn := s.dn], map[s.sn := 0], s.kids, s.kids[s.sn][0])
  {
    StartCopied(s, nodes);
    ListOf(s, s.sn);
    var first := s.kids[s.sn][0];
    assert first in s.kids[s.sn];
    ChildOf(s, first);
    RankAt(s, s.sn, 0);
    BelowParent(s, first, s.sn);
    hide Partial, Lists, Ranked;
  }

  /** The nodes of the source have all been copied. */
  lemma {:induction false} EverythingCopied(s: Source, copyOf: map<Node, Node>, done: map<Node, nat>, kids: Kids,
      x: Node)
    requires Leaving(s, copyOf, done, kids, s.sn) && Sound(s) && x in s.l
    ensures x in copyOf <==> x != s.dn && Below(s.l, s.h, x, s.sn)
    decreases s.h[x]
  {
    if x in copyOf {
      CopiedBelow(s, copyOf, done, kids, x);
    } else if x != s.dn && Below(s.l, s.h, x, s.sn) {
      var p := s.l[x].parent;
      ChildOf(s, x);
      EverythingCopied(s, copyOf, done, kids, p);
      assert p in copyOf;
      AllCopied(s, copyOf, done, kids);
      assert Copied(s, copyOf, done[p], kids, p);
      RankAt(s, p, IndexIn(s.kids[p], x));
    }
  }

  /** The copy under `dn` is the source as it was, without `dn`, and nothing else has changed. */
  ghost predicate Isomorphic(s: Source, nodes: set<Node>, kids: Kids, copyOf: map<Node, Node>)
    requires Sound(s)
    reads nodes, s.l.Keys
  {
    && s.sn in copyOf && copyOf[s.sn] == s.dn
    && (forall x | x in s.l :: x in copyOf <==> x != s.dn && Below(s.l, s.h, x, s.sn))
    && OneToOne(s, copyOf)
    && (forall x {:trigger copyOf[x]} | x in copyOf ::
          && x in s.l && x in s.kids && copyOf[x] in kids && copyOf[x] in nodes
          && copyOf[x].data == x.data
          && (forall c | c in Children(s, x) :: c in copyOf)
          && kids[copyOf[x]] == Images(copyOf, Children(s, x)))
    && Untouched(s, kids)
    && s.l.Keys <= nodes && forall n | n in s.l :: n.parent == s.l[n].parent
  }

  lemma CopyIsIsomorphic(s: Source, nodes: set<Node>, kids: Kids, copyOf: map<Node, Node>, done: map<Node, nat>)
    requires Sound(s) && Leaving(s, copyOf, done, kids, s.sn) && Stands(s, nodes, kids, copyOf)
    ensures Isomorphic(s, nodes, kids, copyOf)
  {
    hide Lists, Ranked, Below, Children, OneToOne, Untouched, TopDown, Valid, OnPath, Finished;
    forall x | x in s.l ensures x in copyOf <==> x != s.dn && Below(s.l, s.h, x, s.sn) {
      EverythingCopied(s, copyOf, done, kids, x);
    }
    AllCopied(s, copyOf, done, kids);
    forall x | x in copyOf
      ensures x in s.kids && copyOf[x] in kids && (forall c | c in Children(s, x) :: c in copyOf)
              && kids[copyOf[x]] == Images(copyOf, Children(s, x))
    {
      CopyParts(s, copyOf, done, kids, x);
      var c := Children(s, x);
      assert c[..|c|] == c;
      forall y | y in c ensures y in copyOf { var i :| 0 <= i < |c| && c[i] == y; }
    }
  }

  /** `node_copy_contents`. */
  method CopyContents(dn: Node, sn: Node, ghost nodes: set<Node>, ghost kids: Kids)
    requires Valid(nodes, kids) && dn in nodes
    modifies dn`data
    ensures dn.data == sn.data && LinksOf(nodes) == old(LinksOf(nodes)) && Valid(nodes, kids)
  {
    dn.data := sn.data;
    assert LinksOf(nodes) == old(LinksOf(nodes));
  }

  /** Where the walk is: at a node of the source it has come to, or back at the root. */
  ghost predicate Walking(s: Source, nodes: set<Node>, kids: Kids, copyOf: map<Node, Node>, done: map<Node, nat>,
      sit: Node, dit: Node?)
    reads nodes, s.l.Keys
  {
    && Stands(s, nodes, kids, copyOf)
    && if sit == s.sn then Leaving(s, copyOf, done, kids, sit)
       else Arriving(s, copyOf, done, kids, sit) && sit in s.l && s.l[sit].parent in copyOf
            && dit == copyOf[s.l[sit].parent]
  }

  lemma WalkingParts(s: Source, nodes: set<Node>, kids: Kids, copyOf: map<Node, Node>, done: map<Node, nat>, sit: Node,
      dit: Node?)
    requires Walking(s, nodes, kids, copyOf, done, sit, dit) && sit != s.sn
    ensures Sound(s) && Stands(s, nodes, kids, copyOf) && Arriving(s, copyOf, done, kids, sit)
    ensures sit in s.l && s.l[sit].parent in copyOf && dit == copyOf[s.l[sit].parent] && dit != null && dit in nodes
            && sit !in copyOf && sit in nodes
    ensures s.dn != s.sn
  {
  }

  lemma WalkingMade(s: Source, nodes: set<Node>, kids: Kids, copyOf: map<Node, Node>, done: map<Node, nat>, sit: Node,
      dit: Node?)
    requires Stands(s, nodes, kids, copyOf)
    requires if sit == s.sn then Leaving(s, copyOf, done, kids, sit)
             else Arriving(s, copyOf, done, kids, sit) && sit in s.l && s.l[sit].parent in copyOf
                  && dit == copyOf[s.l[sit].parent]
    ensures Walking(s, nodes, kids, copyOf, done, sit, dit)
  {
  }

  /** One round of the outer loop of `node_copy_tree`. */
  method WalkOn(ghost s: Source, dn: Node, sn: Node, sit0: Node, dit0: Node, ghost nodes: set<Node>, ghost kids: Kids,
      ghost copyOf: map<Node, Node>, ghost done: map<Node, nat>)
    returns (sit: Node, dit: Node?, ghost nodes': set<Node>, ghost kids': Kids, ghost copyOf': map<Node, Node>,
        ghost done': map<Node, nat>)
    requires Walking(s, nodes, kids, copyOf, done, sit0, dit0) && dn == s.dn && sn == s.sn && sit0 != sn
    modifies nodes
    ensures fresh(nodes' - nodes) && nodes <= nodes' && Walking(s, nodes', kids', copyOf', done', sit, dit)
    ensures sit0 in s.l && sit0 !in copyOf
    ensures if sit0 == dn then copyOf' == copyOf && sit != dn else copyOf'.Keys == copyOf.Keys + {sit0}
    ensures forall n | n in nodes :: n.data == old(n.data)
  {
    hide *;
    WalkingParts(s, nodes, kids, copyOf, done, sit0, dit0);
    nodes', kids', copyOf', done' := nodes, kids, copyOf, done;
    if sit0 != dn {
      var copy;
      copy, nodes', kids', copyOf', done' := CopyNode(s, sit0, dit0, nodes, kids, copyOf, done);
      FirstChildLink(s, nodes', kids', copyOf', done', sit0);
      if sit0.firstChild != null {
        sit, dit := sit0.firstChild, copy;
        WalkingMade(s, nodes', kids', copyOf', done', sit, dit);
        return;
      }
    } else {
      SkipCopy(s, copyOf, done, kids);
    }
    sit, dit := NextNode(s, sn, sit0, dit0, nodes', kids', copyOf', done');
    WalkingMade(s, nodes', kids', copyOf', done', sit, dit);
  }

  /** `node_copy_tree`: a copy of the tree of `sn` under `dn`, which hangs somewhere in a tree and has no
    children yet. */
  method NodeCopyTree(dn: Node, sn: Node, ghost nodes: set<Node>, ghost kids: Kids, ghost h: map<Node, nat>)
    returns (ghost nodes': set<Node>, ghost kids': Kids, ghost copyOf: map<Node, Node>)
    requires Valid(nodes, kids) && Ranked(LinksOf(nodes), h) && dn in nodes && sn in nodes && dn != sn && kids[dn] == []
    modifies nodes
    ensures fresh(nodes' - nodes) && nodes <= nodes' && Valid(nodes', kids')
    ensures var s := Source(old(LinksOf(nodes)), h, kids, dn, sn); Sound(s) && Isomorphic(s, nodes', kids', copyOf)
    ensures forall n | n in nodes && n != dn :: n.data == old(n.data)
  {
    hide *;
    ghost var s := Source(LinksOf(nodes), h, kids, dn, sn);
    SourceSound(s, nodes);
    CopyContents(dn, sn, nodes, kids);
    copyOf := map[sn := dn];
    ghost var done: map<Node, nat> := map[sn := 0];
    StartStands(s, nodes);
    var sit := sn.firstChild;
    if sit == null {
      StartLeaves(s, nodes);
      sit := sn;
    } else {
      StartArrives(s, nodes);
    }
    WalkingMade(s, nodes, kids, copyOf, done, sit, dn);
    nodes', kids', copyOf, done := Walk(s, dn, sn, sit, dn, nodes, kids, copyOf, done);
    CopyIsIsomorphic(s, nodes', kids', copyOf, done);
    StandsHas(s, nodes', kids', copyOf);
  }

  /** The outer loop of `node_copy_tree`. */
  method Walk(ghost s: Source, dn: Node, sn: Node, sit0: Node, dit0: Node?, ghost nodes: set<Node>, ghost kids: Kids,
      ghost copyOf0: map<Node, Node>, ghost done0: map<Node, nat>)
    returns (ghost nodes': set<Node>, ghost kids': Kids, ghost copyOf: map<Node, Node>, ghost done: map<Node, nat>)
    requires Walking(s, nodes, kids, copyOf0, done0, sit0, dit0) && dn == s.dn && sn == s.sn
    modifies nodes
    ensures fresh(nodes' - nodes) && nodes <= nodes'
    ensures Sound(s) && Stands(s, nodes', kids', copyOf) && Leaving(s, copyOf, done, kids', sn)
    ensures forall n | n in nodes :: n.data == old(n.data)
  {
    hide *;
    var sit, dit := sit0, dit0;
    nodes', kids', copyOf, done := nodes, kids, copyOf0, done0;
    while sit != sn
      invariant fresh(nodes' - nodes) && nodes <= nodes' && Walking(s, nodes', kids', copyOf, done, sit, dit)
      invariant forall n | n in nodes :: n.data == old(n.data)
      decreases |s.l.Keys - copyOf.Keys|, if sit == dn then 1 else 0
    {
      WalkingParts(s, nodes', kids', copyOf, done, sit, dit);
      SmallerSet(s.l.Keys, copyOf.Keys, sit);
      sit, dit, nodes', kids', copyOf, done := WalkOn(s, dn, sn, sit, dit, nodes', kids', copyOf, done);
    }
    WalkingEnds(s, nodes', kids', copyOf, done, dit);
  }

  lemma SmallerSet(all: set<Node>, some: set<Node>, x: Node)
    requires x in all && x !in some
    ensures |all - (some + {x})| < |all - some|
  {
    assert all - some == (all - (some + {x})) + {x};
  }

  lemma WalkingEnds(s: Source, nodes: set<Node>, kids: Kids, copyOf: map<Node, Node>, done: map<Node, nat>, dit: Node?)
    requires Walking(s, nodes, kids, copyOf, done, s.sn, dit)
    ensures Sound(s) && Stands(s, nodes, kids, copyOf) && Leaving(s, copyOf, done, kids, s.sn)
  {
  }

  lemma SourceSound(s: Source, nodes: set<Node>)
    requires Valid(nodes, s.kids) && s.l == LinksOf(nodes) && Ranked(s.l, s.h) && s.dn in nodes && s.sn in nodes
             && s.dn != s.sn && s.kids[s.dn] == []
    ensures Sound(s) && s.l.Keys == nodes && s.sn in s.kids
    ensures s.sn.firstChild == if s.kids[s.sn] == [] then null else s.kids[s.sn][0]
  {
    FirstAndLast(s.l, s.kids, s.sn);
  }

  lemma StartStands(s: Source, nodes: set<Node>)
    requires Valid(nodes, s.kids) && s.l == LinksOf(nodes) && s.sn in nodes && s.dn in nodes && s.dn.data == s.sn.data
    ensures Stands(s, nodes, s.kids, map[s.sn := s.dn])
  {
    hide Lists;
  }

  lemma FirstChildLink(s: Source, nodes: set<Node>, kids: Kids, copyOf: map<Node, Node>, done: map<Node, nat>, c: Node)
    requires Stands(s, nodes, kids, copyOf) && c in s.l && c in s.kids && c != s.dn && Sound(s)
    requires if s.kids[c] == [] then Leaving(s, copyOf, done, kids, c)
             else Arriving(s, copyOf, done, kids, s.kids[c][0])
    ensures c.firstChild == (if s.kids[c] == [] then null else s.kids[c][0])
    ensures s.kids[c] != [] ==> s.kids[c][0] != s.sn && s.kids[c][0] in s.l
  {
    StandsParts(s, nodes, kids, copyOf, done, c);
  }

  // ------------------------------------------------------------------ append_copy

  lemma AttachedRanked(nodes: set<Node>, l: LinkMap, h: map<Node, nat>, m: LinkMap, n: Node, p: Node)
    returns (h': map<Node, nat>)
    requires Ranked(l, h) && p in l && n !in l && m.Keys == l.Keys + {n} && m[n].parent == p
    requires forall x | x in l :: m[x].parent == l[x].parent
    ensures Ranked(m, h') && forall x | x in l :: h'[x] == h[x]
  {
    h' := h[n := h[p] + 1];
  }

  /** The children without the new node are the children there were. */
  lemma ChildrenBefore(s: Source, kids0: Kids, p: Node, x: Node)
    requires p in kids0 && x in kids0 && s.dn !in kids0 && (forall y | y in kids0 :: s.dn !in kids0[y])
             && s.kids == WithCopy(kids0, p, s.dn)
    ensures x in s.kids && Children(s, x) == kids0[x]
  {
    if x == p {
      var k := kids0[x];
      assert s.kids[x] == k + [s.dn];
      assert IndexIn(k + [s.dn], s.dn) == |k| by { LastIndex(k, s.dn); }
      assert Removed(s.kids[x], |k|) == k;
    }
  }

  lemma {:induction false} LastIndex(k: seq<Node>, d: Node)
    requires d !in k
    ensures IndexIn(k + [d], d) == |k|
  {
    if k != [] {
      assert (k + [d])[1..] == k[1..] + [d];
      LastIndex(k[1..], d);
    }
  }

  /** What is below what does not depend on the new leaf. */
  lemma {:induction false} SameBelow(l: LinkMap, h: map<Node, nat>, m: LinkMap, g: map<Node, nat>, n: Node, x: Node)
    requires Ranked(l, h) && Ranked(m, g) && l.Keys <= m.Keys && (forall y | y in l :: m[y].parent == l[y].parent)
             && x in l
    ensures Below(m, g, x, n) <==> Below(l, h, x, n)
    decreases h[x]
  {
    if x != n && l[x].parent != null { SameBelow(l, h, m, g, n, l[x].parent); }
  }

  /** `append_copy`: the last child of `self` becomes a copy of the tree of `proto` as it was before,
    wherever in the document `proto` is, be it `self` itself or one of its ancestors. */
  method AppendCopy(self: Node, proto: Node, ghost nodes: set<Node>, ghost kids: Kids, ghost h: map<Node, nat>)
    returns (n: Node?, ghost nodes': set<Node>, ghost kids': Kids, ghost copyOf: map<Node, Node>)
    requires Valid(nodes, kids) && Ranked(LinksOf(nodes), h) && self in nodes && proto in nodes
    modifies nodes
    ensures n != null <==> AllowInsertChild(old(self.data.kind), old(proto.data.kind))
    ensures n == null ==> nodes' == nodes && kids' == kids && unchanged(nodes)
    ensures n != null ==>
              && fresh(n) && fresh(nodes' - nodes) && nodes <= nodes' && Valid(nodes', kids')
              && self in kids && self in kids' && kids'[self] == kids[self] + [n]
              && (forall x | x in nodes && x != self :: x in kids && x in kids' && kids'[x] == kids[x])
              && (forall x | x in nodes :: x.data == old(x.data) && x.parent == old(x.parent))
    ensures n != null ==>
              && kids.Keys == nodes
              && CopyOfTree(nodes, old(LinksOf(nodes)), h, kids, proto, n, nodes', kids', copyOf)
  {
    nodes', kids', copyOf := nodes, kids, map[];
    if !AllowInsertChild(self.data.kind, proto.data.kind) { return null, nodes', kids', copyOf; }
    n, nodes', kids', copyOf := CopyUnder(self, proto, nodes, kids, h);
  }

  /** A copy of the tree of `x` of every list of children as it was. */
  ghost predicate CopyOfTree(nodes: set<Node>, l: LinkMap, h: map<Node, nat>, kids: Kids, proto: Node, n: Node,
      nodes': set<Node>, kids': Kids, copyOf: map<Node, Node>)
    requires Ranked(l, h) && l.Keys == nodes && kids.Keys == nodes && nodes <= nodes'
    reads nodes'
  {
    && proto in copyOf && copyOf[proto] == n
    && (forall x | x in nodes :: x in copyOf <==> Below(l, h, x, proto))
    && (forall x, y {:trigger copyOf[x], copyOf[y]} | x in copyOf && y in copyOf && copyOf[x] == copyOf[y] :: x == y)
    && (forall x {:trigger copyOf[x]} | x in copyOf ::
          && x in nodes && copyOf[x] in nodes' && copyOf[x] !in nodes && copyOf[x] in kids'
          && copyOf[x].data == x.data
          && (forall c | c in kids[x] :: c in copyOf)
          && kids'[copyOf[x]] == Images(copyOf, kids[x]))
  }

  lemma IsomorphicAt(s: Source, nodes: set<Node>, kids: Kids, copyOf: map<Node, Node>, x: Node)
    requires Sound(s) && Isomorphic(s, nodes, kids, copyOf)
    ensures s.l.Keys <= nodes && s.sn in copyOf && copyOf[s.sn] == s.dn
    ensures x in s.l ==> (x in copyOf <==> x != s.dn && Below(s.l, s.h, x, s.sn))
    ensures forall y | x in copyOf && y in copyOf && copyOf[x] == copyOf[y] :: x == y
    ensures x in copyOf && x != s.sn ==> copyOf[x] !in s.l
    ensures x in copyOf ==>
              && x in s.l && x != s.dn && x in s.kids && copyOf[x] in kids && copyOf[x] in nodes
                 && copyOf[x].data == x.data
              && (forall c | c in Children(s, x) :: c in copyOf)
              && kids[copyOf[x]] == Images(copyOf, Children(s, x))
    ensures x in s.l && x != s.dn ==> x in kids && x in s.kids && kids[x] == s.kids[x]
  {
    hide Below, Children, Ranked, Spells;
  }

  lemma ConcludedAt(s: Source, nodes: set<Node>, l: LinkMap, h: map<Node, nat>, kids: Kids, p: Node, nodes': set<Node>,
      kids': Kids, copyOf: map<Node, Node>, x: Node)
    requires Sound(s) && Isomorphic(s, nodes', kids', copyOf) && Lists(l, kids) && Ranked(l, h) && l.Keys == nodes
             && p in nodes && kids.Keys == nodes
    requires s.dn !in nodes && s.l.Keys == nodes + {s.dn} && s.kids == WithCopy(kids, p, s.dn) && s.sn in nodes
    requires forall y | y in nodes :: s.l[y].parent == l[y].parent
    ensures x in nodes ==> (x in copyOf <==> Below(l, h, x, s.sn))
    ensures x in copyOf ==>
              && x in nodes && copyOf[x] in nodes' && copyOf[x] !in nodes && copyOf[x] in kids'
              && copyOf[x].data == x.data
              && (forall c | c in kids[x] :: c in copyOf)
              && kids'[copyOf[x]] == Images(copyOf, kids[x])
    ensures x in nodes ==> x in kids' && kids'[x] == if x == p then kids[x] + [s.dn] else kids[x]
  {
    SoundParts(s);
    ListsWithin(l, kids, s.dn);
    IsomorphicAt(s, nodes', kids', copyOf, x);
    if x in nodes {
      assert x in s.l && x != s.dn;
      SameBelow(l, h, s.l, s.h, s.sn, x);
      ChildrenBefore(s, kids, p, x);
      WithCopyLists(kids, p, s.dn, x);
    }
    hide *;
  }

  lemma SoundParts(s: Source)
    requires Sound(s)
    ensures Ranked(s.l, s.h)
  {
  }

  lemma WithCopyLists(kids: Kids, p: Node, n: Node, x: Node)
    requires p in kids && x in kids && n !in kids
    ensures x in WithCopy(kids, p, n) && WithCopy(kids, p, n)[x] == if x == p then kids[x] + [n] else kids[x]
  {
    var k := kids[p];
    assert Inserted(k, |k|, n) == k + [n];
  }

  lemma CopyConcluded(s: Source, nodes: set<Node>, l: LinkMap, h: map<Node, nat>, kids: Kids, p: Node,
      nodes': set<Node>, kids': Kids, copyOf: map<Node, Node>)
    requires Sound(s) && Isomorphic(s, nodes', kids', copyOf) && Lists(l, kids) && Ranked(l, h) && l.Keys == nodes
             && p in nodes && kids.Keys == nodes
    requires s.dn !in nodes && s.l.Keys == nodes + {s.dn} && s.kids == WithCopy(kids, p, s.dn) && s.sn in nodes
    requires forall x | x in nodes :: s.l[x].parent == l[x].parent
    ensures nodes <= nodes'
    ensures CopyOfTree(nodes, l, h, kids, s.sn, s.dn, nodes', kids', copyOf)
    ensures p in kids' && kids'[p] == kids[p] + [s.dn] && forall x | x in nodes && x != p ::
            x in kids' && kids'[x] == kids[x]
  {
    hide Sound, Isomorphic, Lists, Ranked, Below, WithCopy, Images;
    IsomorphicAt(s, nodes', kids', copyOf, s.sn);
    ConcludedAt(s, nodes, l, h, kids, p, nodes', kids', copyOf, p);
    forall x | x in nodes
      ensures x in copyOf <==> Below(l, h, x, s.sn)
      ensures x in kids' && kids'[x] == if x == p then kids[x] + [s.dn] else kids[x]
    { ConcludedAt(s, nodes, l, h, kids, p, nodes', kids', copyOf, x); }
    forall x | x in copyOf
      ensures x in nodes && copyOf[x] in nodes' && copyOf[x] !in nodes && copyOf[x] in kids'
      ensures copyOf[x].data == x.data && (forall c | c in kids[x] :: c in copyOf)
              && kids'[copyOf[x]] == Images(copyOf, kids[x])
    { ConcludedAt(s, nodes, l, h, kids, p, nodes', kids', copyOf, x); }
    forall x, y | x in copyOf && y in copyOf && copyOf[x] == copyOf[y] ensures x == y {
      IsomorphicAt(s, nodes', kids', copyOf, x);
    }
  }

  lemma ListsWithin(l: LinkMap, kids: Kids, n: Node)
    requires Lists(l, kids) && n !in l
    ensures n !in kids && forall y | y in kids :: n !in kids[y]
  {
    forall y | y in kids ensures n !in kids[y] { assert Within(l, kids[y]); }
  }

  method CopyUnder(self: Node, proto: Node, ghost nodes: set<Node>, ghost kids: Kids, ghost h: map<Node, nat>)
    returns (n: Node, ghost nodes': set<Node>, ghost kids': Kids, ghost copyOf: map<Node, Node>)
    requires Valid(nodes, kids) && Ranked(LinksOf(nodes), h) && self in nodes && proto in nodes
    modifies nodes
    ensures fresh(n) && fresh(nodes' - nodes) && nodes <= nodes' && Valid(nodes', kids')
    ensures self in kids && self in kids' && kids'[self] == kids[self] + [n] && kids.Keys == nodes
    ensures forall x | x in nodes && x != self :: x in kids' && kids'[x] == kids[x]
    ensures forall x | x in nodes :: x.data == old(x.data) && x.parent == old(x.parent)
    ensures CopyOfTree(nodes, old(LinksOf(nodes)), h, kids, proto, n, nodes', kids', copyOf)
  {
    hide *;
    ghost var l := LinksOf(nodes);
    LinksKeys(nodes, kids);
    n := AppendNewNode(self, NodeData(proto.data.kind, "", "", []), nodes, kids);
    ghost var more := nodes + {n};
    ghost var m := LinksOf(more);
    NewLinks(nodes, l, n, self);
    ghost var g := AttachedRanked(nodes, l, h, m, n, self);
    NewList(kids, self, n);
    nodes', kids', copyOf := NodeCopyTree(n, proto, more, WithCopy(kids, self, n), g);
    ghost var s := Source(m, g, WithCopy(kids, self, n), n, proto);
    CopyConcluded(s, nodes, l, h, kids, self, nodes', kids', copyOf);
    ParentsKept(s, nodes', kids', copyOf);
  }

  lemma LinksKeys(nodes: set<Node>, kids: Kids)
    requires Valid(nodes, kids)
    ensures LinksOf(nodes).Keys == nodes && kids.Keys == nodes && Lists(LinksOf(nodes), kids)
    ensures forall x | x in nodes :: LinksOf(nodes)[x].parent == x.parent
  {
  }

  lemma NewLinks(nodes: set<Node>, l: LinkMap, n: Node, p: Node)
    requires l.Keys == nodes && n !in nodes && n.parent == p && forall x | x in nodes :: x.parent == l[x].parent
    ensures var m := LinksOf(nodes + {n});
            m.Keys == nodes + {n} && m[n].parent == p && forall x | x in nodes :: m[x].parent == l[x].parent
  {
  }

  lemma NewList(kids: Kids, p: Node, n: Node)
    requires p in kids && n !in kids
    ensures n in WithCopy(kids, p, n) && WithCopy(kids, p, n)[n] == []
  {
  }

  lemma ParentsKept(s: Source, nodes: set<Node>, kids: Kids, copyOf: map<Node, Node>)
    requires Sound(s) && Isomorphic(s, nodes, kids, copyOf)
    ensures forall x | x in s.l :: x.parent == s.l[x].parent
  {
  }
}
