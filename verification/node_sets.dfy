/** Node sets as the evaluator handles them: a growable array of nodes with a claim about its order. */
module NodeSets {
  import opened Arithmetic
  import opened Document
  import opened Axes
  import opened DocumentOrder
  import Hashing
  import Sorting

  datatype OrderType = Unsorted | Sorted | SortedReverse

  ghost predicate NoDuplicates(s: seq<XNode>) {
    forall i, j | 0 <= i < j < |s| :: s[i] != s[j]
  }

  /** The order flag tells the truth. */
  ghost predicate Truthful(s: seq<XNode>, ty: OrderType) {
    match ty
    case Unsorted => true
    case Sorted => InOrder(s)
    case SortedReverse => InReverseOrder(s)
  }

  ghost predicate ValidNodes(d: Table, s: seq<XNode>) {
    forall x | x in s :: ValidNode(d, x) && !x.NullNode?
  }

  lemma OrderedHasNoDuplicates(s: seq<XNode>, ty: OrderType)
    requires Truthful(s, ty) && ty != Unsorted
    ensures NoDuplicates(s)
  {
  }

  // ------------------------------------------------------------------ duplicates

  /** Storage gives every node and attribute its own non-zero address, and nothing to no node. */
  ghost predicate DistinctAddresses(address: XNode -> nat) {
    && (forall x :: address(x) == 0 <==> x.NullNode?)
    && (forall x, y :: address(x) == address(y) ==> x == y)
  }

  /** Each non-null node at its first occurrence, in the original order. */
  function FirstOccurrences(s: seq<XNode>): seq<XNode> {
    if s == [] then []
    else
      var init, x := s[..|s| - 1], s[|s| - 1];
      if x.NullNode? || x in init then FirstOccurrences(init) else FirstOccurrences(init) + [x]
  }

  lemma {:induction false} FirstOccurrencesKeepsSet(s: seq<XNode>)
    ensures forall x :: x in FirstOccurrences(s) <==> x in s && !x.NullNode?
    ensures NoDuplicates(FirstOccurrences(s))
    ensures |FirstOccurrences(s)| <= |s|
  {
    if s != [] {
      var init := s[..|s| - 1];
      assert s == init + [s[|s| - 1]];
      FirstOccurrencesKeepsSet(init);
    }
  }

  lemma {:induction false} NoDuplicatesUnchanged(s: seq<XNode>)
    requires NoDuplicates(s) && forall x | x in s :: !x.NullNode?
    ensures FirstOccurrences(s) == s
  {
    if s != [] {
      var init := s[..|s| - 1];
      assert s == init + [s[|s| - 1]];
      NoDuplicatesUnchanged(init);
    }
  }

  /** The smallest power of two that is at least one and a half times `size`, as an empty table. */
  method EmptyTableFor(size: nat) returns (table: array<nat>)
    requires size > 1
    ensures fresh(table) && table.Length > size && Hashing.IsPowerOfTwo(table.Length)
    ensures forall i | 0 <= i < table.Length :: table[i] == 0
  {
    var hashSize := 1;
    assert 1 == Pow2(0);
    while hashSize < size + size / 2
      invariant 0 < hashSize && Hashing.IsPowerOfTwo(hashSize)
      decreases size + size / 2 - hashSize
    {
      ghost var m: nat :| hashSize == Pow2(m);
      assert 2 * hashSize == Pow2(m + 1);
      hashSize := hashSize * 2;
    }
    table := new nat[hashSize](_ => 0);
  }

  /** The loop of `remove_duplicates` over a hash table at least one and a half times as large. */
  method CompactWithTable(nodes: array<XNode>, address: XNode -> nat) returns (write: nat)
    requires DistinctAddresses(address) && nodes.Length > 1
    modifies nodes
    ensures write <= nodes.Length && nodes[..write] == FirstOccurrences(old(nodes[..]))
  {
    hide DistinctAddresses, FirstOccurrences, Seen, Hashing.ValidTable;
    ghost var s := nodes[..];
    var table := EmptyTableFor(nodes.Length);
    AllEmpty(table[..]);
    write := 0;
    NothingSeen(table[..], s, address);
    for it := 0 to nodes.Length
      invariant write <= it
      invariant nodes[..write] == FirstOccurrences(s[..it])
      invariant nodes[it..] == s[it..]
      invariant Hashing.ValidTable(table[..])
      invariant multiset(table[..])[0] == table.Length - write
      invariant Seen(table[..], s[..it], address)
    {
      assert nodes[it + 1..] == nodes[it..][1..];
      var x := nodes[it];
      assert x == s[it] by { assert nodes[it..][0] == s[it..][0]; }
      var key := address(x);
      FirstOccurrencesStep(s, it);
      if key == 0 {
        SeenNull(table[..], s, it, address);
      } else {
        ghost var before := table[..];
        assert 0 in multiset(before);
        var isNew := Hashing.HashInsert(table, key);
        SeenStep(before, table[..], s, it, address, isNew);
        if isNew {
          KeepNode(nodes, write, it, x);
          write := write + 1;
        }
      }
      assert s[it..][1..] == s[it + 1..];
    }
    assert s[..nodes.Length] == s;
  }

  /** `*write++ = *it`, on the way through the nodes. */
  method KeepNode(nodes: array<XNode>, write: nat, it: nat, x: XNode)
    requires write <= it < nodes.Length
    modifies nodes
    ensures nodes[..write + 1] == old(nodes[..write]) + [x]
    ensures nodes[it + 1..] == old(nodes[it..])[1..]
  {
    nodes[write] := x;
  }

  /** The table holds the addresses of exactly the nodes met so far. */
  ghost predicate Seen(table: seq<nat>, s: seq<XNode>, address: XNode -> nat) {
    forall x: XNode | !x.NullNode? :: address(x) in table <==> x in s
  }

  lemma AllEmpty(t: seq<nat>)
    requires forall i | 0 <= i < |t| :: t[i] == 0
    requires |t| > 0
    ensures multiset(t)[0] == |t| && Hashing.ValidTable(t) && forall x | x in t :: x == 0
  {
    CountZeros(t);
  }

  lemma {:induction false} CountZeros(t: seq<nat>)
    requires forall i | 0 <= i < |t| :: t[i] == 0
    ensures multiset(t)[0] == |t|
  {
    if t != [] {
      CountZeros(t[..|t| - 1]);
      assert t == t[..|t| - 1] + [0];
    }
  }

  lemma NothingSeen(t: seq<nat>, s: seq<XNode>, address: XNode -> nat)
    requires DistinctAddresses(address) && forall x | x in t :: x == 0
    ensures Seen(t, s[..0], address)
    ensures FirstOccurrences(s[..0]) == []
  {
  }

  lemma FirstOccurrencesStep(s: seq<XNode>, it: nat)
    requires it < |s|
    ensures FirstOccurrences(s[..it + 1])
            == if s[it].NullNode? || s[it] in s[..it] then FirstOccurrences(s[..it])
               else FirstOccurrences(s[..it]) + [s[it]]
  {
    assert s[..it + 1][..it] == s[..it];
  }

  lemma SeenNull(t: seq<nat>, s: seq<XNode>, it: nat, address: XNode -> nat)
    requires DistinctAddresses(address) && it < |s| && Seen(t, s[..it], address) && address(s[it]) == 0
    ensures s[it].NullNode? && Seen(t, s[..it + 1], address)
  {
    assert s[..it + 1] == s[..it] + [s[it]];
  }

  lemma SeenStep(before: seq<nat>, after: seq<nat>, s: seq<XNode>, it: nat, address: XNode -> nat, isNew: bool)
    requires DistinctAddresses(address) && it < |s| && Seen(before, s[..it], address) && address(s[it]) != 0
    requires isNew <==> address(s[it]) !in before
    requires forall x | x != 0 :: x in after <==> x in before || x == address(s[it])
    ensures Seen(after, s[..it + 1], address)
    ensures !s[it].NullNode? && (isNew <==> s[it] !in s[..it])
  {
    assert s[..it + 1] == s[..it] + [s[it]];
  }

  /** `unique`: drops every element equal to the one before it. */
  function DropRepeats(s: seq<XNode>): seq<XNode> {
    if |s| <= 1 then s
    else
      var init, x := DropRepeats(s[..|s| - 1]), s[|s| - 1];
      if x == s[|s| - 2] then init else init + [x]
  }

  lemma ShortUnchanged(s: seq<XNode>)
    ensures s == [] ==> DropRepeats(s) == s
    ensures s != [] ==> DropRepeats(s[..1]) == s[..1]
  {
  }

  lemma DropRepeatsStep(s: seq<XNode>, k: nat)
    requires 0 < k < |s|
    ensures DropRepeats(s[..k + 1])
            == if s[k] == s[k - 1] then DropRepeats(s[..k]) else DropRepeats(s[..k]) + [s[k]]
  {
    assert s[..k + 1][..k] == s[..k];
  }

  method Unique(nodes: array<XNode>) returns (write: nat)
    modifies nodes
    ensures write <= nodes.Length && nodes[..write] == DropRepeats(old(nodes[..]))
  {
    hide DropRepeats;
    ghost var s := nodes[..];
    ShortUnchanged(s);
    var begin, end := 0, nodes.Length;
    while end - begin > 1 && nodes[begin] != nodes[begin + 1]
      invariant 0 <= begin <= end && (begin == end ==> s == [])
      invariant nodes[..] == s
      invariant begin < end ==> DropRepeats(s[..begin + 1]) == s[..begin + 1]
    {
      begin := begin + 1;
      DropRepeatsStep(s, begin);
    }
    if begin == end {
      return begin;
    }
    write := begin;
    begin := begin + 1;
    while begin != end
      invariant write < begin <= end
      invariant nodes[..write + 1] == DropRepeats(s[..begin])
      invariant nodes[write] == s[begin - 1]
      invariant forall k | begin <= k < end :: nodes[k] == s[k]
      decreases end - begin
    {
      DropRepeatsStep(s, begin);
      if nodes[begin] != nodes[write] {
        write := write + 1;
        nodes[write] := nodes[begin];
        assert nodes[..write + 1] == nodes[..write] + [s[begin]];
      }
      begin := begin + 1;
    }
    assert s[..end] == s;
    write := write + 1;
  }

  lemma {:induction false} NoRepeatsUnchanged(s: seq<XNode>)
    requires NoDuplicates(s)
    ensures DropRepeats(s) == s
  {
    if |s| > 1 { NoRepeatsUnchanged(s[..|s| - 1]); }
  }

  method Storage(s: seq<XNode>) returns (nodes: array<XNode>)
    ensures fresh(nodes) && nodes[..] == s
  {
    nodes := new XNode[|s|](i requires 0 <= i < |s| => s[i]);
  }

  /** `remove_duplicates`: by hash table for an unsorted set of more than two nodes, else by dropping
    adjacent repeats, which is enough for at most two nodes and for a set already free of them. */
  method RemoveDuplicates(s: seq<XNode>, ty: OrderType, address: XNode -> nat) returns (r: seq<XNode>)
    requires DistinctAddresses(address)
    requires Truthful(s, ty)
    ensures r == FirstOccurrences(s) <==> (ty == Unsorted && |s| > 2) || forall x | x in s :: !x.NullNode?
  {
    hide DistinctAddresses;
    var nodes := Storage(s);
    var end;
    if ty == Unsorted && |s| > 2 {
      end := CompactWithTable(nodes, address);
    } else {
      end := Unique(nodes);
      if forall x | x in s :: !x.NullNode? {
        if ty == Unsorted {
          ShortDuplicates(s);
        } else {
          OrderedHasNoDuplicates(s, ty);
          NoDuplicatesUnchanged(s);
          NoRepeatsUnchanged(s);
        }
      } else {
        NullRepeated(s);
      }
    }
    r := nodes[..end];
  }

  /** The adjacent test keeps a null node, which a set of first occurrences has not. */
  lemma NullRepeated(s: seq<XNode>)
    requires NullNode in s
    ensures DropRepeats(s) != FirstOccurrences(s)
  {
    hide FirstOccurrences;
    NullStays(s);
    FirstOccurrencesKeepsSet(s);
  }

  lemma {:induction false} NullStays(s: seq<XNode>)
    requires NullNode in s
    ensures NullNode in DropRepeats(s)
  {
    if |s| > 1 {
      var init, x := s[..|s| - 1], s[|s| - 1];
      assert s == init + [x];
      if x == NullNode && x != s[|s| - 2] {
        assert NullNode in DropRepeats(init) + [x];
      } else {
        if x == NullNode { assert init[|init| - 1] == NullNode; }
        NullStays(init);
      }
    }
  }

  lemma ShortDuplicates(s: seq<XNode>)
    requires |s| <= 2 && forall x | x in s :: !x.NullNode?
    ensures DropRepeats(s) == FirstOccurrences(s)
  {
    hide FirstOccurrences;
    NoDuplicatesUnchanged([]);
    assert s[..0] == [] && s[..|s|] == s;
    if |s| >= 1 {
      FirstOccurrencesStep(s, 0);
      assert s[..1] == [s[0]];
    }
    if |s| == 2 {
      FirstOccurrencesStep(s, 1);
      assert s == [s[0], s[1]];
    }
  }

  // ------------------------------------------------------------------ sorting a node set

  /** `xpath_get_order`: whether the nodes happen to be in order, or in reverse order. */
  method GetOrder(d: Table, s: seq<XNode>) returns (ty: OrderType)
    requires WellFormed(d) && ValidNodes(d, s) && NoDuplicates(s)
    ensures Truthful(s, ty)
  {
    hide WellFormed, ValidNode;
    if |s| < 2 { return Sorted; }
    var first := Before(d, s[0], s[1]);
    for it := 1 to |s| - 1
      invariant forall k | 0 <= k < it :: Precedes(s[k], s[k + 1]) == first
    {
      var b := Before(d, s[it], s[it + 1]);
      if b != first { return Unsorted; }
    }
    ty := if first then Sorted else SortedReverse;
    AdjacentOrder(s, first);
  }

  lemma AdjacentOrder(s: seq<XNode>, first: bool)
    requires NoDuplicates(s)
    requires forall k | 0 <= k < |s| - 1 :: Precedes(s[k], s[k + 1]) == first
    ensures if first then InOrder(s) else InReverseOrder(s)
  {
    forall i, j | 0 <= i < j < |s| ensures if first then Precedes(s[i], s[j]) else Precedes(s[j], s[i]) {
      ChainOrder(s, first, i, j);
    }
  }

  lemma {:induction false} ChainOrder(s: seq<XNode>, first: bool, i: nat, j: nat)
    requires NoDuplicates(s) && i < j < |s|
    requires forall k | 0 <= k < |s| - 1 :: Precedes(s[k], s[k + 1]) == first
    ensures if first then Precedes(s[i], s[j]) else Precedes(s[j], s[i])
    decreases j
  {
    PrecedesIsStrictTotal(s[j - 1], s[j], s[j]);
    assert Precedes(s[j - 1], s[j - 1 + 1]) == first;
    if i < j - 1 {
      ChainOrder(s, first, i, j - 1);
    }
  }

  method Reverse(nodes: array<XNode>)
    modifies nodes
    ensures |old(nodes[..])| == nodes.Length
    ensures forall k | 0 <= k < nodes.Length :: nodes[k] == old(nodes[..])[nodes.Length - 1 - k]
  {
    var begin, end := 0, nodes.Length;
    while end - begin > 1
      invariant 0 <= begin <= end && begin + end == nodes.Length
      invariant forall k | 0 <= k < begin || end <= k < nodes.Length :: nodes[k] == old(nodes[nodes.Length - 1 - k])
      invariant forall k | begin <= k < end :: nodes[k] == old(nodes[k])
    {
      end := end - 1;
      nodes[begin], nodes[end] := nodes[end], nodes[begin];
      begin := begin + 1;
    }
  }

  /** `sort_do`: the same nodes in document order. */
  method SortDo(d: Table, s: seq<XNode>, ty: OrderType) returns (r: seq<XNode>)
    requires WellFormed(d) && ValidNodes(d, s) && NoDuplicates(s) && Truthful(s, ty)
    ensures InOrder(r)
    ensures |r| == |s| && forall x :: x in r <==> x in s
  {
    hide *;
    var nodes := Storage(s);
    var flag := ty;
    if flag == Unsorted {
      flag := GetOrder(d, s);
      if flag == Unsorted {
        SortNodes(nodes);
        flag := Sorted;
      }
    }
    ghost var t := nodes[..];
    if flag != Sorted {
      Reverse(nodes);
    }
    r := nodes[..];
    SameNodes(s, t, r, flag);
  }

  method SortNodes(nodes: array<XNode>)
    requires NoDuplicates(nodes[..])
    modifies nodes
    ensures Truthful(nodes[..], Sorted) && multiset(nodes[..]) == multiset(old(nodes[..]))
  {
    hide Precedes, NoDuplicates, InOrder, Sorting.Sorted;
    ghost var s := nodes[..];
    PrecedesOrder();
    ghost var levels := Sorting.Sort(nodes, 0, nodes.Length, Precedes);
    assert s[0..|s|] == s && nodes[..][0..|s|] == nodes[..];
    SortedNodes(s, nodes[..]);
  }

  /** Sorting keeps the nodes, and so does reversing. */
  lemma SameNodes(s: seq<XNode>, t: seq<XNode>, r: seq<XNode>, flag: OrderType)
    requires Truthful(t, flag) && flag != Unsorted && (t == s || multiset(t) == multiset(s))
    requires if flag == Sorted then r == t else |r| == |t| && forall k | 0 <= k < |t| :: r[k] == t[|t| - 1 - k]
    ensures InOrder(r) && |r| == |s| && forall x :: x in r <==> x in s
  {
    hide InOrder, InReverseOrder;
    if flag != Sorted { Reversed(t, r); }
    assert |multiset(t)| == |t| && |multiset(s)| == |s|;
    forall x ensures x in r <==> x in s { assert x in multiset(t) <==> x in multiset(s); }
  }

  lemma PrecedesOrder()
    ensures Sorting.StrictTotalOrder(Precedes)
  {
    forall x, y, z
      ensures !Precedes(x, x) && (Precedes(x, y) && Precedes(y, z) ==> Precedes(x, z))
              && (Precedes(x, y) || Precedes(y, x) || x == y)
    {
      PrecedesIsStrictTotal(x, y, z);
    }
  }

  lemma SortedNodes(s: seq<XNode>, t: seq<XNode>)
    requires NoDuplicates(s) && Sorting.Sorted(t[0..|t|], Precedes) && Sorting.Rearranged(s, t, 0, |s|)
    ensures InOrder(t) && NoDuplicates(t) && |t| == |s| && forall x :: x in t <==> x in s
  {
    assert t[0..|t|] == t && s[0..|s|] == s;
    forall x ensures x in t <==> x in s { assert x in multiset(t) <==> x in multiset(s); }
    NoDuplicatesByCount(s, t);
    forall i, j | 0 <= i < j < |t| ensures Precedes(t[i], t[j]) { PrecedesIsStrictTotal(t[i], t[j], t[j]); }
  }

  lemma NoDuplicatesByCount(s: seq<XNode>, t: seq<XNode>)
    requires NoDuplicates(s) && multiset(s) == multiset(t)
    ensures NoDuplicates(t)
  {
    forall i, j | 0 <= i < j < |t| ensures t[i] != t[j] {
      CountAtMostOne(s, t[i]);
      if t[i] == t[j] { CountAtLeastTwo(t, i, j); }
    }
  }

  lemma {:induction false} CountAtMostOne(s: seq<XNode>, x: XNode)
    requires NoDuplicates(s)
    ensures multiset(s)[x] <= 1
  {
    if s != [] {
      assert s == s[..|s| - 1] + [s[|s| - 1]];
      CountAtMostOne(s[..|s| - 1], x);
    }
  }

  lemma CountAtLeastTwo(t: seq<XNode>, i: nat, j: nat)
    requires i < j < |t| && t[i] == t[j]
    ensures multiset(t)[t[i]] >= 2
  {
    assert t == t[..j] + [t[j]] + t[j + 1..];
    assert t[..j][i] in multiset(t[..j]);
  }

  lemma Reversed(t: seq<XNode>, r: seq<XNode>)
    requires |r| == |t| && forall k | 0 <= k < |t| :: r[k] == t[|t| - 1 - k]
    ensures InReverseOrder(t) ==> InOrder(r)
    ensures forall x :: x in r <==> x in t
  {
    forall x ensures x in r <==> x in t {
      if x in t { var k :| 0 <= k < |t| && t[k] == x; assert r[|t| - 1 - k] == x; }
    }
  }

  /** `xpath_first`: the first node in document order, whatever the order flag. */
  method First(d: Table, s: seq<XNode>, ty: OrderType) returns (x: XNode)
    requires WellFormed(d) && ValidNodes(d, s) && NoDuplicates(s) && Truthful(s, ty)
    ensures s == [] ==> x == NullNode
    ensures s != [] ==> x in s && forall y | y in s && y != x :: Precedes(x, y)
  {
    if s == [] { return NullNode; }
    match ty {
      case Sorted => x := s[0];
      case SortedReverse => x := s[|s| - 1];
      case Unsorted => x := MinElement(d, s);
    }
  }

  method MinElement(d: Table, s: seq<XNode>) returns (x: XNode)
    requires WellFormed(d) && ValidNodes(d, s) && NoDuplicates(s) && s != []
    ensures x in s && forall y | y in s && y != x :: Precedes(x, y)
  {
    hide WellFormed, ValidNode;
    var result := 0;
    for it := 1 to |s|
      invariant 0 <= result < it
      invariant forall k | 0 <= k < it && k != result :: Precedes(s[result], s[k])
    {
      var b := Before(d, s[it], s[result]);
      if b { result := it; }
    }
    x := s[result];
  }
}
