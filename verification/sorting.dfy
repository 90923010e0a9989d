/** The hybrid sort of the node sets: three-way quicksort on large ranges, insertion sort below. */
module Sorting {

  /** A strict total order: distinct elements always compare one way. */
  ghost predicate StrictTotalOrder<T(!new)>(less: (T, T) -> bool) {
    && (forall x :: !less(x, x))
    && (forall x, y, z :: less(x, y) && less(y, z) ==> less(x, z))
    && (forall x, y :: less(x, y) || less(y, x) || x == y)
  }

  lemma Trichotomy<T(!new)>(less: (T, T) -> bool, x: T, y: T)
    requires StrictTotalOrder(less)
    ensures less(x, y) || x == y || less(y, x)
  {
  }

  ghost predicate Sorted<T>(s: seq<T>, less: (T, T) -> bool) {
    forall i, j | 0 <= i < j < |s| :: !less(s[j], s[i])
  }

  /** Only `lo .. hi` changed, and there only the order. */
  ghost predicate Rearranged<T>(before: seq<T>, after: seq<T>, lo: nat, hi: nat) {
    && lo <= hi <= |before| == |after|
    && after[..lo] == before[..lo]
    && after[hi..] == before[hi..]
    && multiset(after[lo..hi]) == multiset(before[lo..hi])
  }

  /** The whole number part of the binary logarithm. */
  function Log2(n: nat): nat {
    if n <= 1 then 0 else 1 + Log2(n / 2)
  }

  lemma {:induction false} Log2Monotone(m: nat, n: nat)
    requires m <= n
    ensures Log2(m) <= Log2(n)
  {
    if m > 1 { Log2Monotone(m / 2, n / 2); }
  }

  lemma Log2OfHalf(m: nat, n: nat)
    requires 2 * m < n && n > 1
    ensures Log2(m) + 1 <= Log2(n)
  {
    Log2Monotone(m, n / 2);
  }

  // ------------------------------------------------------------------ rearrangements

  lemma RearrangedReflexive<T>(a: seq<T>, lo: nat, hi: nat)
    requires lo <= hi <= |a|
    ensures Rearranged(a, a, lo, hi)
  {
  }

  lemma ShortSorted<T>(a: seq<T>, lo: nat, less: (T, T) -> bool)
    requires lo <= |a|
    ensures Sorted(a[lo..lo], less)
    ensures lo < |a| ==> Sorted(a[lo..lo + 1], less)
  {
  }

  lemma BracketEmpty<T>(a: seq<T>, begin: nat, end: nat, less: (T, T) -> bool)
    requires begin <= end <= |a|
    ensures Bracketed(a, begin, begin, end, end, less)
  {
  }

  lemma RearrangedTransitive<T>(a: seq<T>, b: seq<T>, c: seq<T>, lo: nat, hi: nat)
    requires Rearranged(a, b, lo, hi) && Rearranged(b, c, lo, hi)
    ensures Rearranged(a, c, lo, hi)
  {
  }

  /** A rearrangement of a part of a range rearranges the range. */
  lemma RearrangedWiden<T>(a: seq<T>, b: seq<T>, lo: nat, hi: nat, l: nat, h: nat)
    requires l <= lo <= hi <= h <= |a| && Rearranged(a, b, lo, hi)
    ensures Rearranged(a, b, l, h)
  {
    assert b[..l] == b[..lo][..l] == a[..lo][..l] == a[..l];
    assert b[h..] == b[hi..][h - hi..] == a[hi..][h - hi..] == a[h..];
    assert a[l..h] == a[l..lo] + a[lo..hi] + a[hi..h];
    assert b[l..h] == b[l..lo] + b[lo..hi] + b[hi..h];
    assert b[l..lo] == b[..lo][l..] == a[..lo][l..] == a[l..lo];
    assert b[hi..h] == b[hi..][..h - hi] == a[hi..][..h - hi] == a[hi..h];
  }

  lemma SwapRearranges<T>(a: seq<T>, i: nat, j: nat, lo: nat, hi: nat)
    requires lo <= i < hi <= |a| && lo <= j < hi
    ensures Rearranged(a, a[i := a[j]][j := a[i]], lo, hi)
  {
    var b := a[i := a[j]][j := a[i]];
    assert b[lo..hi] == a[lo..hi][i - lo := a[j]][j - lo := a[i]];
  }

  method Swap<T>(a: array<T>, i: nat, j: nat, ghost lo: nat, ghost hi: nat)
    requires lo <= i < hi <= a.Length && lo <= j < hi
    modifies a
    ensures a[i] == old(a[j]) && a[j] == old(a[i])
    ensures forall k | 0 <= k < a.Length && k != i && k != j :: a[k] == old(a[k])
    ensures Rearranged(old(a[..]), a[..], lo, hi)
  {
    SwapRearranges(a[..], i, j, lo, hi);
    a[i], a[j] := a[j], a[i];
    assert a[..] == old(a[..])[i := old(a[j])][j := old(a[i])];
  }

  // ------------------------------------------------------------------ insertion_sort

  /** Moves the hole from `it` backwards past every larger element and fills it with the element
    that was at `it`. */
  method Insert<T(!new)>(a: array<T>, lo: nat, it: nat, less: (T, T) -> bool)
    requires StrictTotalOrder(less)
    requires lo < it < a.Length && Sorted(a[lo..it], less)
    modifies a
    ensures Sorted(a[lo..it + 1], less)
    ensures Rearranged(old(a[..]), a[..], lo, it + 1)
  {
    hide *;
    var val := a[it];
    var hole := it;
    ghost var before := a[..];
    NothingShifted(before, it);
    while hole > lo && less(val, a[hole - 1])
      invariant lo <= hole <= it && Shifted(before, a[..], hole, it)
      invariant forall k | hole <= k < it :: less(val, before[k])
    {
      ShiftOne(before, a[..], hole, it);
      ghost var b := a[..];
      a[hole] := a[hole - 1];
      assert a[..] == b[hole := b[hole - 1]];
      hole := hole - 1;
    }
    if hole > lo { ShiftOne(before, a[..], hole, it); }
    ghost var b := a[..];
    a[hole] := val;
    assert a[..] == b[hole := val];
    FillHole(before, b, hole, it);
    InsertedRearranges(before, a[..], lo, hole, it);
    InsertedSorted(before, a[..], lo, hole, it, less);
  }

  /** The elements from `hole` to `it` have moved up by one; the one at `it` is out. */
  ghost predicate Shifted<T>(a: seq<T>, b: seq<T>, hole: nat, it: nat) {
    && hole <= it < |a| == |b|
    && (forall k | 0 <= k < hole || it < k < |a| :: b[k] == a[k])
    && (forall k | hole < k <= it :: b[k] == a[k - 1])
  }

  lemma NothingShifted<T>(a: seq<T>, it: nat)
    requires it < |a|
    ensures Shifted(a, a, it, it)
  {
  }

  lemma ShiftOne<T>(a: seq<T>, b: seq<T>, hole: nat, it: nat)
    requires Shifted(a, b, hole, it) && hole > 0
    ensures |a| == |b| && b[hole - 1] == a[hole - 1] && Shifted(a, b[hole := b[hole - 1]], hole - 1, it)
  {
  }

  lemma FillHole<T>(a: seq<T>, b: seq<T>, hole: nat, it: nat)
    requires Shifted(a, b, hole, it)
    ensures |a| == |b| && Shifted(a, b[hole := a[it]], hole, it)
  {
  }

  lemma InsertedRearranges<T>(a: seq<T>, b: seq<T>, lo: nat, hole: nat, it: nat)
    requires lo <= hole && Shifted(a, b, hole, it) && b[hole] == a[it]
    ensures Rearranged(a, b, lo, it + 1)
  {
    assert b[..lo] == a[..lo] && b[it + 1..] == a[it + 1..];
    assert b[lo..it + 1] == a[lo..hole] + [a[it]] + a[hole..it];
    assert a[lo..it + 1] == a[lo..hole] + a[hole..it] + [a[it]];
  }

  lemma InsertedSorted<T(!new)>(a: seq<T>, b: seq<T>, lo: nat, hole: nat, it: nat, less: (T, T) -> bool)
    requires StrictTotalOrder(less)
    requires lo <= hole && Shifted(a, b, hole, it) && b[hole] == a[it]
    requires Sorted(a[lo..it], less)
    requires forall k | hole <= k < it :: less(a[it], a[k])
    requires hole == lo || !less(a[it], a[hole - 1])
    ensures Sorted(b[lo..it + 1], less)
  {
    forall x, y | lo <= x < y < it ensures !less(a[y], a[x]) {
      assert a[lo..it][x - lo] == a[x] && a[lo..it][y - lo] == a[y];
    }
    forall i, j | lo <= i < j <= it ensures !less(b[j], b[i]) {
      if j == hole { assert i == hole - 1 || !less(a[hole - 1], a[i]); }
    }
  }

  method InsertionSort<T(!new)>(a: array<T>, lo: nat, hi: nat, less: (T, T) -> bool)
    requires StrictTotalOrder(less)
    requires lo <= hi <= a.Length
    modifies a
    ensures Sorted(a[lo..hi], less)
    ensures Rearranged(old(a[..]), a[..], lo, hi)
  {
    hide Rearranged, StrictTotalOrder, Sorted;
    RearrangedReflexive(a[..], lo, hi);
    ShortSorted(a[..], lo, less);
    if lo == hi { return; }
    for it := lo + 1 to hi
      invariant Sorted(a[lo..it], less)
      invariant Rearranged(old(a[..]), a[..], lo, hi)
    {
      ghost var before := a[..];
      Insert(a, lo, it, less);
      RearrangedWiden(before, a[..], lo, it + 1, lo, hi);
      RearrangedTransitive(old(a[..]), before, a[..], lo, hi);
    }
  }

  // ------------------------------------------------------------------ median3, partition3

  /** The position of the median of three elements; nothing is moved. */
  method Median3<T(!new)>(a: array<T>, f: nat, m: nat, l: nat, less: (T, T) -> bool) returns (median: nat)
    requires StrictTotalOrder(less)
    requires f < a.Length && m < a.Length && l < a.Length
    ensures median in {f, m, l}
    ensures (!less(a[median], a[f]) || !less(a[median], a[m])) && (!less(a[median], a[m]) || !less(a[median], a[l]))
    ensures (!less(a[f], a[median]) || !less(a[m], a[median])) && (!less(a[m], a[median]) || !less(a[l], a[median]))
  {
    var first, middle, last := f, m, l;
    if less(a[middle], a[first]) { middle, first := first, middle; }
    if less(a[last], a[middle]) { last, middle := middle, last; }
    if less(a[middle], a[first]) { middle, first := first, middle; }
    return middle;
  }

  ghost predicate Split<T>(s: seq<T>, lo: nat, eqbeg: nat, eqend: nat, hi: nat, pivot: T, less: (T, T) -> bool) {
    && lo <= eqbeg <= eqend <= hi <= |s|
    && (forall k | lo <= k < eqbeg :: less(s[k], pivot))
    && (forall k | eqbeg <= k < eqend :: s[k] == pivot)
    && (forall k | eqend <= k < hi :: less(pivot, s[k]))
  }

  /** The first loop of `partition3`: equal, less, unknown, greater; until nothing is unknown. */
  method PartitionGroups<T(==,!new)>(a: array<T>, lo: nat, hi: nat, pivot: T, less: (T, T) -> bool)
    returns (eq: nat, gt: nat)
    requires StrictTotalOrder(less)
    requires lo <= hi <= a.Length
    modifies a
    ensures lo <= eq <= gt <= hi
    ensures forall k | lo <= k < eq :: a[k] == pivot
    ensures forall k | eq <= k < gt :: less(a[k], pivot)
    ensures forall k | gt <= k < hi :: less(pivot, a[k])
    ensures Rearranged(old(a[..]), a[..], lo, hi)
  {
    hide Rearranged, StrictTotalOrder;
    RearrangedReflexive(a[..], lo, hi);
    eq := lo;
    var lt := lo;
    gt := hi;
    while lt < gt
      invariant lo <= eq <= lt <= gt <= hi
      invariant forall k | lo <= k < eq :: a[k] == pivot
      invariant forall k | eq <= k < lt :: less(a[k], pivot)
      invariant forall k | gt <= k < hi :: less(pivot, a[k])
      invariant Rearranged(old(a[..]), a[..], lo, hi)
    {
      ghost var before := a[..];
      Trichotomy(less, a[lt], pivot);
      if less(a[lt], pivot) {
        lt := lt + 1;
      } else if a[lt] == pivot {
        Swap(a, eq, lt, lo, hi);
        eq, lt := eq + 1, lt + 1;
      } else {
        gt := gt - 1;
        Swap(a, lt, gt, lo, hi);
      }
      RearrangedTransitive(old(a[..]), before, a[..], lo, hi);
    }
  }

  /** `partition3`: the range ends up as less, equal, greater than the pivot. */
  method Partition3<T(==,!new)>(a: array<T>, lo: nat, hi: nat, pivot: T, less: (T, T) -> bool)
    returns (eqbeg: nat, eqend: nat)
    requires StrictTotalOrder(less)
    requires lo <= hi <= a.Length
    modifies a
    ensures Split(a[..], lo, eqbeg, eqend, hi, pivot, less)
    ensures Rearranged(old(a[..]), a[..], lo, hi)
  {
    hide Rearranged, StrictTotalOrder;
    var eq, gt := PartitionGroups(a, lo, hi, pivot, less);
    eqbeg := gt;
    ghost var mid := lo + (gt - eq);
    for it := lo to eq
      invariant eqbeg == gt - (it - lo)
      invariant forall k | lo <= k < it && k < mid :: less(a[k], pivot)
      invariant forall k | it <= k < eq :: a[k] == pivot
      invariant forall k | eq <= k < eqbeg :: less(a[k], pivot)
      invariant forall k | eqbeg <= k < gt :: a[k] == pivot
      invariant forall k | mid <= k < it :: a[k] == pivot
      invariant forall k | gt <= k < hi :: less(pivot, a[k])
      invariant Rearranged(old(a[..]), a[..], lo, hi)
    {
      ghost var before := a[..];
      eqbeg := eqbeg - 1;
      Swap(a, it, eqbeg, lo, hi);
      RearrangedTransitive(old(a[..]), before, a[..], lo, hi);
    }
    eqend := gt;
  }

  // ------------------------------------------------------------------ sort

  /** `sort`: loops on the larger side of each partition and recurses on the smaller one, so the
    number of nested calls, `levels`, is at most the binary logarithm of the length. */
  method Sort<T(==,!new)>(a: array<T>, begin: nat, end: nat, less: (T, T) -> bool) returns (ghost levels: nat)
    requires StrictTotalOrder(less)
    requires begin <= end <= a.Length
    modifies a
    ensures Sorted(a[begin..end], less)
    ensures Rearranged(old(a[..]), a[..], begin, end)
    ensures levels <= Log2(end - begin)
    decreases end - begin
  {
    hide *;
    RearrangedReflexive(a[..], begin, end);
    BracketEmpty(a[..], begin, end, less);
    levels := 0;
    var lo, hi := begin, end;
    while hi - lo > 16
      invariant begin <= lo <= hi <= end
      invariant Rearranged(old(a[..]), a[..], begin, end)
      invariant Bracketed(a[..], begin, lo, hi, end, less)
      invariant levels <= Log2(end - begin)
      decreases hi - lo
    {
      ghost var start := a[..];
      var median := Median3(a, lo, lo + (hi - lo) / 2, hi - 1, less);
      var pivot := a[median];
      var eqbeg, eqend := Partition3(a, lo, hi, pivot, less);
      ghost var parted := a[..];
      PivotStays(start, parted, lo, eqbeg, eqend, hi, median, less);
      ghost var nested;
      Log2Monotone(hi - lo, end - begin);
      if eqbeg - lo > hi - eqend {
        nested := Sort(a, eqend, hi, less);
        Log2OfHalf(hi - eqend, hi - lo);
        SortedRight(old(a[..]), start, parted, a[..], begin, lo, eqbeg, eqend, hi, end, pivot, less);
        hi := eqbeg;
      } else {
        nested := Sort(a, lo, eqbeg, less);
        Log2OfHalf(eqbeg - lo, hi - lo);
        SortedLeft(old(a[..]), start, parted, a[..], begin, lo, eqbeg, eqend, hi, end, pivot, less);
        lo := eqend;
      }
      levels := if levels > nested then levels else nested + 1;
    }
    ghost var before := a[..];
    InsertionSort(a, lo, hi, less);
    SortedMiddle(old(a[..]), before, a[..], begin, lo, hi, end, less);
  }

  /** The ranges before `lo` and from `hi` on are finished: sorted, and on their side of everything
    else. */
  ghost predicate Bracketed<T>(s: seq<T>, begin: nat, lo: nat, hi: nat, end: nat, less: (T, T) -> bool) {
    && begin <= lo <= hi <= end <= |s|
    && (forall i, j | begin <= i < j < end && (i < lo || hi <= j) :: !less(s[j], s[i]))
  }

  lemma PivotStays<T(!new)>(a: seq<T>, b: seq<T>, lo: nat, eqbeg: nat, eqend: nat, hi: nat, m: nat,
      less: (T, T) -> bool)
    requires StrictTotalOrder(less)
    requires lo <= m < hi <= |a| && Rearranged(a, b, lo, hi) && Split(b, lo, eqbeg, eqend, hi, a[m], less)
    ensures lo <= eqbeg < eqend <= hi
  {
    assert a[lo..hi][m - lo] in multiset(a[lo..hi]);
    assert a[m] in multiset(b[lo..hi]);
    var k :| 0 <= k < hi - lo && b[lo..hi][k] == a[m];
    assert b[lo + k] == a[m];
  }

  lemma BracketRearranged<T>(a: seq<T>, b: seq<T>, begin: nat, lo: nat, hi: nat, end: nat, less: (T, T) -> bool)
    requires Bracketed(a, begin, lo, hi, end, less) && Rearranged(a, b, lo, hi)
    ensures Bracketed(b, begin, lo, hi, end, less)
  {
    forall i, j | begin <= i < j < end && (i < lo || hi <= j) ensures !less(b[j], b[i]) {
      var i' := SourceOf(a, b, lo, hi, i);
      var j' := SourceOf(a, b, lo, hi, j);
    }
  }

  lemma SourceOf<T>(a: seq<T>, b: seq<T>, lo: nat, hi: nat, k: nat) returns (k': nat)
    requires Rearranged(a, b, lo, hi) && k < |a|
    ensures k' < |a| && a[k'] == b[k]
    ensures if lo <= k < hi then lo <= k' < hi else k' == k
  {
    if lo <= k < hi {
      assert b[lo..hi][k - lo] in multiset(b[lo..hi]);
      assert b[k] in multiset(a[lo..hi]);
      var x :| 0 <= x < hi - lo && a[lo..hi][x] == b[k];
      k' := lo + x;
    } else {
      k' := k;
      if k < lo { assert b[k] == b[..lo][k] == a[..lo][k]; } else { assert b[k] == b[hi..][k - hi] == a[hi..][k - hi]; }
    }
  }

  /** One round of the loop that recursed on the right side. */
  lemma SortedRight<T(!new)>(orig: seq<T>, start: seq<T>, a: seq<T>, b: seq<T>,
                             begin: nat, lo: nat, eqbeg: nat, eqend: nat, hi: nat, end: nat, pivot: T,
                               less: (T, T) -> bool)
    requires StrictTotalOrder(less)
    requires Rearranged(orig, start, begin, end) && Bracketed(start, begin, lo, hi, end, less)
    requires Rearranged(start, a, lo, hi) && Split(a, lo, eqbeg, eqend, hi, pivot, less)
    requires Rearranged(a, b, eqend, hi) && Sorted(b[eqend..hi], less)
    ensures Rearranged(orig, b, begin, end) && Bracketed(b, begin, lo, eqbeg, end, less)
  {
    hide *;
    BracketBounds(start, begin, lo, hi, end, less);
    RearrangedBounds(start, a, lo, hi);
    SplitBounds(a, lo, eqbeg, eqend, hi, pivot, less);
    BracketRearranged(start, a, begin, lo, hi, end, less);
    RearrangedWiden(start, a, lo, hi, begin, end);
    RearrangedWiden(a, b, eqend, hi, begin, end);
    RearrangedBounds(a, b, eqend, hi);
    SplitBounds(a, lo, eqbeg, eqend, hi, pivot, less);
    RearrangedTransitive(orig, start, a, begin, end);
    RearrangedTransitive(orig, a, b, begin, end);
    forall i, j | begin <= i < j < end && (i < lo || eqbeg <= j) ensures !less(b[j], b[i]) {
      RightInOrder(a, b, begin, lo, eqbeg, eqend, hi, end, pivot, less, i, j);
    }
    InBrackets(b, begin, lo, eqbeg, end, less);
  }

  lemma BracketBounds<T>(s: seq<T>, begin: nat, lo: nat, hi: nat, end: nat, less: (T, T) -> bool)
    requires Bracketed(s, begin, lo, hi, end, less)
    ensures begin <= lo <= hi <= end <= |s|
  {
  }

  lemma RearrangedBounds<T>(a: seq<T>, b: seq<T>, lo: nat, hi: nat)
    requires Rearranged(a, b, lo, hi)
    ensures lo <= hi <= |a| == |b|
  {
  }

  lemma SplitBounds<T>(a: seq<T>, lo: nat, eqbeg: nat, eqend: nat, hi: nat, pivot: T, less: (T, T) -> bool)
    requires Split(a, lo, eqbeg, eqend, hi, pivot, less)
    ensures lo <= eqbeg <= eqend <= hi <= |a|
  {
  }

  lemma InBrackets<T>(s: seq<T>, begin: nat, lo: nat, hi: nat, end: nat, less: (T, T) -> bool)
    requires begin <= lo <= hi <= end <= |s|
    requires forall i, j | begin <= i < j < end && (i < lo || hi <= j) :: !less(s[j], s[i])
    ensures Bracketed(s, begin, lo, hi, end, less)
  {
  }

  /** Two elements, at least one of them outside what is left to sort once the right side is sorted. */
  lemma RightInOrder<T(!new)>(a: seq<T>, b: seq<T>, begin: nat, lo: nat, eqbeg: nat, eqend: nat, hi: nat, end: nat,
      pivot: T,
                              less: (T, T) -> bool, i: nat, j: nat)
    requires StrictTotalOrder(less) && Bracketed(a, begin, lo, hi, end, less)
             && Split(a, lo, eqbeg, eqend, hi, pivot, less)
    requires Rearranged(a, b, eqend, hi) && Sorted(b[eqend..hi], less)
    requires |a| == |b| && begin <= i < j < end && (i < lo || eqbeg <= j)
    ensures !less(b[j], b[i])
  {
    hide StrictTotalOrder, Rearranged, Split;
    var i' := SourceOf(a, b, eqend, hi, i);
    var j' := SourceOf(a, b, eqend, hi, j);
    SplitBounds(a, lo, eqbeg, eqend, hi, pivot, less);
    if eqend <= i && j < hi {
      assert b[eqend..hi][i - eqend] == b[i] && b[eqend..hi][j - eqend] == b[j];
    } else if lo <= i && j < hi {
      InSplit(a, lo, eqbeg, eqend, hi, pivot, less, i', j');
    }
  }

  lemma LeftInOrder<T(!new)>(a: seq<T>, b: seq<T>, begin: nat, lo: nat, eqbeg: nat, eqend: nat, hi: nat, end: nat,
      pivot: T,
                             less: (T, T) -> bool, i: nat, j: nat)
    requires StrictTotalOrder(less) && Bracketed(a, begin, lo, hi, end, less)
             && Split(a, lo, eqbeg, eqend, hi, pivot, less)
    requires Rearranged(a, b, lo, eqbeg) && Sorted(b[lo..eqbeg], less)
    requires |a| == |b| && begin <= i < j < end && (i < eqend || hi <= j)
    ensures !less(b[j], b[i])
  {
    hide StrictTotalOrder, Rearranged, Split;
    var i' := SourceOf(a, b, lo, eqbeg, i);
    var j' := SourceOf(a, b, lo, eqbeg, j);
    SplitBounds(a, lo, eqbeg, eqend, hi, pivot, less);
    if lo <= i && j < eqbeg {
      assert b[lo..eqbeg][i - lo] == b[i] && b[lo..eqbeg][j - lo] == b[j];
    } else if lo <= i && j < hi {
      InSplit(a, lo, eqbeg, eqend, hi, pivot, less, i', j');
    }
  }

  /** Elements of different parts of a split are in order. */
  lemma InSplit<T(!new)>(a: seq<T>, lo: nat, eqbeg: nat, eqend: nat, hi: nat, pivot: T, less: (T, T) -> bool, i: nat,
      j: nat)
    requires StrictTotalOrder(less) && Split(a, lo, eqbeg, eqend, hi, pivot, less)
    requires lo <= i < hi && lo <= j < hi
    requires (i < eqend && eqbeg <= j) || (i < eqbeg && eqbeg <= j) || (i < eqend && eqend <= j)
    ensures !less(a[j], a[i])
  {
  }

  /** One round of the loop that recursed on the left side. */
  lemma SortedLeft<T(!new)>(orig: seq<T>, start: seq<T>, a: seq<T>, b: seq<T>,
                            begin: nat, lo: nat, eqbeg: nat, eqend: nat, hi: nat, end: nat, pivot: T,
                              less: (T, T) -> bool)
    requires StrictTotalOrder(less)
    requires Rearranged(orig, start, begin, end) && Bracketed(start, begin, lo, hi, end, less)
    requires Rearranged(start, a, lo, hi) && Split(a, lo, eqbeg, eqend, hi, pivot, less)
    requires Rearranged(a, b, lo, eqbeg) && Sorted(b[lo..eqbeg], less)
    ensures Rearranged(orig, b, begin, end) && Bracketed(b, begin, eqend, hi, end, less)
  {
    hide *;
    BracketBounds(start, begin, lo, hi, end, less);
    RearrangedBounds(start, a, lo, hi);
    SplitBounds(a, lo, eqbeg, eqend, hi, pivot, less);
    BracketRearranged(start, a, begin, lo, hi, end, less);
    RearrangedWiden(start, a, lo, hi, begin, end);
    RearrangedWiden(a, b, lo, eqbeg, begin, end);
    RearrangedBounds(a, b, lo, eqbeg);
    SplitBounds(a, lo, eqbeg, eqend, hi, pivot, less);
    RearrangedTransitive(orig, start, a, begin, end);
    RearrangedTransitive(orig, a, b, begin, end);
    forall i, j | begin <= i < j < end && (i < eqend || hi <= j) ensures !less(b[j], b[i]) {
      LeftInOrder(a, b, begin, lo, eqbeg, eqend, hi, end, pivot, less, i, j);
    }
    InBrackets(b, begin, eqend, hi, end, less);
  }

  /** The insertion sort of the last range finishes the whole. */
  lemma SortedMiddle<T>(orig: seq<T>, a: seq<T>, b: seq<T>, begin: nat, lo: nat, hi: nat, end: nat,
      less: (T, T) -> bool)
    requires Rearranged(orig, a, begin, end) && Bracketed(a, begin, lo, hi, end, less)
    requires Rearranged(a, b, lo, hi) && Sorted(b[lo..hi], less)
    ensures Rearranged(orig, b, begin, end) && Sorted(b[begin..end], less)
  {
    BracketRearranged(a, b, begin, lo, hi, end, less);
    RearrangedWiden(a, b, lo, hi, begin, end);
    BracketedAndSorted(b, begin, lo, hi, end, less);
  }

  lemma BracketedAndSorted<T>(s: seq<T>, begin: nat, lo: nat, hi: nat, end: nat, less: (T, T) -> bool)
    requires Bracketed(s, begin, lo, hi, end, less) && Sorted(s[lo..hi], less)
    ensures Sorted(s[begin..end], less)
  {
    forall i, j | begin <= i < j < end ensures !less(s[j], s[i]) {
      if lo <= i && j < hi { assert s[lo..hi][i - lo] == s[i] && s[lo..hi][j - lo] == s[j]; }
    }
  }
}
