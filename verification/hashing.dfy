/** The open-addressing hash table behind duplicate removal: a power-of-two table probed with growing
  steps 1, 2, 3, ... */
module Hashing {

  import opened Arithmetic

  ghost predicate IsPowerOfTwo(n: nat) {
    exists m: nat :: n == Pow2(m)
  }

  function Triangle(k: nat): nat {
    if k == 0 then 0 else Triangle(k - 1) + k
  }

  /** The bucket tried at step `k` by a search that starts at `start`. */
  function Probe(start: nat, k: nat, size: nat): (bucket: nat)
    requires size > 0
    ensures bucket < size
  {
    (start + Triangle(k)) % size
  }

  // ------------------------------------------------------------------ the probe sequence is a permutation

  lemma {:induction false} TriangleClosedForm(k: nat)
    ensures 2 * Triangle(k) == k * (k + 1)
  {
    if k > 0 { TriangleClosedForm(k - 1); }
  }

  lemma DifferenceOfTriangles(j: nat, k: nat)
    requires j < k
    ensures 2 * (Triangle(k) - Triangle(j)) == (k - j) * (k + j + 1)
  {
    TriangleClosedForm(j);
    TriangleClosedForm(k);
  }

  /** Two probes among the first `size` never meet: twice the difference of their offsets is a product
    of an odd and an even number both smaller than `2 * size`. */
  lemma ProbesDiffer(start: nat, m: nat, j: nat, k: nat)
    requires j < k < Pow2(m)
    ensures Probe(start, j, Pow2(m)) != Probe(start, k, Pow2(m))
  {
    hide Triangle;
    var x, y := start + Triangle(j), start + Triangle(k);
    if x % Pow2(m) == y % Pow2(m) {
      SameRemainder(x, y, Pow2(m));
      DifferenceOfTriangles(j, k);
      NoCommonMultiple(j, k, m, y / Pow2(m) - x / Pow2(m));
    }
  }

  lemma NoCommonMultiple(j: nat, k: nat, m: nat, q: int)
    requires j < k < Pow2(m)
    ensures (k - j) * (k + j + 1) != 2 * (q * Pow2(m))
  {
    var low, high := k - j, k + j + 1;
    assert 2 * (q * Pow2(m)) == q * Pow2(m + 1) by { assert q * (2 * Pow2(m)) == 2 * (q * Pow2(m)); }
    if low % 2 == 1 {
      OddTimesSmall(low, high, m + 1, q);
    } else {
      OddTimesSmall(high, low, m + 1, q);
      assert high * low == low * high;
    }
  }

  ghost function Probed(start: nat, k: nat, size: nat): set<nat>
    requires size > 0
  {
    if k == 0 then {} else Probed(start, k - 1, size) + {Probe(start, k - 1, size)}
  }

  lemma {:induction false} StepOfProbed(start: nat, k: nat, size: nat, bucket: nat) returns (i: nat)
    requires size > 0 && bucket in Probed(start, k, size)
    ensures i < k && Probe(start, i, size) == bucket
  {
    if Probe(start, k - 1, size) == bucket { i := k - 1; } else { i := StepOfProbed(start, k - 1, size, bucket); }
  }

  ghost function Below(n: nat): (r: set<nat>)
    ensures forall i: nat :: i in r <==> i < n
  {
    if n == 0 then {} else Below(n - 1) + {n - 1}
  }

  lemma {:induction false} SizeOfBelow(n: nat)
    ensures |Below(n)| == n
  {
    if n > 0 {
      SizeOfBelow(n - 1);
    }
  }

  lemma {:induction false} SizeOfProbed(start: nat, m: nat, k: nat)
    requires k <= Pow2(m)
    ensures |Probed(start, k, Pow2(m))| == k
    ensures Probed(start, k, Pow2(m)) <= Below(Pow2(m))
  {
    hide Probe;
    if k > 0 {
      SizeOfProbed(start, m, k - 1);
      var bucket := Probe(start, k - 1, Pow2(m));
      if bucket in Probed(start, k - 1, Pow2(m)) {
        var i := StepOfProbed(start, k - 1, Pow2(m), bucket);
        ProbesDiffer(start, m, i, k - 1);
      }
    }
  }

  lemma SubsetOfEqualSize<T>(s: set<T>, t: set<T>)
    requires s <= t && |s| == |t|
    ensures s == t
  {
    assert |t - s| == |t| - |s|;
  }

  /** Every bucket of a power-of-two table is tried exactly once in the first `size` steps. */
  lemma EveryBucketProbedOnce(start: nat, m: nat, bucket: nat) returns (k: nat)
    requires bucket < Pow2(m)
    ensures k < Pow2(m) && Probe(start, k, Pow2(m)) == bucket
    ensures forall i | 0 <= i < Pow2(m) && Probe(start, i, Pow2(m)) == bucket :: i == k
  {
    hide Probe;
    var size := Pow2(m);
    SizeOfProbed(start, m, size);
    SizeOfBelow(size);
    SubsetOfEqualSize(Probed(start, size, size), Below(size));
    k := StepOfProbed(start, size, size, bucket);
    forall i | 0 <= i < size && i != k ensures Probe(start, i, size) != bucket {
      if i < k { ProbesDiffer(start, m, i, k); } else { ProbesDiffer(start, m, k, i); }
    }
  }

  // ------------------------------------------------------------------ hash_insert

  /** The 32-bit finalizer of MurmurHash3, applied to the low 32 bits of an address. */
  function Hash(key: nat): nat {
    var h0 := (key % 0x1_0000_0000) as bv32;
    var h1 := (h0 ^ (h0 >> 16)) * 0x85ebca6b;
    var h2 := (h1 ^ (h1 >> 13)) * 0xc2b2ae35;
    (h2 ^ (h2 >> 16)) as nat
  }

  /** A search for `key` meets it before any empty bucket. */
  ghost predicate Findable(t: seq<nat>, key: nat, k: nat)
    requires |t| > 0
  {
    && k < |t|
    && ProbedAt(t, key, k) == key
    && forall i | 0 <= i < k :: ProbedAt(t, key, i) != 0
  }

  ghost predicate ValidTable(t: seq<nat>) {
    && |t| > 0
    && forall key | key in t && key != 0 :: exists k :: Findable(t, key, k)
  }

  lemma StepOfProbe(start: nat, k: nat, size: nat)
    requires size > 0
    ensures Probe(start, k + 1, size) == (Probe(start, k, size) + k + 1) % size
  {
    var x := start + Triangle(k);
    assert x == (x / size) * size + x % size;
    AddMultiple(x % size + k + 1, x / size, size);
  }

  /** `hash_insert`: true and stored if the key was new, false if it was there. The "table is full"
    exit of the loop cannot be reached while some bucket is empty. */
  method HashInsert(table: array<nat>, key: nat) returns (inserted: bool)
    requires key != 0 && ValidTable(table[..]) && IsPowerOfTwo(table.Length)
    requires 0 in table[..]
    modifies table
    ensures ValidTable(table[..])
    ensures inserted <==> key !in old(table[..])
    ensures forall x | x != 0 :: x in table[..] <==> x in old(table[..]) || x == key
    ensures multiset(table[..])[0] == old(multiset(table[..])[0]) - (if inserted then 1 else 0)
  {
    hide Probe, Hash, Triangle;
    var size := table.Length;
    ghost var t := table[..];
    var bucket := StartBucket(key, size);
    for probe := 0 to size
      invariant table[..] == t
      invariant bucket == Probe(Hash(key), probe, size) < size
      invariant forall i | 0 <= i < probe :: ProbedAt(t, key, i) != 0 && ProbedAt(t, key, i) != key
    {
      if table[bucket] == 0 {
        NotInTable(t, key, probe);
        StoreKeeps(t, key, probe);
        table[bucket] := key;
        assert table[..] == t[bucket := key];
        return true;
      }
      if table[bucket] == key {
        return false;
      }
      StepOfProbe(Hash(key), probe, size);
      bucket := NextBucket(bucket, probe, size);
    }
    ghost var k := EmptyBucketProbed(t, key);
    assert false;
  }

  lemma EmptyBucketProbed(t: seq<nat>, key: nat) returns (k: nat)
    requires IsPowerOfTwo(|t|) && 0 in t
    ensures k < |t| && ProbedAt(t, key, k) == 0
  {
    var m: nat :| |t| == Pow2(m);
    var empty :| 0 <= empty < |t| && t[empty] == 0;
    k := EveryBucketProbedOnce(Hash(key), m, empty);
  }

  ghost function ProbedAt(t: seq<nat>, key: nat, i: nat): nat
    requires |t| > 0
  {
    t[Probe(Hash(key), i, |t|)]
  }

  method StartBucket(key: nat, size: nat) returns (b: nat)
    requires size > 0
    ensures b == Probe(Hash(key), 0, size) < size
  {
    b := Hash(key) % size;
  }

  method NextBucket(b: nat, probe: nat, size: nat) returns (c: nat)
    requires size > 0
    ensures c == (b + probe + 1) % size < size
  {
    c := (b + probe + 1) % size;
  }

  /** An empty bucket on the way proves the key absent. */
  lemma NotInTable(t: seq<nat>, key: nat, probe: nat)
    requires key != 0 && ValidTable(t) && probe < |t|
    requires forall i | 0 <= i < probe :: ProbedAt(t, key, i) != 0 && ProbedAt(t, key, i) != key
    requires ProbedAt(t, key, probe) == 0
    ensures key !in t
  {
    hide ProbedAt;
    assert forall k :: !Findable(t, key, k);
  }

  lemma StoreKeeps(t: seq<nat>, key: nat, probe: nat)
    requires key != 0 && ValidTable(t) && probe < |t| && key !in t
    requires forall i | 0 <= i < probe :: ProbedAt(t, key, i) != 0
    requires ProbedAt(t, key, probe) == 0
    ensures var u := t[Probe(Hash(key), probe, |t|) := key];
            && ValidTable(u)
            && (forall x | x != 0 :: x in u <==> x in t || x == key)
            && multiset(u)[0] == multiset(t)[0] - 1
  {
    hide Hash, Triangle;
    var b := Probe(Hash(key), probe, |t|);
    hide Probe;
    var u := t[b := key];
    forall x | x != 0 ensures x in u <==> x in t || x == key {
      if x in t {
        var i :| 0 <= i < |t| && t[i] == x;
        assert u[i] == x;
      }
      assert u[b] == key;
    }
    forall x | x in u && x != 0 ensures exists k :: Findable(u, x, k) {
      if x == key {
        FindableAfterStore(t, key, probe, key, probe);
      } else {
        var k :| Findable(t, x, k);
        FindableAfterStore(t, key, probe, x, k);
      }
    }
  }

  lemma FindableAfterStore(t: seq<nat>, key: nat, probe: nat, x: nat, k: nat)
    requires key != 0 && probe < |t| && k < |t|
    requires ProbedAt(t, key, probe) == 0
    requires (x == key && k == probe) || ProbedAt(t, x, k) == x != 0
    requires forall i | 0 <= i < k :: ProbedAt(t, x, i) != 0
    ensures Findable(t[Probe(Hash(key), probe, |t|) := key], x, k)
  {
    hide Hash, Probe;
    var b := Probe(Hash(key), probe, |t|);
    var u := t[b := key];
    forall i | 0 <= i < k ensures ProbedAt(u, x, i) != 0 {
      assert ProbedAt(t, x, i) != 0;
      assert ProbedAt(u, x, i) == if Probe(Hash(x), i, |t|) == b then key else ProbedAt(t, x, i);
    }
    assert ProbedAt(u, x, k) == x;
  }
}
