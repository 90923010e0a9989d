/** The big-endian wire format of the package management service: the `append*` and `extract*` helpers,
  which the proxy and the skeleton have in the same form. */
module WireCodec {
  import Arithmetic

  type Byte = x: int | 0 <= x < 0x100
  type Bytes = seq<Byte>
  type U32 = x: int | 0 <= x < 0x1_0000_0000
  type U64 = x: int | 0 <= x < 0x1_0000_0000_0000_0000

  /** Reading at an offset. `Thrown` is the `std::out_of_range` of `at`. A text or block whose length
    runs past the end of the message is read without `at`: the language gives that no meaning. */
  datatype Read<+T> = Got(value: T, next: nat) | Thrown | Unspecified

  // ------------------------------------------------------------------ numbers

  function Pow256(n: nat): (r: nat)
    ensures r > 0
  {
    if n == 0 then 1 else 0x100 * Pow256(n - 1)
  }

  function BigEndian(width: nat, n: nat): (r: Bytes)
    ensures |r| == width
  {
    if width == 0 then [] else BigEndian(width - 1, n / 0x100) + [n % 0x100]
  }

  function Number(bs: Bytes): nat {
    if bs == [] then 0 else Number(bs[..|bs| - 1]) * 0x100 + bs[|bs| - 1]
  }

  lemma ModTimes(n: nat, p: nat)
    requires p > 0
    ensures n / 0x100 % p * 0x100 + n % 0x100 == n % (0x100 * p)
  {
    var q := n / 0x100;
    var k, low := q / p, q % p * 0x100 + n % 0x100;
    assert q == k * p + q % p;
    assert n == k * (0x100 * p) + low by { assert k * p * 0x100 == k * (0x100 * p); }
    assert q % p <= p - 1;
    Arithmetic.DivModUnique(n, k, low, 0x100 * p);
  }

  /** A number comes back from the wire modulo what its width can hold. */
  lemma {:induction false} NumberOfBigEndian(width: nat, n: nat)
    ensures Number(BigEndian(width, n)) == n % Pow256(width)
  {
    if width > 0 {
      NumberOfBigEndian(width - 1, n / 0x100);
      assert BigEndian(width, n)[..width - 1] == BigEndian(width - 1, n / 0x100);
      ModTimes(n, Pow256(width - 1));
    }
  }

  lemma {:induction false} NumberBound(bs: Bytes)
    ensures Number(bs) < Pow256(|bs|)
  {
    if bs != [] { NumberBound(bs[..|bs| - 1]); }
  }

  lemma Widths()
    ensures Pow256(1) == 0x100 && Pow256(2) == 0x10000 && Pow256(4) == 0x1_0000_0000
    ensures Pow256(8) == 0x1_0000_0000_0000_0000
  {
    assert Pow256(3) == 0x100 * Pow256(2);
    assert Pow256(5) == 0x100 * Pow256(4);
    assert Pow256(6) == 0x100 * Pow256(5);
    assert Pow256(7) == 0x100 * Pow256(6);
  }

  // ------------------------------------------------------------------ texts and blocks

  /** A text (width 2) or a block of data (width 4): its length, cut to the width, and its bytes. */
  function Sized(width: nat, s: Bytes): (r: Bytes)
    ensures |r| == width + |s|
  {
    BigEndian(width, |s|) + s
  }

  function ReadNumber(v: Bytes, offset: nat, width: nat): (r: Read<nat>)
    ensures r.Got? ==> r.next == offset + width <= |v| && r.value < Pow256(width)
    ensures !r.Unspecified?
  {
    if offset + width <= |v| then
      NumberBound(v[offset..offset + width]);
      Got(Number(v[offset..offset + width]), offset + width)
    else Thrown
  }

  function ReadSized(v: Bytes, offset: nat, width: nat): (r: Read<Bytes>)
    ensures r.Got? ==> r.next == offset + width + |r.value| <= |v| && |r.value| < Pow256(width)
  {
    match ReadNumber(v, offset, width)
    case Got(length, next) => if next + length <= |v| then Got(v[next..next + length], next + length) else Unspecified
    case Thrown => Thrown
    case Unspecified => Unspecified
  }

  predicate At(v: Bytes, offset: nat, piece: Bytes) {
    offset + |piece| <= |v| && v[offset..offset + |piece|] == piece
  }

  lemma AtParts(v: Bytes, offset: nat, a: Bytes, b: Bytes)
    requires At(v, offset, a + b)
    ensures At(v, offset, a) && At(v, offset + |a|, b)
  {
    var both := v[offset..offset + |a + b|];
    assert both[..|a|] == a && both[|a|..] == b;
    assert v[offset..offset + |a|] == both[..|a|];
    assert v[offset + |a|..offset + |a| + |b|] == both[|a|..];
  }

  lemma AtWhole(v: Bytes)
    ensures At(v, 0, v)
  {
  }

  /** Wherever a number was written it is read back, up to its width. */
  lemma NumberReadBack(v: Bytes, offset: nat, width: nat, n: nat)
    requires At(v, offset, BigEndian(width, n))
    ensures ReadNumber(v, offset, width) == Got(n % Pow256(width), offset + width)
  {
    NumberOfBigEndian(width, n);
  }

  /** Wherever a text or block was written it is read back, as long as its length fits the width. */
  lemma SizedReadBack(v: Bytes, offset: nat, width: nat, s: Bytes)
    requires At(v, offset, Sized(width, s)) && |s| < Pow256(width)
    ensures ReadSized(v, offset, width) == Got(s, offset + width + |s|)
  {
    AtParts(v, offset, BigEndian(width, |s|), s);
    NumberReadBack(v, offset, width, |s|);
    SmallRemainder(|s|, Pow256(width));
  }

  lemma SmallRemainder(n: nat, m: nat)
    requires n < m
    ensures n % m == n
  {
  }

  lemma Regroup(a: Bytes, b: Bytes, c: Bytes)
    ensures a + (b + c) == (a + b) + c
  {
  }

  // ------------------------------------------------------------------ appending

  /** A message under construction. */
  class Message {
    var bytes: Bytes

    constructor ()
      ensures bytes == []
    {
      bytes := [];
    }

    method AppendU8(val: Byte)
      modifies this
      ensures bytes == old(bytes) + [val]
    {
      bytes := bytes + [val];
    }

    method AppendU16(val: int)
      requires 0 <= val < 0x10000
      modifies this
      ensures bytes == old(bytes) + BigEndian(2, val)
    {
      AppendU8(val / 0x100);
      AppendU8(val % 0x100);
      assert BigEndian(1, val / 0x100) == [val / 0x100];
    }

    method AppendU32(val: U32)
      modifies this
      ensures bytes == old(bytes) + BigEndian(4, val)
    {
      AppendU8(val / 0x100_0000);
      AppendU8(val / 0x1_0000 % 0x100);
      AppendU8(val / 0x100 % 0x100);
      AppendU8(val % 0x100);
      FourDigits(val);
    }

    method AppendU64(val: U64)
      modifies this
      ensures bytes == old(bytes) + BigEndian(8, val)
    {
      hide BigEndian, Pow256;
      NextDigit(val, 8);
      for i := 8 downto 0
        invariant bytes == old(bytes) + BigEndian(8 - i, val / Pow256(i))
      {
        NextDigit(val, i);
        Regroup(old(bytes), BigEndian(7 - i, val / Pow256(i + 1)), [val / Pow256(i) % 0x100]);
        AppendU8(val / Pow256(i) % 0x100);
      }
    }

    /** The length is cut to sixteen bits, the text is not. */
    method AppendString(s: Bytes)
      modifies this
      ensures bytes == old(bytes) + Sized(2, s)
    {
      AppendU16(|s| % 0x10000);
      SameDigits(2, |s|);
      Regroup(old(bytes), BigEndian(2, |s|), s);
      bytes := bytes + s;
    }

    method AppendBytes(s: Bytes)
      modifies this
      ensures bytes == old(bytes) + Sized(4, s)
    {
      AppendU32(|s| % 0x1_0000_0000);
      SameDigits(4, |s|);
      Regroup(old(bytes), BigEndian(4, |s|), s);
      bytes := bytes + s;
    }
  }

  lemma NextDigit(n: U64, i: nat)
    requires i <= 8
    ensures i < 8 ==> BigEndian(8 - i, n / Pow256(i)) == BigEndian(7 - i, n / Pow256(i + 1)) + [n / Pow256(i) % 0x100]
    ensures i == 8 ==> BigEndian(8 - i, n / Pow256(i)) == []
    ensures n / Pow256(0) == n
  {
    DividedAgain(n, Pow256(i));
  }

  lemma FourDigits(n: U32)
    ensures BigEndian(4, n) == [n / 0x100_0000, n / 0x1_0000 % 0x100, n / 0x100 % 0x100, n % 0x100]
  {
    assert n / 0x100 / 0x100 == n / 0x1_0000 && n / 0x1_0000 / 0x100 == n / 0x100_0000;
    assert BigEndian(1, n / 0x100_0000) == [n / 0x100_0000];
    assert BigEndian(2, n / 0x1_0000) == [n / 0x100_0000, n / 0x1_0000 % 0x100];
    assert BigEndian(3, n / 0x100) == [n / 0x100_0000, n / 0x1_0000 % 0x100, n / 0x100 % 0x100];
  }

  lemma DividedAgain(n: nat, p: nat)
    requires p > 0
    ensures n / p / 0x100 == n / (0x100 * p)
  {
    var q := n / p;
    var k := q / 0x100;
    assert n == q * p + n % p && q == k * 0x100 + q % 0x100;
    assert n == k * (0x100 * p) + (q % 0x100 * p + n % p) by {
      assert (k * 0x100 + q % 0x100) * p == k * (0x100 * p) + q % 0x100 * p;
    }
    assert q % 0x100 * p <= 0xFF * p;
    Arithmetic.DivModUnique(n, k, q % 0x100 * p + n % p, 0x100 * p);
  }

  /** Cutting a number to the width changes none of the digits written. */
  lemma SameDigits(width: nat, n: nat)
    requires width == 2 || width == 4
    ensures BigEndian(2, n % 0x10000) == BigEndian(2, n)
    ensures BigEndian(4, n % 0x1_0000_0000) == BigEndian(4, n)
  {
    CutDigits(2, n);
    CutDigits(4, n);
    Widths();
  }

  lemma {:induction false} CutDigits(width: nat, n: nat)
    ensures BigEndian(width, n % Pow256(width)) == BigEndian(width, n)
  {
    if width > 0 {
      var p := Pow256(width - 1);
      ModTimes(n, p);
      var m := n % (0x100 * p);
      assert m / 0x100 == n / 0x100 % p && m % 0x100 == n % 0x100 by { SplitLow(n / 0x100 % p, n % 0x100); }
      CutDigits(width - 1, n / 0x100);
    }
  }

  lemma SplitLow(high: nat, low: nat)
    requires low < 0x100
    ensures (high * 0x100 + low) / 0x100 == high && (high * 0x100 + low) % 0x100 == low
  {
  }

  // ------------------------------------------------------------------ extracting

  /** `extractU32` (width 4) and `extractU64` (width 8): every byte is ORed into bits that are still
    zero, which is adding it. */
  method ExtractNumber(v: Bytes, start: nat, width: nat) returns (r: Read<nat>)
    ensures r == ReadNumber(v, start, width)
  {
    var val, offset := 0, start;
    for i := width downto 0
      invariant offset == start + (width - i) && (offset <= |v| || offset == start)
      invariant offset <= |v| ==> val == Number(v[start..offset]) * Pow256(i)
    {
      if offset >= |v| {
        return Thrown;
      }
      ghost var seen := v[start..offset];
      assert v[start..offset + 1] == seen + [v[offset]] && (seen + [v[offset]])[..|seen|] == seen;
      Shifted(Number(seen), v[offset], Pow256(i));
      val := val + v[offset] * Pow256(i);
      offset := offset + 1;
    }
    if offset > |v| {
      return Thrown;
    }
    r := Got(val, offset);
  }

  lemma Shifted(a: nat, b: nat, p: nat)
    ensures a * (0x100 * p) + b * p == (a * 0x100 + b) * p
  {
  }

  method ExtractString(v: Bytes, start: nat) returns (r: Read<Bytes>)
    ensures r == ReadSized(v, start, 2)
  {
    if start + 2 > |v| {
      return Thrown;
    }
    var length := v[start] as nat * 0x100 + v[start + 1] as nat;
    assert v[start..start + 2] == [v[start], v[start + 1]];
    assert Number([v[start]]) == v[start];
    assert [v[start], v[start + 1]][..1] == [v[start]];
    var offset := start + 2;
    if offset + length > |v| {
      return Unspecified;
    }
    r := Got(v[offset..offset + length], offset + length);
  }

  method ExtractBytes(v: Bytes, start: nat) returns (r: Read<Bytes>)
    ensures r == ReadSized(v, start, 4)
  {
    var size := ExtractNumber(v, start, 4);
    match size
    case Thrown => return Thrown;
    case Unspecified => return Unspecified;
    case Got(length, offset) =>
      if offset + length > |v| {
        return Unspecified;
      }
      r := Got(v[offset..offset + length], offset + length);
  }
}
