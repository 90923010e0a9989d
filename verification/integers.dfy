/** Reading and writing machine integers: `string_to_integer` and `integer_to_string`.

  The reader computes in unsigned machine words that wrap around, and only afterwards decides from the
  number of digits, the first digit and the highest bit whether it has. It is proved to give the true
  value, clamped to the range of the type, for digit strings of any length. */
module Integers {
  import opened Characters
  import opened Escapes
  import opened Arithmetic

  /** The base of `n` digits. */
  function Pow(b: nat, n: nat): (p: nat)
    ensures b > 0 ==> p > 0
  {
    if n == 0 then 1 else b * Pow(b, n - 1)
  }

  lemma {:induction false} PowGrows(b: nat, m: nat, n: nat)
    requires b > 0 && m <= n
    ensures Pow(b, m) <= Pow(b, n)
  {
    if m < n {
      PowGrows(b, m, n - 1);
      assert Pow(b, n - 1) <= b * Pow(b, n - 1) by { assert 1 * Pow(b, n - 1) <= b * Pow(b, n - 1); }
    }
  }

  predicate IsDigitOf(hex: bool, c: char) {
    if hex then HexValue(c) < 16 else IsDigit(c)
  }

  function BaseOf(hex: bool): nat {
    if hex then 16 else 10
  }

  function DigitOf(hex: bool, c: char): (d: nat)
    requires IsDigitOf(hex, c)
    ensures d < BaseOf(hex)
  {
    if hex then HexValue(c) else DigitValue(c)
  }

  predicate Digits(hex: bool, s: string) {
    forall i | 0 <= i < |s| :: IsDigitOf(hex, s[i])
  }

  /** The number that a string of digits stands for. */
  function Magnitude(hex: bool, s: string): nat
    requires Digits(hex, s)
  {
    if s == "" then 0 else BaseOf(hex) * Magnitude(hex, s[..|s| - 1]) + DigitOf(hex, s[|s| - 1])
  }

  // ------------------------------------------------------------------ what a text means

  /** The length of the run of digits at the front of `s`. */
  function Run(hex: bool, s: string): (n: nat)
    ensures n <= |s| && Digits(hex, s[..n]) && (n < |s| ==> !IsDigitOf(hex, s[n]))
  {
    if s == "" || !IsDigitOf(hex, s[0]) then 0
    else
      assert s[..Run(hex, s[1..]) + 1] == [s[0]] + s[1..][..Run(hex, s[1..])];
      Run(hex, s[1..]) + 1
  }

  predicate IsHexPrefix(s: string) {
    |s| >= 2 && s[0] == '0' && (s[1] == 'x' || s[1] == 'X')
  }

  /** After white space, an optional sign and an optional `0x`, the number the digits stand for. */
  function Signed(s: string): int {
    var t := s[Spaces(s)..];
    var u := if t != "" && (t[0] == '-' || t[0] == '+') then t[1..] else t;
    var m := Unsigned(u);
    if t != "" && t[0] == '-' then -(m as int) else m
  }

  function Unsigned(u: string): nat {
    var hex := IsHexPrefix(u);
    var v := if hex then u[2..] else u;
    Magnitude(hex, v[..Run(hex, v)])
  }

  // ------------------------------------------------------------------ machine words

  /** The number of values of an unsigned word of so many bytes. */
  function Word(bytes: nat): nat
    requires bytes == 2 || bytes == 4 || bytes == 8
  {
    if bytes == 2 then 0x1_0000 else if bytes == 4 then 0x1_0000_0000 else 0x1_0000_0000_0000_0000
  }

  function Wrap(bytes: nat, x: int): nat
    requires bytes == 2 || bytes == 4 || bytes == 8
  {
    x % Word(bytes)
  }

  function Clamp(x: int, lo: int, hi: int): int {
    if x < lo then lo else if x > hi then hi else x
  }

  /** The lowest number of a type whose lowest value is stored as the word `minv`. */
  function Lowest(bytes: nat, minv: nat): int
    requires bytes == 2 || bytes == 4 || bytes == 8
  {
    -(Wrap(bytes, -(minv as int)) as int)
  }

  // ------------------------------------------------------------------ digits and size

  /** The first digit and the number of digits bound the number. */
  lemma {:induction false} LeadBounds(hex: bool, s: string)
    requires Digits(hex, s) && s != ""
    ensures var p, d := Pow(BaseOf(hex), |s| - 1), DigitOf(hex, s[0]);
            d * p <= Magnitude(hex, s) < (d + 1) * p
  {
    var b := BaseOf(hex);
    if |s| > 1 {
      var t := s[..|s| - 1];
      LeadBounds(hex, t);
      var p, q, d, m := Pow(b, |s| - 1), Pow(b, |s| - 2), DigitOf(hex, s[0]), Magnitude(hex, t);
      assert t[0] == s[0];
      assert p == b * q;
      LeadStep(b, p, q, d, m, DigitOf(hex, s[|s| - 1]));
    } else {
      assert s[..0] == "";
    }
  }

  lemma LeadStep(b: nat, p: nat, q: nat, d: nat, m: nat, e: nat)
    requires p == b * q && d * q <= m < (d + 1) * q && e < b
    ensures d * p <= b * m + e < (d + 1) * p
  {
    Swap(b, d, q);
    Swap(b, d + 1, q);
    TimesLess(b, d * q, m);
    TimesLess(b, m + 1, (d + 1) * q);
    assert b * (m + 1) == b * m + b;
  }

  lemma Swap(b: nat, d: nat, q: nat)
    ensures b * (d * q) == d * (b * q)
  {
    TimesAssociates(b, d, q);
    TimesAssociates(d, b, q);
  }

  lemma TimesAssociates(a: nat, b: nat, c: nat)
    ensures a * (b * c) == (a * b) * c
  {
  }

  lemma TimesLess(b: nat, x: nat, y: nat)
    requires x <= y
    ensures b * x <= b * y
  {
    assert b * y == b * x + b * (y - x);
  }

  lemma {:induction false} LeadingZeros(hex: bool, z: nat, s: string)
    requires Digits(hex, s) && z <= |s| && forall i | 0 <= i < z :: s[i] == '0'
    ensures Magnitude(hex, s) == Magnitude(hex, s[z..])
  {
    if z == |s| {
      if s != "" { LeadingZeros(hex, z - 1, s[..|s| - 1]); assert s[..|s| - 1][z - 1..] == ""; }
    } else {
      LeadingZeros(hex, z, s[..|s| - 1]);
      assert s[z..][..|s| - z - 1] == s[..|s| - 1][z..];
    }
  }

  // ------------------------------------------------------------------ overflow

  /** The most digits a number may have, and what its first digit may be if it has that many. */
  function MaxDigits(hex: bool, bytes: nat): nat
    requires bytes == 2 || bytes == 4 || bytes == 8
  {
    if hex then 2 * bytes else if bytes == 2 then 5 else if bytes == 4 then 10 else 20
  }

  function MaxLead(bytes: nat): char {
    if bytes == 8 then '1' else if bytes == 4 then '4' else '6'
  }

  lemma FourTimes(b: nat)
    ensures Pow(b, 1) == b && Pow(b, 2) == b * b && Pow(b, 3) == b * (b * b) && Pow(b, 4) == b * (b * (b * b))
  {
    assert Pow(b, 0) == 1;
    assert Pow(b, 1) == b * 1;
    assert Pow(b, 2) == b * Pow(b, 1);
    assert Pow(b, 3) == b * Pow(b, 2);
  }

  lemma Tens(b: nat)
    ensures Pow(b, 4) == b * (b * (b * b))
    ensures Pow(b, 8) == Pow(b, 4) * Pow(b, 4)
    ensures Pow(b, 9) == b * Pow(b, 8)
    ensures Pow(b, 16) == Pow(b, 8) * Pow(b, 8)
    ensures Pow(b, 19) == (b * (b * b)) * Pow(b, 16)
  {
    hide Pow;
    FourTimes(b);
    PowOne(b, 8);
    PowSum(b, 4, 4);
    PowSum(b, 8, 8);
    PowSum(b, 3, 16);
  }

  lemma {:induction false} PowSum(b: nat, m: nat, n: nat)
    ensures Pow(b, m + n) == Pow(b, m) * Pow(b, n)
  {
    if m > 0 {
      PowSum(b, m - 1, n);
      TimesAssociates(b, Pow(b, m - 1), Pow(b, n));
    } else {
      assert Pow(b, 0) * Pow(b, n) == Pow(b, n);
    }
  }

  lemma TenPowers()
    ensures Pow(10, 4) == 10000 && Pow(10, 9) == 1000000000 && Pow(10, 19) == 10000000000000000000
    ensures Pow(16, 4) == Word(2) && Pow(16, 8) == Word(4) && Pow(16, 16) == Word(8)
  {
    Tens(10);
    Tens(16);
  }

  /** Without leading zeros, the number of digits bounds the number from both sides. */
  lemma DigitCount(hex: bool, v: string)
    requires Digits(hex, v) && (v != "" ==> v[0] != '0')
    ensures v != "" ==> Pow(BaseOf(hex), |v| - 1) <= Magnitude(hex, v)
    ensures Magnitude(hex, v) < Pow(BaseOf(hex), |v|)
  {
    if v != "" {
      LeadDigit(hex, v[0]);
      hide Magnitude, Pow, HexValue, DigitOf;
      LeadBounds(hex, v);
      PowOne(BaseOf(hex), |v| - 1);
      Between(BaseOf(hex), DigitOf(hex, v[0]), Pow(BaseOf(hex), |v| - 1));
    }
  }

  lemma LeadDigit(hex: bool, c: char)
    requires IsDigitOf(hex, c) && c != '0'
    ensures 1 <= DigitOf(hex, c) && DigitOf(hex, c) + 1 <= BaseOf(hex)
  {
  }

  lemma Between(b: nat, d: nat, p: nat)
    requires 1 <= d && d + 1 <= b
    ensures p <= d * p && (d + 1) * p <= b * p
  {
    TimesLess(p, 1, d);
    TimesLess(p, d + 1, b);
    assert p * d == d * p && p * (d + 1) == (d + 1) * p && p * b == b * p;
  }

  /** The test on the number of digits is exact for hexadecimal numbers. */
  lemma HexOverflow(bytes: nat, v: string)
    requires bytes == 2 || bytes == 4 || bytes == 8
    requires Digits(true, v) && (v != "" ==> v[0] != '0')
    ensures |v| > 2 * bytes <==> Magnitude(true, v) >= Word(bytes)
  {
    hide Magnitude, Pow;
    DigitCount(true, v);
    TenPowers();
    if |v| > 2 * bytes { PowGrows(16, 2 * bytes, |v| - 1); } else { PowGrows(16, |v|, 2 * bytes); }
  }

  /** What the reader concludes from the number of digits, the first one, and the wrapped result. */
  predicate DecimalOverflow(bytes: nat, v: string, result: nat)
    requires bytes == 2 || bytes == 4 || bytes == 8
  {
    var k := MaxDigits(false, bytes);
    |v| >= k && !(|v| == k && (v[0] < MaxLead(bytes) || (v[0] == MaxLead(bytes) && result >= Word(bytes) / 2)))
  }

  /** It concludes it exactly when the number does not fit a word. */
  lemma DecimalOverflowExact(bytes: nat, v: string)
    requires bytes == 2 || bytes == 4 || bytes == 8
    requires Digits(false, v) && (v != "" ==> v[0] != '0')
    ensures DecimalOverflow(bytes, v, Wrap(bytes, Magnitude(false, v))) <==> Magnitude(false, v) >= Word(bytes)
  {
    hide Magnitude, Pow;
    DigitCount(false, v);
    TenPowers();
    var k, m, w := MaxDigits(false, bytes), Magnitude(false, v), Word(bytes);
    if |v| > k {
      PowGrows(10, k - 1, |v| - 1);
      PowOne(10, k - 1);
      PowGrows(10, k, |v| - 1);
    } else if |v| < k {
      PowGrows(10, |v|, k - 1);
    } else {
      LeadBounds(false, v);
      OnBoundary(bytes, DigitOf(false, v[0]), m);
    }
  }

  lemma PowOne(b: nat, n: nat)
    ensures Pow(b, n + 1) == b * Pow(b, n)
  {
  }

  /** With the largest number of digits, the first digit decides, or else the highest bit. */
  lemma OnBoundary(bytes: nat, d: nat, m: nat)
    requires bytes == 2 || bytes == 4 || bytes == 8
    requires var p := Pow(10, MaxDigits(false, bytes) - 1); 1 <= d <= 9 && d * p <= m < (d + 1) * p
    ensures var lead, w := DigitValue(MaxLead(bytes)), Word(bytes);
            && (d < lead ==> m < w) && (d > lead ==> m >= w)
            && (d == lead ==> (m >= w <==> Wrap(bytes, m) < w / 2))
  {
    hide Pow;
    TenPowers();
    var w := Word(bytes);
    if m < w { assert Wrap(bytes, m) == m; } else if m < 2 * w { assert Wrap(bytes, m) == m - w; }
  }

  // ------------------------------------------------------------------ string_to_integer

  lemma MagnitudeMore(hex: bool, s: string, from: nat, to: nat)
    requires from <= to < |s| && Digits(hex, s[from..to]) && IsDigitOf(hex, s[to])
    ensures Digits(hex, s[from..to + 1])
    ensures Magnitude(hex, s[from..to + 1]) == BaseOf(hex) * Magnitude(hex, s[from..to]) + DigitOf(hex, s[to])
  {
    assert s[from..to + 1] == s[from..to] + [s[to]];
    assert s[from..to + 1][..to - from] == s[from..to];
  }

  lemma RemainderStep(w: nat, b: nat, m: nat, d: nat)
    requires w > 0
    ensures (b * (m % w) + d) % w == (b * m + d) % w
  {
    var q, r := m / w, m % w;
    assert m == q * w + r;
    assert b * m == b * (q * w) + b * r;
    TimesAssociates(b, q, w);
    AddMultiple(b * r + d, b * q, w);
  }

  lemma WrapStep(bytes: nat, b: nat, m: nat, d: nat)
    requires bytes == 2 || bytes == 4 || bytes == 8
    ensures Wrap(bytes, b * Wrap(bytes, m) + d) == Wrap(bytes, b * m + d)
  {
    hide Word;
    WordPositive(bytes);
    RemainderStep(Word(bytes), b, m, d);
  }

  lemma WordPositive(bytes: nat)
    requires bytes == 2 || bytes == 4 || bytes == 8
    ensures Word(bytes) > 0
  {
  }

  /** The digits from position `from` on: the wrapped number and where it ends. */
  method ReadDigits(s: string, from: nat, hex: bool, bytes: nat) returns (result: nat, end: nat)
    requires from <= |s| && (bytes == 2 || bytes == 4 || bytes == 8)
    ensures end == from + Run(hex, s[from..]) && Digits(hex, s[from..end])
    ensures result == Wrap(bytes, Magnitude(hex, s[from..end]))
  {
    hide Magnitude, HexValue, Wrap;
    result, end := 0, from;
    NothingRead(hex, bytes, s[from..from]);
    while end < |s| && IsDigitOf(hex, s[end])
      invariant from <= end <= |s| && Digits(hex, s[from..end])
      invariant result == Wrap(bytes, Magnitude(hex, s[from..end]))
      decreases |s| - end
    {
      MagnitudeMore(hex, s, from, end);
      WrapStep(bytes, BaseOf(hex), Magnitude(hex, s[from..end]), DigitOf(hex, s[end]));
      result := Wrap(bytes, BaseOf(hex) * result + DigitOf(hex, s[end]));
      end := end + 1;
    }
    assert s[from..][..end - from] == s[from..end];
    RunIs(hex, s[from..], end - from);
  }

  lemma NothingRead(hex: bool, bytes: nat, s: string)
    requires s == "" && (bytes == 2 || bytes == 4 || bytes == 8)
    ensures Wrap(bytes, Magnitude(hex, s)) == 0
  {
  }

  lemma {:induction false} RunIs(hex: bool, s: string, n: nat)
    requires n <= |s| && Digits(hex, s[..n]) && (n < |s| ==> !IsDigitOf(hex, s[n]))
    ensures Run(hex, s) == n
  {
    hide HexValue;
    if n > 0 {
      assert s[0] == s[..n][0];
      assert s[1..][..n - 1] == s[..n][1..];
      RunIs(hex, s[1..], n - 1);
    }
  }

  /** The digits of an unsigned number: leading zeros are skipped, then digits are read into a word; the
    result is the number cut to a word, together with whether that lost anything. */
  method ReadUnsigned(u: string, bytes: nat) returns (result: nat, overflow: bool)
    requires bytes == 2 || bytes == 4 || bytes == 8
    ensures result == Wrap(bytes, Unsigned(u)) && overflow == (Unsigned(u) >= Word(bytes))
  {
    hide Magnitude, HexValue, Wrap, Pow;
    var hex := IsHexPrefix(u);
    var first := if hex then 2 else 0;
    ghost var v := u[first..];
    var z := 0;
    while first + z < |u| && u[first + z] == '0'
      invariant first + z <= |u| && forall i | 0 <= i < z :: v[i] == '0'
      decreases |u| - z
    {
      z := z + 1;
    }
    var start := first + z;
    var end;
    result, end := ReadDigits(u, start, hex, bytes);
    ghost var w := u[start..end];
    ZerosAndDigits(hex, v, z);
    assert v[z..] == u[start..];
    assert v[z..][..end - start] == w;
    if hex {
      HexOverflow(bytes, w);
      overflow := end - start > 2 * bytes;
    } else {
      DecimalOverflowExact(bytes, w);
      overflow := end - start >= MaxDigits(false, bytes)
        && !(end - start == MaxDigits(false, bytes)
             && (u[start] < MaxLead(bytes) || (u[start] == MaxLead(bytes) && result >= Word(bytes) / 2)));
    }
  }

  lemma ZeroIsDigit(hex: bool)
    ensures IsDigitOf(hex, '0')
  {
  }

  /** Skipping leading zeros leaves the number as it is. */
  lemma ZerosAndDigits(hex: bool, v: string, z: nat)
    requires z <= |v| && forall i | 0 <= i < z :: v[i] == '0'
    ensures Run(hex, v) == z + Run(hex, v[z..])
    ensures Magnitude(hex, v[..Run(hex, v)]) == Magnitude(hex, v[z..][..Run(hex, v[z..])])
  {
    hide Magnitude, HexValue, Run;
    ZeroIsDigit(hex);
    var n := Run(hex, v[z..]);
    var t := v[..z + n];
    assert t[z..] == v[z..][..n];
    forall i | 0 <= i < |t| ensures IsDigitOf(hex, t[i]) && (i < z ==> t[i] == '0') {
      if i >= z { assert t[i] == t[z..][i - z]; }
    }
    RunIs(hex, v, z + n);
    LeadingZeros(hex, z, t);
  }

  /** `string_to_integer`: the number the text stands for, clamped to the range of the type and stored in
    a word. `minv` and `maxv` are the words that store the ends of the range. */
  method StringToInteger(s: string, bytes: nat, minv: nat, maxv: nat) returns (r: nat)
    requires (bytes == 2 || bytes == 4 || bytes == 8) && minv < Word(bytes) && maxv < Word(bytes)
    ensures r == Wrap(bytes, Clamp(Signed(s), Lowest(bytes, minv), maxv))
  {
    hide Magnitude, HexValue, Pow, Unsigned;
    var i := 0;
    while i < |s| && IsSpace(s[i])
      invariant i <= |s| && AllSpaces(s[..i])
      decreases |s| - i
    {
      assert s[..i + 1] == s[..i] + [s[i]];
      i := i + 1;
    }
    SpacesThen(s[..i], s[i..]);
    assert s[..i] + s[i..] == s;
    var negative := i < |s| && s[i] == '-';
    if i < |s| && (s[i] == '+' || s[i] == '-') { i := i + 1; }
    ghost var m := Unsigned(s[i..]);
    assert Signed(s) == if negative then -(m as int) else m;
    var result, overflow := ReadUnsigned(s[i..], bytes);
    Clamped(bytes, m, minv, maxv, negative);
    if negative {
      r := if overflow || result > Wrap(bytes, 0 - minv as int) then minv else Wrap(bytes, 0 - result as int);
    } else {
      r := if overflow || result > maxv then maxv else result;
    }
  }

  lemma WrapSmall(bytes: nat, x: int)
    requires (bytes == 2 || bytes == 4 || bytes == 8) && -(Word(bytes) as int) <= x < Word(bytes)
    ensures Wrap(bytes, x) == if x >= 0 then x else x + Word(bytes)
  {
  }

  lemma Clamped(bytes: nat, m: nat, minv: nat, maxv: nat, negative: bool)
    requires (bytes == 2 || bytes == 4 || bytes == 8) && minv < Word(bytes) && maxv < Word(bytes)
    ensures var result, overflow, low := Wrap(bytes, m), m >= Word(bytes), Lowest(bytes, minv);
            && (negative ==> Wrap(bytes, Clamp(-(m as int), low, maxv))
                             == if overflow || result > Wrap(bytes, -(minv as int)) then minv
                                else Wrap(bytes, -(result as int)))
            && (!negative ==> Wrap(bytes, Clamp(m, low, maxv)) == if overflow || result > maxv then maxv else result)
  {
    hide Wrap, Word;
    WrapSmall(bytes, -(minv as int));
    WrapSmall(bytes, maxv);
    WrapSmall(bytes, Lowest(bytes, minv));
    if m < Word(bytes) { WrapSmall(bytes, m); }
  }

  // ------------------------------------------------------------------ integer_to_string

  /** The decimal digits of a number, at least one. */
  function Decimal(x: nat): (s: string)
    ensures s != "" && Digits(false, s)
  {
    (if x < 10 then "" else Decimal(x / 10)) + [DigitChar(x % 10)]
  }

  /** A number as it is written. */
  function Written(x: int): string {
    if x < 0 then "-" + Decimal(-x) else Decimal(x)
  }

  lemma OneMoreDigit(t: string, d: nat)
    requires Digits(false, t) && d < 10
    ensures Digits(false, t + [DigitChar(d)]) && Magnitude(false, t + [DigitChar(d)]) == 10 * Magnitude(false, t) + d
  {
    var s := t + [DigitChar(d)];
    assert s[..|s| - 1] == t && s[|s| - 1] == DigitChar(d);
  }

  lemma {:induction false} DecimalValue(x: nat)
    ensures Magnitude(false, Decimal(x)) == x
  {
    hide Magnitude, DigitChar;
    var t := if x < 10 then "" else Decimal(x / 10);
    NoDigits();
    if x >= 10 { DecimalValue(x / 10); }
    OneMoreDigit(t, x % 10);
  }

  lemma NoDigits()
    ensures Magnitude(false, "") == 0
  {
  }

  lemma DigitsAlone(d: string)
    requires d != "" && Digits(false, d)
    ensures Signed(d) == Unsigned(d) == Magnitude(false, d) && Signed("-" + d) == -(Magnitude(false, d) as int)
  {
    hide Magnitude;
    NotPrefix(d);
    RunIs(false, d, |d|);
    assert d[..|d|] == d;
    assert IsDigitOf(false, d[0]);
    assert d[0..] == d && Spaces(d) == 0;
    var s := "-" + d;
    assert s[0..] == s && Spaces(s) == 0 && s[1..] == d;
  }

  /** What is written stands for the number. */
  lemma WrittenMeans(x: int)
    ensures Signed(Written(x)) == x
  {
    hide Magnitude, Decimal, Signed;
    var m: nat := if x < 0 then -x else x;
    DecimalValue(m);
    DigitsAlone(Decimal(m));
  }

  lemma NotPrefix(d: string)
    requires d != "" && Digits(false, d)
    ensures !IsHexPrefix(d)
  {
    assert |d| > 1 ==> IsDigitOf(false, d[1]);
  }

  /** Reading back a written integer of any type gives the integer: `lo` and `hi` are the ends of its
    range, as a signed or unsigned type of that many bytes has them. */
  lemma ReadWritten(bytes: nat, lo: int, hi: nat, x: int)
    requires (bytes == 2 || bytes == 4 || bytes == 8) && lo <= x <= hi && hi < Word(bytes)
             && -(Word(bytes) as int) < lo <= 0
    ensures Wrap(bytes, Clamp(Signed(Written(x)), Lowest(bytes, Wrap(bytes, lo)), hi)) == Wrap(bytes, x)
  {
    WrittenMeans(x);
    hide Wrap, Word;
    WrapSmall(bytes, lo);
    WrapSmall(bytes, -(Wrap(bytes, lo) as int));
  }

  /** `integer_to_string`: digits are written backwards from the end of the buffer, with a minus sign in
    front of them that only a negative number keeps. */
  method IntegerToString(buf: array<char>, bytes: nat, value: nat, negative: bool) returns (start: nat)
    requires (bytes == 2 || bytes == 4 || bytes == 8) && value < Word(bytes) && buf.Length == 64
    modifies buf
    ensures start < buf.Length
    ensures buf[start..]
            == (if negative then "-" else "") + Decimal(if negative then Wrap(bytes, -(value as int)) else value)
  {
    hide Pow, DigitChar, Decimal, Wrap;
    var rest: nat := if negative then Wrap(bytes, 0 - value as int) else value;
    ghost var whole := rest;
    var result: int := buf.Length - 1;
    WordHasTwentyDigits(bytes);
    WrapInWord(bytes, 0 - value as int);
    DecimalLength(rest, 20);
    assert Decimal(whole) + buf[result + 1..] == Decimal(whole);
    var first := true;
    while first || rest != 0
      invariant -1 <= result < buf.Length && (first ==> rest == whole)
      invariant (if first || rest != 0 then Decimal(rest) else "") + buf[result + 1..] == Decimal(whole)
      decreases first, rest
    {
      ghost var tail := buf[result + 1..];
      LastDigit(rest);
      buf[result] := DigitChar(rest % 10);
      assert buf[result..] == [DigitChar(rest % 10)] + tail;
      Regroup(if rest < 10 then "" else Decimal(rest / 10), [DigitChar(rest % 10)], tail);
      result, rest, first := result - 1, rest / 10, false;
    }
    assert "" + buf[result + 1..] == buf[result + 1..];
    ghost var digits := buf[result + 1..];
    buf[result] := '-';
    assert buf[result + 1..] == digits;
    start := if negative then result else result + 1;
    assert buf[result..] == "-" + digits;
    assert "" + digits == digits;
  }

  lemma LastDigit(x: nat)
    ensures Decimal(x) == (if x < 10 then "" else Decimal(x / 10)) + [DigitChar(x % 10)]
    ensures |Decimal(x)| >= 1
  {
  }

  lemma WrapInWord(bytes: nat, x: int)
    requires bytes == 2 || bytes == 4 || bytes == 8
    ensures 0 <= Wrap(bytes, x) < Word(bytes)
  {
  }

  lemma WordHasTwentyDigits(bytes: nat)
    requires bytes == 2 || bytes == 4 || bytes == 8
    ensures Word(bytes) < Pow(10, 20)
  {
    TenPowers();
    PowOne(10, 19);
  }

  lemma {:induction false} DecimalLength(x: nat, n: nat)
    requires 0 < n && x < Pow(10, n)
    ensures |Decimal(x)| <= n
  {
    if x >= 10 {
      assert x / 10 < Pow(10, n - 1) by { assert Pow(10, n) == 10 * Pow(10, n - 1); }
      DecimalLength(x / 10, n - 1);
    }
  }
}