/** Writing text through a bounded buffer: `xml_buffered_writer` and the UTF-8 decoder it uses.

  Bytes are characters below 256. What comes out must not depend on where the buffer happened to be
  full: as long as every write is of whole UTF-8 characters, the output is the text transcoded at one
  go. */
module BufferedWriter {
  import opened Characters

  // ------------------------------------------------------------------ UTF-8, read

  predicate IsContinuation(c: char) {
    0x80 <= c as int < 0xC0
  }

  /** The number of bytes of a character that starts with `c`, as far as the first byte tells. */
  function LengthOf(c: char): nat {
    var lead := c as int;
    if lead < 0x80 then 1 else if 0xC0 <= lead < 0xE0 then 2 else if 0xE0 <= lead < 0xF0 then 3
      else if 0xF0 <= lead < 0xF8 then 4 else 0
  }

  /** A whole character stands at the front of `s`. */
  predicate StartsWhole(s: string) {
    && s != "" && LengthOf(s[0]) > 0 && LengthOf(s[0]) <= |s|
    && forall i | 1 <= i < LengthOf(s[0]) :: IsContinuation(s[i])
  }

  /** One step of `utf8_decoder::process`: a code and how many bytes it took, or one byte skipped. */
  datatype Step = Code(code: nat, length: nat) | Skip

  function Low(c: char): nat {
    c as int % 0x40
  }

  function DecodeOne(s: string): (r: Step)
    requires s != ""
    ensures r.Code? <==> StartsWhole(s)
    ensures r.Code? ==> r.length == LengthOf(s[0])
  {
    if !StartsWhole(s) then Skip
    else
      var n, lead := LengthOf(s[0]), s[0] as int;
      if n == 1 then Code(lead, 1)
      else if n == 2 then Code((lead - 0xC0) * 0x40 + Low(s[1]), 2)
      else if n == 3 then Code((lead - 0xE0) * 0x1000 + Low(s[1]) * 0x40 + Low(s[2]), 3)
      else Code((lead - 0xF0) * 0x40000 + Low(s[1]) * 0x1000 + Low(s[2]) * 0x40 + Low(s[3]), 4)
  }

  // ------------------------------------------------------------------ other encodings, written

  datatype Encoding = Utf8Encoding | Utf16(bigEndian: bool) | Utf32(bigEndian: bool) | Latin1

  function Byte(n: nat): char {
    (n % 0x100) as char
  }

  function TwoBytes(bigEndian: bool, n: nat): string {
    if bigEndian then [Byte(n / 0x100), Byte(n)] else [Byte(n), Byte(n / 0x100)]
  }

  function FourBytes(bigEndian: bool, n: nat): string {
    if bigEndian then TwoBytes(true, n / 0x10000) + TwoBytes(true, n)
      else TwoBytes(false, n) + TwoBytes(false, n / 0x10000)
  }

  /** `low` and `high` of the writers: `high` is called for a character of four bytes. */
  function Encode(e: Encoding, high: bool, code: nat): (r: string)
    requires code < 0x200000
    ensures |r| <= 4
  {
    match e
    case Utf8Encoding => Utf8(code)
    case Utf16(big) =>
      if !high then TwoBytes(big, code)
      else
        var rest := (code - 0x10000) % 0x1_0000_0000;
        TwoBytes(big, 0xD800 + rest / 0x400) + TwoBytes(big, 0xDC00 + rest % 0x400)
    case Utf32(big) => FourBytes(big, code)
    case Latin1 => [if high || code > 255 then '?' else code as char]
  }

  lemma DecodedSmall(s: string)
    requires StartsWhole(s)
    ensures DecodeOne(s).code < 0x200000
  {
  }

  /** The text in another encoding, in one go. UTF-8 itself is written as it is. */
  function Transcode(e: Encoding, s: string): string
    decreases |s|
  {
    if e == Utf8Encoding then s
    else if s == "" then ""
    else if !StartsWhole(s) then Transcode(e, s[1..])
    else
      DecodedSmall(s);
      var c := DecodeOne(s);
      Encode(e, c.length == 4, c.code) + Transcode(e, s[c.length..])
  }

  /** Nothing but whole characters. */
  predicate Whole(s: string)
    decreases |s|
  {
    s == "" || (StartsWhole(s) && Whole(s[LengthOf(s[0])..]))
  }

  // ------------------------------------------------------------------ code points there and back

  lemma LowOf(n: nat)
    ensures IsContinuation(Low6(n)) && Low(Low6(n)) == n % 0x40
  {
    assert (0x80 + n % 0x40) % 0x40 == n % 0x40;
  }

  lemma Digits(n: nat)
    ensures n == n / 0x40 * 0x40 + n % 0x40
    ensures n / 0x1000 == n / 0x40 / 0x40 && n / 0x40000 == n / 0x40 / 0x40 / 0x40
  {
  }

  lemma DecodeTwo(s: string, lead: nat, a: nat)
    requires |s| >= 2 && lead < 0x20 && s[0] == (0xC0 + lead) as char && s[1] == Low6(a)
    ensures StartsWhole(s) && DecodeOne(s) == Code(lead * 0x40 + a % 0x40, 2)
  {
    hide Low6;
    LowOf(a);
  }

  lemma DecodeThree(s: string, lead: nat, a: nat, b: nat)
    requires |s| >= 3 && lead < 0x10 && s[0] == (0xE0 + lead) as char && s[1] == Low6(a) && s[2] == Low6(b)
    ensures StartsWhole(s) && DecodeOne(s) == Code(lead * 0x1000 + a % 0x40 * 0x40 + b % 0x40, 3)
  {
    hide Low6, Low;
    LowOf(a);
    LowOf(b);
  }

  lemma DecodeFour(s: string, lead: nat, a: nat, b: nat, c: nat)
    requires |s| >= 4 && lead < 0x08 && s[0] == (0xF0 + lead) as char
    requires s[1] == Low6(a) && s[2] == Low6(b) && s[3] == Low6(c)
    ensures StartsWhole(s) && DecodeOne(s) == Code(lead * 0x40000 + a % 0x40 * 0x1000 + b % 0x40 * 0x40 + c % 0x40, 4)
  {
    hide Low6, Low;
    LowOf(a);
    LowOf(b);
    LowOf(c);
  }

  /** Decoding what was encoded gives the code point, whatever follows it. */
  lemma DecodeEncoded(code: nat, rest: string)
    requires code < 0x200000
    ensures var t := Utf8(code) + rest;
            StartsWhole(t) && DecodeOne(t) == Code(code, |Utf8(code)|) && (|Utf8(code)| == 4 <==> code >= 0x10000)
  {
    hide StartsWhole, DecodeOne, Low6;
    var t := Utf8(code) + rest;
    Digits(code);
    Digits(code / 0x40);
    Digits(code / 0x1000);
    if code < 0x80 {
      AsciiIsWhole(t);
    } else if code < 0x800 {
      DecodeTwo(t, code / 0x40, code);
    } else if code < 0x10000 {
      DecodeThree(t, code / 0x1000, code / 0x40, code);
    } else {
      assert code / 0x40000 % 0x10 == code / 0x40000;
      DecodeFour(t, code / 0x40000, code / 0x1000, code / 0x40, code);
    }
  }

  lemma AsciiIsWhole(s: string)
    requires s != "" && s[0] as int < 0x80
    ensures StartsWhole(s) && DecodeOne(s) == Code(s[0] as int, 1)
  {
  }

  /** `utf8_counter`: what is counted is what is written. */
  function Counted(high: bool, code: nat): nat {
    if high then 4 else if code < 0x80 then 1 else if code < 0x800 then 2 else 3
  }

  function CountedText(codes: seq<nat>): nat {
    if codes == [] then 0 else Counted(codes[0] >= 0x10000, codes[0]) + CountedText(codes[1..])
  }

  function Utf8Text(codes: seq<nat>): string {
    if codes == [] then "" else Utf8(codes[0]) + Utf8Text(codes[1..])
  }

  /** The room reserved by counting first is the room the writing then takes. */
  lemma {:induction false} CountedIsWritten(codes: seq<nat>)
    ensures CountedText(codes) == |Utf8Text(codes)|
  {
    if codes != [] { CountedIsWritten(codes[1..]); }
  }

  /** A code point that UTF-16 can name: no surrogate and at most U+10FFFF. */
  predicate IsScalar(code: nat) {
    code < 0xD800 || 0xE000 <= code < 0x110000
  }

  function Unit(bigEndian: bool, s: string): nat
    requires |s| >= 2 && s[0] as int < 0x100 && s[1] as int < 0x100
  {
    if bigEndian then s[0] as nat * 0x100 + s[1] as nat else s[1] as nat * 0x100 + s[0] as nat
  }

  predicate AllBytes(s: string) {
    forall i | 0 <= i < |s| :: s[i] as int < 0x100
  }

  /** `utf16_decoder::process`. */
  function Decode16(bigEndian: bool, s: string): seq<nat>
    requires AllBytes(s)
    decreases |s|
  {
    if |s| < 2 then []
    else
      var lead := Unit(bigEndian, s);
      if lead < 0xD800 || 0xE000 <= lead then [lead] + Decode16(bigEndian, s[2..])
      else if lead < 0xDC00 && |s| >= 4 && 0xDC00 <= Unit(bigEndian, s[2..]) < 0xE000 then
        [0x10000 + lead % 0x400 * 0x400 + Unit(bigEndian, s[2..]) % 0x400] + Decode16(bigEndian, s[4..])
      else Decode16(bigEndian, s[2..])
  }

  lemma UnitOf(bigEndian: bool, n: nat, rest: string)
    requires n < 0x10000
    ensures |TwoBytes(bigEndian, n)| == 2 && AllBytes(TwoBytes(bigEndian, n))
    ensures var t := TwoBytes(bigEndian, n) + rest; Unit(bigEndian, t) == n && t[2..] == rest
  {
    var high, low := Byte(n / 0x100), Byte(n);
    var pair := TwoBytes(bigEndian, n);
    var t := pair + rest;
    assert n / 0x100 % 0x100 == n / 0x100;
    assert t[0] == pair[0] && t[1] == pair[1];
    assert high as nat * 0x100 + low as nat == n;
    assert t[2..] == rest;
  }

  lemma EncodedBytes(e: Encoding, high: bool, code: nat)
    requires code < 0x200000
    ensures AllBytes(Encode(e, high, code))
  {
  }

  lemma {:induction false} TranscodedBytes(e: Encoding, codes: seq<nat>)
    requires forall i | 0 <= i < |codes| :: codes[i] < 0x200000
    ensures AllBytes(Transcode(e, Utf8Text(codes)))
    ensures codes != [] && e != Utf8Encoding ==>
      Transcode(e, Utf8Text(codes)) == Encode(e, codes[0] >= 0x10000, codes[0]) + Transcode(e, Utf8Text(codes[1..]))
  {
    hide Utf8, DecodeOne, StartsWhole, Encode;
    if codes == [] {
    } else {
      var rest := Utf8Text(codes[1..]);
      DecodeEncoded(codes[0], rest);
      assert (Utf8(codes[0]) + rest)[|Utf8(codes[0])|..] == rest;
      TranscodedBytes(e, codes[1..]);
      EncodedBytes(e, codes[0] >= 0x10000, codes[0]);
    }
  }

  lemma Surrogates(bigEndian: bool, code: nat, rest: string)
    requires 0x10000 <= code < 0x110000 && AllBytes(rest)
    ensures var t := Encode(Utf16(bigEndian), true, code) + rest;
            AllBytes(t) && Decode16(bigEndian, t) == [code] + Decode16(bigEndian, rest)
  {
    hide TwoBytes, Unit, Decode16;
    var n := code - 0x10000;
    var high, low := TwoBytes(bigEndian, 0xD800 + n / 0x400), TwoBytes(bigEndian, 0xDC00 + n % 0x400);
    UnitOf(bigEndian, 0xD800 + n / 0x400, low + rest);
    UnitOf(bigEndian, 0xDC00 + n % 0x400, rest);
    PairCode(n);
    Regroup(high, low, rest);
    DecodePair(bigEndian, high + (low + rest), 0xD800 + n / 0x400, 0xDC00 + n % 0x400);
    assert (high + (low + rest))[2..] == low + rest;
    assert (high + (low + rest))[4..] == rest;
  }

  lemma PairCode(n: nat)
    requires n < 0x100000
    ensures n / 0x400 < 0x400
    ensures (0xD800 + n / 0x400) % 0x400 * 0x400 + (0xDC00 + n % 0x400) % 0x400 == n
  {
  }

  lemma DecodePair(bigEndian: bool, s: string, high: nat, low: nat)
    requires |s| >= 4 && AllBytes(s) && Unit(bigEndian, s) == high && Unit(bigEndian, s[2..]) == low
    requires 0xD800 <= high < 0xDC00 <= low < 0xE000
    ensures Decode16(bigEndian, s) == [0x10000 + high % 0x400 * 0x400 + low % 0x400] + Decode16(bigEndian, s[4..])
  {
    hide Unit;
  }

  /** What the writer puts out as UTF-16 names exactly the code points it was given. */
  lemma {:induction false} Utf16ReadsBack(bigEndian: bool, codes: seq<nat>)
    requires forall i | 0 <= i < |codes| :: IsScalar(codes[i])
    ensures var t := Transcode(Utf16(bigEndian), Utf8Text(codes)); AllBytes(t) && Decode16(bigEndian, t) == codes
  {
    hide Utf8Text, TwoBytes, Transcode, Unit;
    TranscodedBytes(Utf16(bigEndian), codes);
    if codes == [] {
      Nothing(bigEndian);
    } else {
      Utf16ReadsBack(bigEndian, codes[1..]);
      TranscodedBytes(Utf16(bigEndian), codes[1..]);
      var rest := Transcode(Utf16(bigEndian), Utf8Text(codes[1..]));
      if codes[0] >= 0x10000 {
        Surrogates(bigEndian, codes[0], rest);
      } else {
        UnitOf(bigEndian, codes[0], rest);
      }
    }
  }

  lemma Nothing(bigEndian: bool)
    ensures Transcode(Utf16(bigEndian), Utf8Text([])) == ""
  {
  }

  function Word32(bigEndian: bool, s: string): nat
    requires |s| >= 4 && AllBytes(s)
  {
    if bigEndian then Unit(true, s) * 0x10000 + Unit(true, s[2..]) else Unit(false, s[2..]) * 0x10000 + Unit(false, s)
  }

  /** `utf32_decoder::process`. */
  function Decode32(bigEndian: bool, s: string): seq<nat>
    requires AllBytes(s)
    decreases |s|
  {
    if |s| < 4 then [] else [Word32(bigEndian, s)] + Decode32(bigEndian, s[4..])
  }

  lemma LowHalf(bigEndian: bool, n: nat)
    ensures TwoBytes(bigEndian, n) == TwoBytes(bigEndian, n % 0x10000)
  {
    assert n % 0x10000 / 0x100 % 0x100 == n / 0x100 % 0x100 && n % 0x10000 % 0x100 == n % 0x100;
  }

  lemma WordRead(bigEndian: bool, code: nat, rest: string)
    requires code < 0x200000 && AllBytes(rest)
    ensures var t := FourBytes(bigEndian, code) + rest;
            |FourBytes(bigEndian, code)| == 4 && AllBytes(t) && Word32(bigEndian, t) == code && t[4..] == rest
  {
    hide TwoBytes, Unit;
    LowHalf(bigEndian, code);
    var high, low := TwoBytes(bigEndian, code / 0x10000), TwoBytes(bigEndian, code % 0x10000);
    var first, second := if bigEndian then high else low, if bigEndian then low else high;
    var m, n := if bigEndian then code / 0x10000 else code % 0x10000, if bigEndian then code % 0x10000
      else code / 0x10000;
    UnitOf(bigEndian, m, second + rest);
    UnitOf(bigEndian, n, rest);
    Regroup(first, second, rest);
    var t := first + (second + rest);
    assert FourBytes(bigEndian, code) + rest == t;
    assert t[2..] == second + rest && t[4..] == rest;
  }

  /** And what it puts out as UTF-32. */
  lemma {:induction false} Utf32ReadsBack(bigEndian: bool, codes: seq<nat>)
    requires forall i | 0 <= i < |codes| :: codes[i] < 0x110000
    ensures var t := Transcode(Utf32(bigEndian), Utf8Text(codes)); AllBytes(t) && Decode32(bigEndian, t) == codes
  {
    hide Utf8Text, FourBytes, Transcode, Word32;
    TranscodedBytes(Utf32(bigEndian), codes);
    if codes == [] {
      NothingToRead(bigEndian);
    } else {
      Utf32ReadsBack(bigEndian, codes[1..]);
      WordRead(bigEndian, codes[0], Transcode(Utf32(bigEndian), Utf8Text(codes[1..])));
    }
  }

  lemma NothingToRead(bigEndian: bool)
    ensures Transcode(Utf32(bigEndian), Utf8Text([])) == ""
  {
  }

  /** Latin-1 has one byte for every code point: itself, or a question mark beyond its range. */
  lemma {:induction false} Latin1Bytes(codes: seq<nat>, k: nat)
    requires k < |codes| && forall i | 0 <= i < |codes| :: codes[i] < 0x110000
    ensures var t := Transcode(Latin1, Utf8Text(codes));
            |t| == |codes| && t[k] == (if codes[k] < 0x100 then codes[k] as char else '?')
    decreases |codes|
  {
    hide Utf8Text, Transcode;
    TranscodedBytes(Latin1, codes);
    if |codes| == 1 {
      assert codes[1..] == [];
      assert Transcode(Latin1, Utf8Text([])) == "" by { NothingInLatin1(); }
    } else {
      Latin1Bytes(codes[1..], if k == 0 then 0 else k - 1);
    }
  }

  lemma NothingInLatin1()
    ensures Transcode(Latin1, Utf8Text([])) == ""
  {
  }

  // ------------------------------------------------------------------ cutting between characters

  lemma {:induction false} TranscodeAppend(e: Encoding, a: string, b: string)
    requires e == Utf8Encoding || Whole(a)
    ensures Transcode(e, a + b) == Transcode(e, a) + Transcode(e, b)
    decreases |a|
  {
    if e == Utf8Encoding {
    } else if a == "" {
      assert a + b == b;
    } else {
      var n := LengthOf(a[0]);
      assert (a + b)[n..] == a[n..] + b;
      DecodeFront(a, b);
      TranscodeAppend(e, a[n..], b);
      DecodedSmall(a);
      Regroup(Encode(e, n == 4, DecodeOne(a).code), Transcode(e, a[n..]), Transcode(e, b));
    }
  }

  lemma DecodeFront(a: string, b: string)
    requires StartsWhole(a)
    ensures StartsWhole(a + b) && DecodeOne(a + b) == DecodeOne(a)
  {
    assert forall i | 0 <= i < |a| :: (a + b)[i] == a[i];
  }

  lemma {:induction false} WholeAppend(a: string, b: string)
    requires Whole(a)
    ensures Whole(a + b) <==> Whole(b)
    decreases |a|
  {
    if a == "" {
      assert a + b == b;
    } else {
      DecodeFront(a, b);
      assert (a + b)[LengthOf(a[0])..] == a[LengthOf(a[0])..] + b;
      WholeAppend(a[LengthOf(a[0])..], b);
    }
  }

  /** A whole text can be cut before any byte that starts a character. */
  lemma {:induction false} CutWhole(s: string, p: nat)
    requires Whole(s) && p < |s| && !IsContinuation(s[p])
    ensures Whole(s[..p]) && Whole(s[p..])
    decreases |s|
  {
    if p == 0 {
      assert s[0..] == s;
    } else {
      var n := LengthOf(s[0]);
      assert n <= p;
      CutWhole(s[n..], p - n);
      assert s[n..][p - n..] == s[p..];
      assert s[..p][n..] == s[n..][..p - n];
    }
  }

  lemma {:induction false} NearStart(s: string, n: nat) returns (i: nat)
    requires Whole(s) && 0 < n <= |s|
    ensures 1 <= i <= 4 && i <= n && !IsContinuation(s[n - i])
    decreases |s|
  {
    var k := LengthOf(s[0]);
    if n <= k {
      i := n;
    } else {
      i := NearStart(s[k..], n - k);
    }
  }

  /** Where the last character of `s` starts; 0 for a short `s`. */
  function ValidLength(s: string): (n: nat)
    ensures n <= |s|
  {
    if |s| < 5 then 0
    else if !IsContinuation(s[|s| - 1]) then |s| - 1
    else if !IsContinuation(s[|s| - 2]) then |s| - 2
    else if !IsContinuation(s[|s| - 3]) then |s| - 3
    else if !IsContinuation(s[|s| - 4]) then |s| - 4
    else |s|
  }

  method GetValidLength(s: string) returns (n: nat)
    ensures n == ValidLength(s)
  {
    if |s| < 5 {
      return 0;
    }
    for i := 1 to 5
      invariant i > 1 ==> IsContinuation(s[|s| - 1])
      invariant i > 2 ==> IsContinuation(s[|s| - 2])
      invariant i > 3 ==> IsContinuation(s[|s| - 3])
      invariant i > 4 ==> IsContinuation(s[|s| - 4])
    {
      if !IsContinuation(s[|s| - i]) {
        return |s| - i;
      }
    }
    return |s|;
  }

  /** Any beginning of a whole text, long enough, is cut between two characters and not at its start. */
  lemma ValidIsWhole(s: string, n: nat)
    requires Whole(s) && n <= |s|
    ensures var r := ValidLength(s[..n]); r <= n && Whole(s[..r]) && Whole(s[r..]) && (n >= 5 ==> 0 < r)
  {
    hide Whole;
    var r := ValidLength(s[..n]);
    if n >= 5 {
      var i := NearStart(s, n);
      assert !IsContinuation(s[r]);
      CutWhole(s, r);
    } else {
      assert s[..0] == "" && s[0..] == s;
      assert Whole("") by { EmptyIsWhole(); }
    }
  }

  lemma EmptyIsWhole()
    ensures Whole("")
  {
  }

  // ------------------------------------------------------------------ the writer

  predicate Writable(e: Encoding, s: string) {
    e == Utf8Encoding || Whole(s)
  }

  /** `convert_buffer_output`: a chunk converted into the scratch buffer, which it must not overrun. */
  method ConvertChunk(scratch: array<char>, e: Encoding, data: string) returns (result: nat)
    requires e != Utf8Encoding && 4 * |data| <= scratch.Length
    modifies scratch
    ensures result <= scratch.Length && scratch[..result] == Transcode(e, data)
  {
    hide Transcode, StartsWhole, DecodeOne, LengthOf, Encode;
    result := 0;
    var at := 0;
    assert data[0..] == data;
    while at < |data|
      invariant at <= |data| && result <= 4 * at
      invariant scratch[..result] + Transcode(e, data[at..]) == Transcode(e, data)
    {
      TranscodeStep(e, data[at..]);
      match DecodeOne(data[at..])
      case Skip =>
        assert data[at..][1..] == data[at + 1..];
        at := at + 1;
      case Code(code, length) =>
        DecodedSmall(data[at..]);
        assert data[at..][length..] == data[at + length..];
        var unit := Encode(e, length == 4, code);
        ghost var before, rest := scratch[..result], Transcode(e, data[at + length..]);
        result := Store(scratch, result, unit);
        Regroup(before, unit, rest);
        at := at + length;
    }
    assert data[at..] == "";
    TranscodeStep(e, "");
    assert scratch[..result] + "" == scratch[..result];
  }

  lemma TranscodeStep(e: Encoding, s: string)
    requires e != Utf8Encoding
    ensures s == "" ==> Transcode(e, s) == ""
    ensures s != "" && DecodeOne(s).Skip? ==> Transcode(e, s) == Transcode(e, s[1..])
    ensures s != "" && DecodeOne(s).Code? ==>
      DecodeOne(s).code < 0x200000 && 1 <= DecodeOne(s).length <= |s| &&
      Transcode(e, s) == Encode(e, DecodeOne(s).length == 4, DecodeOne(s).code) + Transcode(e, s[DecodeOne(s).length..])
  {
    if s != "" && DecodeOne(s).Code? { DecodedSmall(s); }
  }

  method Store(a: array<char>, at: nat, data: string) returns (end: nat)
    requires at + |data| <= a.Length
    modifies a
    ensures end == at + |data|
    ensures a[..end] == old(a[..at]) + data
  {
    for i := 0 to |data|
      invariant a[..at] == old(a[..at])
      invariant a[at..at + i] == data[..i]
    {
      a[at + i] := data[i];
    }
    end := at + |data|;
    assert a[..end] == a[..at] + a[at..end];
  }

  class Writer {
    const encoding: Encoding
    const buffer: array<char>
    const scratch: array<char>
    var bufsize: nat
    var sink: string          // everything handed to the `xml_writer` so far
    ghost var given: string   // everything written so far

    ghost predicate Valid()
      reads this, buffer
    {
      && buffer.Length >= 8 && scratch.Length == 4 * buffer.Length && buffer != scratch
      && bufsize <= buffer.Length
      && Writable(encoding, buffer[..bufsize])
      && sink + Transcode(encoding, buffer[..bufsize]) == Transcode(encoding, given)
      && Writable(encoding, given)
    }

    constructor (encoding: Encoding, capacity: nat)
      requires capacity >= 8
      ensures Valid() && fresh(buffer) && fresh(scratch) && given == "" && sink == "" && this.encoding == encoding
    {
      this.encoding := encoding;
      buffer := new char[capacity];
      scratch := new char[4 * capacity];
      bufsize, sink, given := 0, "", "";
    }

    /** One chunk handed over, converted where needed. */
    method FlushData(data: string)
      requires scratch.Length >= 4 * |data| || encoding == Utf8Encoding
      modifies this`sink, scratch
      ensures sink == old(sink) + Transcode(encoding, data)
    {
      if data == "" {
        EmptyTranscoded(encoding);
        return;
      }
      if encoding == Utf8Encoding {
        sink := sink + data;
      } else {
        var result := ConvertChunk(scratch, encoding, data);
        sink := sink + scratch[..result];
      }
    }

    /** After a flush the output is all that was written, transcoded at one go. */
    method Flush()
      requires Valid()
      modifies this`sink, this`bufsize, scratch
      ensures Valid() && bufsize == 0 && buffer[..] == old(buffer[..])
      ensures sink == Transcode(encoding, given)
    {
      hide Transcode, Whole;
      FlushData(buffer[..bufsize]);
      bufsize := 0;
      EmptyTranscoded(encoding);
      EmptyIsWhole();
      assert buffer[..0] == "";
      assert sink + "" == sink;
    }

    /** `write` of one to six characters. */
    method WriteFew(data: string)
      requires Valid() && 1 <= |data| <= 6 && Writable(encoding, data)
      modifies this, buffer, scratch
      ensures Valid() && given == old(given) + data
    {
      hide Transcode, Whole;
      if bufsize > buffer.Length - |data| {
        Flush();
      }
      Fill(data);
    }

    /** Copying what fits behind the contents of the buffer. */
    method Fill(data: string)
      requires Valid() && bufsize + |data| <= buffer.Length && Writable(encoding, data)
      modifies this`bufsize, this`given, buffer
      ensures Valid() && given == old(given) + data && sink == old(sink)
    {
      hide Transcode, Whole;
      ghost var held := buffer[..bufsize];
      var end := Store(buffer, bufsize, data);
      assert buffer[..end][..bufsize] == held && buffer[..end][bufsize..] == data;
      assert buffer[..bufsize] == held && buffer[bufsize..end] == data;
      Keep(data);
    }

    method WriteBuffer(data: string)
      requires Valid() && Writable(encoding, data)
      modifies this, buffer, scratch
      ensures Valid() && given == old(given) + data
    {
      hide Transcode, Whole;
      if bufsize + |data| <= buffer.Length {
        Fill(data);
      } else {
        WriteDirect(data);
      }
    }

    method WriteDirect(data: string)
      requires Valid() && Writable(encoding, data)
      modifies this, buffer, scratch
      ensures Valid() && given == old(given) + data
    {
      hide Transcode, Whole;
      Flush();
      var rest := data;
      if |data| > buffer.Length {
        if encoding == Utf8Encoding {
          Emitted(data);
          sink := sink + data;
          given := given + data;
          return;
        }
        while |rest| > buffer.Length
          invariant Valid() && bufsize == 0 && Writable(encoding, rest)
          invariant old(given) + data == given + rest
          decreases |rest|
        {
          var size := GetValidLength(rest[..buffer.Length]);
          ValidIsWhole(rest, buffer.Length);
          var chunk := rest[..size];
          Emitted(chunk);
          FlushData(chunk);
          Regroup(given, chunk, rest[size..]);
          assert rest == chunk + rest[size..];
          given := given + chunk;
          rest := rest[size..];
        }
      }
      Fill(rest);
    }

    /** What handing `chunk` over does to the invariant, with nothing buffered. */
    lemma Emitted(chunk: string)
      requires Valid() && bufsize == 0 && Writable(encoding, chunk)
      ensures sink == Transcode(encoding, given)
      ensures sink + Transcode(encoding, chunk) == Transcode(encoding, given + chunk)
      ensures Writable(encoding, given + chunk)
      ensures encoding == Utf8Encoding ==> Transcode(encoding, chunk) == chunk
      ensures Transcode(encoding, "") == "" && buffer[..0] == ""
    {
      hide Whole;
      assert buffer[..0] == "";
      WritableAppend(encoding, given, chunk);
      assert sink + "" == sink;
    }

    /** The part of the string that fits is copied behind the contents, which stay what they are. */
    method CopyFitting(data: string) returns (at: nat)
      requires Valid()
      modifies buffer
      ensures Valid() && at <= |data| && bufsize + at <= buffer.Length
      ensures at == |data| || bufsize + at == buffer.Length
      ensures buffer[bufsize..bufsize + at] == data[..at]
    {
      hide Transcode, Whole;
      at := 0;
      while at < |data| && bufsize + at < buffer.Length
        invariant at <= |data| && bufsize + at <= buffer.Length
        invariant buffer[..bufsize] == old(buffer[..bufsize])
        invariant buffer[bufsize..bufsize + at] == data[..at]
      {
        buffer[bufsize + at] := data[at];
        at := at + 1;
      }
    }

    /** A C string: the buffer is filled to the brim, then the cut is moved back between two characters. */
    method WriteString(data: string)
      requires Valid() && Writable(encoding, data) && '\0' !in data
      modifies this, buffer, scratch
      ensures Valid() && given == old(given) + data
    {
      hide *;
      var at := CopyFitting(data);
      if bufsize + at < buffer.Length {
        assert data[..at] == data;
        Keep(data);
      } else {
        var valid := GetValidLength(data[..at]);
        CutWritable(encoding, data, at);
        Fitted(data, at, valid);
        Keep(data[..valid]);
        WriteDirect(data[valid..]);
        Rejoin(old(given), data, valid);
      }
    }

    lemma Fitted(data: string, at: nat, valid: nat)
      requires valid <= at <= |data| && bufsize + at <= buffer.Length
      requires buffer[bufsize..bufsize + at] == data[..at]
      ensures buffer[bufsize..bufsize + valid] == data[..valid]
    {
      assert data[..valid] == data[..at][..valid];
    }

    /** What already stands behind the contents becomes part of them. */
    method Keep(data: string)
      requires Valid() && bufsize + |data| <= buffer.Length && buffer[bufsize..bufsize + |data|] == data
      requires Writable(encoding, data)
      modifies this`bufsize, this`given
      ensures Valid() && given == old(given) + data
    {
      hide Transcode, Whole;
      ghost var held := buffer[..bufsize];
      WritableAppend(encoding, held, data);
      WritableAppend(encoding, given, data);
      Regroup(sink, Transcode(encoding, held), Transcode(encoding, data));
      assert buffer[..bufsize + |data|] == held + data;
      bufsize := bufsize + |data|;
      given := given + data;
    }
  }

  lemma Rejoin(given: string, data: string, at: nat)
    requires at <= |data|
    ensures given + data[..at] + data[at..] == given + data
  {
    assert data == data[..at] + data[at..];
    Regroup(given, data[..at], data[at..]);
  }

  lemma CutWritable(e: Encoding, data: string, at: nat)
    requires Writable(e, data) && at <= |data|
    ensures var valid := ValidLength(data[..at]);
            valid <= at && Writable(e, data[..valid]) && Writable(e, data[valid..])
  {
    hide Whole, ValidLength;
    if e != Utf8Encoding { ValidIsWhole(data, at); }
  }

  lemma EmptyTranscoded(e: Encoding)
    ensures Transcode(e, "") == ""
  {
  }

  lemma WritableAppend(e: Encoding, a: string, b: string)
    requires Writable(e, a) && Writable(e, b)
    ensures Writable(e, a + b) && Transcode(e, a + b) == Transcode(e, a) + Transcode(e, b)
  {
    hide Transcode, Whole;
    TranscodeAppend(e, a, b);
    if e != Utf8Encoding { WholeAppend(a, b); }
  }

  // ------------------------------------------------------------------ any run of writes

  datatype Write = Few(data: string) | Buffered(data: string) | Terminated(data: string)

  predicate Possible(e: Encoding, w: Write) {
    Writable(e, w.data) && (w.Few? ==> 1 <= |w.data| <= 6) && (w.Terminated? ==> '\0' !in w.data)
  }

  function AllData(ws: seq<Write>): string {
    if ws == [] then "" else AllData(ws[..|ws| - 1]) + ws[|ws| - 1].data
  }

  /** Whatever the writes are and wherever the buffer is full, the output is the concatenation
    transcoded at one go. */
  method WriteAll(e: Encoding, capacity: nat, ws: seq<Write>) returns (output: string)
    requires capacity >= 8
    requires forall i | 0 <= i < |ws| :: Possible(e, ws[i])
    ensures output == Transcode(e, AllData(ws))
  {
    hide Transcode, Whole;
    var writer := new Writer(e, capacity);
    for i := 0 to |ws|
      invariant writer.Valid() && writer.encoding == e && writer.given == AllData(ws[..i])
      invariant fresh(writer) && fresh(writer.buffer) && fresh(writer.scratch)
    {
      assert ws[..i + 1][..i] == ws[..i];
      match ws[i]
      case Few(data) => writer.WriteFew(data);
      case Buffered(data) => writer.WriteBuffer(data);
      case Terminated(data) => writer.WriteString(data);
    }
    assert ws[..|ws|] == ws;
    writer.Flush();
    output := writer.sink;
  }
}
