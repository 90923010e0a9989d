/** Character references: what the printer writes for a character it cannot write as it is, and how
  the parser reads text and attribute values back. */
module Escapes {
  import opened Characters

  // ------------------------------------------------------------------ writing

  datatype EscapeStyle = EscapeStyle(singleQuote: bool, skipControl: bool, noEscapes: bool)

  /** What `text_output_escaped` writes for one character. */
  function Escaped(style: EscapeStyle, inAttribute: bool, c: char): (r: string)
    ensures !IsSpecial(inAttribute, c) ==> r == [c]
  {
    if !IsSpecial(inAttribute, c) then [c]
    else if c == '&' then "&amp;"
    else if c == '<' then "&lt;"
    else if c == '>' then "&gt;"
    else if c == '"' then if style.singleQuote then "\"" else "&quot;"
    else if c == '\'' then if style.singleQuote then "&apos;" else "'"
    else if style.skipControl then ""
    else ControlReference(c as int)
  }

  function ControlReference(code: nat): string
    requires code < 32
  {
    ['&', '#', DigitChar(code / 10), DigitChar(code % 10), ';']
  }

  function DigitChar(d: nat): (c: char)
    requires d < 10
    ensures IsDigit(c) && DigitValue(c) == d
  {
    ('0' as int + d) as char
  }

  /** `text_output`. */
  function EscapedText(style: EscapeStyle, inAttribute: bool, s: string): string {
    if s == "" then ""
    else if style.noEscapes then s
    else Escaped(style, inAttribute, s[0]) + EscapedText(style, inAttribute, s[1..])
  }

  // ------------------------------------------------------------------ reading one reference

  const WORD: nat := 0x1_0000_0000

  function DigitValue(c: char): nat
    requires IsDigit(c)
  {
    c as int - '0' as int
  }

  /** The value of a hexadecimal digit, or 16. */
  function HexValue(c: char): nat {
    if '0' <= c <= '9' then c as int - '0' as int
    else if 'a' <= c <= 'f' then c as int - 'a' as int + 10
    else if 'A' <= c <= 'F' then c as int - 'A' as int + 10
    else 16
  }

  /** A run of digits of the given base from position `i`: the code in 32 bits and where it ends. */
  function ScanCode(hex: bool, s: string, i: nat, code: nat): (r: (nat, nat))
    requires i <= |s| && code < WORD
    ensures i <= r.1 <= |s| && r.0 < WORD
    decreases |s| - i
  {
    if i == |s| then (code, i)
    else if IsDigit(s[i]) then ScanCode(hex, s, i + 1, ((if hex then 16 else 10) * code + DigitValue(s[i])) % WORD)
    else if hex && HexValue(s[i]) < 16 then ScanCode(hex, s, i + 1, (16 * code + HexValue(s[i])) % WORD)
    else (code, i)
  }

  /** What stands at the front of the text: `text` replaces the first `length` characters, or those
    characters are kept as they are. */
  datatype Unit = Unit(replaced: bool, text: string, length: nat)

  function Kept(s: string, n: nat): Unit
    requires n <= |s|
  {
    Unit(false, s[..n], n)
  }

  /** The length of the longest common prefix of `s` and `t`. */
  function CommonPrefix(s: string, t: string): (n: nat)
    ensures n <= |s| && n <= |t| && s[..n] == t[..n]
    ensures n < |s| && n < |t| ==> s[n] != t[n]
  {
    if s == "" || t == "" || s[0] != t[0] then 0
    else
      var n := CommonPrefix(s[1..], t[1..]);
      assert s[..n + 1] == [s[0]] + s[1..][..n] && t[..n + 1] == [t[0]] + t[1..][..n];
      n + 1
  }

  /** A named reference is replaced; of anything else the part that agreed with the name is kept. */
  function Named(s: string, name: string, c: char): Unit
  {
    var n := CommonPrefix(s, name);
    if n == |name| then Unit(true, [c], n) else Kept(s, n)
  }

  /** `strconv_escape` at an ampersand. */
  function Reference(s: string): (u: Unit)
    requires s != "" && s[0] == '&'
    ensures 1 <= u.length <= |s| && |u.text| <= u.length
    ensures !u.replaced ==> u.text == s[..u.length]
  {
    if |s| == 1 then Kept(s, 1)
    else if s[1] == '#' then NumericReference(s)
    else if s[1] == 'a' then
      if |s| > 2 && s[2] == 'm' then Named(s, "&amp;", '&')
      else if |s| > 2 && s[2] == 'p' then Named(s, "&apos;", '\'')
      else Kept(s, 2)
    else if s[1] == 'g' then Named(s, "&gt;", '>')
    else if s[1] == 'l' then Named(s, "&lt;", '<')
    else if s[1] == 'q' then Named(s, "&quot;", '"')
    else Kept(s, 1)
  }

  function NumericReference(s: string): (u: Unit)
    requires |s| >= 2 && s[0] == '&' && s[1] == '#'
    ensures 2 <= u.length <= |s| && |u.text| <= u.length
    ensures !u.replaced ==> u.text == s[..u.length]
  {
    var hex := |s| > 2 && s[2] == 'x';
    var first := if hex then 3 else 2;
    var (code, end) := ScanCode(hex, s, first, 0);
    if end > first && end < |s| && s[end] == ';' then Unit(true, Utf8(code), end + 1) else Kept(s, end)
  }

  // ------------------------------------------------------------------ reading text

  /** How white space is read: as it is, with line ends made into newlines, or all as blanks. */
  datatype Spacing = AsIs | Eol | Blanks

  /** `stop` ends the text: `<` for character data, the quote for an attribute value. */
  datatype Rules = Rules(stop: char, spacing: Spacing, escapes: bool)

  function LineEndLength(s: string): nat
    requires s != "" && s[0] == '\r'
  {
    if |s| > 1 && s[1] == '\n' then 2 else 1
  }

  function NextUnit(rules: Rules, s: string): (u: Unit)
    requires s != "" && s[0] != rules.stop
    ensures 1 <= u.length <= |s| && |u.text| <= u.length
    ensures !u.replaced ==> u.text == s[..u.length]
  {
    if rules.spacing == Blanks && IsSpace(s[0]) then
      Unit(true, " ", if s[0] == '\r' then LineEndLength(s) else 1)
    else if rules.spacing == Eol && s[0] == '\r' then Unit(true, "\n", LineEndLength(s))
    else if rules.escapes && s[0] == '&' then Reference(s)
    else Kept(s, 1)
  }

  /** The `strconv` functions: the text up to the stop character and what is left from there. */
  function Decode(rules: Rules, s: string): (r: (string, string))
    ensures |r.1| <= |s| && (r.1 != "" ==> r.1[0] == rules.stop)
    ensures s != "" && s[0] != rules.stop ==> |r.1| < |s|
    decreases |s|
  {
    if s == "" || s[0] == rules.stop then ("", s)
    else
      var u := NextUnit(rules, s);
      var (t, rest) := Decode(rules, s[u.length..]);
      (u.text + t, rest)
  }

  // ------------------------------------------------------------------ reading back what was written

  /** Line ends as the parser reads them. */
  function WithNewlines(s: string): string
    decreases |s|
  {
    if s == "" then ""
    else if s[0] == '\r' then "\n" + WithNewlines(s[LineEndLength(s)..])
    else [s[0]] + WithNewlines(s[1..])
  }

  lemma ControlReferenceRead(c: char, rest: string)
    requires c as int < 32
    ensures Reference(ControlReference(c as int) + rest) == Unit(true, [c], 5)
  {
    var s := ControlReference(c as int) + rest;
    var tens, ones := c as int / 10, c as int % 10;
    assert s[2] == DigitChar(tens) && s[3] == DigitChar(ones) && s[4] == ';';
    assert DigitValue(s[2]) == tens && DigitValue(s[3]) == ones;
    assert ScanCode(false, s, 4, 10 * tens + ones) == (10 * tens + ones, 4);
    assert ScanCode(false, s, 3, tens) == (10 * tens + ones, 4);
    assert ScanCode(false, s, 2, 0) == (10 * tens + ones, 4);
  }

  lemma {:induction false} CommonPrefixWhole(name: string, rest: string)
    ensures CommonPrefix(name + rest, name) == |name|
  {
    if name != "" {
      assert (name + rest)[1..] == name[1..] + rest;
      CommonPrefixWhole(name[1..], rest);
    }
  }

  /** Reading a written special character gives the character back. */
  lemma ReferenceRead(style: EscapeStyle, inAttribute: bool, c: char, rest: string)
    requires IsSpecial(inAttribute, c) && !style.skipControl && Escaped(style, inAttribute, c) != [c]
    ensures var e := Escaped(style, inAttribute, c);
            e[0] == '&' && Reference(e + rest) == Unit(true, [c], |e|)
  {
    if c == '&' { CommonPrefixWhole("&amp;", rest); }
    else if c == '<' { CommonPrefixWhole("&lt;", rest); }
    else if c == '>' { CommonPrefixWhole("&gt;", rest); }
    else if c == '"' { CommonPrefixWhole("&quot;", rest); }
    else if c == '\'' { CommonPrefixWhole("&apos;", rest); }
    else { ControlReferenceRead(c, rest); }
  }

  /** What reading a written text gives: the references resolved or left as they are written, and in
    character data line ends made into newlines if the rules say so. */
  function ReadBack(rules: Rules, style: EscapeStyle, inAttribute: bool, v: string): string
    decreases |v|
  {
    if v == "" then ""
    else if !inAttribute && rules.spacing == Eol && v[0] == '\r' then
      "\n" + ReadBack(rules, style, inAttribute, v[LineEndLength(v)..])
    else
      (if rules.escapes then [v[0]] else Escaped(style, inAttribute, v[0]))
        + ReadBack(rules, style, inAttribute, v[1..])
  }

  predicate Faithful(style: EscapeStyle) {
    !style.skipControl && !style.noEscapes
  }

  /** The quote around an attribute value is the one its text escapes; character data ends at `<`. */
  predicate FitsStyle(rules: Rules, style: EscapeStyle, inAttribute: bool) {
    if inAttribute then rules.stop == if style.singleQuote then '\'' else '"'
    else rules.stop == '<' && !rules.spacing.Blanks?
  }

  lemma EscapedPlain(rules: Rules, style: EscapeStyle, inAttribute: bool, c: char)
    requires Faithful(style) && FitsStyle(rules, style, inAttribute)
    ensures var e := Escaped(style, inAttribute, c);
            && e != ""
            && (e == [c] ==> c != rules.stop && c != '&' && (inAttribute && IsSpace(c) ==> c == ' '))
            && (e != [c] ==> forall i | 0 <= i < |e| :: e[i] != rules.stop && !IsSpace(e[i]))
  {
  }

  lemma DecodeKept(rules: Rules, c: char, rest: string)
    requires c != rules.stop && !IsSpace(c) && !(rules.escapes && c == '&')
    ensures Decode(rules, [c] + rest) == ([c] + Decode(rules, rest).0, Decode(rules, rest).1)
  {
    assert ([c] + rest)[1..] == rest && ([c] + rest)[..1] == [c];
  }

  /** Characters that no rule touches are read one by one. */
  lemma {:induction false} DecodePlain(rules: Rules, e: string, rest: string)
    requires !rules.escapes && forall i | 0 <= i < |e| :: e[i] != rules.stop && !IsSpace(e[i])
    ensures Decode(rules, e + rest) == (e + Decode(rules, rest).0, Decode(rules, rest).1)
  {
    hide Decode;
    if e == "" {
      assert e + rest == rest;
      assert e + Decode(rules, rest).0 == Decode(rules, rest).0;
    } else {
      assert e + rest == [e[0]] + (e[1..] + rest);
      DecodeKept(rules, e[0], e[1..] + rest);
      DecodePlain(rules, e[1..], rest);
      assert [e[0]] + (e[1..] + Decode(rules, rest).0) == e + Decode(rules, rest).0;
    }
  }

  /** One written character at the front of the text. */
  lemma DecodeOne(rules: Rules, style: EscapeStyle, inAttribute: bool, c: char, rest: string)
    requires Faithful(style) && FitsStyle(rules, style, inAttribute)
    requires !(!inAttribute && rules.spacing == Eol && c == '\r')
    ensures var t := if rules.escapes then [c] else Escaped(style, inAttribute, c);
            Decode(rules, Escaped(style, inAttribute, c) + rest) == (t + Decode(rules, rest).0, Decode(rules, rest).1)
  {
    var e := Escaped(style, inAttribute, c);
    EscapedPlain(rules, style, inAttribute, c);
    if e == [c] {
      assert (e + rest)[1..] == rest && (e + rest)[..1] == [c];
      assert NextUnit(rules, e + rest) == Unit(rules.spacing == Blanks && IsSpace(c), [c], 1);
    } else if rules.escapes {
      ReferenceRead(style, inAttribute, c, rest);
      assert (e + rest)[|e|..] == rest;
    } else {
      DecodePlain(rules, e, rest);
    }
  }

  lemma EscapedFirst(style: EscapeStyle, inAttribute: bool, v: string)
    requires Faithful(style) && v != ""
    ensures var t := EscapedText(style, inAttribute, v);
            t != "" && (!inAttribute ==> (t[0] == '\n' <==> v[0] == '\n'))
  {
    assert Escaped(style, inAttribute, v[0]) != "";
  }

  lemma EscapedTextStep(style: EscapeStyle, inAttribute: bool, v: string)
    requires !style.noEscapes && v != ""
    ensures EscapedText(style, inAttribute, v)
            == Escaped(style, inAttribute, v[0]) + EscapedText(style, inAttribute, v[1..])
  {
  }

  /** A line end at the front of written character data. */
  lemma LineEndWritten(style: EscapeStyle, v: string, rest: string)
    requires Faithful(style) && v != "" && v[0] == '\r' && (rest != "" ==> rest[0] == '<')
    ensures var t := EscapedText(style, false, v) + rest;
            && t != "" && t[0] == '\r'
            && LineEndLength(t) == LineEndLength(v)
            && t[LineEndLength(v)..] == EscapedText(style, false, v[LineEndLength(v)..]) + rest
  {
    hide EscapedText;
    var t := EscapedText(style, false, v) + rest;
    EscapedTextStep(style, false, v);
    var tail := EscapedText(style, false, v[1..]) + rest;
    assert t == "\r" + tail;
    if |v| > 1 {
      EscapedFirst(style, false, v[1..]);
      if v[1] == '\n' {
        EscapedTextStep(style, false, v[1..]);
        assert v[1..][1..] == v[2..];
        assert tail == "\n" + (EscapedText(style, false, v[2..]) + rest);
      }
    } else {
      EscapedEmpty(style, false);
      assert tail == rest;
    }
  }

  lemma EscapedEmpty(style: EscapeStyle, inAttribute: bool)
    ensures EscapedText(style, inAttribute, "") == ""
  {
  }

  lemma {:induction false} EscapedJoined(style: EscapeStyle, inAttribute: bool, v: string, w: string)
    ensures EscapedText(style, inAttribute, v + w)
            == EscapedText(style, inAttribute, v) + EscapedText(style, inAttribute, w)
  {
    if !style.noEscapes {
      hide EscapedText, Escaped;
      if v == "" {
        assert v + w == w;
        EscapedEmpty(style, inAttribute);
        assert "" + EscapedText(style, inAttribute, w) == EscapedText(style, inAttribute, w);
      } else {
        EscapedTextStep(style, inAttribute, v);
        EscapedTextStep(style, inAttribute, v + w);
        assert (v + w)[1..] == v[1..] + w;
        EscapedJoined(style, inAttribute, v[1..], w);
        Regroup(Escaped(style, inAttribute, v[0]), EscapedText(style, inAttribute, v[1..]),
            EscapedText(style, inAttribute, w));
      }
    }
  }

  lemma DecodeLineEnd(rules: Rules, s: string)
    requires rules.spacing == Eol && s != "" && s[0] == '\r' && rules.stop != '\r'
    ensures Decode(rules, s)
            == ("\n" + Decode(rules, s[LineEndLength(s)..]).0, Decode(rules, s[LineEndLength(s)..]).1)
  {
    assert NextUnit(rules, s) == Unit(true, "\n", LineEndLength(s));
  }

  lemma ReadBackStep(rules: Rules, style: EscapeStyle, inAttribute: bool, v: string)
    requires v != ""
    ensures ReadBack(rules, style, inAttribute, v)
            == if !inAttribute && rules.spacing == Eol && v[0] == '\r' then
                 "\n" + ReadBack(rules, style, inAttribute, v[LineEndLength(v)..])
               else
                 (if rules.escapes then [v[0]] else Escaped(style, inAttribute, v[0]))
                   + ReadBack(rules, style, inAttribute, v[1..])
  {
  }

  lemma DecodeFront(rules: Rules, style: EscapeStyle, inAttribute: bool, v: string, rest: string)
    requires Faithful(style) && FitsStyle(rules, style, inAttribute) && v != ""
    requires !(!inAttribute && rules.spacing == Eol && v[0] == '\r')
    ensures var t := if rules.escapes then [v[0]] else Escaped(style, inAttribute, v[0]);
            var tail := Decode(rules, EscapedText(style, inAttribute, v[1..]) + rest);
            Decode(rules, EscapedText(style, inAttribute, v) + rest) == (t + tail.0, tail.1)
  {
    hide EscapedText, Escaped, NextUnit, Reference, Decode;
    var tail := EscapedText(style, inAttribute, v[1..]) + rest;
    EscapedTextStep(style, inAttribute, v);
    assert EscapedText(style, inAttribute, v) + rest == Escaped(style, inAttribute, v[0]) + tail;
    DecodeOne(rules, style, inAttribute, v[0], tail);
  }

  /** Decoding undoes escaping: a written text is read back up to its stop character. */
  lemma {:induction false} DecodeEscaped(rules: Rules, style: EscapeStyle, inAttribute: bool, v: string, rest: string)
    requires Faithful(style) && FitsStyle(rules, style, inAttribute)
    requires if rest == "" then !inAttribute else rest[0] == rules.stop
    ensures Decode(rules, EscapedText(style, inAttribute, v) + rest) == (ReadBack(rules, style, inAttribute, v), rest)
    decreases |v|
  {
    if v == "" {
      assert EscapedText(style, inAttribute, v) + rest == rest;
    } else {
      hide EscapedText, Escaped, NextUnit, Reference, ReadBack, Decode;
      ReadBackStep(rules, style, inAttribute, v);
      if !inAttribute && rules.spacing == Eol && v[0] == '\r' {
        LineEndWritten(style, v, rest);
        DecodeLineEnd(rules, EscapedText(style, inAttribute, v) + rest);
        DecodeEscaped(rules, style, inAttribute, v[LineEndLength(v)..], rest);
      } else {
        DecodeFront(rules, style, inAttribute, v, rest);
        DecodeEscaped(rules, style, inAttribute, v[1..], rest);
      }
    }
  }

  /** With references resolved the value comes back: exactly in an attribute, and in character data
    with line ends as the rules ask. */
  lemma {:induction false} ReadBackResolved(rules: Rules, style: EscapeStyle, inAttribute: bool, v: string)
    requires rules.escapes
    ensures ReadBack(rules, style, inAttribute, v)
            == if !inAttribute && rules.spacing == Eol then WithNewlines(v) else v
    decreases |v|
  {
    if v == "" {
    } else if !inAttribute && rules.spacing == Eol && v[0] == '\r' {
      ReadBackResolved(rules, style, inAttribute, v[LineEndLength(v)..]);
    } else {
      ReadBackResolved(rules, style, inAttribute, v[1..]);
    }
  }

  /** The characters of `v` that are not written as they are. */
  predicate Plain(style: EscapeStyle, inAttribute: bool, v: string) {
    forall i | 0 <= i < |v| :: Escaped(style, inAttribute, v[i]) == [v[i]]
  }

  lemma {:induction false} EscapedLonger(style: EscapeStyle, inAttribute: bool, v: string)
    requires Faithful(style)
    ensures |EscapedText(style, inAttribute, v)| >= |v|
    ensures EscapedText(style, inAttribute, v) == v <==> Plain(style, inAttribute, v)
  {
    if v != "" {
      hide EscapedText, Escaped;
      EscapedTextStep(style, inAttribute, v);
      EscapedLonger(style, inAttribute, v[1..]);
      EscapedNotEmpty(style, inAttribute, v[0]);
      PlainStep(style, inAttribute, v);
      var e, tail := Escaped(style, inAttribute, v[0]), EscapedText(style, inAttribute, v[1..]);
      assert v == [v[0]] + v[1..];
      if e == [v[0]] { assert (e + tail)[1..] == tail; }
    } else {
      EscapedEmpty(style, inAttribute);
    }
  }

  lemma EscapedNotEmpty(style: EscapeStyle, inAttribute: bool, c: char)
    requires Faithful(style)
    ensures var e := Escaped(style, inAttribute, c); e != "" && (|e| == 1 ==> e == [c])
  {
  }

  lemma PlainStep(style: EscapeStyle, inAttribute: bool, v: string)
    requires v != ""
    ensures Plain(style, inAttribute, v)
            <==> Escaped(style, inAttribute, v[0]) == [v[0]] && Plain(style, inAttribute, v[1..])
  {
    hide Escaped;
    if Escaped(style, inAttribute, v[0]) == [v[0]] && Plain(style, inAttribute, v[1..]) {
      forall i | 0 <= i < |v| ensures Escaped(style, inAttribute, v[i]) == [v[i]] {
        if i > 0 { assert v[i] == v[1..][i - 1]; }
      }
    }
  }

  /** A run of characters without a carriage return stays as it is. */
  lemma {:induction false} NewlinesAfter(e: string, t: string)
    requires '\r' !in e
    ensures WithNewlines(e + t) == e + WithNewlines(t)
  {
    if e == "" {
      assert e + t == t;
    } else {
      assert e[0] in e;
      assert (e + t)[1..] == e[1..] + t;
      NewlinesAfter(e[1..], t);
    }
  }

  lemma EscapedNoReturn(style: EscapeStyle, c: char)
    requires c != '\r'
    ensures '\r' !in Escaped(style, false, c)
  {
  }

  lemma {:induction false} NoReturnReadBack(rules: Rules, style: EscapeStyle, v: string)
    requires !rules.escapes && rules.spacing.Eol?
    ensures '\r' !in ReadBack(rules, style, false, v)
    decreases |v|
  {
    if v != "" {
      hide ReadBack, Escaped;
      ReadBackStep(rules, style, false, v);
      if v[0] == '\r' {
        NoReturnReadBack(rules, style, v[LineEndLength(v)..]);
      } else {
        EscapedNoReturn(style, v[0]);
        NoReturnReadBack(rules, style, v[1..]);
      }
    }
  }

  /** Without resolving references the written text itself comes back, with line ends converted if
    the rules ask for it. */
  lemma {:induction false} WrittenTextReadBack(rules: Rules, style: EscapeStyle, inAttribute: bool, v: string)
    requires !rules.escapes && Faithful(style)
    ensures var t := EscapedText(style, inAttribute, v);
            ReadBack(rules, style, inAttribute, v) == if !inAttribute && rules.spacing.Eol? then WithNewlines(t) else t
    decreases |v|
  {
    hide EscapedText, Escaped, ReadBack;
    if v == "" {
      EscapedEmpty(style, inAttribute);
      assert ReadBack(rules, style, inAttribute, v) == "" by { ReadBackEmpty(rules, style, inAttribute); }
    } else {
      ReadBackStep(rules, style, inAttribute, v);
      EscapedTextStep(style, inAttribute, v);
      if !inAttribute && rules.spacing.Eol? && v[0] == '\r' {
        LineEndWritten(style, v, "");
        var t, rest := EscapedText(style, false, v), EscapedText(style, false, v[LineEndLength(v)..]);
        assert t + "" == t && rest + "" == rest;
        WrittenTextReadBack(rules, style, inAttribute, v[LineEndLength(v)..]);
      } else {
        WrittenTextReadBack(rules, style, inAttribute, v[1..]);
        if !inAttribute && rules.spacing.Eol? {
          EscapedNoReturn(style, v[0]);
          NewlinesAfter(Escaped(style, inAttribute, v[0]), EscapedText(style, inAttribute, v[1..]));
        }
      }
    }
  }

  lemma ReadBackEmpty(rules: Rules, style: EscapeStyle, inAttribute: bool)
    ensures ReadBack(rules, style, inAttribute, "") == ""
  {
  }

  lemma {:induction false} NoReturnToConvert(t: string)
    requires '\r' !in t
    ensures WithNewlines(t) == t
  {
    NewlinesAfter(t, "");
    assert t + "" == t;
  }

  /** What comes back is the value exactly if nothing in it was escaped and it holds no carriage
    return that is converted. */
  lemma ReadBackUnresolved(rules: Rules, style: EscapeStyle, inAttribute: bool, v: string)
    requires !rules.escapes && Faithful(style)
    ensures var t := EscapedText(style, inAttribute, v);
            ReadBack(rules, style, inAttribute, v) == if !inAttribute && rules.spacing.Eol? then WithNewlines(t) else t
    ensures ReadBack(rules, style, inAttribute, v) == v
            <==> Plain(style, inAttribute, v) && (!inAttribute && rules.spacing.Eol? ==> '\r' !in v)
  {
    hide EscapedText, Escaped, ReadBack, Plain, WithNewlines;
    WrittenTextReadBack(rules, style, inAttribute, v);
    EscapedLonger(style, inAttribute, v);
    if !inAttribute && rules.spacing.Eol? {
      NoReturnReadBack(rules, style, v);
      if '\r' !in v {
        NoReturnEscaped(style, v);
        NoReturnToConvert(EscapedText(style, inAttribute, v));
      }
    }
  }

  lemma {:induction false} NoReturnEscaped(style: EscapeStyle, v: string)
    requires '\r' !in v && !style.noEscapes
    ensures '\r' !in EscapedText(style, false, v)
  {
    hide EscapedText, Escaped;
    if v == "" {
      EscapedEmpty(style, false);
    } else {
      EscapedTextStep(style, false, v);
      assert v[0] in v;
      EscapedNoReturn(style, v[0]);
      NoReturnEscaped(style, v[1..]);
    }
  }
}
