/** Character classes of the XML parser and printer, and the UTF-8 form of a code point.

  Text is a sequence of bytes written as characters; bytes from 128 on belong to longer UTF-8
  sequences and count as symbols. A C string ends at its first NUL. */
module Characters {

  predicate IsSpace(c: char) {
    c == ' ' || c == '\t' || c == '\n' || c == '\r'
  }

  predicate IsLetter(c: char) {
    'a' <= c <= 'z' || 'A' <= c <= 'Z' || c == '_' || c == ':' || c as int >= 128
  }

  predicate IsStartSymbol(c: char) {
    IsLetter(c)
  }

  predicate IsDigit(c: char) {
    '0' <= c <= '9'
  }

  predicate IsSymbol(c: char) {
    IsLetter(c) || IsDigit(c) || c == '-' || c == '.'
  }

  /** The characters the printer cannot write as they are, in text and in attribute values. */
  predicate IsSpecial(inAttribute: bool, c: char) {
    if inAttribute then c as int < 32 || c == '&' || c == '<' || c == '"' || c == '\''
    else (c as int < 32 && c != '\t' && c != '\n' && c != '\r') || c == '&' || c == '<' || c == '>'
  }

  predicate AllSymbols(s: string) {
    forall i | 0 <= i < |s| :: IsSymbol(s[i])
  }

  predicate AllSpaces(s: string) {
    forall i | 0 <= i < |s| :: IsSpace(s[i])
  }

  /** What can be written as the name of an element or an attribute. */
  predicate IsName(s: string) {
    s != "" && IsStartSymbol(s[0]) && AllSymbols(s)
  }

  /** The part of `s` before the first NUL. */
  function CString(s: string): (r: string)
    ensures '\0' !in r && r <= s
    ensures r == s <==> '\0' !in s
  {
    if s == "" || s[0] == '\0' then "" else [s[0]] + CString(s[1..])
  }

  /** The number of leading white space characters of `s`. */
  function Spaces(s: string): (n: nat)
    ensures n <= |s| && AllSpaces(s[..n]) && (n < |s| ==> !IsSpace(s[n]))
  {
    if s == "" || !IsSpace(s[0]) then 0
    else
      assert s[..Spaces(s[1..]) + 1] == [s[0]] + s[1..][..Spaces(s[1..])];
      Spaces(s[1..]) + 1
  }

  function Symbols(s: string): (n: nat)
    ensures n <= |s| && AllSymbols(s[..n]) && (n < |s| ==> !IsSymbol(s[n]))
  {
    if s == "" || !IsSymbol(s[0]) then 0
    else
      assert s[..Symbols(s[1..]) + 1] == [s[0]] + s[1..][..Symbols(s[1..])];
      Symbols(s[1..]) + 1
  }

  /** The first place where `mark` stands in `s`, or the end of `s`. */
  function Find(s: string, mark: string): (n: nat)
    requires mark != ""
    ensures n <= |s| && (n < |s| ==> mark <= s[n..] && n + |mark| <= |s|)
    ensures forall i | 0 <= i < n :: !(mark <= s[i..])
  {
    if s == "" || mark <= s then 0
    else
      var n := Find(s[1..], mark) + 1;
      assert n < |s| ==> s[1..][n - 1..] == s[n..];
      assert forall i | 0 < i < n :: s[1..][i - 1..] == s[i..];
      n
  }

  lemma {:induction false} SpacesThen(s: string, t: string)
    requires AllSpaces(s) && (t != "" ==> !IsSpace(t[0]))
    ensures Spaces(s + t) == |s|
  {
    if s == "" { assert s + t == t; } else { assert (s + t)[1..] == s[1..] + t; SpacesThen(s[1..], t); }
  }

  lemma {:induction false} SymbolsThen(s: string, t: string)
    requires AllSymbols(s) && (t != "" ==> !IsSymbol(t[0]))
    ensures Symbols(s + t) == |s|
  {
    if s == "" { assert s + t == t; } else { assert (s + t)[1..] == s[1..] + t; SymbolsThen(s[1..], t); }
  }

  lemma Regroup(a: string, b: string, c: string)
    ensures a + (b + c) == (a + b) + c
  {
  }

  // ------------------------------------------------------------------ UTF-8

  function Low6(code: nat): char {
    (0x80 + code % 0x40) as char
  }

  /** `utf8_writer::any`, including what it does to codes beyond the last code point. */
  function Utf8(code: nat): (r: string)
    ensures 1 <= |r| <= 4 && (forall i | 0 <= i < |r| :: r[i] as int < 256)
    ensures code < 0x80 ==> r == [code as char]
  {
    if code < 0x80 then [code as char]
    else if code < 0x800 then [(0xC0 + code / 0x40) as char, Low6(code)]
    else if code < 0x10000 then [(0xE0 + code / 0x1000) as char, Low6(code / 0x40), Low6(code)]
    else [(0xF0 + code / 0x40000 % 0x10) as char, Low6(code / 0x1000), Low6(code / 0x40), Low6(code)]
  }
}
