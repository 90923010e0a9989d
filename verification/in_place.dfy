/** Converting text inside the buffer it was read from: the gap and the `strconv` functions.

  A converted text is never longer than its source, so it is written over it; a gap remembers how far
  the write position has fallen behind. Each method is proved against the pure functions of module
  `Escapes`: it leaves exactly the decoded text where the source text began, and it touches nothing
  before that place and nothing it has not yet read. */
module InPlace {
  import opened Characters
  import opened Escapes

  lemma {:induction false} CStringIs(q: string, n: nat)
    requires n < |q| && q[n] == '\0' && forall k | 0 <= k < n :: q[k] != '\0'
    ensures CString(q) == q[..n]
  {
    if n > 0 { CStringIs(q[1..], n - 1); assert q[..n] == [q[0]] + q[1..][..n - 1]; }
  }

  // ------------------------------------------------------------------ the gap

  /** `memmove` towards the front. */
  method Move(a: array<char>, to: nat, from: nat, n: nat)
    requires to <= from && from + n <= a.Length
    modifies a
    ensures a[to..to + n] == old(a[from..from + n])
    ensures forall i | 0 <= i < a.Length && !(to <= i < to + n) :: a[i] == old(a[i])
  {
    for k := 0 to n
      invariant forall i | to <= i < to + k :: a[i] == old(a[i - to + from])
      invariant forall i | 0 <= i < a.Length && !(to <= i < to + k) :: a[i] == old(a[i])
    {
      a[to + k] := a[from + k];
    }
  }

  class Gap {
    var isOpen: bool
    var end: nat
    var size: nat

    constructor ()
      ensures !isOpen && size == 0
    {
      isOpen, end, size := false, 0, 0;
    }

    ghost predicate Valid(a: array<char>, begin: nat, s: nat)
      reads this
    {
      begin <= s <= a.Length && if isOpen then begin + size <= end <= s else size == 0
    }

    /** The text kept between `begin` and the read position `s`, with the gap left out. */
    ghost function Kept(a: array<char>, begin: nat, s: nat): string
      requires Valid(a, begin, s)
      reads this, a
    {
      if isOpen then a[begin..end - size] + a[end..s] else a[begin..s]
    }

    /** `push`: leave out the next `count` characters, closing up what was kept before them. */
    method Push(a: array<char>, ghost begin: nat, s: nat, count: nat) returns (next: nat)
      requires Valid(a, begin, s) && s + count <= a.Length
      modifies this, a
      ensures next == s + count && Valid(a, begin, next)
      ensures Kept(a, begin, next) == old(Kept(a, begin, s))
      ensures forall i | 0 <= i < a.Length && !(begin <= i < s) :: a[i] == old(a[i])
    {
      if isOpen {
        Move(a, end - size, end, s - end);
        assert a[begin..s - size] == old(a[begin..end - size]) + old(a[end..s]);
      }
      next := s + count;
      end, size, isOpen := next, size + count, true;
    }

    /** `flush`: close the gap and return where the kept text ends. */
    method Flush(a: array<char>, ghost begin: nat, s: nat) returns (t: nat)
      requires Valid(a, begin, s)
      modifies a
      ensures begin <= t <= s && a[begin..t] == old(Kept(a, begin, s))
      ensures forall i | 0 <= i < a.Length && !(begin <= i < s) :: a[i] == old(a[i])
    {
      t := s;
      if isOpen {
        Move(a, end - size, end, s - end);
        t := s - size;
        assert a[begin..t] == old(a[begin..end - size]) + old(a[end..s]);
      }
    }

    /** Writing a character over the next one to be read keeps it. */
    method Put(a: array<char>, ghost begin: nat, s: nat, c: char) returns (next: nat)
      requires Valid(a, begin, s) && s < a.Length
      modifies a
      ensures next == s + 1 && Valid(a, begin, next)
      ensures Kept(a, begin, next) == old(Kept(a, begin, s)) + [c]
      ensures forall i | 0 <= i < a.Length && i != s :: a[i] == old(a[i])
    {
      ghost var kept := Kept(a, begin, s);
      a[s] := c;
      next := s + 1;
      assert Kept(a, begin, next) == kept + [c];
    }
  }

  // ------------------------------------------------------------------ one reference

  /** Writing the bytes of a code point. */
  method PutAll(a: array<char>, g: Gap, ghost begin: nat, s: nat, t: string) returns (next: nat)
    requires g.Valid(a, begin, s) && s + |t| <= a.Length
    modifies a
    ensures next == s + |t| && g.Valid(a, begin, next)
    ensures g.Kept(a, begin, next) == old(g.Kept(a, begin, s)) + t
    ensures forall i | 0 <= i < a.Length && !(s <= i < next) :: a[i] == old(a[i])
  {
    next := s;
    ghost var kept := g.Kept(a, begin, s);
    for k := 0 to |t|
      invariant next == s + k && g.Valid(a, begin, next)
      invariant g.Kept(a, begin, next) == kept + t[..k]
      invariant forall i | 0 <= i < a.Length && !(s <= i < next) :: a[i] == old(a[i])
    {
      assert t[..k + 1] == t[..k] + [t[k]];
      next := g.Put(a, begin, next, t[k]);
    }
    assert t[..|t|] == t;
  }

  /** Skipping over characters that stay as they are keeps them. */
  method PassOver(a: array<char>, g: Gap, ghost begin: nat, s: nat, n: nat) returns (next: nat)
    requires g.Valid(a, begin, s) && s + n <= a.Length
    ensures next == s + n && g.Valid(a, begin, next)
    ensures g.Kept(a, begin, next) == g.Kept(a, begin, s) + a[s..s + n]
  {
    next := s + n;
    if g.isOpen {
      SliceSplit(a[..], g.end, s, next);
      Regroup(a[begin..g.end - g.size], a[g.end..s], a[s..next]);
      assert a[..][g.end..next] == a[g.end..next] && a[..][g.end..s] == a[g.end..s] && a[..][s..next] == a[s..next];
    } else {
      SliceSplit(a[..], begin, s, next);
      assert a[..][begin..next] == a[begin..next] && a[..][begin..s] == a[begin..s] && a[..][s..next] == a[s..next];
    }
  }

  lemma SliceSplit(b: string, i: nat, j: nat, k: nat)
    requires i <= j <= k <= |b|
    ensures b[i..k] == b[i..j] + b[j..k]
  {
  }

  /** The text that starts at `s` is `t`, with its terminator. */
  ghost predicate Reads(a: array<char>, s: nat, t: string)
    reads a
  {
    s + |t| < a.Length && a[s + |t|] == '\0' && '\0' !in t && forall k | 0 <= k < |t| :: a[s + k] == t[k]
  }

  lemma CharAt(a: array<char>, s: nat, t: string, k: nat)
    requires Reads(a, s, t) && k <= |t|
    ensures s + |t| < a.Length && a[s + k] == if k < |t| then t[k] else '\0'
    ensures k < |t| ==> t[k] != '\0'
  {
  }

  /** The run of digits of a numeric reference. */
  method ReadCode(a: array<char>, hex: bool, from: nat, ghost t: string, ghost s: nat) returns (code: nat, end: nat)
    requires Reads(a, s, t) && s <= from <= s + |t|
    ensures s <= end && (code, end - s) == ScanCode(hex, t, from - s, 0)
  {
    code, end := 0, from;
    while true
      invariant from <= end <= s + |t| && code < WORD
      invariant ScanCode(hex, t, end - s, code) == ScanCode(hex, t, from - s, 0)
      decreases s + |t| - end
    {
      var ch := a[end];
      assert end < s + |t| ==> ch == t[end - s];
      if IsDigit(ch) {
        code := ((if hex then 16 else 10) * code + DigitValue(ch)) % WORD;
      } else if hex && HexValue(ch) < 16 {
        code := (16 * code + HexValue(ch)) % WORD;
      } else {
        return;
      }
      end := end + 1;
    }
  }

  /** A named reference: as many characters as agree with the name. */
  method ReadName(a: array<char>, s: nat, name: string, ghost t: string) returns (n: nat)
    requires Reads(a, s, t) && '\0' !in name
    ensures n == CommonPrefix(t, name)
  {
    n := 0;
    while n < |name| && a[s + n] == name[n]
      invariant n <= |name| && n <= |t| && t[..n] == name[..n]
    {
      assert name[n] in name;
      assert t[..n + 1] == t[..n] + [t[n]] && name[..n + 1] == name[..n] + [name[n]];
      n := n + 1;
    }
    CommonPrefixIs(t, name, n);
  }

  lemma {:induction false} CommonPrefixIs(s: string, t: string, n: nat)
    requires n <= |s| && n <= |t| && s[..n] == t[..n]
    requires n < |s| && n < |t| ==> s[n] != t[n]
    ensures CommonPrefix(s, t) == n
  {
    if n > 0 {
      assert s[0] == s[..n][0] && t[0] == t[..n][0];
      assert s[1..][..n - 1] == s[..n][1..] && t[1..][..n - 1] == t[..n][1..];
      CommonPrefixIs(s[1..], t[1..], n - 1);
    }
  }

  /** Which name a reference can only be, by its first letters, and how many of them were looked at. */
  method ChooseName(a: array<char>, s: nat, ghost t: string) returns (name: string, c: char, n: nat)
    requires Reads(a, s, t)
    requires t != "" && t[0] == '&' && (|t| > 1 ==> t[1] != '#')
    ensures 1 <= n <= |t| && '\0' !in name && (name != "" ==> |name| >= 4)
    ensures Reference(t) == if name == "" then Kept(t, n) else Named(t, name, c)
  {
    hide CommonPrefix;
    name, c, n := "", '\0', 1;
    if a[s + 1] == 'a' {
      n := 2;
      if a[s + 2] == 'm' { name, c := "&amp;", '&'; } else if a[s + 2] == 'p' { name, c := "&apos;", '\''; }
    } else if a[s + 1] == 'g' {
      name, c := "&gt;", '>';
    } else if a[s + 1] == 'l' {
      name, c := "&lt;", '<';
    } else if a[s + 1] == 'q' {
      name, c := "&quot;", '"';
    }
  }

  /** Putting a replacement over the first of `n` characters and leaving the others out. */
  method Replace(a: array<char>, g: Gap, ghost begin: nat, s: nat, n: nat, text: string) returns (next: nat)
    requires g.Valid(a, begin, s) && |text| <= n && s + n <= a.Length
    modifies a, g
    ensures next == s + n && g.Valid(a, begin, next)
    ensures g.Kept(a, begin, next) == old(g.Kept(a, begin, s)) + text
    ensures begin <= s && forall i | 0 <= i < a.Length && !(begin <= i < next) :: a[i] == old(a[i])
  {
    assert begin <= s;
    hide Gap.Kept, Gap.Valid;
    var after := PutAll(a, g, begin, s, text);
    next := g.Push(a, begin, after, s + n - after);
  }

  /** Keeping the first `n` characters of the text as they are. */
  method Keep(a: array<char>, g: Gap, ghost begin: nat, s: nat, ghost t: string, n: nat) returns (next: nat)
    requires g.Valid(a, begin, s) && Reads(a, s, t) && n <= |t|
    ensures next == s + n && g.Valid(a, begin, next)
    ensures g.Kept(a, begin, next) == g.Kept(a, begin, s) + t[..n]
  {
    next := PassOver(a, g, begin, s, n);
    assert a[s..next] == t[..n];
  }

  /** Going on past `n` characters, with `text` in their place or as they are. */
  method Take(a: array<char>, g: Gap, ghost begin: nat, s: nat, ghost t: string, replaced: bool, text: string, n: nat)
    returns (next: nat)
    requires g.Valid(a, begin, s) && Reads(a, s, t) && n <= |t| && (replaced ==> |text| <= n)
    modifies a, g
    ensures next == s + n && g.Valid(a, begin, next)
    ensures g.Kept(a, begin, next) == old(g.Kept(a, begin, s)) + if replaced then text else t[..n]
    ensures begin <= s && forall i | 0 <= i < a.Length && !(begin <= i < next) :: a[i] == old(a[i])
  {
    assert begin <= s && s + |t| < a.Length;
    hide Gap.Kept, Gap.Valid, Reads;
    if replaced {
      next := Replace(a, g, begin, s, n, text);
    } else {
      next := Keep(a, g, begin, s, t, n);
    }
  }

  /** `strconv_escape` at an ampersand. */
  method ConvertReference(a: array<char>, g: Gap, ghost begin: nat, s: nat, ghost t: string) returns (next: nat)
    requires g.Valid(a, begin, s) && Reads(a, s, t)
    requires t != "" && t[0] == '&'
    modifies a, g
    ensures next == s + Reference(t).length && g.Valid(a, begin, next)
    ensures g.Kept(a, begin, next) == old(g.Kept(a, begin, s)) + Reference(t).text
    ensures begin <= s && forall i | 0 <= i < a.Length && !(begin <= i < next) :: a[i] == old(a[i])
  {
    assert begin <= s;
    assert |t| > 1 && t[1] == '#' ==> Reference(t) == NumericReference(t);
    CharAt(a, s, t, 1);
    hide Reference, Gap.Kept, Gap.Valid, NumericReference, Reads;
    if a[s + 1] == '#' {
      next := ConvertNumeric(a, g, begin, s, t);
    } else {
      next := ConvertNamed(a, g, begin, s, t);
    }
  }

  /** Whether a name stands there, what it stands for, and how many characters to go past. */
  method MatchName(a: array<char>, s: nat, ghost t: string) returns (replaced: bool, c: char, n: nat)
    requires Reads(a, s, t) && t != "" && t[0] == '&' && (|t| > 1 ==> t[1] != '#')
    ensures n <= |t| && (replaced ==> n >= 4)
    ensures Reference(t) == if replaced then Unit(true, [c], n) else Unit(false, t[..n], n)
  {
    hide Reference, CommonPrefix, Named, Escapes.Kept, Reads;
    var name;
    name, c, n := ChooseName(a, s, t);
    replaced := false;
    if name != "" {
      n := ReadName(a, s, name, t);
      replaced := n == |name|;
    }
    NamedIs(t, name, c, n, replaced);
  }

  method ConvertNamed(a: array<char>, g: Gap, ghost begin: nat, s: nat, ghost t: string) returns (next: nat)
    requires g.Valid(a, begin, s) && Reads(a, s, t)
    requires t != "" && t[0] == '&' && (|t| > 1 ==> t[1] != '#')
    modifies a, g
    ensures next == s + Reference(t).length && g.Valid(a, begin, next)
    ensures g.Kept(a, begin, next) == old(g.Kept(a, begin, s)) + Reference(t).text
    ensures begin <= s && forall i | 0 <= i < a.Length && !(begin <= i < next) :: a[i] == old(a[i])
  {
    hide Reference, Gap.Kept, Gap.Valid, Reads;
    var replaced, c, n := MatchName(a, s, t);
    next := Take(a, g, begin, s, t, replaced, [c], n);
  }

  lemma NamedIs(t: string, name: string, c: char, n: nat, replaced: bool)
    requires n <= |t| && (name != "" ==> |name| >= 4 && n == CommonPrefix(t, name))
             && replaced == (name != "" && n == |name|)
    ensures (if name == "" then Kept(t, n) else Named(t, name, c))
            == if replaced then Unit(true, [c], n) else Unit(false, t[..n], n)
    ensures replaced ==> n >= 4
  {
    hide CommonPrefix;
  }

  method ConvertNumeric(a: array<char>, g: Gap, ghost begin: nat, s: nat, ghost t: string) returns (next: nat)
    requires g.Valid(a, begin, s) && Reads(a, s, t)
    requires |t| >= 2 && t[0] == '&' && t[1] == '#'
    modifies a, g
    ensures var u := NumericReference(t);
            && next == s + u.length && g.Valid(a, begin, next)
            && g.Kept(a, begin, next) == old(g.Kept(a, begin, s)) + u.text
    ensures begin <= s && forall i | 0 <= i < a.Length && !(begin <= i < next) :: a[i] == old(a[i])
  {
    assert begin <= s;
    hide Utf8, ScanCode, Gap.Kept, Gap.Valid, Reads;
    CharAt(a, s, t, 2);
    var hex := a[s + 2] == 'x';
    var first := s + if hex then 3 else 2;
    var code, end := ReadCode(a, hex, first, t, s);
    ScanWithin(hex, t, first - s);
    CharAt(a, s, t, end - s);
    var closed := end > first && a[end] == ';';
    NumericIs(t, hex, code, end - s, closed);
    hide NumericReference;
    next := Take(a, g, begin, s, t, closed, Utf8(code), end - s + if closed then 1 else 0);
  }

  lemma ScanWithin(hex: bool, t: string, first: nat)
    requires first <= |t|
    ensures first <= ScanCode(hex, t, first, 0).1 <= |t|
  {
  }

  lemma NumericIs(t: string, hex: bool, code: nat, end: nat, closed: bool)
    requires |t| >= 2 && t[0] == '&' && t[1] == '#' && hex == (|t| > 2 && t[2] == 'x')
    requires var first := if hex then 3 else 2;
             && end <= |t| && (code, end) == ScanCode(hex, t, first, 0)
             && closed == (end > first && end < |t| && t[end] == ';')
    ensures NumericReference(t) == if closed then Unit(true, Utf8(code), end + 1) else Kept(t, end)
    ensures closed ==> |Utf8(code)| <= end + 1
  {
    hide Utf8, ScanCode;
  }

  // ------------------------------------------------------------------ a whole text

  lemma ReadsOn(a: array<char>, s: nat, t: string, n: nat)
    requires Reads(a, s, t) && n <= |t|
    ensures Reads(a, s + n, t[n..])
  {
  }

  /** The same of the contents of a buffer at some moment. */
  ghost predicate ReadIn(b: string, s: nat, t: string) {
    s + |t| < |b| && b[s + |t|] == '\0' && '\0' !in t && forall k | 0 <= k < |t| :: b[s + k] == t[k]
  }

  lemma Snapshot(a: array<char>, s: nat, t: string)
    requires Reads(a, s, t)
    ensures ReadIn(a[..], s, t)
  {
  }

  /** What has not been read yet is still there after a write before it. */
  lemma StillReads(a: array<char>, b: string, s: nat, t: string, next: nat)
    requires ReadIn(b, s, t) && |b| == a.Length && s <= next <= s + |t|
    requires forall i | next <= i < a.Length :: a[i] == b[i]
    ensures Reads(a, next, t[next - s..])
  {
  }

  /** A line end becomes one character. */
  method ConvertLineEnd(a: array<char>, g: Gap, ghost begin: nat, s: nat, ghost t: string, c: char) returns (next: nat)
    requires g.Valid(a, begin, s) && Reads(a, s, t) && t != "" && t[0] == '\r'
    modifies a, g
    ensures next == s + LineEndLength(t) && g.Valid(a, begin, next)
    ensures g.Kept(a, begin, next) == old(g.Kept(a, begin, s)) + [c]
    ensures begin <= s && forall i | 0 <= i < a.Length && !(begin <= i < next) :: a[i] == old(a[i])
  {
    assert begin <= s && s + |t| < a.Length;
    CharAt(a, s, t, 1);
    hide Gap.Kept, Gap.Valid, Reads;
    next := g.Put(a, begin, s, c);
    if a[next] == '\n' { next := g.Push(a, begin, next, 1); }
  }

  /** One round of a `strconv` loop: white space, a reference, or a character that stays. */
  method ConvertUnit(a: array<char>, g: Gap, ghost begin: nat, s: nat, ghost t: string, rules: Rules)
    returns (next: nat)
    requires g.Valid(a, begin, s) && Reads(a, s, t) && t != "" && t[0] != rules.stop
    modifies a, g
    ensures var u := NextUnit(rules, t);
            && next == s + u.length && g.Valid(a, begin, next)
            && g.Kept(a, begin, next) == old(g.Kept(a, begin, s)) + u.text
    ensures begin <= s && forall i | 0 <= i < a.Length && !(begin <= i < next) :: a[i] == old(a[i])
  {
    assert begin <= s && s + |t| < a.Length;
    CharAt(a, s, t, 0);
    hide Gap.Kept, Gap.Valid, Reads, Reference;
    var ch := a[s];
    if rules.spacing == Blanks && IsSpace(ch) {
      if ch == '\r' {
        next := ConvertLineEnd(a, g, begin, s, t, ' ');
      } else {
        next := g.Put(a, begin, s, ' ');
      }
    } else if rules.spacing == Eol && ch == '\r' {
      next := ConvertLineEnd(a, g, begin, s, t, '\n');
    } else if rules.escapes && ch == '&' {
      next := ConvertReference(a, g, begin, s, t);
    } else {
      next := Keep(a, g, begin, s, t, 1);
    }
  }

  lemma DecodeStep(rules: Rules, t: string, kept: string, all: string)
    requires t != "" && t[0] != rules.stop && kept + Decode(rules, t).0 == all
    ensures var u := NextUnit(rules, t);
            && (kept + u.text) + Decode(rules, t[u.length..]).0 == all
            && Decode(rules, t[u.length..]).1 == Decode(rules, t).1
  {
    var u := NextUnit(rules, t);
    Regroup(kept, u.text, Decode(rules, t[u.length..]).0);
  }

  /** One round of the scan, with what it means for the text still to be read. */
  method ConvertRound(a: array<char>, g: Gap, ghost begin: nat, s: nat, ghost left: string, rules: Rules,
      ghost all: string)
    returns (next: nat, ghost rest: string)
    requires g.Valid(a, begin, s) && Reads(a, s, left) && left != "" && left[0] != rules.stop
    requires g.Kept(a, begin, s) + Decode(rules, left).0 == all
    modifies a, g
    ensures s < next && next + |rest| == s + |left| && Reads(a, next, rest)
    ensures g.Valid(a, begin, next) && g.Kept(a, begin, next) + Decode(rules, rest).0 == all
    ensures Decode(rules, rest).1 == Decode(rules, left).1
    ensures begin <= s && forall i | 0 <= i < a.Length && !(begin <= i < next) :: a[i] == old(a[i])
  {
    hide Gap.Kept, Gap.Valid, Reads, ReadIn, NextUnit, Decode;
    DecodeStep(rules, left, g.Kept(a, begin, s), all);
    ghost var b := a[..];
    Snapshot(a, s, left);
    next := ConvertUnit(a, g, begin, s, left, rules);
    rest := left[next - s..];
    StillReads(a, b, s, left, next);
  }

  /** The scan up to the stop character or the end of the text. */
  method ConvertText(a: array<char>, g: Gap, begin: nat, ghost t: string, rules: Rules) returns (s: nat)
    requires Reads(a, begin, t) && rules.stop != '\0' && !g.isOpen && g.size == 0
    modifies a, g
    ensures s == begin + |t| - |Decode(rules, t).1| && Reads(a, s, Decode(rules, t).1)
    ensures g.Valid(a, begin, s) && g.Kept(a, begin, s) == Decode(rules, t).0
    ensures begin <= s && forall i | 0 <= i < a.Length && !(begin <= i < s) :: a[i] == old(a[i])
  {
    s := begin;
    ghost var left, all := t, Decode(rules, t).0;
    NothingKept(a, g, begin, t, all);
    hide Gap.Kept, Gap.Valid, Reads, NextUnit, Decode;
    while true
      invariant begin <= s && Reads(a, s, left) && s + |left| == begin + |t|
      invariant g.Valid(a, begin, s) && g.Kept(a, begin, s) + Decode(rules, left).0 == all
      invariant Decode(rules, left).1 == Decode(rules, t).1
      invariant forall i | 0 <= i < a.Length && !(begin <= i < s) :: a[i] == old(a[i])
      decreases |left|
    {
      CharAt(a, s, left, 0);
      if a[s] == rules.stop || a[s] == '\0' { break; }
      s, left := ConvertRound(a, g, begin, s, left, rules, all);
    }
    Decoded(rules, left, g.Kept(a, begin, s));
  }

  lemma NothingKept(a: array<char>, g: Gap, begin: nat, t: string, all: string)
    requires Reads(a, begin, t) && !g.isOpen && g.size == 0
    ensures g.Valid(a, begin, begin) && g.Kept(a, begin, begin) + all == all
  {
  }

  lemma Decoded(rules: Rules, t: string, kept: string)
    requires t == "" || t[0] == rules.stop
    ensures Decode(rules, t).1 == t && kept + Decode(rules, t).0 == kept
  {
  }

  /** A terminated text in the buffer, cut at the first NUL it holds. */
  lemma ReadsCString(a: array<char>, begin: nat, end: nat, text: string)
    requires begin <= end < a.Length && a[begin..end] == text && a[end] == '\0'
    ensures Reads(a, begin, CString(text)) && begin + |CString(text)| <= end
  {
    CutAtNul(text);
    assert forall k | 0 <= k < |text| :: a[begin + k] == text[k] by {
      assert forall k | 0 <= k < |text| :: a[begin..end][k] == a[begin + k];
    }
  }

  lemma {:induction false} CutAtNul(text: string)
    ensures var c := CString(text); |c| < |text| ==> text[|c|] == '\0'
  {
    if text != "" && text[0] != '\0' { CutAtNul(text[1..]); }
  }

  /** `strconv_pcdata_impl::parse`. */
  method ConvertPcdata(a: array<char>, begin: nat, ghost t: string, rules: Rules) returns (next: nat)
    requires Reads(a, begin, t) && rules.stop == '<'
    modifies a
    ensures var (text, rest) := Decode(rules, t);
            && Reads(a, begin, CString(text)) && begin + |CString(text)| <= begin + |t| - |rest|
            && next == begin + |t| - |rest| + (if rest == "" then 0 else 1)
            && (rest != "" ==> Reads(a, next, rest[1..]))
            && (rest == "" ==> Reads(a, next, ""))
    ensures forall i | 0 <= i < a.Length && !(begin <= i < next) :: a[i] == old(a[i])
  {
    hide Decode, Reads, ReadIn, Gap.Kept, Gap.Valid;
    var g := new Gap();
    var s := ConvertText(a, g, begin, t, rules);
    ghost var rest := Decode(rules, t).1;
    CharAt(a, s, rest, 0);
    if rest != "" { CharAt(a, s, rest, 1); ReadsOn(a, s, rest, 1); }
    var ch := a[s];
    next := if ch == '<' then s + 1 else s;
    ghost var after := if rest == "" then "" else rest[1..];
    ghost var b := a[..];
    Snapshot(a, next, after);
    label Scanned:
    var end := g.Flush(a, begin, s);
    a[end] := '\0';
    assert a[begin..end] == old@Scanned(g.Kept(a, begin, s));
    ReadsCString(a, begin, end, Decode(rules, t).0);
    StillReads(a, b, next, after, next);
    assert after[0..] == after;
  }

  /** `strconv_attribute_impl`: the value ends at the quote; the end of the text is an error. */
  method ConvertAttribute(a: array<char>, begin: nat, ghost t: string, rules: Rules) returns (ok: bool, next: nat)
    requires Reads(a, begin, t) && rules.stop != '\0'
    modifies a
    ensures var (text, rest) := Decode(rules, t);
            && ok == (rest != "")
            && (ok ==>
                  && Reads(a, begin, CString(text)) && begin + |CString(text)| < next
                  && next == begin + |t| - |rest| + 1 && Reads(a, next, rest[1..]))
    ensures begin <= next && forall i | 0 <= i < a.Length && !(begin <= i < next) :: a[i] == old(a[i])
  {
    hide Decode, Reads, ReadIn, Gap.Kept, Gap.Valid;
    var g := new Gap();
    var s := ConvertText(a, g, begin, t, rules);
    ghost var rest := Decode(rules, t).1;
    CharAt(a, s, rest, 0);
    next := s;
    ok := a[s] == rules.stop;
    if ok {
      CharAt(a, s, rest, 1);
      ReadsOn(a, s, rest, 1);
      next := s + 1;
      ghost var b := a[..];
      Snapshot(a, next, rest[1..]);
      label Scanned:
      var end := g.Flush(a, begin, s);
      a[end] := '\0';
      assert a[begin..end] == old@Scanned(g.Kept(a, begin, s));
      ReadsCString(a, begin, end, Decode(rules, t).0);
      StillReads(a, b, next, rest[1..], next);
      assert rest[1..][0..] == rest[1..];
    }
  }
}
