/** `parse_tree` as it works: over one mutable buffer, with names and values left where they stand.

  A node holds positions in the buffer instead of strings. Names are terminated by writing a NUL over
  the character that ended them, values are converted in place, the end mark of a declaration is
  rewritten ahead of the place that is being read, and the parser reads on behind what it has written.
  That the strings found at the stored positions when the parse is over are those of the pure parser
  means that no write ever hits a string that is already stored or a character that is still to be read. */
module InPlaceParser {
  import opened Document
  import opened Characters
  import opened Escapes
  import opened Parser
  import opened InPlace

  /** A node as the parser stores it; position -1 is a null pointer. */
  datatype Slot = Slot(parent: int, kind: NodeType, name: int, value: int, attributes: seq<(int, int)>)

  // ------------------------------------------------------------------ strings in the buffer

  ghost function StringAt(b: string, p: int): string {
    if 0 <= p <= |b| then CString(b[p..]) else ""
  }

  /** A null pointer, or a string that ends before `s`. */
  ghost predicate SealedAt(b: string, p: int, s: nat) {
    p == -1 || (0 <= p < |b| && s <= |b| && p + |StringAt(b, p)| < s)
  }

  ghost function AttributesAt(b: string, slots: seq<(int, int)>): seq<Attribute> {
    seq(|slots|, k requires 0 <= k < |slots| => Attribute(StringAt(b, slots[k].0), StringAt(b, slots[k].1)))
  }

  ghost function RowAt(b: string, x: Slot): Row {
    Row(x.parent, NodeData(x.kind, StringAt(b, x.name), StringAt(b, x.value), AttributesAt(b, x.attributes)))
  }

  ghost predicate SealedSlot(b: string, x: Slot, s: nat) {
    && SealedAt(b, x.name, s) && SealedAt(b, x.value, s)
    && forall k | 0 <= k < |x.attributes| :: SealedAt(b, x.attributes[k].0, s) && SealedAt(b, x.attributes[k].1, s)
  }

  /** The slots stand for the rows `d`, and all their strings lie before position `s`. */
  ghost predicate BuiltIn(b: string, slots: seq<Slot>, s: nat, d: Table) {
    && |slots| == |d|
    && forall i {:trigger slots[i]} | 0 <= i < |slots| :: SealedSlot(b, slots[i], s) && RowAt(b, slots[i]) == d[i]
  }

  ghost predicate Built(a: array<char>, slots: seq<Slot>, s: nat, d: Table)
    reads a
  {
    BuiltIn(a[..], slots, s, d)
  }

  /** Writing at or after `s` leaves a sealed string alone. */
  lemma StringSame(b: string, c: string, p: int, s: nat, next: nat)
    requires SealedAt(b, p, s) && |b| == |c| && s <= next <= |b| && forall i | 0 <= i < s :: b[i] == c[i]
    ensures StringAt(c, p) == StringAt(b, p) && SealedAt(c, p, next)
  {
    if p != -1 {
      var t := StringAt(b, p);
      CutAtNul(b[p..]);
      assert b[p..][|t|] == '\0';
      forall k | 0 <= k < |t| ensures c[p..][k] != '\0' {
        assert c[p..][k] == c[p + k] == b[p + k] == t[k];
        assert t[k] in t;
      }
      assert c[p..][|t|] == c[p + |t|] == b[p + |t|];
      CStringIs(c[p..], |t|);
      assert c[p..][..|t|] == t;
    }
  }

  lemma SlotSame(b: string, c: string, x: Slot, s: nat, next: nat)
    requires SealedSlot(b, x, s) && |b| == |c| && s <= next <= |b| && forall i | 0 <= i < s :: b[i] == c[i]
    ensures RowAt(c, x) == RowAt(b, x) && SealedSlot(c, x, next)
  {
    hide StringAt, SealedAt;
    StringSame(b, c, x.name, s, next);
    StringSame(b, c, x.value, s, next);
    forall k | 0 <= k < |x.attributes|
      ensures StringAt(c, x.attributes[k].0) == StringAt(b, x.attributes[k].0) && SealedAt(c, x.attributes[k].0, next)
      ensures StringAt(c, x.attributes[k].1) == StringAt(b, x.attributes[k].1) && SealedAt(c, x.attributes[k].1, next)
    {
      StringSame(b, c, x.attributes[k].0, s, next);
      StringSame(b, c, x.attributes[k].1, s, next);
    }
    assert AttributesAt(c, x.attributes) == AttributesAt(b, x.attributes);
  }

  lemma BuiltBefore(b: string, a: array<char>, slots: seq<Slot>, s: nat, next: nat, d: Table)
    requires BuiltIn(b, slots, s, d) && |b| == a.Length && s <= next <= |b| && forall i | 0 <= i < s :: b[i] == a[i]
    ensures Built(a, slots, next, d)
  {
    hide SealedSlot, RowAt;
    forall i | 0 <= i < |slots| ensures SealedSlot(a[..], slots[i], next) && RowAt(a[..], slots[i]) == d[i] {
      SlotSame(b, a[..], slots[i], s, next);
    }
  }

  lemma BuiltMore(a: array<char>, slots: seq<Slot>, s: nat, d: Table, x: Slot, row: Row)
    requires Built(a, slots, s, d) && SealedSlot(a[..], x, s) && RowAt(a[..], x) == row
    ensures Built(a, slots + [x], s, d + [row])
  {
    hide SealedSlot, RowAt;
  }

  /** A string just read and terminated. */
  lemma StringRead(a: array<char>, p: nat, t: string, s: nat)
    requires Reads(a, p, t) && p + |t| < s <= a.Length
    ensures StringAt(a[..], p) == t && SealedAt(a[..], p, s)
  {
    var b := a[..];
    forall k | 0 <= k < |t| ensures b[p..][k] != '\0' { assert b[p..][k] == a[p + k] == t[k]; assert t[k] in t; }
    assert b[p..][|t|] == '\0';
    CStringIs(b[p..], |t|);
    assert b[p..][..|t|] == t;
  }

  // ------------------------------------------------------------------ scanning

  lemma {:induction false} SymbolsIs(t: string, n: nat)
    requires n <= |t| && AllSymbols(t[..n]) && (n < |t| ==> !IsSymbol(t[n]))
    ensures Symbols(t) == n
  {
    SymbolsThen(t[..n], t[n..]);
    assert t[..n] + t[n..] == t;
  }

  lemma {:induction false} SpacesIs(t: string, n: nat)
    requires n <= |t| && AllSpaces(t[..n]) && (n < |t| ==> !IsSpace(t[n]))
    ensures Spaces(t) == n && SkipSpaces(t) == t[n..]
  {
    SpacesThen(t[..n], t[n..]);
    assert t[..n] + t[n..] == t;
  }

  method ScanSymbols(a: array<char>, s: nat, ghost t: string) returns (e: nat)
    requires Reads(a, s, t)
    ensures e == s + Symbols(t) && Reads(a, e, t[Symbols(t)..])
  {
    e := s;
    while IsSymbol(a[e])
      invariant s <= e <= s + |t| && AllSymbols(t[..e - s])
      decreases s + |t| - e
    {
      assert e < s + |t|;
      assert t[..e + 1 - s] == t[..e - s] + [t[e - s]];
      e := e + 1;
    }
    SymbolsIs(t, e - s);
    ReadsOn(a, s, t, e - s);
  }

  method ScanSpaces(a: array<char>, s: nat, ghost t: string) returns (e: nat)
    requires Reads(a, s, t)
    ensures e == s + Spaces(t) && Reads(a, e, SkipSpaces(t))
  {
    e := s;
    while IsSpace(a[e])
      invariant s <= e <= s + |t| && AllSpaces(t[..e - s])
      decreases s + |t| - e
    {
      assert e < s + |t|;
      assert t[..e + 1 - s] == t[..e - s] + [t[e - s]];
      e := e + 1;
    }
    SpacesIs(t, e - s);
    ReadsOn(a, s, t, e - s);
  }

  /** `PUGI__ENDSEG`: the character at `e` is saved and overwritten with the terminator of the name
    that began at `s`. */
  method EndSegment(a: array<char>, s: nat, e: nat, ghost t: string) returns (ch: char)
    requires Reads(a, s, t) && s <= e <= s + |t|
    modifies a
    ensures ch == (if e < s + |t| then t[e - s] else '\0')
    ensures Reads(a, s, t[..e - s]) && (e < s + |t| ==> Reads(a, e + 1, t[e + 1 - s..]))
    ensures forall i | 0 <= i < a.Length && i != e :: a[i] == old(a[i])
  {
    ch := a[e];
    a[e] := '\0';
  }

  // ------------------------------------------------------------------ attributes

  /** What the pure parser says about an attribute, by its parts. */
  lemma AttributeParts(o: Options, t: string)
    requires t != "" && IsStartSymbol(t[0])
    ensures var u := SkipSpaces(t[Symbols(t)..]);
            if u == "" || u[0] != '=' then ParseAttribute(o, t) == NoAttribute
            else
              var v := SkipSpaces(u[1..]);
              if v == "" || (v[0] != '"' && v[0] != '\'') then ParseAttribute(o, t) == NoAttribute
              else
                var (value, rest) := Decode(AttributeRules(o, v[0]), v[1..]);
                ParseAttribute(o, t)
                == if rest == "" || (|rest| > 1 && IsStartSymbol(rest[1])) then NoAttribute
                   else OneAttribute(Attribute(t[..Symbols(t)], CString(value)), rest[1..])
  {
    hide Symbols, SkipSpaces, Decode, CString;
  }

  lemma SkipAfterSpace(u: string)
    requires u != ""
    ensures SkipSpaces(u) == if IsSpace(u[0]) then SkipSpaces(u[1..]) else u
  {
  }

  /** A name, ended by white space, an equals sign or something wrong; then the sign itself. */
  method NameAndEquals(a: array<char>, s: nat, ghost t: string) returns (ok: bool, next: nat)
    requires Reads(a, s, t) && t != "" && IsStartSymbol(t[0])
    modifies a
    ensures var u := SkipSpaces(t[Symbols(t)..]);
            && ok == (u != "" && u[0] == '=')
            && (ok ==> s + Symbols(t) < next && Reads(a, next, u[1..]) && Reads(a, s, t[..Symbols(t)]))
    ensures ok ==> s < next && forall i | 0 <= i < a.Length && !(s <= i < next) :: a[i] == old(a[i])
  {
    hide Symbols, SkipSpaces, Reads;
    ghost var n := Symbols(t);
    var e := ScanSymbols(a, s, t);
    if n < |t| { SkipAfterSpace(t[n..]); }
    assert n < |t| ==> t[n..][0] == t[n] && t[n..][1..] == t[n + 1..];
    var ch := EndSegment(a, s, e, t);
    next := e + 1;
    ghost var u := if n < |t| then t[n + 1..] else "";
    if IsSpace(ch) {
      next := ScanSpaces(a, next, u);
      u := SkipSpaces(u);
      CharAt(a, next, u, 0);
      ch := a[next];
      if ch == '=' { ReadsOn(a, next, u, 1); }
      next := next + 1;
      u := if u == "" then "" else u[1..];
    }
    NoSpaceHere(t[n..]);
    ok := ch == '=';
  }

  lemma NoSpaceHere(u: string)
    ensures u == "" ==> SkipSpaces(u) == ""
  {
  }

  /** One attribute. */
  method AttributeIn(a: array<char>, o: Options, s: nat, ghost t: string) returns (ok: bool, next: nat, value: nat)
    requires Reads(a, s, t) && t != "" && IsStartSymbol(t[0])
    modifies a
    ensures var r := ParseAttribute(o, t);
            && ok == r.OneAttribute?
            && (ok ==>
                  && s < next <= a.Length && Reads(a, next, r.rest)
                  && StringAt(a[..], s) == r.a.name && SealedAt(a[..], s, next)
                  && StringAt(a[..], value) == r.a.value && SealedAt(a[..], value, next))
    ensures ok ==> forall i | 0 <= i < a.Length && !(s <= i < next) :: a[i] == old(a[i])
  {
    hide Symbols, SkipSpaces, Reads, ReadIn, Decode, CString, ParseAttribute, StringAt, SealedAt;
    AttributeParts(o, t);
    ghost var name := t[..Symbols(t)];
    ghost var u := SkipSpaces(t[Symbols(t)..]);
    value := 0;
    ok, next := NameAndEquals(a, s, t);
    if !ok { return; }
    u := u[1..];
    next := ScanSpaces(a, next, u);
    ghost var v := SkipSpaces(u);
    CharAt(a, next, v, 0);
    var quote := a[next];
    if quote != '"' && quote != '\'' { return false, next, value; }
    value := next + 1;
    ReadsOn(a, next, v, 1);
    StringHere(a, s, name, value, v[1..]);
    ghost var b := a[..];
    ok, next := ConvertAttribute(a, value, v[1..], AttributeRules(o, quote));
    if !ok { return; }
    ghost var (text, rest) := Decode(AttributeRules(o, quote), v[1..]);
    StringHere(a, value, CString(text), next, rest[1..]);
    StringSame(b, a[..], s, value, next);
    CharAt(a, next, rest[1..], 0);
    if IsStartSymbol(a[next]) { ok := false; }
  }

  lemma StringHere(a: array<char>, p: nat, t: string, s: nat, u: string)
    requires Reads(a, p, t) && p + |t| < s && Reads(a, s, u)
    ensures s <= a.Length && StringAt(a[..], p) == t && SealedAt(a[..], p, s)
  {
    StringRead(a, p, t, s);
  }

  // ------------------------------------------------------------------ tags

  /** Where the parser goes on: after a `<`, between tags, at the end, or nowhere. */
  datatype Phase = AfterAngle | BetweenTags | AtEnd | Stopped(status: Status)

  /** Every parent comes earlier and is the document, which has no name, or a node with a name; the
    open node is one of them. */
  predicate Linked(slots: seq<Slot>, open: nat) {
    && open < |slots| && slots[0].name == -1
    && (open == 0 || slots[open].name >= 0)
    && forall i {:trigger slots[i]} | 0 < i < |slots| ::
       0 <= slots[i].parent < i && (slots[i].parent == 0 || slots[slots[i].parent].name >= 0)
  }

  predicate SameLinks(x: seq<Slot>, y: seq<Slot>) {
    |x| == |y| && forall i {:trigger x[i]} {:trigger y[i]} | 0 <= i < |x| ::
      x[i].parent == y[i].parent && x[i].name == y[i].name
  }

  lemma LinkedSame(x: seq<Slot>, y: seq<Slot>, open: nat)
    requires Linked(x, open) && SameLinks(x, y)
    ensures Linked(y, open)
  {
  }

  lemma LinkedMore(slots: seq<Slot>, open: nat, x: Slot)
    requires Linked(slots, open) && x.parent == open
    ensures Linked(slots + [x], open) && (x.name >= 0 ==> Linked(slots + [x], |slots|))
  {
  }

  datatype Place = Place(s: nat, slots: seq<Slot>, open: nat, phase: Phase)

  ghost predicate Ready(a: array<char>, p: Place, t: string, d: Table)
    reads a
  {
    Reads(a, p.s, t) && Built(a, p.slots, p.s, d) && IsTree(d) && p.open < |d| && Linked(p.slots, p.open)
  }

  /** Going on from place `p`, with text `t` left and rows `d` built, leads to the result `r`. */
  ghost predicate LeadsTo(a: array<char>, o: Options, p: Place, t: string, d: Table, r: Result)
    reads a
  {
    match p.phase
    case Stopped(status) => r == Failed(status)
    case AtEnd => p.open < |d| && Built(a, p.slots, p.s, d) && r == Finish(d, p.open)
    case AfterAngle => Ready(a, p, t, d) && r == ParseTag(o, t, d, p.open)
    case BetweenTags => Ready(a, p, t, d) && r == ParseContent(o, t, d, p.open)
  }

  function WithAttribute(x: Slot, name: int, value: int): Slot {
    x.(attributes := x.attributes + [(name, value)])
  }

  lemma AttributeAdded(b: string, x: Slot, s: nat, row: Row, name: int, value: int, added: Attribute)
    requires SealedSlot(b, x, s) && RowAt(b, x) == row && SealedAt(b, name, s) && SealedAt(b, value, s)
    requires StringAt(b, name) == added.name && StringAt(b, value) == added.value
    ensures SealedSlot(b, WithAttribute(x, name, value), s)
    ensures RowAt(b, WithAttribute(x, name, value))
            == Row(row.parent, row.data.(attributes := row.data.attributes + [added]))
  {
    hide StringAt, SealedAt;
    var y := WithAttribute(x, name, value);
    assert AttributesAt(b, y.attributes) == AttributesAt(b, x.attributes) + [added];
  }

  lemma SlotChanged(a: array<char>, slots: seq<Slot>, s: nat, d: Table, k: nat, x: Slot, row: Row)
    requires Built(a, slots, s, d) && k < |d| && SealedSlot(a[..], x, s) && RowAt(a[..], x) == row
    ensures k < |slots| && Built(a, slots[k := x], s, d[k := row])
  {
    hide SealedSlot, RowAt;
  }

  lemma ParseAttributesParts(o: Options, t: string, d: Table, node: nat)
    requires IsTree(d) && 0 < node < |d|
    ensures var u := SkipSpaces(t);
            && (u != "" && IsStartSymbol(u[0]) ==>
                  var one := ParseAttribute(o, u);
                  ParseAttributes(o, t, d, node)
                  == if one.NoAttribute? then Failed(BadAttribute)
                     else ParseAttributes(o, one.rest, AddAttribute(d, node, one.a), node))
            && (u != "" && u[0] == '>' ==> ParseAttributes(o, t, d, node) == ParseContent(o, u[1..], d, node))
            && (|u| > 1 && u[0] == '/' && u[1] == '>'
               ==> ParseAttributes(o, t, d, node) == ParseContent(o, u[2..], d, d[node].parent))
            && (u == "" || (!IsStartSymbol(u[0]) && u[0] != '>' && (u[0] != '/' || |u| == 1 || u[1] != '>'))
                ==> ParseAttributes(o, t, d, node) == Failed(BadStartElement))
  {
    hide ParseAttribute, SkipSpaces, ParseContent, AddAttribute;
  }

  /** The attributes of node `node`, and the end of its tag. */
  method AttributesIn(a: array<char>, o: Options, s0: nat, slots0: seq<Slot>, node: nat, ghost t0: string,
      ghost d0: Table)
    returns (p: Place, ghost t: string, ghost d: Table)
    requires Reads(a, s0, t0) && IsTree(d0) && 0 < node < |d0| && Built(a, slots0, s0, d0) && Linked(slots0, node)
    modifies a
    ensures LeadsTo(a, o, p, t, d, ParseAttributes(o, t0, d0, node))
    ensures p.phase.Stopped? || (p.phase == BetweenTags && |t| < |t0|)
    ensures p.phase.Stopped? || (s0 <= p.s && forall i | 0 <= i < a.Length && !(s0 <= i < p.s) :: a[i] == old(a[i]))
  {
    hide Reads, ReadIn, BuiltIn, Built, SkipSpaces, ParseAttribute, ParseAttributes, ParseContent, StringAt, SealedAt,
         SealedSlot, RowAt, SameLinks, Linked, AddAttribute;
    var s, slots := s0, slots0;
    t, d := t0, d0;
    ghost var r := ParseAttributes(o, t0, d0, node);
    while true
      invariant s0 <= s && Reads(a, s, t) && |t| <= |t0|
      invariant IsTree(d) && |d| == |d0| && Built(a, slots, s, d)
      invariant Linked(slots, node)
      invariant ParseAttributes(o, t, d, node) == r
      invariant forall i | 0 <= i < a.Length && !(s0 <= i < s) :: a[i] == old(a[i])
      decreases |t|
    {
      ParseAttributesParts(o, t, d, node);
      ghost var u := SkipSpaces(t);
      ghost var before := s;
      s := ScanSpaces(a, s, t);
      BuiltLater(a, slots, before, s, d, u);
      CharAt(a, s, u, 0);
      if IsStartSymbol(a[s]) {
        ghost var one := ParseAttribute(o, u);
        var ok, more;
        ok, s, more := OneAttributeIn(a, o, s, slots, node, u, d);
        if !ok { return Place(s, slots, node, Stopped(BadAttribute)), "", d; }
        LinkedSame(slots, more, node);
        slots := more;
        t, d := one.rest, AddAttribute(d, node, one.a);
      } else {
        CharAt(a, s, u, if u == "" then 0 else 1);
        p, t := TagEndIn(a, o, s, slots, node, u, d, r);
        return;
      }
    }
  }

  lemma BuiltLater(a: array<char>, slots: seq<Slot>, s: nat, next: nat, d: Table, u: string)
    requires Built(a, slots, s, d) && s <= next && Reads(a, next, u)
    ensures Built(a, slots, next, d)
  {
    BuiltBefore(a[..], a, slots, s, next, d);
  }

  /** One more attribute of slot `node`. */
  method OneAttributeIn(a: array<char>, o: Options, s: nat, slots0: seq<Slot>, node: nat, ghost t: string,
      ghost d: Table)
    returns (ok: bool, next: nat, slots: seq<Slot>)
    requires Reads(a, s, t) && t != "" && IsStartSymbol(t[0]) && node < |d| && Built(a, slots0, s, d)
    modifies a
    ensures ok == ParseAttribute(o, t).OneAttribute?
    ensures ok ==> var r := ParseAttribute(o, t);
                   s <= next && Reads(a, next, r.rest) && Built(a, slots, next, AddAttribute(d, node, r.a))
    ensures ok ==> SameLinks(slots0, slots)
    ensures ok ==> forall i | 0 <= i < a.Length && !(s <= i < next) :: a[i] == old(a[i])
  {
    hide Reads, ReadIn, BuiltIn, ParseAttribute, StringAt, SealedAt, SealedSlot, RowAt;
    ghost var b := a[..];
    var value;
    slots := slots0;
    SlotCount(a, slots, s, d);
    ok, next, value := AttributeIn(a, o, s, t);
    if ok {
      BuiltBefore(b, a, slots, s, next, d);
      ghost var one := ParseAttribute(o, t).a;
      SlotFor(a, slots, next, d, node);
      AttributeAdded(a[..], slots[node], next, d[node], s, value, one);
      var x := WithAttribute(slots[node], s, value);
      SlotChanged(a, slots, next, d, node, x,
          Row(d[node].parent, d[node].data.(attributes := d[node].data.attributes + [one])));
      AddedRow(d, node, one);
      slots := slots[node := x];
    }
  }

  lemma AddedRow(d: Table, node: nat, one: Attribute)
    requires node < |d|
    ensures AddAttribute(d, node, one)
            == d[node := Row(d[node].parent, d[node].data.(attributes := d[node].data.attributes + [one]))]
  {
  }

  lemma SlotFor(a: array<char>, slots: seq<Slot>, s: nat, d: Table, k: nat)
    requires Built(a, slots, s, d) && k < |d|
    ensures |slots| == |d| && SealedSlot(a[..], slots[k], s) && RowAt(a[..], slots[k]) == d[k]
    ensures slots[k].parent == d[k].parent && slots[k].kind == d[k].data.kind
  {
    hide SealedSlot, StringAt, AttributesAt;
  }

  /** The end of a tag with attributes. */
  method TagEndIn(a: array<char>, o: Options, s: nat, slots: seq<Slot>, node: nat, ghost u: string, ghost d: Table,
      ghost r: Result)
    returns (p: Place, ghost t: string)
    requires Reads(a, s, u) && IsTree(d) && 0 < node < |d| && Built(a, slots, s, d) && Linked(slots, node)
    requires u != "" ==> !IsStartSymbol(u[0])
    requires u != "" && u[0] == '>' ==> r == ParseContent(o, u[1..], d, node)
    requires |u| > 1 && u[0] == '/' && u[1] == '>' ==> r == ParseContent(o, u[2..], d, d[node].parent)
    requires u == "" || (u[0] != '>' && (u[0] != '/' || |u| == 1 || u[1] != '>')) ==> r == Failed(BadStartElement)
    ensures LeadsTo(a, o, p, t, d, r)
    ensures p.phase.Stopped? || (p.phase == BetweenTags && |t| < |u| && s <= p.s)
  {
    hide Reads, BuiltIn, Built, ParseContent, Linked, SealedSlot, RowAt;
    CharAt(a, s, u, 0);
    t := "";
    SlotFor(a, slots, s, d, node);
    LinkedParent(slots, node);
    if a[s] == '>' {
      ReadsOn(a, s, u, 1);
      t := u[1..];
      BuiltLater(a, slots, s, s + 1, d, t);
      return Place(s + 1, slots, node, BetweenTags), t;
    }
    if a[s] == '/' {
      CharAt(a, s, u, 1);
      if a[s + 1] == '>' {
        ReadsOn(a, s, u, 2);
        t := u[2..];
        BuiltLater(a, slots, s, s + 2, d, t);
        return Place(s + 2, slots, slots[node].parent, BetweenTags), t;
      }
    }
    return Place(s, slots, node, Stopped(BadStartElement)), t;
  }

  lemma SlotCount(a: array<char>, slots: seq<Slot>, s: nat, d: Table)
    requires Built(a, slots, s, d)
    ensures |slots| == |d|
  {
  }

  lemma TagParts(o: Options, t: string, d: Table, open: nat)
    requires IsTree(d) && open < |d| && t != "" && IsStartSymbol(t[0])
    ensures var n := Symbols(t);
            var data := NodeData(Element, t[..n], "", []);
            ParseTag(o, t, d, open)
            == if n == |t| then Failed(BadStartElement)
               else if t[n] == '>' then ParseContent(o, t[n + 1..], d + [Row(open, data)], |d|)
               else if IsSpace(t[n]) then ParseAttributes(o, t[n + 1..], d + [Row(open, data)], |d|)
               else if t[n] == '/' && |t| > n + 1 && t[n + 1] == '>'
                    then ParseContent(o, t[n + 2..], d + [Row(open, data)], open)
               else Failed(BadStartElement)
  {
    hide Symbols, ParseContent, ParseAttributes;
    var n := Symbols(t);
    if n < |t| { assert t[n + 1..] != "" ==> t[n + 1..][0] == t[n + 1] && t[n + 1..][1..] == t[n + 2..]; }
  }

  lemma SlotOf(b: string, s: nat, next: nat, open: int, kind: NodeType, name: string)
    requires StringAt(b, s) == name && SealedAt(b, s, next)
    ensures var x := Slot(open, kind, s, -1, []);
            SealedSlot(b, x, next) && RowAt(b, x) == Row(open, NodeData(kind, name, "", []))
  {
    hide StringAt;
    assert StringAt(b, -1) == "" by { NullString(b); }
    assert AttributesAt(b, []) == [];
  }

  lemma NullString(b: string)
    ensures StringAt(b, -1) == "" && forall s: nat :: SealedAt(b, -1, s)
  {
  }

  /** The node whose name has been scanned from `s` to `e`, and the character that ended the name. */
  method PushNode(a: array<char>, s: nat, e: nat, kind: NodeType, slots0: seq<Slot>, open: nat, ghost t0: string,
      ghost d: Table)
    returns (ch: char, slots: seq<Slot>)
    requires Reads(a, s, t0) && e == s + Symbols(t0) && Built(a, slots0, s, d) && open < |d| && Linked(slots0, open)
    modifies a
    ensures var n := Symbols(t0);
            && ch == (if n < |t0| then t0[n] else '\0') && (ch == '\0' ==> n == |t0|)
            && (ch != '\0' ==>
                 && n < |t0| && Reads(a, e + 1, t0[n + 1..])
                 && Built(a, slots, e + 1, d + [Row(open, NodeData(kind, t0[..n], "", []))])
                 && |slots| == |d| + 1 && Linked(slots, open) && Linked(slots, |slots| - 1))
    ensures forall i | 0 <= i < a.Length && i != e :: a[i] == old(a[i])
  {
    hide Reads, ReadIn, BuiltIn, SkipSpaces, Symbols, StringAt, SealedAt, SealedSlot, RowAt, Linked;
    ghost var n := Symbols(t0);
    ghost var row := Row(open, NodeData(kind, t0[..n], "", []));
    ghost var b := a[..];
    slots := slots0;
    if n < |t0| { CharAt(a, s, t0, n); }
    ch := EndSegment(a, s, e, t0);
    if ch != '\0' {
      StringHere(a, s, t0[..n], e + 1, t0[n + 1..]);
      BuiltBefore(b, a, slots0, s, e + 1, d);
      SlotOf(a[..], s, e + 1, open, kind, t0[..n]);
      slots := slots0 + [Slot(open, kind, s, -1, [])];
      LinkedMore(slots0, open, Slot(open, kind, s, -1, []));
      BuiltMore(a, slots0, e + 1, d, Slot(open, kind, s, -1, []), row);
      SlotCount(a, slots, e + 1, d + [row]);
    }
  }

  /** A start tag, from its name on. */
  method StartTagIn(a: array<char>, o: Options, s: nat, slots0: seq<Slot>, open: nat, ghost t0: string, ghost d: Table)
    returns (p: Place, ghost t: string, ghost d': Table)
    requires Reads(a, s, t0) && Built(a, slots0, s, d) && IsTree(d) && open < |d| && t0 != "" && IsStartSymbol(t0[0])
    requires Linked(slots0, open)
    modifies a
    ensures LeadsTo(a, o, p, t, d', ParseTag(o, t0, d, open))
    ensures p.phase.Stopped? || (p.phase == BetweenTags && |t| < |t0|)
    ensures p.phase.Stopped? || (s <= p.s && forall i | 0 <= i < a.Length && !(s <= i < p.s) :: a[i] == old(a[i]))
  {
    hide Reads, ReadIn, BuiltIn, Built, SkipSpaces, Symbols, ParseAttribute, ParseAttributes, ParseContent, ParseTag,
         StringAt, SealedAt, SealedSlot, RowAt, Linked;
    TagParts(o, t0, d, open);
    ghost var n := Symbols(t0);
    ghost var data := NodeData(Element, t0[..n], "", []);
    var e := ScanSymbols(a, s, t0);
    var ch, slots := PushNode(a, s, e, Element, slots0, open, t0, d);
    t, d' := "", d + [Row(open, data)];
    if ch == '\0' {
      return Place(e, slots0, open, Stopped(BadStartElement)), t, d';
    }
    t := t0[n + 1..];
    AppendedIsTree(d, open, data);
    if ch == '>' {
      p := Place(e + 1, slots, |slots| - 1, BetweenTags);
    } else if IsSpace(ch) {
      p, t, d' := AttributesIn(a, o, e + 1, slots, |slots| - 1, t, d');
    } else {
      CharAt(a, e + 1, t, 0);
      if ch == '/' && a[e + 1] == '>' {
        ReadsOn(a, e + 1, t, 1);
        p := Place(e + 2, slots, open, BetweenTags);
        BuiltLater(a, slots, e + 1, e + 2, d', t[1..]);
        t := t[1..];
      } else {
        p := Place(e + 1, slots, open, Stopped(BadStartElement));
      }
    }
  }

  lemma AppendedIsTree(d: Table, open: nat, data: NodeData)
    requires IsTree(d) && open < |d|
    ensures IsTree(d + [Row(open, data)])
  {
  }

  // ------------------------------------------------------------------ end tags

  /** The name in an end tag, compared with the stored one character by character. */
  method SameName(a: array<char>, s: nat, ghost t: string, p: nat, ghost name: string) returns (same: bool, next: nat)
    requires Reads(a, s, t) && Reads(a, p, name)
    ensures same == (t[..Symbols(t)] == name)
    ensures same ==> next == s + Symbols(t) && Reads(a, next, t[Symbols(t)..])
  {
    next := s;
    var k := 0;
    while IsSymbol(a[next])
      invariant next == s + k && k <= |t| && k <= |name| && t[..k] == name[..k] && AllSymbols(t[..k])
      decreases |t| - k
    {
      assert k < |t| && a[next] == t[k];
      if a[next] != a[p + k] {
        NotThatName(t, name, k);
        return false, next;
      }
      assert t[..k + 1] == t[..k] + [t[k]] && name[..k + 1] == name[..k] + [name[k]];
      next, k := next + 1, k + 1;
    }
    SymbolsIs(t, k);
    ReadsOn(a, s, t, k);
    CharAt(a, p, name, k);
    same := a[p + k] == '\0';
    assert name[..|name|] == name;
  }

  lemma NotThatName(t: string, name: string, k: nat)
    requires k < |t| && k <= |name| && AllSymbols(t[..k]) && IsSymbol(t[k])
    requires k < |name| ==> name[k] != t[k]
    ensures t[..Symbols(t)] != name
  {
    SymbolsAtLeast(t, k);
    assert t[..Symbols(t)][k] == t[k];
  }

  lemma {:induction false} SymbolsAtLeast(t: string, k: nat)
    requires k < |t| && AllSymbols(t[..k]) && IsSymbol(t[k])
    ensures Symbols(t) > k
  {
    assert k > 0 ==> t[..k][0] == t[0];
    if k > 0 { assert t[..k][1..] == t[1..][..k - 1]; SymbolsAtLeast(t[1..], k - 1); }
  }

  lemma EndTagParts(o: Options, t: string, d: Table, open: nat)
    requires IsTree(d) && open < |d|
    ensures var n := Symbols(t);
            ParseEndTag(o, t, d, open)
            == if open == 0 || t[..n] != d[open].data.name then Failed(EndElementMismatch)
               else
                 var u := SkipSpaces(t[n..]);
                 if u == "" || u[0] != '>' then Failed(BadEndElement) else ParseContent(o, u[1..], d, d[open].parent)
  {
    hide Symbols, SkipSpaces, ParseContent;
  }

  lemma StringReads(a: array<char>, p: nat, s: nat)
    requires SealedAt(a[..], p, s) && s <= a.Length
    ensures Reads(a, p, StringAt(a[..], p))
  {
    var b := a[..];
    CutAtNul(b[p..]);
    var t := CString(b[p..]);
    assert forall k | 0 <= k < |t| :: b[p..][k] == a[p + k] == t[k];
    assert b[p..][|t|] == a[p + |t|];
  }

  /** The name of an open element is a string of symbols at its stored position. */
  lemma NameOfOpen(a: array<char>, slots: seq<Slot>, s: nat, d: Table, open: nat)
    requires Built(a, slots, s, d) && Linked(slots, open) && s <= a.Length
    ensures |slots| == |d| && d[open].parent == slots[open].parent
    ensures open > 0 ==> slots[open].name >= 0 && Reads(a, slots[open].name, d[open].data.name)
  {
    hide SealedAt, StringAt, Reads, AttributesAt;
    assert SealedSlot(a[..], slots[open], s) && RowAt(a[..], slots[open]) == d[open];
    if open > 0 { StringReads(a, slots[open].name, s); }
  }

  lemma LinkedParent(slots: seq<Slot>, open: nat)
    requires Linked(slots, open) && open > 0
    ensures 0 <= slots[open].parent && Linked(slots, slots[open].parent)
  {
    assert slots[open] == slots[open];
  }

  /** An end tag, from its name on. */
  method EndTagIn(a: array<char>, o: Options, s: nat, slots: seq<Slot>, open: nat, ghost t0: string, ghost d: Table)
    returns (p: Place, ghost t: string)
    requires Reads(a, s, t0) && Built(a, slots, s, d) && IsTree(d) && open < |d| && Linked(slots, open)
    ensures LeadsTo(a, o, p, t, d, ParseEndTag(o, t0, d, open))
    ensures p.phase.Stopped? || (p.phase == BetweenTags && |t| < |t0| && s <= p.s)
  {
    ReadsLength(a, s, t0);
    NameOfOpen(a, slots, s, d, open);
    EndTagParts(o, t0, d, open);
    assert open == 0 <==> slots[open].name == -1;
    if open > 0 { LinkedParent(slots, open); }
    hide Reads, BuiltIn, Built, Symbols, SkipSpaces, ParseContent, ParseEndTag, Linked;
    t := "";
    var name := slots[open].name;
    if name == -1 { return Place(s, slots, open, Stopped(EndElementMismatch)), t; }
    var same, next := SameName(a, s, t0, name, d[open].data.name);
    if !same { return Place(s, slots, open, Stopped(EndElementMismatch)), t; }
    p, t := EndTagCloseIn(a, o, next, slots, slots[open].parent, t0[Symbols(t0)..], d, s);
  }

  method EndTagCloseIn(a: array<char>, o: Options, s: nat, slots: seq<Slot>, open: nat, ghost t0: string,
      ghost d: Table, ghost before: nat)
    returns (p: Place, ghost t: string)
    requires Reads(a, s, t0) && Built(a, slots, before, d) && before <= s && IsTree(d) && open < |d|
             && Linked(slots, open)
    ensures var u := SkipSpaces(t0);
            LeadsTo(a, o, p, t, d, if u == "" || u[0] != '>' then Failed(BadEndElement)
                else ParseContent(o, u[1..], d, open))
    ensures p.phase.Stopped? || (p.phase == BetweenTags && |t| < |t0| && s <= p.s)
  {
    hide Reads, BuiltIn, Built, SkipSpaces, ParseContent, Linked;
    ghost var u := SkipSpaces(t0);
    var next := ScanSpaces(a, s, t0);
    CharAt(a, next, u, 0);
    t := "";
    if a[next] != '>' { return Place(next, slots, open, Stopped(BadEndElement)), t; }
    t := u[1..];
    ReadsOn(a, next, u, 1);
    BuiltLater(a, slots, before, next + 1, d, t);
    p := Place(next + 1, slots, open, BetweenTags);
  }

  lemma ReadsLength(a: array<char>, s: nat, t: string)
    requires Reads(a, s, t)
    ensures s + |t| < a.Length
  {
  }

  // ------------------------------------------------------------------ between tags

  lemma ContentParts(o: Options, t: string, d: Table, open: nat)
    requires IsTree(d) && open < |d| && t != "" && t[0] != '<'
    ensures var u := SkipSpaces(t);
            var (value, rest) := Decode(TextRules(o), t);
            var d' := d + [Row(open, NodeData(Pcdata, "", CString(value), []))];
            ParseContent(o, t, d, open)
            == if (u == "" || u[0] == '<') && !o.spaceText then ParseContent(o, u, d, open)
               else if open != 0 || o.fragment then
                 if |rest| <= 1 then Finish(d', open) else ParseTag(o, rest[1..], d', open)
               else
                 var after := AfterText(t, '<');
                 if after == "" then Finish(d, open) else ParseTag(o, after[1..], d, open)
  {
    hide SkipSpaces, Decode, AfterText, ParseTag, CString;
  }

  lemma TextSlot(b: string, p: nat, next: nat, open: int, value: string)
    requires StringAt(b, p) == value && SealedAt(b, p, next)
    ensures var x := Slot(open, Pcdata, -1, p, []);
            SealedSlot(b, x, next) && RowAt(b, x) == Row(open, NodeData(Pcdata, "", value, []))
  {
    NullString(b);
    hide StringAt;
    assert AttributesAt(b, []) == [];
  }

  lemma GoesOn(a: array<char>, o: Options, p: Place, t: string, d: Table, r: Result)
    requires Ready(a, p, t, d)
    requires p.phase == BetweenTags || p.phase == AfterAngle
    requires r == if p.phase == BetweenTags then ParseContent(o, t, d, p.open) else ParseTag(o, t, d, p.open)
    ensures LeadsTo(a, o, p, t, d, r)
  {
  }

  lemma Ends(a: array<char>, o: Options, p: Place, t: string, d: Table, r: Result)
    requires p.phase == AtEnd && p.open < |d| && Built(a, p.slots, p.s, d) && r == Finish(d, p.open)
    ensures LeadsTo(a, o, p, t, d, r)
  {
  }

  lemma Stops(a: array<char>, o: Options, p: Place, t: string, d: Table, r: Result)
    requires p.phase.Stopped? && r == Failed(p.phase.status)
    ensures LeadsTo(a, o, p, t, d, r)
  {
  }

  /** Character data: a node is made for it and the text is converted where it stands. */
  method TextIn(a: array<char>, o: Options, s: nat, slots: seq<Slot>, open: nat, ghost t0: string, ghost d: Table,
      ghost r: Result)
    returns (p: Place, ghost t: string, ghost d': Table)
    requires Reads(a, s, t0) && Built(a, slots, s, d) && IsTree(d) && open < |d| && Linked(slots, open) && t0 != ""
             && t0[0] != '<'
    requires var (value, rest) := Decode(TextRules(o), t0);
             var more := d + [Row(open, NodeData(Pcdata, "", CString(value), []))];
             r == if |rest| <= 1 then Finish(more, open) else ParseTag(o, rest[1..], more, open)
    modifies a
    ensures LeadsTo(a, o, p, t, d', r)
    ensures p.phase == AtEnd || (p.phase == AfterAngle && |t| < |t0|)
  {
    hide Reads, ReadIn, BuiltIn, Decode, CString, StringAt, SealedAt, SealedSlot, RowAt, Linked, ParseTag, LeadsTo;
    ReadsLength(a, s, t0);
    ghost var b := a[..];
    ghost var text, rest := Decode(TextRules(o), t0).0, Decode(TextRules(o), t0).1;
    t := if rest == "" then "" else rest[1..];
    d' := d + [Row(open, NodeData(Pcdata, "", CString(text), []))];
    var next := ConvertPcdata(a, s, t0, TextRules(o));
    ReadsLength(a, next, t);
    CharAt(a, next, t, 0);
    var x := Slot(open, Pcdata, -1, s, []);
    var more := slots + [x];
    LinkedMore(slots, open, x);
    // At the end of the text its terminator may be the last character of the buffer itself.
    ghost var sealed := if rest == "" then next + 1 else next;
    StringRead(a, s, CString(text), sealed);
    BuiltBefore(b, a, slots, s, sealed, d);
    TextSlot(a[..], s, sealed, open, CString(text));
    BuiltMore(a, slots, sealed, d, x, Row(open, NodeData(Pcdata, "", CString(text), [])));
    SlotCount(a, more, sealed, d');
    if a[next] == '\0' {
      p := Place(next + 1, more, open, AtEnd);
      BuiltBefore(a[..], a, more, sealed, next + 1, d');
      Ends(a, o, p, t, d', r);
    } else {
      p := Place(next, more, open, AfterAngle);
      GoesOn(a, o, p, t, d', r);
    }
  }

  method ScanFor(a: array<char>, s: nat, ghost t: string, stop: char) returns (e: nat)
    requires Reads(a, s, t)
    ensures Reads(a, e, AfterText(t, stop)) && s <= e
  {
    e := s;
    ghost var left := t;
    while a[e] != '\0' && a[e] != stop
      invariant s <= e && Reads(a, e, left) && AfterText(left, stop) == AfterText(t, stop)
      decreases |left|
    {
      assert left != "" && a[e] == left[0];
      ReadsOn(a, e, left, 1);
      e, left := e + 1, left[1..];
    }
    CharAt(a, e, left, 0);
  }

  lemma AngleParts(o: Options, t: string, d: Table, open: nat)
    requires IsTree(d) && open < |d|
    ensures t == "" ==> ParseContent(o, t, d, open) == Finish(d, open)
    ensures t != "" && t[0] == '<' ==> ParseContent(o, t, d, open) == ParseTag(o, t[1..], d, open)
    ensures t != "" && t[0] == '/' ==> ParseTag(o, t, d, open) == ParseEndTag(o, t[1..], d, open)
    ensures t != "" && t[0] == '?' ==> ParseTag(o, t, d, open) == ParseQuestion(o, t[1..], d, open)
    ensures t != "" && t[0] == '!' ==>
              var r := SkipExclamation(t[1..], open);
              ParseTag(o, t, d, open) == if r.Beyond? then ParseContent(o, r.rest, d, open) else Failed(r.status)
    ensures t == "" || (!IsStartSymbol(t[0]) && t[0] != '/' && t[0] != '?' && t[0] != '!')
            ==> ParseTag(o, t, d, open) == Failed(UnrecognizedTag)
  {
    hide ParseEndTag, Symbols, ParseAttributes, ParseQuestion, SkipExclamation;
  }

  /** One round of the main loop between tags. */
  method BetweenTagsIn(a: array<char>, o: Options, p0: Place, ghost t0: string, ghost d: Table, ghost r: Result)
    returns (p: Place, ghost t: string, ghost d': Table)
    requires p0.phase == BetweenTags && LeadsTo(a, o, p0, t0, d, r)
    modifies a
    ensures LeadsTo(a, o, p, t, d', r)
    ensures p.phase != AtEnd ==> |t| < |t0| && !p.phase.Stopped?
  {
    var s, slots, open := p0.s, p0.slots, p0.open;
    t, d' := t0, d;
    AngleParts(o, t0, d, open);
    CharAt(a, s, t0, 0);
    hide Reads, BuiltIn, Built, ParseContent, ParseTag, Linked, LeadsTo;
    if a[s] == '\0' {
      p := p0.(phase := AtEnd);
      Ends(a, o, p, t, d, r);
    } else if a[s] == '<' {
      ReadsOn(a, s, t0, 1);
      t := t0[1..];
      BuiltLater(a, slots, s, s + 1, d, t);
      p := Place(s + 1, slots, open, AfterAngle);
      GoesOn(a, o, p, t, d, r);
    } else {
      p, t, d' := ContentIn(a, o, p0, t0, d, r);
    }
  }

  /** Between tags, at something other than a tag. */
  method ContentIn(a: array<char>, o: Options, p0: Place, ghost t0: string, ghost d: Table, ghost r: Result)
    returns (p: Place, ghost t: string, ghost d': Table)
    requires Ready(a, p0, t0, d) && r == ParseContent(o, t0, d, p0.open) && t0 != "" && t0[0] != '<'
    modifies a
    ensures LeadsTo(a, o, p, t, d', r)
    ensures p.phase != AtEnd ==> |t| < |t0| && !p.phase.Stopped?
  {
    hide Reads, BuiltIn, Built, Decode, CString, ParseContent, ParseTag, SkipSpaces, AfterText, Linked, LeadsTo, Finish;
    var s, slots, open := p0.s, p0.slots, p0.open;
    ContentParts(o, t0, d, open);
    var e := ScanSpaces(a, s, t0);
    ghost var u := SkipSpaces(t0);
    CharAt(a, e, u, 0);
    if (a[e] == '\0' || a[e] == '<') && !o.spaceText {
      BuiltLater(a, slots, s, e, d, u);
      SkippedSome(t0);
      p, t, d' := Place(e, slots, open, BetweenTags), u, d;
      GoesOn(a, o, p, t, d, r);
    } else if open != 0 || o.fragment {
      p, t, d' := TextIn(a, o, s, slots, open, t0, d, r);
    } else {
      p, t, d' := OutsideIn(a, o, p0, t0, d, r);
    }
  }

  /** Text outside the document element is passed over. */
  method OutsideIn(a: array<char>, o: Options, p0: Place, ghost t0: string, ghost d: Table, ghost r: Result)
    returns (p: Place, ghost t: string, ghost d': Table)
    requires Ready(a, p0, t0, d) && p0.open == 0
    requires var after := AfterText(t0, '<'); r == if after == "" then Finish(d, 0) else ParseTag(o, after[1..], d, 0)
    ensures LeadsTo(a, o, p, t, d', r)
    ensures p.phase != AtEnd ==> |t| < |t0| && !p.phase.Stopped?
  {
    var s, slots := p0.s, p0.slots;
    hide Reads, BuiltIn, Built, ParseTag, AfterText, Linked, LeadsTo;
    t, d' := t0, d;
    var e := ScanFor(a, s, t0, '<');
    ghost var after := AfterText(t0, '<');
    CharAt(a, e, after, 0);
    BuiltLater(a, slots, s, e, d, after);
    if a[e] == '\0' {
      p := Place(e, slots, 0, AtEnd);
      Ends(a, o, p, t, d, r);
    } else {
      ReadsOn(a, e, after, 1);
      t := after[1..];
      BuiltLater(a, slots, e, e + 1, d, t);
      p := Place(e + 1, slots, 0, AfterAngle);
      GoesOn(a, o, p, t, d, r);
    }
  }

  lemma SkippedSome(t: string)
    requires t != "" && t[0] != '<' && var u := SkipSpaces(t); u == "" || u[0] == '<'
    ensures |SkipSpaces(t)| < |t|
  {
  }

  // ------------------------------------------------------------------ markup that is passed over

  /** Whether `mark` stands at position `s`. */
  method MarkHere(a: array<char>, s: nat, mark: string, ghost t: string) returns (here: bool)
    requires Reads(a, s, t) && '\0' !in mark
    ensures here <==> mark <= t
  {
    for k := 0 to |mark|
      invariant k <= |t| && mark[..k] == t[..k]
    {
      CharAt(a, s, t, k);
      assert mark[k] in mark;
      if a[s + k] != mark[k] {
        NotThere(mark, t, k);
        return false;
      }
      assert mark[..k + 1] == mark[..k] + [mark[k]] && t[..k + 1] == t[..k] + [t[k]];
    }
    assert mark[..|mark|] == mark;
    return true;
  }

  lemma NotThere(mark: string, t: string, k: nat)
    requires k < |mark| && (k < |t| ==> t[k] != mark[k])
    ensures !(mark <= t)
  {
  }

  /** `PUGI__SCANFOR` for a mark of several characters. */
  method ScanMark(a: array<char>, s: nat, mark: string, ghost t: string) returns (e: nat)
    requires Reads(a, s, t) && mark != "" && '\0' !in mark
    ensures var n := Find(t, mark);
            e == s + n && Reads(a, e, t[n..]) && (n < |t| <==> a[e] != '\0') && (n < |t| ==> mark <= t[n..])
  {
    hide Reads;
    e := s;
    ghost var n := 0;
    ReadsOn(a, s, t, 0);
    CharAt(a, s, t, 0);
    while a[e] != '\0'
      invariant n <= |t| && e == s + n && Reads(a, e, t[n..]) && e < a.Length
      invariant a[e] == if n < |t| then t[n] else '\0'
      invariant n < |t| ==> t[n] != '\0'
      invariant forall i | 0 <= i < n :: !(mark <= t[i..])
      decreases |t| - n
    {
      var here := MarkHere(a, e, mark, t[n..]);
      if here {
        FindIs(t, mark, n);
        return;
      }
      ReadsOn(a, s, t, n + 1);
      CharAt(a, s, t, n + 1);
      e, n := e + 1, n + 1;
    }
    FindIs(t, mark, n);
  }

  lemma FindIs(t: string, mark: string, n: nat)
    requires mark != "" && n <= |t| && (forall i | 0 <= i < n :: !(mark <= t[i..])) && (n < |t| ==> mark <= t[n..])
    ensures Find(t, mark) == n
  {
  }

  method SkipPastIn(a: array<char>, s: nat, mark: string, ghost status: Status, ghost t: string)
    returns (ok: bool, next: nat)
    requires Reads(a, s, t) && mark != "" && '\0' !in mark
    ensures var r := SkipPast(t, mark, status);
            ok == r.Beyond? && (ok ==> s < next && Reads(a, next, r.rest)) && (!ok ==> r == Wrong(status))
  {
    hide Reads, Find;
    next := ScanMark(a, s, mark, t);
    ghost var n := Find(t, mark);
    ReadsOn(a, s, t, n);
    if a[next] == '\0' { return false, next; }
    ReadsOn(a, s, t, n + |mark|);
    return true, next + |mark|;
  }

  method PrimitiveIn(a: array<char>, s: nat, ghost t: string) returns (ok: bool, next: nat)
    requires Reads(a, s, t) && t != ""
    ensures var r := SkipPrimitive(t);
            ok == r.Beyond? && (ok ==> s < next && Reads(a, next, r.rest)) && (!ok ==> r == Wrong(BadDoctype))
  {
    hide Reads, SkipPast;
    CharAt(a, s, t, 0);
    if a[s] == '"' || a[s] == '\'' {
      ReadsOn(a, s, t, 1);
      ok, next := SkipPastIn(a, s + 1, [a[s]], BadDoctype, t[1..]);
      return;
    }
    var here := MarkHere(a, s, "<?", t);
    if here {
      ReadsOn(a, s, t, 2);
      ok, next := SkipPastIn(a, s + 2, "?>", BadDoctype, t[2..]);
      return;
    }
    here := MarkHere(a, s, "<!--", t);
    if here {
      ReadsOn(a, s, t, 4);
      ok, next := SkipPastIn(a, s + 4, "-->", BadDoctype, t[4..]);
      return;
    }
    return false, s;
  }

  lemma IgnoreParts(t: string, depth: nat)
    ensures t == "" ==> SkipIgnore(t, depth) == Wrong(BadDoctype)
    ensures "<![" <= t ==> SkipIgnore(t, depth) == SkipIgnore(t[3..], depth + 1)
    ensures "]]>" <= t ==> SkipIgnore(t, depth) == if depth == 0 then Beyond(t[3..]) else SkipIgnore(t[3..], depth - 1)
    ensures t != "" && !("<![" <= t) && !("]]>" <= t) ==> SkipIgnore(t, depth) == SkipIgnore(t[1..], depth)
  {
    assert "<![" <= t ==> t[0] == '<';
    assert "]]>" <= t ==> t[0] == ']';
  }

  /** `parse_doctype_ignore`, behind the start of the section. */
  method IgnoreIn(a: array<char>, s: nat, ghost t0: string) returns (ok: bool, next: nat)
    requires Reads(a, s, t0)
    ensures var r := SkipIgnore(t0, 0);
            ok == r.Beyond? && (ok ==> s < next && Reads(a, next, r.rest)) && (!ok ==> r == Wrong(BadDoctype))
  {
    hide Reads, SkipIgnore;
    next := s;
    var depth := 0;
    ghost var t := t0;
    CharAt(a, s, t, 0);
    while a[next] != '\0'
      invariant s <= next && next < a.Length && Reads(a, next, t)
      invariant a[next] == if t != "" then t[0] else '\0'
      invariant SkipIgnore(t, depth) == SkipIgnore(t0, 0)
      decreases |t|
    {
      IgnoreParts(t, depth);
      var start := MarkHere(a, next, "<![", t);
      var end := MarkHere(a, next, "]]>", t);
      if start {
        ReadsOn(a, next, t, 3);
        next, depth, t := next + 3, depth + 1, t[3..];
      } else if end {
        ReadsOn(a, next, t, 3);
        next, t := next + 3, t[3..];
        if depth == 0 { return true, next; }
        depth := depth - 1;
      } else {
        ReadsOn(a, next, t, 1);
        next, t := next + 1, t[1..];
      }
      CharAt(a, next, t, 0);
    }
    CharAt(a, next, t, 0);
    IgnoreParts(t, depth);
    return false, next;
  }

  lemma DoctypeParts(t: string, depth: nat)
    ensures t == "" ==> SkipDoctype(t, depth) == Wrong(BadDoctype)
    ensures "<![" <= t ==>
              var r := SkipIgnore(t[3..], 0);
              SkipDoctype(t, depth) == if r.Beyond? then SkipDoctype(r.rest, depth) else r
    ensures "<!" <= t && !("<![" <= t) && !("<!-" <= t) ==> SkipDoctype(t, depth) == SkipDoctype(t[2..], depth + 1)
    ensures t != "" && (t[0] == '<' || t[0] == '"' || t[0] == '\'') && !("<!" <= t && !("<!-" <= t)) ==>
              var r := SkipPrimitive(t);
              SkipDoctype(t, depth) == if r.Beyond? then SkipDoctype(r.rest, depth) else r
    ensures t != "" && t[0] == '>'
            ==> SkipDoctype(t, depth) == if depth == 0 then Beyond(t[1..]) else SkipDoctype(t[1..], depth - 1)
    ensures t != "" && t[0] != '<' && t[0] != '"' && t[0] != '\'' && t[0] != '>'
            ==> SkipDoctype(t, depth) == SkipDoctype(t[1..], depth)
  {
    hide SkipIgnore, SkipPrimitive;
    assert "<!" <= t ==> t[0] == '<' && t[1] == '!';
    assert "<![" <= t ==> t[2] == '[' && t[..2] == "<!";
    assert "<!-" <= t ==> t[2] == '-' && t[..2] == "<!";
  }

  /** `parse_doctype_group`, behind its start: the `>` that ends the document type. */
  method DoctypeIn(a: array<char>, s: nat, ghost t0: string) returns (ok: bool, e: nat)
    requires Reads(a, s, t0)
    ensures var r := SkipDoctype(t0, 0);
            ok == r.Beyond? && (ok ==> s <= e && Reads(a, e + 1, r.rest)) && (!ok ==> r == Wrong(BadDoctype))
  {
    hide Reads, SkipDoctype, SkipIgnore, SkipPrimitive;
    e := s;
    var depth := 0;
    ghost var t := t0;
    CharAt(a, s, t, 0);
    while a[e] != '\0'
      invariant s <= e && e < a.Length && Reads(a, e, t)
      invariant a[e] == if t != "" then t[0] else '\0'
      invariant SkipDoctype(t, depth) == SkipDoctype(t0, 0)
      decreases |t|
    {
      DoctypeParts(t, depth);
      var c, group, comment, ignore := a[e], false, false, false;
      if c == '<' {
        group := MarkHere(a, e, "<!", t);
        comment := MarkHere(a, e, "<!-", t);
        ignore := MarkHere(a, e, "<![", t);
      }
      GroupStart(t);
      if group && !comment {
        if ignore {
          ReadsOn(a, e, t, 3);
          ok, e := IgnoreIn(a, e + 3, t[3..]);
          if !ok { return; }
          t := SkipIgnore(t[3..], 0).rest;
        } else {
          ReadsOn(a, e, t, 2);
          e, depth, t := e + 2, depth + 1, t[2..];
        }
      } else if c == '<' || c == '"' || c == '\'' {
        ok, e := PrimitiveIn(a, e, t);
        if !ok { return; }
        t := SkipPrimitive(t).rest;
      } else {
        ReadsOn(a, e, t, 1);
        if c == '>' {
          if depth == 0 { return true, e; }
          depth := depth - 1;
        }
        e, t := e + 1, t[1..];
      }
      CharAt(a, e, t, 0);
    }
    CharAt(a, e, t, 0);
    DoctypeParts(t, depth);
    return false, e;
  }

  lemma GroupStart(t: string)
    ensures "<!" <= t ==> t[0] == '<'
    ensures "<![" <= t ==> "<!" <= t && !("<!-" <= t)
  {
    assert "<![" <= t ==> t[2] == '[' && t[..2] == "<!";
    assert "<!-" <= t ==> t[2] == '-';
  }

  lemma ExclamationParts(t: string, open: nat)
    ensures "--" <= t ==> SkipExclamation(t, open) == SkipPast(t[2..], "-->", BadComment)
    ensures "-" <= t && !("--" <= t) ==> SkipExclamation(t, open) == Wrong(BadComment)
    ensures "[CDATA[" <= t ==> SkipExclamation(t, open) == SkipPast(t[7..], "]]>", BadCdata)
    ensures "[" <= t && !("[CDATA[" <= t) ==> SkipExclamation(t, open) == Wrong(BadCdata)
    ensures "DOCTYPE" <= t ==> SkipExclamation(t, open) == if open != 0 then Wrong(BadDoctype) else SkipDoctype(t, 0)
    ensures !("-" <= t) && !("[" <= t) && !("DOCTYPE" <= t) ==> SkipExclamation(t, open) == Wrong(UnrecognizedTag)
    ensures "--" <= t ==> "-" <= t
    ensures "[CDATA[" <= t ==> "[" <= t
  {
    hide SkipPast, SkipDoctype;
    assert "--" <= t ==> t[0] == '-';
    assert "-" <= t ==> t[0] == '-';
    assert "[CDATA[" <= t ==> t[0] == '[';
    assert "[" <= t ==> t[0] == '[';
    assert "DOCTYPE" <= t ==> t[0] == 'D';
  }

  /** `parse_exclamation`, behind `<!`: where the text goes on. The `>` of a document type is
    overwritten. */
  method PassExclamation(a: array<char>, s: nat, open: nat, ghost t: string)
    returns (ok: bool, status: Status, next: nat)
    requires Reads(a, s, t)
    modifies a
    ensures var r := SkipExclamation(t, open);
            ok == r.Beyond? && (ok ==> s < next && Reads(a, next, r.rest)) && (!ok ==> r == Wrong(status))
    ensures forall i | 0 <= i < a.Length && i < s :: a[i] == old(a[i])
  {
    hide Reads, SkipExclamation, SkipPast, SkipDoctype;
    ExclamationParts(t, open);
    next := s;
    var dash := MarkHere(a, s, "-", t);
    if dash {
      status := BadComment;
      ok := MarkHere(a, s, "--", t);
      if ok {
        ReadsOn(a, s, t, 2);
        ok, next := SkipPastIn(a, s + 2, "-->", BadComment, t[2..]);
      }
      return;
    }
    var bracket := MarkHere(a, s, "[", t);
    if bracket {
      status := BadCdata;
      ok := MarkHere(a, s, "[CDATA[", t);
      if ok {
        ReadsOn(a, s, t, 7);
        ok, next := SkipPastIn(a, s + 7, "]]>", BadCdata, t[7..]);
      }
      return;
    }
    ok := MarkHere(a, s, "DOCTYPE", t);
    if !ok { return false, UnrecognizedTag, s; }
    status := BadDoctype;
    if open != 0 { return false, status, s; }
    var e;
    ok, e := DoctypeIn(a, s, t);
    if ok {
      next := e + 1;
      ghost var rest := SkipDoctype(t, 0).rest;
      ReadsLength(a, next, rest);
      Snapshot(a, next, rest);
      ghost var b := a[..];
      a[e] := '\0';
      StillReads(a, b, next, rest, next);
      assert rest[next - next..] == rest;
    }
  }

  method ExclamationIn(a: array<char>, o: Options, s: nat, slots: seq<Slot>, open: nat, ghost t0: string,
      ghost d: Table, ghost before: nat, ghost r: Result)
    returns (p: Place, ghost t: string)
    requires Reads(a, s, t0) && Built(a, slots, before, d) && before <= s && IsTree(d) && open < |d|
             && Linked(slots, open)
    requires var x := SkipExclamation(t0, open);
             r == if x.Beyond? then ParseContent(o, x.rest, d, open) else Failed(x.status)
    modifies a
    ensures LeadsTo(a, o, p, t, d, r)
    ensures p.phase.Stopped? || (p.phase == BetweenTags && |t| < |t0|)
  {
    hide Reads, BuiltIn, Built, SkipExclamation, ParseContent, Linked, LeadsTo;
    t := "";
    BuiltNow(a, slots, before, d);
    ghost var b := a[..];
    var ok, status, next := PassExclamation(a, s, open, t0);
    if ok {
      t := SkipExclamation(t0, open).rest;
      ReadsLength(a, next, t);
      BuiltBefore(b, a, slots, before, next, d);
      p := Place(next, slots, open, BetweenTags);
      GoesOn(a, o, p, t, d, r);
    } else {
      p := Place(s, slots, open, Stopped(status));
      Stops(a, o, p, t, d, r);
    }
  }

  lemma BuiltNow(a: array<char>, slots: seq<Slot>, s: nat, d: Table)
    requires Built(a, slots, s, d)
    ensures BuiltIn(a[..], slots, s, d)
  {
    hide BuiltIn;
  }

  // ------------------------------------------------------------------ declarations and instructions

  lemma QuestionParts(o: Options, t: string, open: nat)
    ensures t == "" || !IsStartSymbol(t[0]) ==> ReadQuestion(o, t, open) == BadQuestion
    ensures t != "" && IsStartSymbol(t[0]) ==>
              var n := Symbols(t);
              && (n == |t| ==> ReadQuestion(o, t, open) == BadQuestion)
              && (n < |t| && !(IsXmlTarget(t[..n]) && o.declaration) ==>
                    var r := SkipPast(t[n..], "?>", BadPi);
                    ReadQuestion(o, t, open) == if r.Beyond? then Passed(r.rest) else BadQuestion)
              && (n < |t| && IsXmlTarget(t[..n]) && o.declaration && open != 0
                 ==> ReadQuestion(o, t, open) == BadQuestion)
  {
    hide Symbols, SkipSpaces, SkipPast, IsXmlTarget, Find;
  }

  lemma DeclarationCases(o: Options, t: string)
    requires t != "" && IsStartSymbol(t[0]) && Symbols(t) < |t| && IsXmlTarget(t[..Symbols(t)]) && o.declaration
    ensures var n := Symbols(t);
            if t[n] == '?' then
              ReadQuestion(o, t, 0)
                == if |t| > n + 1 && t[n + 1] == '>' then BareDeclaration(t[..n], t[n + 2..]) else BadQuestion
            else if IsSpace(t[n]) then
              var u := SkipSpaces(t[n + 1..]);
              var k := Find(u, "?>");
              ReadQuestion(o, t, 0) == if k == |u| then BadQuestion else DeclarationTag(t[..n], u[k := '/'])
            else ReadQuestion(o, t, 0) == BadQuestion
  {
    hide Symbols, SkipSpaces, SkipPast, IsXmlTarget, Find;
    var n := Symbols(t);
    if |t| > n + 1 { assert t[n..][..2] == [t[n], t[n + 1]]; }
  }

  method IsXmlHere(a: array<char>, s: nat, e: nat, ghost t: string) returns (xml: bool)
    requires Reads(a, s, t) && e == s + Symbols(t)
    ensures xml <==> IsXmlTarget(t[..Symbols(t)])
  {
    hide Symbols;
    if e != s + 3 { return false; }
    return (a[s] == 'x' || a[s] == 'X') && (a[s + 1] == 'm' || a[s + 1] == 'M') && (a[s + 2] == 'l' || a[s + 2] == 'L');
  }

  lemma QuestionResult(o: Options, t: string, d: Table, open: nat)
    requires IsTree(d) && open < |d|
    ensures match ReadQuestion(o, t, open)
            case BadQuestion => ParseQuestion(o, t, d, open) == Failed(BadPi)
            case Passed(rest) =>
              ParseQuestion(o, t, d, open)
              == if d[open].data.kind.Declaration? && open > 0 then ParseAttributes(o, rest, d, open)
                 else ParseContent(o, rest, d, open)
            case BareDeclaration(name, rest) =>
              ParseQuestion(o, t, d, open)
                == ParseContent(o, rest, d + [Row(open, NodeData(Declaration, name, "", []))], open)
            case DeclarationTag(name, rest) =>
              ParseQuestion(o, t, d, open)
                == ParseAttributes(o, rest, d + [Row(open, NodeData(Declaration, name, "", []))], |d|)
  {
    hide ReadQuestion, ParseContent, ParseAttributes;
  }

  /** `parse_question`, behind `<?`. */
  method QuestionIn(a: array<char>, o: Options, s: nat, slots: seq<Slot>, open: nat, ghost t0: string, ghost d: Table)
    returns (p: Place, ghost t: string, ghost d': Table)
    requires Reads(a, s, t0) && Built(a, slots, s, d) && IsTree(d) && open < |d| && Linked(slots, open)
    modifies a
    ensures LeadsTo(a, o, p, t, d', ParseQuestion(o, t0, d, open))
    ensures p.phase.Stopped? || (p.phase == BetweenTags && |t| < |t0|)
  {
    hide Reads, BuiltIn, Built, Symbols, ParseContent, ParseQuestion, ParseAttributes, ReadQuestion, SkipPast,
         IsXmlTarget, Linked, LeadsTo;
    ghost var r := ParseQuestion(o, t0, d, open);
    t, d' := "", d;
    QuestionParts(o, t0, open);
    QuestionResult(o, t0, d, open);
    CharAt(a, s, t0, 0);
    p := Place(s, slots, open, Stopped(BadPi));
    if !IsStartSymbol(a[s]) {
      Stops(a, o, p, t, d, r);
      return;
    }
    var e := ScanSymbols(a, s, t0);
    CharAt(a, s, t0, Symbols(t0));
    if a[e] == '\0' {
      Stops(a, o, p, t, d, r);
      return;
    }
    var xml := IsXmlHere(a, s, e, t0);
    if xml && o.declaration {
      if open != 0 {
        Stops(a, o, p, t, d, r);
        return;
      }
      p, t, d' := DeclarationIn(a, o, s, e, slots, t0, d, r);
    } else {
      var ok, next := SkipPastIn(a, e, "?>", BadPi, t0[Symbols(t0)..]);
      if !ok {
        Stops(a, o, p, t, d, r);
        return;
      }
      t := SkipPast(t0[Symbols(t0)..], "?>", BadPi).rest;
      BuiltLater(a, slots, s, next, d, t);
      SlotFor(a, slots, next, d, open);
      if slots[open].kind == Declaration && open > 0 {
        p, t, d' := AttributesIn(a, o, next, slots, open, t, d);
      } else {
        p := Place(next, slots, open, BetweenTags);
        GoesOn(a, o, p, t, d, r);
      }
    }
  }

  /** A declaration, whose name ends at `e`. */
  method DeclarationIn(a: array<char>, o: Options, s: nat, e: nat, slots0: seq<Slot>, ghost t0: string, ghost d: Table,
      ghost r: Result)
    returns (p: Place, ghost t: string, ghost d': Table)
    requires Reads(a, s, t0) && Built(a, slots0, s, d) && IsTree(d) && Linked(slots0, 0) && t0 != ""
             && IsStartSymbol(t0[0])
    requires e == s + Symbols(t0) && Symbols(t0) < |t0| && IsXmlTarget(t0[..Symbols(t0)]) && o.declaration
             && r == ParseQuestion(o, t0, d, 0)
    modifies a
    ensures LeadsTo(a, o, p, t, d', r)
    ensures p.phase.Stopped? || (p.phase == BetweenTags && |t| < |t0|)
  {
    hide Reads, BuiltIn, Built, Symbols, SkipSpaces, Find, ParseContent, ParseQuestion, ParseAttributes, ReadQuestion,
         IsXmlTarget, Linked, LeadsTo;
    DeclarationCases(o, t0);
    QuestionResult(o, t0, d, 0);
    ghost var n := Symbols(t0);
    ghost var data := NodeData(Declaration, t0[..n], "", []);
    CharAt(a, s, t0, n);
    var ch, slots := PushNode(a, s, e, Declaration, slots0, 0, t0, d);
    t, d' := t0[n + 1..], d + [Row(0, data)];
    AppendedIsTree(d, 0, data);
    CharAt(a, e + 1, t, 0);
    p := Place(e + 1, slots, 0, Stopped(BadPi));
    if ch == '?' {
      if a[e + 1] == '>' {
        ReadsOn(a, e + 1, t, 1);
        t := t[1..];
        BuiltLater(a, slots, e + 1, e + 2, d', t);
        p := Place(e + 2, slots, 0, BetweenTags);
        GoesOn(a, o, p, t, d', r);
      } else {
        Stops(a, o, p, t, d', r);
      }
    } else if IsSpace(ch) {
      p, t, d' := DeclarationEndIn(a, o, e + 1, slots, t, d', r);
    } else {
      Stops(a, o, p, t, d', r);
    }
  }

  /** The end mark of a declaration is looked for and changed before its attributes are read. */
  method DeclarationEndIn(a: array<char>, o: Options, s: nat, slots: seq<Slot>, ghost t0: string, ghost d: Table,
      ghost r: Result)
    returns (p: Place, ghost t: string, ghost d': Table)
    requires Reads(a, s, t0) && Built(a, slots, s, d) && IsTree(d) && |d| > 1 && Linked(slots, |slots| - 1)
    requires var u := SkipSpaces(t0);
             var k := Find(u, "?>");
             r == if k == |u| then Failed(BadPi) else ParseAttributes(o, u[k := '/'], d, |d| - 1)
    modifies a
    ensures LeadsTo(a, o, p, t, d', r)
    ensures p.phase.Stopped? || (p.phase == BetweenTags && |t| <= |t0|)
  {
    hide Reads, BuiltIn, Built, SkipSpaces, Find, ParseContent, ParseAttributes, Linked, LeadsTo;
    SlotCount(a, slots, s, d);
    t, d' := "", d;
    ghost var u := SkipSpaces(t0);
    var value := ScanSpaces(a, s, t0);
    var e := ScanMark(a, value, "?>", u);
    ghost var k := Find(u, "?>");
    ReadsLength(a, value, u);
    if a[e] == '\0' {
      p := Place(e, slots, 0, Stopped(BadPi));
      Stops(a, o, p, t, d, r);
      return;
    }
    BuiltNow(a, slots, s, d);
    ghost var b := a[..];
    Snapshot(a, value, u);
    a[e] := '/';
    CharChanged(a, b, value, u, k);
    BuiltBefore(b, a, slots, s, value, d);
    p, t, d' := AttributesIn(a, o, value, slots, |slots| - 1, u[k := '/'], d);
  }

  lemma CharChanged(a: array<char>, b: string, s: nat, t: string, k: nat)
    requires ReadIn(b, s, t) && |b| == a.Length && k < |t| && s + k < a.Length && a[s + k] == '/'
    requires forall i | 0 <= i < a.Length && i != s + k :: a[i] == b[i]
    ensures Reads(a, s, t[k := '/'])
  {
  }

  lemma Resumed(a: array<char>, o: Options, p: Place, t: string, d: Table, r: Result)
    requires p.phase == AfterAngle && LeadsTo(a, o, p, t, d, r)
    ensures Ready(a, p, t, d) && r == ParseTag(o, t, d, p.open)
  {
    hide Reads, Built, ParseTag, Linked;
  }

  /** One round of the main loop after a `<`. */
  method AfterAngleIn(a: array<char>, o: Options, p0: Place, ghost t0: string, ghost d: Table, ghost r: Result)
    returns (p: Place, ghost t: string, ghost d': Table)
    requires p0.phase == AfterAngle && LeadsTo(a, o, p0, t0, d, r)
    modifies a
    ensures LeadsTo(a, o, p, t, d', r)
    ensures p.phase.Stopped? || (p.phase == BetweenTags && |t| < |t0|)
  {
    hide Reads, BuiltIn, Built, ParseContent, ParseTag, ParseEndTag, ParseQuestion, SkipExclamation, Linked, LeadsTo;
    var s, slots, open := p0.s, p0.slots, p0.open;
    t, d' := t0, d;
    Resumed(a, o, p0, t0, d, r);
    AngleParts(o, t0, d, open);
    CharAt(a, s, t0, 0);
    if IsStartSymbol(a[s]) {
      p, t, d' := StartTagIn(a, o, s, slots, open, t0, d);
    } else if a[s] == '/' {
      ReadsOn(a, s, t0, 1);
      BuiltLater(a, slots, s, s + 1, d, t0[1..]);
      p, t := EndTagIn(a, o, s + 1, slots, open, t0[1..], d);
    } else if a[s] == '?' {
      ReadsOn(a, s, t0, 1);
      BuiltLater(a, slots, s, s + 1, d, t0[1..]);
      p, t, d' := QuestionIn(a, o, s + 1, slots, open, t0[1..], d);
    } else if a[s] == '!' {
      ReadsOn(a, s, t0, 1);
      p, t := ExclamationIn(a, o, s + 1, slots, open, t0[1..], d, s, r);
    } else {
      p := Place(s, slots, open, Stopped(UnrecognizedTag));
      Stops(a, o, p, t, d', r);
    }
  }

  // ------------------------------------------------------------------ a whole buffer

  ghost function Rows(b: string, slots: seq<Slot>): Table {
    seq(|slots|, i requires 0 <= i < |slots| => RowAt(b, slots[i]))
  }

  datatype Tree = Tree(slots: seq<Slot>) | NoTree(status: Status)

  /** What stands in the buffer is the document the pure parser builds, or the same error. */
  ghost predicate Agrees(b: string, x: Tree, r: Result) {
    if r.Parsed? then x.Tree? && Rows(b, x.slots) == r.rows else x == NoTree(r.status)
  }

  lemma BuiltRows(a: array<char>, slots: seq<Slot>, s: nat, d: Table)
    requires Built(a, slots, s, d)
    ensures Rows(a[..], slots) == d
  {
    hide RowAt, SealedSlot;
  }

  lemma EmptyBuilt(a: array<char>, s: nat)
    ensures Built(a, [Slot(-1, DocumentNode, -1, -1, [])], s, NewDocument())
  {
    NullString(a[..]);
    assert AttributesAt(a[..], []) == [];
    hide StringAt, SealedAt;
  }

  /** `parse_tree`: the text of the buffer from position `s` on. */
  method ParseTree(a: array<char>, o: Options, s: nat, ghost t0: string) returns (x: Tree)
    requires Reads(a, s, t0)
    modifies a
    ensures Agrees(a[..], x, ParseContent(o, t0, NewDocument(), 0))
  {
    hide Reads, BuiltIn, Built, ParseContent, ParseTag, Agrees;
    ghost var r := ParseContent(o, t0, NewDocument(), 0);
    var p := Place(s, [Slot(-1, DocumentNode, -1, -1, [])], 0, BetweenTags);
    ghost var t, d := t0, NewDocument();
    EmptyBuilt(a, s);
    while p.phase == BetweenTags || p.phase == AfterAngle
      invariant LeadsTo(a, o, p, t, d, r)
      decreases if p.phase == BetweenTags || p.phase == AfterAngle then 1 else 0, |t|
    {
      if p.phase == BetweenTags {
        p, t, d := BetweenTagsIn(a, o, p, t, d, r);
      } else {
        p, t, d := AfterAngleIn(a, o, p, t, d, r);
      }
    }
    x := if p.phase.Stopped? then NoTree(p.phase.status) else if p.open != 0 then NoTree(EndElementMismatch)
      else Tree(p.slots);
    Concluded(a, o, p, t, d, r, x);
  }

  lemma Concluded(a: array<char>, o: Options, p: Place, t: string, d: Table, r: Result, x: Tree)
    requires LeadsTo(a, o, p, t, d, r) && (p.phase.Stopped? || p.phase.AtEnd?)
    requires x == if p.phase.Stopped? then NoTree(p.phase.status) else if p.open != 0 then NoTree(EndElementMismatch)
             else Tree(p.slots)
    ensures Agrees(a[..], x, r)
  {
    hide RowAt, SealedSlot, Built;
    if p.phase.AtEnd? { BuiltRows(a, p.slots, p.s, d); }
  }

  /** `has_element_node_siblings` over the children of the root. */
  method AnyElement(slots: seq<Slot>) returns (found: bool)
    ensures found <==> exists i | 0 < i < |slots| :: slots[i].parent == 0 && slots[i].kind == Element
  {
    for i := 0 to |slots|
      invariant forall k | 0 < k < i :: !(slots[k].parent == 0 && slots[k].kind == Element)
    {
      if i > 0 && slots[i].parent == 0 && slots[i].kind == Element { return true; }
    }
    return false;
  }

  lemma SameElements(b: string, slots: seq<Slot>, d: Table)
    requires Rows(b, slots) == d
    ensures HasElement(d) <==> exists i | 0 < i < |slots| :: slots[i].parent == 0 && slots[i].kind == Element
  {
    hide StringAt, AttributesAt;
    assert forall i | 0 <= i < |slots| :: d[i] == RowAt(b, slots[i]);
    if i :| 0 < i < |slots| && slots[i].parent == 0 && slots[i].kind == Element { assert d[i].parent == 0; }
  }

  /** A private, zero-terminated copy of the contents, as `get_mutable_buffer` makes it. */
  method MutableBuffer(contents: string) returns (a: array<char>)
    ensures fresh(a) && a.Length == |contents| + 1 && Reads(a, 0, CString(contents))
  {
    a := new char[|contents| + 1];
    for i := 0 to |contents|
      invariant forall k | 0 <= k < i :: a[k] == contents[k]
    {
      a[i] := contents[i];
    }
    a[|contents|] := '\0';
    CutAtNul(contents);
  }

  /** `load_buffer`: copy, skip a byte order mark, parse in place, and look for a document element. */
  method LoadBuffer(contents: string, o: Options) returns (a: array<char>, x: Tree)
    ensures Agrees(a[..], x, Parse(o, contents))
  {
    a := MutableBuffer(contents);
    ghost var t := CString(contents);
    var s := 0;
    CharAt(a, 0, t, 0);
    if a[0] as int == 0xEF {
      CharAt(a, 0, t, 1);
      if a[1] as int == 0xBB {
        CharAt(a, 0, t, 2);
        if a[2] as int == 0xBF { s := 3; }
      }
    }
    ReadsOn(a, 0, t, s);
    assert t[0..] == t;
    assert SkipBom(t) == t[s..];
    hide Reads, ParseContent, CString, HasElement, Rows;
    x := ParseTree(a, o, s, SkipBom(t));
    if x.Tree? && !o.fragment {
      SameElements(a[..], x.slots, Rows(a[..], x.slots));
      var found := AnyElement(x.slots);
      if !found { x := NoTree(NoDocumentElement); }
    }
  }
}
