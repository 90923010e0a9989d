/** Parsing undoes printing.

  The text of a subtree, in any format that only adds white space the parser skips, is read back
  row by row: while the printer is at a row, the parser has rebuilt exactly the rows before it and
  has that row's parent open. */
module RoundTrip {
  import opened Document
  import opened Characters
  import opened Escapes
  import opened Printer
  import opened Parser

  // ------------------------------------------------------------------ what is read back

  function ReadAttribute(o: Options, fmt: Format, a: Attribute): Attribute {
    Attribute(PrintedName(a.name), ReadBack(AttributeRules(o, QuoteOf(fmt)), fmt.style, true, a.value))
  }

  function ReadAttributes(o: Options, fmt: Format, attributes: seq<Attribute>): (r: seq<Attribute>)
    ensures |r| == |attributes|
    ensures forall k | 0 <= k < |r| :: r[k] == ReadAttribute(o, fmt, attributes[k])
  {
    seq(|attributes|, k requires 0 <= k < |attributes| => ReadAttribute(o, fmt, attributes[k]))
  }

  /** The record of a printed node as the parser rebuilds it. */
  function ReadData(o: Options, fmt: Format, data: NodeData): NodeData {
    match data.kind
    case Element => NodeData(Element, PrintedName(data.name), "", ReadAttributes(o, fmt, data.attributes))
    case Declaration => NodeData(Declaration, PrintedName(data.name), "", ReadAttributes(o, fmt, data.attributes))
    case DocumentNode => EmptyDocument
    case _ => NodeData(Pcdata, "", ReadBack(TextRules(o), fmt.style, false, data.value), [])
  }

  /** Row `i` is inside a declaration, whose children are not printed. */
  ghost predicate Hidden(d: Table, r: nat, i: nat) {
    exists j: nat :: r <= j < i && j < |d| && d[j].data.kind.Declaration? && i < End(d, j)
  }

  /** Row `i` leaves a trace in print that the parser takes for a node. */
  ghost predicate Shown(o: Options, d: Table, r: nat, i: nat)
    requires i < |d|
  {
    !Hidden(d, r, i) && (d[i].data.kind.Pcdata? ==> TextSurvives(o, d[i].data.value))
  }

  /** Where the parser puts row `i` of the subtree of `r`: after a document row of its own, unless `r`
    is the document, and after the rows that leave a trace. */
  ghost function Place(o: Options, d: Table, r: nat, i: nat): nat
    requires r < |d| && r <= i <= |d|
    decreases i
  {
    if i == r then if d[r].data.kind.DocumentNode? then 0 else 1
    else Place(o, d, r, i - 1) + if Shown(o, d, r, i - 1) then 1 else 0
  }

  ghost function NewParent(o: Options, d: Table, r: nat, i: nat): int
    requires WellFormed(d) && r < |d| && r <= i < End(d, r)
  {
    if i == r then (if d[r].data.kind.DocumentNode? then -1 else 0)
    else
      SubtreeNested(d, r, i);
      Place(o, d, r, d[i].parent)
  }

  /** The row the parser has open when the printer is about to write row `i`. */
  ghost function OpenAt(o: Options, d: Table, r: nat, i: nat): nat
    requires WellFormed(d) && r < |d| && r <= i < End(d, r)
  {
    if i == r then 0 else NewParent(o, d, r, i)
  }

  /** The rows `r .. n` as the parser rebuilds them. */
  ghost function Rebuilt(o: Options, fmt: Format, d: Table, r: nat, n: nat): (t: Table)
    requires WellFormed(d) && r < |d| && r <= n <= End(d, r)
    decreases n
  {
    if n == r then (if d[r].data.kind.DocumentNode? then [] else NewDocument())
    else if Shown(o, d, r, n - 1) then
      Rebuilt(o, fmt, d, r, n - 1) + [Row(NewParent(o, d, r, n - 1), ReadData(o, fmt, d[n - 1].data))]
    else Rebuilt(o, fmt, d, r, n - 1)
  }

  // ------------------------------------------------------------------ what survives printing

  predicate PrintableName(s: string) {
    s == "" || IsName(s)
  }

  /** The parser drops character data that is nothing but white space unless it is asked to keep it,
    and empty character data leaves no trace in the text. */
  predicate TextSurvives(o: Options, v: string) {
    '\0' !in v && if o.spaceText then v != "" else !AllSpaces(v)
  }

  predicate PrintableAttributes(attributes: seq<Attribute>) {
    forall k | 0 <= k < |attributes| :: PrintableName(attributes[k].name) && '\0' !in attributes[k].value
  }

  predicate PiEndAt(s: string, i: nat) {
    i + 1 < |s| && s[i] == '?' && s[i + 1] == '>'
  }

  predicate NoPiEnd(s: string) {
    forall i | 0 <= i < |s| :: !PiEndAt(s, i)
  }

  predicate PrintableDeclaration(o: Options, data: NodeData) {
    o.declaration && IsXmlTarget(data.name) && PrintableAttributes(data.attributes)
  }

  /** The first `?>` ends a declaration, even inside an attribute value. */
  predicate Whole(data: NodeData) {
    data.kind.Declaration? ==> forall k | 0 <= k < |data.attributes| :: NoPiEnd(data.attributes[k].value)
  }

  predicate PrintableData(o: Options, data: NodeData) {
    match data.kind
    case Element => PrintableName(data.name) && PrintableAttributes(data.attributes)
    case Declaration => PrintableDeclaration(o, data)
    case Pcdata => '\0' !in data.value
    case _ => false
  }

  /** Two pieces of character data that stand side by side, so that in print they are one. */
  predicate Joins(d: Table, i: nat) {
    && i + 1 < |d|
    && d[i].data.kind.Pcdata? && d[i + 1].data.kind.Pcdata?
    && d[i + 1].parent == d[i].parent
  }

  /** Row `i` of the subtree is written in a form the parser accepts where it stands. */
  ghost predicate WritableRow(o: Options, d: Table, r: nat, i: nat)
    requires WellFormed(d) && r < |d| && r <= i < |d|
  {
    && ((i == r && d[i].data.kind.DocumentNode?) || PrintableData(o, d[i].data))
    && (d[i].data.kind.Pcdata? ==>
          && i > r
          && End(d, i) == i + 1
          && (d[r].data.kind.DocumentNode? && d[i].parent == r ==> o.fragment))
    && (d[i].data.kind.Declaration? && i > r ==> d[r].data.kind.DocumentNode? && d[i].parent == r)
  }

  /** A tree of named elements, character data, and declarations at its top; what is inside these does
    not matter. */
  ghost predicate WritableTree(o: Options, d: Table, r: nat)
    requires WellFormed(d) && r < |d|
  {
    forall i | r <= i < End(d, r) :: Hidden(d, r, i) || WritableRow(o, d, r, i)
  }

  ghost predicate AllShown(o: Options, d: Table, r: nat)
    requires r < |d|
  {
    forall i | r <= i < End(d, r) :: Shown(o, d, r, i)
  }

  /** Row `i` can also be told from the text beside it. */
  ghost predicate PrintableRow(o: Options, d: Table, r: nat, i: nat)
    requires WellFormed(d) && r < |d| && r <= i < |d|
  {
    WritableRow(o, d, r, i) && !Joins(d, i)
  }

  /** The same, with no two pieces of character data side by side. */
  ghost predicate PrintableTree(o: Options, d: Table, r: nat)
    requires WellFormed(d) && r < |d|
  {
    forall i | r <= i < End(d, r) :: Hidden(d, r, i) || PrintableRow(o, d, r, i)
  }

  /** The format's own white space is white space, and none of it is taken for character data. */
  predicate ReadableFormat(o: Options, fmt: Format, indent: string) {
    Faithful(fmt.style) && AllSpaces(indent) && (o.spaceText ==> fmt.raw)
  }

  // ------------------------------------------------------------------ white space and names

  lemma {:induction false} RepeatSpaces(s: string, n: nat)
    requires AllSpaces(s)
    ensures AllSpaces(Repeat(s, n)) && (s == "" ==> Repeat(s, n) == "")
  {
    if n > 0 { RepeatSpaces(s, n - 1); }
  }

  lemma LeadSpaces(o: Options, fmt: Format, indent: string, layout: Layout, depth: nat)
    requires ReadableFormat(o, fmt, indent)
    ensures AllSpaces(Lead(fmt, indent, layout, depth))
            && (o.spaceText || layout == Flat ==> Lead(fmt, indent, layout, depth) == "")
  {
    RepeatSpaces(IndentUnit(fmt, indent), depth);
  }

  lemma AttributeLeadSpaces(o: Options, fmt: Format, indent: string, depth: nat)
    requires ReadableFormat(o, fmt, indent)
    ensures var lead := AttributeLead(fmt, indent, depth); lead != "" && AllSpaces(lead)
  {
    RepeatSpaces(IndentUnit(fmt, indent), depth + 1);
  }

  lemma PrintedNameIsName(name: string)
    requires PrintableName(name)
    ensures IsName(PrintedName(name))
  {
  }

  /** The parser skips white space in front of a tag or at the end. */
  lemma SkipLead(o: Options, lead: string, s: string, d: Table, open: nat)
    requires IsTree(d) && open < |d| && AllSpaces(lead) && (o.spaceText ==> lead == "")
    requires s == "" || s[0] == '<'
    ensures ParseContent(o, lead + s, d, open) == ParseContent(o, s, d, open)
  {
    if lead == "" {
      assert lead + s == s;
    } else {
      SpacesThen(lead, s);
      assert (lead + s)[|lead|..] == s;
      assert SkipSpaces(lead + s) == s;
      assert IsSpace((lead + s)[0]);
    }
  }

  lemma SkipSpacesThen(lead: string, s: string)
    requires AllSpaces(lead) && (s != "" ==> !IsSpace(s[0]))
    ensures SkipSpaces(lead + s) == s
  {
    SpacesThen(lead, s);
    assert (lead + s)[|lead|..] == s;
  }

  lemma NameThen(name: string, s: string)
    requires AllSymbols(name) && (s != "" ==> !IsSymbol(s[0]))
    ensures Symbols(name + s) == |name| && (name + s)[..|name|] == name && (name + s)[|name|..] == s
  {
    SymbolsThen(name, s);
  }

  // ------------------------------------------------------------------ attributes

  lemma {:induction false} ReadBackNoNul(rules: Rules, style: EscapeStyle, inAttribute: bool, v: string)
    requires '\0' !in v && Faithful(style)
    ensures CString(ReadBack(rules, style, inAttribute, v)) == ReadBack(rules, style, inAttribute, v)
    decreases |v|
  {
    NoNulInReadBack(rules, style, inAttribute, v);
  }

  lemma {:induction false} NoNulInReadBack(rules: Rules, style: EscapeStyle, inAttribute: bool, v: string)
    requires '\0' !in v && Faithful(style)
    ensures '\0' !in ReadBack(rules, style, inAttribute, v)
    decreases |v|
  {
    if v != "" {
      hide ReadBack, Escaped;
      ReadBackStep(rules, style, inAttribute, v);
      NoNulEscaped(style, inAttribute, v[0]);
      if !inAttribute && rules.spacing == Eol && v[0] == '\r' {
        NoNulInReadBack(rules, style, inAttribute, v[LineEndLength(v)..]);
      } else {
        NoNulInReadBack(rules, style, inAttribute, v[1..]);
      }
    }
  }

  lemma NoNulEscaped(style: EscapeStyle, inAttribute: bool, c: char)
    requires c != '\0'
    ensures '\0' !in Escaped(style, inAttribute, c)
  {
  }

  lemma ParseAttributeParts(o: Options, name: string, q: char, text: string)
    requires IsName(name) && (q == '"' || q == '\'')
    ensures var s := name + (['=', q] + text);
            var (value, rest) := Decode(AttributeRules(o, q), text);
            && IsStartSymbol(s[0])
            && ParseAttribute(o, s)
               == if rest == "" || (|rest| > 1 && IsStartSymbol(rest[1])) then NoAttribute
                  else OneAttribute(Attribute(name, CString(value)), rest[1..])
  {
    hide Decode, Spaces, Symbols, SkipSpaces, CString;
    var tail := ['=', q] + text;
    NameThen(name, tail);
    NoSpaces(tail);
    assert tail[1..] == [q] + text;
    NoSpaces([q] + text);
    assert ([q] + text)[1..] == text;
  }

  lemma NoSpaces(s: string)
    requires s != "" ==> !IsSpace(s[0])
    ensures SkipSpaces(s) == s
  {
  }

  /** One printed attribute. */
  lemma AttributeRead(o: Options, fmt: Format, a: Attribute, rest: string)
    requires Faithful(fmt.style) && PrintableName(a.name) && '\0' !in a.value
    requires rest != "" && !IsStartSymbol(rest[0])
    ensures var s := PrintedName(a.name)
            + (['=', QuoteOf(fmt)] + (EscapedText(fmt.style, true, a.value) + ([QuoteOf(fmt)] + rest)));
            s != "" && IsStartSymbol(s[0]) && ParseAttribute(o, s) == OneAttribute(ReadAttribute(o, fmt, a), rest)
  {
    hide EscapedText, ReadBack, Decode, Spaces, Symbols, CString, ParseAttribute;
    var q := QuoteOf(fmt);
    PrintedNameIsName(a.name);
    ParseAttributeParts(o, PrintedName(a.name), q, EscapedText(fmt.style, true, a.value) + ([q] + rest));
    DecodeEscaped(AttributeRules(o, q), fmt.style, true, a.value, [q] + rest);
    ReadBackNoNul(AttributeRules(o, q), fmt.style, true, a.value);
    assert ([q] + rest)[1..] == rest;
  }

  /** Inside the tag of a node that has just been appended. */
  function InTag(o: Options, s: string, d: Table, open: nat, data: NodeData): Result
    requires IsTree(d) && open < |d|
  {
    ParseAttributes(o, s, d + [Row(open, data)], |d|)
  }

  lemma InTagSkips(o: Options, s: string, t: string, d: Table, open: nat, data: NodeData)
    requires IsTree(d) && open < |d| && SkipSpaces(s) == SkipSpaces(t)
    ensures InTag(o, s, d, open, data) == InTag(o, t, d, open, data)
  {
    hide SkipSpaces, ParseAttribute, ParseContent, AddAttribute;
  }

  /** Something other than an attribute inside a tag. */
  lemma InTagEnd(o: Options, s: string, u: string, d: Table, open: nat, data: NodeData)
    requires IsTree(d) && open < |d| && SkipSpaces(s) == u && u != "" && !IsStartSymbol(u[0])
    ensures InTag(o, s, d, open, data)
            == if |u| > 1 && u[0] == '/' && u[1] == '>' then ParseContent(o, u[2..], d + [Row(open, data)], open)
               else if u[0] == '>' then ParseContent(o, u[1..], d + [Row(open, data)], |d|)
               else Failed(BadStartElement)
  {
    hide SkipSpaces, ParseAttribute, ParseContent, AddAttribute;
  }

  lemma ParseAttributesSkips(o: Options, lead: string, s: string, d: Table, open: nat, data: NodeData)
    requires IsTree(d) && open < |d| && AllSpaces(lead) && s != "" && !IsSpace(s[0])
    ensures InTag(o, lead + s, d, open, data) == InTag(o, s, d, open, data)
  {
    hide SkipSpaces, InTag;
    SkipSpacesThen(lead, s);
    NoSpaces(s);
    InTagSkips(o, lead + s, s, d, open, data);
  }

  lemma {:induction false} AttributesTextFront(fmt: Format, indent: string, depth: nat, attributes: seq<Attribute>)
    requires attributes != []
    ensures AttributesText(fmt, indent, depth, attributes)
            == AttributeText(fmt, indent, depth, attributes[0]) + AttributesText(fmt, indent, depth, attributes[1..])
  {
    hide AttributeText;
    var n := |attributes|;
    if n > 1 {
      AttributesTextFront(fmt, indent, depth, attributes[..n - 1]);
      assert attributes[..n - 1][1..] == attributes[1..][..n - 2];
      var first, middle, last := AttributeText(fmt, indent, depth, attributes[0]),
          AttributesText(fmt, indent, depth, attributes[1..][..n - 2]),
            AttributeText(fmt, indent, depth, attributes[n - 1]);
      Regroup(first, middle, last);
    } else {
      assert attributes[..0] == [];
      assert "" + AttributeText(fmt, indent, depth, attributes[0])
        == AttributeText(fmt, indent, depth, attributes[0]) + "";
    }
  }

  lemma AddedToLast(d: Table, open: nat, data: NodeData, a: Attribute)
    ensures AddAttribute(d + [Row(open, data)], |d|, a) == d + [Row(open, data.(attributes := data.attributes + [a]))]
  {
  }

  lemma AttributeStep(o: Options, s: string, d: Table, node: nat)
    requires IsTree(d) && 0 < node < |d| && s != "" && IsStartSymbol(s[0]) && ParseAttribute(o, s).OneAttribute?
    ensures var one := ParseAttribute(o, s);
            IsTree(AddAttribute(d, node, one.a))
              && ParseAttributes(o, s, d, node) == ParseAttributes(o, one.rest, AddAttribute(d, node, one.a), node)
  {
    hide ParseAttribute, SkipSpaces, ParseContent, Symbols, AddAttribute;
    NoSpaces(s);
  }

  lemma ParseAttributesAtName(o: Options, s: string, d: Table, open: nat, data: NodeData)
    requires IsTree(d) && open < |d| && s != "" && IsStartSymbol(s[0]) && ParseAttribute(o, s).OneAttribute?
    ensures var one := ParseAttribute(o, s);
            InTag(o, s, d, open, data)
            == InTag(o, one.rest, d, open, data.(attributes := data.attributes + [one.a]))
  {
    hide ParseAttribute, ParseAttributes, AddAttribute;
    AttributeStep(o, s, d + [Row(open, data)], |d|);
    AddedToLast(d, open, data, ParseAttribute(o, s).a);
  }

  lemma OneAttributeRead(o: Options, fmt: Format, indent: string, depth: nat, a: Attribute, rest: string, d: Table,
      open: nat, data: NodeData)
    requires IsTree(d) && open < |d| && ReadableFormat(o, fmt, indent)
    requires PrintableName(a.name) && '\0' !in a.value && rest != "" && !IsStartSymbol(rest[0])
    ensures InTag(o, AttributeText(fmt, indent, depth, a) + rest, d, open, data)
            == InTag(o, rest, d, open, data.(attributes := data.attributes + [ReadAttribute(o, fmt, a)]))
  {
    hide InTag, ParseAttribute, EscapedText, PrintedName, AttributeLead, ReadAttribute;
    var lead, name, eq, value, q := AttributeLead(fmt, indent, depth), PrintedName(a.name), ['=', QuoteOf(fmt)],
        EscapedText(fmt.style, true, a.value), [QuoteOf(fmt)];
    var s := name + (eq + (value + (q + rest)));
    assert AttributeText(fmt, indent, depth, a) + rest == lead + s;
    AttributeLeadSpaces(o, fmt, indent, depth);
    AttributeRead(o, fmt, a, rest);
    ParseAttributesSkips(o, lead, s, d, open, data);
    ParseAttributesAtName(o, s, d, open, data);
  }

  lemma ReadAttributesFront(o: Options, fmt: Format, attributes: seq<Attribute>, before: seq<Attribute>)
    requires attributes != []
    ensures before + ReadAttributes(o, fmt, attributes)
            == (before + [ReadAttribute(o, fmt, attributes[0])]) + ReadAttributes(o, fmt, attributes[1..])
  {
  }

  lemma AttributesTextStart(o: Options, fmt: Format, indent: string, depth: nat, attributes: seq<Attribute>)
    requires ReadableFormat(o, fmt, indent) && attributes != []
    ensures var t := AttributesText(fmt, indent, depth, attributes); t != "" && IsSpace(t[0])
  {
    AttributesTextFront(fmt, indent, depth, attributes);
    AttributeLeadSpaces(o, fmt, indent, depth);
    hide AttributesText, AttributeLead;
  }

  lemma {:induction false} AttributesRead(o: Options, fmt: Format, indent: string, depth: nat,
      attributes: seq<Attribute>, tail: string,
                                          d: Table, open: nat, data: NodeData)
    requires IsTree(d) && open < |d| && ReadableFormat(o, fmt, indent)
    requires PrintableAttributes(attributes)
    requires tail != "" && !IsStartSymbol(tail[0])
    ensures InTag(o, AttributesText(fmt, indent, depth, attributes) + tail, d, open, data)
            == InTag(o, tail, d, open, data.(attributes := data.attributes + ReadAttributes(o, fmt, attributes)))
    decreases |attributes|
  {
    hide InTag, AttributeText, ReadAttribute, PrintableName, ReadableFormat;
    if attributes == [] {
      assert "" + tail == tail;
      assert data.attributes + ReadAttributes(o, fmt, attributes) == data.attributes;
    } else {
      hide AttributesText;
      var rest := AttributesText(fmt, indent, depth, attributes[1..]) + tail;
      if |attributes| > 1 {
        AttributesTextStart(o, fmt, indent, depth, attributes[1..]);
      } else {
        NoAttributesText(fmt, indent, depth, attributes[1..]);
      }
      AttributesTextFront(fmt, indent, depth, attributes);
      Regroup(AttributeText(fmt, indent, depth, attributes[0]), AttributesText(fmt, indent, depth, attributes[1..]),
          tail);
      OneAttributeRead(o, fmt, indent, depth, attributes[0], rest, d, open, data);
      AttributesRead(o, fmt, indent, depth, attributes[1..], tail, d, open,
                     data.(attributes := data.attributes + [ReadAttribute(o, fmt, attributes[0])]));
      ReadAttributesFront(o, fmt, attributes, data.attributes);
    }
  }

  lemma NoAttributesText(fmt: Format, indent: string, depth: nat, attributes: seq<Attribute>)
    requires attributes == []
    ensures AttributesText(fmt, indent, depth, attributes) == ""
  {
  }

  // ------------------------------------------------------------------ tags

  lemma EndTagRead(o: Options, name: string, rest: string, d: Table, open: nat)
    requires IsTree(d) && 0 < open < |d| && d[open].data.name == PrintedName(name) && PrintableName(name)
    ensures ParseContent(o, EndTag(name) + rest, d, open) == ParseContent(o, rest, d, d[open].parent)
    ensures EndTag(name) + rest != "" && (EndTag(name) + rest)[0] == '<' && |EndTag(name) + rest| > 1
  {
    PrintedNameIsName(name);
    var n := PrintedName(name);
    var s := EndTag(name) + rest;
    var t := n + (">" + rest);
    assert s == "</" + t;
    assert s[1..] == "/" + t && ("/" + t)[1..] == t;
    assert ParseContent(o, s, d, open) == ParseTag(o, s[1..], d, open);
    assert ParseTag(o, "/" + t, d, open) == ParseEndTag(o, t, d, open) by { assert !IsStartSymbol(("/" + t)[0]); }
    EndTagNameRead(o, n, rest, d, open);
  }

  lemma EndTagNameRead(o: Options, n: string, rest: string, d: Table, open: nat)
    requires IsTree(d) && 0 < open < |d| && d[open].data.name == n && IsName(n)
    ensures ParseEndTag(o, n + (">" + rest), d, open) == ParseContent(o, rest, d, d[open].parent)
  {
    hide Symbols, SkipSpaces;
    NameThen(n, ">" + rest);
    NoSpaces(">" + rest);
    assert (">" + rest)[1..] == rest;
  }

  /** What follows a start tag: the children, or for a leaf what comes after it. */
  function AfterTag(o: Options, leaf: bool, rest: string, d: Table, open: nat, data: NodeData): Result
    requires IsTree(d) && open < |d|
  {
    ParseContent(o, rest, d + [Row(open, data)], if leaf then open else |d|)
  }

  /** The close of a start tag, met while looking for attributes. */
  lemma CloseRead(o: Options, fmt: Format, name: string, leaf: bool, rest: string, d: Table, open: nat, data: NodeData)
    requires IsTree(d) && open < |d| && PrintableName(name) && data.name == PrintedName(name)
    ensures InTag(o, TagClose(fmt, name, leaf) + rest, d, open, data) == AfterTag(o, leaf, rest, d, open, data)
  {
    hide SkipSpaces, InTag, ParseContent, EndTag;
    var s := TagClose(fmt, name, leaf) + rest;
    if !leaf {
      NoSpaces(s);
      assert s[1..] == rest;
      InTagEnd(o, s, s, d, open, data);
    } else if fmt.noEmptyTags {
      NoSpaces(s);
      assert s[1..] == EndTag(name) + rest;
      InTagEnd(o, s, s, d, open, data);
      EndTagRead(o, name, rest, d + [Row(open, data)], |d|);
    } else {
      EmptyTagClose(o, rest, d, open, data);
      if !fmt.raw {
        assert s == " " + ("/>" + rest);
        ParseAttributesSkips(o, " ", "/>" + rest, d, open, data);
      }
    }
  }

  lemma TagCloseStart(fmt: Format, name: string, leaf: bool)
    ensures var c := TagClose(fmt, name, leaf); c != "" && !IsSymbol(c[0])
  {
  }

  /** A name and the character after it. */
  lemma TagNameRead(o: Options, n: string, c: char, rest: string, d: Table, open: nat)
    requires IsTree(d) && open < |d| && IsName(n) && !IsSymbol(c)
    ensures var data := NodeData(Element, n, "", []);
            ParseTag(o, n + ([c] + rest), d, open)
            == if c == '>' then ParseContent(o, rest, d + [Row(open, data)], |d|)
               else if IsSpace(c) then InTag(o, rest, d, open, data)
               else if c == '/' && rest != "" && rest[0] == '>'
                    then ParseContent(o, rest[1..], d + [Row(open, data)], open)
               else Failed(BadStartElement)
  {
    var s := n + ([c] + rest);
    NameThen(n, [c] + rest);
    assert s[|n|] == c && s[|n| + 1..] == rest;
    hide Symbols, ParseContent, ParseAttributes;
  }

  /** A start tag without attributes. */
  lemma BareTagRead(o: Options, fmt: Format, name: string, leaf: bool, rest: string, d: Table, open: nat)
    requires IsTree(d) && open < |d| && PrintableName(name)
    ensures ParseTag(o, PrintedName(name) + (TagClose(fmt, name, leaf) + rest), d, open)
            == AfterTag(o, leaf, rest, d, open, NodeData(Element, PrintedName(name), "", []))
  {
    hide ParseTag, ParseContent, InTag, PrintedName;
    var n := PrintedName(name);
    var data := NodeData(Element, n, "", []);
    PrintedNameIsName(name);
    if !leaf {
      TagNameRead(o, n, '>', rest, d, open);
    } else if fmt.noEmptyTags {
      TagNameRead(o, n, '>', EndTag(name) + rest, d, open);
      assert TagClose(fmt, name, leaf) + rest == ">" + (EndTag(name) + rest);
      EndTagRead(o, name, rest, d + [Row(open, data)], |d|);
    } else if fmt.raw {
      TagNameRead(o, n, '/', ">" + rest, d, open);
      assert TagClose(fmt, name, leaf) + rest == "/" + (">" + rest) && (">" + rest)[1..] == rest;
    } else {
      TagNameRead(o, n, ' ', "/>" + rest, d, open);
      assert TagClose(fmt, name, leaf) + rest == " " + ("/>" + rest);
      CloseRead(o, fmt.(raw := true), name, leaf, rest, d, open, data);
    }
  }

  /** A start tag with attributes. */
  lemma TagWithAttributesRead(o: Options, fmt: Format, indent: string, depth: nat, data: NodeData, leaf: bool,
      rest: string, d: Table, open: nat)
    requires IsTree(d) && open < |d| && ReadableFormat(o, fmt, indent)
    requires data.kind.Element? && PrintableData(o, data) && data.attributes != []
    ensures ParseTag(o,
              PrintedName(data.name)
              + (AttributesText(fmt, indent, depth, data.attributes) + (TagClose(fmt, data.name, leaf) + rest)), d,
              open)
            == AfterTag(o, leaf, rest, d, open, ReadData(o, fmt, data))
  {
    hide AttributesText, TagClose, InTag, AfterTag, ParseTag, PrintedName, PrintableName, PrintableAttributes,
         ReadableFormat, ReadAttribute, IsName;
    var n := PrintedName(data.name);
    var bare := NodeData(Element, n, "", []);
    var close := TagClose(fmt, data.name, leaf) + rest;
    var tail := AttributesText(fmt, indent, depth, data.attributes) + close;
    PrintedNameIsName(data.name);
    TagCloseStart(fmt, data.name, leaf);
    AttributesTextStart(o, fmt, indent, depth, data.attributes);
    TagWithSpace(o, n, tail, d, open);
    AttributesRead(o, fmt, indent, depth, data.attributes, close, d, open, bare);
    assert [] + ReadAttributes(o, fmt, data.attributes) == ReadAttributes(o, fmt, data.attributes);
    CloseRead(o, fmt, data.name, leaf, rest, d, open, ReadData(o, fmt, data));
  }

  lemma TagWithSpace(o: Options, n: string, tail: string, d: Table, open: nat)
    requires IsTree(d) && open < |d| && IsName(n) && tail != "" && IsSpace(tail[0])
    ensures ParseTag(o, n + tail, d, open) == InTag(o, tail, d, open, NodeData(Element, n, "", []))
  {
    hide SkipSpaces, InTag, ParseTag;
    assert tail == [tail[0]] + tail[1..];
    TagNameRead(o, n, tail[0], tail[1..], d, open);
    SkipsOne(tail);
    InTagSkips(o, tail[1..], tail, d, open, NodeData(Element, n, "", []));
  }

  /** The start tag of an element, after what stands before it. */
  lemma StartTagRead(o: Options, fmt: Format, indent: string, depth: nat, data: NodeData, leaf: bool, rest: string,
      d: Table, open: nat)
    requires IsTree(d) && open < |d| && ReadableFormat(o, fmt, indent)
    requires data.kind.Element? && PrintableData(o, data)
    ensures var s := StartTag(fmt, indent, depth, data, leaf) + rest;
            && s[0] == '<' && |s| > 1
            && ParseContent(o, s, d, open) == AfterTag(o, leaf, rest, d, open, ReadData(o, fmt, data))
  {
    hide AttributesText, TagClose, AfterTag, PrintedName, ParseTag;
    var n, attributes, close :=
      PrintedName(data.name), AttributesText(fmt, indent, depth, data.attributes), TagClose(fmt, data.name, leaf);
    var t := n + (attributes + (close + rest));
    var s := StartTag(fmt, indent, depth, data, leaf) + rest;
    assert s == "<" + t;
    assert s[1..] == t;
    PrintedNameIsName(data.name);
    if data.attributes == [] {
      NoAttributesText(fmt, indent, depth, data.attributes);
      assert attributes + (close + rest) == close + rest;
      BareTagRead(o, fmt, data.name, leaf, rest, d, open);
      assert ReadAttributes(o, fmt, data.attributes) == [];
    } else {
      TagWithAttributesRead(o, fmt, indent, depth, data, leaf, rest, d, open);
    }
  }

  // ------------------------------------------------------------------ declarations

  lemma NoPiEndJoin(a: string, b: string)
    requires NoPiEnd(a) && NoPiEnd(b) && (a != "" && b != "" ==> !(a[|a| - 1] == '?' && b[0] == '>'))
    ensures NoPiEnd(a + b)
  {
    forall i | 0 <= i < |a + b| ensures !PiEndAt(a + b, i) {
      if i < |a| { assert !PiEndAt(a, i); } else { assert !PiEndAt(b, i - |a|); }
    }
  }

  lemma EscapedHasNoMark(style: EscapeStyle, c: char)
    requires Faithful(style)
    ensures var e := Escaped(style, true, c);
            e == [c] || (e != "" && c != '?' && c != '>' && forall i | 0 <= i < |e| :: e[i] != '?' && e[i] != '>')
  {
  }

  lemma {:induction false} EscapedNoPiEnd(style: EscapeStyle, v: string)
    requires Faithful(style) && NoPiEnd(v)
    ensures var t := EscapedText(style, true, v);
            NoPiEnd(t) && (t != "" ==> v != "" && (t[0] == '>' ==> v[0] == '>'))
  {
    hide EscapedText, Escaped;
    if v == "" {
      EscapedEmpty(style, true);
    } else {
      EscapedTextStep(style, true, v);
      EscapedHasNoMark(style, v[0]);
      assert !PiEndAt(v, 0);
      forall i | 0 <= i < |v[1..]| ensures !PiEndAt(v[1..], i) { assert !PiEndAt(v, i + 1); }
      EscapedNoPiEnd(style, v[1..]);
      NoPiEndJoin(Escaped(style, true, v[0]), EscapedText(style, true, v[1..]));
    }
  }

  lemma QuotedNoPiEnd(q: char, t: string)
    requires NoPiEnd(t) && (q == '"' || q == '\'')
    ensures var u := ['=', q] + t + [q]; NoPiEnd(u) && u[|u| - 1] != '?' && u[0] != '>'
  {
    NoPiEndJoin(['=', q], t);
    NoPiEndJoin(['=', q] + t, [q]);
  }

  lemma NameNoPiEnd(name: string)
    requires PrintableName(name)
    ensures var n := PrintedName(name); NoPiEnd(n) && n[|n| - 1] != '?' && n[0] != '>'
  {
    PrintedNameIsName(name);
    assert forall i | 0 <= i < |PrintedName(name)| :: IsSymbol(PrintedName(name)[i]);
  }

  lemma AttributeNoPiEnd(fmt: Format, indent: string, depth: nat, a: Attribute)
    requires Faithful(fmt.style) && fmt.raw && PrintableName(a.name) && NoPiEnd(a.value)
    ensures var t := AttributeText(fmt, indent, depth, a); NoPiEnd(t) && t != "" && t[|t| - 1] != '?' && t[0] != '>'
  {
    hide EscapedText, PrintedName, PrintableName, NoPiEnd;
    var q, value := QuoteOf(fmt), EscapedText(fmt.style, true, a.value);
    var quoted := ['=', q] + value + [q];
    EscapedNoPiEnd(fmt.style, a.value);
    QuotedNoPiEnd(q, value);
    NameNoPiEnd(a.name);
    NoPiEndJoin(PrintedName(a.name), quoted);
    assert NoPiEnd(" ") by { OneNoPiEnd(' '); }
    NoPiEndJoin(" ", PrintedName(a.name) + quoted);
    assert AttributeText(fmt, indent, depth, a) == " " + (PrintedName(a.name) + quoted);
  }

  lemma OneNoPiEnd(c: char)
    ensures NoPiEnd([c])
  {
  }

  lemma {:induction false} AttributesNoPiEnd(fmt: Format, indent: string, depth: nat, attributes: seq<Attribute>)
    requires Faithful(fmt.style) && fmt.raw && PrintableAttributes(attributes)
    requires forall k | 0 <= k < |attributes| :: NoPiEnd(attributes[k].value)
    ensures var t := AttributesText(fmt, indent, depth, attributes);
            NoPiEnd(t) && (t != "" ==> t[|t| - 1] != '?' && t[0] != '>')
  {
    hide AttributeText, PrintableName, NoPiEnd;
    if attributes == [] {
      NoPiEndEmpty();
    } else {
      var n := |attributes| - 1;
      AttributesNoPiEnd(fmt, indent, depth, attributes[..n]);
      AttributeNoPiEnd(fmt, indent, depth, attributes[n]);
      NoPiEndJoin(AttributesText(fmt, indent, depth, attributes[..n]),
          AttributeText(fmt, indent, depth, attributes[n]));
    }
  }

  lemma NoPiEndEmpty()
    ensures NoPiEnd("")
  {
  }

  /** The end of a declaration is the first `?>`. */
  lemma PiEndFound(t: string, rest: string)
    requires NoPiEnd(t)
    ensures Find(t + ("?>" + rest), "?>") == |t|
  {
    var s := t + ("?>" + rest);
    assert s[|t|..] == "?>" + rest;
    forall i | 0 <= i < |t| ensures !("?>" <= s[i..]) {
      assert !PiEndAt(t, i);
      assert s[i..][0] == s[i] && s[i..][1] == s[i + 1];
    }
  }

  /** A declaration as it is written, read at the top level. */
  lemma DeclarationRead(o: Options, fmt: Format, data: NodeData, rest: string, d: Table)
    requires IsTree(d) && Faithful(fmt.style) && data.kind.Declaration? && PrintableData(o, data) && Whole(data)
    ensures var s := MarkupText(fmt, data) + rest;
            && s[0] == '<' && |s| > 1
            && ParseContent(o, s, d, 0) == ParseContent(o, rest, d + [Row(0, ReadData(o, fmt, data))], 0)
  {
    hide AttributesText, ReadQuestion, InTag, NoPiEnd, PrintableAttributes;
    var raw := fmt.(raw := true);
    var attributes := AttributesText(raw, "", 0, data.attributes);
    var t := data.name + (attributes + ("?>" + rest));
    var s := MarkupText(fmt, data) + rest;
    assert s == "<?" + t;
    assert s[1..] == "?" + t && ("?" + t)[1..] == t;
    assert ParseContent(o, s, d, 0) == ParseQuestion(o, t, d, 0) by { hide ParseQuestion; }
    hide ParseContent;
    var bare := NodeData(Declaration, data.name, "", []);
    if data.attributes == [] {
      NoAttributesText(raw, "", 0, data.attributes);
      assert attributes + ("?>" + rest) == "?>" + rest;
      BareDeclarationRead(o, data.name, rest);
      assert ReadAttributes(o, fmt, data.attributes) == [];
    } else {
      AttributesNoPiEnd(raw, "", 0, data.attributes);
      AttributesTextStart(o, raw, "", 0, data.attributes);
      DeclarationTagRead(o, data.name, attributes, rest);
      assert ParseQuestion(o, t, d, 0) == InTag(o, SkipSpaces(attributes + ("/>" + rest)), d, 0, bare) by {
        InTagIs(o, SkipSpaces(attributes + ("/>" + rest)), d, 0, bare);
      }
      hide ParseQuestion;
      DeclarationAttributesRead(o, fmt, data, rest, d);
    }
  }

  lemma InTagIs(o: Options, s: string, d: Table, open: nat, data: NodeData)
    requires IsTree(d) && open < |d|
    ensures InTag(o, s, d, open, data) == ParseAttributes(o, s, d + [Row(open, data)], |d|)
  {
    hide ParseAttributes;
  }

  lemma XmlIsName(name: string)
    requires IsXmlTarget(name)
    ensures IsName(name) && PrintedName(name) == name
  {
  }

  lemma BareDeclarationRead(o: Options, name: string, rest: string)
    requires o.declaration && IsXmlTarget(name)
    ensures ReadQuestion(o, name + ("?>" + rest), 0) == BareDeclaration(name, rest)
  {
    XmlIsName(name);
    var s := name + ("?>" + rest);
    NameThen(name, "?>" + rest);
    assert "?>" <= s[|name|..] && s[|name| + 2..] == rest;
    hide Symbols, IsXmlTarget, SkipSpaces, Find;
  }

  lemma DeclarationParts(o: Options, s: string, n: nat)
    requires o.declaration && s != "" && IsStartSymbol(s[0]) && n == Symbols(s) < |s| && IsXmlTarget(s[..n])
             && IsSpace(s[n])
    ensures var t := SkipSpaces(s[n + 1..]);
            var k := Find(t, "?>");
            k < |t| ==> ReadQuestion(o, s, 0) == DeclarationTag(s[..n], t[k := '/'])
  {
    hide Symbols, IsXmlTarget, SkipSpaces, Find;
  }

  lemma DeclarationTagRead(o: Options, name: string, attributes: string, rest: string)
    requires o.declaration && IsXmlTarget(name) && NoPiEnd(attributes) && attributes != "" && IsSpace(attributes[0])
    ensures ReadQuestion(o, name + (attributes + ("?>" + rest)), 0)
            == DeclarationTag(name, SkipSpaces(attributes + ("/>" + rest)))
  {
    hide ReadQuestion, Symbols, IsXmlTarget, SkipSpaces, Find, NoPiEnd, Spaces;
    XmlIsName(name);
    var tail := attributes + ("?>" + rest);
    var s := name + tail;
    NameThen(name, tail);
    assert s[|name|] == tail[0] && s[|name| + 1..] == tail[1..];
    var t := attributes[Spaces(attributes)..];
    SpacesPrefix(attributes, "?>" + rest);
    SpacesPrefix(attributes, "/>" + rest);
    SkipsOne(tail);
    NoPiEndSuffix(attributes, Spaces(attributes));
    PiEndFound(t, rest);
    assert (t + ("?>" + rest))[|t| := '/'] == t + ("/>" + rest);
    DeclarationParts(o, s, |name|);
  }

  lemma SkipsOne(s: string)
    requires s != "" && IsSpace(s[0])
    ensures SkipSpaces(s[1..]) == SkipSpaces(s)
  {
  }

  lemma NoPiEndSuffix(t: string, n: nat)
    requires NoPiEnd(t) && n <= |t|
    ensures NoPiEnd(t[n..])
  {
    forall i | 0 <= i < |t[n..]| ensures !PiEndAt(t[n..], i) { assert !PiEndAt(t, n + i); }
  }

  lemma SpacesPrefix(t: string, u: string)
    requires u != "" && !IsSpace(u[0])
    ensures SkipSpaces(t + u) == t[Spaces(t)..] + u
  {
    var n := Spaces(t);
    assert t + u == t[..n] + (t[n..] + u);
    SpacesThen(t[..n], t[n..] + u);
  }

  lemma DeclarationAttributesRead(o: Options, fmt: Format, data: NodeData, rest: string, d: Table)
    requires IsTree(d) && Faithful(fmt.style) && data.kind.Declaration? && PrintableData(o, data)
             && data.attributes != []
    ensures var s := SkipSpaces(AttributesText(fmt.(raw := true), "", 0, data.attributes) + ("/>" + rest));
            InTag(o, s, d, 0, NodeData(Declaration, data.name, "", []))
            == ParseContent(o, rest, d + [Row(0, ReadData(o, fmt, data))], 0)
  {
    hide AttributesText, SkipSpaces, ParseContent, ParseAttributes, InTag, PrintableAttributes;
    var raw := fmt.(raw := true);
    var bare := NodeData(Declaration, data.name, "", []);
    var close := "/>" + rest;
    var tail := AttributesText(raw, "", 0, data.attributes) + close;
    AttributesRead(o, raw, "", 0, data.attributes, close, d, 0, bare);
    SkipsFirst(o, tail, d, 0, bare);
    assert ReadAttributes(o, raw, data.attributes) == ReadAttributes(o, fmt, data.attributes) by { hide ReadBack; }
    assert [] + ReadAttributes(o, fmt, data.attributes) == ReadAttributes(o, fmt, data.attributes);
    XmlIsName(data.name);
    EmptyTagClose(o, rest, d, 0, ReadData(o, fmt, data));
  }

  lemma SkipsFirst(o: Options, s: string, d: Table, open: nat, data: NodeData)
    requires IsTree(d) && open < |d|
    ensures InTag(o, SkipSpaces(s), d, open, data) == InTag(o, s, d, open, data)
  {
    hide SkipSpaces, InTag;
    NoSpaces(SkipSpaces(s));
    InTagSkips(o, SkipSpaces(s), s, d, open, data);
  }

  lemma EmptyTagClose(o: Options, rest: string, d: Table, open: nat, data: NodeData)
    requires IsTree(d) && open < |d|
    ensures InTag(o, "/>" + rest, d, open, data) == ParseContent(o, rest, d + [Row(open, data)], open)
  {
    hide SkipSpaces, InTag, ParseContent;
    var s := "/>" + rest;
    NoSpaces(s);
    assert s[2..] == rest;
    InTagEnd(o, s, s, d, open, data);
  }

  // ------------------------------------------------------------------ markup written and passed over

  predicate HyphensAt(s: string, i: nat) {
    i + 1 < |s| && s[i] == '-' && s[i + 1] == '-'
  }

  /** No two hyphens in a row, and none at the end. */
  predicate CommentSafe(s: string) {
    (s != "" ==> s[|s| - 1] != '-') && forall i | 0 <= i < |s| :: !HyphensAt(s, i)
  }

  lemma CommentSafeJoin(a: string, b: string)
    requires (CommentSafe(a) && CommentSafe(b))
             || (|a| == 1 && CommentSafe(b) && b != "" && (a[0] == '-' ==> b[0] != '-'))
    ensures CommentSafe(a + b)
  {
    forall i | 0 <= i < |a + b| ensures !HyphensAt(a + b, i) {
      if i < |a| { assert |a| > 1 ==> !HyphensAt(a, i); } else { assert !HyphensAt(b, i - |a|); }
    }
  }

  lemma CommentParts(v: string)
    requires v != ""
    ensures CommentBody(v) == (if StopsComment(v, 0) then "- " else [v[0]]) + CommentBody(v[1..])
  {
    hide CommentSafe;
  }

  lemma {:induction false} CommentBodySafe(v: string)
    ensures CommentSafe(CommentBody(v)) && (v != "" ==> CommentBody(v) != "" && CommentBody(v)[0] == v[0])
    ensures v == "" ==> CommentBody(v) == ""
  {
    hide CommentBody, CommentSafe;
    if v == "" {
      NoComment();
      assert CommentSafe("") by { CommentSafeEmpty(); }
    } else {
      CommentParts(v);
      CommentBodySafe(v[1..]);
      CommentSafeShort(v[0]);
      if StopsComment(v, 0) || v[1..] != "" {
        CommentSafeJoin(if StopsComment(v, 0) then "- " else [v[0]], CommentBody(v[1..]));
      } else {
        assert [v[0]] + "" == [v[0]];
      }
    }
  }

  lemma CommentSafeEmpty()
    ensures CommentSafe("")
  {
  }

  lemma CommentSafeShort(c: char)
    ensures CommentSafe("- ") && (c != '-' ==> CommentSafe([c]))
  {
  }

  /** Whatever the value of a comment, its text is passed over whole. */
  lemma CommentPassed(o: Options, fmt: Format, data: NodeData, rest: string, d: Table, open: nat)
    requires IsTree(d) && open < |d| && data.kind.Comment?
    ensures ParseContent(o, MarkupText(fmt, data) + rest, d, open) == ParseContent(o, rest, d, open)
  {
    hide CommentBody, Find, SkipExclamation, ParseContent, CommentSafe;
    var b := CommentBody(data.value);
    CommentBodySafe(data.value);
    var t := b + ("-->" + rest);
    assert MarkupText(fmt, data) + rest == "<!" + ("--" + t);
    CommentEndFound(b, rest);
    assert t[|b| + 3..] == rest;
    CommentSkipped(t, open);
    ExclamationRead(o, "--" + t, rest, d, open);
  }

  lemma CommentSkipped(t: string, open: nat)
    ensures SkipExclamation("--" + t, open) == SkipPast(t, "-->", BadComment)
  {
    hide SkipPast;
    assert ("--" + t)[2..] == t;
  }

  /** Where the end mark `m` is found behind `b`. */
  lemma MarkFound(b: string, m: string, rest: string)
    requires m != "" && forall i: nat | i < |b| :: !MarkAt(b + (m + rest), m, i)
    ensures Find(b + (m + rest), m) == |b|
  {
    var t := b + (m + rest);
    assert t[|b|..] == m + rest;
    var n := Find(t, m);
    assert n < |b| ==> MarkAt(t, m, n);
  }

  predicate MarkAt(s: string, m: string, i: nat) {
    i <= |s| && m <= s[i..]
  }

  lemma MarkChars(s: string, m: string, i: nat, k: nat)
    requires k < |m|
    ensures MarkAt(s, m, i) ==> i + k < |s| && s[i + k] == m[k]
  {
    if MarkAt(s, m, i) { assert s[i..][k] == s[i + k]; }
  }

  lemma MarkWithin(v: string, w: string, m: string, i: nat)
    requires i + |m| <= |v|
    ensures MarkAt(v + w, m, i) <==> MarkAt(v, m, i)
  {
    assert (v + w)[i..] == v[i..] + w;
  }

  lemma NotBeforeFind(s: string, m: string, i: nat)
    requires m != ""
    ensures i < Find(s, m) ==> !MarkAt(s, m, i)
  {
  }

  lemma CommentEndFound(b: string, rest: string)
    requires CommentSafe(b)
    ensures Find(b + ("-->" + rest), "-->") == |b|
  {
    hide Find, MarkAt;
    var t := b + ("-->" + rest);
    forall i: nat | i < |b| ensures !MarkAt(t, "-->", i) {
      MarkChars(t, "-->", i, 0);
      MarkChars(t, "-->", i, 1);
      assert !HyphensAt(b, i);
    }
    MarkFound(b, "-->", rest);
  }

  lemma ExclamationRead(o: Options, t: string, rest: string, d: Table, open: nat)
    requires IsTree(d) && open < |d| && SkipExclamation(t, open) == Beyond(rest)
    ensures ParseContent(o, "<!" + t, d, open) == ParseContent(o, rest, d, open)
  {
    hide SkipExclamation;
    assert ("<!" + t)[1..] == "!" + t && ("!" + t)[1..] == t;
    assert ParseContent(o, "<!" + t, d, open) == ParseTag(o, "!" + t, d, open);
  }

  /** Whatever the value of a CDATA node, all its sections are passed over. */
  lemma {:induction false} CdataPassed(o: Options, v: string, rest: string, d: Table, open: nat)
    requires IsTree(d) && open < |d|
    ensures ParseContent(o, CdataText(v) + rest, d, open) == ParseContent(o, rest, d, open)
    decreases |v|
  {
    hide CdataText, Find, ParseContent;
    CdataTextStep(v);
    var n := Find(v, "]]>");
    if n == |v| {
      NoneFound(v);
      SectionPassed(o, v, rest, d, open);
    } else {
      CdataPassed(o, v[n + 2..], rest, d, open);
      var first, more := v[..n + 2], CdataText(v[n + 2..]);
      Regroup("<![CDATA[" + first + "]]>", more, rest);
      FirstSection(v, n);
      SectionPassed(o, first, more + rest, d, open);
    }
  }

  lemma NoneFound(v: string)
    requires Find(v, "]]>") == |v|
    ensures NoSectionEnd(v)
  {
    hide Find, MarkAt;
    forall i: nat | i < |v| ensures !MarkAt(v, "]]>", i) { NotBeforeFind(v, "]]>", i); }
  }

  predicate NoSectionEnd(v: string) {
    forall i: nat | i < |v| :: !MarkAt(v, "]]>", i)
  }

  lemma FirstSection(v: string, n: nat)
    requires n == Find(v, "]]>") && n + 2 < |v|
    ensures NoSectionEnd(v[..n + 2])
  {
    hide Find, MarkAt;
    var u := v[..n + 2];
    assert v == u + v[n + 2..];
    forall i: nat | i < |u| ensures !MarkAt(u, "]]>", i) {
      MarkChars(u, "]]>", i, 2);
      if i < n {
        MarkWithin(u, v[n + 2..], "]]>", i);
        NotBeforeFind(v, "]]>", i);
      }
    }
  }

  /** One section whose text does not hold the end mark. */
  lemma SectionPassed(o: Options, v: string, rest: string, d: Table, open: nat)
    requires IsTree(d) && open < |d| && NoSectionEnd(v)
    ensures ParseContent(o, ("<![CDATA[" + v + "]]>") + rest, d, open) == ParseContent(o, rest, d, open)
  {
    hide ParseContent, Find, SkipExclamation, NoSectionEnd;
    var t := v + ("]]>" + rest);
    assert ("<![CDATA[" + v + "]]>") + rest == "<!" + ("[CDATA[" + t);
    SectionEndFound(v, rest);
    assert t[|v| + 3..] == rest;
    SectionSkipped(t, open);
    ExclamationRead(o, "[CDATA[" + t, rest, d, open);
  }

  lemma SectionSkipped(t: string, open: nat)
    ensures SkipExclamation("[CDATA[" + t, open) == SkipPast(t, "]]>", BadCdata)
  {
    hide SkipPast;
    var s := "[CDATA[" + t;
    assert s[7..] == t && s[..7] == "[CDATA[" && s[0] == '[';
  }

  lemma SectionEndFound(v: string, rest: string)
    requires NoSectionEnd(v)
    ensures Find(v + ("]]>" + rest), "]]>") == |v|
  {
    hide Find, MarkAt;
    var t := v + ("]]>" + rest);
    forall i: nat | i < |v| ensures !MarkAt(t, "]]>", i) {
      MarkChars(t, "]]>", i, 2);
      assert !MarkAt(v, "]]>", i);
      if i + 3 <= |v| { MarkWithin(v, "]]>" + rest, "]]>", i); }
    }
    MarkFound(v, "]]>", rest);
  }

  lemma {:induction false} PiBodyNoPiEnd(v: string)
    ensures NoPiEnd(PiBody(v))
    decreases |v|
  {
    hide PiBody, NoPiEnd;
    PiBodyStep(v);
    var n := Find(v, "?>");
    PiRun(v);
    if n < |v| {
      PiBodyNoPiEnd(v[n + 2..]);
      PiBroken();
      NoPiEndJoin(v[..n], "? >");
      NoPiEndJoin(v[..n] + "? >", PiBody(v[n + 2..]));
    } else {
      assert v[..n] == v;
    }
  }

  /** The open node is a declaration that `>` left open. */
  predicate InDeclaration(d: Table, open: nat)
    requires open < |d|
  {
    open > 0 && d[open].data.kind.Declaration?
  }

  lemma PiEndIsMark(v: string, n: nat, i: nat)
    requires i < n <= |v|
    ensures PiEndAt(v[..n], i) ==> MarkAt(v, "?>", i)
  {
    if PiEndAt(v[..n], i) { assert v[i..][..2] == "?>"; }
  }

  lemma PiBroken()
    ensures NoPiEnd("? >")
  {
  }

  lemma PiRun(v: string)
    ensures NoPiEnd(v[..Find(v, "?>")])
  {
    var n := Find(v, "?>");
    forall i | 0 <= i < n ensures !PiEndAt(v[..n], i) {
      NotBeforeFind(v, "?>", i);
      PiEndIsMark(v, n, i);
    }
  }

  /** Whatever the value of a processing instruction, its text is passed over whole, unless it is
    taken for a declaration; what follows is read as attributes if the open node is a declaration. */
  lemma PiPassed(o: Options, fmt: Format, data: NodeData, rest: string, d: Table, open: nat)
    requires IsTree(d) && open < |d|
    requires data.kind.Pi? && PrintableName(data.name) && !(o.declaration && IsXmlTarget(data.name))
    ensures ParseContent(o, MarkupText(fmt, data) + rest, d, open)
            == if InDeclaration(d, open) then ParseAttributes(o, rest, d, open) else ParseContent(o, rest, d, open)
  {
    hide MarkupText, PiValue, ReadQuestion, ParseContent, PrintableName, PrintedName, IsXmlTarget, IsName, NoPiEnd;
    var name, body := PrintedName(data.name), PiValue(data.value);
    PiTextIs(fmt, data, rest);
    PiValueSafe(data.value);
    PrintedNameIsName(data.name);
    NotXml(data.name);
    PiRead(o, name, body, rest, open);
    QuestionRead(o, name + (body + ("?>" + rest)), rest, d, open);
  }

  lemma PiTextIs(fmt: Format, data: NodeData, rest: string)
    requires data.kind.Pi?
    ensures MarkupText(fmt, data) + rest == "<?" + (PrintedName(data.name) + (PiValue(data.value) + ("?>" + rest)))
  {
    hide PiValue, PrintedName;
  }

  lemma PiValueSafe(v: string)
    ensures NoPiEnd(PiValue(v)) && (PiValue(v) != "" ==> PiValue(v)[0] == ' ')
  {
    hide PiBody, NoPiEnd;
    PiBodyNoPiEnd(v);
    OneNoPiEnd(' ');
    NoPiEndEmpty();
    NoPiEndJoin(" ", PiBody(v));
  }

  lemma PiParts(o: Options, s: string, n: nat, open: nat)
    requires s != "" && IsStartSymbol(s[0]) && n == Symbols(s) < |s| && !(o.declaration && IsXmlTarget(s[..n]))
    ensures var r := SkipPast(s[n..], "?>", BadPi);
            ReadQuestion(o, s, open) == if r.Beyond? then Passed(r.rest) else BadQuestion
  {
    hide Symbols, IsXmlTarget, SkipSpaces, SkipPast;
  }

  lemma PiRead(o: Options, n: string, body: string, rest: string, open: nat)
    requires IsName(n) && !(o.declaration && IsXmlTarget(n)) && NoPiEnd(body) && (body != "" ==> body[0] == ' ')
    ensures ReadQuestion(o, n + (body + ("?>" + rest)), open) == Passed(rest)
  {
    hide Symbols, Find, NoPiEnd, ReadQuestion, IsXmlTarget, SkipPast, AllSymbols, IsStartSymbol;
    var tail := body + ("?>" + rest);
    assert tail[0] == ' ' || tail[0] == '?';
    NameThen(n, tail);
    PiEndFound(body, rest);
    assert tail[|body| + 2..] == rest;
    PastMark(tail, "?>", rest, |body|);
    PiParts(o, n + tail, |n|, open);
  }

  lemma PastMark(s: string, m: string, rest: string, n: nat)
    requires m != "" && n == Find(s, m) && n + |m| <= |s| && rest == s[n + |m|..]
    ensures SkipPast(s, m, BadPi) == Beyond(rest)
  {
  }

  lemma NotXml(name: string)
    ensures IsXmlTarget(PrintedName(name)) <==> IsXmlTarget(name)
  {
  }

  lemma QuestionRead(o: Options, t: string, rest: string, d: Table, open: nat)
    requires IsTree(d) && open < |d|
    requires ReadQuestion(o, t, open) == Passed(rest)
    ensures ParseContent(o, "<?" + t, d, open)
            == if InDeclaration(d, open) then ParseAttributes(o, rest, d, open) else ParseContent(o, rest, d, open)
  {
    hide ReadQuestion;
    assert ("<?" + t)[1..] == "?" + t && ("?" + t)[1..] == t;
    assert ParseContent(o, "<?" + t, d, open) == ParseTag(o, "?" + t, d, open);
    assert ParseTag(o, "?" + t, d, open) == ParseQuestion(o, t, d, open);
  }

  // ------------------------------------------------------------------ a declaration that ends too early

  lemma {:induction false} AttributesTextJoined(fmt: Format, indent: string, depth: nat, x: seq<Attribute>,
      y: seq<Attribute>)
    ensures AttributesText(fmt, indent, depth, x + y)
            == AttributesText(fmt, indent, depth, x) + AttributesText(fmt, indent, depth, y)
    decreases |y|
  {
    hide AttributeText;
    if y == [] {
      assert x + y == x;
      NoAttributesText(fmt, indent, depth, y);
    } else {
      var n := |y| - 1;
      AttributesTextJoined(fmt, indent, depth, x, y[..n]);
      assert (x + y)[..|x + y| - 1] == x + y[..n];
      Regroup(AttributesText(fmt, indent, depth, x), AttributesText(fmt, indent, depth, y[..n]),
          AttributeText(fmt, indent, depth, y[n]));
    }
  }

  /** A value with a `?>` in it, cut there. */
  predicate CutValue(v: string, v1: string, v2: string) {
    v == v1 + ("?>" + v2) && NoPiEnd(v1)
  }

  lemma FirstPiEnd(v: string) returns (v1: string, v2: string)
    requires !NoPiEnd(v)
    ensures CutValue(v, v1, v2)
  {
    hide Find, MarkAt, PiEndAt;
    var i :| 0 <= i < |v| && PiEndAt(v, i);
    hide NoPiEnd;
    var n := Find(v, "?>");
    assert v[..|v|] == v;
    PiEndIsMark(v, |v|, i);
    NotBeforeFind(v, "?>", i);
    FoundThere(v, "?>");
    v1, v2 := v[..n], v[n + 2..];
    PiRun(v);
    InThree(v, n, n + 2);
  }

  lemma InThree(s: string, i: nat, j: nat)
    requires i <= j <= |s|
    ensures s == s[..i] + (s[i..j] + s[j..])
  {
  }

  lemma FoundThere(s: string, m: string)
    requires m != "" && Find(s, m) < |s|
    ensures var n := Find(s, m); n + |m| <= |s| && s[n..n + |m|] == m
  {
    var n := Find(s, m);
    assert s[n..][..|m|] == m;
  }

  lemma MarkNotEscaped(style: EscapeStyle, c: char)
    requires Faithful(style) && (c == '?' || c == '>' || c == '/')
    ensures EscapedText(style, true, [c, '>']) == [c, '>']
  {
    var s := [c, '>'];
    EscapedLonger(style, true, s);
    assert Plain(style, true, s);
  }

  lemma CutEscaped(style: EscapeStyle, v1: string, c: char, v2: string)
    requires Faithful(style) && (c == '?' || c == '/')
    ensures EscapedText(style, true, v1 + ([c, '>'] + v2))
            == EscapedText(style, true, v1) + ([c, '>'] + EscapedText(style, true, v2))
  {
    hide EscapedText;
    MarkNotEscaped(style, c);
    EscapedJoined(style, true, [c, '>'], v2);
    EscapedJoined(style, true, v1, [c, '>'] + v2);
  }

  /** The text of the attributes up to the cut. */
  function CutText(fmt: Format, attributes: seq<Attribute>, k: nat, v1: string): string
    requires k < |attributes|
  {
    AttributesText(fmt, "", 0, attributes[..k])
      + (" " + PrintedName(attributes[k].name) + ['=', QuoteOf(fmt)] + EscapedText(fmt.style, true, v1))
  }

  function CutRest(fmt: Format, attributes: seq<Attribute>, k: nat, v2: string): string
    requires k < |attributes|
  {
    EscapedText(fmt.style, true, v2) + ([QuoteOf(fmt)] + AttributesText(fmt, "", 0, attributes[k + 1..]))
  }

  lemma CutAttributes(fmt: Format, attributes: seq<Attribute>, k: nat, v1: string, c: char, v2: string)
    requires Faithful(fmt.style) && fmt.raw && k < |attributes| && (c == '?' || c == '/')
    requires attributes[k].value == v1 + ([c, '>'] + v2)
    ensures AttributesText(fmt, "", 0, attributes)
            == CutText(fmt, attributes, k, v1) + ([c, '>'] + CutRest(fmt, attributes, k, v2))
  {
    hide EscapedText, AttributesText, PrintedName;
    CutEscaped(fmt.style, v1, c, v2);
    var a := attributes[k];
    assert attributes == attributes[..k] + ([a] + attributes[k + 1..]);
    AttributesTextJoined(fmt, "", 0, attributes[..k], [a] + attributes[k + 1..]);
    AttributesTextFront(fmt, "", 0, [a] + attributes[k + 1..]);
    assert ([a] + attributes[k + 1..])[1..] == attributes[k + 1..];
    var before, name, eq, e1, e2, q, after :=
      AttributesText(fmt, "", 0, attributes[..k]), PrintedName(a.name), ['=', QuoteOf(fmt)],
        EscapedText(fmt.style, true, v1), EscapedText(fmt.style, true, v2), [QuoteOf(fmt)],
          AttributesText(fmt, "", 0, attributes[k + 1..]);
    assert AttributeText(fmt, "", 0, a) == " " + name + eq + (e1 + ([c, '>'] + e2)) + q;
    PiecesRegrouped(before, " " + name + eq, e1, [c, '>'], e2, q, after);
  }

  lemma PiecesRegrouped(before: string, head: string, e1: string, m: string, e2: string, q: string, after: string)
    ensures before + ((head + (e1 + (m + e2)) + q) + after) == (before + (head + e1)) + (m + (e2 + (q + after)))
  {
  }

  lemma CutTextNoPiEnd(fmt: Format, attributes: seq<Attribute>, k: nat, v1: string)
    requires Faithful(fmt.style) && fmt.raw && k < |attributes| && PrintableAttributes(attributes) && NoPiEnd(v1)
    requires forall j | 0 <= j < k :: NoPiEnd(attributes[j].value)
    ensures var t := CutText(fmt, attributes, k, v1); NoPiEnd(t) && t != "" && IsSpace(t[0])
  {
    hide EscapedText, AttributesText, PrintedName, NoPiEnd, PrintableName;
    assert forall j | 0 <= j < k :: attributes[..k][j] == attributes[j];
    AttributesNoPiEnd(fmt, "", 0, attributes[..k]);
    var name, eq, e1 := PrintedName(attributes[k].name), ['=', QuoteOf(fmt)], EscapedText(fmt.style, true, v1);
    NameNoPiEnd(attributes[k].name);
    OneNoPiEnd(' ');
    EqualsNoPiEnd(QuoteOf(fmt));
    EscapedNoPiEnd(fmt.style, v1);
    NoPiEndJoin(" ", name);
    NoPiEndJoin(" " + name, eq);
    NoPiEndJoin(" " + name + eq, e1);
    NoPiEndJoin(AttributesText(fmt, "", 0, attributes[..k]), " " + name + eq + e1);
    if k > 0 {
      AttributesTextStart(MINIMUM, fmt, "", 0, attributes[..k]);
    } else {
      NoAttributesText(fmt, "", 0, attributes[..k]);
    }
  }

  /** Options under which every format is readable. */
  const MINIMUM := Options(false, false, false, false, false, false)

  lemma EqualsNoPiEnd(q: char)
    requires q == '"' || q == '\''
    ensures NoPiEnd(['=', q])
  {
  }

  /** A declaration one of whose values holds the end mark is not read back: the mark inside the value
    is taken for the end, and the real end is then no end of a tag. */
  lemma DeclarationBroken(o: Options, fmt: Format, data: NodeData, rest: string, d: Table)
    requires IsTree(d) && Faithful(fmt.style) && data.kind.Declaration? && PrintableData(o, data) && !Whole(data)
    ensures var s := MarkupText(fmt, data) + rest;
            s[0] == '<' && ParseContent(o, s, d, 0) == Failed(BadStartElement)
  {
    hide MarkupText, AttributesText, ReadQuestion, ParseContent, ParseAttributes, NoPiEnd, IsXmlTarget, CutText,
         CutRest, InTag, PrintableAttributes;
    var raw := fmt.(raw := true);
    var attributes := data.attributes;
    var k := FirstBroken(attributes);
    var v1, v2 := FirstPiEnd(attributes[k].value);
    var broken := attributes[k := Attribute(attributes[k].name, v1 + ("/>" + v2))];
    var before, after := CutText(raw, attributes, k, v1), CutRest(raw, attributes, k, v2);
    CutAttributes(raw, attributes, k, v1, '?', v2);
    CutAttributes(raw, broken, k, v1, '/', v2);
    SameCut(raw, attributes, broken, k, v1, v2);
    CutTextNoPiEnd(raw, attributes, k, v1);
    var tail := after + ("?>" + rest);
    DeclarationTagRead(o, data.name, before, tail);
    DeclarationMarkup(fmt, data, rest);
    EndMoved(before, "?>", after, rest);
    EndMoved(before, "/>", after, rest);
    TagQuestionRead(o, data.name, AttributesText(raw, "", 0, attributes) + ("?>" + rest),
        AttributesText(raw, "", 0, broken) + ("?>" + rest), d);
    BrokenPrintable(attributes, k, v1, v2);
    AttributesRead(o, raw, "", 0, broken, "?>" + rest, d, 0, NodeData(Declaration, data.name, "", []));
    NoTagEnd(o, rest, d, 0, NodeData(Declaration, data.name, "", [] + ReadAttributes(o, raw, broken)));
  }

  lemma EndMoved(before: string, m: string, after: string, rest: string)
    ensures (before + (m + after)) + ("?>" + rest) == before + (m + (after + ("?>" + rest)))
  {
  }

  lemma FirstBroken(attributes: seq<Attribute>) returns (k: nat)
    requires exists j | 0 <= j < |attributes| :: !NoPiEnd(attributes[j].value)
    ensures k < |attributes| && !NoPiEnd(attributes[k].value) && forall j | 0 <= j < k :: NoPiEnd(attributes[j].value)
  {
    hide NoPiEnd;
    k := 0;
    while NoPiEnd(attributes[k].value)
      invariant k < |attributes| && forall j | 0 <= j < k :: NoPiEnd(attributes[j].value)
      decreases |attributes| - k
    {
      k := k + 1;
    }
  }

  lemma SameCut(fmt: Format, x: seq<Attribute>, y: seq<Attribute>, k: nat, v1: string, v2: string)
    requires k < |x| && |y| == |x| && x[k].name == y[k].name && forall j | 0 <= j < |x| && j != k :: x[j] == y[j]
    ensures CutText(fmt, x, k, v1) == CutText(fmt, y, k, v1) && CutRest(fmt, x, k, v2) == CutRest(fmt, y, k, v2)
  {
    assert x[..k] == y[..k] && x[k + 1..] == y[k + 1..];
  }

  lemma BrokenPrintable(attributes: seq<Attribute>, k: nat, v1: string, v2: string)
    requires PrintableAttributes(attributes) && k < |attributes| && CutValue(attributes[k].value, v1, v2)
    ensures PrintableAttributes(attributes[k := Attribute(attributes[k].name, v1 + ("/>" + v2))])
  {
    hide PrintableName;
    var v := attributes[k].value;
    assert v[..|v1|] == v1 && v[|v1| + 2..] == v2;
  }

  lemma DeclarationMarkup(fmt: Format, data: NodeData, rest: string)
    requires data.kind.Declaration? && IsXmlTarget(data.name)
    ensures MarkupText(fmt, data) + rest
            == "<?" + (data.name + (AttributesText(fmt.(raw := true), "", 0, data.attributes) + ("?>" + rest)))
  {
    hide AttributesText;
  }

  lemma TagQuestionRead(o: Options, name: string, s: string, t: string, d: Table)
    requires IsTree(d) && ReadQuestion(o, name + s, 0) == DeclarationTag(name, SkipSpaces(t))
    ensures ParseContent(o, "<?" + (name + s), d, 0) == InTag(o, t, d, 0, NodeData(Declaration, name, "", []))
  {
    hide ReadQuestion, SkipSpaces;
    var u := name + s;
    assert ("<?" + u)[1..] == "?" + u && ("?" + u)[1..] == u;
    assert ParseContent(o, "<?" + u, d, 0) == ParseTag(o, "?" + u, d, 0);
    assert ParseTag(o, "?" + u, d, 0) == ParseQuestion(o, u, d, 0);
    SkipsFirst(o, t, d, 0, NodeData(Declaration, name, "", []));
  }

  lemma NoTagEnd(o: Options, rest: string, d: Table, open: nat, data: NodeData)
    requires IsTree(d) && open < |d|
    ensures InTag(o, "?>" + rest, d, open, data) == Failed(BadStartElement)
  {
    hide SkipSpaces, InTag, ParseContent;
    var s := "?>" + rest;
    NoSpaces(s);
    InTagEnd(o, s, s, d, open, data);
  }

  // ------------------------------------------------------------------ character data

  lemma AllSpacesStep(v: string)
    requires v != ""
    ensures AllSpaces(v) <==> IsSpace(v[0]) && AllSpaces(v[1..])
  {
    assert forall i | 0 < i < |v| :: v[i] == v[1..][i - 1];
  }

  lemma {:induction false} EscapedNotSpaces(style: EscapeStyle, v: string, rest: string)
    requires Faithful(style) && !AllSpaces(v) && (rest != "" ==> rest[0] == '<')
    ensures var t := SkipSpaces(EscapedText(style, false, v) + rest); t != "" && t[0] != '<'
  {
    hide EscapedText;
    EscapedTextStep(style, false, v);
    var e, tail := Escaped(style, false, v[0]), EscapedText(style, false, v[1..]);
    Regroup(e, tail, rest);
    EscapedSpace(style, v[0]);
    if IsSpace(v[0]) {
      AllSpacesStep(v);
      EscapedNotSpaces(style, v[1..], rest);
      assert (e + (tail + rest))[1..] == tail + rest;
    } else {
      NoSpaces(e + (tail + rest));
    }
  }

  lemma EscapedSpace(style: EscapeStyle, c: char)
    requires Faithful(style)
    ensures var e := Escaped(style, false, c);
            && e != "" && e[0] != '<'
            && (IsSpace(c) ==> e == [c])
            && (!IsSpace(c) ==> !IsSpace(e[0]))
  {
  }

  /** Printed character data, followed by a tag or by the end. */
  lemma TextRead(o: Options, fmt: Format, v: string, rest: string, d: Table, open: nat)
    requires IsTree(d) && open < |d| && Faithful(fmt.style) && TextSurvives(o, v) && (open != 0 || o.fragment)
    requires rest == "" || (rest[0] == '<' && |rest| > 1)
    ensures ParseContent(o, EscapedText(fmt.style, false, v) + rest, d, open)
            == ParseContent(o, rest,
                 d + [Row(open, NodeData(Pcdata, "", ReadBack(TextRules(o), fmt.style, false, v), []))], open)
  {
    hide EscapedText, ReadBack, Decode, SkipSpaces, ParseTag, CString;
    var s := EscapedText(fmt.style, false, v) + rest;
    DecodeEscaped(TextRules(o), fmt.style, false, v, rest);
    ReadBackNoNul(TextRules(o), fmt.style, false, v);
    if !o.spaceText { EscapedNotSpaces(fmt.style, v, rest); }
    EscapedTextStep(fmt.style, false, v);
    EscapedSpace(fmt.style, v[0]);
  }

  /** A comment leaves no node of its own, but it divides the text around it into two. */
  lemma CommentDivides(o: Options, fmt: Format, v: string, comment: NodeData, w: string, rest: string, d: Table,
      open: nat)
    requires IsTree(d) && open < |d| && Faithful(fmt.style) && TextSurvives(o, v) && TextSurvives(o, w)
             && (open != 0 || o.fragment)
    requires comment.kind.Comment? && (rest == "" || (rest[0] == '<' && |rest| > 1))
    ensures var text := (x: string) => Row(open, NodeData(Pcdata, "", ReadBack(TextRules(o), fmt.style, false, x), []));
            ParseContent(o, EscapedText(fmt.style, false, v)
                + (MarkupText(fmt, comment) + (EscapedText(fmt.style, false, w) + rest)), d, open)
            == ParseContent(o, rest, d + [text(v)] + [text(w)], open)
  {
    hide EscapedText, ReadBack, ParseContent, TextSurvives, CommentBody;
    var more := EscapedText(fmt.style, false, w) + rest;
    assert MarkupText(fmt, comment)[0] == '<';
    TextRead(o, fmt, v, MarkupText(fmt, comment) + more, d, open);
    var d' := d + [Row(open, NodeData(Pcdata, "", ReadBack(TextRules(o), fmt.style, false, v), []))];
    CommentPassed(o, fmt, comment, more, d', open);
    TextRead(o, fmt, w, rest, d', open);
  }

  // ------------------------------------------------------------------ the rows rebuilt

  /** What stands around a row that is not inside a declaration is not either. */
  lemma VisibleParent(d: Table, r: nat, i: nat)
    requires WellFormed(d) && r < |d| && r < i < End(d, r) && !Hidden(d, r, i)
    ensures r <= d[i].parent < i && !Hidden(d, r, d[i].parent) && !d[d[i].parent].data.kind.Declaration?
  {
    SubtreeNested(d, r, i);
    var p := d[i].parent;
    SubtreeIsInterval(d, p, i);
    forall j: nat | r <= j < p && d[j].data.kind.Declaration? ensures p >= End(d, j) { SubtreeNestedOr(d, j, p); }
  }

  lemma SubtreeNestedOr(d: Table, a: nat, b: nat)
    requires WellFormed(d) && a <= b < |d|
    ensures b < End(d, a) ==> End(d, b) <= End(d, a)
  {
    if b < End(d, a) { SubtreeNested(d, a, b); }
  }

  lemma VisibleNext(d: Table, r: nat, i: nat)
    requires WellFormed(d) && r < |d| && r <= i < End(d, r) && !Hidden(d, r, i)
    ensures End(d, i) < End(d, r) ==> !Hidden(d, r, End(d, i))
    ensures !d[i].data.kind.Declaration? ==> !Hidden(d, r, i + 1)
  {
    var e := End(d, i);
    forall j: nat | r <= j < e && d[j].data.kind.Declaration? ensures e >= End(d, j) {
      if j > i { SubtreeNested(d, i, j); }
    }
  }

  lemma {:induction false} PlaceGrows(o: Options, d: Table, r: nat, i: nat, j: nat)
    requires r < |d| && r <= i <= j <= |d|
    ensures Place(o, d, r, i) <= Place(o, d, r, j)
    ensures i < j && Shown(o, d, r, i) ==> Place(o, d, r, i) < Place(o, d, r, j)
    decreases j
  {
    hide Shown;
    if i < j { PlaceGrows(o, d, r, i, j - 1); }
  }

  lemma {:induction false} RebuiltShape(o: Options, fmt: Format, d: Table, r: nat, n: nat)
    requires WellFormed(d) && r < |d| && r <= n <= End(d, r) && WritableTree(o, d, r)
    ensures var t := Rebuilt(o, fmt, d, r, n);
            && |t| == Place(o, d, r, n)
            && (t != [] ==> IsTree(t))
            && (forall i {:trigger Place(o, d, r, i)} | r <= i < n && Shown(o, d, r, i) ::
                  Place(o, d, r, i) < |t|
                    && t[Place(o, d, r, i)] == Row(NewParent(o, d, r, i), ReadData(o, fmt, d[i].data)))
    decreases n
  {
    hide ReadData, End, WellFormed, Shown, Hidden, WritableTree;
    if n > r {
      RebuiltShape(o, fmt, d, r, n - 1);
      ShownVisible(o, d, r, n - 1);
      if Shown(o, d, r, n - 1) { ParentPlace(o, d, r, n - 1); }
    }
  }

  lemma ShownVisible(o: Options, d: Table, r: nat, i: nat)
    requires i < |d|
    ensures Shown(o, d, r, i) ==> !Hidden(d, r, i)
    ensures !Hidden(d, r, i) && !d[i].data.kind.Pcdata? ==> Shown(o, d, r, i)
  {
  }

  lemma ParentPlace(o: Options, d: Table, r: nat, i: nat)
    requires WellFormed(d) && r < |d| && r <= i < End(d, r) && WritableTree(o, d, r) && !Hidden(d, r, i)
    ensures i > r ==> 0 <= NewParent(o, d, r, i) < Place(o, d, r, i) && OpenAt(o, d, r, i) == NewParent(o, d, r, i)
    ensures OpenAt(o, d, r, i) == 0 || OpenAt(o, d, r, i) < Place(o, d, r, i)
    ensures i > r ==> r <= d[i].parent && Shown(o, d, r, d[i].parent)
  {
    hide End, WellFormed, Shown, Hidden;
    if i > r {
      ParentShown(o, d, r, i);
      PlaceGrows(o, d, r, d[i].parent, i);
    }
  }

  lemma ParentShown(o: Options, d: Table, r: nat, i: nat)
    requires WellFormed(d) && r < |d| && r < i < End(d, r) && WritableTree(o, d, r) && !Hidden(d, r, i)
    ensures var p := d[i].parent;
            && r <= p < i && p < End(d, r) && !Hidden(d, r, p) && WritableRow(o, d, r, p)
            && !d[p].data.kind.Declaration? && !d[p].data.kind.Pcdata? && Shown(o, d, r, p)
  {
    hide Hidden, TextSurvives, PrintableName;
    VisibleParent(d, r, i);
    var p := d[i].parent;
    SubtreeNested(d, r, i);
    SubtreeIsInterval(d, p, i);
  }

  /** The next row is appended under the open one, if it leaves a trace. */
  lemma RebuiltNext(o: Options, fmt: Format, d: Table, r: nat, i: nat)
    requires WellFormed(d) && r < |d| && r <= i < End(d, r) && (i > r || !d[r].data.kind.DocumentNode?)
    requires WritableTree(o, d, r) && !Hidden(d, r, i)
    ensures var t := Rebuilt(o, fmt, d, r, i);
            && IsTree(t) && OpenAt(o, d, r, i) < |t| && |t| == Place(o, d, r, i)
            && Rebuilt(o, fmt, d, r, i + 1)
               == if Shown(o, d, r, i) then t + [Row(OpenAt(o, d, r, i), ReadData(o, fmt, d[i].data))] else t
  {
    hide ReadData, End, WellFormed, WritableTree, Hidden, Shown;
    RebuiltShape(o, fmt, d, r, i);
    ParentPlace(o, d, r, i);
  }

  /** Nothing inside a declaration is rebuilt. */
  lemma {:induction false} RebuiltSkips(o: Options, fmt: Format, d: Table, r: nat, i: nat, n: nat)
    requires WellFormed(d) && r <= i < |d| && i < n <= End(d, i) <= End(d, r) && d[i].data.kind.Declaration?
    ensures Rebuilt(o, fmt, d, r, n) == Rebuilt(o, fmt, d, r, i + 1)
    decreases n
  {
    hide ReadData, End, WellFormed;
    if n > i + 1 {
      RebuiltSkips(o, fmt, d, r, i, n - 1);
      assert Hidden(d, r, n - 1);
    }
  }

  /** What is open once the end tags after row `i` have been read. */
  ghost function OpenAfter(o: Options, d: Table, r: nat, i: nat): nat
    requires WellFormed(d) && r < |d| && r <= i < End(d, r)
  {
    SubtreeNested(d, r, i);
    if End(d, i) < End(d, r) then OpenAt(o, d, r, End(d, i)) else 0
  }

  lemma ClosingsStep(fmt: Format, indent: string, d: Table, r: nat, i: nat, layout: Layout)
    requires WellFormed(d) && r < |d| && r < i < End(d, r) && NextSibling(d, i) == -1
    ensures var p := Parent(d, i);
            && r <= p < i && p < End(d, r) && End(d, p) == End(d, i)
            && Closings(fmt, indent, d, r, i, layout)
               == if d[p].data.kind.Element? then
                    (Lead(fmt, indent, layout, Level(d, r, p)) + EndTag(d[p].data.name))
                      + Closings(fmt, indent, d, r, p, Line)
                  else Closings(fmt, indent, d, r, p, layout)
  {
    hide IsAncestorOrSelf, ScanEnd, FirstWithParent, LastWithParent, WellFormed, Lead, EndTag, Level;
    SubtreeNested(d, r, i);
    NextSiblingIsEnd(d, i);
  }

  lemma NoClosings(fmt: Format, indent: string, d: Table, r: nat, i: nat, layout: Layout, rest: string)
    requires WellFormed(d) && r < |d| && r <= i < End(d, r) && (i == r || NextSibling(d, i) != -1)
    ensures Closings(fmt, indent, d, r, i, layout) + rest == rest
    ensures forall o :: OpenAfter(o, d, r, i) == OpenAt(o, d, r, i)
  {
    hide IsAncestorOrSelf, ScanEnd, End, FirstWithParent, LastWithParent, WellFormed;
    if i > r {
      NextSiblingIsEnd(d, i);
      NextSiblingLevel(d, r, i);
    }
  }

  lemma ParentPrintable(o: Options, d: Table, r: nat, i: nat)
    requires WellFormed(d) && r < |d| && r < i < End(d, r) && PrintableTree(o, d, r) && !Hidden(d, r, i)
    ensures var p := Parent(d, i);
            && r <= p < End(d, r) && !Hidden(d, r, p) && PrintableRow(o, d, r, p)
            && !d[p].data.kind.Pcdata?
            && (d[p].data.kind.Element? || (p == r && d[r].data.kind.DocumentNode?))
            && (d[p].data.kind.Element? ==> PrintableName(d[p].data.name))
  {
    hide PrintableName, TextSurvives, Hidden, End, WellFormed;
    PrintableIsWritable(o, d, r);
    ParentShown(o, d, r, i);
    PrintableAt(o, d, r, Parent(d, i));
  }

  lemma PrintableIsWritable(o: Options, d: Table, r: nat)
    requires WellFormed(d) && r < |d| && PrintableTree(o, d, r)
    ensures WritableTree(o, d, r)
  {
    hide WritableRow, Hidden, WellFormed, End;
  }

  /** The end tags after a row close what the printer left, and nothing else. */
  lemma {:induction false} ClosingsRead(o: Options, fmt: Format, indent: string, d: Table, r: nat, i: nat,
      layout: Layout, n: nat, rest: string)
    requires WellFormed(d) && r < |d| && r <= i < End(d, r) && n == End(d, i) <= End(d, r)
    requires PrintableTree(o, d, r) && !Hidden(d, r, i) && ReadableFormat(o, fmt, indent)
    ensures var t := Rebuilt(o, fmt, d, r, n);
            && IsTree(t) && OpenAt(o, d, r, i) < |t| && OpenAfter(o, d, r, i) < |t|
            && ParseContent(o, Closings(fmt, indent, d, r, i, layout) + rest, t, OpenAt(o, d, r, i))
               == ParseContent(o, rest, t, OpenAfter(o, d, r, i))
    decreases i
  {
    hide End, WellFormed, PrintableTree, WritableTree, Hidden, Shown, Place, Closings, Rebuilt, ReadableFormat,
         NextSibling, Parent, ReadData, ParseContent, Lead, EndTag, Level, IsTree;
    var t := Rebuilt(o, fmt, d, r, n);
    PrintableIsWritable(o, d, r);
    RebuiltShape(o, fmt, d, r, n);
    ParentPlace(o, d, r, i);
    OpenBefore(o, d, r, i, n);
    if i == r || NextSibling(d, i) != -1 {
      NoClosings(fmt, indent, d, r, i, layout, rest);
    } else {
      ClosingsStep(fmt, indent, d, r, i, layout);
      ParentPrintable(o, d, r, i);
      var p := Parent(d, i);
      if d[p].data.kind.Element? {
        ClosingsRead(o, fmt, indent, d, r, p, Line, n, rest);
        var more := Closings(fmt, indent, d, r, p, Line) + rest;
        var lead, tag := Lead(fmt, indent, layout, Level(d, r, p)), EndTag(d[p].data.name);
        Regroup(lead + tag, Closings(fmt, indent, d, r, p, Line), rest);
        Regroup(lead, tag, more);
        OpenElement(o, fmt, d, r, i, n);
        EndTagRead(o, d[p].data.name, more, t, OpenAt(o, d, r, i));
        LeadSpaces(o, fmt, indent, layout, Level(d, r, p));
        SkipLead(o, lead, tag + more, t, OpenAt(o, d, r, i));
      } else {
        RootPlace(o, d, r);
        ClosingsRead(o, fmt, indent, d, r, p, layout, n, rest);
      }
    }
  }

  /** The open row has been rebuilt. */
  lemma OpenBefore(o: Options, d: Table, r: nat, i: nat, n: nat)
    requires WellFormed(d) && r < |d| && r <= i < End(d, r) && i < n <= End(d, r) && WritableTree(o, d, r)
             && !Hidden(d, r, i)
    ensures OpenAt(o, d, r, i) < Place(o, d, r, n)
  {
    hide End, WellFormed, WritableTree, Hidden, Shown;
    ParentPlace(o, d, r, i);
    PlaceGrows(o, d, r, i, n);
    PlaceGrows(o, d, r, r, n);
    RootShown(o, d, r);
  }

  lemma RootShown(o: Options, d: Table, r: nat)
    requires WellFormed(d) && r < |d| && WritableTree(o, d, r)
    ensures Shown(o, d, r, r)
  {
    EndPast(d, r);
    hide PrintableName, WellFormed, End;
  }

  lemma RootPlace(o: Options, d: Table, r: nat)
    requires r < |d|
    ensures Place(o, d, r, r) == if d[r].data.kind.DocumentNode? then 0 else 1
  {
  }

  lemma EndPast(d: Table, r: nat)
    requires r < |d|
    ensures r < End(d, r) <= |d|
  {
  }

  lemma OpenElement(o: Options, fmt: Format, d: Table, r: nat, i: nat, n: nat)
    requires WellFormed(d) && r < |d| && r < i < n <= End(d, r) && d[Parent(d, i)].data.kind.Element?
    requires r <= Parent(d, i) && WritableTree(o, d, r) && !Hidden(d, r, i)
    ensures var t, open := Rebuilt(o, fmt, d, r, n), OpenAt(o, d, r, i);
            && 0 < open < |t|
            && t[open].data.name == PrintedName(d[Parent(d, i)].data.name)
            && t[open].parent == OpenAt(o, d, r, Parent(d, i))
  {
    hide End, WellFormed, WritableTree, Hidden, Shown;
    var p := Parent(d, i);
    RebuiltShape(o, fmt, d, r, n);
    ParentPlace(o, d, r, i);
    PlaceGrows(o, d, r, r, p);
    RootShown(o, d, r);
    assert OpenAt(o, d, r, i) == Place(o, d, r, p);
  }

  /** After character data the text goes on with a tag or ends. */
  lemma TagAfterText(o: Options, fmt: Format, indent: string, d: Table, r: nat, i: nat)
    requires WellFormed(d) && r < |d| && r < i < End(d, r) && PrintableTree(o, d, r) && d[i].data.kind.Pcdata?
             && !Hidden(d, r, i)
    ensures var s := AfterRow(fmt, indent, d, r, i, Flat); s == "" || (s[0] == '<' && |s| > 1)
  {
    hide WellFormed, Closings, PrintableTree, TextSurvives, PrintableName, PrintableData, NextSibling, Parent,
         FirstChild, Level, AttributesText, TagClose, RowsText;
    assert PrintableRow(o, d, r, i) by { PrintableAt(o, d, r, i); }
    AfterRowStep(fmt, indent, d, r, i, Flat);
    var closed := LayoutClosed(d, r, i, Flat);
    if NextSibling(d, i) != -1 {
      NoClosings(fmt, indent, d, r, i, Flat, "");
      NextSiblingIsEnd(d, i);
      NextSiblingLevel(d, r, i);
      VisibleNext(d, r, i);
      PrintableAt(o, d, r, i + 1);
      TagStart(o, fmt, indent, d, r, i + 1);
      NoClosings(fmt, indent, d, r, i, Flat, RowsText(fmt, indent, d, r, i + 1, Flat));
    } else {
      ClosingsStep(fmt, indent, d, r, i, Flat);
      ParentPrintable(o, d, r, i);
      LastTextClosed(fmt, indent, d, r, i);
    }
  }

  lemma PrintableAt(o: Options, d: Table, r: nat, i: nat)
    requires WellFormed(d) && r < |d| && r <= i < End(d, r) && PrintableTree(o, d, r) && !Hidden(d, r, i)
    ensures PrintableRow(o, d, r, i)
  {
    hide PrintableRow, WellFormed, End, Hidden;
  }

  lemma TagStart(o: Options, fmt: Format, indent: string, d: Table, r: nat, i: nat)
    requires WellFormed(d) && r < |d| && r < i < End(d, r) && PrintableRow(o, d, r, i) && !d[i].data.kind.Pcdata?
    ensures var s := RowsText(fmt, indent, d, r, i, Flat); |s| > 1 && s[0] == '<'
  {
    hide WellFormed, Closings, NextSibling, Parent, FirstChild, Level, AttributesText, TagClose, RowsText, AfterRow,
         End, IsLeaf;
    RowsTextStep(fmt, indent, d, r, i, Flat);
    assert d[i].data.kind.Element? || d[i].data.kind.Declaration?;
    assert |PrintedName(d[i].data.name)| > 0;
    assert Lead(fmt, indent, Flat, Level(d, r, i)) == "";
  }

  lemma LastTextClosed(fmt: Format, indent: string, d: Table, r: nat, i: nat)
    requires WellFormed(d) && r < |d| && r < i < End(d, r) && NextSibling(d, i) == -1
    requires r <= Parent(d, i) && (d[Parent(d, i)].data.kind.Element? || Parent(d, i) == r)
    ensures var s := AfterRow(fmt, indent, d, r, i, Flat); s == "" || (s[0] == '<' && |s| > 1)
  {
    hide WellFormed, RowsText, End, NextSibling, Level, FirstChild;
    SubtreeNested(d, r, i);
    NextSiblingIsEnd(d, i);
    AfterRowStep(fmt, indent, d, r, i, Flat);
    ClosingsStep(fmt, indent, d, r, i, Flat);
    hide Closings, AfterRow, LayoutClosed;
    var p := Parent(d, i);
    if d[p].data.kind.Element? {
      assert |EndTag(d[p].data.name)| > 1 && EndTag(d[p].data.name)[0] == '<';
      assert Lead(fmt, indent, Flat, Level(d, r, p)) == "";
    } else {
      RootClosed(fmt, indent, d, r, i);
    }
  }

  lemma RootClosed(fmt: Format, indent: string, d: Table, r: nat, i: nat)
    requires WellFormed(d) && r < |d| && r < i < End(d, r) && NextSibling(d, i) == -1
    requires Parent(d, i) == r && !d[r].data.kind.Element?
    ensures Closings(fmt, indent, d, r, i, Flat) == "" && LayoutClosed(d, r, i, Flat) == Flat && End(d, i) == End(d, r)
  {
    hide WellFormed, End;
    NextSiblingIsEnd(d, i);
  }

  /** What reading the text from row `i` on comes to. */
  ghost function Outcome(o: Options, fmt: Format, d: Table, r: nat, i: nat): Result
    requires WellFormed(d) && r < |d| && r <= i <= End(d, r)
  {
    if forall k | i <= k < End(d, r) :: Hidden(d, r, k) || Whole(d[k].data)
      then Parsed(Rebuilt(o, fmt, d, r, End(d, r)))
    else Failed(BadStartElement)
  }

  lemma OutcomeStep(o: Options, fmt: Format, d: Table, r: nat, i: nat)
    requires WellFormed(d) && r < |d| && r <= i < End(d, r) && !Hidden(d, r, i)
    ensures Outcome(o, fmt, d, r, i)
            == if Whole(d[i].data) then Outcome(o, fmt, d, r, i + 1) else Failed(BadStartElement)
  {
    hide Whole, WellFormed, End, Rebuilt, Hidden;
  }

  lemma OutcomeEnd(o: Options, fmt: Format, d: Table, r: nat)
    requires WellFormed(d) && r < |d|
    ensures Outcome(o, fmt, d, r, End(d, r)) == Parsed(Rebuilt(o, fmt, d, r, End(d, r)))
  {
    hide Whole, WellFormed, End, Rebuilt, Hidden;
  }

  lemma OutcomeSkips(o: Options, fmt: Format, d: Table, r: nat, i: nat)
    requires WellFormed(d) && r <= i < |d| && End(d, i) <= End(d, r) && d[i].data.kind.Declaration?
    ensures Outcome(o, fmt, d, r, i + 1) == Outcome(o, fmt, d, r, End(d, i))
  {
    hide Whole, WellFormed, End, Rebuilt;
    assert forall k | i < k < End(d, i) :: Hidden(d, r, k);
  }

  /** A row that is printed alone: what comes behind it is what comes behind its subtree. */
  lemma BehindLeaf(o: Options, fmt: Format, d: Table, r: nat, i: nat)
    requires WellFormed(d) && r < |d| && r <= i < End(d, r) && !Hidden(d, r, i) && WritableRow(o, d, r, i)
             && IsLeaf(d, i)
    ensures End(d, i) <= End(d, r)
    ensures Rebuilt(o, fmt, d, r, End(d, i)) == Rebuilt(o, fmt, d, r, i + 1)
    ensures Outcome(o, fmt, d, r, End(d, i)) == Outcome(o, fmt, d, r, i + 1)
  {
    hide Rebuilt, Outcome, WellFormed, Hidden, FirstChild;
    SubtreeNested(d, r, i);
    FirstChildIsNextRow(d, i);
    if d[i].data.kind.Declaration? {
      RebuiltSkips(o, fmt, d, r, i, End(d, i));
      OutcomeSkips(o, fmt, d, r, i);
    }
  }

  /** Reading the text from row `i` on completes the table, if no declaration ends too early. */
  lemma {:induction false} RowsRead(o: Options, fmt: Format, indent: string, d: Table, r: nat, i: nat, layout: Layout)
    requires WellFormed(d) && r < |d| && r <= i < End(d, r) && (i > r || !d[r].data.kind.DocumentNode?)
    requires PrintableTree(o, d, r) && !Hidden(d, r, i) && ReadableFormat(o, fmt, indent)
    ensures var t := Rebuilt(o, fmt, d, r, i);
            && IsTree(t) && OpenAt(o, d, r, i) < |t|
            && ParseContent(o, RowsText(fmt, indent, d, r, i, layout), t, OpenAt(o, d, r, i))
               == Outcome(o, fmt, d, r, i)
    decreases |d| - i, 1
  {
    hide WellFormed, End, Closings, PrintableTree, PrintableRow, WritableTree, WritableRow, Hidden, Rebuilt, Outcome,
         Whole, NextSibling, Parent, FirstChild, RowsText, AfterRow, ReadData, ParseContent, RowText, Level, IsTree,
         OpenAt, NewParent, Place, PrintableData, IsLeaf, EscapedText, TextSurvives;
    PrintableAt(o, d, r, i);
    PrintableIsWritable(o, d, r);
    RebuiltNext(o, fmt, d, r, i);
    RowsTextStep(fmt, indent, d, r, i, layout);
    RowKind(o, d, r, i);
    OutcomeStep(o, fmt, d, r, i);
    var leaf, after := IsLeaf(d, i), LayoutAfter(d[i].data.kind);
    FirstChildIsNextRow(d, i);
    if leaf {
      BehindLeaf(o, fmt, d, r, i);
      AfterRowRead(o, fmt, indent, d, r, i, after);
    } else {
      LeafHasNone(d, i);
      VisibleNext(d, r, i);
      RowsRead(o, fmt, indent, d, r, i + 1, after);
      FirstChildOpen(o, d, r, i);
    }
    assert !d[i].data.kind.Declaration? ==> Whole(d[i].data) by { OthersWhole(d[i].data); }
    var rest := if leaf then AfterRow(fmt, indent, d, r, i, after) else RowsText(fmt, indent, d, r, i + 1, after);
    if d[i].data.kind.Element? {
      ElementRead(o, fmt, indent, Level(d, r, i), layout, d[i].data, leaf, rest, Rebuilt(o, fmt, d, r, i),
          OpenAt(o, d, r, i));
    } else if d[i].data.kind.Declaration? {
      DeclarationRowRead(o, fmt, indent, Level(d, r, i), layout, d[i].data, leaf, rest, Rebuilt(o, fmt, d, r, i));
    } else {
      TagAfterText(o, fmt, indent, d, r, i);
      TextRowRead(o, fmt, d, r, i, rest);
      TextRow(fmt, indent, Level(d, r, i), layout, d[i].data, leaf);
    }
  }

  lemma OthersWhole(data: NodeData)
    ensures !data.kind.Declaration? ==> Whole(data)
  {
  }

  lemma TextRow(fmt: Format, indent: string, depth: nat, layout: Layout, data: NodeData, leaf: bool)
    requires data.kind.Pcdata?
    ensures RowText(fmt, indent, depth, layout, data, leaf) == EscapedText(fmt.style, false, data.value)
            && LayoutAfter(data.kind) == Flat
  {
  }

  lemma RowKind(o: Options, d: Table, r: nat, i: nat)
    requires WellFormed(d) && r < |d| && r <= i < End(d, r) && (i > r || !d[r].data.kind.DocumentNode?)
             && PrintableRow(o, d, r, i)
    ensures PrintableData(o, d[i].data) && WritableRow(o, d, r, i)
    ensures d[i].data.kind.Element? ==> IsLeaf(d, i) == (End(d, i) == i + 1)
    ensures d[i].data.kind.Element?
            || (IsLeaf(d, i) && ((d[i].data.kind.Pcdata? && i > r)
                 || (d[i].data.kind.Declaration? && OpenAt(o, d, r, i) == 0)))
    ensures !d[i].data.kind.Pcdata? && !Hidden(d, r, i) ==> Shown(o, d, r, i)
  {
    FirstChildIsNextRow(d, i);
    hide WellFormed, End, FirstChild, Hidden;
  }

  lemma DeclarationRowRead(o: Options, fmt: Format, indent: string, depth: nat, layout: Layout, data: NodeData,
      leaf: bool, rest: string, t: Table)
    requires IsTree(t) && ReadableFormat(o, fmt, indent) && data.kind.Declaration? && PrintableData(o, data)
    ensures ParseContent(o, RowText(fmt, indent, depth, layout, data, leaf) + rest, t, 0)
            == if Whole(data) then ParseContent(o, rest, t + [Row(0, ReadData(o, fmt, data))], 0)
               else Failed(BadStartElement)
  {
    hide ParseContent, Lead, MarkupText, PrintableData, ReadData, Whole;
    var lead, tag := Lead(fmt, indent, layout, depth), MarkupText(fmt, data);
    Regroup(lead, tag, rest);
    LeadSpaces(o, fmt, indent, layout, depth);
    if Whole(data) { DeclarationRead(o, fmt, data, rest, t); } else { DeclarationBroken(o, fmt, data, rest, t); }
    SkipLead(o, lead, tag + rest, t, 0);
  }

  lemma FirstChildOpen(o: Options, d: Table, r: nat, i: nat)
    requires WellFormed(d) && r < |d| && r <= i < End(d, r) && FirstChild(d, i) != -1 && i + 1 < End(d, r)
    ensures OpenAt(o, d, r, i + 1) == Place(o, d, r, i)
  {
    FirstChildIsNextRow(d, i);
  }

  lemma ElementRead(o: Options, fmt: Format, indent: string, depth: nat, layout: Layout, data: NodeData, leaf: bool,
      rest: string, t: Table, open: nat)
    requires IsTree(t) && open < |t| && ReadableFormat(o, fmt, indent) && data.kind.Element? && PrintableData(o, data)
    ensures ParseContent(o, RowText(fmt, indent, depth, layout, data, leaf) + rest, t, open)
            == AfterTag(o, leaf, rest, t, open, ReadData(o, fmt, data))
  {
    hide ParseContent, Lead, StartTag, IsTree, AfterTag, ReadableFormat, PrintableData, ReadData;
    var lead, tag := Lead(fmt, indent, layout, depth), StartTag(fmt, indent, depth, data, leaf);
    Regroup(lead, tag, rest);
    LeadSpaces(o, fmt, indent, layout, depth);
    StartTagRead(o, fmt, indent, depth, data, leaf, rest, t, open);
    SkipLead(o, lead, tag + rest, t, open);
  }

  /** Character data that is dropped. */
  lemma BlankRead(o: Options, fmt: Format, v: string, rest: string, d: Table, open: nat)
    requires IsTree(d) && open < |d| && Faithful(fmt.style) && '\0' !in v && !TextSurvives(o, v)
    requires rest == "" || rest[0] == '<'
    ensures ParseContent(o, EscapedText(fmt.style, false, v) + rest, d, open) == ParseContent(o, rest, d, open)
  {
    hide EscapedText, ParseContent;
    EscapedSpaces(fmt.style, v);
    SkipLead(o, EscapedText(fmt.style, false, v), rest, d, open);
  }

  lemma {:induction false} EscapedSpaces(style: EscapeStyle, v: string)
    requires Faithful(style) && AllSpaces(v)
    ensures EscapedText(style, false, v) == v
  {
    hide EscapedText;
    if v == "" {
      EscapedEmpty(style, false);
    } else {
      EscapedTextStep(style, false, v);
      EscapedSpace(style, v[0]);
      AllSpacesStep(v);
      EscapedSpaces(style, v[1..]);
    }
  }

  lemma TextRowRead(o: Options, fmt: Format, d: Table, r: nat, i: nat, rest: string)
    requires WellFormed(d) && r < |d| && r < i < End(d, r) && PrintableTree(o, d, r) && !Hidden(d, r, i)
    requires d[i].data.kind.Pcdata? && Faithful(fmt.style)
    requires rest == "" || (rest[0] == '<' && |rest| > 1)
    ensures var t, open := Rebuilt(o, fmt, d, r, i), OpenAt(o, d, r, i);
            && IsTree(t) && open < |t|
            && ParseContent(o, EscapedText(fmt.style, false, d[i].data.value) + rest, t, open)
               == if Shown(o, d, r, i) then ParseContent(o, rest, t + [Row(open, ReadData(o, fmt, d[i].data))], open)
                  else ParseContent(o, rest, t, open)
  {
    hide WellFormed, End, ParseContent, EscapedText, ReadBack, IsTree, TextSurvives, Hidden, PrintableTree,
         WritableTree, Rebuilt, Place;
    PrintableAt(o, d, r, i);
    PrintableIsWritable(o, d, r);
    RebuiltNext(o, fmt, d, r, i);
    if Shown(o, d, r, i) {
      TextPlace(o, d, r, i);
      TextRead(o, fmt, d[i].data.value, rest, Rebuilt(o, fmt, d, r, i), OpenAt(o, d, r, i));
    } else {
      BlankRead(o, fmt, d[i].data.value, rest, Rebuilt(o, fmt, d, r, i), OpenAt(o, d, r, i));
    }
  }

  /** Character data has a node open around it, or a fragment. */
  lemma TextPlace(o: Options, d: Table, r: nat, i: nat)
    requires WellFormed(d) && r < |d| && r < i < End(d, r) && WritableTree(o, d, r) && WritableRow(o, d, r, i)
    requires !Hidden(d, r, i) && d[i].data.kind.Pcdata?
    ensures OpenAt(o, d, r, i) != 0 || o.fragment
  {
    hide WellFormed, End, WritableTree, Hidden, Shown, TextSurvives;
    ParentPlace(o, d, r, i);
    RootShown(o, d, r);
    ParentBefore(d, r, i);
    PlaceGrows(o, d, r, r, d[i].parent);
  }

  lemma TrailRead(o: Options, fmt: Format, layout: Layout, d: Table)
    requires IsTree(d) && (o.spaceText ==> fmt.raw)
    ensures ParseContent(o, Trail(fmt, layout), d, 0) == Parsed(d)
  {
    var t := Trail(fmt, layout);
    SkipLead(o, t, "", d, 0);
    assert t + "" == t;
  }

  lemma {:induction false} AfterRowRead(o: Options, fmt: Format, indent: string, d: Table, r: nat, i: nat,
      layout: Layout)
    requires WellFormed(d) && r < |d| && r <= i < End(d, r) && End(d, i) <= End(d, r)
    requires PrintableTree(o, d, r) && !Hidden(d, r, i) && ReadableFormat(o, fmt, indent)
    ensures var t := Rebuilt(o, fmt, d, r, End(d, i));
            && IsTree(t) && OpenAt(o, d, r, i) < |t|
            && ParseContent(o, AfterRow(fmt, indent, d, r, i, layout), t, OpenAt(o, d, r, i))
               == Outcome(o, fmt, d, r, End(d, i))
    decreases |d| - i, 0
  {
    hide WellFormed, End, Closings, PrintableTree, Hidden, Place, Rebuilt, Outcome, NextSibling, Parent, RowsText,
         AfterRow, ReadData, ParseContent, Level, IsTree, OpenAt, NewParent, Trail;
    var closed, e := LayoutClosed(d, r, i, layout), End(d, i);
    AfterRowStep(fmt, indent, d, r, i, layout);
    var rest := if e < End(d, r) then RowsText(fmt, indent, d, r, e, closed) else Trail(fmt, closed);
    ClosingsRead(o, fmt, indent, d, r, i, layout, e, rest);
    EndPast(d, i);
    if e < End(d, r) {
      VisibleNext(d, r, i);
      RowsRead(o, fmt, indent, d, r, e, closed);
    } else {
      OutcomeEnd(o, fmt, d, r);
      TrailRead(o, fmt, closed, Rebuilt(o, fmt, d, r, e));
    }
  }

  /** Parsing undoes printing: for every tree whose texts stand apart, printed from any node in any format
    that only adds white space the parser skips, the parser rebuilds, row by row, every node that leaves a
    trace. The one thing that stops it is a `?>` in a value of a declaration. */
  lemma PrintedRead(o: Options, fmt: Format, indent: string, d: Table, r: nat)
    requires WellFormed(d) && r < |d| && PrintableTree(o, d, r) && ReadableFormat(o, fmt, indent)
    ensures ParseContent(o, Printed(fmt, indent, d, r), NewDocument(), 0)
            == if forall i | r <= i < End(d, r) :: Hidden(d, r, i) || Whole(d[i].data)
               then Parsed(Rebuilt(o, fmt, d, r, End(d, r)))
               else Failed(BadStartElement)
  {
    if d[r].data.kind.DocumentNode? {
      DocumentRead(o, fmt, indent, d, r);
    } else {
      hide ParseContent, RowsText, End, WellFormed, Whole, PrintableTree, Shown;
      RowsRead(o, fmt, indent, d, r, r, IndentOnly);
    }
  }

  lemma DocumentRead(o: Options, fmt: Format, indent: string, d: Table, r: nat)
    requires WellFormed(d) && r < |d| && PrintableTree(o, d, r) && ReadableFormat(o, fmt, indent)
             && d[r].data.kind.DocumentNode?
    ensures ParseContent(o, Printed(fmt, indent, d, r), NewDocument(), 0) == Outcome(o, fmt, d, r, r)
  {
    hide WellFormed, End, Closings, PrintableTree, NextSibling, Parent, FirstChild, RowsText, AfterRow, ParseContent,
         Outcome;
    OutcomeStep(o, fmt, d, r, r);
    OthersWhole(d[r].data);
    RowsTextStep(fmt, indent, d, r, r, IndentOnly);
    RootLevel(d, r);
    FirstChildIsNextRow(d, r);
    FirstRebuilt(o, fmt, d, r);
    VisibleNext(d, r, r);
    if FirstChild(d, r) == -1 {
      assert "" + AfterRow(fmt, indent, d, r, r, IndentOnly) == AfterRow(fmt, indent, d, r, r, IndentOnly);
      AfterRowRead(o, fmt, indent, d, r, r, IndentOnly);
    } else {
      assert "" + RowsText(fmt, indent, d, r, r + 1, IndentOnly) == RowsText(fmt, indent, d, r, r + 1, IndentOnly);
      FirstChildOpen(o, d, r, r);
      RowsRead(o, fmt, indent, d, r, r + 1, IndentOnly);
    }
  }

  lemma FirstRebuilt(o: Options, fmt: Format, d: Table, r: nat)
    requires WellFormed(d) && r < |d| && d[r].data.kind.DocumentNode?
    ensures r < End(d, r) && !Hidden(d, r, r) && Place(o, d, r, r) == 0 && Rebuilt(o, fmt, d, r, r + 1) == NewDocument()
  {
    EndPast(d, r);
    hide WellFormed, End;
    assert Rebuilt(o, fmt, d, r, r) == [];
    assert Shown(o, d, r, r);
  }

  // ------------------------------------------------------------------ when the tree comes back unchanged

  /** The parent of row `i` of the subtree of `r` when that is moved, with all its rows, under a document
    row, unless `r` is one. */
  function MovedParent(d: Table, r: nat, i: nat): int
    requires WellFormed(d) && r < |d| && r <= i < |d|
  {
    var shift := if d[r].data.kind.DocumentNode? then 0 else 1;
    if i == r then shift - 1 else d[i].parent - r + shift
  }

  /** The rows `r .. n` of a subtree, moved under a document row but otherwise as they are. */
  function Copied(d: Table, r: nat, n: nat): (t: Table)
    requires WellFormed(d) && r < |d| && r <= n <= End(d, r)
    decreases n
  {
    if n == r then (if d[r].data.kind.DocumentNode? then [] else NewDocument())
    else Copied(d, r, n - 1) + [Row(MovedParent(d, r, n - 1), d[n - 1].data)]
  }

  lemma {:induction false} CopiedWhole(d: Table, n: nat)
    requires WellFormed(d) && n <= |d| && d[0].data.kind.DocumentNode?
    ensures n <= End(d, 0) && Copied(d, 0, n) == d[..n]
  {
    SubtreeIsInterval(d, 0, 0);
    AboutEnd(d, 0);
    if n > 0 {
      CopiedWhole(d, n - 1);
      assert d[..n] == d[..n - 1] + [d[n - 1]];
    }
  }

  /** A record in the form the parser gives it: a named element or declaration, or bare character data. */
  predicate CanonicalData(data: NodeData) {
    match data.kind
    case Element => data.name != "" && data.value == "" && forall k | 0 <= k < |data.attributes| ::
      data.attributes[k].name != ""
    case Declaration => data.name != "" && data.value == "" && forall k | 0 <= k < |data.attributes| ::
      data.attributes[k].name != ""
    case Pcdata => data.name == "" && data.attributes == []
    case _ => data == EmptyDocument
  }

  /** Where every row leaves a trace none moves up. */
  lemma {:induction false} PlaceOfAll(o: Options, d: Table, r: nat, i: nat)
    requires r < |d| && r <= i <= |d| && forall k | r <= k < i :: Shown(o, d, r, k)
    ensures Place(o, d, r, i) == i - r + if d[r].data.kind.DocumentNode? then 0 else 1
    decreases i
  {
    hide Shown;
    if i > r { PlaceOfAll(o, d, r, i - 1); }
  }

  lemma SameParent(o: Options, d: Table, r: nat, i: nat)
    requires WellFormed(d) && r < |d| && r <= i < End(d, r) && forall k | r <= k < i :: Shown(o, d, r, k)
    ensures NewParent(o, d, r, i) == MovedParent(d, r, i)
  {
    hide Shown, WellFormed, End;
    if i > r {
      SubtreeNested(d, r, i);
      assert r <= d[i].parent < i by { ParentBefore(d, r, i); }
      PlaceOfAll(o, d, r, d[i].parent);
    }
  }

  lemma ParentBefore(d: Table, r: nat, i: nat)
    requires WellFormed(d) && r < |d| && r < i < End(d, r)
    ensures r <= d[i].parent < i
  {
    SubtreeNested(d, r, i);
  }

  /** The parser rebuilds what was printed exactly if every row leaves a trace and is read as it is. */
  lemma {:induction false} RebuiltSame(o: Options, fmt: Format, d: Table, r: nat, n: nat)
    requires WellFormed(d) && r < |d| && r <= n <= End(d, r)
    ensures |Rebuilt(o, fmt, d, r, n)| <= |Copied(d, r, n)|
    ensures |Rebuilt(o, fmt, d, r, n)| == |Copied(d, r, n)| <==> forall i | r <= i < n :: Shown(o, d, r, i)
    ensures Rebuilt(o, fmt, d, r, n) == Copied(d, r, n)
            <==> forall i | r <= i < n :: Shown(o, d, r, i) && ReadData(o, fmt, d[i].data) == d[i].data
    decreases n
  {
    hide ReadData, End, WellFormed, Shown, NewParent, MovedParent;
    if n > r {
      RebuiltSame(o, fmt, d, r, n - 1);
      var a, b := Rebuilt(o, fmt, d, r, n), Copied(d, r, n);
      if forall i | r <= i < n :: Shown(o, d, r, i) {
        SameParent(o, d, r, n - 1);
        var k := |b| - 1;
        assert a[..k] == Rebuilt(o, fmt, d, r, n - 1) && b[..k] == Copied(d, r, n - 1);
        assert a == a[..k] + [a[k]] && b == b[..k] + [b[k]];
      } else {
        assert |a| < |b|;
      }
    }
  }

  lemma TagSame(o: Options, fmt: Format, data: NodeData)
    requires CanonicalData(data) && (data.kind.Element? || data.kind.Declaration?)
    ensures ReadData(o, fmt, data) == data
            <==> forall k | 0 <= k < |data.attributes| ::
                   ReadBack(AttributeRules(o, QuoteOf(fmt)), fmt.style, true, data.attributes[k].value)
                     == data.attributes[k].value
  {
    hide ReadBack;
    var read := ReadAttributes(o, fmt, data.attributes);
    if forall k | 0 <= k < |data.attributes| ::
      ReadBack(AttributeRules(o, QuoteOf(fmt)), fmt.style, true, data.attributes[k].value) == data.attributes[k].value {
      forall k | 0 <= k < |read| ensures read[k] == data.attributes[k] {}
      assert read == data.attributes;
    } else {
      var k :| 0 <= k < |data.attributes|
        && ReadBack(AttributeRules(o, QuoteOf(fmt)), fmt.style, true, data.attributes[k].value)
        != data.attributes[k].value;
      assert read[k] != data.attributes[k];
    }
  }

  lemma {:induction false} WithNewlinesSame(v: string)
    ensures '\r' !in WithNewlines(v)
    ensures WithNewlines(v) == v <==> '\r' !in v
    decreases |v|
  {
    if v == "" {
    } else if v[0] == '\r' {
      WithNewlinesSame(v[LineEndLength(v)..]);
    } else {
      WithNewlinesSame(v[1..]);
      assert v == [v[0]] + v[1..];
    }
  }

  predicate NoReturn(data: NodeData) {
    data.kind.Pcdata? ==> '\r' !in data.value
  }

  lemma SameResolved(o: Options, fmt: Format, data: NodeData)
    requires o.escapes && CanonicalData(data)
    ensures ReadData(o, fmt, data) == data <==> (o.eol ==> NoReturn(data))
  {
    hide ReadBack;
    if data.kind.Element? || data.kind.Declaration? {
      forall k | 0 <= k < |data.attributes| {
        ReadBackResolved(AttributeRules(o, QuoteOf(fmt)), fmt.style, true, data.attributes[k].value);
      }
      TagSame(o, fmt, data);
    } else if data.kind.Pcdata? {
      ReadBackResolved(TextRules(o), fmt.style, false, data.value);
      WithNewlinesSame(data.value);
    }
  }

  /** Nothing in the record is written as a reference. */
  predicate PlainData(style: EscapeStyle, data: NodeData) {
    if data.kind.Pcdata? then Plain(style, false, data.value)
    else forall k | 0 <= k < |data.attributes| :: Plain(style, true, data.attributes[k].value)
  }

  lemma SameUnresolved(o: Options, fmt: Format, data: NodeData)
    requires !o.escapes && CanonicalData(data) && Faithful(fmt.style)
    ensures ReadData(o, fmt, data) == data <==> PlainData(fmt.style, data) && (o.eol ==> NoReturn(data))
  {
    hide ReadBack, Plain, EscapedText;
    if data.kind.Element? || data.kind.Declaration? {
      forall k | 0 <= k < |data.attributes|
        ensures ReadBack(AttributeRules(o, QuoteOf(fmt)), fmt.style, true, data.attributes[k].value)
                == data.attributes[k].value
                <==> Plain(fmt.style, true, data.attributes[k].value)
      { ReadBackUnresolved(AttributeRules(o, QuoteOf(fmt)), fmt.style, true, data.attributes[k].value); }
      TagSame(o, fmt, data);
    } else if data.kind.Pcdata? {
      ReadBackUnresolved(TextRules(o), fmt.style, false, data.value);
    }
  }

  ghost predicate CanonicalTree(d: Table, r: nat)
    requires r < |d|
  {
    forall i | r <= i < End(d, r) :: CanonicalData(d[i].data)
  }

  /** Printed and parsed with references resolved, a tree comes back exactly, unless line ends are
    converted and some character data holds a carriage return, or a declaration ends too early. */
  lemma ExactWithReferences(o: Options, fmt: Format, indent: string, d: Table, r: nat)
    requires WellFormed(d) && r < |d| && PrintableTree(o, d, r) && CanonicalTree(d, r) && ReadableFormat(o, fmt, indent)
             && o.escapes
    ensures ParseContent(o, Printed(fmt, indent, d, r), NewDocument(), 0) == Parsed(Copied(d, r, End(d, r)))
            <==> forall i | r <= i < End(d, r) ::
                 Shown(o, d, r, i) && Whole(d[i].data) && (o.eol ==> NoReturn(d[i].data))
  {
    hide ParseContent, Rebuilt, Copied, Printed, ReadData, NoReturn, CanonicalData, PrintableTree, Whole, Hidden,
         TextSurvives;
    PrintedRead(o, fmt, indent, d, r);
    RebuiltSame(o, fmt, d, r, End(d, r));
    forall i | r <= i < End(d, r)
      ensures ReadData(o, fmt, d[i].data) == d[i].data <==> (o.eol ==> NoReturn(d[i].data))
    {
      SameResolved(o, fmt, d[i].data);
    }
  }

  /** Printed and parsed with references left alone, a tree comes back exactly if and only if nothing
    in it had to be written as a reference, no line end in it was converted, and no declaration ended
    too early. */
  lemma ExactWithoutReferences(o: Options, fmt: Format, indent: string, d: Table, r: nat)
    requires WellFormed(d) && r < |d| && PrintableTree(o, d, r) && CanonicalTree(d, r) && ReadableFormat(o, fmt, indent)
             && !o.escapes
    ensures ParseContent(o, Printed(fmt, indent, d, r), NewDocument(), 0) == Parsed(Copied(d, r, End(d, r)))
            <==> forall i | r <= i < End(d, r) ::
                   Shown(o, d, r, i) && Whole(d[i].data) && PlainData(fmt.style, d[i].data)
                     && (o.eol ==> NoReturn(d[i].data))
  {
    hide ParseContent, Rebuilt, Copied, Printed, ReadData, PlainData, NoReturn, CanonicalData, PrintableTree, Whole,
         Hidden, TextSurvives;
    PrintedRead(o, fmt, indent, d, r);
    RebuiltSame(o, fmt, d, r, End(d, r));
    forall i | r <= i < End(d, r)
      ensures ReadData(o, fmt, d[i].data) == d[i].data
              <==> PlainData(fmt.style, d[i].data) && (o.eol ==> NoReturn(d[i].data))
    {
      SameUnresolved(o, fmt, d[i].data);
    }
  }

  /** The raw form of a whole document, parsed with references resolved and blank text kept, is the
    document again. */
  lemma RawRoundTrip(o: Options, fmt: Format, d: Table)
    requires WellFormed(d) && d[0].data.kind.DocumentNode? && PrintableTree(o, d, 0) && CanonicalTree(d, 0)
    requires o.escapes && o.spaceText && fmt.raw && Faithful(fmt.style)
    ensures ParseContent(o, Printed(fmt, "", d, 0), NewDocument(), 0) == Parsed(d)
            <==> forall i | 0 <= i < |d| :: Shown(o, d, 0, i) && Whole(d[i].data) && (o.eol ==> NoReturn(d[i].data))
  {
    hide ParseContent, Copied, Printed, NoReturn, CanonicalTree, PrintableTree, Whole, Shown;
    CopiedWhole(d, |d|);
    assert End(d, 0) == |d| && d[..|d|] == d;
    ExactWithReferences(o, fmt, "", d, 0);
  }
}
