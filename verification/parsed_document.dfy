/** What every successful parse guarantees about the document it builds. */
module ParsedDocument {
  import opened Document
  import opened Characters
  import opened Escapes
  import opened Printer
  import opened Parser
  import opened RoundTrip
  import opened AdjacentText

  /** A record as the parser makes them. */
  predicate ParsedData(o: Options, data: NodeData) {
    match data.kind
    case Element =>
      && IsName(data.name) && data.value == ""
      && forall k | 0 <= k < |data.attributes| :: IsName(data.attributes[k].name) && '\0' !in data.attributes[k].value
    case Declaration =>
      && o.declaration && IsXmlTarget(data.name) && data.value == ""
      && forall k | 0 <= k < |data.attributes| :: IsName(data.attributes[k].name) && '\0' !in data.attributes[k].value
    case Pcdata => data.name == "" && data.attributes == [] && '\0' !in data.value
      && (!o.escapes ==> TextSurvives(o, data.value))
    case _ => false
  }

  /** Row `i`: character data has no children and stands at the top level only in a fragment, and a
    declaration stands nowhere else. */
  predicate ParsedRow(o: Options, d: Table, i: nat)
    requires i < |d|
  {
    && (i == 0 ==> d[i] == Row(-1, EmptyDocument))
    && (i > 0 ==> ParsedData(o, d[i].data))
    && (d[i].data.kind.Pcdata? ==> (d[i].parent == 0 ==> o.fragment) && (i + 1 < |d| ==> d[i + 1].parent != i))
    && (d[i].data.kind.Declaration? ==> d[i].parent == 0)
  }

  ghost predicate ParsedRows(o: Options, d: Table) {
    WellFormed(d) && forall i | 0 <= i < |d| :: ParsedRow(o, d, i)
  }

  /** The parser's state: the rows so far, and an open row whose subtree reaches to the last of them. */
  ghost predicate State(o: Options, d: Table, open: nat) {
    && ParsedRows(o, d) && open < |d|
    && End(d, open) == |d|
    && !d[open].data.kind.Pcdata?
  }

  // ------------------------------------------------------------------ one more row

  lemma AppendedWellFormed(d: Table, open: nat, data: NodeData)
    requires WellFormed(d) && open < |d| && End(d, open) == |d|
    ensures WellFormed(d + [Row(open, data)])
  {
    var d' := d + [Row(open, data)];
    AboutEnd(d, open);
    forall i, j | 0 < j < i < |d'| ensures Nested(d', i, j) {
      if i < |d| { NestedAt(d, i, j); assert Nested(d, i, j); }
    }
  }

  /** The new row's subtree is itself, and the open row's subtree now includes it. */
  lemma AppendedEnds(d: Table, open: nat, data: NodeData)
    requires WellFormed(d) && open < |d| && End(d, open) == |d|
    ensures var d' := d + [Row(open, data)];
            End(d', open) == |d'| && End(d', |d|) == |d'|
  {
    var d' := d + [Row(open, data)];
    AboutEnd(d, open);
    ScanEndUnique(d', open, open + 1, |d'|);
  }

  lemma AppendRow(o: Options, d: Table, open: nat, data: NodeData)
    requires State(o, d, open) && ParsedData(o, data)
    requires data.kind.Pcdata? ==> open != 0 || o.fragment
    requires data.kind.Declaration? ==> open == 0
    ensures var d' := d + [Row(open, data)];
            State(o, d', open) && (!data.kind.Pcdata? ==> State(o, d', |d|))
  {
    hide WellFormed, End, ParsedData;
    var d' := d + [Row(open, data)];
    AppendedWellFormed(d, open, data);
    AppendedEnds(d, open, data);
    forall i | 0 <= i < |d'| ensures ParsedRow(o, d', i) {
      if i < |d| { assert ParsedRow(o, d, i); }
    }
  }

  /** Closing the open row: its parent's subtree still reaches to the end. */
  lemma CloseRow(o: Options, d: Table, open: nat)
    requires State(o, d, open) && open != 0
    ensures 0 <= d[open].parent < open
    ensures State(o, d, d[open].parent)
  {
    hide WellFormed, End, ParsedData;
    ParentNotText(o, d, open);
    var p := d[open].parent;
    assert IsAncestorOrSelf(d, p, open);
    SubtreeIsInterval(d, p, open);
    SubtreeNested(d, p, open);
    AboutEnd(d, open);
    assert ParsedRow(o, d, open);
  }

  /** Only the parents decide whether a table is well formed, and where its subtrees end. */
  lemma SameParents(d: Table, d': Table, a: nat)
    requires WellFormed(d) && |d'| == |d| && a < |d| && forall i | 0 <= i < |d| :: d'[i].parent == d[i].parent
    ensures WellFormed(d') && End(d', a) == End(d, a)
  {
    AboutEnd(d, a);
    ScanEndUnique(d', a, a + 1, End(d, a));
    forall i, j | 0 < j < i < |d'| ensures Nested(d', i, j) { assert Nested(d, i, j); }
  }

  /** One more attribute of the open node. */
  lemma AttributeGiven(o: Options, d: Table, node: nat, a: Attribute)
    requires State(o, d, node) && node > 0 && IsName(a.name) && '\0' !in a.value
    ensures State(o, AddAttribute(d, node, a), node)
  {
    hide WellFormed, End, IsName, IsXmlTarget;
    var d' := AddAttribute(d, node, a);
    SameParents(d, d', node);
    forall i | 0 <= i < |d'| ensures ParsedRow(o, d', i) { assert ParsedRow(o, d, i); }
  }

  lemma ParentNotText(o: Options, d: Table, i: nat)
    requires ParsedRows(o, d) && 0 < i < |d|
    ensures 0 <= d[i].parent < i && !d[d[i].parent].data.kind.Pcdata?
  {
    var p := d[i].parent;
    assert ParsedRow(o, d, p);
    NestedAt(d, i, p + 1);
  }

  // ------------------------------------------------------------------ character data kept

  lemma {:induction false} DecodeKeeps(rules: Rules, s: string)
    requires !rules.escapes && rules.stop == '<' && !rules.spacing.Blanks? && '\0' !in s
    ensures var t := Decode(rules, s).0;
            && '\0' !in t
            && (s != "" && s[0] != '<' ==> t != "")
            && (AllSpaces(t) ==> var u := SkipSpaces(s); u == "" || u[0] == '<')
    decreases |s|
  {
    if s != "" && s[0] != '<' {
      var u := NextUnit(rules, s);
      DecodeKeeps(rules, s[u.length..]);
      var t := Decode(rules, s[u.length..]).0;
      assert Decode(rules, s).0 == u.text + t;
      assert u.text == (if rules.spacing == Eol && s[0] == '\r' then "\n" else [s[0]]);
      AllSpacesStep(u.text + t);
      assert (u.text + t)[1..] == t;
      SkipUnit(s, u.length);
    }
  }

  lemma SkipUnit(s: string, n: nat)
    requires s != "" && (n == 1 || (n == 2 && |s| > 1 && s[0] == '\r' && s[1] == '\n'))
    ensures IsSpace(s[0]) ==> SkipSpaces(s) == SkipSpaces(s[n..])
    ensures !IsSpace(s[0]) ==> SkipSpaces(s) == s
  {
    if IsSpace(s[0]) {
      assert Spaces(s) == Spaces(s[1..]) + 1;
      if n == 2 { assert s[1..][1..] == s[2..]; assert Spaces(s[1..]) == Spaces(s[2..]) + 1; }
    }
  }

  lemma TextParsed(o: Options, s: string)
    requires s != "" && s[0] != '<' && '\0' !in s
    requires !o.spaceText ==> var t := SkipSpaces(s); t != "" && t[0] != '<'
    ensures ParsedData(o, NodeData(Pcdata, "", CString(Decode(TextRules(o), s).0), []))
  {
    if !o.escapes { DecodeKeeps(TextRules(o), s); }
    hide Decode, SkipSpaces;
  }

  lemma AttributeParsed(o: Options, s: string)
    requires s != "" && IsStartSymbol(s[0]) && ParseAttribute(o, s).OneAttribute?
    ensures var a := ParseAttribute(o, s).a; IsName(a.name) && '\0' !in a.value
  {
    hide Decode, SkipSpaces;
    NameRead(s);
  }

  lemma NameRead(s: string)
    requires s != "" && IsStartSymbol(s[0])
    ensures IsName(s[..Symbols(s)])
  {
    assert Symbols(s) > 0;
  }

  // ------------------------------------------------------------------ the parser keeps its state

  lemma {:induction false} ContentParsed(o: Options, s: string, d: Table, open: nat)
    requires State(o, d, open) && IsTree(d) && '\0' !in s
    ensures var r := ParseContent(o, s, d, open); r.Parsed? ==> ParsedRows(o, r.rows)
    decreases |s|, 1
  {
    hide WellFormed, End, ParsedRow, ParsedData, Decode, SkipSpaces, ParseTag;
    if s == "" {
    } else if s[0] == '<' {
      TagParsed(o, s[1..], d, open);
    } else {
      var t := SkipSpaces(s);
      var skipped := (t == "" || t[0] == '<') && !o.spaceText;
      SkipIsSuffix(s);
      if skipped {
        SkipsSome(s);
        ContentParsed(o, t, d, open);
      } else if open != 0 || o.fragment {
        TextParsed(o, s);
        var (value, rest) := Decode(TextRules(o), s);
        var data := NodeData(Pcdata, "", CString(value), []);
        AppendRow(o, d, open, data);
        AppendedTree(d, open, data);
        DecodeSuffix(TextRules(o), s);
        if |rest| > 1 { TagParsed(o, rest[1..], d + [Row(open, data)], open); }
      } else {
        var rest := AfterText(s, '<');
        AfterTextSuffix(s, '<');
        if rest != "" { TagParsed(o, rest[1..], d, open); }
      }
    }
  }

  lemma SuffixNoNul(s: string, n: nat)
    requires n <= |s| && '\0' !in s
    ensures '\0' !in s[n..]
  {
  }

  lemma SkipsSome(s: string)
    requires s != "" && s[0] != '<' && var t := SkipSpaces(s); t == "" || t[0] == '<'
    ensures |SkipSpaces(s)| < |s|
  {
  }

  lemma AppendedTree(d: Table, open: nat, data: NodeData)
    requires IsTree(d) && open < |d|
    ensures IsTree(d + [Row(open, data)])
  {
  }

  lemma {:induction false} DecodeSuffix(rules: Rules, s: string)
    requires '\0' !in s
    ensures '\0' !in Decode(rules, s).1
    decreases |s|
  {
    if s != "" && s[0] != rules.stop {
      var u := NextUnit(rules, s);
      SuffixNoNul(s, u.length);
      DecodeSuffix(rules, s[u.length..]);
    }
  }

  lemma {:induction false} AfterTextSuffix(s: string, stop: char)
    requires '\0' !in s
    ensures '\0' !in AfterText(s, stop)
  {
    if s != "" && s[0] != stop { AfterTextSuffix(s[1..], stop); }
  }

  lemma {:induction false} TagParsed(o: Options, s: string, d: Table, open: nat)
    requires State(o, d, open) && IsTree(d) && '\0' !in s
    ensures var r := ParseTag(o, s, d, open); r.Parsed? ==> ParsedRows(o, r.rows)
    decreases |s|, 0
  {
    hide WellFormed, End, ParsedRow, Symbols, ParseContent, ParseAttributes, ParseEndTag, ParseQuestion,
         SkipExclamation;
    if s != "" && IsStartSymbol(s[0]) {
      NameRead(s);
      var n := Symbols(s);
      var data := NodeData(Element, s[..n], "", []);
      if n < |s| {
        var rest := s[n + 1..];
        AppendRow(o, d, open, data);
        AppendedTree(d, open, data);
        if s[n] == '>' {
          ContentParsed(o, rest, d + [Row(open, data)], |d|);
        } else if IsSpace(s[n]) {
          AttributesParsed(o, rest, d + [Row(open, data)], |d|);
        } else if s[n] == '/' && rest != "" && rest[0] == '>' {
          ContentParsed(o, rest[1..], d + [Row(open, data)], open);
        }
      }
    } else if s != "" && s[0] == '/' {
      EndTagParsed(o, s[1..], d, open);
    } else if s != "" && s[0] == '?' {
      QuestionParsed(o, s[1..], d, open);
    } else if s != "" && s[0] == '!' {
      var r := SkipExclamation(s[1..], open);
      ExclamationSuffix(s[1..], open);
      if r.Beyond? { ContentParsed(o, r.rest, d, open); }
    }
  }

  lemma {:induction false} QuestionParsed(o: Options, s: string, d: Table, open: nat)
    requires State(o, d, open) && IsTree(d) && '\0' !in s
    ensures var r := ParseQuestion(o, s, d, open); r.Parsed? ==> ParsedRows(o, r.rows)
    decreases |s|, 2
  {
    hide WellFormed, End, ParsedRow, ParseContent, ParseAttributes, ReadQuestion, ParsedData;
    QuestionSuffix(o, s, open);
    match ReadQuestion(o, s, open) {
      case BadQuestion =>
      case Passed(rest) =>
        if d[open].data.kind.Declaration? && open > 0 {
          AttributesParsed(o, rest, d, open);
        } else {
          ContentParsed(o, rest, d, open);
        }
      case BareDeclaration(name, rest) =>
        DeclarationParsed(o, name);
        AppendRow(o, d, open, NodeData(Declaration, name, "", []));
        AppendedTree(d, open, NodeData(Declaration, name, "", []));
        ContentParsed(o, rest, d + [Row(open, NodeData(Declaration, name, "", []))], open);
      case DeclarationTag(name, rest) =>
        DeclarationParsed(o, name);
        AppendRow(o, d, open, NodeData(Declaration, name, "", []));
        AppendedTree(d, open, NodeData(Declaration, name, "", []));
        AttributesParsed(o, rest, d + [Row(open, NodeData(Declaration, name, "", []))], |d|);
    }
  }

  lemma DeclarationParsed(o: Options, name: string)
    requires o.declaration && IsXmlTarget(name)
    ensures ParsedData(o, NodeData(Declaration, name, "", []))
  {
  }

  lemma PastSuffix(s: string, m: string, status: Status)
    requires m != "" && '\0' !in s
    ensures var r := SkipPast(s, m, status); r.Beyond? ==> '\0' !in r.rest
  {
    hide Find;
  }

  lemma {:induction false} IgnoreSuffix(s: string, depth: nat)
    requires '\0' !in s
    ensures var r := SkipIgnore(s, depth); r.Beyond? ==> '\0' !in r.rest
  {
    if s == "" {
    } else if "<![" <= s {
      IgnoreSuffix(s[3..], depth + 1);
    } else if "]]>" <= s {
      if depth > 0 { IgnoreSuffix(s[3..], depth - 1); }
    } else {
      IgnoreSuffix(s[1..], depth);
    }
  }

  lemma PrimitiveSuffix(s: string)
    requires s != "" && '\0' !in s
    ensures var r := SkipPrimitive(s); r.Beyond? ==> '\0' !in r.rest
  {
    hide SkipPast;
    PastSuffix(s[1..], [s[0]], BadDoctype);
    if "<?" <= s { PastSuffix(s[2..], "?>", BadDoctype); }
    if "<!--" <= s { PastSuffix(s[4..], "-->", BadDoctype); }
  }

  lemma {:induction false} DoctypeSuffix(s: string, depth: nat)
    requires '\0' !in s
    ensures var r := SkipDoctype(s, depth); r.Beyond? ==> '\0' !in r.rest
    decreases |s|
  {
    hide SkipIgnore, SkipPrimitive;
    if s == "" {
    } else if "<!" <= s && !("<!-" <= s) {
      if "<![" <= s {
        IgnoreSuffix(s[3..], 0);
        var r := SkipIgnore(s[3..], 0);
        if r.Beyond? { DoctypeSuffix(r.rest, depth); }
      } else {
        DoctypeSuffix(s[2..], depth + 1);
      }
    } else if s[0] == '<' || s[0] == '"' || s[0] == '\'' {
      PrimitiveSuffix(s);
      var r := SkipPrimitive(s);
      if r.Beyond? { DoctypeSuffix(r.rest, depth); }
    } else if s[0] == '>' {
      if depth > 0 { DoctypeSuffix(s[1..], depth - 1); }
    } else {
      DoctypeSuffix(s[1..], depth);
    }
  }

  lemma ExclamationSuffix(s: string, open: nat)
    requires '\0' !in s
    ensures var r := SkipExclamation(s, open); r.Beyond? ==> '\0' !in r.rest
  {
    hide SkipPast, SkipDoctype;
    if "--" <= s { PastSuffix(s[2..], "-->", BadComment); }
    if "[CDATA[" <= s { PastSuffix(s[7..], "]]>", BadCdata); }
    DoctypeSuffix(s, 0);
  }

  lemma QuestionSuffix(o: Options, s: string, open: nat)
    requires '\0' !in s
    ensures match ReadQuestion(o, s, open)
            case BadQuestion => true
            case Passed(rest) => '\0' !in rest
            case BareDeclaration(name, rest) => open == 0 && o.declaration && IsXmlTarget(name) && '\0' !in rest
            case DeclarationTag(name, rest) => open == 0 && o.declaration && IsXmlTarget(name) && '\0' !in rest
  {
    hide Symbols, SkipSpaces, Find, SkipPast, IsXmlTarget;
    var n := Symbols(s);
    PastSuffix(s[n..], "?>", BadPi);
    if n < |s| { SkipIsSuffix(s[n + 1..]); }
  }

  lemma {:induction false} EndTagParsed(o: Options, s: string, d: Table, open: nat)
    requires State(o, d, open) && IsTree(d) && '\0' !in s
    ensures var r := ParseEndTag(o, s, d, open); r.Parsed? ==> ParsedRows(o, r.rows)
    decreases |s|, 2
  {
    hide WellFormed, End, ParsedRow, Symbols, ParseContent, SkipSpaces;
    var n := Symbols(s);
    if open != 0 && s[..n] == d[open].data.name {
      var rest := SkipSpaces(s[n..]);
      if rest != "" && rest[0] == '>' {
        CloseRow(o, d, open);
        SkipIsSuffix(s[n..]);
        ContentParsed(o, rest[1..], d, d[open].parent);
      }
    }
  }

  lemma SkipIsSuffix(s: string)
    requires '\0' !in s
    ensures '\0' !in SkipSpaces(s)
  {
  }

  lemma {:induction false} AttributesParsed(o: Options, s: string, d: Table, node: nat)
    requires State(o, d, node) && node > 0 && IsTree(d) && '\0' !in s
    ensures var r := ParseAttributes(o, s, d, node); r.Parsed? ==> ParsedRows(o, r.rows)
    decreases |s|, 2
  {
    hide WellFormed, End, ParsedRow, ParseContent, SkipSpaces, ParseAttribute, AddAttribute;
    var t := SkipSpaces(s);
    SkipIsSuffix(s);
    if t != "" {
      if IsStartSymbol(t[0]) {
        var r := ParseAttribute(o, t);
        if r.OneAttribute? {
          AttributeParsed(o, t);
          AttributeSuffix(o, t);
          AttributeGiven(o, d, node, r.a);
          AttributesParsed(o, r.rest, AddAttribute(d, node, r.a), node);
        }
      } else if t[0] == '/' {
        if |t| > 1 && t[1] == '>' {
          CloseRow(o, d, node);
          ContentParsed(o, t[2..], d, d[node].parent);
        }
      } else if t[0] == '>' {
        ContentParsed(o, t[1..], d, node);
      }
    }
  }

  lemma AttributeSuffix(o: Options, s: string)
    requires s != "" && IsStartSymbol(s[0]) && '\0' !in s && ParseAttribute(o, s).OneAttribute?
    ensures '\0' !in ParseAttribute(o, s).rest
  {
    hide Decode, SkipSpaces, Symbols;
    var n := Symbols(s);
    SkipIsSuffix(s[n..]);
    var t := SkipSpaces(s[n..]);
    SkipIsSuffix(t[1..]);
    var v := SkipSpaces(t[1..]);
    DecodeSuffix(AttributeRules(o, v[0]), v[1..]);
  }

  /** Whatever the parser accepts becomes a well-formed document of properly named elements, childless
    character data, and declarations at its top. */
  lemma ParseGivesDocument(o: Options, contents: string)
    requires Parse(o, contents).Parsed?
    ensures ParsedRows(o, Parse(o, contents).rows)
    ensures o.fragment || HasElement(Parse(o, contents).rows)
  {
    var s := SkipBom(CString(contents));
    var d := NewDocument();
    assert WellFormed(d) && End(d, 0) == 1 && ParsedRow(o, d, 0);
    hide ParseContent;
    ContentParsed(o, s, d, 0);
  }

  /** A declaration without children; one that is closed by `>` instead of `?>` stays open. */
  predicate Childless(d: Table, i: nat)
    requires i < |d|
  {
    d[i].data.kind.Declaration? && i + 1 < |d| ==> d[i + 1].parent != i
  }

  /** A parsed document can be printed, from any of its nodes but character data, in a form the parser
    accepts. */
  lemma ParsedIsWritable(o: Options, d: Table, r: nat)
    requires ParsedRows(o, d) && r < |d| && !d[r].data.kind.Pcdata?
    ensures WritableTree(o, d, r)
  {
    hide WellFormed, Hidden, TextSurvives, IsXmlTarget;
    forall i | r <= i < End(d, r) ensures WritableRow(o, d, r, i) {
      assert ParsedRow(o, d, i);
      assert ParsedRow(o, d, r);
      if d[i].data.kind.Pcdata? { TextIsAlone(o, d, i); }
      if i > r { InsideAfter(d, r, i); }
    }
  }

  lemma InsideAfter(d: Table, r: nat, i: nat)
    requires WellFormed(d) && r < |d| && r < i < End(d, r)
    ensures d[i].parent >= r
  {
    AboutEnd(d, r);
  }

  lemma NextOutside(d: Table, i: nat)
    requires WellFormed(d) && i < |d| && (i + 1 < |d| ==> d[i + 1].parent != i)
    ensures End(d, i) == i + 1
  {
    if i + 1 < |d| {
      assert d[i + 1].parent < i + 1;
      ScanEndUnique(d, i, i + 1, i + 1);
    }
  }

  lemma TextIsAlone(o: Options, d: Table, i: nat)
    requires ParsedRows(o, d) && i < |d| && d[i].data.kind.Pcdata?
    ensures End(d, i) == i + 1
  {
    assert ParsedRow(o, d, i);
    NextOutside(d, i);
  }

  lemma ParsedIsCanonical(o: Options, d: Table, r: nat)
    requires ParsedRows(o, d) && r < |d|
    ensures CanonicalTree(d, r)
  {
    hide WellFormed;
    forall i | r <= i < End(d, r) ensures CanonicalData(d[i].data) { assert ParsedRow(o, d, i); }
  }

  ghost predicate TextsSurvive(o: Options, d: Table) {
    forall i | 0 <= i < |d| && d[i].data.kind.Pcdata? :: TextSurvives(o, d[i].data.value)
  }

  /** Without resolving references no text of a parsed document is blank or empty by accident. */
  lemma UnresolvedTextsSurvive(o: Options, d: Table)
    requires ParsedRows(o, d) && !o.escapes
    ensures TextsSurvive(o, d)
  {
    hide WellFormed, TextSurvives;
    forall i | 0 <= i < |d| && d[i].data.kind.Pcdata? ensures TextSurvives(o, d[i].data.value) {
      assert ParsedRow(o, d, i);
    }
  }

  /** Row `i` comes back as it is: its text is not dropped as blank, it stands beside no other text, it is
    no declaration with children or with a value that ends it too early, nothing in it has to be written
    as a reference that is not resolved, and it holds no carriage return that is converted. */
  predicate RowKept(o: Options, style: EscapeStyle, d: Table, i: nat)
    requires i < |d|
  {
    && (d[i].data.kind.Pcdata? ==> TextSurvives(o, d[i].data.value))
    && !Joins(d, i)
    && Childless(d, i)
    && ReadsSame(o, style, d[i].data)
  }

  predicate ReadsSame(o: Options, style: EscapeStyle, data: NodeData) {
    && Whole(data)
    && (!o.escapes ==> PlainData(style, data))
    && (o.eol ==> NoReturn(data))
  }

  lemma SolidKept(o: Options, fmt: Format, indent: string, d: Table)
    requires WellFormed(d) && d[0].data.kind.DocumentNode? && WritableTree(o, d, 0) && CanonicalTree(d, 0)
             && ReadableFormat(o, fmt, indent)
    requires !HasPair(d, 0)
    ensures ParseContent(o, Printed(fmt, indent, d, 0), NewDocument(), 0) == Parsed(d)
            <==> forall i | 0 <= i < |d| :: Shown(o, d, 0, i) && ReadsSame(o, fmt.style, d[i].data)
  {
    hide ParseContent, Copied, Printed, NoReturn, PlainData, Whole, Shown, CanonicalTree, PrintableTree, WritableTree,
         HasPair;
    SolidPrintable(o, d, 0);
    CopiedWhole(d, |d|);
    assert End(d, 0) == |d| && d[..|d|] == d;
    if o.escapes { ExactWithReferences(o, fmt, indent, d, 0); } else { ExactWithoutReferences(o, fmt, indent, d, 0); }
  }

  /** A text beside another one is lost as a node. */
  lemma PairLost(o: Options, fmt: Format, indent: string, d: Table)
    requires WellFormed(d) && d[0].data.kind.DocumentNode? && WritableTree(o, d, 0) && ReadableFormat(o, fmt, indent)
    requires HasPair(d, 0)
    ensures ParseContent(o, Printed(fmt, indent, d, 0), NewDocument(), 0) != Parsed(d)
  {
    hide ParseContent, Printed, Whole, Hidden, WritableTree, HasPair, Rebuilt, Copied, Solid, WellFormed, End,
         PrintableTree;
    WholeTree(d);
    var s := Solid(d, 0);
    SolidRoot(d, 0);
    JoinedRead(o, fmt, indent, d, 0);
    SolidSize(d, 0);
    WholeTree(s);
    RebuiltSame(o, fmt, s, 0, |s|);
    CopiedWhole(s, |s|);
  }

  /** Printing an accepted document and parsing the text with the same options gives the document
    again if and only if every row of it comes back as it is. */
  lemma ParsePrintParse(o: Options, fmt: Format, indent: string, contents: string)
    requires Parse(o, contents).Parsed? && ReadableFormat(o, fmt, indent)
    ensures var d := Parse(o, contents).rows;
            && WellFormed(d)
            && (ParseContent(o, Printed(fmt, indent, d, 0), NewDocument(), 0) == Parsed(d)
                <==> forall i | 0 <= i < |d| :: RowKept(o, fmt.style, d, i))
  {
    hide ParseContent, Printed, CanonicalTree, WritableTree, Parse, Shown, RowKept, ReadsSame, HasPair, Joins;
    ParseGivesDocument(o, contents);
    var d := Parse(o, contents).rows;
    assert ParsedRow(o, d, 0);
    assert End(d, 0) <= |d|;
    ParsedIsWritable(o, d, 0);
    ParsedIsCanonical(o, d, 0);
    PairsAreJoins(o, d);
    if HasPair(d, 0) {
      PairLost(o, fmt, indent, d);
      var i :| 0 <= i < |d| && Joins(d, i);
      JoinsNotKept(o, fmt.style, d, i);
    } else {
      SolidKept(o, fmt, indent, d);
      AllKept(o, fmt.style, d);
    }
  }

  lemma JoinsNotKept(o: Options, style: EscapeStyle, d: Table, i: nat)
    requires i < |d| && Joins(d, i)
    ensures !RowKept(o, style, d, i)
  {
  }

  lemma AllKept(o: Options, style: EscapeStyle, d: Table)
    requires WellFormed(d) && forall i | 0 <= i < |d| :: !Joins(d, i)
    ensures (forall i | 0 <= i < |d| :: RowKept(o, style, d, i))
            <==> forall i | 0 <= i < |d| :: Shown(o, d, 0, i) && ReadsSame(o, style, d[i].data)
  {
    hide Joins, ReadsSame, TextSurvives, WellFormed, Childless, Hidden;
    NothingHidden(d);
    if forall i | 0 <= i < |d| :: RowKept(o, style, d, i) {
      forall i | 0 <= i < |d| ensures Shown(o, d, 0, i) && ReadsSame(o, style, d[i].data) {
        assert forall k | 0 <= k < |d| :: RowKept(o, style, d, k) ==> Childless(d, k);
        assert RowKept(o, style, d, i);
      }
    }
    if forall i | 0 <= i < |d| :: Shown(o, d, 0, i) && ReadsSame(o, style, d[i].data) {
      forall i | 0 <= i < |d| ensures RowKept(o, style, d, i) {
        assert forall k | 0 <= k < |d| :: Shown(o, d, 0, k) ==> !Hidden(d, 0, k);
        assert Shown(o, d, 0, i);
      }
    }
  }

  /** Nothing is inside a declaration exactly if no declaration has children. */
  lemma NothingHidden(d: Table)
    requires WellFormed(d)
    ensures (forall i | 0 <= i < |d| :: !Hidden(d, 0, i)) <==> forall i | 0 <= i < |d| :: Childless(d, i)
  {
    hide WellFormed, End;
    if i :| 0 <= i < |d| && Hidden(d, 0, i) {
      var j: nat :| j < i && d[j].data.kind.Declaration? && i < End(d, j);
      ChildFollows(d, j);
      assert !Childless(d, j);
    }
    if i :| 0 <= i < |d| && !Childless(d, i) {
      ChildFollows(d, i);
      assert Hidden(d, 0, i + 1);
    }
  }

  lemma ChildFollows(d: Table, i: nat)
    requires WellFormed(d) && i + 1 < |d|
    ensures i + 1 < End(d, i) <==> d[i + 1].parent == i
    ensures i < End(d, i)
  {
    AboutEnd(d, i);
  }

  lemma PairsAreJoins(o: Options, d: Table)
    requires ParsedRows(o, d)
    ensures HasPair(d, 0) <==> exists i | 0 <= i < |d| :: Joins(d, i)
  {
    hide ParsedRow, WellFormed, End;
    WholeTree(d);
    if HasPair(d, 0) {
      var i := SomePair(d, 0);
      assert Joins(d, i);
    }
    if i :| 0 <= i < |d| && Joins(d, i) {
      assert i > 0 by { assert ParsedRow(o, d, 0); RootIsDocument(o, d); }
      TextIsAlone(o, d, i + 1);
      assert PairIn(d, 0, i);
    }
  }

  lemma RootIsDocument(o: Options, d: Table)
    requires d != [] && ParsedRow(o, d, 0)
    ensures d[0].data.kind.DocumentNode?
  {
  }

  lemma WholeTree(d: Table)
    requires WellFormed(d)
    ensures |d| > 0 && End(d, 0) == |d|
  {
    NextSiblingIsEnd(d, 0);
  }
}
