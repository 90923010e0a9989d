/** Printing a subtree as text: `node_output` and the functions it calls.

  The text is specified row by row over the preorder table; the method that prints it walks the
  links of the tree in a loop, as the source does. A missing string and an empty one are the same
  here. */
module Printer {
  import opened Document
  import opened Characters
  import opened Escapes

  datatype Format = Format(raw: bool, indents: bool, indentsAttributes: bool, noEmptyTags: bool, style: EscapeStyle)

  /** What may stand before the next row: nothing, an indent, or a new line and an indent. */
  datatype Layout = Flat | IndentOnly | Line

  // ------------------------------------------------------------------ pieces of text

  function PrintedName(name: string): string {
    if name == "" then ":anonymous" else name
  }

  function Repeat(s: string, n: nat): string {
    if n == 0 then "" else Repeat(s, n - 1) + s
  }

  /** The indent of one level, as long as the format uses it. */
  function IndentUnit(fmt: Format, indent: string): string {
    if (fmt.indents || fmt.indentsAttributes) && !fmt.raw then indent else ""
  }

  /** White space before a tag at the given depth. */
  function Lead(fmt: Format, indent: string, layout: Layout, depth: nat): string {
    (if layout == Line && !fmt.raw then "\n" else "")
    + (if layout == Flat then "" else Repeat(IndentUnit(fmt, indent), depth))
  }

  function Trail(fmt: Format, layout: Layout): string {
    if layout == Line && !fmt.raw then "\n" else ""
  }

  function QuoteOf(fmt: Format): char {
    if fmt.style.singleQuote then '\'' else '"'
  }

  function AttributeLead(fmt: Format, indent: string, depth: nat): string {
    if fmt.indentsAttributes && !fmt.raw then "\n" + Repeat(IndentUnit(fmt, indent), depth + 1) else " "
  }

  function AttributeText(fmt: Format, indent: string, depth: nat, a: Attribute): string {
    AttributeLead(fmt, indent, depth) + PrintedName(a.name) + ['=', QuoteOf(fmt)]
    + EscapedText(fmt.style, true, a.value) + [QuoteOf(fmt)]
  }

  function AttributesText(fmt: Format, indent: string, depth: nat, attributes: seq<Attribute>): string {
    if attributes == [] then ""
    else
      AttributesText(fmt, indent, depth, attributes[..|attributes| - 1])
      + AttributeText(fmt, indent, depth, attributes[|attributes| - 1])
  }

  function EndTag(name: string): string {
    "</" + PrintedName(name) + ">"
  }

  /** What closes a start tag; an element without children ends here. */
  function TagClose(fmt: Format, name: string, leaf: bool): string {
    if !leaf then ">"
    else if fmt.noEmptyTags then ">" + EndTag(name)
    else if fmt.raw then "/>"
    else " />"
  }

  function StartTag(fmt: Format, indent: string, depth: nat, data: NodeData, leaf: bool): string {
    "<" + PrintedName(data.name) + AttributesText(fmt, indent, depth, data.attributes) + TagClose(fmt, data.name, leaf)
  }

  // ------------------------------------------------------------------ other markup

  /** CDATA ends at `]]>`, so a value that holds this is divided between several sections. */
  function CdataText(s: string): string {
    var n := Find(s, "]]>");
    if n == |s| then "<![CDATA[" + s + "]]>"
    else ("<![CDATA[" + s[..n + 2] + "]]>") + CdataText(s[n + 2..])
  }

  /** A space after every hyphen that would make two in a row or stand at the end. */
  function CommentBody(s: string): string {
    if s == "" then ""
    else if s[0] == '-' && (|s| == 1 || s[1] == '-') then "- " + CommentBody(s[1..])
    else [s[0]] + CommentBody(s[1..])
  }

  /** A space inside every `?>`. */
  function PiBody(s: string): string {
    var n := Find(s, "?>");
    if n == |s| then s else (s[..n] + "? >") + PiBody(s[n + 2..])
  }

  function PiValue(s: string): string {
    if s == "" then "" else " " + PiBody(s)
  }

  /** Comments, processing instructions, declarations and document types. */
  function MarkupText(fmt: Format, data: NodeData): string {
    match data.kind
    case Comment => "<!--" + CommentBody(data.value) + "-->"
    case Pi => "<?" + PrintedName(data.name) + PiValue(data.value) + "?>"
    case Declaration => "<?" + PrintedName(data.name) + AttributesText(fmt.(raw := true), "", 0, data.attributes) + "?>"
    case _ => "<!DOCTYPE" + (if data.value == "" then "" else " " + data.value) + ">"
  }

  // ------------------------------------------------------------------ the whole text

  /** The children of elements and of the document are printed, and of no other node. */
  predicate IsLeaf(d: Table, i: nat)
    requires i < |d|
  {
    FirstChild(d, i) == -1 || !(d[i].data.kind.Element? || d[i].data.kind.DocumentNode?)
  }

  /** How deep row `i` is printed below `r`. */
  function Level(d: Table, r: nat, i: nat): nat
    requires WellFormed(d) && r < |d| && r <= i < End(d, r)
    decreases i
  {
    if i == r then 0
    else
      SubtreeNested(d, r, i);
      Level(d, r, Parent(d, i)) + (if d[Parent(d, i)].data.kind.Element? then 1 else 0)
  }

  /** The text of row `i` itself, printed at `depth`, up to where its children start. */
  function RowText(fmt: Format, indent: string, depth: nat, layout: Layout, data: NodeData, leaf: bool): string {
    match data.kind
    case Element => Lead(fmt, indent, layout, depth) + StartTag(fmt, indent, depth, data, leaf)
    case DocumentNode => Lead(fmt, indent, layout, depth)
    case Pcdata => EscapedText(fmt.style, false, data.value)
    case Cdata => CdataText(data.value)
    case _ => Lead(fmt, indent, layout, depth) + MarkupText(fmt, data)
  }

  function LayoutAfter(k: NodeType): Layout {
    match k
    case DocumentNode => IndentOnly
    case Pcdata => Flat
    case Cdata => Flat
    case _ => Line
  }

  /** The end tags written after row `i` and its subtree, up to the next sibling of an ancestor or to
    the root of the printed subtree. */
  function Closings(fmt: Format, indent: string, d: Table, r: nat, i: nat, layout: Layout): string
    requires WellFormed(d) && r < |d| && r <= i < End(d, r)
    decreases i
  {
    if i == r || NextSibling(d, i) != -1 then ""
    else
      SubtreeNested(d, r, i);
      var p := Parent(d, i);
      if d[p].data.kind.Element? then
        Lead(fmt, indent, layout, Level(d, r, p)) + EndTag(d[p].data.name) + Closings(fmt, indent, d, r, p, Line)
      else Closings(fmt, indent, d, r, p, layout)
  }

  function LayoutClosed(d: Table, r: nat, i: nat, layout: Layout): Layout
    requires WellFormed(d) && r < |d| && r <= i < End(d, r)
    decreases i
  {
    if i == r || NextSibling(d, i) != -1 then layout
    else
      SubtreeNested(d, r, i);
      LayoutClosed(d, r, Parent(d, i), if d[Parent(d, i)].data.kind.Element? then Line else layout)
  }

  /** The text from row `i` to the end of the subtree of `r`. */
  function RowsText(fmt: Format, indent: string, d: Table, r: nat, i: nat, layout: Layout): string
    requires WellFormed(d) && r < |d| && r <= i < End(d, r)
    decreases |d| - i
  {
    var leaf := IsLeaf(d, i);
    var here := RowText(fmt, indent, Level(d, r, i), layout, d[i].data, leaf);
    var after := LayoutAfter(d[i].data.kind);
    if !leaf then
      FirstChildIsNextRow(d, i);
      SubtreeNested(d, r, i);
      here + RowsText(fmt, indent, d, r, i + 1, after)
    else here + AfterRow(fmt, indent, d, r, i, after)
  }

  /** The text after a row whose children, if any, are printed or passed over. */
  function AfterRow(fmt: Format, indent: string, d: Table, r: nat, i: nat, layout: Layout): string
    requires WellFormed(d) && r < |d| && r <= i < End(d, r)
    decreases |d| - i, 0
  {
    var closed := LayoutClosed(d, r, i, layout);
    Closings(fmt, indent, d, r, i, layout)
    + if End(d, i) < End(d, r) then RowsText(fmt, indent, d, r, End(d, i), closed) else Trail(fmt, closed)
  }

  /** The text of the subtree of `r`, which may be the document node. */
  function Printed(fmt: Format, indent: string, d: Table, r: nat): string
    requires WellFormed(d) && r < |d|
  {
    RowsText(fmt, indent, d, r, r, IndentOnly)
  }

  // ------------------------------------------------------------------ the printing loop

  method Spread(s: string, n: nat) returns (r: string)
    ensures r == Repeat(s, n)
  {
    r := "";
    for i := 0 to n
      invariant r == Repeat(s, i)
    {
      r := r + s;
    }
  }

  lemma {:induction false} RunWritten(style: EscapeStyle, inAttribute: bool, s: string, n: nat)
    requires !style.noEscapes && n <= |s| && forall k | 0 <= k < n :: !IsSpecial(inAttribute, s[k])
    ensures EscapedText(style, inAttribute, s) == s[..n] + EscapedText(style, inAttribute, s[n..])
  {
    hide EscapedText, Escaped, IsSpecial;
    if n == 0 {
      assert s[0..] == s;
    } else {
      EscapedTextStep(style, inAttribute, s);
      RunWritten(style, inAttribute, s[1..], n - 1);
      assert s[1..][n - 1..] == s[n..];
      assert s[..n] == [s[0]] + s[1..][..n - 1];
    }
  }

  /** `text_output`: the run of usual characters up to the next special one is copied whole. */
  method WriteText(style: EscapeStyle, inAttribute: bool, s: string) returns (out: string)
    ensures out == EscapedText(style, inAttribute, s)
  {
    if style.noEscapes { return s; }
    hide EscapedText, Escaped, IsSpecial;
    out := "";
    var rest := s;
    assert "" + EscapedText(style, inAttribute, s) == EscapedText(style, inAttribute, s);
    while rest != ""
      invariant out + EscapedText(style, inAttribute, rest) == EscapedText(style, inAttribute, s)
      decreases |rest|
    {
      var n := 0;
      while n < |rest| && !IsSpecial(inAttribute, rest[n])
        invariant n <= |rest| && forall k | 0 <= k < n :: !IsSpecial(inAttribute, rest[k])
      {
        n := n + 1;
      }
      RunWritten(style, inAttribute, rest, n);
      ghost var left := EscapedText(style, inAttribute, rest[n..]);
      Regroup(out, rest[..n], left);
      out := out + rest[..n];
      rest := rest[n..];
      if rest != "" {
        EscapedTextStep(style, inAttribute, rest);
        ghost var tail := EscapedText(style, inAttribute, rest[1..]);
        var e := Escaped(style, inAttribute, rest[0]);
        Regroup(out, e, tail);
        out := out + e;
        rest := rest[1..];
      }
    }
    EscapedEmpty(style, inAttribute);
    assert out + "" == out;
  }

  method WriteAttributes(fmt: Format, indent: string, depth: nat, attributes: seq<Attribute>) returns (out: string)
    ensures out == AttributesText(fmt, indent, depth, attributes)
  {
    out := "";
    for k := 0 to |attributes|
      invariant out == AttributesText(fmt, indent, depth, attributes[..k])
    {
      var a := attributes[k];
      assert attributes[..k + 1][..k] == attributes[..k];
      var lead := " ";
      if fmt.indentsAttributes && !fmt.raw {
        lead := Spread(IndentUnit(fmt, indent), depth + 1);
        lead := "\n" + lead;
      }
      var value := WriteText(fmt.style, true, a.value);
      out := out + (lead + PrintedName(a.name) + ['=', QuoteOf(fmt)] + value + [QuoteOf(fmt)]);
    }
    assert attributes[..|attributes|] == attributes;
  }

  /** `node_output_start`, which also tells whether the children are to be printed. */
  method WriteStart(fmt: Format, indent: string, depth: nat, data: NodeData, leaf: bool)
    returns (out: string, open: bool)
    ensures out == StartTag(fmt, indent, depth, data, leaf) && open == !leaf
  {
    out := "<" + PrintedName(data.name);
    if data.attributes != [] {
      var t := WriteAttributes(fmt, indent, depth, data.attributes);
      out := out + t;
    }
    if leaf {
      if fmt.noEmptyTags {
        out := out + (">" + EndTag(data.name));
      } else {
        out := out + if fmt.raw then "/>" else " />";
      }
      return out, false;
    }
    return out + ">", true;
  }

  method WriteLead(fmt: Format, indent: string, layout: Layout, depth: nat) returns (out: string)
    ensures out == Lead(fmt, indent, layout, depth)
  {
    out := "";
    if layout == Line && !fmt.raw { out := "\n"; }
    if layout != Flat {
      var t := Spread(IndentUnit(fmt, indent), depth);
      out := out + t;
    }
  }

  method ScanTo(s: string, mark: string) returns (n: nat)
    requires mark != ""
    ensures n == Find(s, mark)
  {
    n := 0;
    while n < |s| && !(mark <= s[n..])
      invariant n <= |s| && forall i | 0 <= i < n :: !(mark <= s[i..])
    {
      n := n + 1;
    }
  }

  /** `text_output_cdata`. */
  method WriteCdata(s: string) returns (out: string)
    ensures out == CdataText(s)
  {
    hide CdataText;
    out := "";
    var rest, done := s, false;
    assert "" + CdataText(s) == CdataText(s);
    while !done
      invariant if done then out == CdataText(s) else out + CdataText(rest) == CdataText(s)
      decreases !done, |rest|
    {
      var n := ScanTo(rest, "]]>");
      CdataTextStep(rest);
      if n < |rest| {
        Regroup(out, "<![CDATA[" + rest[..n + 2] + "]]>", CdataText(rest[n + 2..]));
        out := out + ("<![CDATA[" + rest[..n + 2] + "]]>");
        rest := rest[n + 2..];
      } else {
        out := out + ("<![CDATA[" + rest + "]]>");
        done := true;
      }
    }
  }

  lemma {:induction false} CdataTextStep(s: string)
    ensures var n := Find(s, "]]>");
            if n == |s| then CdataText(s) == "<![CDATA[" + s + "]]>"
            else n + 2 < |s| && CdataText(s) == ("<![CDATA[" + s[..n + 2] + "]]>") + CdataText(s[n + 2..])
  {
    hide Find;
  }

  predicate StopsComment(s: string, k: nat)
    requires k < |s|
  {
    s[k] == '-' && (k + 1 == |s| || s[k + 1] == '-')
  }

  lemma {:induction false} CommentRun(s: string, n: nat)
    requires n <= |s| && forall k | 0 <= k < n :: !StopsComment(s, k)
    ensures CommentBody(s) == s[..n] + CommentBody(s[n..])
  {
    if n == 0 {
      assert s[0..] == s;
    } else {
      assert !StopsComment(s, 0);
      forall k | 0 <= k < n - 1 ensures !StopsComment(s[1..], k) { assert !StopsComment(s, k + 1); }
      CommentRun(s[1..], n - 1);
      assert s[1..][n - 1..] == s[n..];
      assert s[..n] == [s[0]] + s[1..][..n - 1];
    }
  }

  lemma CommentStop(s: string)
    requires s != "" && StopsComment(s, 0)
    ensures CommentBody(s) == "- " + CommentBody(s[1..])
  {
  }

  /** The body of `node_output_comment`. */
  method WriteComment(s: string) returns (out: string)
    ensures out == CommentBody(s)
  {
    hide CommentBody;
    out := "";
    var rest := s;
    assert "" + CommentBody(s) == CommentBody(s);
    while rest != ""
      invariant out + CommentBody(rest) == CommentBody(s)
      decreases |rest|
    {
      var n := 0;
      while n < |rest| && !StopsComment(rest, n)
        invariant n <= |rest| && forall k | 0 <= k < n :: !StopsComment(rest, k)
      {
        n := n + 1;
      }
      CommentRun(rest, n);
      Regroup(out, rest[..n], CommentBody(rest[n..]));
      out := out + rest[..n];
      rest := rest[n..];
      if rest != "" {
        assert StopsComment(rest, 0);
        CommentStop(rest);
        Regroup(out, "- ", CommentBody(rest[1..]));
        out := out + "- ";
        rest := rest[1..];
      }
    }
    assert CommentBody("") == "" by { NoComment(); }
    assert out + "" == out;
  }

  lemma NoComment()
    ensures CommentBody("") == ""
  {
  }

  lemma {:induction false} PiBodyStep(s: string)
    ensures var n := Find(s, "?>");
            && (n < |s| ==> n + 2 <= |s|)
            && PiBody(s) == if n == |s| then s else (s[..n] + "? >") + PiBody(s[n + 2..])
  {
    hide Find;
  }

  /** `node_output_pi_value`. */
  method WritePi(s: string) returns (out: string)
    ensures out == PiBody(s)
  {
    hide PiBody;
    out := "";
    var rest := s;
    assert "" + PiBody(s) == PiBody(s);
    while rest != ""
      invariant out + PiBody(rest) == PiBody(s)
      decreases |rest|
    {
      var n := ScanTo(rest, "?>");
      PiBodyStep(rest);
      if n < |rest| {
        Regroup(out, rest[..n] + "? >", PiBody(rest[n + 2..]));
        out := out + (rest[..n] + "? >");
        rest := rest[n + 2..];
      } else {
        PiBodyStep("");
        assert out + rest == out + rest + "";
        out := out + rest;
        rest := "";
      }
    }
    PiBodyStep("");
    assert out + "" == out;
  }

  /** `node_output_simple` for what stands on a line of its own. */
  method WriteMarkup(fmt: Format, data: NodeData) returns (out: string)
    ensures out == MarkupText(fmt, data)
  {
    match data.kind {
      case Comment =>
        var body := WriteComment(data.value);
        out := "<!--" + body + "-->";
      case Pi =>
        out := "<?" + PrintedName(data.name);
        if data.value != "" {
          var body := WritePi(data.value);
          out := out + (" " + body);
        }
        out := out + "?>";
      case Declaration =>
        var attributes := WriteAttributes(fmt.(raw := true), "", 0, data.attributes);
        out := "<?" + PrintedName(data.name) + attributes + "?>";
      case _ =>
        out := "<!DOCTYPE";
        if data.value != "" { out := out + (" " + data.value); }
        out := out + ">";
    }
  }

  /** What `node_output` writes for one node before its children or its closing. */
  method WriteRow(fmt: Format, indent: string, depth: nat, layout0: Layout, data: NodeData, leaf: bool)
    returns (out: string, layout: Layout)
    ensures out == RowText(fmt, indent, depth, layout0, data, leaf) && layout == LayoutAfter(data.kind)
  {
    hide MarkupText, CdataText, EscapedText, StartTag, Lead;
    if data.kind.Pcdata? {
      out := WriteText(fmt.style, false, data.value);
      layout := Flat;
    } else if data.kind.Cdata? {
      out := WriteCdata(data.value);
      layout := Flat;
    } else {
      out := WriteLead(fmt, indent, layout0, depth);
      layout := Line;
      if data.kind.Element? {
        var t, _ := WriteStart(fmt, indent, depth, data, leaf);
        out := out + t;
      } else if data.kind.DocumentNode? {
        layout := IndentOnly;
      } else {
        var t := WriteMarkup(fmt, data);
        out := out + t;
      }
    }
  }

  /** `node_output`: down to the first child of an element or of the document, else on to the next sibling
    of the node or of the nearest ancestor that has one, writing the end tags of the elements left behind. */
  method NodeOutput(fmt: Format, indent: string, d: Table, root: nat) returns (out: string)
    requires WellFormed(d) && root < |d|
    ensures out == Printed(fmt, indent, d, root)
  {
    hide IsAncestorOrSelf, ScanEnd, End, FirstWithParent, LastWithParent, WellFormed, Closings, LayoutClosed,
         FirstChild, NextSibling, Parent, RowText, RowsText, AfterRow, LayoutAfter, Level, IsLeaf;
    out := "";
    var depth, layout, node, done := 0, IndentOnly, root, false;
    assert out + Printed(fmt, indent, d, root) == Printed(fmt, indent, d, root);
    RootLevel(d, root);
    while !done
      invariant root <= node < End(d, root) <= |d|
      invariant !done ==> depth == Level(d, root, node)
      invariant out + (if done then Trail(fmt, layout) else RowsText(fmt, indent, d, root, node, layout))
                == Printed(fmt, indent, d, root)
      decreases !done, |d| - node
    {
      RowsTextStep(fmt, indent, d, root, node, layout);
      var piece;
      var leaf := IsLeaf(d, node);
      piece, layout := WriteRow(fmt, indent, depth, layout, d[node].data, leaf);
      if !leaf {
        LeafHasNone(d, node);
        FirstChildLevel(d, root, node);
        ghost var next := RowsText(fmt, indent, d, root, node + 1, layout);
        Regroup(out, piece, next);
        out := out + piece;
        depth := depth + if d[node].data.kind.Element? then 1 else 0;
        node := FirstChild(d, node);
      } else {
        FirstChildIsNextRow(d, node);
        AfterRowStep(fmt, indent, d, root, node, layout);
        var tail;
        ghost var before := out;
        tail, node, depth, layout, done := WriteClosings(fmt, indent, d, root, node, depth, layout);
        ghost var next := if done then Trail(fmt, layout) else RowsText(fmt, indent, d, root, node, layout);
        Regroup(before, piece, tail + next);
        Regroup(before + piece, tail, next);
        out := out + piece + tail;
      }
    }
    out := out + if layout == Line && !fmt.raw then "\n" else "";
  }

  lemma RowsTextStep(fmt: Format, indent: string, d: Table, r: nat, i: nat, layout: Layout)
    requires WellFormed(d) && r < |d| && r <= i < End(d, r)
    ensures var leaf, after := IsLeaf(d, i), LayoutAfter(d[i].data.kind);
            && (!leaf ==> i + 1 < End(d, r))
            && RowsText(fmt, indent, d, r, i, layout)
            == RowText(fmt, indent, Level(d, r, i), layout, d[i].data, leaf)
               + if leaf then AfterRow(fmt, indent, d, r, i, after) else RowsText(fmt, indent, d, r, i + 1, after)
  {
    hide IsAncestorOrSelf, ScanEnd, End, FirstWithParent, LastWithParent, WellFormed, RowText, Level, Closings,
         LayoutClosed;
    FirstChildIsNextRow(d, i);
    SubtreeNested(d, r, i);
  }

  lemma LeafHasNone(d: Table, i: nat)
    requires i < |d|
    ensures !IsLeaf(d, i) ==> FirstChild(d, i) != -1
    ensures d[i].data.kind.Element? || d[i].data.kind.DocumentNode? ==> IsLeaf(d, i) == (FirstChild(d, i) == -1)
  {
  }

  lemma AfterRowStep(fmt: Format, indent: string, d: Table, r: nat, i: nat, layout: Layout)
    requires WellFormed(d) && r < |d| && r <= i < End(d, r)
    ensures var closed := LayoutClosed(d, r, i, layout);
            AfterRow(fmt, indent, d, r, i, layout)
            == Closings(fmt, indent, d, r, i, layout)
               + if End(d, i) < End(d, r) then RowsText(fmt, indent, d, r, End(d, i), closed) else Trail(fmt, closed)
  {
    hide IsAncestorOrSelf, ScanEnd, End, FirstWithParent, LastWithParent, WellFormed, RowText, Level, Closings,
         LayoutClosed;
  }

  lemma RootLevel(d: Table, r: nat)
    requires WellFormed(d) && r < |d|
    ensures Level(d, r, r) == 0
  {
  }

  lemma FirstChildLevel(d: Table, r: nat, i: nat)
    requires WellFormed(d) && r < |d| && r <= i < End(d, r) && FirstChild(d, i) != -1
    ensures FirstChild(d, i) == i + 1 < End(d, r)
    ensures Level(d, r, i + 1) == Level(d, r, i) + (if d[i].data.kind.Element? then 1 else 0)
  {
    FirstChildIsNextRow(d, i);
    SubtreeNested(d, r, i);
  }

  /** The inner loop of `node_output`. */
  method WriteClosings(fmt: Format, indent: string, d: Table, root: nat, i: nat, depth0: nat, layout0: Layout)
    returns (out: string, node: nat, depth: nat, layout: Layout, done: bool)
    requires WellFormed(d) && root < |d| && root <= i < End(d, root) && depth0 == Level(d, root, i)
    ensures layout == LayoutClosed(d, root, i, layout0)
    ensures out == Closings(fmt, indent, d, root, i, layout0)
    ensures End(d, i) <= End(d, root) && (done <==> End(d, i) == End(d, root))
    ensures if done then node == root else node == End(d, i) < End(d, root) && depth == Level(d, root, node)
  {
    hide IsAncestorOrSelf, ScanEnd, End, FirstWithParent, LastWithParent, WellFormed, Lead;
    out, node, depth, layout, done := "", i, depth0, layout0, false;
    while node != root
      invariant root <= node <= i && node < End(d, root) && End(d, node) == End(d, i)
      invariant depth == Level(d, root, node)
      invariant LayoutClosed(d, root, node, layout) == LayoutClosed(d, root, i, layout0)
      invariant out + Closings(fmt, indent, d, root, node, layout) == Closings(fmt, indent, d, root, i, layout0)
      decreases node
    {
      NextSiblingIsEnd(d, node);
      SubtreeNested(d, root, node);
      if NextSibling(d, node) != -1 {
        NextSiblingLevel(d, root, node);
        node := NextSibling(d, node);
        return;
      }
      node := Parent(d, node);
      if d[node].data.kind.Element? {
        depth := depth - 1;
        var lead := WriteLead(fmt, indent, layout, depth);
        out := out + (lead + EndTag(d[node].data.name));
        layout := Line;
      }
    }
    done := true;
  }

  lemma NextSiblingLevel(d: Table, r: nat, i: nat)
    requires WellFormed(d) && r < |d| && r < i < End(d, r) && NextSibling(d, i) != -1
    ensures NextSibling(d, i) == End(d, i) < End(d, r) && Level(d, r, End(d, i)) == Level(d, r, i)
  {
    NextSiblingIsEnd(d, i);
    NextWithinParent(d, i);
    SubtreeNested(d, r, i);
    SubtreeNested(d, r, Parent(d, i));
  }
}
