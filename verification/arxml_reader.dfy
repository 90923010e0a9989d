/** The reader of ARXML files, and the detour `TryExtractDeepValue` takes: print the node that was
  found, parse the text again and navigate the result. */
module ArxmlReader {
  import opened Document
  import opened Characters
  import opened Escapes
  import opened Printer
  import opened Parser
  import opened RoundTrip
  import opened AdjacentText
  import opened ParsedDocument

  /** The reader asks for declarations only: no references, no line ends, no blank text. */
  const MINIMAL := Options(false, false, false, false, false, true)

  /** `GetContent` prints with the library's defaults. */
  const DEFAULT := Format(false, true, false, false, EscapeStyle(false, false, false))

  const TAB := "\t"

  // ------------------------------------------------------------------ navigation

  /** A child looked for by its name, or any character data. */
  datatype Wanted = Named(name: string) | AnyText

  predicate Is(w: Wanted, data: NodeData) {
    match w
    case Named(name) => data.name != "" && data.name == name
    case AnyText => data.kind.Pcdata? || data.kind.Cdata?
  }

  /** The first child of `p` at or after row `from` that is wanted, or -1. */
  function FirstWanted(d: Table, p: nat, w: Wanted, from: nat): (r: int)
    requires from <= |d|
    ensures r == -1 || (from <= r < |d| && d[r].parent == p && Is(w, d[r].data))
    decreases |d| - from
  {
    if from == |d| then -1
    else if d[from].parent == p && Is(w, d[from].data) then from
    else FirstWanted(d, p, w, from + 1)
  }

  /** `xml_node::child`; -1 is the null node, whose children are null. */
  function Child(d: Table, i: int, name: string): (r: int)
    requires -1 <= i < |d|
    ensures -1 <= r < |d|
  {
    if i == -1 then -1 else FirstWanted(d, i, Named(name), 0)
  }

  function Navigate(d: Table, i: int, path: seq<string>): (r: int)
    requires -1 <= i < |d|
    ensures -1 <= r < |d|
    decreases |path|
  {
    if path == [] then i else Navigate(d, Child(d, i, path[0]), path[1..])
  }

  /** `xml_text::as_string`: the node's own text or that of its first character data. */
  function TextOf(d: Table, i: int): string
    requires -1 <= i < |d|
  {
    if i == -1 then ""
    else if Is(AnyText, d[i].data) then d[i].data.value
    else
      var t := FirstWanted(d, i, AnyText, 0);
      if t == -1 then "" else d[t].data.value
  }

  function ShortName(d: Table, i: int): string
    requires -1 <= i < |d|
  {
    TextOf(d, Child(d, i, "SHORT-NAME"))
  }

  lemma {:induction false} FirstWantedSkips(d: Table, p: nat, w: Wanted, from: nat)
    requires from <= |d|
    ensures var c := FirstWithParent(d, p, from);
            FirstWanted(d, p, w, from) == if c == -1 then -1 else FirstWanted(d, p, w, c)
    decreases |d| - from
  {
    if from < |d| && d[from].parent != p { FirstWantedSkips(d, p, w, from + 1); }
  }

  /** No row up to `p` is a child of `p`. */
  lemma {:induction false} ChildrenComeAfter(d: Table, p: nat, w: Wanted, from: nat)
    requires WellFormed(d) && p < |d| && from <= p + 1
    ensures FirstWanted(d, p, w, from) == FirstWanted(d, p, w, p + 1)
    decreases p + 1 - from
  {
    if from <= p { ChildrenComeAfter(d, p, w, from + 1); }
  }

  /** The loop over the children of a node that finds the first wanted one. */
  method FindChild(d: Table, i: nat, w: Wanted) returns (r: int)
    requires WellFormed(d) && i < |d|
    ensures r == FirstWanted(d, i, w, 0)
  {
    hide WellFormed, FirstWithParent, FirstWanted, Is;
    ChildrenComeAfter(d, i, w, 0);
    FirstWantedSkips(d, i, w, i + 1);
    r := FirstChild(d, i);
    while r != -1
      invariant r == -1 || (i < r < |d| && d[r].parent == i)
      invariant FirstWanted(d, i, w, 0) == if r == -1 then -1 else FirstWanted(d, i, w, r)
      decreases if r == -1 then 0 else |d| - r
    {
      FirstWantedHere(d, i, w, r);
      if Is(w, d[r].data) { return; }
      FirstWantedSkips(d, i, w, r + 1);
      r := NextSibling(d, r);
    }
  }

  lemma FirstWantedHere(d: Table, p: nat, w: Wanted, from: nat)
    requires from < |d| && d[from].parent == p
    ensures FirstWanted(d, p, w, from) == if Is(w, d[from].data) then from else FirstWanted(d, p, w, from + 1)
  {
  }

  method GetText(d: Table, i: int) returns (t: string)
    requires WellFormed(d) && -1 <= i < |d|
    ensures t == TextOf(d, i)
  {
    if i == -1 { return ""; }
    if Is(AnyText, d[i].data) { return d[i].data.value; }
    var c := FindChild(d, i, AnyText);
    t := if c == -1 then "" else d[c].data.value;
  }

  method GetShortName(d: Table, i: int) returns (t: string)
    requires WellFormed(d) && -1 <= i < |d|
    ensures t == ShortName(d, i)
  {
    var c := -1;
    if i != -1 { c := FindChild(d, i, Named("SHORT-NAME")); }
    t := GetText(d, c);
  }

  /** `GetRootNode` and the first half of `GetNodes`: one child step per name. */
  method GetRootNode(d: Table, children: seq<string>) returns (root: int)
    requires WellFormed(d)
    ensures -1 <= root < |d| && root == Navigate(d, 0, children)
  {
    assert |d| > 0;
    hide WellFormed, FirstWanted;
    root := 0;
    assert children[0..] == children;
    for k := 0 to |children|
      invariant -1 <= root < |d|
      invariant Navigate(d, root, children[k..]) == Navigate(d, 0, children)
    {
      assert children[k..][0] == children[k] && children[k..][1..] == children[k + 1..];
      if root != -1 { root := FindChild(d, root, Named(children[k])); }
    }
  }

  // ------------------------------------------------------------------ the detour

  /** What navigating on from the found node itself would give. */
  function DirectValue(d: Table, c: nat, path: seq<string>): string
    requires c < |d|
  {
    if path == [] || d[c].data.name != path[0] then "" else TextOf(d, Navigate(d, c, path[1..]))
  }

  predicate NoNul(s: string) {
    '\0' !in s
  }

  lemma {:induction false} NoNulText(style: EscapeStyle, inAttribute: bool, v: string)
    requires NoNul(v)
    ensures NoNul(EscapedText(style, inAttribute, v))
  {
    if v != "" && !style.noEscapes {
      hide Escaped;
      NoNulEscaped(style, inAttribute, v[0]);
      NoNulText(style, inAttribute, v[1..]);
    }
  }

  lemma {:induction false} NoNulRepeat(s: string, n: nat)
    requires NoNul(s)
    ensures NoNul(Repeat(s, n))
  {
    if n > 0 { NoNulRepeat(s, n - 1); }
  }

  lemma NoNulName(name: string)
    requires PrintableName(name)
    ensures NoNul(PrintedName(name)) && NoNul(EndTag(name))
  {
  }

  lemma {:induction false} NoNulAttributes(fmt: Format, indent: string, depth: nat, attributes: seq<Attribute>)
    requires NoNul(indent) && forall k | 0 <= k < |attributes| ::
             PrintableName(attributes[k].name) && NoNul(attributes[k].value)
    ensures NoNul(AttributesText(fmt, indent, depth, attributes))
  {
    hide PrintableName, EscapedText, PrintedName;
    if attributes != [] {
      var a := attributes[|attributes| - 1];
      NoNulAttributes(fmt, indent, depth, attributes[..|attributes| - 1]);
      NoNulRepeat(IndentUnit(fmt, indent), depth + 1);
      NoNulName(a.name);
      NoNulText(fmt.style, true, a.value);
    }
  }

  lemma NoNulDeclaration(o: Options, fmt: Format, data: NodeData)
    requires data.kind.Declaration? && PrintableData(o, data)
    ensures NoNul(MarkupText(fmt, data))
  {
    hide AttributesText;
    NoNulAttributes(fmt.(raw := true), "", 0, data.attributes);
    XmlIsName(data.name);
    assert NoNul("<?") && NoNul("?>");
  }

  lemma NoNulRow(o: Options, fmt: Format, indent: string, depth: nat, layout: Layout, data: NodeData, leaf: bool)
    requires NoNul(indent) && (data.kind.DocumentNode? || PrintableData(o, data))
    ensures NoNul(RowText(fmt, indent, depth, layout, data, leaf))
  {
    hide PrintableName, EscapedText, PrintedName, EndTag, AttributesText;
    NoNulRepeat(IndentUnit(fmt, indent), depth);
    match data.kind {
      case Element =>
        NoNulName(data.name);
        NoNulAttributes(fmt, indent, depth, data.attributes);
      case Declaration =>
        NoNulDeclaration(o, fmt, data);
      case Pcdata => NoNulText(fmt.style, false, data.value);
      case _ =>
    }
  }

  lemma {:induction false} NoNulClosings(o: Options, fmt: Format, indent: string, d: Table, r: nat, i: nat,
      layout: Layout)
    requires WellFormed(d) && r < |d| && r <= i < End(d, r) && PrintableTree(o, d, r) && !Hidden(d, r, i)
             && NoNul(indent)
    ensures NoNul(Closings(fmt, indent, d, r, i, layout))
    decreases i
  {
    hide WellFormed, End, PrintableTree, Hidden, PrintableName, EndTag, NextSibling, Parent, Level, Closings;
    if i == r || NextSibling(d, i) != -1 {
      NoClosings(fmt, indent, d, r, i, layout, "");
    } else {
      ClosingsStep(fmt, indent, d, r, i, layout);
      ParentPrintable(o, d, r, i);
      var p := Parent(d, i);
      NoNulRepeat(IndentUnit(fmt, indent), Level(d, r, p));
      if d[p].data.kind.Element? { NoNulName(d[p].data.name); }
      NoNulClosings(o, fmt, indent, d, r, p, if d[p].data.kind.Element? then Line else layout);
    }
  }

  lemma {:induction false} NoNulRows(o: Options, fmt: Format, indent: string, d: Table, r: nat, i: nat, layout: Layout)
    requires WellFormed(d) && r < |d| && r <= i < End(d, r) && PrintableTree(o, d, r) && !Hidden(d, r, i)
             && NoNul(indent)
    ensures NoNul(RowsText(fmt, indent, d, r, i, layout))
    decreases |d| - i
  {
    hide WellFormed, End, PrintableTree, Hidden, NextSibling, Parent, FirstChild, Level, Closings, RowText, RowsText,
         AfterRow, Trail, LayoutClosed, IsLeaf;
    PrintableAt(o, d, r, i);
    VisibleNext(d, r, i);
    RowsTextStep(fmt, indent, d, r, i, layout);
    var leaf, after := IsLeaf(d, i), LayoutAfter(d[i].data.kind);
    NoNulRow(o, fmt, indent, Level(d, r, i), layout, d[i].data, leaf);
    if leaf {
      AfterRowStep(fmt, indent, d, r, i, after);
      NoNulClosings(o, fmt, indent, d, r, i, after);
      assert NoNul(Trail(fmt, LayoutClosed(d, r, i, after))) by { NoNulTrail(fmt, LayoutClosed(d, r, i, after)); }
      if End(d, i) < End(d, r) {
        EndAfter(d, i);
        NoNulRows(o, fmt, indent, d, r, End(d, i), LayoutClosed(d, r, i, after));
      }
    } else {
      LeafMeans(d, i);
      NoNulRows(o, fmt, indent, d, r, i + 1, after);
    }
  }

  lemma LeafMeans(d: Table, i: nat)
    requires i < |d|
    ensures d[i].data.kind.Declaration? ==> IsLeaf(d, i)
  {
  }

  lemma NoNulTrail(fmt: Format, layout: Layout)
    ensures NoNul(Trail(fmt, layout))
  {
  }

  lemma EndAfter(d: Table, i: nat)
    requires i < |d|
    ensures i < End(d, i) <= |d|
  {
  }

  // ------------------------------------------------------------------ the reparsed copy, navigated

  /** The document that the text of element `c` is parsed into. */
  ghost function Copy(d: Table, c: nat): (t: Table)
    requires WellFormed(d) && c < |d|
  {
    Rebuilt(MINIMAL, DEFAULT, d, c, End(d, c))
  }

  function PlaceOrNone(c: nat, i: int): int {
    if i < c then -1 else i - c + 1
  }

  ghost predicate Copyable(d: Table, c: nat) {
    && WellFormed(d) && c < |d| && d[c].data.kind.Element?
    && PrintableTree(MINIMAL, d, c) && AllShown(MINIMAL, d, c) && CanonicalTree(d, c)
  }

  lemma CopyRows(d: Table, c: nat)
    requires Copyable(d, c)
    ensures var t := Copy(d, c);
            && |t| == End(d, c) - c + 1 && t[0] == Row(-1, EmptyDocument)
            && (forall i {:trigger ReadData(MINIMAL, DEFAULT, d[i].data)} | c <= i < End(d, c) ::
                  t[i - c + 1] == Row(if i == c then 0 else d[i].parent - c + 1, ReadData(MINIMAL, DEFAULT, d[i].data)))
            && (forall i | c < i < End(d, c) :: d[i].parent >= c)
  {
    hide ReadData, WellFormed, Shown, WritableTree, PrintableTree;
    PrintableIsWritable(MINIMAL, d, c);
    RebuiltShape(MINIMAL, DEFAULT, d, c, End(d, c));
    AboutEnd(d, c);
    PlaceOfAll(MINIMAL, d, c, End(d, c));
    FirstRow(d, c, End(d, c));
    forall i | c <= i < End(d, c)
      ensures Copy(d, c)[i - c + 1]
              == Row(if i == c then 0 else d[i].parent - c + 1, ReadData(MINIMAL, DEFAULT, d[i].data))
    {
      PlaceOfAll(MINIMAL, d, c, i);
      SameParent(MINIMAL, d, c, i);
      assert Shown(MINIMAL, d, c, i) && Place(MINIMAL, d, c, i) == i - c + 1;
    }
  }

  lemma {:induction false} FirstRow(d: Table, c: nat, n: nat)
    requires WellFormed(d) && c < |d| && d[c].data.kind.Element? && c <= n <= End(d, c)
    ensures var t := Rebuilt(MINIMAL, DEFAULT, d, c, n); t != [] && t[0] == Row(-1, EmptyDocument)
    decreases n
  {
    hide ReadData, WellFormed, End;
    if n > c { FirstRow(d, c, n - 1); }
  }

  /** A printed record keeps its kind and its name. */
  lemma SameIs(w: Wanted, data: NodeData)
    requires PrintableData(MINIMAL, data) && CanonicalData(data)
    ensures Is(w, ReadData(MINIMAL, DEFAULT, data)) == Is(w, data)
    ensures data.kind.Pcdata?
            ==> ReadData(MINIMAL, DEFAULT, data).value == EscapedText(DEFAULT.style, false, data.value)
  {
    hide ReadBack, EscapedText;
    if data.kind.Pcdata? { ReadBackUnresolved(TextRules(MINIMAL), DEFAULT.style, false, data.value); }
  }

  lemma RowOf(d: Table, c: nat, i: nat)
    requires Copyable(d, c) && c <= i < End(d, c)
    ensures PrintableData(MINIMAL, d[i].data) && CanonicalData(d[i].data)
  {
    hide WellFormed, TextSurvives, PrintableName, Hidden, End;
    assert Shown(MINIMAL, d, c, i);
    PrintableAt(MINIMAL, d, c, i);
  }

  /** No row after the subtree of `c` is a child of a node in it. */
  lemma {:induction false} NothingBeyond(d: Table, c: nat, i: nat, w: Wanted, from: nat)
    requires WellFormed(d) && c < |d| && c <= i < End(d, c) <= from <= |d|
    ensures FirstWanted(d, i, w, from) == -1
    decreases |d| - from
  {
    if from < |d| {
      if d[from].parent == i { SubtreeIsInterval(d, c, i); SubtreeIsInterval(d, c, from); }
      NothingBeyond(d, c, i, w, from + 1);
    }
  }

  /** Looking for a child in the copy finds the copy of the child. */
  lemma {:induction false} FirstWantedCopied(d: Table, c: nat, i: nat, w: Wanted, from: nat)
    requires Copyable(d, c) && c <= i < from <= End(d, c)
    ensures |Copy(d, c)| == End(d, c) - c + 1
    ensures FirstWanted(Copy(d, c), i - c + 1, w, from - c + 1) == PlaceOrNone(c, FirstWanted(d, i, w, from))
    decreases End(d, c) - from
  {
    hide WellFormed, End, Copy, ReadData, Is, CanonicalTree, PrintableTree;
    CopyRows(d, c);
    if from == End(d, c) {
      NothingBeyond(d, c, i, w, from);
    } else {
      RowOf(d, c, from);
      SameIs(w, d[from].data);
      FirstWantedCopied(d, c, i, w, from + 1);
      assert Copy(d, c)[from - c + 1] == Row(d[from].parent - c + 1, ReadData(MINIMAL, DEFAULT, d[from].data));
    }
  }

  lemma {:induction false} NoneBefore(d: Table, p: nat, w: Wanted, from: nat, to: nat)
    requires from <= to <= |d| && forall j | from <= j < to :: d[j].parent != p
    ensures FirstWanted(d, p, w, from) == FirstWanted(d, p, w, to)
    decreases |d| - from
  {
    if from < to { NoneBefore(d, p, w, from + 1, to); }
  }

  lemma WantedCopied(d: Table, c: nat, i: nat, w: Wanted)
    requires Copyable(d, c) && c <= i < End(d, c)
    ensures |Copy(d, c)| == End(d, c) - c + 1
    ensures FirstWanted(Copy(d, c), i - c + 1, w, 0) == PlaceOrNone(c, FirstWanted(d, i, w, 0))
    ensures var f := FirstWanted(d, i, w, 0); f == -1 || c < f < End(d, c)
  {
    hide ReadData, CanonicalTree, PrintableTree, AllShown, Copy, FirstWanted, Is;
    var t := Copy(d, c);
    CopyRows(d, c);
    ChildrenComeAfter(d, i, w, 0);
    FirstWantedCopied(d, c, i, w, i + 1);
    forall j | 0 <= j < i - c + 2 ensures t[j].parent != i - c + 1 {
      if j > 0 {
        var k := j + c - 1;
        assert t[k - c + 1] == Row(if k == c then 0 else d[k].parent - c + 1, ReadData(MINIMAL, DEFAULT, d[k].data));
      }
    }
    NoneBefore(t, i - c + 1, w, 0, i - c + 2);
    var f := FirstWanted(d, i, w, 0);
    if f != -1 { SubtreeIsInterval(d, c, i); SubtreeIsInterval(d, c, f); }
  }

  lemma {:induction false} NavigateCopied(d: Table, c: nat, i: int, path: seq<string>)
    requires Copyable(d, c) && (i == -1 || c <= i < End(d, c))
    ensures |Copy(d, c)| == End(d, c) - c + 1
    ensures Navigate(Copy(d, c), PlaceOrNone(c, i), path) == PlaceOrNone(c, Navigate(d, i, path))
    ensures var n := Navigate(d, i, path); n == -1 || c <= n < End(d, c)
    decreases |path|
  {
    hide WellFormed, End, Copy, CanonicalTree, PrintableTree, FirstWanted, Copyable;
    InSubtree(d, c);
    if path != [] {
      if i != -1 { WantedCopied(d, c, i, Named(path[0])); }
      NavigateCopied(d, c, Child(d, i, path[0]), path[1..]);
    }
  }

  lemma InSubtree(d: Table, c: nat)
    requires Copyable(d, c)
    ensures WellFormed(d) && c < End(d, c) <= |d| && |Copy(d, c)| == End(d, c) - c + 1
  {
    CopyRows(d, c);
  }

  lemma TextCopied(d: Table, c: nat, i: int)
    requires Copyable(d, c) && (i == -1 || c <= i < End(d, c))
    ensures |Copy(d, c)| == End(d, c) - c + 1
    ensures TextOf(Copy(d, c), PlaceOrNone(c, i)) == EscapedText(DEFAULT.style, false, TextOf(d, i))
  {
    hide WellFormed, End, Copy, CanonicalTree, PrintableTree, FirstWanted, EscapedText, ReadData, CanonicalData,
         PrintableData;
    CopyRows(d, c);
    EscapedEmpty(DEFAULT.style, false);
    if i != -1 {
      TextRow(d, c, i);
      WantedCopied(d, c, i, AnyText);
      var f := FirstWanted(d, i, AnyText, 0);
      if f != -1 { TextRow(d, c, f); }
    }
  }

  lemma TextRow(d: Table, c: nat, i: nat)
    requires Copyable(d, c) && c <= i < End(d, c)
    ensures |Copy(d, c)| == End(d, c) - c + 1
    ensures var row := Copy(d, c)[i - c + 1];
            && Is(AnyText, row.data) == Is(AnyText, d[i].data)
            && (Is(AnyText, d[i].data) ==> row.data.value == EscapedText(DEFAULT.style, false, d[i].data.value))
  {
    hide WellFormed, End, Copy, CanonicalTree, PrintableTree, EscapedText, ReadData;
    CopyRows(d, c);
    RowOf(d, c, i);
    SameIs(AnyText, d[i].data);
    assert Copy(d, c)[i - c + 1].data == ReadData(MINIMAL, DEFAULT, d[i].data);
  }

  /** The top of the copy has one child, the copied element. */
  lemma TopOfCopy(d: Table, c: nat, name: string)
    requires Copyable(d, c)
    ensures |Copy(d, c)| == End(d, c) - c + 1
    ensures Child(Copy(d, c), 0, name) == if name != "" && d[c].data.name == name then 1 else -1
  {
    hide WellFormed, CanonicalTree, PrintableTree, EscapedText, ReadData, Copy;
    var t := Copy(d, c);
    CopyRows(d, c);
    RowOf(d, c, c);
    SameIs(Named(name), d[c].data);
    assert t[c - c + 1] == Row(0, ReadData(MINIMAL, DEFAULT, d[c].data));
    forall j | 2 <= j < |t| ensures t[j].parent != 0 {
      var k := j + c - 1;
      assert t[k - c + 1] == Row(d[k].parent - c + 1, ReadData(MINIMAL, DEFAULT, d[k].data));
    }
    NoneBefore(t, 0, Named(name), 2, |t|);
    assert FirstWanted(t, 0, Named(name), 0) == FirstWanted(t, 0, Named(name), 1);
  }

  /** An element holds no declaration. */
  lemma CopyableWhole(d: Table, c: nat)
    requires Copyable(d, c)
    ensures forall i | c <= i < End(d, c) :: Whole(d[i].data)
  {
    hide WellFormed, End, CanonicalTree;
    forall i | c <= i < End(d, c) ensures Whole(d[i].data) {
      assert Shown(MINIMAL, d, c, i);
      PrintableAt(MINIMAL, d, c, i);
    }
  }

  /** The text of an element is accepted, and becomes the copy. */
  lemma CopyParsed(d: Table, c: nat)
    requires Copyable(d, c)
    ensures Parse(MINIMAL, Printed(DEFAULT, TAB, d, c)) == Parsed(Copy(d, c))
  {
    hide WellFormed, CanonicalTree, RowsText, ParseContent, End, PrintableTree, AllShown, ReadData, Whole;
    var s := Printed(DEFAULT, TAB, d, c);
    CopyableWhole(d, c);
    PrintedRead(MINIMAL, DEFAULT, TAB, d, c);
    NoNulRows(MINIMAL, DEFAULT, TAB, d, c, c, IndentOnly);
    PrintedStart(d, c);
    CopyRows(d, c);
    assert Copy(d, c)[c - c + 1] == Row(0, ReadData(MINIMAL, DEFAULT, d[c].data));
    KindKept(d[c].data);
    assert HasElement(Copy(d, c));
  }

  lemma KindKept(data: NodeData)
    requires data.kind.Element?
    ensures ReadData(MINIMAL, DEFAULT, data).kind == Element
  {
  }

  lemma PrintedStart(d: Table, c: nat)
    requires WellFormed(d) && c < |d| && d[c].data.kind.Element?
    ensures var s := Printed(DEFAULT, TAB, d, c); s != "" && s[0] == '<'
  {
    hide WellFormed, End, FirstChild, AfterRow, AttributesText, TagClose, Level;
    RowsTextStep(DEFAULT, TAB, d, c, c, IndentOnly);
    RootLevel(d, c);
    hide RowsText;
    assert Repeat(TAB, 0) == "";
  }

  /** In a document without texts side by side the directly navigated value comes back as the printer
    writes it. */
  lemma CopyValue(d: Table, c: nat, path: seq<string>)
    requires Copyable(d, c)
    ensures Parse(MINIMAL, Printed(DEFAULT, TAB, d, c)) == Parsed(Copy(d, c))
    ensures Copy(d, c) != []
    ensures TextOf(Copy(d, c), Navigate(Copy(d, c), 0, path))
            == EscapedText(DEFAULT.style, false, DirectValue(d, c, path))
  {
    CopyParsed(d, c);
    hide WellFormed, CanonicalTree, PrintableTree, EscapedText, ReadData, Copy, End, FirstWanted, Printed, Parse;
    EscapedEmpty(DEFAULT.style, false);
    InSubtree(d, c);
    if path == [] {
      NoTextAtTop(d, c);
    } else {
      TopOfCopy(d, c, path[0]);
      RowOf(d, c, c);
      NavigateCopied(d, c, if d[c].data.name == path[0] then c else -1, path[1..]);
      NavigateNull(d, path[1..]);
      TextCopied(d, c, Navigate(d, if d[c].data.name == path[0] then c else -1, path[1..]));
    }
  }

  lemma {:induction false} NavigateNull(d: Table, path: seq<string>)
    ensures Navigate(d, -1, path) == -1
    decreases |path|
  {
    if path != [] { NavigateNull(d, path[1..]); }
  }

  lemma NoTextAtTop(d: Table, c: nat)
    requires Copyable(d, c)
    ensures |Copy(d, c)| == End(d, c) - c + 1
    ensures TextOf(Copy(d, c), 0) == ""
  {
    hide WellFormed, CanonicalTree, PrintableTree, ReadData, Copy, End;
    var t := Copy(d, c);
    CopyRows(d, c);
    KindKept(d[c].data);
    assert t[c - c + 1] == Row(0, ReadData(MINIMAL, DEFAULT, d[c].data));
    forall j | 2 <= j < |t| ensures t[j].parent != 0 {
      var k := j + c - 1;
      assert t[k - c + 1] == Row(d[k].parent - c + 1, ReadData(MINIMAL, DEFAULT, d[k].data));
    }
    NoneBefore(t, 0, AnyText, 2, |t|);
    assert FirstWanted(t, 0, AnyText, 1) == FirstWanted(t, 0, AnyText, 2);
    assert FirstWanted(t, 0, AnyText, 0) == FirstWanted(t, 0, AnyText, 1);
  }

  // ------------------------------------------------------------------ texts side by side

  /** The text of row `t` and of the texts that follow it directly. */
  function Run(d: Table, t: nat): string
    requires t < |d|
    decreases |d| - t
  {
    d[t].data.value + if Joins(d, t) then Run(d, t + 1) else ""
  }

  /** The text of a node as it is once printed and read again: texts side by side have become one. */
  function RunTextOf(d: Table, n: int): string
    requires -1 <= n < |d|
  {
    if n == -1 then ""
    else if Is(AnyText, d[n].data) then d[n].data.value
    else
      var t := FirstWanted(d, n, AnyText, 0);
      if t == -1 then "" else Run(d, t)
  }

  function RunValue(d: Table, c: nat, path: seq<string>): string
    requires c < |d|
  {
    if path == [] || d[c].data.name != path[0] then "" else RunTextOf(d, Navigate(d, c, path[1..]))
  }

  /** The value looked for is a text with another text right behind it. */
  predicate Continued(d: Table, c: nat, path: seq<string>)
    requires c < |d|
  {
    && path != [] && d[c].data.name == path[0]
    && var n := Navigate(d, c, path[1..]);
       && n != -1 && !Is(AnyText, d[n].data)
       && var t := FirstWanted(d, n, AnyText, 0);
          t != -1 && Joins(d, t)
  }

  ghost predicate NamelessPair(d: Table, i: nat) {
    Pair(d, i) && d[i].data.name == "" && d[i + 1].data.name == ""
  }

  lemma FirstWantedStep(d: Table, p: nat, w: Wanted, from: nat)
    requires from < |d|
    ensures FirstWanted(d, p, w, from)
            == if d[from].parent == p && Is(w, d[from].data) then from else FirstWanted(d, p, w, from + 1)
  {
  }

  /** A row is wanted before a pair is joined if and only if it is afterwards. */
  lemma IsJoined(d: Table, i: nat, x: nat, w: Wanted, k: nat)
    requires NamelessPair(d, i) && x < |d| && x != i && x != i + 1 && k < |d|
    ensures 0 <= Up(x, i) && 0 <= Up(k, i) < |Join(d, i)|
    ensures var row := Join(d, i)[Up(k, i)];
            row.parent == Up(x, i) && Is(w, row.data) <==> d[k].parent == x && Is(w, d[k].data)
    ensures k == i || k == i + 1 ==> !(w.Named? && Is(w, d[k].data))
    ensures k == i ==> (d[k].parent == x && Is(w, d[k].data) <==> d[k + 1].parent == x && Is(w, d[k + 1].data))
  {
    hide WellFormed, Join, End;
    NoChildren(d, i, k);
    NoChildren(d, i, x);
    JoinedAt(d, i, k);
  }

  /** Looking for a child after a pair has been joined. */
  lemma {:induction false} WantedJoined(d: Table, i: nat, x: nat, w: Wanted, from: nat)
    requires NamelessPair(d, i) && x < |d| && x != i && x != i + 1 && from <= |d| && from != i + 1
    ensures 0 <= Up(x, i) && 0 <= Up(from, i) <= |Join(d, i)|
    ensures var r := FirstWanted(d, x, w, from);
            && FirstWanted(Join(d, i), Up(x, i), w, Up(from, i)) == Up(r, i)
            && r != i + 1 && (w.Named? ==> r != i)
    decreases |d| - from
  {
    hide FirstWanted, Is, Join, NamelessPair;
    PairBound(d, i);
    if from == |d| {
      NoneLeft(d, x, w);
      NoneLeft(Join(d, i), Up(x, i), w);
    } else {
      IsJoined(d, i, x, w, from);
      FirstWantedStep(d, x, w, from);
      FirstWantedStep(Join(d, i), Up(x, i), w, Up(from, i));
      if from == i {
        FirstWantedStep(d, x, w, i + 1);
        WantedJoined(d, i, x, w, i + 2);
      } else {
        WantedJoined(d, i, x, w, from + 1);
      }
    }
  }

  lemma PairBound(d: Table, i: nat)
    requires NamelessPair(d, i)
    ensures i + 1 < |d| && |Join(d, i)| == |d| - 1
  {
  }

  lemma NoneLeft(d: Table, p: nat, w: Wanted)
    ensures FirstWanted(d, p, w, |d|) == -1
  {
  }

  lemma {:induction false} NavigateJoined(d: Table, i: nat, x: int, path: seq<string>)
    requires NamelessPair(d, i) && -1 <= x < |d| && x != i && x != i + 1
    ensures -1 <= Up(x, i) < |Join(d, i)|
    ensures var n := Navigate(d, x, path);
            n != i && n != i + 1 && Navigate(Join(d, i), Up(x, i), path) == Up(n, i)
    decreases |path|
  {
    hide WellFormed, Join, End, FirstWanted;
    if path != [] {
      if x != -1 { WantedJoined(d, i, x, Named(path[0]), 0); }
      NavigateJoined(d, i, Child(d, x, path[0]), path[1..]);
    }
  }

  lemma JoinsJoined(d: Table, i: nat, t: nat)
    requires Pair(d, i) && t < |d| && t != i
    ensures Up(t, i) < |Join(d, i)| && (Joins(Join(d, i), Up(t, i)) <==> Joins(d, t))
  {
    hide WellFormed, Join, End;
    JoinedAt(d, i, t);
    NoChildren(d, i, t);
    if t + 1 < |d| {
      JoinedAt(d, i, t + 1);
      NoChildren(d, i, t + 1);
    }
  }

  lemma {:induction false} RunJoined(d: Table, i: nat, t: nat)
    requires Pair(d, i) && t < |d| && t != i + 1
    ensures Up(t, i) < |Join(d, i)| && Run(Join(d, i), Up(t, i)) == Run(d, t)
    decreases |d| - t
  {
    hide WellFormed, Join, End, Joins;
    JoinedAt(d, i, t);
    if t == i {
      PairJoins(d, i);
      JoinedRowAt(d, i, i);
      JoinsJoined(d, i, i + 1);
      if Joins(d, i + 1) { JoinsBound(d, i + 1); RunJoined(d, i, i + 2); }
      Regroup(d[i].data.value, d[i + 1].data.value, if Joins(d, i + 1) then Run(d, i + 2) else "");
    } else {
      JoinsJoined(d, i, t);
      if Joins(d, t) { JoinsBound(d, t); RunJoined(d, i, t + 1); }
    }
  }

  lemma PairJoins(d: Table, i: nat)
    requires Pair(d, i)
    ensures Joins(d, i) && i + 1 < |d|
  {
  }

  lemma JoinsBound(d: Table, t: nat)
    requires Joins(d, t)
    ensures t + 1 < |d|
  {
  }

  lemma RunTextJoined(d: Table, i: nat, n: int)
    requires NamelessPair(d, i) && -1 <= n < |d| && n != i && n != i + 1
    ensures -1 <= Up(n, i) < |Join(d, i)| && RunTextOf(Join(d, i), Up(n, i)) == RunTextOf(d, n)
  {
    hide WellFormed, Join, End, FirstWanted, Run;
    if n != -1 {
      JoinedAt(d, i, n);
      WantedJoined(d, i, n, AnyText, 0);
      var t := FirstWanted(d, n, AnyText, 0);
      if t != -1 { RunJoined(d, i, t); }
    }
  }

  lemma RunValueJoined(d: Table, c: nat, i: nat, path: seq<string>)
    requires NamelessPair(d, i) && c < i
    ensures c < |Join(d, i)| && RunValue(Join(d, i), c, path) == RunValue(d, c, path)
  {
    hide WellFormed, Join, End, FirstWanted, RunTextOf;
    JoinedAt(d, i, c);
    if path != [] {
      NavigateJoined(d, i, c, path[1..]);
      RunTextJoined(d, i, Navigate(d, c, path[1..]));
    }
  }

  /** An element whose whole subtree leaves its trace in print, in the form the parser gives it. */
  ghost predicate Legible(d: Table, c: nat) {
    && WellFormed(d) && c < |d| && d[c].data.kind.Element?
    && WritableTree(MINIMAL, d, c) && AllShown(MINIMAL, d, c) && CanonicalTree(d, c)
  }

  lemma CanonicalPair(d: Table, c: nat, i: nat)
    requires PairIn(d, c, i) && CanonicalTree(d, c)
    ensures NamelessPair(d, i) && c < i
  {
    hide WellFormed, End;
    assert CanonicalData(d[i].data) && CanonicalData(d[i + 1].data);
  }

  lemma {:induction false} SolidRunValue(d: Table, c: nat, path: seq<string>)
    requires WellFormed(d) && c < |d| && CanonicalTree(d, c)
    ensures RunValue(Solid(d, c), c, path) == RunValue(d, c, path)
    decreases |d|
  {
    hide WellFormed, Join, PairIn, HasPair, CanonicalTree, RunValue, NamelessPair;
    if HasPair(d, c) {
      var i := SomePair(d, c);
      CanonicalPair(d, c, i);
      JoinedIn(d, c, i, c);
      JoinedCanonical(d, c, i);
      RunValueJoined(d, c, i, path);
      SolidRunValue(Join(d, i), c, path);
    }
  }

  lemma SolidCopyable(d: Table, c: nat)
    requires Legible(d, c)
    ensures c < |Solid(d, c)| && Copyable(Solid(d, c), c)
  {
    hide WellFormed, HasPair, CanonicalTree, WritableTree, AllShown, PrintableTree, Solid;
    SolidWritable(MINIMAL, d, c);
    SolidShown(MINIMAL, d, c);
    SolidCanonical(d, c);
    SolidRoot(d, c);
    SolidPrintable(MINIMAL, Solid(d, c), c);
  }

  /** Where no texts stand side by side the two ways of taking a text agree. */
  lemma RunValueCopyable(d: Table, c: nat, path: seq<string>)
    requires Copyable(d, c)
    ensures RunValue(d, c, path) == DirectValue(d, c, path)
  {
    hide WellFormed, End, CanonicalTree, PrintableTree, FirstWanted, Joins, Copyable;
    InSubtree(d, c);
    if path != [] {
      NavigateCopied(d, c, c, path[1..]);
      var n := Navigate(d, c, path[1..]);
      if n != -1 {
        WantedCopied(d, c, n, AnyText);
        var t := FirstWanted(d, n, AnyText, 0);
        if t != -1 {
          CopyableApart(d, c, t);
          assert d[t].data.value + "" == d[t].data.value;
        }
      }
    }
  }

  lemma CopyableApart(d: Table, c: nat, t: nat)
    requires Copyable(d, c) && c <= t < End(d, c)
    ensures !Joins(d, t)
  {
    hide WellFormed, End, WritableRow, Hidden;
    assert Shown(MINIMAL, d, c, t);
    PrintableAt(MINIMAL, d, c, t);
  }

  /** The detour through the text of an element: it is accepted, and the value found in what it is
    read into is the directly navigated text, with every text that follows it directly, as the
    printer writes it. */
  lemma DetourValue(d: Table, c: nat, path: seq<string>)
    requires Legible(d, c)
    ensures var t := Copy(Solid(d, c), c);
            && t != []
            && Parse(MINIMAL, Printed(DEFAULT, TAB, d, c)) == Parsed(t)
            && TextOf(t, Navigate(t, 0, path)) == EscapedText(DEFAULT.style, false, RunValue(d, c, path))
  {
    hide WellFormed, CanonicalTree, WritableTree, EscapedText, Copy, FirstWanted, Printed, Parse, Copyable, Solid,
         RunValue, DirectValue;
    SolidCopyable(d, c);
    SolidPrinted(DEFAULT, TAB, d, c);
    SolidRunValue(d, c, path);
    CopyValue(Solid(d, c), c, path);
    RunValueCopyable(Solid(d, c), c, path);
  }

  /** What follows the directly navigated text is not empty. */
  lemma RunContinues(d: Table, c: nat, path: seq<string>) returns (more: string)
    requires Legible(d, c)
    ensures RunValue(d, c, path) == DirectValue(d, c, path) + more
    ensures more != "" <==> Continued(d, c, path)
  {
    hide WellFormed, End, CanonicalTree, FirstWanted, WritableTree;
    more := "";
    if path != [] && d[c].data.name == path[0] {
      var n := Navigate(d, c, path[1..]);
      if n != -1 && !Is(AnyText, d[n].data) {
        var t := FirstWanted(d, n, AnyText, 0);
        if t != -1 && Joins(d, t) {
          NavigateWithin(d, c, c, path[1..]);
          WantedWithin(d, c, n, AnyText);
          PairEndOf(d, c, t);
          TextNotEmpty(d, c, t + 1);
          more := Run(d, t + 1);
        }
      }
    }
  }

  lemma WantedWithin(d: Table, c: nat, i: nat, w: Wanted)
    requires WellFormed(d) && c < |d| && c <= i < End(d, c)
    ensures var f := FirstWanted(d, i, w, 0); f == -1 || c < f < End(d, c)
  {
    var f := FirstWanted(d, i, w, 0);
    if f != -1 { SubtreeIsInterval(d, c, i); SubtreeIsInterval(d, c, f); }
  }

  lemma {:induction false} NavigateWithin(d: Table, c: nat, i: int, path: seq<string>)
    requires WellFormed(d) && c < |d| && (i == -1 || c <= i < End(d, c))
    ensures var n := Navigate(d, i, path); n == -1 || c <= n < End(d, c)
    decreases |path|
  {
    hide WellFormed, End, FirstWanted;
    EndAfter(d, c);
    if path != [] {
      if i != -1 { WantedWithin(d, c, i, Named(path[0])); }
      NavigateWithin(d, c, Child(d, i, path[0]), path[1..]);
    }
  }

  lemma PairEndOf(d: Table, c: nat, t: nat)
    requires Legible(d, c) && c <= t < End(d, c) && Joins(d, t)
    ensures t + 1 < End(d, c)
  {
    hide WellFormed, End, CanonicalTree, WritableTree, Hidden;
    assert Shown(MINIMAL, d, c, t);
    JoinsIsPair(MINIMAL, d, c, t);
  }

  lemma TextNotEmpty(d: Table, c: nat, t: nat)
    requires Legible(d, c) && c <= t < End(d, c) <= |d| && d[t].data.kind.Pcdata?
    ensures Run(d, t) != ""
  {
    hide WellFormed, End, CanonicalTree, WritableTree;
    assert Shown(MINIMAL, d, c, t);
    assert d[t].data.value != "";
  }

  // ------------------------------------------------------------------ opening a reader

  /** The first attribute of a name, or -1. */
  function FirstNamed(attributes: seq<Attribute>, name: string, from: nat): (k: int)
    requires from <= |attributes|
    ensures -1 <= k < |attributes|
    decreases |attributes| - from
  {
    if from == |attributes| then -1
    else if attributes[from].name == name then from
    else FirstNamed(attributes, name, from + 1)
  }

  /** `validate`: a declaration at the top must be of version one; `isOne` tells whether a text, read as
    a number, is one. */
  predicate Validated(isOne: string -> bool, d: Table)
    requires d != []
  {
    var x := Child(d, 0, "xml");
    x == -1 || !d[x].data.kind.Declaration?
    || var k := FirstNamed(d[x].data.attributes, "version", 0);
       k != -1 && isOne(d[x].data.attributes[k].value)
  }

  /** A reader over an accepted document, or an exception. */
  datatype Reader = Reader(rows: Table) | Throws

  ghost function OpenReader(isOne: string -> bool, contents: string): (r: Reader)
    ensures r.Reader? ==> ParsedRows(MINIMAL, r.rows) && r.rows != []
  {
    var r := Parse(MINIMAL, contents);
    if r.Failed? then Throws
    else
      ParseGivesDocument(MINIMAL, contents);
      if Validated(isOne, r.rows) then Reader(r.rows) else Throws
  }

  method Validate(isOne: string -> bool, d: Table) returns (ok: bool)
    requires WellFormed(d)
    ensures d != [] && ok == Validated(isOne, d)
  {
    assert |d| > 0;
    hide WellFormed, FirstWanted;
    var x := FindChild(d, 0, Named("xml"));
    if x == -1 || d[x].data.kind != Declaration { return true; }
    var attributes := d[x].data.attributes;
    var k := 0;
    while k < |attributes|
      invariant k <= |attributes| && FirstNamed(attributes, "version", 0) == FirstNamed(attributes, "version", k)
    {
      if attributes[k].name == "version" { return isOne(attributes[k].value); }
      k := k + 1;
    }
    return false;
  }

  /** The constructor of the reader. */
  method NewReader(isOne: string -> bool, contents: string) returns (r: Reader)
    ensures r == OpenReader(isOne, contents)
  {
    hide Parse, Validated;
    var p := Parse(MINIMAL, contents);
    if p.Failed? { return Throws; }
    ParseGivesDocument(MINIMAL, contents);
    RowsWellFormed(p.rows);
    var ok := Validate(isOne, p.rows);
    return if ok then Reader(p.rows) else Throws;
  }

  lemma RowsWellFormed(d: Table)
    requires ParsedRows(MINIMAL, d)
    ensures WellFormed(d)
  {
  }

  // ------------------------------------------------------------------ TryExtractDeepValue

  datatype Extraction = NotFound | Extracted(value: string) | Rejected

  predicate Selects(d: Table, filter: string, i: nat)
    requires i < |d|
  {
    filter == "" || ShortName(d, i) == filter
  }

  /** The first child of `p` at or after row `from` that the filter selects, or -1. */
  function FirstSelected(d: Table, p: nat, filter: string, from: nat): (r: int)
    requires from <= |d|
    ensures r == -1 || (from <= r < |d| && d[r].parent == p && Selects(d, filter, r))
    decreases |d| - from
  {
    if from == |d| then -1
    else if d[from].parent == p && Selects(d, filter, from) then from
    else FirstSelected(d, p, filter, from + 1)
  }

  /** The node the search ends at, or -1. */
  function Selected(d: Table, shallow: seq<string>, filter: string): (c: int)
    requires d != []
    ensures -1 <= c < |d| && (c != -1 ==> Selects(d, filter, c) && d[c].parent >= 0)
  {
    var p := Navigate(d, 0, shallow);
    if p == -1 then -1 else FirstSelected(d, p, filter, 0)
  }

  /** The value reached by navigating in the document itself. */
  function Direct(d: Table, shallow: seq<string>, deep: seq<string>, filter: string): Extraction
    requires d != []
  {
    var c := Selected(d, shallow, filter);
    if c == -1 then NotFound
    else if filter == "" then Extracted(TextOf(d, c))
    else Extracted(DirectValue(d, c, deep))
  }

  /** The text a value is written as when its node is printed. */
  function AsPrinted(value: string): string {
    EscapedText(DEFAULT.style, false, value)
  }

  /** The value found by a second reader in the text of node `c`. */
  ghost function Detour(isOne: string -> bool, d: Table, c: nat, deep: seq<string>): Extraction
    requires WellFormed(d) && c < |d|
  {
    match OpenReader(isOne, Printed(DEFAULT, TAB, d, c))
    case Throws => Rejected
    case Reader(rows) => Extracted(TextOf(rows, Navigate(rows, 0, deep)))
  }

  lemma {:induction false} FirstSelectedSkips(d: Table, p: nat, filter: string, from: nat)
    requires from <= |d|
    ensures var c := FirstWithParent(d, p, from);
            FirstSelected(d, p, filter, from) == if c == -1 then -1 else FirstSelected(d, p, filter, c)
    decreases |d| - from
  {
    hide Selects;
    if from < |d| && d[from].parent != p { FirstSelectedSkips(d, p, filter, from + 1); }
  }

  lemma {:induction false} SelectedAfter(d: Table, p: nat, filter: string, from: nat)
    requires WellFormed(d) && p < |d| && from <= p + 1
    ensures FirstSelected(d, p, filter, from) == FirstSelected(d, p, filter, p + 1)
    decreases p + 1 - from
  {
    hide Selects;
    if from <= p { SelectedAfter(d, p, filter, from + 1); }
  }

  lemma FirstSelectedHere(d: Table, p: nat, filter: string, from: nat)
    requires from < |d| && d[from].parent == p
    ensures FirstSelected(d, p, filter, from)
            == if Selects(d, filter, from) then from else FirstSelected(d, p, filter, from + 1)
    ensures Selects(d, filter, from) <==> filter == "" || ShortName(d, from) == filter
  {
    hide ShortName;
  }

  /** The exact condition: the detour through the text of an element always succeeds, and it gives the
    directly navigated value if and only if nothing in that value has to be written as a reference
    and no other text stands right behind it. */
  lemma DetourExact(isOne: string -> bool, d: Table, c: nat, deep: seq<string>)
    requires Legible(d, c)
    ensures Detour(isOne, d, c, deep) == Extracted(AsPrinted(RunValue(d, c, deep)))
    ensures Detour(isOne, d, c, deep) == Extracted(DirectValue(d, c, deep))
            <==> Plain(DEFAULT.style, false, DirectValue(d, c, deep)) && !Continued(d, c, deep)
  {
    hide WellFormed, CanonicalTree, WritableTree, EscapedText, Copy, FirstWanted, Printed, Parse, Solid, RunValue,
         DirectValue, Validated, Plain, Continued, Copyable;
    DetourValue(d, c, deep);
    SolidCopyable(d, c);
    CopyValidated(isOne, Solid(d, c), c);
    var v := DirectValue(d, c, deep);
    var more := RunContinues(d, c, deep);
    EscapedJoined(DEFAULT.style, false, v, more);
    EscapedLonger(DEFAULT.style, false, v);
    EscapedLonger(DEFAULT.style, false, more);
    if more == "" { assert v + more == v; }
  }

  /** An element with a value that a comment divides: `<A><V>a<!-- -->b</V></A>` as it is read. */
  const DIVIDED: Table := [
    Row(-1, EmptyDocument),
    Row(0, NodeData(Element, "A", "", [])),
    Row(1, NodeData(Element, "V", "", [])),
    Row(2, NodeData(Pcdata, "", "a", [])),
    Row(2, NodeData(Pcdata, "", "b", []))
  ]

  /** The value in the document is the part in front of the comment, the detour gives both parts. */
  lemma DividedValue(isOne: string -> bool)
    ensures Legible(DIVIDED, 1)
    ensures DirectValue(DIVIDED, 1, ["A", "V"]) == "a"
    ensures Detour(isOne, DIVIDED, 1, ["A", "V"]) == Extracted("ab")
  {
    hide Detour, EscapedText;
    DividedLegible();
    var d := DIVIDED;
    assert FirstWanted(d, 1, Named("V"), 0) == 2 by {
      assert FirstWanted(d, 1, Named("V"), 2) == 2;
      assert FirstWanted(d, 1, Named("V"), 1) == 2;
    }
    assert FirstWanted(d, 2, AnyText, 0) == 3 by {
      assert FirstWanted(d, 2, AnyText, 3) == 3;
      assert FirstWanted(d, 2, AnyText, 2) == 3;
      assert FirstWanted(d, 2, AnyText, 1) == 3;
    }
    assert ["A", "V"][1..] == ["V"] && ["V"][1..] == [];
    assert Navigate(d, 1, ["V"]) == 2;
    assert Run(d, 4) == "b" + "" == "b";
    assert Run(d, 3) == "a" + "b" == "ab";
    assert RunValue(d, 1, ["A", "V"]) == "ab";
    DetourExact(isOne, d, 1, ["A", "V"]);
    assert EscapedText(DEFAULT.style, false, "ab") == "ab" by {
      EscapedLonger(DEFAULT.style, false, "ab");
      assert Plain(DEFAULT.style, false, "ab");
    }
  }

  lemma DividedShown()
    ensures forall i | 1 <= i < 5 :: Shown(MINIMAL, DIVIDED, 1, i)
  {
    hide End;
    assert !IsSpace("a"[0]) && !IsSpace("b"[0]);
    assert !AllSpaces("a") && !AllSpaces("b");
  }

  lemma DividedLegible()
    ensures Legible(DIVIDED, 1)
  {
    hide Shown;
    var d := DIVIDED;
    assert WellFormed(d);
    assert ScanEnd(d, 1, 5) == 5 && ScanEnd(d, 1, 4) == 5 && ScanEnd(d, 1, 3) == 5 && ScanEnd(d, 1, 2) == 5;
    assert ScanEnd(d, 2, 5) == 5 && ScanEnd(d, 2, 4) == 5 && ScanEnd(d, 2, 3) == 5;
    assert ScanEnd(d, 3, 4) == 4 && ScanEnd(d, 4, 5) == 5;
    assert End(d, 1) == 5;
    DividedShown();
    forall i | 1 <= i < 5 ensures WritableRow(MINIMAL, d, 1, i) && CanonicalData(d[i].data) {}
  }

  /** The copy of an element has no declaration at its top. */
  lemma CopyValidated(isOne: string -> bool, d: Table, c: nat)
    requires Copyable(d, c)
    ensures Copy(d, c) != [] && Validated(isOne, Copy(d, c))
  {
    hide WellFormed, CanonicalTree, PrintableTree, ReadData, Copy, End, FirstWanted;
    TopOfCopy(d, c, "xml");
    CopyRows(d, c);
    KindKept(d[c].data);
    assert Copy(d, c)[c - c + 1] == Row(0, ReadData(MINIMAL, DEFAULT, d[c].data));
  }

  /** In an accepted document a node with a short name is an element that is legible, or a declaration
    that was left open. */
  lemma NamedIsLegible(d: Table, c: nat)
    requires ParsedRows(MINIMAL, d) && c < |d| && d[c].parent >= 0 && ShortName(d, c) != ""
    ensures d[c].data.kind.Declaration? || Legible(d, c)
  {
    assert d[0].parent == -1;
    hide WellFormed, End, TextSurvives, CanonicalTree, WritableTree, IsXmlTarget;
    var k := Child(d, c, "SHORT-NAME");
    assert k > 0 && d[k].parent == c;
    ParentNotText(MINIMAL, d, k);
    assert ParsedRow(MINIMAL, d, c);
    if !d[c].data.kind.Declaration? {
      UnresolvedTextsSurvive(MINIMAL, d);
      NoDeclarations(d, c);
      ParsedIsWritable(MINIMAL, d, c);
      ParsedIsCanonical(MINIMAL, d, c);
    }
  }

  lemma NoDeclarations(d: Table, c: nat)
    requires ParsedRows(MINIMAL, d) && 0 < c < |d| && !d[c].data.kind.Declaration?
    ensures forall i | c <= i < End(d, c) :: !Hidden(d, c, i)
  {
    hide WellFormed, ParsedData, End;
    EndAfter(d, c);
    forall i | c <= i < End(d, c) ensures !d[i].data.kind.Declaration? {
      if i > c { InsideAfter(d, c, i); }
      assert ParsedRow(MINIMAL, d, i);
    }
  }

  /** The text of a declaration alone is no document. */
  lemma DeclarationRejected(isOne: string -> bool, d: Table, c: nat, deep: seq<string>)
    requires ParsedRows(MINIMAL, d) && 0 < c < |d| && d[c].data.kind.Declaration?
    ensures WellFormed(d) && Detour(isOne, d, c, deep) == Rejected
  {
    hide WellFormed, End, FirstChild, Level, RowsText, AfterRow, MarkupText, ParseContent, ReadData, Whole, IsXmlTarget;
    RowsWellFormed(d);
    var data := d[c].data;
    var s := Printed(DEFAULT, TAB, d, c);
    ParsedDeclaration(d, c);
    DeclarationText(d, c);
    if Whole(data) {
      DeclarationRead(MINIMAL, DEFAULT, data, "\n", NewDocument());
      TrailRead(MINIMAL, DEFAULT, Line, NewDocument() + [Row(0, ReadData(MINIMAL, DEFAULT, data))]);
      DeclarationKept(data);
    } else {
      DeclarationBroken(MINIMAL, DEFAULT, data, "\n", NewDocument());
    }
  }

  lemma ParsedDeclaration(d: Table, c: nat)
    requires ParsedRows(MINIMAL, d) && 0 < c < |d| && d[c].data.kind.Declaration?
    ensures PrintableData(MINIMAL, d[c].data)
  {
    hide WellFormed, IsXmlTarget;
    assert ParsedRow(MINIMAL, d, c);
  }

  lemma DeclarationKept(data: NodeData)
    requires data.kind.Declaration?
    ensures !HasElement(NewDocument() + [Row(0, ReadData(MINIMAL, DEFAULT, data))])
  {
  }

  lemma DeclarationText(d: Table, c: nat)
    requires WellFormed(d) && c < |d| && d[c].data.kind.Declaration? && PrintableData(MINIMAL, d[c].data)
    ensures var s := Printed(DEFAULT, TAB, d, c);
            s == MarkupText(DEFAULT, d[c].data) + "\n" && s[0] == '<' && NoNul(s)
  {
    hide WellFormed, End, FirstChild, AfterRow, Closings, LayoutClosed, MarkupText, Level, PrintableData;
    RowsTextStep(DEFAULT, TAB, d, c, c, IndentOnly);
    RootLevel(d, c);
    hide RowsText;
    AfterRowStep(DEFAULT, TAB, d, c, c, Line);
    ClosingStep(DEFAULT, TAB, d, c, c, Line);
    ClosedStep(d, c, c, Line);
    assert Repeat(TAB, 0) == "";
    assert "" + MarkupText(DEFAULT, d[c].data) == MarkupText(DEFAULT, d[c].data);
    assert "" + "\n" == "\n";
    DeclarationStart(d[c].data);
    NoNulRow(MINIMAL, DEFAULT, TAB, 0, IndentOnly, d[c].data, true);
    NoNulJoin(MarkupText(DEFAULT, d[c].data), "\n");
  }

  lemma DeclarationStart(data: NodeData)
    requires data.kind.Declaration?
    ensures MarkupText(DEFAULT, data) != "" && MarkupText(DEFAULT, data)[0] == '<'
  {
    hide AttributesText;
  }

  lemma NoNulJoin(s: string, t: string)
    requires NoNul(s) && NoNul(t)
    ensures NoNul(s + t)
  {
  }

  /** What the search comes to. */
  ghost function Found(isOne: string -> bool, d: Table, shallow: seq<string>, deep: seq<string>,
      filter: string): Extraction
    requires WellFormed(d)
  {
    var c := Selected(d, shallow, filter);
    if c == -1 then NotFound
    else if filter == "" then Extracted(TextOf(d, c))
    else Detour(isOne, d, c, deep)
  }

  lemma ExactIfLegible(isOne: string -> bool, d: Table, c: int, deep: seq<string>)
    requires WellFormed(d) && -1 <= c < |d|
    ensures c != -1 && Legible(d, c) ==>
              && Detour(isOne, d, c, deep) == Extracted(AsPrinted(RunValue(d, c, deep)))
              && (Detour(isOne, d, c, deep) == Extracted(DirectValue(d, c, deep))
                  <==> Plain(DEFAULT.style, false, DirectValue(d, c, deep)) && !Continued(d, c, deep))
  {
    hide WellFormed, DirectValue, RunValue, Continued, EscapedText, Legible, Plain, Detour;
    if c != -1 && Legible(d, c) { DetourExact(isOne, d, c, deep); }
  }

  /** `TryExtractDeepValue` over any document: the first node the filter selects decides. With a filter
    its value is what a second reader finds in its text, which for an element as the parser makes
    them is exactly described by `DetourExact`. */
  method TryExtractDeepValue(isOne: string -> bool, d: Table, shallow: seq<string>, deep: seq<string>, filter: string)
    returns (x: Extraction)
    requires WellFormed(d)
    ensures d != []
    ensures var c, direct := Selected(d, shallow, filter), Direct(d, shallow, deep, filter);
            && (c == -1 || filter == "" ==> x == direct)
            && (c != -1 && filter != "" ==> x == Detour(isOne, d, c, deep))
            && (c != -1 && filter != "" && Legible(d, c) ==>
                  && x == Extracted(AsPrinted(RunValue(d, c, deep)))
                  && (x == direct <==> Plain(DEFAULT.style, false, DirectValue(d, c, deep)) && !Continued(d, c, deep)))
  {
    hide End, FirstWanted, Child, OpenReader, Validated, AsPrinted, WellFormed, FirstSelected, Selected, Found, Selects,
         Direct, DirectValue, RunValue, Continued, ShortName, EscapedText, TextOf, Navigate, FirstWithParent, Legible,
         Printed, Plain, Detour;
    RootRow(d);
    var p := GetRootNode(d, shallow);
    x := NotFound;
    if p != -1 {
      SelectedAfter(d, p, filter, 0);
      FirstSelectedSkips(d, p, filter, p + 1);
      var c := FirstChild(d, p);
      while c != -1
        invariant c == -1 || (p < c < |d| && d[c].parent == p)
        invariant FirstSelected(d, p, filter, 0) == if c == -1 then -1 else FirstSelected(d, p, filter, c)
        invariant x == NotFound
        decreases if c == -1 then 0 else |d| - c
      {
        FirstSelectedHere(d, p, filter, c);
        if filter == "" {
          var value := GetText(d, c);
          x := Extracted(value);
          break;
        }
        var name := GetShortName(d, c);
        if name == filter {
          x := ReadDeep(isOne, d, c, deep);
          break;
        }
        FirstSelectedSkips(d, p, filter, c + 1);
        c := NextSibling(d, c);
      }
    }
    FoundIs(isOne, d, shallow, deep, filter, p);
    FoundExact(isOne, d, shallow, deep, filter);
  }

  lemma FoundIs(isOne: string -> bool, d: Table, shallow: seq<string>, deep: seq<string>, filter: string, p: int)
    requires WellFormed(d) && d != [] && p == Navigate(d, 0, shallow)
    ensures var c := if p == -1 then -1 else FirstSelected(d, p, filter, 0);
            Found(isOne, d, shallow, deep, filter)
            == if c == -1 then NotFound else if filter == "" then Extracted(TextOf(d, c)) else Detour(isOne, d, c, deep)
  {
    hide WellFormed, FirstSelected, Navigate, TextOf, Detour;
  }

  lemma FoundExact(isOne: string -> bool, d: Table, shallow: seq<string>, deep: seq<string>, filter: string)
    requires WellFormed(d) && d != []
    ensures var c, direct, x :=
            Selected(d, shallow, filter), Direct(d, shallow, deep, filter), Found(isOne, d, shallow, deep, filter);
            && (c == -1 || filter == "" ==> x == direct)
            && (c != -1 && filter != "" ==> x == Detour(isOne, d, c, deep))
            && (c != -1 && filter != "" && Legible(d, c) ==>
                  && x == Extracted(AsPrinted(RunValue(d, c, deep)))
                  && (x == direct <==> Plain(DEFAULT.style, false, DirectValue(d, c, deep)) && !Continued(d, c, deep)))
  {
    hide WellFormed, Selected, DirectValue, RunValue, Continued, EscapedText, TextOf, Legible, Plain, Detour;
    ExactIfLegible(isOne, d, Selected(d, shallow, filter), deep);
  }

  /** Print the node, parse the text with a second reader, navigate there. */
  method ReadDeep(isOne: string -> bool, d: Table, c: nat, deep: seq<string>) returns (x: Extraction)
    requires WellFormed(d) && c < |d|
    ensures x == Detour(isOne, d, c, deep)
  {
    hide WellFormed, End, Printed, OpenReader, TextOf, Navigate, ParsedRow;
    var content := NodeOutput(DEFAULT, TAB, d, c);
    var r := NewReader(isOne, content);
    if r.Throws? { return Rejected; }
    RowsWellFormed(r.rows);
    var n := GetRootNode(r.rows, deep);
    var value := GetText(r.rows, n);
    x := Extracted(value);
  }

  /** The whole way from the text of a file. It fails when the file is not accepted, or when what the
    filter selects is a declaration that was left open; it gives another value than direct navigation
    exactly when that value has to be written with references or is continued by another text. */
  method ExtractFromFile(isOne: string -> bool, contents: string, shallow: seq<string>, deep: seq<string>,
      filter: string) returns (x: Extraction)
    ensures OpenReader(isOne, contents).Throws? ==> x == Rejected
    ensures OpenReader(isOne, contents).Reader? ==>
              var d := OpenReader(isOne, contents).rows;
              var c, direct := Selected(d, shallow, filter), Direct(d, shallow, deep, filter);
              if c == -1 || filter == "" then x == direct
              else if d[c].data.kind.Declaration? then x == Rejected
              else x == Extracted(AsPrinted(RunValue(d, c, deep)))
                   && (x == direct <==> Plain(DEFAULT.style, false, DirectValue(d, c, deep)) && !Continued(d, c, deep))
  {
    hide OpenReader, Direct, WellFormed, Selected, RunValue, DirectValue, Plain, Continued, Legible, Detour, ParsedRow,
         ShortName, EscapedText;
    var r := NewReader(isOne, contents);
    if r.Throws? { return Rejected; }
    var d := r.rows;
    RowsWellFormed(d);
    x := TryExtractDeepValue(isOne, d, shallow, deep, filter);
    ghost var c := Selected(d, shallow, filter);
    if c != -1 && filter != "" {
      NotRoot(d, c);
      NamedIsLegible(d, c);
      if d[c].data.kind.Declaration? { DeclarationRejected(isOne, d, c, deep); }
    }
  }

  lemma NotRoot(d: Table, c: nat)
    requires WellFormed(d) && c < |d| && d[c].parent >= 0
    ensures c > 0
  {
  }
}
