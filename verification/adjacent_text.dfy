/** Character data side by side.

  A comment between two pieces of character data leaves two nodes that nothing separates. In print
  they are one text, so a document that holds such a pair prints like the document in which the pair
  is joined, and that one is what is read back. */
module AdjacentText {
  import opened Document
  import opened Characters
  import opened Escapes
  import opened Printer
  import opened Parser
  import opened RoundTrip

  // ------------------------------------------------------------------ joining one pair

  /** Where row `x` goes when row `i + 1` is taken out. */
  function Up(x: int, i: nat): int {
    if x <= i then x else x - 1
  }

  /** A row that goes to `k`. */
  function From(k: nat, i: nat): nat {
    if k <= i then k else k + 1
  }

  /** Row `i` takes over the text of row `i + 1`. */
  function JoinedRow(d: Table, i: nat, k: nat): Row
    requires i + 1 < |d| && k + 1 < |d|
  {
    if k == i then Row(d[i].parent, d[i].data.(value := d[i].data.value + d[i + 1].data.value))
    else Row(Up(d[From(k, i)].parent, i), d[From(k, i)].data)
  }

  function Join(d: Table, i: nat): (d': Table)
    requires i + 1 < |d|
    ensures |d'| == |d| - 1 && forall k | 0 <= k < |d'| :: d'[k] == JoinedRow(d, i, k)
  {
    seq(|d| - 1, k requires 0 <= k < |d| - 1 => JoinedRow(d, i, k))
  }

  /** A pair of texts without children. */
  ghost predicate Pair(d: Table, i: nat) {
    && WellFormed(d)
    && Joins(d, i)
    && End(d, i + 1) == i + 2
  }

  lemma NoChildren(d: Table, i: nat, k: nat)
    requires Pair(d, i) && k < |d|
    ensures d[k].parent != i && d[k].parent != i + 1 && d[i].parent < i && 0 < i
  {
    AboutEnd(d, i + 1);
    if k > i + 1 {
      NestedAt(d, k, i + 1);
      if d[k].parent == i + 1 { NestedAt(d, k, i + 2); }
    }
  }

  /** Row `x` of the one table is row `Up(x)` of the other. */
  lemma JoinedAt(d: Table, i: nat, x: nat)
    requires Pair(d, i) && x < |d|
    ensures var d' := Join(d, i);
            && 0 <= Up(x, i) < |d'|
            && d'[Up(x, i)].parent == Up(d[x].parent, i)
            && (x != i && x != i + 1 ==> d'[Up(x, i)].data == d[x].data)
            && d'[Up(x, i)].data.kind == d[x].data.kind
            && d'[Up(x, i)].data.name == (if x == i + 1 then d[i].data.name else d[x].data.name)
  {
    NoChildren(d, i, x);
    var k := Up(x, i);
    assert Join(d, i)[k] == JoinedRow(d, i, k);
    if x == i + 1 {
    } else {
      assert From(k, i) == x;
    }
  }

  lemma JoinedWellFormed(d: Table, i: nat)
    requires Pair(d, i)
    ensures WellFormed(Join(d, i))
  {
    var d' := Join(d, i);
    hide WellFormed;
    assert |d| > 0 && d[0].parent == -1 && d'[0].parent == -1 by { RootRow(d); JoinedAt(d, i, 0); NoChildren(d, i, 0); }
    forall k | 0 < k < |d'| ensures 0 <= d'[k].parent < k { JoinedParent(d, i, k); }
    forall k, j | 0 < j < k < |d'| ensures Nested(d', k, j) { JoinedNested(d, i, k, j); }
    assert WellFormed(d') by { IsWellFormed(d'); }
  }

  lemma RootRow(d: Table)
    requires WellFormed(d)
    ensures |d| > 0 && d[0].parent == -1 && forall k | 0 < k < |d| :: 0 <= d[k].parent < k
  {
  }

  lemma IsWellFormed(d: Table)
    requires |d| > 0 && d[0].parent == -1
    requires forall k | 0 < k < |d| :: 0 <= d[k].parent < k
    requires forall k, j | 0 < j < k < |d| :: Nested(d, k, j)
    ensures WellFormed(d)
  {
  }

  lemma JoinedParent(d: Table, i: nat, k: nat)
    requires Pair(d, i) && 0 < k < |d| - 1
    ensures 0 <= Join(d, i)[k].parent < k
  {
    hide WellFormed, Join;
    RootRow(d);
    NoChildren(d, i, From(k, i));
    JoinedAt(d, i, From(k, i));
  }

  lemma JoinedNested(d: Table, i: nat, k: nat, j: nat)
    requires Pair(d, i) && 0 < j < k < |d| - 1
    ensures Nested(Join(d, i), k, j)
  {
    hide WellFormed, Join;
    NoChildren(d, i, From(k, i));
    JoinedAt(d, i, From(k, i));
    JoinedAt(d, i, From(j, i));
    NestedAt(d, From(k, i), From(j, i));
  }

  // ------------------------------------------------------------------ subtrees and links

  /** The pair is not divided between two subtrees. */
  lemma PairTogether(d: Table, i: nat, x: nat)
    requires Pair(d, i) && x < |d| && x != i
    ensures End(d, x) != i + 1
  {
    AboutEnd(d, x);
  }

  lemma JoinedEnd(d: Table, i: nat, x: nat)
    requires Pair(d, i) && x < |d| && x != i
    ensures Up(x, i) < |d| - 1 && End(Join(d, i), Up(x, i)) == Up(End(d, x), i)
  {
    hide WellFormed, Join;
    var d', a, e := Join(d, i), Up(x, i), Up(End(d, x), i);
    AboutEnd(d, x);
    PairTogether(d, i, x);
    hide End;
    forall j | a < j < e ensures d'[j].parent >= a {
      JoinedAt(d, i, From(j, i));
      assert x < From(j, i) < End(d, x);
    }
    if End(d, x) < |d| {
      JoinedAt(d, i, End(d, x));
      NoChildren(d, i, End(d, x));
    }
    EndIs(d', a, e);
  }

  lemma EndIs(d: Table, a: nat, e: nat)
    requires a < e <= |d| && (forall j | a < j < e :: d[j].parent >= a) && (e < |d| ==> d[e].parent < a)
    ensures End(d, a) == e
  {
    ScanEndUnique(d, a, a + 1, e);
  }

  lemma LeafEnd(d: Table, x: nat)
    requires WellFormed(d) && x < |d|
    ensures IsLeaf(d, x) <==> End(d, x) == x + 1 || !(d[x].data.kind.Element? || d[x].data.kind.DocumentNode?)
  {
    FirstChildIsNextRow(d, x);
    hide WellFormed, End, FirstChild;
  }

  lemma JoinedLeaf(d: Table, i: nat, x: nat)
    requires Pair(d, i) && x < |d| && x != i
    ensures Up(x, i) < |d| - 1 && IsLeaf(Join(d, i), Up(x, i)) == IsLeaf(d, x)
  {
    hide WellFormed, Join, End, IsLeaf;
    JoinedWellFormed(d, i);
    JoinedAt(d, i, x);
    JoinedEnd(d, i, x);
    PairTogether(d, i, x);
    LeafEnd(d, x);
    LeafEnd(Join(d, i), Up(x, i));
    EndGrows(d, x);
  }

  lemma EndGrows(d: Table, x: nat)
    requires x < |d|
    ensures x < End(d, x) <= |d|
  {
  }

  lemma HasNext(d: Table, x: nat)
    requires WellFormed(d) && x < |d|
    ensures NextSibling(d, x) != -1 <==> x > 0 && End(d, x) < |d| && d[End(d, x)].parent == d[x].parent
  {
    NextSiblingIsEnd(d, x);
    if x > 0 { NoneBeforeFirst(d, d[x].parent, x + 1); }
  }

  lemma JoinedNext(d: Table, i: nat, x: nat)
    requires Pair(d, i) && x < |d| && x != i
    ensures Up(x, i) < |d| - 1 && (NextSibling(Join(d, i), Up(x, i)) == -1 <==> NextSibling(d, x) == -1)
  {
    hide WellFormed, Join, End, NextSibling;
    JoinedWellFormed(d, i);
    JoinedAt(d, i, x);
    JoinedEnd(d, i, x);
    PairTogether(d, i, x);
    EndGrows(d, x);
    HasNext(d, x);
    HasNext(Join(d, i), Up(x, i));
    NoChildren(d, i, x);
    if End(d, x) < |d| {
      JoinedAt(d, i, End(d, x));
      NoChildren(d, i, End(d, x));
    }
  }

  // ------------------------------------------------------------------ the same text

  /** A subtree that holds the pair below its root. */
  ghost predicate PairIn(d: Table, r: nat, i: nat) {
    Pair(d, i) && r < i && i + 1 < End(d, r)
  }

  lemma JoinedIn(d: Table, r: nat, i: nat, x: nat)
    requires PairIn(d, r, i) && r <= x < End(d, r)
    ensures WellFormed(Join(d, i)) && Up(r, i) == r < |d| - 1
    ensures End(Join(d, i), r) == End(d, r) - 1 && r <= Up(x, i) < End(d, r) - 1
  {
    hide WellFormed, Join, End;
    EndGrows(d, r);
    JoinedWellFormed(d, i);
    JoinedEnd(d, i, r);
  }

  lemma LevelStep(d: Table, r: nat, x: nat)
    requires WellFormed(d) && r < |d| && r <= x < End(d, r)
    ensures x == r ==> Level(d, r, x) == 0
    ensures x > r ==> r <= d[x].parent < x && d[x].parent < End(d, r)
                      && Level(d, r, x) == Level(d, r, d[x].parent)
                         + (if d[d[x].parent].data.kind.Element? then 1 else 0)
  {
    if x > r { SubtreeNested(d, r, x); }
  }

  lemma {:induction false} JoinedLevel(d: Table, r: nat, i: nat, x: nat)
    requires PairIn(d, r, i) && r <= x < End(d, r)
    ensures WellFormed(Join(d, i)) && r < |d| - 1 && r <= Up(x, i) < End(Join(d, i), r)
    ensures Level(Join(d, i), r, Up(x, i)) == Level(d, r, x)
    decreases x
  {
    hide WellFormed, Join, End, Level;
    JoinedIn(d, r, i, x);
    JoinedAt(d, i, x);
    LevelStep(d, r, x);
    LevelStep(Join(d, i), r, Up(x, i));
    if x > r {
      NoChildren(d, i, x);
      JoinedLevel(d, r, i, d[x].parent);
      JoinedAt(d, i, d[x].parent);
    }
  }

  lemma ClosedStep(d: Table, r: nat, x: nat, layout: Layout)
    requires WellFormed(d) && r < |d| && r <= x < End(d, r)
    ensures x == r || NextSibling(d, x) != -1 ==> LayoutClosed(d, r, x, layout) == layout
    ensures x > r && NextSibling(d, x) == -1 ==>
              && r <= d[x].parent < x && d[x].parent < End(d, r)
              && LayoutClosed(d, r, x, layout)
                 == LayoutClosed(d, r, d[x].parent, if d[d[x].parent].data.kind.Element? then Line else layout)
  {
    hide WellFormed, End, NextSibling;
    if x > r { SubtreeNested(d, r, x); }
  }

  lemma ClosingStep(fmt: Format, indent: string, d: Table, r: nat, x: nat, layout: Layout)
    requires WellFormed(d) && r < |d| && r <= x < End(d, r)
    ensures x == r || NextSibling(d, x) != -1 ==> Closings(fmt, indent, d, r, x, layout) == ""
    ensures x > r && NextSibling(d, x) == -1 ==>
              && r <= d[x].parent < x && d[x].parent < End(d, r)
              && Closings(fmt, indent, d, r, x, layout)
                 == if d[d[x].parent].data.kind.Element? then
                      (Lead(fmt, indent, layout, Level(d, r, d[x].parent)) + EndTag(d[d[x].parent].data.name))
                        + Closings(fmt, indent, d, r, d[x].parent, Line)
                    else Closings(fmt, indent, d, r, d[x].parent, layout)
  {
    hide WellFormed, End, NextSibling, Level, Lead, EndTag;
    if x > r { SubtreeNested(d, r, x); }
  }

  lemma {:induction false} JoinedClosings(fmt: Format, indent: string, d: Table, r: nat, i: nat, x: nat, layout: Layout)
    requires PairIn(d, r, i) && r <= x < End(d, r) && x != i
    ensures WellFormed(Join(d, i)) && r < |d| - 1 && r <= Up(x, i) < End(Join(d, i), r)
    ensures Closings(fmt, indent, Join(d, i), r, Up(x, i), layout) == Closings(fmt, indent, d, r, x, layout)
    ensures LayoutClosed(Join(d, i), r, Up(x, i), layout) == LayoutClosed(d, r, x, layout)
    decreases x
  {
    hide WellFormed, Join, End, Level, NextSibling, Closings, LayoutClosed, Lead, EndTag;
    JoinedIn(d, r, i, x);
    JoinedAt(d, i, x);
    JoinedNext(d, i, x);
    ClosedStep(d, r, x, layout);
    ClosedStep(Join(d, i), r, Up(x, i), layout);
    ClosingStep(fmt, indent, d, r, x, layout);
    ClosingStep(fmt, indent, Join(d, i), r, Up(x, i), layout);
    if x > r && NextSibling(d, x) == -1 {
      var p := d[x].parent;
      NoChildren(d, i, x);
      JoinedAt(d, i, p);
      JoinedLevel(d, r, i, p);
      JoinedClosings(fmt, indent, d, r, i, p, if d[p].data.kind.Element? then Line else layout);
    }
  }

  /** What follows a row whose subtree is done. */
  lemma {:induction false} JoinedAfter(fmt: Format, indent: string, d: Table, r: nat, i: nat, x: nat, layout: Layout)
    requires PairIn(d, r, i) && r <= x < End(d, r) && x != i
    ensures WellFormed(Join(d, i)) && r < |d| - 1 && r <= Up(x, i) < End(Join(d, i), r)
    ensures AfterRow(fmt, indent, Join(d, i), r, Up(x, i), layout) == AfterRow(fmt, indent, d, r, x, layout)
    decreases |d| - x, 0
  {
    hide WellFormed, Join, End, Closings, LayoutClosed, RowsText, AfterRow, Trail;
    var closed := LayoutClosed(d, r, x, layout);
    JoinedIn(d, r, i, x);
    JoinedEnd(d, i, x);
    PairTogether(d, i, x);
    EndGrows(d, x);
    SubtreeNested(d, r, x);
    JoinedClosings(fmt, indent, d, r, i, x, layout);
    AfterRowStep(fmt, indent, d, r, x, layout);
    AfterRowStep(fmt, indent, Join(d, i), r, Up(x, i), layout);
    if End(d, x) < End(d, r) { JoinedRows(fmt, indent, d, r, i, End(d, x), closed); }
  }

  /** From every row on, except the one that is taken out, the text is the same. */
  lemma {:induction false} JoinedRows(fmt: Format, indent: string, d: Table, r: nat, i: nat, x: nat, layout: Layout)
    requires PairIn(d, r, i) && r <= x < End(d, r) && x != i + 1
    ensures WellFormed(Join(d, i)) && r < |d| - 1 && r <= Up(x, i) < End(Join(d, i), r)
    ensures RowsText(fmt, indent, Join(d, i), r, Up(x, i), layout) == RowsText(fmt, indent, d, r, x, layout)
    decreases |d| - x, 1
  {
    hide WellFormed, Join, End, Level, RowText, RowsText, AfterRow, IsLeaf;
    if x == i {
      JoinedPair(fmt, indent, d, r, i, layout);
    } else {
      JoinedIn(d, r, i, x);
      JoinedAt(d, i, x);
      JoinedLeaf(d, i, x);
      JoinedLevel(d, r, i, x);
      RowsTextStep(fmt, indent, d, r, x, layout);
      RowsTextStep(fmt, indent, Join(d, i), r, Up(x, i), layout);
      var after := LayoutAfter(d[x].data.kind);
      if IsLeaf(d, x) {
        JoinedAfter(fmt, indent, d, r, i, x, after);
      } else {
        JoinedRows(fmt, indent, d, r, i, x + 1, after);
      }
    }
  }

  lemma TextText(fmt: Format, indent: string, d: Table, r: nat, x: nat, layout: Layout)
    requires WellFormed(d) && r < |d| && r <= x < End(d, r) && d[x].data.kind.Pcdata?
    ensures RowsText(fmt, indent, d, r, x, layout)
            == EscapedText(fmt.style, false, d[x].data.value) + AfterRow(fmt, indent, d, r, x, Flat)
  {
    hide WellFormed, End, Level, RowsText, AfterRow, EscapedText;
    RowsTextStep(fmt, indent, d, r, x, layout);
  }

  /** The pair itself: two texts side by side, or one. */
  lemma {:induction false} JoinedPair(fmt: Format, indent: string, d: Table, r: nat, i: nat, layout: Layout)
    requires PairIn(d, r, i)
    ensures WellFormed(Join(d, i)) && r < |d| - 1 && r <= i < End(Join(d, i), r)
    ensures RowsText(fmt, indent, Join(d, i), r, i, layout) == RowsText(fmt, indent, d, r, i, layout)
    decreases |d| - i, 0
  {
    hide WellFormed, Join, End, Closings, LayoutClosed, RowsText, AfterRow, EscapedText;
    var d' := Join(d, i);
    JoinedIn(d, r, i, i + 1);
    TextText(fmt, indent, d, r, i, layout);
    TextText(fmt, indent, d, r, i + 1, Flat);
    assert d'[i] == JoinedRow(d, i, i) by { JoinedRowAt(d, i, i); }
    TextText(fmt, indent, d', r, i, layout);
    JoinedAfter(fmt, indent, d, r, i, i + 1, Flat);
    PairNext(d, i);
    AfterRowStep(fmt, indent, d, r, i, Flat);
    ClosingStep(fmt, indent, d, r, i, Flat);
    ClosedStep(d, r, i, Flat);
    var v, w, after := d[i].data.value, d[i + 1].data.value, AfterRow(fmt, indent, d, r, i + 1, Flat);
    EscapedJoined(fmt.style, false, v, w);
    Regroup(EscapedText(fmt.style, false, v), EscapedText(fmt.style, false, w), after);
    assert "" + RowsText(fmt, indent, d, r, i + 1, Flat) == RowsText(fmt, indent, d, r, i + 1, Flat);
  }

  lemma JoinedRowAt(d: Table, i: nat, k: nat)
    requires i + 1 < |d| && k + 1 < |d|
    ensures Join(d, i)[k] == JoinedRow(d, i, k)
  {
  }

  lemma PairNext(d: Table, i: nat)
    requires Pair(d, i)
    ensures End(d, i) == i + 1 && NextSibling(d, i) == i + 1
  {
    NoChildren(d, i, i + 1);
    EndIs(d, i, i + 1);
    HasNext(d, i);
    NextSiblingIsEnd(d, i);
  }

  /** A tree and the one in which a pair is joined have the same text. */
  lemma JoinPrinted(fmt: Format, indent: string, d: Table, r: nat, i: nat)
    requires PairIn(d, r, i)
    ensures WellFormed(Join(d, i)) && r < |d| - 1
    ensures Printed(fmt, indent, Join(d, i), r) == Printed(fmt, indent, d, r)
  {
    hide WellFormed, Join, End, RowsText;
    EndGrows(d, r);
    JoinedRows(fmt, indent, d, r, i, r, IndentOnly);
  }

  // ------------------------------------------------------------------ joining every pair

  /** Two texts side by side that are printed are a pair. */
  lemma JoinsIsPair(o: Options, d: Table, r: nat, i: nat)
    requires WellFormed(d) && r < |d| && WritableTree(o, d, r) && r <= i < End(d, r) && Joins(d, i) && !Hidden(d, r, i)
    ensures PairIn(d, r, i)
  {
    hide WellFormed, End, PrintableData, Hidden;
    assert WritableRow(o, d, r, i);
    PairEnd(d, r, i);
    BesideVisible(d, r, i);
    assert WritableRow(o, d, r, i + 1);
  }

  lemma PairEnd(d: Table, r: nat, i: nat)
    requires WellFormed(d) && r < |d| && r < i < End(d, r) && Joins(d, i)
    ensures i + 1 < End(d, r)
  {
    AboutEnd(d, r);
  }

  /** The texts of a pair are both inside a declaration, or neither. */
  lemma BesideVisible(d: Table, r: nat, i: nat)
    requires WellFormed(d) && Joins(d, i)
    ensures Hidden(d, r, i + 1) ==> Hidden(d, r, i)
  {
  }

  lemma JoinedHidden(d: Table, r: nat, i: nat, k: nat)
    requires PairIn(d, r, i) && r <= k < End(d, r) - 1
    ensures Hidden(Join(d, i), r, k) <==> Hidden(d, r, From(k, i))
  {
    hide WellFormed, End, Join;
    EndGrows(d, r);
    if Hidden(Join(d, i), r, k) {
      var j: nat :| r <= j < k && j < |d| - 1 && Join(d, i)[j].data.kind.Declaration? && k < End(Join(d, i), j);
      HiddenJoined(d, r, i, From(j, i), k);
    }
    if Hidden(d, r, From(k, i)) {
      var x: nat :| r <= x < From(k, i) && x < |d| && d[x].data.kind.Declaration? && From(k, i) < End(d, x);
      HiddenJoined(d, r, i, x, k);
    }
  }

  /** Declaration `x` holds what goes to row `k` if and only if it holds row `k` afterwards. */
  lemma HiddenJoined(d: Table, r: nat, i: nat, x: nat, k: nat)
    requires PairIn(d, r, i) && r <= x < From(k, i) && From(k, i) < |d|
    ensures Up(x, i) < |d| - 1 && Join(d, i)[Up(x, i)].data.kind == d[x].data.kind
    ensures d[x].data.kind.Declaration? ==>
              Up(x, i) < k && (From(k, i) < End(d, x) <==> k < End(Join(d, i), Up(x, i)))
  {
    hide WellFormed, End, Join;
    JoinedAt(d, i, x);
    if d[x].data.kind.Declaration? {
      JoinedEnd(d, i, x);
      PairTogether(d, i, x);
    }
  }

  lemma JoinedRowWritable(o: Options, d: Table, r: nat, i: nat, k: nat)
    requires PairIn(d, r, i) && WritableTree(o, d, r) && r <= k < End(d, r) - 1 && !Hidden(d, r, From(k, i))
    ensures WellFormed(Join(d, i)) && r < |d| - 1 && k < |d| - 1 && WritableRow(o, Join(d, i), r, k)
  {
    hide WellFormed, End, Join, Hidden, PrintableName, PrintableDeclaration, PrintableAttributes;
    EndGrows(d, r);
    JoinedWellFormed(d, i);
    JoinedRowAt(d, i, k);
    BesideVisible(d, r, i);
    assert WritableRow(o, d, r, From(k, i));
    JoinedAt(d, i, r);
    NoChildren(d, i, From(k, i));
    if k == i {
      assert WritableRow(o, d, r, i + 1);
      JoinedEnd(d, i, i + 1);
    } else {
      JoinedEnd(d, i, From(k, i));
    }
  }

  lemma JoinedWritable(o: Options, d: Table, r: nat, i: nat)
    requires PairIn(d, r, i) && WritableTree(o, d, r)
    ensures WellFormed(Join(d, i)) && r < |d| - 1 && WritableTree(o, Join(d, i), r)
  {
    hide WellFormed, End, Join, WritableRow, Hidden;
    JoinedIn(d, r, i, r);
    EndGrows(d, r);
    forall k | r <= k < End(Join(d, i), r) ensures Hidden(Join(d, i), r, k) || WritableRow(o, Join(d, i), r, k) {
      JoinedHidden(d, r, i, k);
      if !Hidden(d, r, From(k, i)) { JoinedRowWritable(o, d, r, i, k); }
    }
  }

  lemma JoinedSurvives(o: Options, v: string, w: string)
    requires TextSurvives(o, v) && TextSurvives(o, w)
    ensures TextSurvives(o, v + w)
  {
    if !o.spaceText {
      var k :| 0 <= k < |v| && !IsSpace(v[k]);
      assert (v + w)[k] == v[k];
    }
  }

  lemma JoinedShown(o: Options, d: Table, r: nat, i: nat)
    requires PairIn(d, r, i) && AllShown(o, d, r)
    ensures r < |d| - 1 && AllShown(o, Join(d, i), r)
  {
    hide WellFormed, End, Join, TextSurvives, Hidden;
    JoinedIn(d, r, i, r);
    EndGrows(d, r);
    forall k | r <= k < End(Join(d, i), r) ensures Shown(o, Join(d, i), r, k) {
      JoinedHidden(d, r, i, k);
      JoinedRowAt(d, i, k);
      assert Shown(o, d, r, From(k, i)) && Shown(o, d, r, i) && Shown(o, d, r, i + 1);
      if k == i { JoinedSurvives(o, d[i].data.value, d[i + 1].data.value); }
    }
  }

  lemma JoinedCanonical(d: Table, r: nat, i: nat)
    requires PairIn(d, r, i) && CanonicalTree(d, r)
    ensures r < |d| - 1 && CanonicalTree(Join(d, i), r)
  {
    hide WellFormed, End, Join;
    JoinedIn(d, r, i, r);
    EndGrows(d, r);
    forall k | r <= k < End(Join(d, i), r) ensures CanonicalData(Join(d, i)[k].data) {
      JoinedRowAt(d, i, k);
      assert CanonicalData(d[i].data) && CanonicalData(d[From(k, i)].data);
    }
  }

  ghost predicate HasPair(d: Table, r: nat) {
    exists i: nat :: PairIn(d, r, i)
  }

  ghost function SomePair(d: Table, r: nat): (i: nat)
    requires HasPair(d, r)
    ensures PairIn(d, r, i) && i + 1 < |d|
  {
    var i: nat :| PairIn(d, r, i);
    i
  }

  /** The subtree of `r` with every pair joined. */
  ghost function Solid(d: Table, r: nat): (s: Table)
    requires WellFormed(d) && r < |d|
    ensures WellFormed(s) && r < |s| <= |d|
    ensures !HasPair(s, r)
    decreases |d|
  {
    if HasPair(d, r) then JoinedIn(d, r, SomePair(d, r), r); Solid(Join(d, SomePair(d, r)), r) else d
  }

  lemma {:induction false} SolidPrinted(fmt: Format, indent: string, d: Table, r: nat)
    requires WellFormed(d) && r < |d|
    ensures Printed(fmt, indent, Solid(d, r), r) == Printed(fmt, indent, d, r)
    decreases |d|
  {
    hide WellFormed, Printed, Join, PairIn, HasPair;
    if HasPair(d, r) {
      JoinPrinted(fmt, indent, d, r, SomePair(d, r));
      SolidPrinted(fmt, indent, Join(d, SomePair(d, r)), r);
    }
  }

  /** Where no text stands beside another one, nothing changes; else rows are lost. */
  lemma {:induction false} SolidSize(d: Table, r: nat)
    requires WellFormed(d) && r < |d|
    ensures HasPair(d, r) ==> |Solid(d, r)| < |d|
    ensures !HasPair(d, r) ==> Solid(d, r) == d
  {
    hide WellFormed, Join, PairIn, HasPair;
    if HasPair(d, r) { JoinedIn(d, r, SomePair(d, r), r); }
  }

  lemma {:induction false} SolidRoot(d: Table, r: nat)
    requires WellFormed(d) && r < |d|
    ensures Solid(d, r)[r].data == d[r].data
    decreases |d|
  {
    hide WellFormed, Join;
    if HasPair(d, r) {
      var i := SomePair(d, r);
      JoinedIn(d, r, i, r);
      JoinedAt(d, i, r);
      SolidRoot(Join(d, i), r);
    }
  }

  lemma {:induction false} SolidWritable(o: Options, d: Table, r: nat)
    requires WellFormed(d) && r < |d| && WritableTree(o, d, r)
    ensures WritableTree(o, Solid(d, r), r)
    decreases |d|
  {
    hide WellFormed, Join, PairIn, HasPair, WritableTree;
    if HasPair(d, r) {
      JoinedWritable(o, d, r, SomePair(d, r));
      SolidWritable(o, Join(d, SomePair(d, r)), r);
    }
  }

  lemma {:induction false} SolidShown(o: Options, d: Table, r: nat)
    requires WellFormed(d) && r < |d| && AllShown(o, d, r)
    ensures AllShown(o, Solid(d, r), r)
    decreases |d|
  {
    hide WellFormed, Join, PairIn, HasPair, AllShown;
    if HasPair(d, r) {
      JoinedIn(d, r, SomePair(d, r), r);
      JoinedShown(o, d, r, SomePair(d, r));
      SolidShown(o, Join(d, SomePair(d, r)), r);
    }
  }

  lemma {:induction false} SolidCanonical(d: Table, r: nat)
    requires WellFormed(d) && r < |d| && CanonicalTree(d, r)
    ensures CanonicalTree(Solid(d, r), r)
    decreases |d|
  {
    hide WellFormed, Join, PairIn, HasPair, CanonicalTree;
    if HasPair(d, r) {
      JoinedCanonical(d, r, SomePair(d, r));
      JoinedIn(d, r, SomePair(d, r), r);
      SolidCanonical(Join(d, SomePair(d, r)), r);
    }
  }

  /** A writable tree without pairs can be told from its text. */
  lemma SolidPrintable(o: Options, d: Table, r: nat)
    requires WellFormed(d) && r < |d| && WritableTree(o, d, r) && !HasPair(d, r)
    ensures PrintableTree(o, d, r)
  {
    hide WellFormed, End, WritableRow, Hidden;
    forall i | r <= i < End(d, r) && !Hidden(d, r, i) ensures PrintableRow(o, d, r, i) {
      assert WritableRow(o, d, r, i);
      if Joins(d, i) { JoinsIsPair(o, d, r, i); }
    }
  }

  /** Printing joins what stands side by side: the text of a tree is read back as the tree in which
    every pair is joined, without the nodes that leave no trace. */
  lemma JoinedRead(o: Options, fmt: Format, indent: string, d: Table, r: nat)
    requires WellFormed(d) && r < |d| && WritableTree(o, d, r) && ReadableFormat(o, fmt, indent)
    ensures PrintableTree(o, Solid(d, r), r)
    ensures var s := Solid(d, r);
            ParseContent(o, Printed(fmt, indent, d, r), NewDocument(), 0)
            == if forall i | r <= i < End(s, r) :: Hidden(s, r, i) || Whole(s[i].data)
               then Parsed(Rebuilt(o, fmt, s, r, End(s, r)))
               else Failed(BadStartElement)
  {
    hide WellFormed, End, WritableTree, HasPair, PrintableTree, Printed, ParseContent, ReadableFormat, Rebuilt, Solid,
         Whole, Hidden;
    SolidWritable(o, d, r);
    SolidPrintable(o, Solid(d, r), r);
    SolidPrinted(fmt, indent, d, r);
    PrintedRead(o, fmt, indent, Solid(d, r), r);
  }
}
