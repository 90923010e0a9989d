/** Reading text into a document: `parse_tree` as a function from the text to a table of rows.

  The parser appends a row for every node it meets, under the node that is open at that moment, so
  the rows come out in document order. Elements, character data and, if asked for, declarations
  become rows; other processing instructions, comments, CDATA sections and document types are
  checked and passed over, as they are when their options are off. The buffer is zero-terminated, as
  `load_buffer` and `load_file` make it. */
module Parser {
  import opened Document
  import opened Characters
  import opened Escapes

  datatype Options = Options(escapes: bool, eol: bool, wconv: bool, spaceText: bool, fragment: bool, declaration: bool)

  datatype Status = UnrecognizedTag | BadPi | BadComment | BadCdata | BadDoctype | BadStartElement | BadAttribute
    | BadEndElement | EndElementMismatch | NoDocumentElement

  datatype Result = Parsed(rows: Table) | Failed(status: Status)

  const EmptyDocument := NodeData(DocumentNode, "", "", [])

  function NewDocument(): Table {
    [Row(-1, EmptyDocument)]
  }

  function TextRules(o: Options): Rules {
    Rules('<', if o.eol then Eol else AsIs, o.escapes)
  }

  /** `get_strconv_attribute`: converting all white space wins over converting line ends. */
  function AttributeRules(o: Options, quote: char): Rules {
    Rules(quote, if o.wconv then Blanks else if o.eol then Eol else AsIs, o.escapes)
  }

  function SkipSpaces(s: string): (r: string)
    ensures |r| <= |s| && (r != "" ==> !IsSpace(r[0]))
    ensures s != "" && IsSpace(s[0]) ==> |r| < |s|
  {
    s[Spaces(s)..]
  }

  function AfterText(s: string, stop: char): (r: string)
    ensures |r| <= |s| && (r != "" ==> r[0] == stop)
  {
    if s == "" || s[0] == stop then s else AfterText(s[1..], stop)
  }

  predicate IsTree(d: Table) {
    |d| > 0 && forall i {:trigger d[i].parent} | 0 < i < |d| :: 0 <= d[i].parent < i
  }

  // ------------------------------------------------------------------ markup that is passed over

  datatype Skip = Beyond(rest: string) | Wrong(status: Status)

  /** On to what follows `mark`. */
  function SkipPast(s: string, mark: string, status: Status): (r: Skip)
    requires mark != ""
    ensures r.Beyond? ==> |r.rest| < |s|
  {
    var n := Find(s, mark);
    if n == |s| then Wrong(status) else Beyond(s[n + |mark|..])
  }

  /** A quoted string, a processing instruction or a comment inside a document type. */
  function SkipPrimitive(s: string): (r: Skip)
    requires s != ""
    ensures r.Beyond? ==> |r.rest| < |s|
  {
    if s[0] == '"' || s[0] == '\'' then SkipPast(s[1..], [s[0]], BadDoctype)
    else if "<?" <= s then SkipPast(s[2..], "?>", BadDoctype)
    else if "<!--" <= s then SkipPast(s[4..], "-->", BadDoctype)
    else Wrong(BadDoctype)
  }

  /** Behind the start of an ignore section, `depth` sections deep. */
  function SkipIgnore(s: string, depth: nat): (r: Skip)
    ensures r.Beyond? ==> |r.rest| < |s|
  {
    if s == "" then Wrong(BadDoctype)
    else if "<![" <= s then SkipIgnore(s[3..], depth + 1)
    else if "]]>" <= s then if depth == 0 then Beyond(s[3..]) else SkipIgnore(s[3..], depth - 1)
    else SkipIgnore(s[1..], depth)
  }

  /** Inside a document type, `depth` groups deep. */
  function SkipDoctype(s: string, depth: nat): (r: Skip)
    ensures r.Beyond? ==> |r.rest| < |s|
    decreases |s|
  {
    if s == "" then Wrong(BadDoctype)
    else if "<!" <= s && !("<!-" <= s) then
      if "<![" <= s then
        match SkipIgnore(s[3..], 0)
        case Wrong(status) => Wrong(status)
        case Beyond(rest) => SkipDoctype(rest, depth)
      else SkipDoctype(s[2..], depth + 1)
    else if s[0] == '<' || s[0] == '"' || s[0] == '\'' then
      match SkipPrimitive(s)
      case Wrong(status) => Wrong(status)
      case Beyond(rest) => SkipDoctype(rest, depth)
    else if s[0] == '>' then
      if depth == 0 then Beyond(s[1..]) else SkipDoctype(s[1..], depth - 1)
    else SkipDoctype(s[1..], depth)
  }

  /** `parse_exclamation` with comments, CDATA and document types not asked for: behind `<!`. */
  function SkipExclamation(s: string, open: nat): (r: Skip)
    ensures r.Beyond? ==> |r.rest| < |s|
  {
    if "-" <= s then
      if "--" <= s then SkipPast(s[2..], "-->", BadComment) else Wrong(BadComment)
    else if "[" <= s then
      if "[CDATA[" <= s then SkipPast(s[7..], "]]>", BadCdata) else Wrong(BadCdata)
    else if "DOCTYPE" <= s then
      if open != 0 then Wrong(BadDoctype) else SkipDoctype(s, 0)
    else Wrong(UnrecognizedTag)
  }

  predicate IsXmlTarget(name: string) {
    && |name| == 3
    && (name[0] == 'x' || name[0] == 'X')
    && (name[1] == 'm' || name[1] == 'M')
    && (name[2] == 'l' || name[2] == 'L')
  }

  /** What stands behind `<?`: something to pass over, or a declaration, with attributes or without. */
  datatype Question =
    | BadQuestion
    | Passed(rest: string)
    | BareDeclaration(name: string, rest: string)
    | DeclarationTag(name: string, rest: string)

  /** `parse_question`. The question mark that ends a declaration is replaced by a slash, so that what
    is left is read like the attributes of an element. */
  function ReadQuestion(o: Options, s: string, open: nat): (r: Question)
    ensures !r.BadQuestion? ==> |r.rest| < |s|
  {
    if s == "" || !IsStartSymbol(s[0]) then BadQuestion
    else
      var n := Symbols(s);
      if n == |s| then BadQuestion
      else if IsXmlTarget(s[..n]) && o.declaration then
        if open != 0 then BadQuestion
        else if s[n] == '?' then
          if "?>" <= s[n..] then BareDeclaration(s[..n], s[n + 2..]) else BadQuestion
        else if IsSpace(s[n]) then
          var t := SkipSpaces(s[n + 1..]);
          var k := Find(t, "?>");
          if k == |t| then BadQuestion else DeclarationTag(s[..n], t[k := '/'])
        else BadQuestion
      else
        match SkipPast(s[n..], "?>", BadPi)
        case Wrong(_) => BadQuestion
        case Beyond(rest) => Passed(rest)
  }

  // ------------------------------------------------------------------ the parser

  /** The end of the text: every element must have been closed. */
  function Finish(d: Table, open: nat): Result {
    if open == 0 then Parsed(d) else Failed(EndElementMismatch)
  }

  /** Between tags, with node `open` (or the document, row 0) open. */
  function ParseContent(o: Options, s: string, d: Table, open: nat): Result
    requires IsTree(d) && open < |d|
    decreases |s|, 1
  {
    if s == "" then Finish(d, open)
    else if s[0] == '<' then ParseTag(o, s[1..], d, open)
    else
      var t := SkipSpaces(s);
      if (t == "" || t[0] == '<') && !o.spaceText then
        ParseContent(o, t, d, open)
      else if open != 0 || o.fragment then
        var (value, rest) := Decode(TextRules(o), s);
        var d' := d + [Row(open, NodeData(Pcdata, "", CString(value), []))];
        if |rest| <= 1 then Finish(d', open) else ParseTag(o, rest[1..], d', open)
      else
        var rest := AfterText(s, '<');
        if rest == "" then Finish(d, open) else ParseTag(o, rest[1..], d, open)
  }

  /** After a `<`. */
  function ParseTag(o: Options, s: string, d: Table, open: nat): Result
    requires IsTree(d) && open < |d|
    decreases |s|, 0
  {
    if s == "" then Failed(UnrecognizedTag)
    else if IsStartSymbol(s[0]) then
      var n := Symbols(s);
      var data := NodeData(Element, s[..n], "", []);
      if n == |s| then Failed(BadStartElement)
      else
        var rest := s[n + 1..];
        if s[n] == '>' then ParseContent(o, rest, d + [Row(open, data)], |d|)
        else if IsSpace(s[n]) then ParseAttributes(o, rest, d + [Row(open, data)], |d|)
        else if s[n] == '/' && rest != "" && rest[0] == '>' then ParseContent(o, rest[1..], d + [Row(open, data)], open)
        else Failed(BadStartElement)
    else if s[0] == '/' then ParseEndTag(o, s[1..], d, open)
    else if s[0] == '?' then ParseQuestion(o, s[1..], d, open)
    else if s[0] == '!' then
      match SkipExclamation(s[1..], open)
      case Wrong(status) => Failed(status)
      case Beyond(rest) => ParseContent(o, rest, d, open)
    else Failed(UnrecognizedTag)
  }

  /** After `<?`. A declaration left open by a `>` gets further attributes behind every instruction
    that is passed over in it. */
  function ParseQuestion(o: Options, s: string, d: Table, open: nat): Result
    requires IsTree(d) && open < |d|
    decreases |s|, 2
  {
    match ReadQuestion(o, s, open)
    case BadQuestion => Failed(BadPi)
    case Passed(rest) =>
      if d[open].data.kind.Declaration? && open > 0 then ParseAttributes(o, rest, d, open)
        else ParseContent(o, rest, d, open)
    case BareDeclaration(name, rest) =>
      ParseContent(o, rest, d + [Row(open, NodeData(Declaration, name, "", []))], open)
    case DeclarationTag(name, rest) =>
      ParseAttributes(o, rest, d + [Row(open, NodeData(Declaration, name, "", []))], |d|)
  }

  function ParseEndTag(o: Options, s: string, d: Table, open: nat): Result
    requires IsTree(d) && open < |d|
    decreases |s|, 2
  {
    var n := Symbols(s);
    if open == 0 || s[..n] != d[open].data.name then Failed(EndElementMismatch)
    else
      var rest := SkipSpaces(s[n..]);
      if rest == "" || rest[0] != '>' then Failed(BadEndElement)
      else ParseContent(o, rest[1..], d, d[open].parent)
  }

  function AddAttribute(d: Table, i: nat, a: Attribute): (d': Table)
    requires i < |d|
    ensures |d'| == |d| && forall k | 0 <= k < |d| :: d'[k].parent == d[k].parent
    ensures IsTree(d) ==> IsTree(d')
  {
    d[i := d[i].(data := d[i].data.(attributes := d[i].data.attributes + [a]))]
  }

  /** Inside the tag of node `node`, whose row holds the attributes read so far. */
  function ParseAttributes(o: Options, s: string, d: Table, node: nat): Result
    requires IsTree(d) && 0 < node < |d|
    decreases |s|, 2
  {
    var t := SkipSpaces(s);
    if t == "" then Failed(BadStartElement)
    else if IsStartSymbol(t[0]) then
      match ParseAttribute(o, t)
      case NoAttribute => Failed(BadAttribute)
      case OneAttribute(a, rest) => ParseAttributes(o, rest, AddAttribute(d, node, a), node)
    else if t[0] == '/' then
      if |t| > 1 && t[1] == '>' then ParseContent(o, t[2..], d, d[node].parent) else Failed(BadStartElement)
    else if t[0] == '>' then ParseContent(o, t[1..], d, node)
    else Failed(BadStartElement)
  }

  datatype AttributeResult = NoAttribute | OneAttribute(a: Attribute, rest: string)

  /** One attribute: a name, an equals sign and a quoted value that no symbol follows directly. */
  function ParseAttribute(o: Options, s: string): (r: AttributeResult)
    requires s != "" && IsStartSymbol(s[0])
    ensures r.OneAttribute? ==> |r.rest| < |s|
  {
    var n := Symbols(s);
    var t := SkipSpaces(s[n..]);
    if t == "" || t[0] != '=' then NoAttribute
    else
      var v := SkipSpaces(t[1..]);
      if v == "" || (v[0] != '"' && v[0] != '\'') then NoAttribute
      else
        var (value, rest) := Decode(AttributeRules(o, v[0]), v[1..]);
        if rest == "" || (|rest| > 1 && IsStartSymbol(rest[1])) then NoAttribute
        else OneAttribute(Attribute(s[..n], CString(value)), rest[1..])
  }

  function SkipBom(s: string): (r: string)
    ensures |r| <= |s|
  {
    if |s| >= 3 && s[0] as int == 0xEF && s[1] as int == 0xBB && s[2] as int == 0xBF then s[3..] else s
  }

  predicate HasElement(d: Table) {
    exists i | 0 < i < |d| :: d[i].parent == 0 && d[i].data.kind == Element
  }

  /** `xml_parser::parse`: a document must hold an element, a fragment need not. */
  function Parse(o: Options, contents: string): Result {
    var r := ParseContent(o, SkipBom(CString(contents)), NewDocument(), 0);
    if r.Parsed? && !o.fragment && !HasElement(r.rows) then Failed(NoDocumentElement) else r
  }
}
