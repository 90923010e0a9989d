# The XML engine, the ARXML reader and the package transfer, verified

This project models the parts of the repository that every manifest and every software package passes
through, and proves what they promise:

- **XPath** (`document`, `axes`, `document_order`, `sorting`, `arithmetic`, `hashing`, `node_sets`, `xpath`,
  `xpath_optimizer`, `xpath_evaluator`, `precedence`). `xpath` gives queries a meaning on sets of nodes,
  with no order flags and no evaluation modes. The evaluator, with its iterative axis walks, order-flagged
  node sets and early exits, and the optimizer are both proved against that meaning; `SelectNodes`,
  `SelectNode` and `Test` put the two together. `precedence` is the operator parser, with an exact account of
  its depth limit.
- **Parser and printer** (`characters`, `escapes`, `printer`, `parser`, `round_trip`, `adjacent_text`,
  `parsed_document`, `in_place`, `in_place_parser`). `parser` is the parser as a function from text to a table
  of rows: elements, character data and declarations become rows; comments, instructions, CDATA sections and
  document types are checked and passed over. `in_place_parser` is the parser as it runs, over a
  zero-terminated buffer that it rewrites with the help of the gap object, and agrees with the function for
  every contents. Printing and parsing are inverse exactly under conditions a caller can check.
- **Reader** (`arxml_reader`). Opening a reader with its version check, navigation, and the detour of
  `TryExtractDeepValue`: print a node, parse the text again, navigate the result.
- **Pointer structures** (`dom`, `dom_table`, `tree_copy`, `allocator`). Child lists with cyclic previous
  links, additions, moves and removals, the copy of a tree even into itself, and the page allocator with its
  counters; `Dom.EditAll` and `Allocator.Run` are about any run of edits and any run of allocations and frees.
- **Arithmetic and text output** (`integers`, `buffered_writer`). Saturating integer parsing, and transcoding
  through a bounded buffer.
- **Package transfer** (`wire_codec`, `package_calls`, `package_management`, `package_answers`,
  `package_transfer`). The wire codec of the package management service, the proxy and the skeleton around the
  package manager, whose answer each call of a run gets, and the loop that sends a package in numbered blocks.

A document is a table of rows in document order, each naming its parent (`Document.WellFormed`); the link
fields the walks follow are functions of that table, and `DomTable.LinkedTreeIsTable` shows that these are the
link fields of the pointer tree listed in that order. Code that changes things in place is modelled in place:
arrays for sorting, hashing, compaction, in-place decoding and buffers; classes for DOM nodes, allocator pages,
the XPath parser, the buffered writer, messages, package manager, skeleton and proxy. Each such method is
tied to a function or an invariant, and the properties are proved about these.

Where the model takes something as a parameter: the arithmetic and the string conversions of doubles
(`XPath.Env`), where nodes are stored, what each `read` returns, what becomes of each message on the network
(`PackageManagement.Link`), and what the file system, the storage and the activation steps answer
(`PackageManagement.World`).

Places where the code does something its surroundings do not suggest; the model follows the code:

- The package manager's interface says block counters start at 0. The update manager starts at 1, and the
  package manager does not look at the counter.
- The proxy takes the next reply that comes for the answer to the call it waits for. After a call that timed
  out, a later one can therefore get an answer that is not its own (`PackageAnswers.LateStart`);
  `PackageAnswers.OwnAnswersExact` says when a caller can rely on the answers. A run of the update manager ends
  with the first call that gets none.
- The depth limit of the XPath parser bounds the height of the tree it builds only quadratically: at a limit of
  m, trees of height 2 + m(m-1)/2 and no higher are accepted (`Precedence.HeightWithinLimit`,
  `Precedence.HeightReached`). `Precedence.WhenHeightIsLimited` says which queries stay within the limit itself.
- The first `?>` behind a declaration's name ends it, even inside a value, and `>` alone leaves the declaration
  open as if it were an element. A printed declaration with `?>` in a value is therefore not read back
  (`RoundTrip.DeclarationBroken`), and a node selected by its short name can be a declaration
  (`ArxmlReader.DeclarationRejected`).
- The detour of `TryExtractDeepValue` does not always return the value in the document: a reference in it comes
  back with its ampersand escaped, and a comment in it divides it in the document but not in the text printed
  (`ArxmlReader.DetourExact` is the exact condition).
- In a node set of at most two nodes, or a sorted one, duplicate removal keeps null nodes
  (`NodeSets.RemoveDuplicates` says exactly when its result is the first occurrences). No node set of the
  evaluator holds one.

## Model

| member | source | states |
|---|---|---|
| XPath.OrderedListingUnique | src/arxml/pugixml.cpp:8288-8329 | two listings in document order of the same set are the same listing |
| XPathOptimizer.OptimizeSame | src/arxml/pugixml.cpp:11166-11244 | for every well-typed query, document and context, the rewritten query selects the same set of nodes and has the same boolean, number and string value as the query as written |
| XPathOptimizer.OptimizeKeepsTypes | src/arxml/pugixml.cpp:11192-11203 | the pass keeps the type of every query, and every predicate class it attaches (position-invariant, constant, constant one) is true of its predicate |
| XPathOptimizer.StripPositionSame | src/arxml/pugixml.cpp:11183-11190 | `[position()=e]` and `[e]` keep the same nodes at every position of every list, for a number `e` |
| XPathOptimizer.PositionFree | src/arxml/pugixml.cpp:11246-11275 | an expression the position-invariance test accepts has the same value at every position and size |
| XPathOptimizer.KeepInvariant | src/arxml/pugixml.cpp:11246-11290 | a predicate classed position-invariant keeps a node or not whatever list it stands in |
| XPathOptimizer.FusedTreeAxis | src/arxml/pugixml.cpp:11205-11219 | a node is reached by `descendant-or-self` and then one of the four axes exactly if it is reached by the one fused axis |
| XPathOptimizer.FusedStepSame | src/arxml/pugixml.cpp:11205-11219 | fusing `descendant-or-self::node()` into the next step selects the same set, predicates included |
| XPathOptimizer.AttributeComparisonSame | src/arxml/pugixml.cpp:11235-11243 | `@name = 'value'` holds exactly if the attribute looked up by the shortcut has that value |
| XPathOptimizer.FillTableValue | src/arxml/pugixml.cpp:8725-8755 | what the table generator stores for each of the 128 ASCII characters: the first occurrence wins, and a character beyond the second string is dropped |
| XPathOptimizer.TableExists | src/arxml/pugixml.cpp:8725-8755 | there is a table exactly if every character that is looked at is ASCII |
| XPathOptimizer.TranslateTableAgrees | src/arxml/pugixml.cpp:8725-8785 | translating any text by the generated table is translating it by the two strings |
| XPathOptimizer.OptimizeTranslateSame | src/arxml/pugixml.cpp:11221-11233 | replacing `translate()` with constant strings by the table lookup changes no value |
| Axes.NextInPreorder | src/arxml/pugixml.cpp:10113-10143 | down to the first child, else up to the next sibling of an ancestor, is the next node of the document order, and stops exactly at the end of the subtree |
| Axes.WalkDescendants | src/arxml/pugixml.cpp:10113-10143 | the descendant walks list exactly the matching nodes of the subtree in document order, or the first of them under early exit |
| Axes.WalkSiblings | src/arxml/pugixml.cpp:10104-10152 | the child and following-sibling chains list exactly the matching siblings from their start in document order |
| Axes.StepBack | src/arxml/pugixml.cpp:10154-10161 | the test on the cyclic previous link tells a first child from the others, and leads to the previous sibling |
| Axes.WalkPrecedingSiblings | src/arxml/pugixml.cpp:10154-10161 | the preceding-sibling chain lists exactly the matching earlier siblings in reverse order |
| Axes.WalkFollowing | src/arxml/pugixml.cpp:10163-10198 | the following walk lists exactly the matching nodes after the subtree, in document order |
| Axes.WalkFollowingAttribute | src/arxml/pugixml.cpp:10317-10342 | from an attribute the following walk starts right after its element's start tag |
| Axes.ExitBackwards | src/arxml/pugixml.cpp:10200-10212 | leaving a node backwards ends at the nearest earlier sibling of it or of an ancestor, and skips nothing but ancestors |
| Axes.WalkPreceding | src/arxml/pugixml.cpp:10200-10240 | the preceding walk lists exactly the matching earlier nodes that are no ancestors, in reverse document order |
| Axes.WalkAncestors | src/arxml/pugixml.cpp:10242-10260 | the ancestor walks list exactly the matching ancestors, nearest first |
| Axes.WalkAttributes | src/arxml/pugixml.cpp:10095-10102 | the attribute chain: all matching attributes in order, or the first of them under early exit |
| Axes.StepFill | src/arxml/pugixml.cpp:10089-10372 | for every axis, node test, start node (tree node or attribute) and early-exit flag the walk returns everything on the axis in axis order, or the first of it; every walk terminates |
| Axes.ReachedOnce | src/arxml/pugixml.cpp:10093-10102 | under the early exit the evaluator asks for with a name test, an element with several attributes of one name gives the first of them, as the meaning of the step says |
| DocumentOrder.AxisNodesOrdered | src/arxml/pugixml.cpp:10089-10280 | forward axes come out in document order and reverse axes in reverse document order, without duplicates |
| DocumentOrder.AxesPartitionDocument | src/arxml/pugixml.cpp:10089-10280 | self, ancestor, descendant, following and preceding partition the document (section 2.2 of XPath 1.0) |
| DocumentOrder.TreeAxisMembers | src/arxml/pugixml.cpp:10089-10280 | a node is listed by a walk exactly if it lies on the declared axis and passes the node test |
| DocumentOrder.OrderOfSeparateSubtrees | src/arxml/pugixml.cpp:8197-8238 | climbing two nodes to different nodes of one depth does not change which of them comes first |
| DocumentOrder.NodeIsBeforeSibling | src/arxml/pugixml.cpp:8173-8195 | the two-sided scan of the sibling chains decides the order of two siblings |
| DocumentOrder.NodeIsBefore | src/arxml/pugixml.cpp:8197-8238 | the lockstep climb, with the deeper node lifted when the chains differ in length, decides document order at any two depths |
| DocumentOrder.Before | src/arxml/pugixml.cpp:8288-8329 | the slow path of the comparator is preorder position on distinct items, attributes included |
| DocumentOrder.PrecedesIsStrictTotal | src/arxml/pugixml.cpp:8288-8329 | that order is irreflexive, transitive and total |
| DocumentOrder.AttributesBetweenElementAndChildren | src/arxml/pugixml.cpp:8288-8329 | an attribute comes after its element and before everything inside the element |
| Document.SubtreeIsInterval | src/arxml/pugixml.cpp:10113-10143 | the subtree of a node is an interval of the document order |
| Document.PrevSiblingLeadsBack | src/arxml/pugixml.cpp:10154-10161 | a node whose previous link leads to a node with a next sibling is not first, and the link is its previous sibling |
| Sorting.Insert | src/arxml/pugixml.cpp:7618-7638 | one round of insertion sort extends the sorted part by one element and only rearranges |
| Sorting.InsertionSort | src/arxml/pugixml.cpp:7618-7638 | the range ends up sorted, a rearrangement of itself, with nothing else touched |
| Sorting.PartitionGroups | src/arxml/pugixml.cpp:7652-7666 | the first loop groups the range into equal, less and greater than the pivot |
| Sorting.Partition3 | src/arxml/pugixml.cpp:7652-7677 | the range ends up as less, equal, greater than the pivot, a rearrangement of itself |
| Sorting.Sort | src/arxml/pugixml.cpp:7679-7707 | for any strict total order the range ends up a sorted rearrangement of itself, and the nesting of recursive calls is at most the binary logarithm of the length |
| Sorting.SortedRight | src/arxml/pugixml.cpp:7689-7703 | a round that recursed on the right side leaves everything outside the remaining range finished |
| Sorting.SortedLeft | src/arxml/pugixml.cpp:7689-7703 | a round that recursed on the left side leaves everything outside the remaining range finished |
| Hashing.TriangleClosedForm | src/arxml/pugixml.cpp:7722-7738 | the sum of the probe steps is the triangular number |
| Hashing.ProbesDiffer | src/arxml/pugixml.cpp:7722-7738 | no two of the first 2^m probes of a table of 2^m buckets meet |
| Hashing.EveryBucketProbedOnce | src/arxml/pugixml.cpp:7722-7738 | every bucket of a power-of-two table is visited exactly once by the first full round of probes |
| Hashing.NotInTable | src/arxml/pugixml.cpp:7722-7738 | an empty bucket on the probe sequence proves the key absent |
| Hashing.HashInsert | src/arxml/pugixml.cpp:7709-7742 | true and stored exactly for a new key; other keys stay findable; one empty bucket is used up; the exit for a full table is unreachable while a bucket is empty |
| NodeSets.EmptyTableFor | src/arxml/pugixml.cpp:9123-9135 | the table is a power of two, at least one and a half times the number of nodes, and larger than it |
| NodeSets.CompactWithTable | src/arxml/pugixml.cpp:9123-9147 | what remains is each non-null node at its first occurrence, in the original order |
| NodeSets.Unique | src/arxml/pugixml.cpp:7593-7616 | the array ends up without elements equal to their predecessor |
| NodeSets.RemoveDuplicates | src/arxml/pugixml.cpp:9119-9155 | first occurrences in the original order, for every order flag that tells the truth |
| NodeSets.FirstOccurrencesKeepsSet | src/arxml/pugixml.cpp:9119-9155 | dropping later occurrences keeps the set of nodes and leaves no duplicate |
| NodeSets.GetOrder | src/arxml/pugixml.cpp:8975-8989 | the flag returned for a duplicate-free list is true of the whole list, though only neighbours are compared |
| NodeSets.SortDo | src/arxml/pugixml.cpp:8991-9012 | the same nodes in document order, from a sorted, reversed or unsorted set |
| NodeSets.First | src/arxml/pugixml.cpp:9014-9033 | the first node in document order whatever the flag, null exactly for the empty set |
| NodeSets.Reverse | src/arxml/pugixml.cpp:7587-7591 | element `k` ends up at the mirrored position |
| XPathEvaluator.ApplyPredicateTest | src/arxml/pugixml.cpp:9870-9920 | the nodes added since `first` are cut down to those the predicate keeps by their positions, or the first of them under early exit; earlier nodes stay |
| XPathEvaluator.ApplyPredicateConstant | src/arxml/pugixml.cpp:9922-9948 | jumping to the position a constant number names keeps what testing every node would keep |
| XPathEvaluator.ApplyPredicate | src/arxml/pugixml.cpp:9950-9962 | the dispatch on the class the optimizer attached keeps what the predicate means |
| XPathEvaluator.ApplyPredicates | src/arxml/pugixml.cpp:9964-9972 | predicates in turn, with early exit only for the last |
| XPathEvaluator.KeepConstant | src/arxml/pugixml.cpp:9922-9948 | a constant predicate keeps exactly the node at that whole-number position, if there is one |
| XPathEvaluator.ContributionOf | src/arxml/pugixml.cpp:10374-10385 | the early exits of one step from one node lose neither the first node nor non-emptiness |
| XPathEvaluator.StepInvariantKept | src/arxml/pugixml.cpp:10374-10419 | appending what the next start node reaches keeps the flag truthful, duplicates out where no duplicate removal follows, and coverage of the set |
| XPathEvaluator.OneStart | src/arxml/pugixml.cpp:10374-10419 | a child, attribute or self step reaches a node from one start node only |
| XPathEvaluator.StepAnswers | src/arxml/pugixml.cpp:10413-10419 | after all start nodes and the conditional duplicate removal the result answers for the set the step selects |
| XPathEvaluator.StepDo | src/arxml/pugixml.cpp:10374-10419 | a step: no duplicates, truthful flag, and in first or any mode the right first node or emptiness |
| XPathEvaluator.FilterAnswers | src/arxml/pugixml.cpp:11056-11068 | a filter evaluated on the sorted set, in any order for an invariant predicate, or on the first node for `[1]`, answers for the filtered set |
| XPathEvaluator.EvalNodeSet | src/arxml/pugixml.cpp:11034-11164 | every node set of the evaluator is duplicate-free with a truthful flag and is, in full mode, the meaning of the expression; in first mode its first node in document order is the first of the meaning; in any mode it is empty exactly if the meaning is |
| XPathEvaluator.FirstOfAnswer | src/arxml/pugixml.cpp:9014-9033 | the first node of an early-exit answer is the first node of the full set |
| XPathEvaluator.EvalBoolean | src/arxml/pugixml.cpp:10471-10609 | the boolean value of the expression, with short-circuit operators and early-exit node sets |
| XPathEvaluator.EvalNumber | src/arxml/pugixml.cpp:10611-10747 | the number value of the expression |
| XPathEvaluator.EvalString | src/arxml/pugixml.cpp:10749-11032 | the string value of the expression |
| XPathEvaluator.CompareEq | src/arxml/pugixml.cpp:9706-9792 | equality and inequality by operand types, existential over node sets, with the operands swapped as the code swaps them (section 3.4 of XPath 1.0) |
| XPathEvaluator.CompareRel | src/arxml/pugixml.cpp:9799-9868 | the four order comparisons by operand types, existential over node sets |
| XPathEvaluator.EvalCompareAttribute | src/arxml/pugixml.cpp:10561-10568 | the attribute shortcut: false for an attribute or no node, else the lookup by name |
| XPathEvaluator.NodeText | src/arxml/pugixml.cpp:8119-8171 | the string value is the text of all character data in the subtree in document order |
| XPathEvaluator.TranslateBuffer | src/arxml/pugixml.cpp:8703-8723 | the in-place loop computes the translated text |
| XPathEvaluator.TranslateBufferByTable | src/arxml/pugixml.cpp:8757-8785 | the table loop computes the translated text |
| XPathEvaluator.SelectNodes | src/arxml/pugixml.cpp:12990-13010 | a compiled (optimized) query returns exactly the nodes its text means, without duplicates and with a truthful flag |
| XPathEvaluator.SelectNode | src/arxml/pugixml.cpp:13012-13033 | a compiled query returns the first node in document order of what its text means, null exactly if there is none |
| XPathEvaluator.Test | src/arxml/pugixml.cpp:12895-12914 | a compiled query evaluated as a condition has the boolean value its text means |
| Precedence.ExpressionSound | src/arxml/pugixml.cpp:12210-12225 | what the climb accepts flattens to exactly the tokens consumed, binds as section 3.4 of XPath 1.0 asks, and leaves no operator behind that belongs to it |
| Precedence.ExpressionFound | src/arxml/pugixml.cpp:12156-12225 | the tokens of a properly nested tree are parsed into that tree, unless the depth runs out |
| Precedence.ClimbingExact | src/arxml/pugixml.cpp:12156-12241 | a query is accepted only as a proper tree of exactly its tokens; the tokens of a proper tree give that tree; with more depth than tokens the limit is not met |
| Precedence.ProperTreeUnique | src/arxml/pugixml.cpp:12156-12225 | no token list has two properly nested trees |
| Precedence.AcceptedWithinLimit | src/arxml/pugixml.cpp:12156-12225 | the tokens of a proper tree are accepted, as that tree, if and only if the depth the tree needs is within the limit; else the depth error is reported |
| Precedence.NestingWithinLimit | src/arxml/pugixml.cpp:12156-12225 | in an accepted query neither groups and minus signs nor the operators outside them nest to the limit |
| Precedence.HeightWithinLimit | src/arxml/pugixml.cpp:12156-12225 | every query accepted at limit m has a tree of height at most 2 + m(m-1)/2 (1 for m = 1): the limit bounds the height, but quadratically; the closed form of the bound is part of the statement |
| Precedence.HeightReached | src/arxml/pugixml.cpp:12156-12225 | and this bound is the best: at every limit a query is accepted whose tree is exactly that high, because a group gives back the depth it took |
| Precedence.WhenHeightIsLimited | src/arxml/pugixml.cpp:12024-12225 | all accepted queries built with given constructs have a height of at most the limit if and only if the limit is at most one, or there are no minus signs and either no groups or a limit of at most two |
| Precedence.XPathParser.ParseExpressionRec | src/arxml/pugixml.cpp:12156-12189 | the two nested loops with their depth counter compute the recursive climb |
| Precedence.XPathParser.ReadExpression | src/arxml/pugixml.cpp:12210-12225 | the counter is restored after an expression; result and position are those of the recursive definition |
| Precedence.XPathParser.ParsePathOrUnaryExpression | src/arxml/pugixml.cpp:12024-12087 | operands, groups and unary minus, which takes a whole union |
| Precedence.XPathParser.Parse | src/arxml/pugixml.cpp:12231-12241 | the whole query must be one expression |
| Characters.CString | src/arxml/pugixml.cpp:3924-3932 | the text a C string holds: up to the first NUL |
| Escapes.Reference | src/arxml/pugixml.cpp:2464-2602 | a reference never grows when replaced, and one that is not recognised is kept letter by letter as far as it was looked at |
| Escapes.DecodeEscaped | src/arxml/pugixml.cpp:3924-3974 | decoding any escaped text followed by its stop character gives the text back up to that character, with line ends as the rules say |
| Escapes.ReadBackResolved | src/arxml/pugixml.cpp:2675-2892 | with references resolved the value is exact in attributes and without line-end conversion, and has CR and CRLF turned into LF otherwise |
| Escapes.ReadBackUnresolved | src/arxml/pugixml.cpp:2675-2892 | with references left alone the written form comes back, with line ends converted if asked for, which is the value exactly if nothing in it was escaped and no carriage return was converted |
| Escapes.EscapedLonger | src/arxml/pugixml.cpp:3924-3974 | escaping never shortens, and leaves a text as it is exactly if it holds no special character |
| Escapes.ReferenceRead | src/arxml/pugixml.cpp:2464-2602 | the reference written for a special character is read back as that character |
| Printer.WriteText | src/arxml/pugixml.cpp:3924-3982 | copying runs of usual characters whole writes the escaped text |
| Printer.WriteCdata | src/arxml/pugixml.cpp:3984-4006 | a value with `]]>` in it is divided between sections by the loop exactly as the recursive definition says |
| Printer.WriteComment | src/arxml/pugixml.cpp:4046-4069 | the loop over runs writes a space behind every hyphen that would make two in a row or stand last |
| Printer.WritePi | src/arxml/pugixml.cpp:4071-4090 | the loop breaks every `?>` in the value of an instruction |
| Printer.WriteStart | src/arxml/pugixml.cpp:4092-4180 | start tag, attributes and the forms an empty element can take |
| Printer.WriteClosings | src/arxml/pugixml.cpp:4313-4340 | going up writes exactly the end tags of the elements left behind, to the next sibling or the root |
| Printer.NodeOutput | src/arxml/pugixml.cpp:4254-4345 | the iterative printer writes the recursively defined text of the subtree of any node, in any document, for all kinds of nodes; only elements and the document are descended into |
| RoundTrip.PrintedRead | src/arxml/pugixml.cpp:3260-3496 | for every tree of named elements, top-level declarations and non-adjacent character data, from any node and in any format whose own white space the parser skips, the parser rebuilds, row by row, every node but blank texts it drops and what is inside a declaration, which is not printed; it fails, with a bad start element, exactly if a value in a declaration holds `?>` |
| RoundTrip.DeclarationRowRead | src/arxml/pugixml.cpp:3166-3258 | a printed declaration is read back as one node with its attributes if no value in it holds `?>`, and else the document is refused |
| RoundTrip.CommentPassed | src/arxml/pugixml.cpp:3057-3093 | whatever the value of a comment, its printed text is passed over to the last character |
| RoundTrip.CommentDivides | src/arxml/pugixml.cpp:3057-3093 | a comment between two texts leaves no node, and the texts stay two nodes side by side |
| RoundTrip.CdataPassed | src/arxml/pugixml.cpp:3095-3134 | whatever the value of a CDATA node, all the sections it is printed as are passed over to the last character |
| RoundTrip.PiPassed | src/arxml/pugixml.cpp:3244-3252 | whatever the value of a processing instruction, its printed text is passed over to the last character, unless its name makes it a declaration; inside a declaration left open, and only there, what follows is read as attributes |
| RoundTrip.RawRoundTrip | src/arxml/pugixml.cpp:4254-4345 | raw printing and parsing with references resolved and blank text kept gives the document back, if and only if every node leaves a trace, no text holds a carriage return that would be converted and no declaration a `?>` in a value |
| RoundTrip.ExactWithReferences | src/arxml/pugixml.cpp:3260-3496 | with references resolved, from any node and in any readable format, the copy is exact if and only if every node leaves a trace, no text holds a carriage return that would be converted and no declaration a `?>` in a value |
| RoundTrip.ExactWithoutReferences | src/arxml/pugixml.cpp:3260-3496 | with references left alone, with or without line ends converted, the copy is exact if and only if every node leaves a trace, nothing had to be written as a reference, no text holds a carriage return that is converted, and no declaration a `?>` in a value |
| RoundTrip.BlankRead | src/arxml/pugixml.cpp:3436-3489 | printed character data that is blank, or empty where blanks are kept, is passed over and makes no node |
| RoundTrip.RebuiltSame | src/arxml/pugixml.cpp:3260-3496 | what the parser rebuilds has as many rows as what was printed if and only if every row leaves a trace, and is the same, moved under a document node, if and only if every row is also read as it is |
| RoundTrip.ClosingsRead | src/arxml/pugixml.cpp:3386-3419 | the end tags after a node close in the parser what the printer left, and nothing else |
| RoundTrip.TextRead | src/arxml/pugixml.cpp:3436-3489 | printed character data is read as one node, up to the following tag |
| RoundTrip.AttributesRead | src/arxml/pugixml.cpp:3291-3336 | printed attributes are read back in order |
| AdjacentText.JoinPrinted | src/arxml/pugixml.cpp:4254-4345 | two pieces of character data side by side print like one: joining them changes no character of the text of any node above |
| AdjacentText.JoinedRead | src/arxml/pugixml.cpp:3260-3496 | for every printable tree, also with texts side by side, the text is read back as the tree in which all such pairs are joined, without the nodes that leave no trace |
| ParsedDocument.ParseGivesDocument | src/arxml/pugixml.cpp:2947-3570 | whatever is accepted, declarations, comments, instructions, CDATA and document types included, becomes a well-formed tree of properly named elements, childless character data and declarations at its top, with an element unless a fragment is allowed |
| ParsedDocument.ParsedIsWritable | src/arxml/pugixml.cpp:3260-3496 | any node of an accepted document but a text is printed in a form the parser accepts where it stands |
| ParsedDocument.UnresolvedTextsSurvive | src/arxml/pugixml.cpp:3436-3489 | without resolving references no text is blank or empty by accident |
| ParsedDocument.ParsePrintParse | src/arxml/pugixml.cpp:3260-3570 | printing an accepted document, any at all, and parsing it with the same options, in any combination, gives it again if and only if no text has become blank or empty by resolving references, no text stands right beside another, no declaration has children or a `?>` in a value, nothing unresolved had to be written as a reference, and no carriage return is converted |
| InPlace.Gap.Push | src/arxml/pugixml.cpp:2433-2447 | leaving characters out closes up what was kept before them; the kept text is unchanged |
| InPlace.Gap.Flush | src/arxml/pugixml.cpp:2450-2461 | closing the gap leaves the concatenation of the kept parts, ending at or before the read position |
| InPlace.Gap.Put | src/arxml/pugixml.cpp:2464-2602 | writing a character over the next one to be read keeps it |
| InPlace.ConvertReference | src/arxml/pugixml.cpp:2464-2602 | the in-place decoder of a reference consumes and keeps what the pure decoder says, writing only behind the read position |
| InPlace.ConvertText | src/arxml/pugixml.cpp:2675-2892 | the scan keeps exactly the decoded text |
| InPlace.ConvertPcdata | src/arxml/pugixml.cpp:2679-2724 | character data is decoded where it stands: the decoded text, terminated, at its start, and the rest of the buffer untouched |
| InPlace.ConvertAttribute | src/arxml/pugixml.cpp:2800-2892 | an attribute value is decoded where it stands; failure exactly if the quote is missing |
| InPlace.Move | src/arxml/pugixml.cpp:2438-2457 | moving bytes towards the front, overlapping or not |
| InPlaceParser.EndSegment | src/arxml/pugixml.cpp:2613 | saving the character after a name and overwriting it with the terminator keeps the name and the text after it readable |
| InPlaceParser.AttributeIn | src/arxml/pugixml.cpp:3296-3336 | one attribute in the buffer: accepted exactly if the pure parser accepts it, with the same name and value |
| InPlaceParser.AttributesIn | src/arxml/pugixml.cpp:3291-3365 | all attributes of a node and the end of its tag |
| InPlaceParser.StartTagIn | src/arxml/pugixml.cpp:3276-3385 | a start tag leads to what the pure parser says |
| InPlaceParser.EndTagIn | src/arxml/pugixml.cpp:3386-3419 | the end tag is compared with the stored name character by character |
| InPlaceParser.TextIn | src/arxml/pugixml.cpp:3436-3489 | character data between tags |
| InPlaceParser.ScanMark | src/arxml/pugixml.cpp:2610 | the scan for a mark of several characters stops at its first occurrence or at the end |
| InPlaceParser.IgnoreIn | src/arxml/pugixml.cpp:2980-3009 | nested ignore sections are left exactly where the pure parser leaves them |
| InPlaceParser.DoctypeIn | src/arxml/pugixml.cpp:3011-3055 | nested groups, quoted strings, comments and instructions of a document type are passed to exactly the `>` the pure parser finds |
| InPlaceParser.PassExclamation | src/arxml/pugixml.cpp:3057-3164 | comments, CDATA and document types are passed over, or refused, as the pure parser says, writing nothing before them |
| InPlaceParser.QuestionIn | src/arxml/pugixml.cpp:3166-3258 | an instruction is passed over, a declaration becomes a node whose end mark is rewritten in the buffer, each as the pure parser says |
| InPlaceParser.DeclarationEndIn | src/arxml/pugixml.cpp:3217-3231 | the `?` of the first `?>` is overwritten by a slash before the attributes are read, and nothing stored or still to be read is hit |
| InPlaceParser.ParseTree | src/arxml/pugixml.cpp:3260-3496 | the in-place parser over the zero-terminated buffer leaves offsets that spell exactly the document, or the error, of the pure parser, for every text |
| InPlaceParser.LoadBuffer | src/arxml/pugixml.cpp:4717-4755 | copying, skipping a byte order mark, parsing in place and looking for a document element agrees with the pure parser for every contents |
| ArxmlReader.FindChild | src/arxml/pugixml.cpp:5592-5604 | the first child of that name, or none |
| ArxmlReader.GetText | src/arxml/pugixml.cpp:6545-6605 | the node's own text or that of its first character data |
| ArxmlReader.GetShortName | src/arxml/arxml_node.cpp:11-16 | the text of the first `SHORT-NAME` child |
| ArxmlReader.GetRootNode | src/arxml/arxml_reader.cpp:63-76 | one child step per name; the null node once a name is missing |
| ArxmlReader.CopyParsed | src/arxml/arxml_node.cpp:51-58 | the printed text of an element without texts side by side is accepted by a second reader and becomes the copy of the subtree |
| ArxmlReader.NavigateCopied | src/arxml/arxml_reader.cpp:63-76 | navigating in the copy finds the copies of what navigating in the document finds |
| ArxmlReader.DetourValue | src/application/helper/network_configuration.h:88-96 | print, parse and navigate, for any element as the parser makes them: accepted, and the value is the directly navigated text, with every text that follows it directly, as the printer writes it |
| ArxmlReader.DetourExact | src/application/helper/network_configuration.h:88-96 | the detour gives the directly navigated value if and only if nothing in that value is written as a reference and no other text stands right behind it |
| ArxmlReader.DividedValue | src/application/helper/network_configuration.h:88-96 | a concrete element whose value a comment divides: the detour returns another value than the one in the document |
| ArxmlReader.Validate | src/arxml/arxml_reader.cpp:29-61 | a document whose first top-level node named `xml` is a declaration needs a version that reads as one |
| ArxmlReader.NewReader | src/arxml/arxml_reader.cpp:7-27 | a reader exists exactly for what the parser accepts and the version check admits |
| ArxmlReader.DeclarationRejected | src/application/helper/network_configuration.h:91-94 | the text of a declaration alone is refused by the second reader, so selecting one ends in an exception |
| ArxmlReader.TryExtractDeepValue | src/application/helper/network_configuration.h:72-103 | over any well-formed document: nothing selected or no filter gives what direct navigation gives; else what a second reader finds in the printed node, which for an element as the parser makes them is the value of `DetourExact`, under the same exact condition |
| ArxmlReader.ExtractFromFile | src/application/helper/network_configuration.h:72-103 | the same from the text of any UTF-8 file, with declarations, comments and all other markup: an exception exactly if the reader does not open or a declaration left open is selected; else the direct value if and only if it is written without references and not continued by another text |
| Dom.AppendNode | src/arxml/pugixml.cpp:1235-1254 | the node becomes the last child; every list stays as the links spell it (cyclic previous, null-terminated next, parents) |
| Dom.PrependNode | src/arxml/pugixml.cpp:1256-1272 | the node becomes the first child; every list stays well linked |
| Dom.InsertNodeAfter | src/arxml/pugixml.cpp:1274-1291 | the node comes right after the given one; every list stays well linked |
| Dom.InsertNodeBefore | src/arxml/pugixml.cpp:1293-1310 | the node comes right before the given one; every list stays well linked |
| Dom.RemoveNode | src/arxml/pugixml.cpp:1312-1332 | the node leaves its list and is detached; every list stays well linked |
| Dom.InsertKeepsLists | src/arxml/pugixml.cpp:1235-1310 | inserting at any position turns links that spell child lists into links that spell the lists with one more child |
| Dom.RemoveKeepsLists | src/arxml/pugixml.cpp:1312-1332 | removing turns links that spell child lists into links that spell the lists with one child less |
| Dom.MovedRanked | src/arxml/pugixml.cpp:4383-4405 | moving a node to a place that is not below it leaves no cycle of parents |
| Dom.AllowMove | src/arxml/pugixml.cpp:4374-4405 | allowed exactly if the kinds fit and the new parent is not the node or below it |
| Dom.BelowReaches | src/arxml/pugixml.cpp:4383-4405 | climbing parent links and descending child lists agree on who is below whom |
| Dom.AppendMove | src/arxml/pugixml.cpp:6109-6123 | moved exactly if allowed, as remove and append on the lists; the tree stays a tree |
| Dom.PrependMove | src/arxml/pugixml.cpp:6125-6139 | moved exactly if allowed, as remove and prepend on the lists; the tree stays a tree |
| Dom.InsertMoveAfter | src/arxml/pugixml.cpp:6141-6157 | moved exactly if allowed and the neighbour is another child, as remove and insert on the lists |
| Dom.InsertMoveBefore | src/arxml/pugixml.cpp:6159-6175 | moved exactly if allowed and the neighbour is another child, as remove and insert on the lists |
| Dom.AddChild | src/arxml/pugixml.cpp:5933-6001 | a new node is put first, last, behind or in front, exactly if its kind is allowed there and the neighbour is a child; the tree stays a tree with that node in that place |
| Dom.RemoveChild | src/arxml/pugixml.cpp:6222-6233 | removed exactly if it is a child; it and everything below it is gone, and what is left is one list per node without a cycle |
| Dom.EditAll | src/arxml/pugixml.cpp:5933-6233 | any run of additions, moves and removals, also of nodes added on the way: the answers and the child lists are those of the edits applied one after the other to the lists, and the links always spell these lists |
| DomTable.LinkedTreeIsTable | src/arxml/pugixml.cpp:1235-1332 | listed in preorder a linked tree is a well-formed table with exactly one row per node, and the first child, next sibling, parent and cyclic previous sibling of a row are the rows of the nodes its link fields point to |
| TreeCopy.WalkOn | src/arxml/pugixml.cpp:4452-4494 | one round copies one more node of the source, except the one the copy grows under, and the walk through the copy stays in step |
| TreeCopy.NodeCopyTree | src/arxml/pugixml.cpp:4444-4496 | the walk terminates, and the copy is the source as it was when the walk began, without the node it grows under |
| TreeCopy.EverythingCopied | src/arxml/pugixml.cpp:4444-4496 | at the end exactly the nodes of the source subtree have been copied |
| TreeCopy.AppendCopy | src/arxml/pugixml.cpp:6039-6054 | the new last child is isomorphic to the source as it was before, even if that contains the new parent, and nothing else changes |
| Allocator.BlocksDisjoint | src/arxml/pugixml.cpp:545-557 | two blocks of one page never overlap and end within what has been cut |
| Allocator.AllDead | src/arxml/pugixml.cpp:597-640 | as many bytes returned as cut exactly if no block of the page is in use |
| Allocator.Arena.AllocateMemory | src/arxml/pugixml.cpp:545-557 | one more block at the end of the last page or of a new one, within its page; all other blocks stay |
| Allocator.Arena.AllocateOob | src/arxml/pugixml.cpp:711-747 | a new last page for a small block, a page of its own in front of the last one for a large block |
| Allocator.Arena.DeallocateMemory | src/arxml/pugixml.cpp:597-640 | the page is released exactly if it is not the last and nothing else on it is in use; the last page starts over; all other blocks stay |
| Allocator.Arena.AllocateString | src/arxml/pugixml.cpp:641-673 | room for the header and the characters, and a header that tells where the block starts |
| Allocator.Arena.DeallocateString | src/arxml/pugixml.cpp:675-692 | the size taken is the size returned |
| Allocator.HeaderKeepsOffset | src/arxml/pugixml.cpp:641-673 | sixteen bits are enough for every place a block can start at |
| Allocator.HeaderKeepsSize | src/arxml/pugixml.cpp:675-692 | the size is read back exactly, from the header or, for a block that is a whole page, from the page |
| Allocator.TakeBlock | src/arxml/pugixml.cpp:641-673 | taking a string adds a block of the size for that length to the account of blocks in use; the blocks in use before stay, each with its size |
| Allocator.TakeObject | src/arxml/pugixml.cpp:1177-1196 | taking a node or an attribute adds a block of that size to the account of blocks in use; the blocks in use before stay, each with its size |
| Allocator.ReturnBlock | src/arxml/pugixml.cpp:675-692 | returning a block removes it from the account; the others stay, each with its size |
| Allocator.Run | src/arxml/pugixml.cpp:545-692 | after any run of allocations of strings, nodes and attributes and of single frees, the first allocation at most a quarter page, the blocks in use are exactly those handed out for the allocations not yet freed (`Outstanding`), each of the kind and the size its allocation asked for |
| Allocator.BlocksApart | src/arxml/pugixml.cpp:545-557 | the bytes of any two blocks in use, placed by their headers, are apart |
| Allocator.BlockWithinPage | src/arxml/pugixml.cpp:545-557 | every block in use ends within its page |
| Allocator.PagesAccounted | src/arxml/pugixml.cpp:597-640 | on every page at most as much has been returned as cut and as much cut as it holds, and a page with anything cut from it holds a block in use |
| Integers.HexOverflow | src/arxml/pugixml.cpp:4529-4554 | without leading zeros a hexadecimal number overflows exactly if it has too many digits |
| Integers.DecimalOverflowExact | src/arxml/pugixml.cpp:4573-4581 | the test on digit count, lead digit and highest bit of the wrapped result is exact |
| Integers.ReadUnsigned | src/arxml/pugixml.cpp:4527-4582 | the wrapped value of digits of any length, and whether that lost anything |
| Integers.StringToInteger | src/arxml/pugixml.cpp:4515-4605 | the true decimal or hexadecimal integer clamped to the range of the type, for texts of any length |
| Integers.IntegerToString | src/arxml/pugixml.cpp:4646-4664 | the digits written backwards into the buffer are the decimal form, with a minus sign for negative numbers |
| Integers.WrittenMeans | src/arxml/pugixml.cpp:4646-4664 | the written form of every integer stands for it |
| Integers.ReadWritten | src/arxml/pugixml.cpp:4515-4605 | reading back the written form gives the integer, for every integer of every type |
| BufferedWriter.DecodeEncoded | src/arxml/pugixml.cpp:1466-1532 | decoding an encoded code point gives it back with its length, whatever follows (section 3 of RFC 3629) |
| BufferedWriter.CountedIsWritten | src/arxml/pugixml.cpp:1466-1485 | the counter and the writer agree on the length of any text |
| BufferedWriter.Utf16ReadsBack | src/arxml/pugixml.cpp:1554-1585 | the UTF-16 form, in either byte order, of any code points but surrogates decodes to them |
| BufferedWriter.Utf32ReadsBack | src/arxml/pugixml.cpp:1590-1614 | the UTF-32 form, in either byte order, of any code points decodes to them |
| BufferedWriter.Latin1Bytes | src/arxml/pugixml.cpp:1616-1635 | the Latin-1 form has one byte for every code point, itself or a question mark |
| BufferedWriter.TranscodeAppend | src/arxml/pugixml.cpp:1636-1701 | transcoding piece by piece is transcoding at one go, if the pieces are cut between characters |
| BufferedWriter.GetValidLength | src/arxml/pugixml.cpp:3670-3684 | the position of the last lead byte among the last four |
| BufferedWriter.ValidIsWhole | src/arxml/pugixml.cpp:3670-3684 | any beginning of a whole text, five bytes or more, is cut between two characters and not at its start |
| BufferedWriter.ConvertChunk | src/arxml/pugixml.cpp:3686-3707 | the conversion of a chunk fills the scratch buffer with its transcoding and never beyond its end |
| BufferedWriter.Writer.FlushData | src/arxml/pugixml.cpp:3728-3744 | a chunk reaches the output transcoded |
| BufferedWriter.Writer.Flush | src/arxml/pugixml.cpp:3721-3726 | after a flush the output is everything written, transcoded at one go |
| BufferedWriter.Writer.WriteFew | src/arxml/pugixml.cpp:3825-3892 | one to six characters; never beyond the buffer |
| BufferedWriter.Writer.WriteBuffer | src/arxml/pugixml.cpp:3785-3798 | the buffer and the output together stand for everything written |
| BufferedWriter.Writer.WriteDirect | src/arxml/pugixml.cpp:3746-3783 | a text longer than the buffer goes out in chunks cut between characters; the loop terminates |
| BufferedWriter.Writer.WriteString | src/arxml/pugixml.cpp:3800-3823 | filling to the brim and backing up to a character boundary loses and repeats nothing |
| BufferedWriter.WriteAll | src/arxml/pugixml.cpp:3710-3922 | for any run of writes of whole characters and any capacity from 8 on, the output is the concatenation transcoded at one go |
| WireCodec.NumberOfBigEndian | src-gen/package_management/package_management_proxy.cpp:271-295 | a number comes back from the wire modulo what its width holds |
| WireCodec.SizedReadBack | src-gen/package_management/package_management_proxy.cpp:297-309 | a text or block is read back wherever it was written, if its length fits its field |
| WireCodec.Message.AppendU32 | src-gen/package_management/package_management_proxy.cpp:278-285 | four bytes, highest first |
| WireCodec.Message.AppendU64 | src-gen/package_management/package_management_proxy.cpp:287-295 | eight bytes, highest first |
| WireCodec.Message.AppendString | src-gen/package_management/package_management_proxy.cpp:297-302 | a length cut to sixteen bits and the whole text |
| WireCodec.Message.AppendBytes | src-gen/package_management/package_management_proxy.cpp:304-309 | a length cut to 32 bits and the whole block |
| WireCodec.ExtractNumber | src-gen/package_management/package_management_skeleton.cpp:327-347 | the big-endian number at the offset; thrown exactly if a byte is missing |
| WireCodec.ExtractString | src-gen/package_management/package_management_skeleton.cpp:349-360 | the text at the offset, with the offset moved behind it; thrown exactly if the length is missing |
| WireCodec.ExtractBytes | src-gen/package_management/package_management_skeleton.cpp:362-371 | the block at the offset, with the offset moved behind it |
| PackageCalls.RequestReadBack | src-gen/package_management/package_management_skeleton.cpp:117-246 | every request decodes to the call it was encoded from, using up every byte, if and only if its lengths fit their fields |
| PackageCalls.ReplyReadBack | src-gen/package_management/package_management_proxy.cpp:105-259 | every reply decodes to the answer or the error it was encoded from, to the last byte, if and only if lengths, counts and the error code fit |
| PackageManagement.PackageManager.TransferStart | src/ara/ucm/package_manager.cpp:56-71 | a new id and an empty accumulator, or refused while not idle |
| PackageManagement.PackageManager.TransferData | src/ara/ucm/package_manager.cpp:75-92 | the block is appended to the data of its transfer; an unknown id changes nothing |
| PackageManagement.PackageManager.TransferExit | src/ara/ucm/package_manager.cpp:96-147 | complete exactly if the declared number of bytes has arrived; then stored under the package name |
| PackageManagement.PackageManager.ProcessSwPackage | src/ara/ucm/package_manager.cpp:151-216 | the states of staging, with extraction as a parameter |
| PackageManagement.PackageManager.Activate | src/ara/ucm/package_manager.cpp:220-365 | the states of activation, with its steps as a parameter |
| PackageManagement.Skeleton.HandleTransferStart | src-gen/package_management/package_management_skeleton.cpp:117-148 | a readable request is one call and its reply; an unreadable one reaches no package manager |
| PackageManagement.Skeleton.HandleTransferData | src-gen/package_management/package_management_skeleton.cpp:150-174 | a readable request is one call and its reply; an unreadable one is answered as malformed |
| PackageManagement.Skeleton.HandleActivate | src-gen/package_management/package_management_skeleton.cpp:222-246 | a readable request is one call and its reply; an unreadable one is answered as failed activation |
| PackageManagement.Skeleton.ClustersReply | src-gen/package_management/package_management_skeleton.cpp:248-269 | the status, the count and every entry in order |
| PackageManagement.Proxy.SendAndWait | src-gen/package_management/package_management_proxy.cpp:76-101 | the last reply that the poll ending the wait hands over, of the earlier ones still under way and the one to this call, if the deadline has not passed; the rest stay under way |
| PackageManagement.Proxy.Poll | src/ara/com/someip/rpc/socket_rpc_client.cpp:97-128 | the messages are handled in the order they came, and the last one handled is the response, whichever call it answers |
| PackageManagement.Proxy.DecodeClusters | src-gen/package_management/package_management_proxy.cpp:200-236 | the loop reads exactly the announced entries, in order, and stops where they end |
| PackageManagement.Proxy.TransferData | src-gen/package_management/package_management_proxy.cpp:158-169 | a call through codec and network has its effect if it arrives; the caller gets what the reply that comes says, which is the answer of a direct call if nothing earlier was under way, or is told there was no answer |
| PackageManagement.Proxy.TransferStart | src-gen/package_management/package_management_proxy.cpp:129-156 | a call through codec and network has its effect if it arrives; the caller gets what the reply that comes says, which is the answer of a direct call if nothing earlier was under way, or is told there was no answer |
| PackageManagement.Proxy.GetSwClusterInfo | src-gen/package_management/package_management_proxy.cpp:200-236 | the same for the clusters of the registry, which arrive unchanged if they fit |
| PackageAnswers.OwnIfNoneLeft | src-gen/package_management/package_management_proxy.cpp:76-101 | in any run a call that is answered gets its own answer if and only if it arrives and no reply stays under way behind it |
| PackageAnswers.OwnAnswersExact | src-gen/package_management/package_management_proxy.cpp:47-101 | whatever the network does, every answer of a run belongs to its call, if and only if no call was answered after one that was not: the condition is what the caller has seen, and where it fails there is a network that only delays replies and mixes them up |
| PackageAnswers.OwnAnswersFaithful | src-gen/package_management/package_management_proxy.cpp:105-259 | where the answers belong to their calls every call returns what the package manager answered to it, to the last byte, or that there was no answer |
| PackageAnswers.LateStart | src-gen/package_management/package_management_proxy.cpp:76-101 | a start whose reply is late and a status query behind it: the query returns idle while the package manager is transferring |
| PackageAnswers.CallAll | src-gen/package_management/package_management_proxy.cpp:76-259 | any run of calls through one proxy leaves the package manager, the replies under way and every answer as the account of the run says, also with lost requests and late replies |
| PackageTransfer.SendFile | src/application/platform/vehicle_update_config_manager.cpp:102-143 | for every pattern of short reads, read errors and lost messages the blocks sent are a beginning of the file in order, all of it on success |
| PackageTransfer.NumberedInOrder | src/application/platform/vehicle_update_config_manager.cpp:106-141 | block `k` is numbered `k + 1`, up to 2^32 - 1 blocks; beyond that the number wraps |
| PackageTransfer.Run | src/application/platform/vehicle_update_config_manager.cpp:30-182 | the package manager sees a start, numbered blocks and, only after the whole file, the closing calls in order; on success the stored package is the file, byte for byte; and if nothing fails the run succeeds |

## Left out

XPath:

- `sum()`: the order in which doubles are added depends on the order of the node set, so its value is not a function of the selected set; floor, ceiling, round, substring and normalize-space would only add easy cases.
- Variables, namespaces beyond the rule for namespace attributes, `lang()` and `id()`.
- Doubles: parsing, printing and arithmetic are uninterpreted functions in `XPath.Env`; comparisons are on reals and not-a-number.
- The optimizer rewrites expression values where the source changes nodes of the expression in place; sharing between expression nodes does not occur in either.
- Node sets returned by the evaluator are sequences; growing and truncating their storage is not modelled, duplicate removal and sorting over arrays are.
- The fast path of the comparator by buffer addresses (`document_buffer_order`), and its answer for one identical attribute.
- XPathEvaluator.EvalBoolean: without `lang()` and variables.
- XPathEvaluator.EvalNumber: without `sum()`, floor, ceiling and round.
- XPathEvaluator.EvalString: without substring, normalize-space and the name functions.
- Precedence.ClimbingExact: a token stands for a whole location path, literal, number or call, so steps and calls inside it, which use the same depth counter, are not counted.
- Precedence.AcceptedWithinLimit: as for `ClimbingExact`; so are the bounds on the height.
- Precedence.XPathParser.ParsePathOrUnaryExpression: as for `ClimbingExact`.
- Memory exhaustion everywhere: allocations succeed.

Parser and printer:

- The options that keep comments, CDATA sections, processing instructions and document types as nodes: the parser passes over them, as the reader has it do; the printer writes them all.
- Printer.WriteStart: an element has no value of its own, which only embedding gives it.
- The options for trimming, embedding, single blank text, merging and normalising attribute white space, which is lossy by design.
- Wide-character mode, compact mode, detection and conversion of input encodings, error offsets.
- The formats without escapes and without control characters, which lose information, in the round trips (they are modelled in the printer); the starting depth of a print is 0.
- Files and streams; `load_file` behaves as `load_buffer` on the contents.

Reader:

- Detection and check of the encoding, and `GetValue` for numbers.
- ArxmlReader.Validate: whether the text of a version reads as the number one is a parameter.
- ArxmlReader.TryExtractDeepValue: for the string instance.

Pointer structures:

- Dom.AllowMove: all nodes belong to one document, so the comparison of roots is always true.
- Dom.RemoveChild: the nodes below the child are dropped from the tree; giving back their memory is the allocator's part.
- Dom.EditAll: no edit names a node that has been destroyed.
- TreeCopy.NodeCopyTree: the contents of a node are copied at once; sharing of strings between copy and source is not modelled.
- Allocator: the page list is a sequence instead of previous and next links; nodes and attributes are blocks of any aligned size.

Buffered writer:

- BufferedWriter.ConvertChunk: the shortcut for four ASCII bytes at a time on aligned addresses has the same effect as four rounds and is left out; byte order swapping is part of the encoding.

Package transfer:

- Sockets, the SOME/IP header, threads and time: a request either reaches the server, in the order sent, or is lost; replies come in the order sent, at once or as late as they please.
- WireCodec.ExtractString: a text whose length runs past the end of the message is read without a bounds check, which the language gives no meaning; the model says `Unspecified` and the handlers are specified for all other requests. No request the proxy writes is of that kind (`PackageCalls.RequestReadBack`).
- WireCodec.ExtractBytes: as for texts.
- PackageManagement.Skeleton.HandleTransferStart: for requests whose lengths stay within the message, as every request of the proxy does.
- PackageManagement.Skeleton.HandleTransferData: as for `HandleTransferStart`.
- PackageManagement.Skeleton.HandleActivate: as for `HandleTransferStart`.
- PackageTransfer.Run: the name of the package is a parameter; the source derives it from the path. The proxy is the update manager's own, with nothing under way to it when the run begins.
- PackageManagement.PackageManager.ProcessSwPackage: extraction, metadata and the file names are parameters.
- PackageManagement.PackageManager.Activate: copying the binary, editing the manifest and the registry are parameters.
- `Reset` on disconnect, which no run of the update manager on one connection meets, and the name of the package derived from its path.
