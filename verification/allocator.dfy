/** The page allocator behind the tree.

  Memory comes from a list of pages. The last page is filled from front to back; a block too large for
  a share of it gets a page of its own, put in front of the last one. A page is given back when all
  that was ever taken from it has been returned, except that the last page is kept and starts over.
  The ghost `cells` lay out every page as the blocks cut from it, in order of address. */
module Allocator {

  const ALIGNMENT: nat := 8
  const HEADER_SIZE: nat := 40
  const PAGE_SIZE: nat := 32768 - HEADER_SIZE
  const LARGE: nat := PAGE_SIZE / 4
  const MAX_ENCODED: nat := 0x1_0000 * ALIGNMENT

  /** A block cut from a page, and whether it is still in use. */
  datatype Cell = Cell(size: nat, live: bool)

  type Cells = seq<Cell>

  /** The bytes of the first `n` cells: where cell `n` starts. */
  function Offset(c: Cells, n: nat): nat
    requires n <= |c|
  {
    if n == 0 then 0 else Offset(c, n - 1) + c[n - 1].size
  }

  function Total(c: Cells): nat {
    Offset(c, |c|)
  }

  /** The bytes of the first `n` cells that have been returned. */
  function Dead(c: Cells, n: nat): (d: nat)
    requires n <= |c|
    ensures d <= Offset(c, n)
  {
    if n == 0 then 0 else Dead(c, n - 1) + if c[n - 1].live then 0 else c[n - 1].size
  }

  predicate Sized(c: Cells) {
    forall i | 0 <= i < |c| :: c[i].size > 0 && c[i].size % ALIGNMENT == 0
  }

  function Freed(c: Cells, i: nat): Cells
    requires i < |c|
  {
    c[i := c[i].(live := false)]
  }

  // ------------------------------------------------------------------ cells

  lemma {:induction false} OffsetsGrow(c: Cells, i: nat, j: nat)
    requires i < j <= |c|
    ensures Offset(c, i) + c[i].size <= Offset(c, j)
    decreases j
  {
    if i < j - 1 { OffsetsGrow(c, i, j - 1); }
  }

  /** Two blocks of one page never overlap, and every block ends within what has been cut. */
  lemma BlocksDisjoint(c: Cells, i: nat, j: nat)
    requires i < |c| && j < |c| && i != j
    ensures Offset(c, i) + c[i].size <= Offset(c, j) || Offset(c, j) + c[j].size <= Offset(c, i)
    ensures Offset(c, i) + c[i].size <= Total(c)
  {
    OffsetsGrow(c, i, |c|);
    if i < j { OffsetsGrow(c, i, j); } else { OffsetsGrow(c, j, i); }
  }

  lemma {:induction false} Appended(c: Cells, x: Cell, n: nat)
    requires n <= |c|
    ensures Offset(c + [x], n) == Offset(c, n) && Dead(c + [x], n) == Dead(c, n)
  {
    if n > 0 { Appended(c, x, n - 1); }
  }

  lemma AppendedTotal(c: Cells, x: Cell)
    requires Sized(c) && x.size > 0 && x.size % ALIGNMENT == 0 && x.live
    ensures Total(c + [x]) == Total(c) + x.size && Dead(c + [x], |c| + 1) == Dead(c, |c|) && Sized(c + [x])
  {
    Appended(c, x, |c|);
  }

  lemma {:induction false} FreedSame(c: Cells, i: nat, n: nat)
    requires i < |c| && n <= |c| && c[i].live
    ensures Offset(Freed(c, i), n) == Offset(c, n)
    ensures Dead(Freed(c, i), n) == Dead(c, n) + if i < n then c[i].size else 0
  {
    if n > 0 { FreedSame(c, i, n - 1); }
  }

  /** All bytes have been returned exactly when no block is in use. */
  lemma {:induction false} AllDead(c: Cells, n: nat)
    requires Sized(c) && n <= |c|
    ensures Dead(c, n) == Offset(c, n) <==> forall i | 0 <= i < n :: !c[i].live
  {
    if n > 0 { AllDead(c, n - 1); }
  }

  lemma {:induction false} OffsetsAligned(c: Cells, n: nat)
    requires Sized(c) && n <= |c|
    ensures Offset(c, n) % ALIGNMENT == 0
  {
    if n > 0 { OffsetsAligned(c, n - 1); }
  }

  // ------------------------------------------------------------------ pages

  class Page {
    const capacity: nat
    var busySize: nat
    var freedSize: nat
    ghost var cells: Cells

    constructor (capacity: nat)
      ensures this.capacity == capacity && busySize == 0 && freedSize == 0 && cells == []
    {
      this.capacity := capacity;
      busySize, freedSize, cells := 0, 0, [];
    }

    /** Of `used` bytes cut from the page the counters know which have been returned; an ordinary page, or
      one that holds a single large block; and unless nothing was cut, something is in use. */
    ghost predicate Ok(used: nat)
      reads this
    {
      && Sized(cells) && used == Total(cells) && used <= capacity && freedSize == Dead(cells, |cells|)
      && (capacity == PAGE_SIZE || (|cells| == 1 && cells[0].size == capacity && capacity > LARGE))
      && (cells == [] || freedSize < used)
    }
  }

  ghost predicate Distinct(pages: seq<Page>) {
    forall i, j | 0 <= i < j < |pages| :: pages[i] != pages[j]
  }

  lemma OneCell(size: nat)
    requires size > 0 && size % ALIGNMENT == 0
    ensures var c := [Cell(size, true)]; Sized(c) && Total(c) == size && Dead(c, 1) == 0
  {
    var c := [Cell(size, true)];
    assert Offset(c, 0) == 0 && Dead(c, 0) == 0;
  }

  // ------------------------------------------------------------------ string headers

  const STRING_HEADER: nat := 4

  /** Two 16-bit fields in front of the characters of a string. */
  datatype Header = Header(pageOffset: nat, fullSize: nat)

  /** A header and the characters, rounded up to the alignment. */
  function BlockSize(length: nat): (size: nat)
    ensures STRING_HEADER + length <= size < STRING_HEADER + length + ALIGNMENT && size % ALIGNMENT == 0
  {
    (STRING_HEADER + length + ALIGNMENT - 1) / ALIGNMENT * ALIGNMENT
  }

  /** What is stored, cut to 16 bits each; a size of 0 stands for a block that is a whole page. */
  function HeaderOf(offset: nat, size: nat): Header {
    Header(offset / ALIGNMENT % 0x1_0000, if size < MAX_ENCODED then size / ALIGNMENT % 0x1_0000 else 0)
  }

  lemma OffsetBack(offset: nat)
    requires offset % ALIGNMENT == 0 && offset < MAX_ENCODED
    ensures offset / ALIGNMENT % 0x1_0000 * ALIGNMENT == offset
  {
    assert offset / ALIGNMENT < 0x1_0000;
  }

  lemma SizeBack(size: nat)
    requires size > 0 && size % ALIGNMENT == 0
    ensures var f := if size < MAX_ENCODED then size / ALIGNMENT % 0x1_0000 else 0;
            && (f == 0 <==> size >= MAX_ENCODED)
            && (f != 0 ==> f * ALIGNMENT == size)
  {
    if size < MAX_ENCODED {
      OffsetBack(size);
      assert size / ALIGNMENT > 0;
    }
  }

  /** Where a block can start: within an ordinary page, or at the front of a large one. */
  lemma WhereBlocksStart(page: Page, i: nat, used: nat)
    requires page.Ok(used) && i < |page.cells|
    ensures Offset(page.cells, i) < MAX_ENCODED
    ensures page.cells[i].size > PAGE_SIZE ==> page.capacity > PAGE_SIZE && page.cells[i].size == used
    ensures page.cells[i].size > 0 && page.cells[i].size % ALIGNMENT == 0
  {
    var c := page.cells;
    OffsetsGrow(c, i, |c|);
    assert Offset(c, 0) == 0;
  }

  /** The 16 bits are enough for every place a block can start at. */
  lemma HeaderKeepsOffset(page: Page, i: nat, used: nat)
    requires page.Ok(used) && i < |page.cells|
    ensures HeaderOf(Offset(page.cells, i), page.cells[i].size).pageOffset * ALIGNMENT == Offset(page.cells, i)
  {
    hide Offset;
    WhereBlocksStart(page, i, used);
    OffsetsAligned(page.cells, i);
    OffsetBack(Offset(page.cells, i));
  }

  /** The header tells the size of the block, with the help of the page if the block is a whole page,
    which an ordinary page never is. */
  lemma HeaderKeepsSize(page: Page, i: nat, used: nat)
    requires page.Ok(used) && i < |page.cells| && (page.capacity > PAGE_SIZE ==> used == page.busySize)
    ensures var h := HeaderOf(Offset(page.cells, i), page.cells[i].size);
            page.cells[i].size == if h.fullSize == 0 then page.busySize else h.fullSize * ALIGNMENT
  {
    hide Offset;
    WhereBlocksStart(page, i, used);
    SizeBack(page.cells[i].size);
  }

  lemma NoCells()
    ensures Sized([]) && Total([]) == 0 && Dead([], 0) == 0
  {
  }

  class Arena {
    var pages: seq<Page>
    var busySize: nat

    /** How much of page `i` has been cut; for the last page the arena keeps count. */
    ghost function Used(i: nat): nat
      requires i < |pages|
      reads this, pages
    {
      if i + 1 == |pages| then busySize else pages[i].busySize
    }

    ghost predicate PageOk(i: nat)
      requires i < |pages|
      reads this, pages
    {
      pages[i].Ok(Used(i))
    }

    /** The first page of the list is full from the start, so nothing is ever cut from it. */
    ghost predicate Valid()
      reads this, pages
    {
      && pages != [] && Distinct(pages)
      && (forall i {:trigger PageOk(i)} | 0 < i < |pages| :: PageOk(i))
      && pages[|pages| - 1].capacity == PAGE_SIZE
      && (|pages| == 1 ==> busySize == PAGE_SIZE)
    }

    constructor ()
      ensures Valid() && fresh(pages) && |pages| == 1
    {
      var sentinel := new Page(PAGE_SIZE);
      busySize := PAGE_SIZE;
      pages := [sentinel];
      new;
      sentinel.busySize := PAGE_SIZE;
    }

    /** `allocate_memory`: from the last page if it fits, else from a new one. The first block ever must
      be a small one, since there is no page yet in front of which a large one could be put. */
    method AllocateMemory(size: nat) returns (page: Page, offset: nat)
      requires Valid() && size > 0 && size % ALIGNMENT == 0 && (|pages| == 1 ==> size <= LARGE)
      modifies this, pages
      ensures Valid() && |pages| > 1 && page in pages[1..]
      ensures forall p | p in pages && p !in old(pages) :: p == page && fresh(p)
      ensures forall p | p in old(pages) :: p in pages && (p != page ==> p.cells == old(p.cells))
      ensures page.cells == (if page in old(pages) then old(page.cells) else []) + [Cell(size, true)]
      ensures offset == Offset(page.cells, |page.cells| - 1) && offset + size <= page.capacity
      ensures pages[0] == old(pages[0])
    {
      if busySize + size > PAGE_SIZE {
        page := AllocateOob(size);
        offset := 0;
      } else {
        var n := |pages|;
        page := pages[n - 1];
        assert PageOk(n - 1);
        ghost var c := page.cells;
        AppendedTotal(c, Cell(size, true));
        Appended(c, Cell(size, true), |c|);
        offset := busySize;
        busySize := busySize + size;
        page.cells := c + [Cell(size, true)];
        forall i | 0 < i < |pages| ensures PageOk(i) { assert old(PageOk(i)); }
      }
    }

    /** `allocate_memory_oob`: a new last page for a small block; a page of its own, in front of the last
      one, for a large block. */
    method AllocateOob(size: nat) returns (page: Page)
      requires Valid() && size > 0 && size % ALIGNMENT == 0 && (|pages| == 1 ==> size <= LARGE)
      modifies this, pages
      ensures Valid() && fresh(page) && page.cells == [Cell(size, true)] && size <= page.capacity
      ensures forall p | p in old(pages) :: p in pages && p.cells == old(p.cells)
      ensures page in pages[1..] && page !in old(pages) && forall p | p in pages && p !in old(pages) :: p == page
      ensures pages[0] == old(pages[0])
    {
      if size <= LARGE {
        page := NewTop(size);
      } else {
        page := NewLarge(size);
      }
    }

    method NewTop(size: nat) returns (page: Page)
      requires Valid() && size > 0 && size % ALIGNMENT == 0 && size <= LARGE
      modifies this, pages
      ensures Valid() && fresh(page) && page.cells == [Cell(size, true)] && size <= page.capacity
      ensures pages == old(pages) + [page] && page in pages[1..]
      ensures forall p | p in old(pages) :: p.cells == old(p.cells)
    {
      OneCell(size);
      page := new Page(PAGE_SIZE);
      page.cells := [Cell(size, true)];
      var n := |pages|;
      pages[n - 1].busySize := busySize;
      pages := pages + [page];
      busySize := size;
      forall i | 0 < i < |pages| ensures PageOk(i) { if i < n { assert old(PageOk(i)); } }
      assert pages[1..][n - 1] == page;
    }

    method NewLarge(size: nat) returns (page: Page)
      requires Valid() && size > LARGE && size % ALIGNMENT == 0 && |pages| > 1
      modifies this
      ensures Valid() && fresh(page) && page.cells == [Cell(size, true)] && size <= page.capacity
      ensures pages == old(pages)[..|old(pages)| - 1] + [page, old(pages)[|old(pages)| - 1]] && page in pages[1..]
      ensures forall p | p in old(pages) :: p in pages
    {
      OneCell(size);
      page := new Page(size);
      page.cells := [Cell(size, true)];
      page.busySize := size;
      var n, all := |pages|, pages;
      pages := all[..n - 1] + [page, all[n - 1]];
      forall i | 0 < i < |pages| ensures PageOk(i) {
        if i != n - 1 { assert old(PageOk(if i < n then i else n - 1)); }
      }
      assert pages[1..][n - 2] == page;
      assert all == all[..n - 1] + [all[n - 1]];
    }

    /** `allocate_string`: the block holds a header in front of the characters. */
    method AllocateString(length: nat) returns (page: Page, offset: nat, header: Header)
      requires Valid() && (|pages| == 1 ==> BlockSize(length) <= LARGE)
      modifies this, pages
      ensures Valid() && |pages| > 1 && page in pages[1..]
      ensures forall p | p in pages && p !in old(pages) :: p == page && fresh(p)
      ensures forall p | p in old(pages) :: p in pages && (p != page ==> p.cells == old(p.cells))
      ensures page.cells == (if page in old(pages) then old(page.cells) else []) + [Cell(BlockSize(length), true)]
      ensures offset == Offset(page.cells, |page.cells| - 1) && STRING_HEADER + length <= BlockSize(length)
      ensures header == HeaderOf(offset, BlockSize(length)) && header.pageOffset * ALIGNMENT == offset
      ensures pages[0] == old(pages[0])
    {
      var full := BlockSize(length);
      page, offset := AllocateMemory(full);
      header := HeaderOf(offset, full);
      ghost var k := PageIndex(page);
      assert PageOk(k);
      HeaderKeepsOffset(page, |page.cells| - 1, Used(k));
    }

    ghost predicate NothingLeft(c: Cells, i: nat) {
      forall k | 0 <= k < |c| && k != i :: !c[k].live
    }

    /** `deallocate_memory`: a block in use, number `i` of its page, is returned. The page itself goes when
      nothing else on it is in use, unless it is the last page, which starts over. */
    method DeallocateMemory(page: Page, size: nat, ghost i: nat)
      requires Valid() && page in pages[1..] && i < |page.cells| && page.cells[i] == Cell(size, true)
      modifies this, page
      ensures Valid()
      ensures forall p | p in old(pages) && p != page :: p in pages
      ensures forall p | p in pages :: p in old(pages)
      ensures page !in pages <==> NothingLeft(old(page.cells), i) && page != old(pages)[|old(pages)| - 1]
      ensures page in pages ==> page.cells == if NothingLeft(old(page.cells), i) then [] else Freed(old(page.cells), i)
      ensures |pages| > 1 && pages[0] == old(pages[0])
    {
      hide Offset, Dead, Sized;
      var k := IndexOf(page);
      assert PageOk(k);
      ReturnOne(page.cells, i);
      var top := k + 1 == |pages|;
      if top { page.busySize := busySize; }
      page.freedSize := page.freedSize + size;
      page.cells := Freed(page.cells, i);
      assert page.freedSize <= page.busySize;
      forall j | 0 < j < |pages| && j != k ensures PageOk(j) { assert old(PageOk(j)); }
      if page.freedSize == page.busySize {
        if top {
          page.busySize := 0;
          page.freedSize := 0;
          page.cells := [];
          busySize := 0;
          NoCells();
          forall j | 0 < j < |pages| ensures PageOk(j) { if j != k { assert old(PageOk(j)); } }
        } else {
          RemovePage(k);
        }
      }
    }

    /** `deallocate_string`: the size is read back from the header, and it is the size that was taken. */
    method DeallocateString(page: Page, header: Header, ghost i: nat)
      requires Valid() && page in pages[1..] && i < |page.cells| && page.cells[i].live
      requires header == HeaderOf(Offset(page.cells, i), page.cells[i].size)
      modifies this, page
      ensures Valid()
      ensures forall p | p in old(pages) && p != page :: p in pages
      ensures forall p | p in pages :: p in old(pages)
      ensures page !in pages <==> NothingLeft(old(page.cells), i) && page != old(pages)[|old(pages)| - 1]
      ensures page in pages ==> page.cells == if NothingLeft(old(page.cells), i) then [] else Freed(old(page.cells), i)
      ensures |pages| > 1 && pages[0] == old(pages[0])
    {
      ghost var k := PageIndex(page);
      assert PageOk(k);
      HeaderKeepsSize(page, i, Used(k));
      var full := if header.fullSize == 0 then page.busySize else header.fullSize * ALIGNMENT;
      DeallocateMemory(page, full, i);
    }

    /** Taking a page other than the first and the last out of the list. */
    method RemovePage(k: nat)
      requires Distinct(pages) && 0 < k < |pages| - 1 && pages[|pages| - 1].capacity == PAGE_SIZE
      requires forall j {:trigger PageOk(j)} | 0 < j < |pages| && j != k :: PageOk(j)
      modifies this`pages
      ensures Valid() && pages == old(pages)[..k] + old(pages)[k + 1..]
      ensures old(pages)[k] !in pages && forall p | p in old(pages) && p != old(pages)[k] :: p in pages
    {
      var all := pages;
      pages := all[..k] + all[k + 1..];
      forall j | 0 < j < |pages| ensures PageOk(j) {
        assert old(PageOk(if j < k then j else j + 1));
      }
      forall p | p in all && p != all[k] ensures p in pages {
        var j :| 0 <= j < |all| && all[j] == p;
        assert p == pages[if j < k then j else j - 1];
      }
    }

    lemma PageIndex(page: Page) returns (k: nat)
      requires pages != [] && page in pages[1..]
      ensures 0 < k < |pages| && pages[k] == page
    {
      var j :| 0 <= j < |pages| - 1 && pages[1..][j] == page;
      k := j + 1;
    }

    method IndexOf(page: Page) returns (k: nat)
      requires pages != [] && page in pages[1..]
      ensures 0 < k < |pages| && pages[k] == page
    {
      k := 1;
      ghost var j :| 0 <= j < |pages| - 1 && pages[1..][j] == page;
      while pages[k] != page
        invariant 0 < k <= j + 1
        decreases j - k
      {
        k := k + 1;
      }
    }
  }

  /** The counters after one more block has been returned. */
  lemma ReturnOne(c: Cells, i: nat)
    requires Sized(c) && i < |c| && c[i].live
    ensures var d := Freed(c, i);
            && Sized(d) && Total(d) == Total(c) && Dead(d, |d|) == Dead(c, |c|) + c[i].size <= Total(c)
            && (Dead(d, |d|) == Total(d) <==> forall k | 0 <= k < |c| && k != i :: !c[k].live)
  {
    var d := Freed(c, i);
    FreedSame(c, i, |c|);
    AllDead(d, |d|);
    assert forall k | 0 <= k < |c| && k != i :: d[k] == c[k];
  }

  // ------------------------------------------------------------------ any run

  /** What the caller keeps of a block in use: of a string its header, of a node or an attribute, whose
    size the caller knows, where it is. */
  datatype Block = Text(page: Page, header: Header) | Object(page: Page, offset: nat, size: nat)

  /** What is kept of a block that starts at `offset` and has `size` bytes. */
  predicate Describes(b: Block, offset: nat, size: nat) {
    match b
    case Text(_, header) => header == HeaderOf(offset, size)
    case Object(_, o, n) => o == offset && n == size
  }

  /** Where the caller takes the block to start. */
  function StartOf(b: Block): nat {
    match b
    case Text(_, header) => header.pageOffset * ALIGNMENT
    case Object(_, offset, _) => offset
  }

  /** What has been cut from each page. */
  ghost function CellsOf(pages: seq<Page>): map<Page, Cells>
    reads pages
  {
    map p | p in pages :: p.cells
  }

  /** The block is number `i` of its page, which is not the first one. */
  ghost predicate InUse(first: Page, cells: map<Page, Cells>, b: Block, i: nat) {
    && b.page in cells && b.page != first
    && i < |cells[b.page]| && cells[b.page][i].live
    && Describes(b, Offset(cells[b.page], i), cells[b.page][i].size)
  }

  predicate Is(b: Block, j: nat, page: Page, i: nat) {
    b.page == page && j == i
  }

  /** How many bytes the block, number `i` of its page, has. */
  ghost function SizeAt(b: Block, i: nat): nat
    reads b.page
  {
    if i < |b.page.cells| then b.page.cells[i].size else 0
  }

  ghost function SizesAt(blocks: seq<Block>, at: seq<nat>): (sizes: seq<nat>)
    requires |at| == |blocks|
    reads set b | b in blocks :: b.page
    ensures |sizes| == |blocks| && forall k | 0 <= k < |blocks| :: sizes[k] == SizeAt(blocks[k], at[k])
  {
    seq(|blocks|, k requires 0 <= k < |blocks| reads set b | b in blocks :: b.page => SizeAt(blocks[k], at[k]))
  }

  /** Number `i` of the block's page is as large as it was. */
  ghost predicate SameSize(cells: map<Page, Cells>, after: map<Page, Cells>, b: Block, i: nat) {
    && b.page in cells && b.page in after && i < |cells[b.page]| && i < |after[b.page]|
    && after[b.page][i].size == cells[b.page][i].size
  }

  /** `blocks`, at the numbers `at` of their pages, are the blocks in use, each once, and there are no others. */
  ghost predicate Accounted(first: Page, cells: map<Page, Cells>, blocks: seq<Block>, at: seq<nat>) {
    && |at| == |blocks|
    && (forall k | 0 <= k < |blocks| :: InUse(first, cells, blocks[k], at[k]))
    && (forall j, k | 0 <= j < k < |blocks| :: !Is(blocks[j], at[j], blocks[k].page, at[k]))
    && (forall p, i | p in cells && p != first && 0 <= i < |cells[p]| && cells[p][i].live ::
          exists k :: 0 <= k < |blocks| && Is(blocks[k], at[k], p, i))
  }

  ghost predicate Accounts(arena: Arena, blocks: seq<Block>, at: seq<nat>)
    reads arena, arena.pages
  {
    arena.Valid() && Accounted(arena.pages[0], CellsOf(arena.pages), blocks, at)
  }

  lemma BehindFirst(pages: seq<Page>, p: Page)
    requires Distinct(pages) && pages != []
    ensures p in pages[1..] <==> p in pages && p != pages[0]
  {
    if p in pages && p != pages[0] {
      var k :| 0 <= k < |pages| && pages[k] == p;
      assert pages[1..][k - 1] == p;
    }
  }

  /** A block in use ends within its page. */
  lemma BlockWithinPage(arena: Arena, b: Block, i: nat)
    requires arena.Valid() && InUse(arena.pages[0], CellsOf(arena.pages), b, i)
    ensures i < |b.page.cells| && StartOf(b) == Offset(b.page.cells, i)
    ensures StartOf(b) + b.page.cells[i].size <= b.page.capacity
  {
    BehindFirst(arena.pages, b.page);
    var x := arena.PageIndex(b.page);
    assert arena.PageOk(x);
    HeaderKeepsOffset(b.page, i, arena.Used(x));
    OffsetsGrow(b.page.cells, i, |b.page.cells|);
  }

  /** The bytes of two blocks in use are apart. */
  lemma BlocksApart(arena: Arena, blocks: seq<Block>, at: seq<nat>, j: nat, k: nat)
    requires Accounts(arena, blocks, at) && j < k < |blocks|
    ensures var a, b := blocks[j], blocks[k];
            var from, to := StartOf(a), StartOf(b);
            && |at| == |blocks| && at[j] < |a.page.cells| && at[k] < |b.page.cells|
            && (a.page == b.page ==> from + a.page.cells[at[j]].size <= to || to + b.page.cells[at[k]].size <= from)
  {
    hide Arena.Valid, HeaderOf;
    var a, b := blocks[j], blocks[k];
    assert InUse(arena.pages[0], CellsOf(arena.pages), a, at[j])
      && InUse(arena.pages[0], CellsOf(arena.pages), b, at[k]);
    BlockWithinPage(arena, a, at[j]);
    BlockWithinPage(arena, b, at[k]);
    assert !Is(a, at[j], b.page, at[k]);
    if a.page == b.page { BlocksDisjoint(a.page.cells, at[j], at[k]); }
  }

  /** No page has more returned than cut, nor more cut than it holds; and a page from which something has
    been cut holds a block in use. */
  lemma PagesAccounted(arena: Arena, k: nat)
    requires arena.Valid() && 0 < k < |arena.pages|
    ensures var page := arena.pages[k];
            && page.freedSize <= arena.Used(k) <= page.capacity
            && (page.cells != [] ==> exists i :: 0 <= i < |page.cells| && page.cells[i].live)
  {
    assert arena.PageOk(k);
    var c := arena.pages[k].cells;
    AllDead(c, |c|);
  }

  lemma ValidDistinct(arena: Arena)
    requires arena.Valid()
    ensures Distinct(arena.pages) && arena.pages != []
  {
  }

  lemma AppendedOffset(c: Cells, x: Cell, n: nat)
    requires n < |c|
    ensures Offset(c + [x], n) == Offset(c, n) && (c + [x])[n] == c[n]
  {
    Appended(c, x, n);
  }

  /** One more block, at the end of a page that may be new. */
  lemma OneTaken(first: Page, cells: map<Page, Cells>, after: map<Page, Cells>, page: Page, x: Cell, blocks: seq<Block>,
      at: seq<nat>, b: Block, n: nat)
    requires Accounted(first, cells, blocks, at) && page != first && x.live
    requires after.Keys == cells.Keys + {page} && forall p | p in cells && p != page :: after[p] == cells[p]
    requires after[page] == (if page in cells then cells[page] else []) + [x] && n == |after[page]| - 1
    requires b.page == page && Describes(b, Offset(after[page], n), x.size)
    ensures Accounted(first, after, blocks + [b], at + [n])
    ensures |at| == |blocks| && forall k | 0 <= k < |blocks| :: SameSize(cells, after, blocks[k], at[k])
  {
    hide Describes, Offset;
    var more, places := blocks + [b], at + [n];
    forall k | 0 <= k < |blocks|
      ensures InUse(first, after, blocks[k], at[k]) && !Is(blocks[k], at[k], page, n)
      ensures SameSize(cells, after, blocks[k], at[k])
    {
      assert InUse(first, cells, blocks[k], at[k]);
      if blocks[k].page == page { AppendedOffset(cells[page], x, at[k]); }
    }
    forall p, i | p in after && p != first && 0 <= i < |after[p]| && after[p][i].live
      ensures exists k :: 0 <= k < |more| && Is(more[k], places[k], p, i)
    {
      if p == page && i == n {
        assert Is(more[|blocks|], places[|blocks|], p, i);
      } else {
        var k :| 0 <= k < |blocks| && Is(blocks[k], at[k], p, i);
        assert Is(more[k], places[k], p, i);
      }
    }
  }

  /** One block less; its page may be gone or start over, if nothing else on it was in use. */
  lemma OneReturned(first: Page, cells: map<Page, Cells>, after: map<Page, Cells>, blocks: seq<Block>, at: seq<nat>,
      k: nat)
    requires Accounted(first, cells, blocks, at) && k < |blocks|
    requires |at| == |blocks| && Gone(cells, after, blocks[k].page, at[k])
    ensures Accounted(first, after, blocks[..k] + blocks[k + 1..], at[..k] + at[k + 1..])
    ensures forall j | 0 <= j < |blocks| && j != k :: SameSize(cells, after, blocks[j], at[j])
  {
    hide *;
    var page, i := blocks[k].page, at[k];
    var fewer, left := blocks[..k] + blocks[k + 1..], at[..k] + at[k + 1..];
    forall n | 0 <= n < |fewer| ensures InUse(first, after, fewer[n], left[n]) {
      OtherInUse(first, cells, after, blocks, at, k, if n < k then n else n + 1);
    }
    forall m, n | 0 <= m < n < |fewer| ensures !Is(fewer[m], left[m], fewer[n].page, left[n]) {
      PlacesDiffer(first, cells, blocks, at, if m < k then m else m + 1, if n < k then n else n + 1);
    }
    forall p, m | p in after && p != first && 0 <= m < |after[p]| && after[p][m].live
      ensures exists n :: 0 <= n < |fewer| && Is(fewer[n], left[n], p, m)
    {
      var n := StillAccounted(first, cells, after, blocks, at, k, p, m);
      assert Is(fewer[if n < k then n else n - 1], left[if n < k then n else n - 1], p, m);
    }
    forall j | 0 <= j < |blocks| && j != k ensures SameSize(cells, after, blocks[j], at[j]) {
      OtherInUse(first, cells, after, blocks, at, k, j);
    }
    Concluded(first, after, fewer, left);
  }

  lemma Concluded(first: Page, cells: map<Page, Cells>, blocks: seq<Block>, at: seq<nat>)
    requires |at| == |blocks| && forall k | 0 <= k < |blocks| :: InUse(first, cells, blocks[k], at[k])
    requires forall j, k | 0 <= j < k < |blocks| :: !Is(blocks[j], at[j], blocks[k].page, at[k])
    requires forall p, i | p in cells && p != first && 0 <= i < |cells[p]| && cells[p][i].live ::
               exists k :: 0 <= k < |blocks| && Is(blocks[k], at[k], p, i)
    ensures Accounted(first, cells, blocks, at)
  {
    hide InUse, Is;
  }

  lemma PlacesDiffer(first: Page, cells: map<Page, Cells>, blocks: seq<Block>, at: seq<nat>, j: nat, k: nat)
    requires Accounted(first, cells, blocks, at) && j < k < |blocks|
    ensures |at| == |blocks| && !Is(blocks[j], at[j], blocks[k].page, at[k])
  {
    hide InUse, Is;
  }

  /** What becomes of the pages when block number `i` of `page` is returned. */
  ghost predicate Gone(cells: map<Page, Cells>, after: map<Page, Cells>, page: Page, i: nat) {
    && page in cells && i < |cells[page]|
    && (forall p | p in cells && p != page :: p in after && after[p] == cells[p])
    && after.Keys <= cells.Keys
    && ((page in after && after[page] == Freed(cells[page], i))
        || ((page in after ==> after[page] == []) && forall m | 0 <= m < |cells[page]| && m != i ::
             !cells[page][m].live))
  }

  lemma OtherInUse(first: Page, cells: map<Page, Cells>, after: map<Page, Cells>, blocks: seq<Block>, at: seq<nat>,
      k: nat, j: nat)
    requires Accounted(first, cells, blocks, at) && k < |blocks| && j < |blocks| && j != k
    requires |at| == |blocks| && Gone(cells, after, blocks[k].page, at[k])
    ensures InUse(first, after, blocks[j], at[j]) && SameSize(cells, after, blocks[j], at[j])
  {
    hide Describes, Offset, Accounted;
    InUseAt(first, cells, blocks, at, j);
    InUseAt(first, cells, blocks, at, k);
    PlacesDiffer(first, cells, blocks, at, if j < k then j else k, if j < k then k else j);
    if blocks[j].page == blocks[k].page { FreedSame(cells[blocks[k].page], at[k], at[j]); }
  }

  lemma StillAccounted(first: Page, cells: map<Page, Cells>, after: map<Page, Cells>, blocks: seq<Block>, at: seq<nat>,
      k: nat, p: Page, m: nat)
    returns (n: nat)
    requires Accounted(first, cells, blocks, at) && k < |blocks|
    requires |at| == |blocks| && Gone(cells, after, blocks[k].page, at[k])
    requires p in after && p != first && m < |after[p]| && after[p][m].live
    ensures n < |blocks| && n != k && Is(blocks[n], at[n], p, m)
  {
    hide InUse;
    n :| 0 <= n < |blocks| && Is(blocks[n], at[n], p, m);
  }

  method TakeBlock(arena: Arena, blocks: seq<Block>, ghost at: seq<nat>, length: nat) returns (b: Block, ghost i: nat)
    requires Accounts(arena, blocks, at) && (|arena.pages| == 1 ==> BlockSize(length) <= LARGE)
    modifies arena, arena.pages
    ensures Accounts(arena, blocks + [b], at + [i]) && |arena.pages| > 1
    ensures b.Text?
    ensures SizesAt(blocks + [b], at + [i]) == old(SizesAt(blocks, at)) + [BlockSize(length)]
    ensures forall k | 0 <= k < |arena.pages| :: arena.pages[k] in old(arena.pages) || fresh(arena.pages[k])
  {
    hide Arena.Valid, HeaderOf, BlockSize, Sized, Total, Dead, Offset, Accounted;
    ValidDistinct(arena);
    ghost var first, cells := arena.pages[0], CellsOf(arena.pages);
    var page, offset, header := arena.AllocateString(length);
    ValidDistinct(arena);
    BehindFirst(arena.pages, page);
    b, i := Text(page, header), |page.cells| - 1;
    OneTaken(first, cells, CellsOf(arena.pages), page, Cell(BlockSize(length), true), blocks, at, b, i);
  }

  /** `allocate_node` and `allocate_attribute`: a block without a header of its own. */
  method TakeObject(arena: Arena, blocks: seq<Block>, ghost at: seq<nat>, size: nat) returns (b: Block, ghost i: nat)
    requires Accounts(arena, blocks, at) && size > 0 && size % ALIGNMENT == 0 && (|arena.pages| == 1 ==> size <= LARGE)
    modifies arena, arena.pages
    ensures Accounts(arena, blocks + [b], at + [i]) && |arena.pages| > 1
    ensures b.Object?
    ensures SizesAt(blocks + [b], at + [i]) == old(SizesAt(blocks, at)) + [size]
    ensures forall k | 0 <= k < |arena.pages| :: arena.pages[k] in old(arena.pages) || fresh(arena.pages[k])
  {
    hide Arena.Valid, HeaderOf, BlockSize, Sized, Total, Dead, Offset, Accounted;
    ValidDistinct(arena);
    ghost var first, cells := arena.pages[0], CellsOf(arena.pages);
    var page, offset := arena.AllocateMemory(size);
    ValidDistinct(arena);
    BehindFirst(arena.pages, page);
    b, i := Object(page, offset, size), |page.cells| - 1;
    OneTaken(first, cells, CellsOf(arena.pages), page, Cell(size, true), blocks, at, b, i);
  }

  /** `sizes` are those of the blocks, of which `cells` has each. */
  ghost predicate SizesIn(cells: map<Page, Cells>, blocks: seq<Block>, at: seq<nat>, sizes: seq<nat>) {
    && |sizes| == |at| == |blocks|
    && forall k | 0 <= k < |blocks| ::
         blocks[k].page in cells && at[k] < |cells[blocks[k].page]| && sizes[k] == cells[blocks[k].page][at[k]].size
  }

  lemma SizesAre(arena: Arena, blocks: seq<Block>, at: seq<nat>)
    requires |at| == |blocks| && Accounts(arena, blocks, at)
    ensures SizesIn(CellsOf(arena.pages), blocks, at, SizesAt(blocks, at))
  {
    hide Arena.Valid, Describes;
  }

  /** The blocks but number `k`, if they are as large as they were. */
  lemma SizesLeft(pages: seq<Page>, cells: map<Page, Cells>, was: seq<nat>, blocks: seq<Block>, at: seq<nat>, k: nat)
    requires SizesIn(cells, blocks, at, was) && k < |blocks| && |at| == |blocks| == |was|
    requires forall j | 0 <= j < |blocks| && j != k :: SameSize(cells, CellsOf(pages), blocks[j], at[j])
    ensures SizesAt(blocks[..k] + blocks[k + 1..], at[..k] + at[k + 1..]) == was[..k] + was[k + 1..]
  {
  }

  method ReturnBlock(arena: Arena, blocks: seq<Block>, ghost at: seq<nat>, k: nat)
    requires Accounts(arena, blocks, at) && k < |blocks|
    modifies arena, arena.pages
    ensures Accounts(arena, blocks[..k] + blocks[k + 1..], at[..k] + at[k + 1..])
    ensures SizesAt(blocks[..k] + blocks[k + 1..], at[..k] + at[k + 1..])
            == old(SizesAt(blocks, at)[..k] + SizesAt(blocks, at)[k + 1..])
    ensures forall k | 0 <= k < |arena.pages| :: arena.pages[k] in old(arena.pages)
    ensures |arena.pages| > 1
  {
    hide Arena.Valid, HeaderOf, BlockSize, Sized, Total, Dead, Offset, Accounted, SizesAt, SizeAt, SizesIn;
    ValidDistinct(arena);
    ghost var first, cells := arena.pages[0], CellsOf(arena.pages);
    var b := blocks[k];
    InUseAt(first, cells, blocks, at, k);
    ghost var was := SizesAt(blocks, at);
    SizesAre(arena, blocks, at);
    BehindFirst(arena.pages, b.page);
    match b {
      case Text(page, header) => arena.DeallocateString(page, header, at[k]);
      case Object(page, _, size) => arena.DeallocateMemory(page, size, at[k]);
    }
    ValidDistinct(arena);
    assert Gone(cells, CellsOf(arena.pages), b.page, at[k]);
    OneReturned(first, cells, CellsOf(arena.pages), blocks, at, k);
    SizesLeft(arena.pages, cells, was, blocks, at, k);
  }

  lemma InUseAt(first: Page, cells: map<Page, Cells>, blocks: seq<Block>, at: seq<nat>, k: nat)
    requires Accounted(first, cells, blocks, at) && k < |blocks|
    ensures |at| == |blocks| && InUse(first, cells, blocks[k], at[k])
  {
  }

  datatype Step = TakeString(length: nat) | TakeStruct(size: nat) | Return(k: nat)

  /** A request the allocator serves: strings of any length, aligned structures of any size, but first of
    all a block of at most a quarter of a page. */
  predicate Served(s: Step, isFirst: bool) {
    match s
    case TakeString(length) => isFirst ==> BlockSize(length) <= LARGE
    case TakeStruct(size) => size > 0 && size % ALIGNMENT == 0 && (isFirst ==> size <= LARGE)
    case Return(_) => true
  }

  predicate NothingTakenBefore(steps: seq<Step>, n: nat)
    requires n <= |steps|
  {
    forall j | 0 <= j < n :: steps[j].Return?
  }

  /** The steps among the first `n` that took a block which has not been returned; `Return(k)` returns the
    block of the one at `k`, if there is one. */
  function Outstanding(steps: seq<Step>, n: nat): (o: seq<nat>)
    requires n <= |steps|
    ensures forall k | 0 <= k < |o| :: o[k] < n && !steps[o[k]].Return?
  {
    if n == 0 then []
    else
      var before := Outstanding(steps, n - 1);
      match steps[n - 1]
      case Return(k) => if k < |before| then before[..k] + before[k + 1..] else before
      case _ => before + [n - 1]
  }

  /** The block is of the kind, and `size` the size, that the step asks for. */
  predicate Serves(s: Step, b: Block, size: nat) {
    match s
    case TakeString(length) => b.Text? && size == BlockSize(length)
    case TakeStruct(n) => b.Object? && size == n
    case Return(_) => false
  }

  /** The blocks in use are those that the outstanding steps got, each as large as its step asked for. */
  ghost predicate Kept(steps: seq<Step>, o: seq<nat>, got: map<nat, Block>, blocks: seq<Block>, sizes: seq<nat>) {
    |blocks| == |sizes| == |o| && forall k | 0 <= k < |o| :: KeptAt(steps, o, got, blocks, sizes, k)
  }

  ghost predicate KeptAt(steps: seq<Step>, o: seq<nat>, got: map<nat, Block>, blocks: seq<Block>, sizes: seq<nat>,
      k: nat)
    requires k < |o| == |blocks| == |sizes|
  {
    && o[k] in got && blocks[k] == got[o[k]]
    && o[k] < |steps| && Serves(steps[o[k]], blocks[k], sizes[k])
  }

  lemma OneMoreKept(steps: seq<Step>, n: nat, got: map<nat, Block>, blocks: seq<Block>, sizes: seq<nat>, b: Block,
      size: nat)
    requires n < |steps| && Kept(steps, Outstanding(steps, n), got, blocks, sizes)
    requires Serves(steps[n], b, size)
    ensures Kept(steps, Outstanding(steps, n + 1), got[n := b], blocks + [b], sizes + [size])
  {
    hide Serves, Outstanding;
    OutstandingStep(steps, n);
    var o, more := Outstanding(steps, n), got[n := b];
    ServesTakes(steps[n], b, size);
    forall k | 0 <= k <= |o| ensures KeptAt(steps, o + [n], more, blocks + [b], sizes + [size], k) {
      if k < |o| { assert KeptAt(steps, o, got, blocks, sizes, k); }
    }
  }

  lemma OneLessKept(steps: seq<Step>, n: nat, got: map<nat, Block>, blocks: seq<Block>, sizes: seq<nat>)
    requires n < |steps| && Kept(steps, Outstanding(steps, n), got, blocks, sizes) && steps[n].Return?
    ensures |sizes| == |blocks|
    ensures var k := steps[n].k;
            if k < |blocks| then
              Kept(steps, Outstanding(steps, n + 1), got, blocks[..k] + blocks[k + 1..], sizes[..k] + sizes[k + 1..])
            else
              Kept(steps, Outstanding(steps, n + 1), got, blocks, sizes)
  {
    hide Serves, Outstanding;
    OutstandingStep(steps, n);
    var o, k := Outstanding(steps, n), steps[n].k;
    if k < |blocks| {
      var left, fewer, ofThem := o[..k] + o[k + 1..], blocks[..k] + blocks[k + 1..], sizes[..k] + sizes[k + 1..];
      forall m | 0 <= m < |left| ensures KeptAt(steps, left, got, fewer, ofThem, m) {
        assert KeptAt(steps, o, got, blocks, sizes, if m < k then m else m + 1);
      }
    }
  }

  lemma OutstandingStep(steps: seq<Step>, n: nat)
    requires n < |steps|
    ensures var o := Outstanding(steps, n);
            Outstanding(steps, n + 1) ==
              if !steps[n].Return? then o + [n]
              else if steps[n].k < |o| then o[..steps[n].k] + o[steps[n].k + 1..] else o
  {
  }

  lemma ServedBy(s: Step, b: Block)
    ensures s.TakeString? && b.Text? ==> Serves(s, b, BlockSize(s.length))
    ensures s.TakeStruct? && b.Object? ==> Serves(s, b, s.size)
  {
    hide BlockSize;
  }

  lemma ServesTakes(s: Step, b: Block, size: nat)
    requires Serves(s, b, size)
    ensures !s.Return?
  {
  }

  /** Whatever strings, nodes and attributes are taken and returned in whatever order, the account is kept:
    the blocks in use are those handed out for the outstanding steps, and no others. */
  method Run(steps: seq<Step>)
    returns (arena: Arena, blocks: seq<Block>, ghost at: seq<nat>, ghost got: map<nat, Block>)
    requires forall k | 0 <= k < |steps| :: Served(steps[k], NothingTakenBefore(steps, k))
    ensures Accounts(arena, blocks, at)
    ensures got.Keys == set n | 0 <= n < |steps| && !steps[n].Return?
    ensures |at| == |blocks| && Kept(steps, Outstanding(steps, |steps|), got, blocks, SizesAt(blocks, at))
  {
    hide *;
    arena := new Arena();
    blocks, at, got := [], [], map[];
    NothingTaken(arena);
    NothingYet(steps);
    assert SizesAt(blocks, at) == [];
    for n := 0 to |steps|
      invariant fresh(arena) && fresh(arena.pages)
      invariant Accounts(arena, blocks, at) && |at| == |blocks|
      invariant |arena.pages| == 1 ==> NothingTakenBefore(steps, n)
      invariant got.Keys == set j | 0 <= j < n && !steps[j].Return?
      invariant Kept(steps, Outstanding(steps, n), got, blocks, SizesAt(blocks, at))
    {
      ServedMeans(steps[n], NothingTakenBefore(steps, n));
      OneStepOn(steps, n);
      ghost var sizes := SizesAt(blocks, at);
      match steps[n]
      case TakeString(length) =>
        ghost var i;
        var b;
        b, i := TakeBlock(arena, blocks, at, length);
        ServedBy(steps[n], b);
        OneMoreKept(steps, n, got, blocks, sizes, b, BlockSize(length));
        blocks, at := blocks + [b], at + [i];
        got := got[n := b];
      case TakeStruct(size) =>
        ghost var i;
        var b;
        b, i := TakeObject(arena, blocks, at, size);
        ServedBy(steps[n], b);
        OneMoreKept(steps, n, got, blocks, sizes, b, size);
        blocks, at := blocks + [b], at + [i];
        got := got[n := b];
      case Return(k) =>
        OneLessKept(steps, n, got, blocks, sizes);
        if k < |blocks| {
          ReturnBlock(arena, blocks, at, k);
          blocks, at := blocks[..k] + blocks[k + 1..], at[..k] + at[k + 1..];
        }
    }
  }

  lemma NothingYet(steps: seq<Step>)
    ensures NothingTakenBefore(steps, 0) && Kept(steps, Outstanding(steps, 0), map[], [], [])
  {
  }

  lemma ServedMeans(s: Step, isFirst: bool)
    requires Served(s, isFirst)
    ensures s.TakeString? && isFirst ==> BlockSize(s.length) <= LARGE
    ensures s.TakeStruct? ==> s.size > 0 && s.size % ALIGNMENT == 0 && (isFirst ==> s.size <= LARGE)
  {
    hide BlockSize;
  }

  lemma OneStepOn(steps: seq<Step>, n: nat)
    requires n < |steps|
    ensures NothingTakenBefore(steps, n) && steps[n].Return? ==> NothingTakenBefore(steps, n + 1)
  {
  }

  lemma NothingTaken(arena: Arena)
    requires arena.Valid() && |arena.pages| == 1
    ensures Accounts(arena, [], [])
  {
  }
}
