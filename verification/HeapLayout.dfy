/**
 The heap as a picture: a list of major blocks, each holding minor blocks
 ("chunks") in address order.  The allocator never stores this value; it is the
 meaning of the linked headers that HeapLinks and Liballoc keep in memory.
 */
module HeapLayout {

  const HEADER_SIZE := 40 // sizeof(struct liballoc_major) == sizeof(struct liballoc_minor)
  const PAGE_SIZE := 4096
  const MIN_PAGES := 16
  const ALIGNMENT := 16
  const ALIGN_INFO := 16
  const WORD32 := 0x1_0000_0000

  /** The largest request, headers included, for which the 32-bit size fields are exact. */
  const MAX_FOOTPRINT := 0xFFFF_F000

  /** One live allocation: its header address, payload size and requested size. */
  datatype Chunk = Chunk(addr: int, size: int, req: int) {
    function Payload(): int { addr + HEADER_SIZE }
    function End(): int { addr + HEADER_SIZE + size }
    function Ptr(): int { AlignPointer(Payload()) }
    function Tag(): int { Ptr() - ALIGN_INFO }

    /** Bytes the caller of malloc may use. */
    ghost predicate Owns(a: int) { Ptr() <= a < Ptr() + req }
  }

  datatype Block = Block(addr: int, pages: nat, chunks: seq<Chunk>) {
    function Size(): int { pages * PAGE_SIZE }
    function End(): int { addr + Size() }
    function Usage(): int { HEADER_SIZE + Footprint(chunks) }
    function Free(): int { Size() - Usage() }
    ghost predicate Covers(a: int) { addr <= a < End() }
  }

  type Layout = seq<Block>

  // ---------------------------------------------------------------- alignment

  /** The ALIGN macro's pointer. */
  function AlignPointer(base: int): (p: int)
    ensures p % ALIGNMENT == 0
    ensures base + ALIGN_INFO <= p < base + ALIGN_INFO + ALIGNMENT
  {
    var ptr := base + ALIGN_INFO;
    var diff := ptr % ALIGNMENT;
    if diff != 0 then ptr + (ALIGNMENT - diff) else ptr
  }

  // ------------------------------------------------------------------- totals

  /** Headers plus payloads of a run of chunks. */
  function Footprint(cs: seq<Chunk>): int {
    if cs == [] then 0 else Footprint(cs[..|cs| - 1]) + HEADER_SIZE + cs[|cs| - 1].size
  }

  function PayloadBytes(cs: seq<Chunk>): int {
    if cs == [] then 0 else PayloadBytes(cs[..|cs| - 1]) + cs[|cs| - 1].size
  }

  function InUse(layout: Layout): int {
    if layout == [] then 0 else InUse(layout[..|layout| - 1]) + PayloadBytes(layout[|layout| - 1].chunks)
  }

  function Allocated(layout: Layout): int {
    if layout == [] then 0 else Allocated(layout[..|layout| - 1]) + layout[|layout| - 1].Size()
  }

  lemma {:induction false} FootprintConcat(a: seq<Chunk>, b: seq<Chunk>)
    ensures Footprint(a + b) == Footprint(a) + Footprint(b)
    ensures PayloadBytes(a + b) == PayloadBytes(a) + PayloadBytes(b)
  {
    if b == [] {
      assert a + b == a;
    } else {
      assert (a + b)[..|a + b| - 1] == a + b[..|b| - 1];
      FootprintConcat(a, b[..|b| - 1]);
    }
  }

  lemma {:induction false} TotalsConcat(a: Layout, b: Layout)
    ensures InUse(a + b) == InUse(a) + InUse(b)
    ensures Allocated(a + b) == Allocated(a) + Allocated(b)
  {
    if b == [] {
      assert a + b == a;
    } else {
      assert (a + b)[..|a + b| - 1] == a + b[..|b| - 1];
      TotalsConcat(a, b[..|b| - 1]);
    }
  }

  lemma TotalsReplace(layout: Layout, i: nat, b: Block)
    requires i < |layout| && b.pages == layout[i].pages
    ensures InUse(layout[i := b]) == InUse(layout) - PayloadBytes(layout[i].chunks) + PayloadBytes(b.chunks)
    ensures Allocated(layout[i := b]) == Allocated(layout)
  {
    TotalsAt(layout, i);
    TotalsAt(layout[i := b], i);
    assert layout[i := b][i + 1..] == layout[i + 1..];
  }

  lemma TotalsAt(layout: Layout, i: nat)
    requires i < |layout|
    ensures InUse(layout) == InUse(layout[..i]) + PayloadBytes(layout[i].chunks) + InUse(layout[i + 1..])
    ensures Allocated(layout) == Allocated(layout[..i]) + layout[i].Size() + Allocated(layout[i + 1..])
  {
    LastTotals(layout[..i + 1], i);
    hide InUse, Allocated, PayloadBytes;
    assert layout[..i + 1][..i] == layout[..i] && layout[..i + 1][i] == layout[i];
    assert layout == layout[..i + 1] + layout[i + 1..];
    TotalsConcat(layout[..i + 1], layout[i + 1..]);
  }

  lemma LastTotals(layout: Layout, i: nat)
    requires |layout| == i + 1
    ensures InUse(layout) == InUse(layout[..i]) + PayloadBytes(layout[i].chunks)
    ensures Allocated(layout) == Allocated(layout[..i]) + layout[i].Size()
  {
  }

  // -------------------------------------------------------------- well-formed

  ghost predicate ValidBlock(b: Block) {
    && 0 < b.addr && b.Size() < WORD32 && b.addr + HEADER_SIZE <= b.End()
    && (forall j | 0 <= j < |b.chunks| :: ValidChunk(b, b.chunks[j]))
    && (forall j, k | 0 <= j < k < |b.chunks| :: b.chunks[j].End() <= b.chunks[k].addr)
  }

  ghost predicate ValidChunk(b: Block, c: Chunk) {
    && b.addr + HEADER_SIZE <= c.addr && c.End() <= b.End()
    && 0 <= c.req && c.req + ALIGNMENT + ALIGN_INFO <= c.size
  }

  ghost predicate Apart(a: Block, b: Block) {
    a.End() <= b.addr || b.End() <= a.addr
  }

  ghost predicate ValidLayout(layout: Layout) {
    && (forall i | 0 <= i < |layout| :: ValidBlock(layout[i]))
    && (forall i, k | 0 <= i < k < |layout| :: Apart(layout[i], layout[k]))
  }

  ghost predicate NoEmptyBlock(layout: Layout) {
    forall i | 0 <= i < |layout| :: layout[i].chunks != []
  }

  lemma NotEmpty(layout: Layout, i: nat)
    requires NoEmptyBlock(layout) && i < |layout|
    ensures layout[i].chunks != []
  {
  }

  /** What the page source promises: a run of pages that no listed major overlaps. */
  ghost predicate FreshRun(layout: Layout, addr: int, pages: nat) {
    && 0 < addr
    && (forall i | 0 <= i < |layout| :: Apart(layout[i], Block(addr, pages, [])))
  }

  // --------------------------------------------------------------------- gaps

  function GapStart(b: Block, j: nat): int
    requires j <= |b.chunks|
  {
    if j == 0 then b.addr + HEADER_SIZE else b.chunks[j - 1].End()
  }

  function GapEnd(b: Block, j: nat): int
    requires j <= |b.chunks|
  {
    if j == |b.chunks| then b.End() else b.chunks[j].addr
  }

  function Gap(b: Block, j: nat): int
    requires j <= |b.chunks|
  {
    GapEnd(b, j) - GapStart(b, j)
  }

  function GapSum(b: Block, n: nat): int
    requires n <= |b.chunks| + 1
  {
    if n == 0 then 0 else GapSum(b, n - 1) + Gap(b, n - 1)
  }

  ghost predicate Fits(b: Block, need: int) {
    exists j :: 0 <= j <= |b.chunks| && Gap(b, j) >= need
  }

  /** No gap up to and including gap k holds the need. */
  ghost predicate GapsBelow(b: Block, k: nat, need: int) {
    forall h | 0 <= h <= k && h <= |b.chunks| :: Gap(b, h) < need
  }

  ghost predicate IsFirstGap(b: Block, need: int, j: nat) {
    && j <= |b.chunks| && Gap(b, j) >= need
    && (forall h | 0 <= h < j :: Gap(b, h) < need)
  }

  lemma NoGapFits(b: Block, need: int)
    requires GapsBelow(b, |b.chunks|, need)
    ensures !Fits(b, need)
  {
  }

  lemma {:induction false} GapsTelescope(b: Block, n: nat)
    requires n <= |b.chunks|
    ensures GapSum(b, n) + Footprint(b.chunks[..n]) == GapStart(b, n) - b.addr - HEADER_SIZE
  {
    if n > 0 {
      GapsTelescope(b, n - 1);
      assert b.chunks[..n][..n - 1] == b.chunks[..n - 1];
    }
  }

  /** The gaps of a block add up to exactly its free byte count. */
  lemma GapsSumToFree(b: Block)
    ensures GapSum(b, |b.chunks| + 1) == b.Free()
  {
    GapsTelescope(b, |b.chunks|);
    assert b.chunks[..|b.chunks|] == b.chunks;
  }

  lemma GapNatural(b: Block, j: nat)
    requires ValidBlock(b) && j <= |b.chunks|
    ensures 0 <= Gap(b, j)
  {
  }

  lemma {:induction false} GapWithinSum(b: Block, j: nat, n: nat)
    requires ValidBlock(b) && j < n <= |b.chunks| + 1
    ensures 0 <= Gap(b, j) <= GapSum(b, n)
    ensures forall k | 0 <= k < n :: 0 <= Gap(b, k)
    decreases n
  {
    GapNatural(b, n - 1);
    hide Gap, ValidBlock;
    if n == 1 {
      assert GapSum(b, 1) == GapSum(b, 0) + Gap(b, 0);
    } else if j < n - 1 {
      GapWithinSum(b, j, n - 1);
    } else {
      GapWithinSum(b, 0, n - 1);
    }
  }

  /** CASE 1 of malloc skips a block by its free byte count alone: that never skips a fitting gap. */
  lemma SkipIsJustified(b: Block, need: int)
    requires ValidBlock(b) && b.Free() < need
    ensures !Fits(b, need)
  {
    GapsSumToFree(b);
    forall j | 0 <= j <= |b.chunks| ensures Gap(b, j) < need {
      GapWithinSum(b, j, |b.chunks| + 1);
    }
  }

  // ------------------------------------------------------- insert and release

  function Insert(b: Block, j: nat, c: Chunk): Block
    requires j <= |b.chunks|
  {
    b.(chunks := b.chunks[..j] + [c] + b.chunks[j..])
  }

  function Delete(b: Block, j: nat): Block
    requires j < |b.chunks|
  {
    b.(chunks := b.chunks[..j] + b.chunks[j + 1..])
  }

  /** What free leaves: the chunk is gone, and so is its block if that emptied it. */
  function Release(layout: Layout, i: nat, j: nat): Layout
    requires i < |layout| && j < |layout[i].chunks|
  {
    if |layout[i].chunks| == 1 then layout[..i] + layout[i + 1..]
    else layout[i := Delete(layout[i], j)]
  }

  lemma InsertTotals(b: Block, j: nat, c: Chunk)
    requires j <= |b.chunks|
    ensures Insert(b, j, c).Usage() == b.Usage() + HEADER_SIZE + c.size
    ensures PayloadBytes(Insert(b, j, c).chunks) == PayloadBytes(b.chunks) + c.size
  {
    var cs := b.chunks;
    assert cs == cs[..j] + cs[j..];
    FootprintConcat(cs[..j], cs[j..]);
    FootprintConcat(cs[..j] + [c], cs[j..]);
    FootprintConcat(cs[..j], [c]);
    assert [c][..0] == [];
  }

  lemma DeleteInserts(b: Block, j: nat)
    requires j < |b.chunks|
    ensures Insert(Delete(b, j), j, b.chunks[j]) == b
  {
  }

  lemma InsertDeletes(b: Block, j: nat, c: Chunk)
    requires j <= |b.chunks|
    ensures Insert(b, j, c).chunks[j] == c && Delete(Insert(b, j, c), j) == b
  {
  }

  ghost predicate Holds(b: Block, j: nat, c: Chunk) {
    && j <= |b.chunks|
    && c.addr == GapStart(b, j) && Gap(b, j) >= HEADER_SIZE + c.size
    && 0 <= c.req && c.req + ALIGNMENT + ALIGN_INFO <= c.size
  }

  /** The new chunk lies after every chunk before gap j and before every chunk after it. */
  lemma GapSeparates(b: Block, j: nat, c: Chunk)
    requires ValidBlock(b) && Holds(b, j, c)
    ensures ValidChunk(b, c)
    ensures forall k | 0 <= k < j :: b.chunks[k].End() <= c.addr
    ensures forall k | j <= k < |b.chunks| :: c.End() <= b.chunks[k].addr
  {
  }

  lemma InsertAt(b: Block, j: nat, c: Chunk, k: nat)
    requires j <= |b.chunks| && k <= |b.chunks|
    ensures Insert(b, j, c).chunks[k] == if k < j then b.chunks[k] else if k == j then c else b.chunks[k - 1]
  {
  }

  /** A chunk placed at the start of a gap that holds it keeps the block well formed. */
  lemma InsertValid(b: Block, j: nat, c: Chunk)
    requires ValidBlock(b) && Holds(b, j, c)
    ensures ValidBlock(Insert(b, j, c))
  {
    var d := Insert(b, j, c);
    GapSeparates(b, j, c);
    forall k | 0 <= k < |d.chunks| ensures ValidChunk(d, d.chunks[k]) {
      InsertAt(b, j, c, k);
    }
    forall k, l | 0 <= k < l < |d.chunks| ensures d.chunks[k].End() <= d.chunks[l].addr {
      InsertAt(b, j, c, k);
      InsertAt(b, j, c, l);
    }
  }

  lemma DeleteValid(b: Block, j: nat)
    requires ValidBlock(b) && j < |b.chunks|
    ensures ValidBlock(Delete(b, j))
  {
  }

  lemma ReplaceValid(layout: Layout, i: nat, b: Block)
    requires ValidLayout(layout) && i < |layout|
    requires ValidBlock(b) && b.addr == layout[i].addr && b.pages == layout[i].pages
    ensures ValidLayout(layout[i := b])
  {
  }

  lemma DropBlockValid(layout: Layout, i: nat)
    requires ValidLayout(layout) && i < |layout|
    ensures ValidLayout(layout[..i] + layout[i + 1..])
  {
  }

  lemma EmptyTotals()
    ensures Footprint([]) == 0 && PayloadBytes([]) == 0
  {
  }

  lemma BlockValid(layout: Layout, i: nat)
    requires ValidLayout(layout) && i < |layout|
    ensures ValidBlock(layout[i])
  {
  }

  lemma ReleaseValid(layout: Layout, i: nat, j: nat)
    requires ValidLayout(layout) && i < |layout| && j < |layout[i].chunks|
    ensures ValidLayout(Release(layout, i, j))
    ensures NoEmptyBlock(layout) ==> NoEmptyBlock(Release(layout, i, j))
    ensures InUse(Release(layout, i, j)) == InUse(layout) - layout[i].chunks[j].size
    ensures Allocated(Release(layout, i, j)) == Allocated(layout) - (if |layout[i].chunks| == 1 then layout[i].Size() else 0)
  {
    hide ValidLayout, Footprint, PayloadBytes, InUse, Allocated, Insert;
    var b := layout[i];
    DeleteInserts(b, j);
    InsertTotals(Delete(b, j), j, b.chunks[j]);
    EmptyTotals();
    assert ValidBlock(b) by { BlockValid(layout, i); }
    if |b.chunks| == 1 {
      DropBlockValid(layout, i);
      TotalsAt(layout, i);
      TotalsConcat(layout[..i], layout[i + 1..]);
      assert Delete(b, j).chunks == [];
    } else {
      DeleteValid(b, j);
      ReplaceValid(layout, i, Delete(b, j));
      TotalsReplace(layout, i, Delete(b, j));
    }
  }

  // ------------------------------------------------------- where malloc places

  /** Gap j of block i, or a new block at the end of the list. */
  datatype Place = InGap(i: nat, j: nat) | NewBlock

  /** The block order the search follows: from the best bet to the end, then from the root. */
  ghost predicate TriedBefore(start: nat, k: nat, i: nat) {
    if start <= i then start <= k < i else start <= k || k < i
  }

  /** First fit: the first fitting gap of the first fitting block in search order. */
  ghost predicate IsFirstFit(layout: Layout, start: nat, need: int, place: Place) {
    match place
    case InGap(i, j) =>
      && i < |layout| && IsFirstGap(layout[i], need, j)
      && (forall k | 0 <= k < |layout| && TriedBefore(start, k, i) :: !Fits(layout[k], need))
    case NewBlock => NothingFits(layout, need)
  }

  /** No gap of any block holds the need. */
  ghost predicate NothingFits(layout: Layout, need: int) {
    forall k | 0 <= k < |layout| :: !Fits(layout[k], need)
  }

  /** First fit asks for a new block exactly when nothing fits. */
  lemma NewBlockIff(layout: Layout, start: nat, need: int, place: Place)
    requires IsFirstFit(layout, start, need, place)
    ensures place.NewBlock? <==> NothingFits(layout, need)
  {
    if place.InGap? { assert Fits(layout[place.i], need); }
  }

  /** Where the search starts: the best bet if its free space exceeds the need, else the root. */
  ghost predicate IsSearchStart(layout: Layout, bestBet: int, need: int, start: nat) {
    if exists k :: 0 <= k < |layout| && layout[k].addr == bestBet && layout[k].Free() > need
    then start < |layout| && layout[start].addr == bestBet
    else start == 0
  }

  /** What the search has ruled out on reaching block i; `bet` says it began at the best bet. */
  ghost predicate Ruled(layout: Layout, need: int, start: nat, bet: bool, startedBet: bool, i: nat) {
    && (startedBet ==> bet && start <= i) && (!bet ==> start == 0)
    && (forall k | 0 <= k < |layout| && (if startedBet then start <= k < i else k < i || (bet && start <= k)) ::
          !Fits(layout[k], need))
  }

  lemma RuledStart(layout: Layout, need: int, start: nat, bet: bool)
    requires !bet ==> start == 0
    ensures Ruled(layout, need, start, bet, bet, start)
  {
  }

  lemma RuledFit(layout: Layout, need: int, start: nat, bet: bool, startedBet: bool, i: nat, j: nat)
    requires Ruled(layout, need, start, bet, startedBet, i)
    requires i < |layout| && IsFirstGap(layout[i], need, j)
    ensures IsFirstFit(layout, start, need, InGap(i, j)) && Fits(layout[i], need)
  {
  }

  lemma RuledOut(layout: Layout, need: int, start: nat, bet: bool, startedBet: bool, i: nat)
    requires Ruled(layout, need, start, bet, startedBet, i)
    requires i < |layout| && !Fits(layout[i], need)
    ensures Ruled(layout, need, start, bet, startedBet, i + 1)
    ensures i + 1 == |layout| && startedBet ==> Ruled(layout, need, start, bet, false, 0)
    ensures i + 1 == |layout| && !startedBet ==> IsFirstFit(layout, start, need, NewBlock)
  {
  }

  function PlacedChunk(layout: Layout, place: Place, run: int, size: nat, req: int): Chunk
    requires place.InGap? ==> place.i < |layout| && place.j <= |layout[place.i].chunks|
  {
    match place
    case InGap(i, j) => Chunk(GapStart(layout[i], j), size, req)
    case NewBlock => Chunk(run + HEADER_SIZE, size, req)
  }

  /** The layout after a successful malloc. */
  function Placed(layout: Layout, place: Place, run: int, size: nat, req: int): Layout
    requires place.InGap? ==> place.i < |layout| && place.j <= |layout[place.i].chunks|
  {
    var c := PlacedChunk(layout, place, run, size, req);
    match place
    case InGap(i, j) => layout[i := Insert(layout[i], j, c)]
    case NewBlock => layout + [Block(run, NewMajorPages(size), [c])]
  }

  /** Index of the placed chunk in the new layout. */
  function PlacedAt(layout: Layout, place: Place): (nat, nat) {
    match place
    case InGap(i, j) => (i, j)
    case NewBlock => (|layout|, 0)
  }

  // ------------------------------------------------------------ 32-bit sizing

  /** allocate_new_page's page count, with its unsigned int arithmetic. */
  function NewMajorPages(size: nat): nat {
    var st := (size % WORD32 + HEADER_SIZE + HEADER_SIZE) % WORD32;
    var pages := if st % PAGE_SIZE == 0 then st / PAGE_SIZE else st / PAGE_SIZE + 1;
    if pages < MIN_PAGES then MIN_PAGES else pages
  }

  /** The size field allocate_new_page stores. */
  function NewMajorSize(size: nat): nat {
    NewMajorPages(size) * PAGE_SIZE % WORD32
  }

  /**
   The page count of every request: the least one that is at least 16 and whose pages hold the
   request and its two headers, as far as these fit 32 bits.
   */
  lemma NewMajorPagesLeast(size: nat)
    ensures var p, need := NewMajorPages(size), (size + 80) % 0x1_0000_0000;
            16 <= p && need <= p * 4096 && (16 < p ==> (p - 1) * 4096 < need)
  {
    var st := (size % WORD32 + HEADER_SIZE + HEADER_SIZE) % WORD32;
    SameWord(size);
    PagesLeast(st, if st % PAGE_SIZE == 0 then st / PAGE_SIZE else st / PAGE_SIZE + 1);
  }

  lemma SameWord(size: nat)
    ensures (size % WORD32 + HEADER_SIZE + HEADER_SIZE) % WORD32 == (size + 80) % 0x1_0000_0000
  {
  }

  lemma PagesLeast(st: nat, p: nat)
    requires p == if st % PAGE_SIZE == 0 then st / PAGE_SIZE else st / PAGE_SIZE + 1
    ensures st <= p * 4096 < st + 4096
  {
  }

  /** A new major holds the request it was created for exactly when the request fits 32 bits, page rounding included. */
  lemma NewMajorHoldsIff(size: nat)
    ensures NewMajorSize(size) >= size + 2 * HEADER_SIZE <==> size + 2 * HEADER_SIZE <= MAX_FOOTPRINT
    ensures size + 2 * HEADER_SIZE <= MAX_FOOTPRINT ==> NewMajorSize(size) == NewMajorPages(size) * PAGE_SIZE
  {
    var st := (size % WORD32 + 2 * HEADER_SIZE) % WORD32;
    assert NewMajorPages(size) * PAGE_SIZE < st + PAGE_SIZE || NewMajorPages(size) == MIN_PAGES;
    if size + 2 * HEADER_SIZE <= MAX_FOOTPRINT {
      assert st == size + 2 * HEADER_SIZE;
      assert NewMajorPages(size) * PAGE_SIZE <= MAX_FOOTPRINT by {
        if NewMajorPages(size) != MIN_PAGES {
          assert st <= 1048575 * PAGE_SIZE;
        }
      }
    } else if size + 2 * HEADER_SIZE < WORD32 {
      assert st == size + 2 * HEADER_SIZE;
      assert NewMajorPages(size) == 0x10_0000;
    }
  }

  /** Above that bound no block fits either, so malloc always asks for a new major, and CASE 2 places in it unseen. */
  lemma OversizeFitsNowhere(b: Block, size: nat)
    requires ValidBlock(b) && size + 2 * HEADER_SIZE > MAX_FOOTPRINT
    ensures !Fits(b, size + HEADER_SIZE)
  {
    FootprintNatural(b, |b.chunks|);
    assert b.chunks[..|b.chunks|] == b.chunks;
    assert b.pages * PAGE_SIZE < WORD32 ==> b.pages * PAGE_SIZE <= MAX_FOOTPRINT;
    SkipIsJustified(b, size + HEADER_SIZE);
  }

  lemma {:induction false} FootprintNatural(b: Block, n: nat)
    requires ValidBlock(b) && n <= |b.chunks|
    ensures 0 <= Footprint(b.chunks[..n])
  {
    if n > 0 {
      FootprintNatural(b, n - 1);
      assert b.chunks[..n][..n - 1] == b.chunks[..n - 1];
    }
  }

  lemma UsageInBlock(b: Block)
    requires ValidBlock(b)
    ensures 0 < b.Usage() <= b.Size() < WORD32 && b.pages < WORD32
  {
    hide Footprint, GapSum, Gap;
    FootprintNatural(b, |b.chunks|);
    assert b.chunks[..|b.chunks|] == b.chunks;
    GapsSumToFree(b);
    GapWithinSum(b, 0, |b.chunks| + 1);
  }

  /** The excluded family is real: 4 GiB - 112 bytes is served from a 64 KiB major. */
  lemma OversizeRequestShowsNewMajorTooSmall()
    ensures var size := WORD32 - 80; NewMajorSize(size) == 0x1_0000 && NewMajorSize(size) < size
  {
  }
}
