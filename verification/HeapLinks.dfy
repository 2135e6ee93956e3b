/**
 The headers in memory and what they mean.  `majors` and `minors` hold the fields of the
 headers by address; storing a header also writes its 40 bytes to memory, so a header that
 overlapped live data would destroy that data in the model as it does in the machine.
 */
module HeapLinks {
  import opened Common
  import opened HeapLayout

  const NULL := 0
  const MAGIC := 0xc001_c0de
  const DEAD := 0xdead_dead

  datatype Major = Major(prev: int, next: int, pages: nat, size: int, usage: int, first: int)
  datatype Minor = Minor(prev: int, next: int, block: int, magic: int, size: int, req: int)

  type Bytes = map<int, Byte>

  function ByteAt(bytes: Bytes, a: int): Byte {
    if a in bytes then bytes[a] else 0
  }

  /** A field of n bytes, lowest first. */
  function LittleEndian(x: int, n: nat): (b: seq<Byte>)
    ensures |b| == n
    decreases n
  {
    if n == 0 then [] else [x % 256] + LittleEndian(x / 256, n - 1)
  }

  /** struct liballoc_major in memory; its padding is taken to be zero. */
  function MajorBytes(m: Major): (b: seq<Byte>)
    ensures |b| == HEADER_SIZE
  {
    LittleEndian(m.prev, 8) + LittleEndian(m.next, 8) + LittleEndian(m.pages, 4) + LittleEndian(m.size, 4)
    + LittleEndian(m.usage, 4) + LittleEndian(0, 4) + LittleEndian(m.first, 8)
  }

  const MAGIC_FIELD := 24 // offset of the magic number in struct liballoc_minor

  /** struct liballoc_minor in memory; its padding is taken to be zero. */
  function MinorBytes(m: Minor): (b: seq<Byte>)
    ensures |b| == HEADER_SIZE
  {
    LittleEndian(m.prev, 8) + LittleEndian(m.next, 8) + LittleEndian(m.block, 8) + LittleEndian(m.magic, 4)
    + LittleEndian(m.size, 4) + LittleEndian(m.req, 4) + LittleEndian(0, 4)
  }

  /** Memory after s is stored at a. */
  function Stored(bytes: Bytes, a: int, s: seq<Byte>): (r: Bytes)
    ensures forall x :: ByteAt(r, x) == if a <= x < a + |s| then s[x - a] else ByteAt(bytes, x)
    decreases |s|
  {
    if s == [] then bytes else Stored(bytes[a := s[0]], a + 1, s[1..])
  }

  /** The unsigned int at a. */
  function WordAt(bytes: Bytes, a: int): int {
    var b0: int, b1: int, b2: int, b3: int := ByteAt(bytes, a), ByteAt(bytes, a + 1), ByteAt(bytes, a + 2), ByteAt(bytes, a + 3);
    b0 + 0x100 * b1 + 0x1_0000 * b2 + 0x100_0000 * b3
  }

  /** min->magic, whatever memory holds there. */
  function MagicAt(bytes: Bytes, min: int): int { WordAt(bytes, min + MAGIC_FIELD) }

  /** The UNALIGN macro: the payload address a tag leads back to. */
  function Unalign(bytes: Bytes, ptr: int): int {
    var diff := ByteAt(bytes, ptr - ALIGN_INFO);
    if diff < ALIGNMENT + ALIGN_INFO then ptr - diff else ptr
  }

  /** UNALIGN goes back by the distance ALIGN recorded, and by less than 32 bytes whatever the tag byte is. */
  lemma UnalignBack(bytes: Bytes, ptr: int)
    ensures ptr - 32 < Unalign(bytes, ptr) <= ptr
    ensures forall base | AlignPointer(base) == ptr && ByteAt(bytes, ptr - 16) == ptr - base :: Unalign(bytes, ptr) == base
  {
  }

  // ------------------------------------------------- the headers a layout calls for

  function MajorOf(layout: Layout, i: nat): Major
    requires i < |layout|
  {
    var b := layout[i];
    Major(if i == 0 then NULL else layout[i - 1].addr,
          if i + 1 == |layout| then NULL else layout[i + 1].addr,
          b.pages, b.Size(), b.Usage(),
          if b.chunks == [] then NULL else b.chunks[0].addr)
  }

  function MinorOf(b: Block, j: nat): Minor
    requires j < |b.chunks|
  {
    Minor(if j == 0 then NULL else b.chunks[j - 1].addr,
          if j + 1 == |b.chunks| then NULL else b.chunks[j + 1].addr,
          b.addr, MAGIC, b.chunks[j].size, b.chunks[j].req)
  }

  function RootOf(layout: Layout): int {
    if layout == [] then NULL else layout[0].addr
  }

  ghost predicate MajorStored(majors: map<int, Major>, layout: Layout, i: nat)
    requires i < |layout|
  {
    layout[i].addr in majors && majors[layout[i].addr] == MajorOf(layout, i)
  }

  ghost predicate MajorsLinked(majors: map<int, Major>, layout: Layout) {
    forall i | 0 <= i < |layout| :: MajorStored(majors, layout, i)
  }

  ghost predicate MinorStored(minors: map<int, Minor>, b: Block, j: nat)
    requires j < |b.chunks|
  {
    b.chunks[j].addr in minors && minors[b.chunks[j].addr] == MinorOf(b, j)
  }

  ghost predicate ChunksLinked(minors: map<int, Minor>, b: Block) {
    forall j | 0 <= j < |b.chunks| :: MinorStored(minors, b, j)
  }

  ghost predicate MinorsLinked(minors: map<int, Minor>, layout: Layout) {
    forall i | 0 <= i < |layout| :: ChunksLinked(minors, layout[i])
  }

  ghost predicate HasChunkAt(b: Block, a: int) {
    exists j :: 0 <= j < |b.chunks| && b.chunks[j].addr == a
  }

  ghost predicate Live(layout: Layout, a: int) {
    exists i :: 0 <= i < |layout| && HasChunkAt(layout[i], a)
  }

  /** Only a live chunk's header carries the magic number. */
  ghost predicate MagicMeansLive(minors: map<int, Minor>, layout: Layout) {
    forall a | a in minors && minors[a].magic == MAGIC :: Live(layout, a)
  }

  ghost predicate BlockTagged(bytes: Bytes, b: Block) {
    forall j | 0 <= j < |b.chunks| ::
      ByteAt(bytes, b.chunks[j].Tag()) == b.chunks[j].Ptr() - b.chunks[j].Payload()
  }

  ghost predicate Tagged(bytes: Bytes, layout: Layout) {
    forall i | 0 <= i < |layout| :: BlockTagged(bytes, layout[i])
  }

  ghost predicate Represents(layout: Layout, majors: map<int, Major>, minors: map<int, Minor>, bytes: Bytes) {
    && ValidLayout(layout)
    && MajorsLinked(majors, layout)
    && MinorsLinked(minors, layout)
    && MagicMeansLive(minors, layout)
    && Tagged(bytes, layout)
  }

  // ------------------------------------------------------------ payload bytes

  ghost predicate SamePayload(before: Bytes, after: Bytes, c: Chunk) {
    forall a | c.Payload() <= a < c.End() :: ByteAt(after, a) == ByteAt(before, a)
  }

  ghost predicate SamePayloadsIn(before: Bytes, after: Bytes, b: Block) {
    forall j | 0 <= j < |b.chunks| :: SamePayload(before, after, b.chunks[j])
  }

  /** No byte of any live payload, tags included, differs. */
  ghost predicate SamePayloads(before: Bytes, after: Bytes, layout: Layout) {
    forall i | 0 <= i < |layout| :: SamePayloadsIn(before, after, layout[i])
  }

  lemma SamePayloadsTrans(a: Bytes, b: Bytes, c: Bytes, layout: Layout)
    requires SamePayloads(a, b, layout) && SamePayloads(b, c, layout)
    ensures SamePayloads(a, c, layout)
  {
  }

  lemma NoChange(bytes: Bytes, layout: Layout)
    ensures SamePayloads(bytes, bytes, layout)
  {
  }

  /** The address range [lo, hi) meets no live payload. */
  ghost predicate ClearRange(layout: Layout, lo: int, hi: int) {
    forall i | 0 <= i < |layout| :: ClearOfBlock(layout[i], lo, hi)
  }

  ghost predicate ClearOfBlock(b: Block, lo: int, hi: int) {
    forall j | 0 <= j < |b.chunks| :: hi <= b.chunks[j].Payload() || b.chunks[j].End() <= lo
  }

  lemma HeaderKeepsPayloads(bytes: Bytes, layout: Layout, a: int, s: seq<Byte>)
    requires ClearRange(layout, a, a + HEADER_SIZE) && |s| == HEADER_SIZE
    ensures SamePayloads(bytes, Stored(bytes, a, s), layout)
  {
    hide Stored;
    forall i | 0 <= i < |layout| ensures SamePayloadsIn(bytes, Stored(bytes, a, s), layout[i]) {
      assert ClearOfBlock(layout[i], a, a + HEADER_SIZE);
    }
  }

  lemma StoreKeepsPayloads(bytes: Bytes, layout: Layout, a: int, v: Byte)
    requires ClearRange(layout, a, a + 1)
    ensures SamePayloads(bytes, bytes[a := v], layout)
  {
  }

  /** A range inside block i that is clear there is clear of every block. */
  lemma ClearInsideBlock(layout: Layout, i: nat, lo: int, hi: int)
    requires ValidLayout(layout) && i < |layout|
    requires layout[i].addr <= lo <= hi <= layout[i].End()
    requires ClearOfBlock(layout[i], lo, hi)
    ensures ClearRange(layout, lo, hi)
  {
  }

  /** Block headers overlap no live payload. */
  lemma MajorHeaderClear(layout: Layout, i: nat)
    requires ValidLayout(layout) && i < |layout|
    ensures ClearRange(layout, layout[i].addr, layout[i].addr + HEADER_SIZE)
  {
  }

  /** Chunk headers overlap no live payload. */
  lemma MinorHeaderClear(layout: Layout, i: nat, j: nat)
    requires ValidLayout(layout) && i < |layout| && j < |layout[i].chunks|
    ensures ClearRange(layout, layout[i].chunks[j].addr, layout[i].chunks[j].addr + HEADER_SIZE)
  {
  }

  /** A chunk about to be placed overlaps no live payload. */
  lemma GapClear(layout: Layout, i: nat, j: nat, c: Chunk, lo: int, hi: int)
    requires ValidLayout(layout) && i < |layout| && Holds(layout[i], j, c)
    requires c.addr <= lo <= hi <= c.End()
    ensures ClearRange(layout, lo, hi)
  {
    var b := layout[i];
    GapSeparates(b, j, c);
    forall k | 0 <= k < |b.chunks| ensures hi <= b.chunks[k].Payload() || b.chunks[k].End() <= lo {
      if k < j { assert b.chunks[k].End() <= c.addr; } else { assert c.End() <= b.chunks[k].addr; }
    }
    ClearInsideBlock(layout, i, lo, hi);
  }

  /** The three headers an insertion writes are different ones. */
  lemma AddrsAround(layout: Layout, i: nat, j: nat, c: Chunk)
    requires ValidLayout(layout) && i < |layout| && 0 < j < |layout[i].chunks| && Holds(layout[i], j, c)
    ensures layout[i].chunks[j - 1].addr < c.addr < layout[i].chunks[j].addr
  {
  }

  lemma TagsFollowPayloads(before: Bytes, after: Bytes, layout: Layout)
    requires ValidLayout(layout) && Tagged(before, layout) && SamePayloads(before, after, layout)
    ensures Tagged(after, layout)
  {
  }

  // ------------------------------------------------------------- insert a chunk

  /** The minor headers after a chunk is linked in at position j. */
  function LinkIn(minors: map<int, Minor>, b: Block, j: nat, c: Chunk): map<int, Minor>
    requires j <= |b.chunks|
    requires 0 < j ==> MinorStored(minors, b, j - 1)
    requires j < |b.chunks| ==> MinorStored(minors, b, j)
  {
    var prev := if j == 0 then NULL else b.chunks[j - 1].addr;
    var next := if j == |b.chunks| then NULL else b.chunks[j].addr;
    var m0 := if j == 0 then minors else minors[prev := minors[prev].(next := c.addr)];
    var m1 := if j == |b.chunks| then m0 else m0[next := minors[next].(prev := c.addr)];
    m1[c.addr := Minor(prev, next, b.addr, MAGIC, c.size, c.req)]
  }

  /** Index by index, d is b with c inserted at j. */
  ghost predicate IsInsert(b: Block, j: nat, c: Chunk, d: Block) {
    && j <= |b.chunks| && |d.chunks| == |b.chunks| + 1
    && d.addr == b.addr && d.pages == b.pages
    && (forall k | 0 <= k < j :: d.chunks[k] == b.chunks[k])
    && d.chunks[j] == c
    && (forall k | j < k <= |b.chunks| :: d.chunks[k] == b.chunks[k - 1])
  }

  lemma ChunkAddrsDistinct(b: Block, j: nat, k: nat)
    requires ValidBlock(b) && j < |b.chunks| && k < |b.chunks|
    ensures b.chunks[j].addr == b.chunks[k].addr <==> j == k
  {
  }

  lemma MinorOfInsert(b: Block, j: nat, c: Chunk, d: Block, k: nat)
    requires IsInsert(b, j, c, d)
    requires k < |b.chunks|
    ensures k + 1 < j ==> MinorOf(d, k) == MinorOf(b, k)
    ensures k + 1 == j ==> MinorOf(d, k) == MinorOf(b, k).(next := c.addr)
    ensures k == j ==> MinorOf(d, k + 1) == MinorOf(b, k).(prev := c.addr)
    ensures j < k ==> MinorOf(d, k + 1) == MinorOf(b, k)
  {
  }

  lemma LinkInBefore(minors: map<int, Minor>, b: Block, j: nat, c: Chunk, d: Block, k: nat)
    requires ValidBlock(d) && IsInsert(b, j, c, d) && ChunksLinked(minors, b)
    requires k < j
    ensures MinorStored(LinkIn(minors, b, j, c), d, k)
  {
    hide ValidBlock, MinorOf;
    ChunkAddrsDistinct(d, k, j - 1);
    ChunkAddrsDistinct(d, k, j);
    if j < |b.chunks| { ChunkAddrsDistinct(d, k, j + 1); }
    MinorOfInsert(b, j, c, d, k);
    assert MinorStored(minors, b, k);
  }

  lemma LinkInAfter(minors: map<int, Minor>, b: Block, j: nat, c: Chunk, d: Block, k: nat)
    requires ValidBlock(d) && IsInsert(b, j, c, d) && ChunksLinked(minors, b)
    requires j <= k < |b.chunks|
    ensures MinorStored(LinkIn(minors, b, j, c), d, k + 1)
  {
    hide ValidBlock, MinorOf;
    if 0 < j { ChunkAddrsDistinct(d, k + 1, j - 1); }
    ChunkAddrsDistinct(d, k + 1, j);
    ChunkAddrsDistinct(d, k + 1, j + 1);
    MinorOfInsert(b, j, c, d, k);
    assert MinorStored(minors, b, k);
  }

  lemma LinkInHere(minors: map<int, Minor>, b: Block, j: nat, c: Chunk, d: Block)
    requires IsInsert(b, j, c, d) && ChunksLinked(minors, b)
    ensures MinorStored(LinkIn(minors, b, j, c), d, j)
  {
  }

  lemma LinkInChunks(minors: map<int, Minor>, b: Block, j: nat, c: Chunk, d: Block)
    requires ValidBlock(d) && IsInsert(b, j, c, d) && ChunksLinked(minors, b)
    ensures ChunksLinked(LinkIn(minors, b, j, c), d)
  {
    hide ValidBlock, MinorOf, LinkIn, MinorStored;
    LinkInHere(minors, b, j, c, d);
    forall k | 0 <= k < |d.chunks| ensures MinorStored(LinkIn(minors, b, j, c), d, k) {
      if k < j {
        LinkInBefore(minors, b, j, c, d, k);
      } else if j < k {
        LinkInAfter(minors, b, j, c, d, k - 1);
      }
    }
  }

  /** Linking a chunk into block b touches no header outside b. */
  lemma LinkInStaysInside(minors: map<int, Minor>, b: Block, j: nat, c: Chunk, a: int)
    requires ValidBlock(b) && Holds(b, j, c) && ChunksLinked(minors, b) && !b.Covers(a)
    ensures a in LinkIn(minors, b, j, c) <==> a in minors
    ensures a in minors ==> LinkIn(minors, b, j, c)[a] == minors[a]
  {
  }

  ghost predicate SameOutside(before: map<int, Minor>, after: map<int, Minor>, b: Block) {
    forall a | a in before && !b.Covers(a) :: a in after && after[a] == before[a]
  }

  /** Header changes inside one block leave the chunks of another block linked. */
  lemma OtherBlockLinked(before: map<int, Minor>, after: map<int, Minor>, b: Block, other: Block)
    requires ValidBlock(other) && ChunksLinked(before, other) && Apart(b, other)
    requires SameOutside(before, after, b)
    ensures ChunksLinked(after, other)
  {
    forall j | 0 <= j < |other.chunks| ensures MinorStored(after, other, j) {
      assert ValidChunk(other, other.chunks[j]) && MinorStored(before, other, j);
    }
  }

  lemma OtherBlocksLinked(before: map<int, Minor>, after: map<int, Minor>, layout: Layout, i: nat, d: Block)
    requires ValidLayout(layout) && MinorsLinked(before, layout) && i < |layout|
    requires SameOutside(before, after, layout[i]) && ChunksLinked(after, d)
    ensures MinorsLinked(after, layout[i := d])
  {
    forall k | 0 <= k < |layout| && k != i ensures ChunksLinked(after, layout[k]) {
      assert Apart(layout[if k < i then k else i], layout[if k < i then i else k]);
      OtherBlockLinked(before, after, layout[i], layout[k]);
    }
  }

  lemma LinkInMinors(minors: map<int, Minor>, layout: Layout, i: nat, j: nat, c: Chunk)
    requires ValidLayout(layout) && MinorsLinked(minors, layout)
    requires i < |layout| && Holds(layout[i], j, c)
    ensures MinorsLinked(LinkIn(minors, layout[i], j, c), layout[i := Insert(layout[i], j, c)])
  {
    var b := layout[i];
    InsertValid(b, j, c);
    LinkInChunks(minors, b, j, c, Insert(b, j, c));
    forall a | a in minors && !b.Covers(a)
      ensures a in LinkIn(minors, b, j, c) && LinkIn(minors, b, j, c)[a] == minors[a]
    {
      LinkInStaysInside(minors, b, j, c, a);
    }
    OtherBlocksLinked(minors, LinkIn(minors, b, j, c), layout, i, Insert(b, j, c));
  }

  lemma LiveAfterInsert(layout: Layout, i: nat, j: nat, c: Chunk, a: int)
    requires i < |layout| && j <= |layout[i].chunks|
    ensures Live(layout[i := Insert(layout[i], j, c)], a) <==> Live(layout, a) || a == c.addr
  {
    var b := layout[i];
    var d := Insert(b, j, c);
    var l := layout[i := d];
    if HasChunkAt(b, a) {
      var k :| 0 <= k < |b.chunks| && b.chunks[k].addr == a;
      InsertAt(b, j, c, if k < j then k else k + 1);
    }
    if a == c.addr { InsertAt(b, j, c, j); }
    assert HasChunkAt(d, a) ==> HasChunkAt(b, a) || a == c.addr by {
      if HasChunkAt(d, a) {
        var k :| 0 <= k < |d.chunks| && d.chunks[k].addr == a;
        InsertAt(b, j, c, k);
      }
    }
    assert forall k | 0 <= k < |layout| :: HasChunkAt(l[k], a) <==> HasChunkAt(layout[k], a) || (k == i && a == c.addr);
  }

  lemma MajorOfReplaced(layout: Layout, i: nat, b: Block, k: nat)
    requires ValidLayout(layout) && i < |layout| && k < |layout| && k != i && b.addr == layout[i].addr
    ensures layout[k].addr != b.addr && MajorOf(layout[i := b], k) == MajorOf(layout, k)
  {
  }

  lemma MajorsReplaced(majors: map<int, Major>, layout: Layout, i: nat, b: Block)
    requires ValidLayout(layout) && MajorsLinked(majors, layout) && i < |layout|
    requires b.addr == layout[i].addr
    ensures MajorsLinked(majors[b.addr := MajorOf(layout[i := b], i)], layout[i := b])
  {
    var l := layout[i := b];
    var m := majors[b.addr := MajorOf(l, i)];
    forall k | 0 <= k < |l| ensures MajorStored(m, l, k) {
      if k != i {
        MajorOfReplaced(layout, i, b, k);
        assert MajorStored(majors, layout, k);
      }
    }
  }

  lemma TaggedAfterInsert(bytes: Bytes, layout: Layout, i: nat, j: nat, c: Chunk)
    requires i < |layout| && j <= |layout[i].chunks| && Tagged(bytes, layout)
    requires ByteAt(bytes, c.Tag()) == c.Ptr() - c.Payload()
    ensures Tagged(bytes, layout[i := Insert(layout[i], j, c)])
  {
  }

  lemma MagicAfterInsert(minors: map<int, Minor>, layout: Layout, i: nat, j: nat, c: Chunk)
    requires MagicMeansLive(minors, layout) && MinorsLinked(minors, layout)
    requires i < |layout| && j <= |layout[i].chunks|
    ensures MagicMeansLive(LinkIn(minors, layout[i], j, c), layout[i := Insert(layout[i], j, c)])
  {
    var b := layout[i];
    var m := LinkIn(minors, b, j, c);
    forall a | a in m && m[a].magic == MAGIC ensures Live(layout[i := Insert(b, j, c)], a) {
      LiveAfterInsert(layout, i, j, c, a);
      if a != c.addr { assert a in minors && minors[a].magic == MAGIC; }
    }
  }

  /** Linking a chunk into a gap that holds it turns a heap image into the image of the larger layout. */
  lemma InsertRepresents(layout: Layout, majors: map<int, Major>, minors: map<int, Minor>, bytes: Bytes,
                         i: nat, j: nat, c: Chunk, bytes': Bytes)
    requires Represents(layout, majors, minors, bytes)
    requires i < |layout| && Holds(layout[i], j, c)
    requires SamePayloads(bytes, bytes', layout)
    requires ByteAt(bytes', c.Tag()) == c.Ptr() - c.Payload()
    ensures var l := layout[i := Insert(layout[i], j, c)];
            Represents(l, majors[layout[i].addr := MajorOf(l, i)], LinkIn(minors, layout[i], j, c), bytes')
  {
    var d := Insert(layout[i], j, c);
    InsertValid(layout[i], j, c);
    ReplaceValid(layout, i, d);
    MajorsReplaced(majors, layout, i, d);
    LinkInMinors(minors, layout, i, j, c);
    MagicAfterInsert(minors, layout, i, j, c);
    TagsFollowPayloads(bytes, bytes', layout);
    TaggedAfterInsert(bytes', layout, i, j, c);
  }

  // ------------------------------------------------------------- remove a chunk

  /** The headers of chunk j and its neighbours are in place. */
  ghost predicate MinorsAround(minors: map<int, Minor>, b: Block, j: nat) {
    && j < |b.chunks| && MinorStored(minors, b, j)
    && (0 < j ==> MinorStored(minors, b, j - 1))
    && (j + 1 < |b.chunks| ==> MinorStored(minors, b, j + 1))
  }

  lemma AroundStored(minors: map<int, Minor>, layout: Layout, i: nat, j: nat)
    requires MinorsLinked(minors, layout) && i < |layout| && j < |layout[i].chunks|
    ensures MinorsAround(minors, layout[i], j)
  {
    assert ChunksLinked(minors, layout[i]);
  }

  /** The minor headers after chunk j is unlinked and marked dead. */
  ghost function LinkOut(minors: map<int, Minor>, b: Block, j: nat): map<int, Minor>
    requires MinorsAround(minors, b, j)
  {
    var a := b.chunks[j].addr;
    var m := minors[a];
    var m0 := minors[a := m.(magic := DEAD)];
    var m1 := if j + 1 == |b.chunks| then m0 else m0[m.next := minors[m.next].(prev := m.prev)];
    if j == 0 then m1 else m1[m.prev := minors[m.prev].(next := m.next)]
  }

  lemma MinorOfDelete(b: Block, j: nat, d: Block, k: nat)
    requires j < |b.chunks| && IsInsert(d, j, b.chunks[j], b) && k < |d.chunks|
    ensures k + 1 < j ==> MinorOf(d, k) == MinorOf(b, k)
    ensures k + 1 == j ==> MinorOf(d, k) == MinorOf(b, k).(next := MinorOf(b, j).next)
    ensures k == j ==> MinorOf(d, k) == MinorOf(b, k + 1).(prev := MinorOf(b, j).prev)
    ensures j < k ==> MinorOf(d, k) == MinorOf(b, k + 1)
  {
  }

  lemma LinkOutChunks(minors: map<int, Minor>, b: Block, j: nat, d: Block)
    requires ValidBlock(b) && j < |b.chunks| && IsInsert(d, j, b.chunks[j], b) && ChunksLinked(minors, b)
    ensures ChunksLinked(LinkOut(minors, b, j), d)
  {
    var m := LinkOut(minors, b, j);
    forall k | 0 <= k < |d.chunks| ensures MinorStored(m, d, k) {
      LinkOutAt(minors, b, j, d, k);
    }
  }

  lemma LinkOutAt(minors: map<int, Minor>, b: Block, j: nat, d: Block, k: nat)
    requires ValidBlock(b) && j < |b.chunks| && IsInsert(d, j, b.chunks[j], b) && ChunksLinked(minors, b)
    requires k < |d.chunks|
    ensures MinorStored(LinkOut(minors, b, j), d, k)
  {
    hide ValidBlock;
    var kb := if k < j then k else k + 1;
    ChunkAddrsDistinct(b, kb, j);
    if 0 < j { ChunkAddrsDistinct(b, kb, j - 1); }
    if j + 1 < |b.chunks| { ChunkAddrsDistinct(b, kb, j + 1); }
    MinorOfDelete(b, j, d, k);
    assert MinorStored(minors, b, kb) && MinorStored(minors, b, j);
  }

  lemma LinkOutStaysInside(minors: map<int, Minor>, b: Block, j: nat)
    requires ValidBlock(b) && j < |b.chunks| && ChunksLinked(minors, b)
    ensures SameOutside(minors, LinkOut(minors, b, j), b)
  {
    assert ValidChunk(b, b.chunks[j]) && MinorStored(minors, b, j);
    if 0 < j { assert ValidChunk(b, b.chunks[j - 1]); }
    if j + 1 < |b.chunks| { assert ValidChunk(b, b.chunks[j + 1]); }
  }

  lemma DeleteIsInverse(b: Block, j: nat)
    requires j < |b.chunks|
    ensures IsInsert(Delete(b, j), j, b.chunks[j], b)
  {
  }

  lemma LiveAfterDelete(layout: Layout, i: nat, j: nat, a: int)
    requires i < |layout| && j < |layout[i].chunks|
    ensures Live(layout, a) <==> Live(layout[i := Delete(layout[i], j)], a) || a == layout[i].chunks[j].addr
  {
    DeleteInserts(layout[i], j);
    var l := layout[i := Delete(layout[i], j)];
    assert l[i := Insert(l[i], j, layout[i].chunks[j])] == layout;
    LiveAfterInsert(l, i, j, layout[i].chunks[j], a);
  }

  lemma LinkOutMagic(minors: map<int, Minor>, b: Block, j: nat, a: int)
    requires ValidBlock(b) && j < |b.chunks| && ChunksLinked(minors, b)
    requires a in LinkOut(minors, b, j) && LinkOut(minors, b, j)[a].magic == MAGIC
    ensures a != b.chunks[j].addr && a in minors && minors[a].magic == MAGIC
  {
    assert MinorStored(minors, b, j);
    if 0 < j { ChunkAddrsDistinct(b, j - 1, j); assert MinorStored(minors, b, j - 1); }
    if j + 1 < |b.chunks| { ChunkAddrsDistinct(b, j, j + 1); assert MinorStored(minors, b, j + 1); }
  }

  lemma MagicAfterDelete(minors: map<int, Minor>, layout: Layout, i: nat, j: nat)
    requires ValidLayout(layout) && MagicMeansLive(minors, layout) && MinorsLinked(minors, layout)
    requires i < |layout| && j < |layout[i].chunks|
    ensures MagicMeansLive(LinkOut(minors, layout[i], j), layout[i := Delete(layout[i], j)])
  {
    var b := layout[i];
    var m := LinkOut(minors, b, j);
    forall a | a in m && m[a].magic == MAGIC ensures Live(layout[i := Delete(b, j)], a) {
      LinkOutMagic(minors, b, j, a);
      LiveAfterDelete(layout, i, j, a);
    }
  }

  lemma DeleteKeepsBytes(before: Bytes, after: Bytes, layout: Layout, i: nat, j: nat)
    requires i < |layout| && j < |layout[i].chunks|
    requires Tagged(before, layout)
    requires SamePayloads(before, after, layout[i := Delete(layout[i], j)])
    ensures Tagged(before, layout[i := Delete(layout[i], j)])
  {
  }

  /** Unlinking a chunk turns a heap image into the image of the smaller layout. */
  lemma DeleteRepresents(layout: Layout, majors: map<int, Major>, minors: map<int, Minor>, bytes: Bytes,
                         i: nat, j: nat, bytes': Bytes)
    requires Represents(layout, majors, minors, bytes)
    requires i < |layout| && j < |layout[i].chunks|
    requires SamePayloads(bytes, bytes', layout[i := Delete(layout[i], j)])
    ensures var l := layout[i := Delete(layout[i], j)];
            Represents(l, majors[layout[i].addr := MajorOf(l, i)], LinkOut(minors, layout[i], j), bytes')
  {
    var b := layout[i];
    var d := Delete(b, j);
    DeleteValid(b, j);
    ReplaceValid(layout, i, d);
    MajorsReplaced(majors, layout, i, d);
    DeleteIsInverse(b, j);
    LinkOutChunks(minors, b, j, d);
    LinkOutStaysInside(minors, b, j);
    OtherBlocksLinked(minors, LinkOut(minors, b, j), layout, i, d);
    MagicAfterDelete(minors, layout, i, j);
    DeleteKeepsBytes(bytes, bytes', layout, i, j);
    TagsFollowPayloads(bytes, bytes', layout[i := d]);
  }

  // ------------------------------------------------------- add and drop a block

  /** The major headers after block e is linked in at the end of the list. */
  function LinkLast(majors: map<int, Major>, layout: Layout, e: Block): map<int, Major>
    requires layout != [] ==> MajorStored(majors, layout, |layout| - 1)
  {
    var n := |layout|;
    var m0 := if n == 0 then majors
              else majors[layout[n - 1].addr := majors[layout[n - 1].addr].(next := e.addr)];
    m0[e.addr := MajorOf(layout + [e], n)]
  }

  lemma BlockAddrsDistinct(layout: Layout, i: nat, k: nat)
    requires ValidLayout(layout) && i < |layout| && k < |layout|
    ensures layout[i].addr == layout[k].addr <==> i == k
  {
  }

  lemma AppendValid(layout: Layout, e: Block)
    requires ValidLayout(layout) && ValidBlock(e) && FreshRun(layout, e.addr, e.pages)
    ensures ValidLayout(layout + [e])
  {
  }

  lemma LinkLastMajors(majors: map<int, Major>, layout: Layout, e: Block)
    requires ValidLayout(layout + [e]) && MajorsLinked(majors, layout)
    ensures MajorsLinked(LinkLast(majors, layout, e), layout + [e])
  {
    var l := layout + [e];
    var m := LinkLast(majors, layout, e);
    forall i | 0 <= i < |l| ensures MajorStored(m, l, i) {
      BlockAddrsDistinct(l, i, |layout|);
      if 0 < |layout| { BlockAddrsDistinct(l, i, |layout| - 1); }
      if i < |layout| { assert MajorStored(majors, layout, i); }
    }
  }

  /** Linking an empty block at the end of the list yields the image of the longer layout. */
  lemma AppendRepresents(layout: Layout, majors: map<int, Major>, minors: map<int, Minor>, bytes: Bytes,
                         e: Block, bytes': Bytes)
    requires Represents(layout, majors, minors, bytes)
    requires ValidBlock(e) && e.chunks == [] && FreshRun(layout, e.addr, e.pages)
    requires SamePayloads(bytes, bytes', layout)
    ensures Represents(layout + [e], LinkLast(majors, layout, e), minors, bytes')
  {
    var l := layout + [e];
    AppendValid(layout, e);
    LinkLastMajors(majors, layout, e);
    TagsFollowPayloads(bytes, bytes', layout);
    forall a | a in minors && minors[a].magic == MAGIC ensures Live(l, a) {
      var i :| 0 <= i < |layout| && HasChunkAt(layout[i], a);
      assert l[i] == layout[i];
    }
  }

  /** The headers of block i and its neighbours are in place. */
  ghost predicate MajorsAround(majors: map<int, Major>, layout: Layout, i: nat) {
    && i < |layout| && MajorStored(majors, layout, i)
    && (0 < i ==> MajorStored(majors, layout, i - 1))
    && (i + 1 < |layout| ==> MajorStored(majors, layout, i + 1))
  }

  /** The major headers after block i is unlinked and its pages returned. */
  ghost function LinkPast(majors: map<int, Major>, layout: Layout, i: nat): map<int, Major>
    requires MajorsAround(majors, layout, i)
  {
    var a := layout[i].addr;
    var m := majors[a];
    var m0 := if i == 0 then majors else majors[m.prev := majors[m.prev].(next := m.next)];
    var m1 := if i + 1 == |layout| then m0 else m0[m.next := majors[m.next].(prev := m.prev)];
    m1 - {a}
  }

  lemma LinkPastMajors(majors: map<int, Major>, layout: Layout, i: nat)
    requires ValidLayout(layout) && MajorsLinked(majors, layout) && i < |layout|
    ensures MajorsLinked(LinkPast(majors, layout, i), layout[..i] + layout[i + 1..])
  {
    var l := layout[..i] + layout[i + 1..];
    var m := LinkPast(majors, layout, i);
    forall k | 0 <= k < |l| ensures MajorStored(m, l, k) {
      LinkPastAt(majors, layout, i, l, k);
    }
  }

  lemma MajorOfDropped(layout: Layout, i: nat, l: Layout, k: nat)
    requires i < |layout| && l == layout[..i] + layout[i + 1..] && k < |l|
    ensures k + 1 < i ==> l[k] == layout[k] && MajorOf(l, k) == MajorOf(layout, k)
    ensures k + 1 == i ==> l[k] == layout[k] && MajorOf(l, k) == MajorOf(layout, k).(next := MajorOf(layout, i).next)
    ensures k == i ==> l[k] == layout[k + 1] && MajorOf(l, k) == MajorOf(layout, k + 1).(prev := MajorOf(layout, i).prev)
    ensures i < k ==> l[k] == layout[k + 1] && MajorOf(l, k) == MajorOf(layout, k + 1)
  {
  }

  lemma LinkPastAt(majors: map<int, Major>, layout: Layout, i: nat, l: Layout, k: nat)
    requires ValidLayout(layout) && MajorsLinked(majors, layout) && i < |layout|
    requires l == layout[..i] + layout[i + 1..] && k < |l|
    ensures MajorStored(LinkPast(majors, layout, i), l, k)
  {
    hide ValidLayout;
    var kl := if k < i then k else k + 1;
    BlockAddrsDistinct(layout, kl, i);
    if 0 < i { BlockAddrsDistinct(layout, kl, i - 1); }
    if i + 1 < |layout| { BlockAddrsDistinct(layout, kl, i + 1); }
    assert MajorStored(majors, layout, kl) && MajorStored(majors, layout, i);
    MajorOfDropped(layout, i, l, k);
  }

  lemma LiveAfterDrop(layout: Layout, i: nat, a: int)
    requires i < |layout| && layout[i].chunks == [] && Live(layout, a)
    ensures Live(layout[..i] + layout[i + 1..], a)
  {
    var k :| 0 <= k < |layout| && HasChunkAt(layout[k], a);
    assert (layout[..i] + layout[i + 1..])[if k < i then k else k - 1] == layout[k];
  }

  /** Unlinking an emptied block yields the image of the shorter layout. */
  lemma DropRepresents(layout: Layout, majors: map<int, Major>, minors: map<int, Minor>, bytes: Bytes,
                       i: nat, bytes': Bytes)
    requires Represents(layout, majors, minors, bytes)
    requires i < |layout| && layout[i].chunks == []
    requires SamePayloads(bytes, bytes', layout)
    ensures Represents(layout[..i] + layout[i + 1..], LinkPast(majors, layout, i), minors, bytes')
  {
    var l := layout[..i] + layout[i + 1..];
    DropBlockValid(layout, i);
    LinkPastMajors(majors, layout, i);
    TagsFollowPayloads(bytes, bytes', layout);
    hide ValidLayout, MajorsLinked, ChunksLinked, BlockTagged, LinkPast, Live;
    forall a | a in minors && minors[a].magic == MAGIC ensures Live(l, a) {
      LiveAfterDrop(layout, i, a);
    }
    forall k | 0 <= k < |l| ensures ChunksLinked(minors, l[k]) && BlockTagged(bytes', l[k]) {
      assert l[k] == layout[if k < i then k else k + 1];
    }
  }

  // ------------------------------------------------------------ the whole image

  ghost predicate Listed(layout: Layout, a: int) {
    exists i :: 0 <= i < |layout| && layout[i].addr == a
  }

  /** The allocator's whole state describes the layout. */
  ghost predicate Image(layout: Layout, root: int, bestBet: int, allocatedBytes: int, inuseBytes: int,
                        majors: map<int, Major>, minors: map<int, Minor>, bytes: Bytes) {
    && Represents(layout, majors, minors, bytes)
    && root == RootOf(layout)
    && allocatedBytes == Allocated(layout)
    && inuseBytes == InUse(layout)
    && (bestBet == NULL || Listed(layout, bestBet))
  }

  lemma ListedIn(layout: Layout, i: nat)
    requires i < |layout|
    ensures Listed(layout, layout[i].addr)
  {
  }

  lemma ListedAfterReplace(layout: Layout, i: nat, b: Block, a: int)
    requires i < |layout| && b.addr == layout[i].addr && Listed(layout, a)
    ensures Listed(layout[i := b], a)
  {
    var k :| 0 <= k < |layout| && layout[k].addr == a;
    assert layout[i := b][k].addr == a;
  }

  /** The owner's header after c is placed in gap j of block i. */
  function MajorWith(m: Major, j: nat, c: Chunk): Major {
    m.(usage := m.usage + c.size + HEADER_SIZE, first := if j == 0 then c.addr else m.first)
  }

  lemma MajorOfInsert(layout: Layout, i: nat, j: nat, c: Chunk)
    requires i < |layout| && j <= |layout[i].chunks|
    ensures MajorOf(layout[i := Insert(layout[i], j, c)], i) == MajorWith(MajorOf(layout, i), j, c)
  {
    InsertTotals(layout[i], j, c);
    InsertAt(layout[i], j, c, 0);
  }

  lemma PlacedImage(layout: Layout, root: int, bestBet: int, allocatedBytes: int, inuseBytes: int,
                    majors: map<int, Major>, minors: map<int, Minor>, bytes: Bytes,
                    i: nat, j: nat, c: Chunk, bytes': Bytes)
    requires Image(layout, root, bestBet, allocatedBytes, inuseBytes, majors, minors, bytes)
    requires i < |layout| && Holds(layout[i], j, c)
    requires SamePayloads(bytes, bytes', layout)
    requires ByteAt(bytes', c.Tag()) == c.Ptr() - c.Payload()
    ensures Image(layout[i := Insert(layout[i], j, c)], root, bestBet, allocatedBytes, inuseBytes + c.size,
                  majors[layout[i].addr := MajorWith(MajorOf(layout, i), j, c)],
                  LinkIn(minors, layout[i], j, c), bytes')
  {
    InsertRepresents(layout, majors, minors, bytes, i, j, c, bytes');
    MajorOfInsert(layout, i, j, c);
    InsertTotals(layout[i], j, c);
    TotalsReplace(layout, i, Insert(layout[i], j, c));
    if bestBet != NULL { ListedAfterReplace(layout, i, Insert(layout[i], j, c), bestBet); }
  }

  /** A block just obtained for a request of the given size. */
  function NewBlockAt(run: int, size: nat): Block {
    Block(run, NewMajorPages(size), [])
  }

  lemma NewBlockHolds(run: int, size: nat)
    requires 0 < run && size + 2 * HEADER_SIZE <= MAX_FOOTPRINT
    ensures 0 < NewMajorPages(size)
    ensures var e := NewBlockAt(run, size);
            ValidBlock(e) && e.Usage() == HEADER_SIZE && e.Size() == NewMajorSize(size)
    ensures var e := NewBlockAt(run, size);
            Gap(e, 0) >= size + HEADER_SIZE && e.Free() >= size + HEADER_SIZE && Fits(e, size + HEADER_SIZE)
  {
  }

  lemma NewRunClear(layout: Layout, run: int, pages: nat)
    requires ValidLayout(layout) && FreshRun(layout, run, pages) && 0 < pages
    ensures ClearRange(layout, run, run + HEADER_SIZE)
  {
  }

  lemma AppendedImage(layout: Layout, bestBet: int, allocatedBytes: int, inuseBytes: int,
                      majors: map<int, Major>, minors: map<int, Minor>, bytes: Bytes,
                      e: Block, bytes': Bytes)
    requires Image(layout, RootOf(layout), bestBet, allocatedBytes, inuseBytes, majors, minors, bytes)
    requires ValidBlock(e) && e.chunks == [] && FreshRun(layout, e.addr, e.pages)
    requires SamePayloads(bytes, bytes', layout)
    ensures Image(layout + [e], RootOf(layout + [e]), bestBet, allocatedBytes + e.Size(), inuseBytes,
                  LinkLast(majors, layout, e), minors, bytes')
  {
    AppendRepresents(layout, majors, minors, bytes, e, bytes');
    TotalsConcat(layout, [e]);
    assert [e][..0] == [];
    if bestBet != NULL {
      var i :| 0 <= i < |layout| && layout[i].addr == bestBet;
      assert (layout + [e])[i].addr == bestBet;
    }
  }

  lemma NewRunElsewhere(layout: Layout, run: int, pages: nat, i: nat)
    requires ValidLayout(layout) && FreshRun(layout, run, pages) && 0 < pages && i < |layout|
    ensures layout[i].addr != run
  {
  }

  lemma SameImage(layout: Layout, root: int, bestBet: int, allocatedBytes: int, inuseBytes: int,
                  majors: map<int, Major>, minors: map<int, Minor>, bytes: Bytes, bytes': Bytes)
    requires Image(layout, root, bestBet, allocatedBytes, inuseBytes, majors, minors, bytes)
    requires SamePayloads(bytes, bytes', layout)
    ensures Image(layout, root, bestBet, allocatedBytes, inuseBytes, majors, minors, bytes')
  {
  }

  lemma EmptyAddsNothing(before: Bytes, after: Bytes, layout: Layout, e: Block)
    requires SamePayloads(before, after, layout) && e.chunks == []
    ensures SamePayloads(before, after, layout + [e])
  {
  }

  lemma PrefixPayloads(before: Bytes, after: Bytes, layout: Layout, e: Block)
    requires SamePayloads(before, after, layout + [e])
    ensures SamePayloads(before, after, layout)
  {
    forall i | 0 <= i < |layout| ensures SamePayloadsIn(before, after, layout[i]) {
      assert (layout + [e])[i] == layout[i];
    }
  }

  /** Filling the block just linked is placing in a new block. */
  lemma FilledNewBlock(layout: Layout, run: int, size: nat, req: int, j: nat)
    requires j <= |NewBlockAt(run, size).chunks|
    ensures var e := NewBlockAt(run, size); var l := layout + [e];
            && j == 0 && GapStart(e, j) == run + HEADER_SIZE
            && l[|layout| := Insert(e, j, Chunk(GapStart(e, j), size, req))] == Placed(layout, NewBlock, run, size, req)
  {
    var c := Chunk(run + HEADER_SIZE, size, req);
    assert Insert(NewBlockAt(run, size), 0, c).chunks == [c];
  }

  lemma PlacedNoEmpty(layout: Layout, place: Place, run: int, size: nat, req: int)
    requires NoEmptyBlock(layout)
    requires place.InGap? ==> place.i < |layout| && place.j <= |layout[place.i].chunks|
    ensures NoEmptyBlock(Placed(layout, place, run, size, req))
  {
  }

  /** What the search reads from the header of block i. */
  lemma HeaderOf(layout: Layout, root: int, bestBet: int, allocatedBytes: int, inuseBytes: int,
                 majors: map<int, Major>, minors: map<int, Minor>, bytes: Bytes, i: nat, need: int)
    requires Image(layout, root, bestBet, allocatedBytes, inuseBytes, majors, minors, bytes) && i < |layout|
    ensures NULL != root == layout[0].addr && layout[i].addr != NULL && layout[i].addr in majors
    ensures majors[layout[i].addr].size - majors[layout[i].addr].usage == layout[i].Free()
    ensures majors[layout[i].addr].next == if i + 1 == |layout| then NULL else layout[i + 1].addr
    ensures i + 1 < |layout| ==> layout[i + 1].addr != NULL
    ensures majors[layout[i].addr].first == NULL <==> layout[i].chunks == []
    ensures Listed(layout, layout[i].addr)
    ensures layout[i].Free() < need ==> !Fits(layout[i], need)
  {
    assert MajorStored(majors, layout, i) && ValidBlock(layout[i]) && ValidBlock(layout[0]);
    if i + 1 < |layout| { assert ValidBlock(layout[i + 1]); }
    if layout[i].chunks != [] { assert ValidChunk(layout[i], layout[i].chunks[0]); }
    if layout[i].Free() < need { SkipIsJustified(layout[i], need); }
  }

  lemma BetImage(layout: Layout, root: int, bestBet: int, allocatedBytes: int, inuseBytes: int,
                 majors: map<int, Major>, minors: map<int, Minor>, bytes: Bytes, bestBet': int)
    requires Image(layout, root, bestBet, allocatedBytes, inuseBytes, majors, minors, bytes)
    requires bestBet' == NULL || Listed(layout, bestBet')
    ensures Image(layout, root, bestBet', allocatedBytes, inuseBytes, majors, minors, bytes)
  {
  }

  /** Where the best bet sits in the list, if there is one. */
  lemma BetAt(layout: Layout, root: int, bestBet: int, allocatedBytes: int, inuseBytes: int,
              majors: map<int, Major>, minors: map<int, Minor>, bytes: Bytes, need: int) returns (k: nat)
    requires Image(layout, root, bestBet, allocatedBytes, inuseBytes, majors, minors, bytes)
    ensures bestBet != NULL ==> k < |layout| && layout[k].addr == bestBet
    ensures bestBet != NULL ==> bestBet in majors && majors[bestBet].size - majors[bestBet].usage == layout[k].Free()
    ensures IsSearchStart(layout, bestBet, need, if bestBet != NULL && layout[k].Free() > need then k else 0)
  {
    if bestBet == NULL {
      k := 0;
      forall i | 0 <= i < |layout| ensures layout[i].addr != bestBet { assert ValidBlock(layout[i]); }
    } else {
      k :| 0 <= k < |layout| && layout[k].addr == bestBet;
      assert MajorStored(majors, layout, k);
      forall i | 0 <= i < |layout| && layout[i].addr == bestBet ensures i == k {
        BlockAddrsDistinct(layout, i, k);
      }
    }
  }

  lemma EmptyImage(layout: Layout, root: int, bestBet: int, allocatedBytes: int, inuseBytes: int,
                   majors: map<int, Major>, minors: map<int, Minor>, bytes: Bytes)
    requires Image(layout, root, bestBet, allocatedBytes, inuseBytes, majors, minors, bytes)
    ensures root == NULL <==> layout == []
    ensures root == NULL ==> bestBet == NULL
    ensures root == NULL ==> forall need :: IsFirstFit(layout, 0, need, NewBlock)
  {
  }

  /** Every header around chunk j lies outside live payloads, and their addresses are not NULL. */
  lemma ChunkHeaders(layout: Layout, i: nat, j: nat)
    requires ValidLayout(layout) && i < |layout| && j < |layout[i].chunks|
    ensures forall k | j - 1 <= k <= j + 1 && 0 <= k < |layout[i].chunks| ::
              var a := layout[i].chunks[k].addr; a != NULL && ClearRange(layout, a, a + HEADER_SIZE)
    ensures forall k, l | 0 <= k < l < |layout[i].chunks| :: layout[i].chunks[k].addr != layout[i].chunks[l].addr
  {
  }

  /** The owner's header after chunk j of block b is unlinked. */
  function MajorWithout(m: Major, b: Block, j: nat): Major
    requires j < |b.chunks|
  {
    m.(usage := m.usage - (b.chunks[j].size + HEADER_SIZE), first := if j == 0 then MinorOf(b, j).next else m.first)
  }

  lemma MajorOfDelete(layout: Layout, i: nat, j: nat)
    requires i < |layout| && j < |layout[i].chunks|
    ensures MajorOf(layout[i := Delete(layout[i], j)], i) == MajorWithout(MajorOf(layout, i), layout[i], j)
  {
    var b := layout[i];
    DeleteInserts(b, j);
    InsertTotals(Delete(b, j), j, b.chunks[j]);
  }

  lemma SubPayloads(before: Bytes, after: Bytes, layout: Layout, i: nat, j: nat)
    requires i < |layout| && j < |layout[i].chunks| && SamePayloads(before, after, layout)
    ensures SamePayloads(before, after, layout[i := Delete(layout[i], j)])
  {
  }

  lemma DeletedImage(layout: Layout, root: int, bestBet: int, allocatedBytes: int, inuseBytes: int,
                     majors: map<int, Major>, minors: map<int, Minor>, bytes: Bytes,
                     i: nat, j: nat, bytes': Bytes)
    requires Image(layout, root, bestBet, allocatedBytes, inuseBytes, majors, minors, bytes)
    requires i < |layout| && j < |layout[i].chunks| && SamePayloads(bytes, bytes', layout)
    ensures var l := layout[i := Delete(layout[i], j)];
            && SamePayloads(bytes, bytes', l)
            && Image(l, root, bestBet, allocatedBytes, inuseBytes - layout[i].chunks[j].size,
                     majors[layout[i].addr := MajorWithout(MajorOf(layout, i), layout[i], j)],
                     LinkOut(minors, layout[i], j), bytes')
  {
    var b := layout[i];
    var d := Delete(b, j);
    SubPayloads(bytes, bytes', layout, i, j);
    DeleteRepresents(layout, majors, minors, bytes, i, j, bytes');
    MajorOfDelete(layout, i, j);
    DeleteInserts(b, j);
    InsertTotals(d, j, b.chunks[j]);
    TotalsReplace(layout, i, d);
    if bestBet != NULL { ListedAfterReplace(layout, i, d, bestBet); }
  }

  lemma ListedAfterDrop(layout: Layout, i: nat, a: int)
    requires i < |layout| && Listed(layout, a) && a != layout[i].addr
    ensures Listed(layout[..i] + layout[i + 1..], a)
  {
    var k :| 0 <= k < |layout| && layout[k].addr == a;
    assert (layout[..i] + layout[i + 1..])[if k < i then k else k - 1] == layout[k];
  }

  lemma DropPayloads(before: Bytes, after: Bytes, layout: Layout, i: nat)
    requires i < |layout| && SamePayloads(before, after, layout)
    ensures SamePayloads(before, after, layout[..i] + layout[i + 1..])
  {
  }

  lemma DropTotals(layout: Layout, i: nat)
    requires i < |layout| && layout[i].chunks == []
    ensures InUse(layout[..i] + layout[i + 1..]) == InUse(layout)
    ensures Allocated(layout[..i] + layout[i + 1..]) == Allocated(layout) - layout[i].Size()
  {
    TotalsAt(layout, i);
    TotalsConcat(layout[..i], layout[i + 1..]);
  }

  lemma DroppedImage(layout: Layout, root: int, bestBet: int, allocatedBytes: int, inuseBytes: int,
                     majors: map<int, Major>, minors: map<int, Minor>, bytes: Bytes,
                     i: nat, bytes': Bytes)
    requires Image(layout, root, bestBet, allocatedBytes, inuseBytes, majors, minors, bytes)
    requires i < |layout| && layout[i].chunks == [] && SamePayloads(bytes, bytes', layout)
    ensures var l := layout[..i] + layout[i + 1..]; var a := layout[i].addr;
            && SamePayloads(bytes, bytes', l)
            && Image(l, if root == a then MajorOf(layout, i).next else root, if bestBet == a then NULL else bestBet,
                     allocatedBytes - layout[i].Size(), inuseBytes, LinkPast(majors, layout, i), minors, bytes')
  {
    hide Represents, InUse, Allocated, Footprint, SamePayloads, Listed, LinkPast;
    assert ValidLayout(layout) && MajorsLinked(majors, layout) by {
      ImageParts(layout, root, bestBet, allocatedBytes, inuseBytes, majors, minors, bytes);
    }
    DropRepresents(layout, majors, minors, bytes, i, bytes');
    DropTotals(layout, i);
    DropPayloads(bytes, bytes', layout, i);
    BlockAddrsDistinct(layout, 0, i);
    if bestBet != NULL && bestBet != layout[i].addr { ListedAfterDrop(layout, i, bestBet); }
  }

  lemma ImageParts(layout: Layout, root: int, bestBet: int, allocatedBytes: int, inuseBytes: int,
                   majors: map<int, Major>, minors: map<int, Minor>, bytes: Bytes)
    requires Image(layout, root, bestBet, allocatedBytes, inuseBytes, majors, minors, bytes)
    ensures ValidLayout(layout) && MajorsLinked(majors, layout) && MinorsLinked(minors, layout)
    ensures MagicMeansLive(minors, layout) && Tagged(bytes, layout) && root == RootOf(layout)
  {
  }

  /** What the search reads at chunk k of block i. */
  lemma MinorRead(layout: Layout, root: int, bestBet: int, allocatedBytes: int, inuseBytes: int,
                  majors: map<int, Major>, minors: map<int, Minor>, bytes: Bytes, i: nat, k: nat)
    requires Image(layout, root, bestBet, allocatedBytes, inuseBytes, majors, minors, bytes)
    requires i < |layout| && k < |layout[i].chunks|
    ensures var b := layout[i];
            b.addr in majors && majors[b.addr].size == b.Size() && majors[b.addr].first == b.chunks[0].addr
    ensures var b := layout[i]; var c := b.chunks[k];
            && 0 < c.addr && 0 <= c.size && c.addr in minors && minors[c.addr].size == c.size
            && minors[c.addr].next == if k + 1 == |b.chunks| then NULL else b.chunks[k + 1].addr
    ensures k + 1 < |layout[i].chunks| ==> layout[i].chunks[k + 1].addr != NULL
  {
    hide MagicMeansLive, Tagged, Listed, Allocated, InUse, Footprint;
    assert MajorStored(majors, layout, i) && ChunksLinked(minors, layout[i]) && MinorStored(minors, layout[i], k);
    assert ValidBlock(layout[i]);
  }

  /** Block headers are outside live payloads and have distinct, non-null addresses. */
  lemma BlockHeaders(layout: Layout)
    requires ValidLayout(layout)
    ensures forall k | 0 <= k < |layout| ::
              var a := layout[k].addr; a != NULL && ClearRange(layout, a, a + HEADER_SIZE)
    ensures forall k, l | 0 <= k < l < |layout| :: layout[k].addr != layout[l].addr
  {
  }

  // ---------------------------------------------------- finding a chunk by address

  ghost function IndexOf(layout: Layout, a: int): (p: (nat, nat))
    requires Live(layout, a)
    ensures p.0 < |layout| && p.1 < |layout[p.0].chunks| && layout[p.0].chunks[p.1].addr == a
  {
    var i :| 0 <= i < |layout| && HasChunkAt(layout[i], a);
    var j :| 0 <= j < |layout[i].chunks| && layout[i].chunks[j].addr == a;
    (i, j)
  }

  lemma IndexUnique(layout: Layout, i: nat, j: nat)
    requires ValidLayout(layout) && i < |layout| && j < |layout[i].chunks|
    ensures Live(layout, layout[i].chunks[j].addr) && IndexOf(layout, layout[i].chunks[j].addr) == (i, j)
  {
  }

  /** UNALIGN on a live pointer gives back the payload address of the very chunk malloc made. */
  lemma UnalignRecovers(layout: Layout, bytes: Bytes, i: nat, j: nat)
    requires Tagged(bytes, layout) && i < |layout| && j < |layout[i].chunks|
    ensures Unalign(bytes, layout[i].chunks[j].Ptr()) == layout[i].chunks[j].Payload()
  {
  }

  /** The allocator has a header carrying the magic number at a exactly when a live chunk starts there. */
  lemma HeaderIffLive(layout: Layout, minors: map<int, Minor>, a: int)
    requires MinorsLinked(minors, layout) && MagicMeansLive(minors, layout)
    ensures a in minors && minors[a].magic == MAGIC <==> Live(layout, a)
    ensures Live(layout, a) ==>
      var (i, j) := IndexOf(layout, a); a in minors && minors[a] == MinorOf(layout[i], j)
  {
    if Live(layout, a) { LiveHeader(layout, minors, a); }
  }

  lemma LiveHeader(layout: Layout, minors: map<int, Minor>, a: int)
    requires MinorsLinked(minors, layout) && Live(layout, a)
    ensures var (i, j) := IndexOf(layout, a); a in minors && minors[a] == MinorOf(layout[i], j)
  {
    var (i, j) := IndexOf(layout, a);
    assert ChunksLinked(minors, layout[i]) && MinorStored(minors, layout[i], j);
  }

  lemma ReleaseNoEmpty(layout: Layout, i: nat, j: nat)
    requires NoEmptyBlock(layout) && i < |layout| && j < |layout[i].chunks|
    ensures NoEmptyBlock(Release(layout, i, j))
    ensures Delete(layout[i], j).chunks == [] <==> |layout[i].chunks| == 1
    ensures |layout[i].chunks| == 1 ==>
      var l := layout[i := Delete(layout[i], j)]; Release(layout, i, j) == l[..i] + l[i + 1..]
  {
  }

  /** after is before with count bytes copied from src to dst. */
  ghost predicate IsCopy(before: Bytes, after: Bytes, dst: int, src: int, count: int) {
    && (forall a | dst <= a < dst + count :: ByteAt(after, a) == ByteAt(before, src + (a - dst)))
    && (forall a | !(dst <= a < dst + count) :: ByteAt(after, a) == ByteAt(before, a))
  }

  lemma CopyByte(before: Bytes, bytes: Bytes, dst: int, src: int, k: nat, count: nat, v: Byte)
    requires (dst + count <= src || src + count <= dst) && k < count
    requires IsCopy(before, bytes, dst, src, k) && v == ByteAt(before, src + k)
    ensures IsCopy(before, bytes[dst + k := v], dst, src, k + 1)
  {
    var after := bytes[dst + k := v];
    forall a ensures ByteAt(after, a) == ByteAt(before, if dst <= a <= dst + k then src + (a - dst) else a) {
      if a != dst + k { assert ByteAt(after, a) == ByteAt(bytes, a); }
    }
  }

  lemma CopyUnread(before: Bytes, bytes: Bytes, dst: int, src: int, k: nat, count: nat)
    requires (dst + count <= src || src + count <= dst) && k <= count && IsCopy(before, bytes, dst, src, k)
    ensures forall a | src <= a < src + count :: ByteAt(bytes, a) == ByteAt(before, a)
  {
  }

  /** A word read in full and then stored in full copies four bytes. */
  lemma CopyWord(before: Bytes, bytes: Bytes, dst: int, src: int, k: nat, count: nat)
    requires (dst + count <= src || src + count <= dst) && k + 4 <= count
    requires IsCopy(before, bytes, dst, src, k)
    ensures var d := dst + k; var s := src + k;
            IsCopy(before, bytes[d := ByteAt(bytes, s)][d + 1 := ByteAt(bytes, s + 1)]
                                [d + 2 := ByteAt(bytes, s + 2)][d + 3 := ByteAt(bytes, s + 3)], dst, src, k + 4)
  {
    hide IsCopy, ByteAt;
    var d, s := dst + k, src + k;
    CopyUnread(before, bytes, dst, src, k, count);
    var b0, b1, b2, b3 := ByteAt(bytes, s), ByteAt(bytes, s + 1), ByteAt(bytes, s + 2), ByteAt(bytes, s + 3);
    CopyByte(before, bytes, dst, src, k, count, b0);
    CopyByte(before, bytes[d := b0], dst, src, k + 1, count, b1);
    CopyByte(before, bytes[d := b0][d + 1 := b1], dst, src, k + 2, count, b2);
    CopyByte(before, bytes[d := b0][d + 1 := b1][d + 2 := b2], dst, src, k + 3, count, b3);
  }

  ghost predicate SameExcept(before: Bytes, after: Bytes, c: Chunk) {
    forall a | !c.Owns(a) :: ByteAt(after, a) == ByteAt(before, a)
  }

  /** Payloads of different chunks never meet. */
  lemma PayloadsApart(layout: Layout, i: nat, j: nat, k: nat, l: nat)
    requires ValidLayout(layout) && i < |layout| && j < |layout[i].chunks| && k < |layout| && l < |layout[k].chunks|
    requires (i, j) != (k, l)
    ensures var c := layout[i].chunks[j]; var d := layout[k].chunks[l]; c.End() <= d.addr || d.End() <= c.addr
  {
  }

  // ------------------------------------------------------------ headers in memory

  ghost predicate InMemory(bytes: Bytes, a: int, m: Minor) {
    forall k | 0 <= k < HEADER_SIZE :: ByteAt(bytes, a + k) == MinorBytes(m)[k]
  }

  /** Memory holds every header that carries the magic number, byte for byte. */
  ghost predicate MinorsInMemory(minors: map<int, Minor>, bytes: Bytes) {
    forall a | a in minors && minors[a].magic == MAGIC :: InMemory(bytes, a, minors[a])
  }

  ghost predicate MajorInMemory(bytes: Bytes, a: int, m: Major) {
    forall k | 0 <= k < HEADER_SIZE :: ByteAt(bytes, a + k) == MajorBytes(m)[k]
  }

  /** Memory holds the header of every major, byte for byte, and all of them are listed. */
  ghost predicate MajorsInMemory(majors: map<int, Major>, bytes: Bytes, layout: Layout) {
    forall a | a in majors :: Listed(layout, a) && MajorInMemory(bytes, a, majors[a])
  }

  ghost predicate Marked(majors: map<int, Major>, minors: map<int, Minor>, bytes: Bytes, layout: Layout) {
    && ValidLayout(layout) && MagicMeansLive(minors, layout)
    && MinorsInMemory(minors, bytes) && MajorsInMemory(majors, bytes, layout)
  }

  lemma FourBytes(x: int)
    requires 0 <= x < WORD32
    ensures var b := LittleEndian(x, 4);
            var b0: int, b1: int, b2: int, b3: int := b[0], b[1], b[2], b[3];
            b0 + 0x100 * b1 + 0x1_0000 * b2 + 0x100_0000 * b3 == x
  {
    var b := LittleEndian(x, 4);
    assert b == [x % 256] + LittleEndian(x / 256, 3);
    assert LittleEndian(x / 256, 3) == [x / 256 % 256] + LittleEndian(x / 256 / 256, 2);
    assert LittleEndian(x / 256 / 256, 2) == [x / 256 / 256 % 256] + LittleEndian(x / 256 / 256 / 256, 1);
    assert LittleEndian(x / 256 / 256 / 256, 1) == [x / 256 / 256 / 256 % 256] + LittleEndian(x / 256 / 256 / 256 / 256, 0);
  }

  /** The magic field of a header in memory reads as the number stored there. */
  lemma MagicRead(bytes: Bytes, a: int, m: Minor)
    requires InMemory(bytes, a, m) && 0 <= m.magic < WORD32
    ensures MagicAt(bytes, a) == m.magic
  {
    FourBytes(m.magic);
    MagicBytes(m);
    hide LittleEndian, MinorBytes;
    var f := LittleEndian(m.magic, 4);
    forall t | 0 <= t < 4 ensures ByteAt(bytes, a + MAGIC_FIELD + t) == f[t] {
      assert ByteAt(bytes, a + (MAGIC_FIELD + t)) == MinorBytes(m)[MAGIC_FIELD + t];
    }
  }

  lemma MagicBytes(m: Minor)
    ensures forall t | 0 <= t < 4 :: MinorBytes(m)[MAGIC_FIELD + t] == LittleEndian(m.magic, 4)[t]
  {
    hide LittleEndian;
  }

  /** Every live header reads as one: free and realloc accept every live pointer. */
  lemma LiveMagic(layout: Layout, minors: map<int, Minor>, bytes: Bytes, a: int)
    requires MinorsLinked(minors, layout) && MinorsInMemory(minors, bytes) && Live(layout, a)
    ensures MagicAt(bytes, a) == MAGIC
  {
    LiveHeader(layout, minors, a);
    MagicRead(bytes, a, minors[a]);
  }

  lemma WordRead(bytes: Bytes, a: int, x: int)
    requires 0 <= x < WORD32 && forall t | 0 <= t < 4 :: ByteAt(bytes, a + t) == LittleEndian(x, 4)[t]
    ensures WordAt(bytes, a) == x
  {
    hide LittleEndian;
    FourBytes(x);
    assert ByteAt(bytes, a + 0) == LittleEndian(x, 4)[0];
  }

  /** A value that fits a pointer. */
  ghost predicate IsAddress(x: int) { 0 <= x < 0x1_0000_0000_0000_0000 }

  /** The pointer at a. */
  function LongAt(bytes: Bytes, a: int): int { WordAt(bytes, a) + WORD32 * WordAt(bytes, a + 4) }

  /** The number a run of bytes spells, least significant byte first. */
  function Spelled(b: seq<Byte>): int { if b == [] then 0 else b[0] + 256 * Spelled(b[1..]) }

  function Pow256(n: nat): nat { if n == 0 then 1 else 256 * Pow256(n - 1) }

  lemma {:induction false} SpelledBack(x: int, n: nat)
    requires 0 <= x < Pow256(n)
    ensures Spelled(LittleEndian(x, n)) == x
  {
    if n > 0 {
      assert LittleEndian(x, n)[1..] == LittleEndian(x / 256, n - 1);
      SpelledBack(x / 256, n - 1);
    }
  }

  lemma EightBytes(b: seq<Byte>)
    requires |b| == 8
    ensures Spelled(b) == b[0] + 0x100 * b[1] + 0x1_0000 * b[2] + 0x100_0000 * b[3]
      + WORD32 * (b[4] as int + 0x100 * b[5] as int + 0x1_0000 * b[6] as int + 0x100_0000 * b[7] as int)
  {
    FourSpelled(b);
    FourSpelled(b[4..]);
    assert b[4..][4..] == [];
  }

  lemma FourSpelled(b: seq<Byte>)
    requires |b| >= 4
    ensures Spelled(b) == b[0] + 0x100 * b[1] + 0x1_0000 * b[2] + 0x100_0000 * b[3] + WORD32 * Spelled(b[4..])
  {
    assert b[1..][1..] == b[2..] && b[2..][1..] == b[3..] && b[3..][1..] == b[4..];
    assert Spelled(b[1..]) == b[1] + 256 * Spelled(b[2..]);
    assert Spelled(b[2..]) == b[2] + 256 * Spelled(b[3..]);
    assert Spelled(b[3..]) == b[3] + 256 * Spelled(b[4..]);
  }

  lemma PointerBytes()
    ensures Pow256(8) == 0x1_0000_0000_0000_0000
  {
    assert Pow256(4) == 256 * Pow256(3) && Pow256(8) == 256 * (256 * (256 * (256 * Pow256(4))));
  }

  lemma LongRead(bytes: Bytes, a: int, x: int)
    requires IsAddress(x) && forall t | 0 <= t < 8 :: ByteAt(bytes, a + t) == LittleEndian(x, 8)[t]
    ensures LongAt(bytes, a) == x
  {
    hide LittleEndian, Spelled, Pow256;
    var b := LittleEndian(x, 8);
    PointerBytes();
    SpelledBack(x, 8);
    EightBytes(b);
    assert ByteAt(bytes, a + 0) == b[0];
  }

  /** Every field of a minor header in memory, at the offset the structure gives it. */
  lemma MinorFields(bytes: Bytes, a: int, m: Minor)
    requires InMemory(bytes, a, m) && 0 <= m.magic < WORD32 && 0 <= m.size < WORD32 && 0 <= m.req < WORD32
    ensures WordAt(bytes, a + 24) == m.magic && WordAt(bytes, a + 28) == m.size && WordAt(bytes, a + 32) == m.req
    ensures IsAddress(m.prev) ==> LongAt(bytes, a) == m.prev
    ensures IsAddress(m.next) ==> LongAt(bytes, a + 8) == m.next
    ensures IsAddress(m.block) ==> LongAt(bytes, a + 16) == m.block
  {
    MinorParts(m);
    hide LittleEndian, MinorBytes, WordAt, LongAt;
    forall k | 0 <= k < HEADER_SIZE ensures ByteAt(bytes, a + k) == MinorBytes(m)[k] {}
    FieldBytes(bytes, a, MinorBytes(m), 0, 8, m.prev);
    FieldBytes(bytes, a, MinorBytes(m), 8, 8, m.next);
    FieldBytes(bytes, a, MinorBytes(m), 16, 8, m.block);
    FieldBytes(bytes, a, MinorBytes(m), 24, 4, m.magic);
    FieldBytes(bytes, a, MinorBytes(m), 28, 4, m.size);
    FieldBytes(bytes, a, MinorBytes(m), 32, 4, m.req);
    if IsAddress(m.prev) { LongRead(bytes, a, m.prev); }
    if IsAddress(m.next) { LongRead(bytes, a + 8, m.next); }
    if IsAddress(m.block) { LongRead(bytes, a + 16, m.block); }
    WordRead(bytes, a + 24, m.magic);
    WordRead(bytes, a + 28, m.size);
    WordRead(bytes, a + 32, m.req);
  }

  lemma MinorParts(m: Minor)
    ensures var b := MinorBytes(m);
            && b[0..8] == LittleEndian(m.prev, 8) && b[8..16] == LittleEndian(m.next, 8) && b[16..24] == LittleEndian(m.block, 8)
            && b[24..28] == LittleEndian(m.magic, 4) && b[28..32] == LittleEndian(m.size, 4) && b[32..36] == LittleEndian(m.req, 4)
  {
    hide LittleEndian;
  }

  lemma FieldBytes(bytes: Bytes, a: int, header: seq<Byte>, at: nat, n: nat, x: int)
    requires at + n <= |header| && header[at..at + n] == LittleEndian(x, n)
    requires forall k | 0 <= k < |header| :: ByteAt(bytes, a + k) == header[k]
    ensures forall t | 0 <= t < n :: ByteAt(bytes, a + at + t) == LittleEndian(x, n)[t]
  {
    hide LittleEndian;
    forall t | 0 <= t < n ensures ByteAt(bytes, a + at + t) == LittleEndian(x, n)[t] {
      assert ByteAt(bytes, a + (at + t)) == header[at + t];
      assert header[at..at + n][t] == header[at + t];
    }
  }

  /** Every field of a major header in memory. */
  lemma MajorFields(bytes: Bytes, a: int, m: Major)
    requires MajorInMemory(bytes, a, m) && 0 <= m.pages < WORD32 && 0 <= m.size < WORD32 && 0 <= m.usage < WORD32
    ensures WordAt(bytes, a + 16) == m.pages && WordAt(bytes, a + 20) == m.size && WordAt(bytes, a + 24) == m.usage
    ensures IsAddress(m.prev) ==> LongAt(bytes, a) == m.prev
    ensures IsAddress(m.next) ==> LongAt(bytes, a + 8) == m.next
    ensures IsAddress(m.first) ==> LongAt(bytes, a + 32) == m.first
  {
    MajorParts(m);
    hide LittleEndian, MajorBytes, WordAt, LongAt;
    forall k | 0 <= k < HEADER_SIZE ensures ByteAt(bytes, a + k) == MajorBytes(m)[k] {}
    FieldBytes(bytes, a, MajorBytes(m), 0, 8, m.prev);
    FieldBytes(bytes, a, MajorBytes(m), 8, 8, m.next);
    FieldBytes(bytes, a, MajorBytes(m), 16, 4, m.pages);
    FieldBytes(bytes, a, MajorBytes(m), 20, 4, m.size);
    FieldBytes(bytes, a, MajorBytes(m), 24, 4, m.usage);
    FieldBytes(bytes, a, MajorBytes(m), 32, 8, m.first);
    if IsAddress(m.prev) { LongRead(bytes, a, m.prev); }
    if IsAddress(m.next) { LongRead(bytes, a + 8, m.next); }
    if IsAddress(m.first) { LongRead(bytes, a + 32, m.first); }
    WordRead(bytes, a + 16, m.pages);
    WordRead(bytes, a + 20, m.size);
    WordRead(bytes, a + 24, m.usage);
  }

  lemma MajorParts(m: Major)
    ensures var b := MajorBytes(m);
            && b[0..8] == LittleEndian(m.prev, 8) && b[8..16] == LittleEndian(m.next, 8) && b[16..20] == LittleEndian(m.pages, 4)
            && b[20..24] == LittleEndian(m.size, 4) && b[24..28] == LittleEndian(m.usage, 4) && b[32..40] == LittleEndian(m.first, 8)
  {
    hide LittleEndian;
  }

  /** A listed block as memory has it: pages, bytes, used bytes, its neighbours in the list and its first chunk. */
  lemma BlockRead(layout: Layout, majors: map<int, Major>, bytes: Bytes, i: nat)
    requires ValidLayout(layout) && MajorsLinked(majors, layout) && MajorsInMemory(majors, bytes, layout) && i < |layout|
    ensures var b := layout[i];
            WordAt(bytes, b.addr + 16) == b.pages && WordAt(bytes, b.addr + 20) == b.Size() && WordAt(bytes, b.addr + 24) == b.Usage()
    ensures InAddressSpace(layout) ==>
      var b := layout[i];
      && LongAt(bytes, b.addr) == (if i == 0 then 0 else layout[i - 1].addr)
      && LongAt(bytes, b.addr + 8) == (if i + 1 == |layout| then 0 else layout[i + 1].addr)
      && LongAt(bytes, b.addr + 32) == (if b.chunks == [] then 0 else b.chunks[0].addr)
  {
    hide WordAt, LongAt, MajorInMemory;
    var b := layout[i];
    assert MajorStored(majors, layout, i) && ValidBlock(b);
    UsageInBlock(b);
    MajorFields(bytes, b.addr, majors[b.addr]);
    if InAddressSpace(layout) {
      assert i > 0 ==> ValidBlock(layout[i - 1]);
      assert i + 1 < |layout| ==> ValidBlock(layout[i + 1]);
      assert b.chunks != [] ==> ValidChunk(b, b.chunks[0]);
    }
  }

  /** Every block ends within the addresses a pointer can hold. */
  ghost predicate InAddressSpace(layout: Layout) { forall i | 0 <= i < |layout| :: IsAddress(layout[i].End()) }

  /** A live chunk as memory has it: its neighbours in the block, its block, the magic number and both sizes. */
  lemma ChunkRead(layout: Layout, minors: map<int, Minor>, bytes: Bytes, i: nat, j: nat)
    requires ValidLayout(layout) && MinorsLinked(minors, layout) && MinorsInMemory(minors, bytes)
    requires i < |layout| && j < |layout[i].chunks|
    ensures var c := layout[i].chunks[j];
            WordAt(bytes, c.addr + 24) == 0xc001_c0de && WordAt(bytes, c.addr + 28) == c.size && WordAt(bytes, c.addr + 32) == c.req
    ensures InAddressSpace(layout) ==>
      var b := layout[i];
      var c := b.chunks[j];
      && LongAt(bytes, c.addr) == (if j == 0 then 0 else b.chunks[j - 1].addr)
      && LongAt(bytes, c.addr + 8) == (if j + 1 == |b.chunks| then 0 else b.chunks[j + 1].addr)
      && LongAt(bytes, c.addr + 16) == b.addr
  {
    hide WordAt, LongAt, InMemory;
    var b := layout[i];
    assert ChunksLinked(minors, b) && MinorStored(minors, b, j) && ValidBlock(b) && ValidChunk(b, b.chunks[j]);
    MinorFields(bytes, b.chunks[j].addr, minors[b.chunks[j].addr]);
    if InAddressSpace(layout) {
      assert j > 0 ==> ValidChunk(b, b.chunks[j - 1]);
      assert j + 1 < |b.chunks| ==> ValidChunk(b, b.chunks[j + 1]);
    }
  }

  /** Memory is the same but for [lo, hi). */
  ghost predicate SameBut(before: Bytes, after: Bytes, lo: int, hi: int) {
    forall a | !(lo <= a < hi) :: ByteAt(after, a) == ByteAt(before, a)
  }

  lemma StillInMemory(before: Bytes, after: Bytes, lo: int, hi: int, a: int, m: Minor)
    requires InMemory(before, a, m) && SameBut(before, after, lo, hi) && (a + HEADER_SIZE <= lo || hi <= a)
    ensures InMemory(after, a, m)
  {
    hide MinorBytes;
  }

  lemma MajorStillInMemory(before: Bytes, after: Bytes, lo: int, hi: int, a: int, m: Major)
    requires MajorInMemory(before, a, m) && SameBut(before, after, lo, hi) && (a + HEADER_SIZE <= lo || hi <= a)
    ensures MajorInMemory(after, a, m)
  {
    hide MajorBytes;
  }

  /** A change that touches no header keeps them all in memory. */
  lemma RangeMarks(majors: map<int, Major>, minors: map<int, Minor>, before: Bytes, after: Bytes, layout: Layout, lo: int, hi: int)
    requires Marked(majors, minors, before, layout) && SameBut(before, after, lo, hi)
    requires forall a | Live(layout, a) || Listed(layout, a) :: a + HEADER_SIZE <= lo || hi <= a
    ensures Marked(majors, minors, after, layout)
  {
    hide InMemory, MajorInMemory, Live, Listed, ValidLayout;
    forall a | a in majors ensures MajorInMemory(after, a, majors[a]) {
      MajorStillInMemory(before, after, lo, hi, a, majors[a]);
    }
    forall a | a in minors && minors[a].magic == MAGIC ensures InMemory(after, a, minors[a]) {
      StillInMemory(before, after, lo, hi, a, minors[a]);
    }
  }

  lemma LiveAddrsApart(layout: Layout, a: int, x: int)
    requires ValidLayout(layout) && Live(layout, a) && Live(layout, x) && a != x
    ensures x + HEADER_SIZE <= a || a + HEADER_SIZE <= x
  {
    var (i, j) := IndexOf(layout, a);
    var (k, l) := IndexOf(layout, x);
    PayloadsApart(layout, i, j, k, l);
    PtrInside(layout, i, j);
    PtrInside(layout, k, l);
  }

  lemma MinorStoreMarks(majors: map<int, Major>, minors: map<int, Minor>, bytes: Bytes, layout: Layout, a: int, m: Minor)
    requires Marked(majors, minors, bytes, layout) && Live(layout, a)
    ensures Marked(majors, minors[a := m], Stored(bytes, a, MinorBytes(m)), layout) && InMemory(Stored(bytes, a, MinorBytes(m)), a, m)
  {
    var after := Stored(bytes, a, MinorBytes(m));
    assert SameBut(bytes, after, a, a + HEADER_SIZE);
    assert InMemory(after, a, m);
    hide InMemory, MajorInMemory, Live, Listed, ValidLayout, Stored, MinorBytes;
    var minors' := minors[a := m];
    forall x | x in majors ensures MajorInMemory(after, x, majors[x]) {
      BlockAddrApart(layout, x, a);
      MajorStillInMemory(bytes, after, a, a + HEADER_SIZE, x, majors[x]);
    }
    forall x | x in minors' && minors'[x].magic == MAGIC ensures InMemory(after, x, minors'[x]) {
      if x != a {
        LiveAddrsApart(layout, a, x);
        StillInMemory(bytes, after, a, a + HEADER_SIZE, x, minors[x]);
      }
    }
  }

  lemma BlockAddrApart(layout: Layout, a: int, x: int)
    requires ValidLayout(layout) && Listed(layout, a) && Live(layout, x)
    ensures x + HEADER_SIZE <= a || a + HEADER_SIZE <= x
  {
    var (k, l) := IndexOf(layout, x);
    var i :| 0 <= i < |layout| && layout[i].addr == a;
    assert ValidBlock(layout[k]) && ValidChunk(layout[k], layout[k].chunks[l]) && ValidBlock(layout[i]);
    assert i < k ==> Apart(layout[i], layout[k]);
    assert k < i ==> Apart(layout[k], layout[i]);
  }

  lemma ListedAddrsApart(layout: Layout, a: int, x: int)
    requires ValidLayout(layout) && Listed(layout, a) && Listed(layout, x) && a != x
    ensures x + HEADER_SIZE <= a || a + HEADER_SIZE <= x
  {
    var i :| 0 <= i < |layout| && layout[i].addr == a;
    var k :| 0 <= k < |layout| && layout[k].addr == x;
    assert ValidBlock(layout[k]) && ValidBlock(layout[i]);
    assert i < k ==> Apart(layout[i], layout[k]);
    assert k < i ==> Apart(layout[k], layout[i]);
  }

  lemma MajorStoreMarks(majors: map<int, Major>, minors: map<int, Minor>, bytes: Bytes, layout: Layout, a: int, m: Major)
    requires Marked(majors, minors, bytes, layout) && Listed(layout, a)
    ensures Marked(majors[a := m], minors, Stored(bytes, a, MajorBytes(m)), layout)
  {
    hide Live, ValidLayout, Stored, MajorBytes, Listed, InMemory, MajorInMemory, SameBut;
    var after, majors' := Stored(bytes, a, MajorBytes(m)), majors[a := m];
    MajorWritten(bytes, a, m);
    forall x | x in majors' ensures MajorInMemory(after, x, majors'[x]) {
      if x != a {
        ListedAddrsApart(layout, a, x);
        MajorStillInMemory(bytes, after, a, a + HEADER_SIZE, x, majors[x]);
      }
    }
    forall x | x in minors && minors[x].magic == MAGIC ensures InMemory(after, x, minors[x]) {
      BlockAddrApart(layout, a, x);
      StillInMemory(bytes, after, a, a + HEADER_SIZE, x, minors[x]);
    }
  }

  lemma MajorWritten(bytes: Bytes, a: int, m: Major)
    ensures SameBut(bytes, Stored(bytes, a, MajorBytes(m)), a, a + HEADER_SIZE)
    ensures MajorInMemory(Stored(bytes, a, MajorBytes(m)), a, m)
  {
    hide MajorBytes;
  }

  lemma BlockApartFromChunk(layout: Layout, x: int, i: nat, j: nat)
    requires ValidLayout(layout) && Listed(layout, x) && i < |layout| && j < |layout[i].chunks|
    ensures x + HEADER_SIZE <= layout[i].chunks[j].addr || layout[i].chunks[j].End() <= x
  {
    var k :| 0 <= k < |layout| && layout[k].addr == x;
    assert ValidBlock(layout[k]) && ValidBlock(layout[i]) && ValidChunk(layout[i], layout[i].chunks[j]);
    assert i < k ==> Apart(layout[i], layout[k]);
    assert k < i ==> Apart(layout[k], layout[i]);
  }

  /** Writes inside one payload touch no header. */
  lemma PayloadMarks(majors: map<int, Major>, minors: map<int, Minor>, before: Bytes, after: Bytes, layout: Layout, i: nat, j: nat)
    requires Marked(majors, minors, before, layout) && i < |layout| && j < |layout[i].chunks|
    requires SameBut(before, after, layout[i].chunks[j].Payload(), layout[i].chunks[j].End())
    ensures Marked(majors, minors, after, layout)
  {
    var c := layout[i].chunks[j];
    PtrInside(layout, i, j);
    forall x | Live(layout, x) ensures x + HEADER_SIZE <= c.Payload() || c.End() <= x {
      var (k, l) := IndexOf(layout, x);
      if (k, l) != (i, j) {
        PayloadsApart(layout, i, j, k, l);
        PtrInside(layout, k, l);
      }
    }
    forall x | Listed(layout, x) ensures x + HEADER_SIZE <= c.Payload() || c.End() <= x {
      LiveIn(layout, i, j);
      BlockApartFromChunk(layout, x, i, j);
    }
    RangeMarks(majors, minors, before, after, layout, c.Payload(), c.End());
  }

  lemma LiveIn(layout: Layout, i: nat, j: nat)
    requires i < |layout| && j < |layout[i].chunks|
    ensures Live(layout, layout[i].chunks[j].addr)
  {
    assert HasChunkAt(layout[i], layout[i].chunks[j].addr);
  }

  /** Every header a placement stores to is a header of the layout it leads to. */
  lemma PlacingMarks(layout: Layout, majors: map<int, Major>, minors: map<int, Minor>, bytes: Bytes, i: nat, j: nat, c: Chunk)
    requires Marked(majors, minors, bytes, layout) && i < |layout| && Holds(layout[i], j, c)
    ensures var l := layout[i := Insert(layout[i], j, c)];
            && Marked(majors, minors, bytes, l) && Listed(l, layout[i].addr) && Live(l, c.addr)
            && |l| == |layout| && j < |l[i].chunks| && l[i].chunks[j] == c
            && (forall k | 0 <= k < |layout[i].chunks| :: Live(l, layout[i].chunks[k].addr))
  {
    var l := layout[i := Insert(layout[i], j, c)];
    InsertValid(layout[i], j, c);
    ReplaceValid(layout, i, Insert(layout[i], j, c));
    InsertAt(layout[i], j, c, j);
    LiveIn(l, i, j);
    assert l[i].addr == layout[i].addr;
    hide ValidLayout, Live, InMemory, MajorInMemory, Listed;
    ListedIn(l, i);
    forall a | a in majors ensures Listed(l, a) { ListedAfterReplace(layout, i, l[i], a); }
    forall a | Live(layout, a) ensures Live(l, a) { LiveAfterInsert(layout, i, j, c, a); }
    forall k | 0 <= k < |layout[i].chunks| ensures Live(l, layout[i].chunks[k].addr) { LiveIn(layout, i, k); }
  }

  lemma AppendingMarks(layout: Layout, majors: map<int, Major>, minors: map<int, Minor>, bytes: Bytes, e: Block)
    requires Marked(majors, minors, bytes, layout) && ValidBlock(e) && FreshRun(layout, e.addr, e.pages)
    ensures Marked(majors, minors, bytes, layout + [e]) && Listed(layout + [e], e.addr)
    ensures forall i | 0 <= i < |layout| :: Listed(layout + [e], layout[i].addr)
  {
    AppendValid(layout, e);
    assert (layout + [e])[|layout|] == e;
    hide ValidLayout, InMemory, MajorInMemory, ValidBlock;
    forall i | 0 <= i < |layout| ensures Listed(layout + [e], layout[i].addr) { assert (layout + [e])[i] == layout[i]; }
    forall a | Live(layout, a) ensures Live(layout + [e], a) {
      var (i, j) := IndexOf(layout, a);
      assert (layout + [e])[i] == layout[i];
      LiveIn(layout + [e], i, j);
    }
  }

  lemma LastHasNoNext(majors: map<int, Major>, layout: Layout)
    requires layout != [] && MajorStored(majors, layout, |layout| - 1)
    ensures majors[layout[|layout| - 1].addr].next == NULL
  {
  }

  /** The stores that link a new major last. */
  lemma LinkedLast(majors: map<int, Major>, layout: Layout, e: Block)
    requires layout != [] && MajorStored(majors, layout, |layout| - 1) && layout[|layout| - 1].addr != e.addr && e.chunks == []
    ensures var maj := layout[|layout| - 1].addr;
            majors[e.addr := Major(NULL, NULL, e.pages, e.Size(), e.Usage(), NULL)][maj := majors[maj].(next := e.addr)]
                  [e.addr := Major(maj, NULL, e.pages, e.Size(), e.Usage(), NULL)] == LinkLast(majors, layout, e)
  {
  }

  /** A block over a fresh run can be listed after the others and its header written. */
  lemma NewRunReady(layout: Layout, majors: map<int, Major>, minors: map<int, Minor>, bytes: Bytes, run: int, size: nat, e: Block)
    requires Marked(majors, minors, bytes, layout) && layout != [] && size + 2 * HEADER_SIZE <= MAX_FOOTPRINT
    requires FreshRun(layout, run, NewMajorPages(size)) && e == NewBlockAt(run, size)
    ensures 0 < run && layout[|layout| - 1].addr != run && ClearRange(layout, run, run + HEADER_SIZE)
    ensures ValidBlock(e) && e.addr == run && e.chunks == [] && e.pages == NewMajorPages(size) && e.Size() == NewMajorSize(size)
    ensures e.Usage() == HEADER_SIZE && FreshRun(layout, e.addr, e.pages)
    ensures Marked(majors, minors, bytes, layout + [e]) && Listed(layout + [e], run)
    ensures Listed(layout + [e], layout[|layout| - 1].addr)
  {
    NewBlockHolds(run, size);
    NewRunClear(layout, run, NewMajorPages(size));
    NewRunElsewhere(layout, run, NewMajorPages(size), |layout| - 1);
    AppendingMarks(layout, majors, minors, bytes, e);
  }

  /** Headers in memory stay so when a chunk shrinks or goes, or an emptied block leaves the list. */
  lemma DeletingMarks(majors: map<int, Major>, bytes: Bytes, layout: Layout, i: nat, j: nat)
    requires MajorsInMemory(majors, bytes, layout) && i < |layout| && j < |layout[i].chunks|
    ensures MajorsInMemory(majors, bytes, layout[i := Delete(layout[i], j)])
  {
    hide MajorInMemory, Listed;
    forall a | a in majors ensures Listed(layout[i := Delete(layout[i], j)], a) {
      ListedAfterReplace(layout, i, Delete(layout[i], j), a);
    }
  }

  lemma ShrinkingMarks(majors: map<int, Major>, bytes: Bytes, layout: Layout, i: nat, j: nat, req: nat)
    requires MajorsInMemory(majors, bytes, layout) && i < |layout| && j < |layout[i].chunks|
    ensures MajorsInMemory(majors, bytes, WithReq(layout, i, j, req))
  {
    hide MajorInMemory, Listed;
    forall a | a in majors ensures Listed(WithReq(layout, i, j, req), a) {
      ListedAfterReplace(layout, i, WithReq(layout, i, j, req)[i], a);
    }
  }

  lemma FewerMarks(majors: map<int, Major>, minors: map<int, Minor>, bytes: Bytes, layout: Layout, a: int)
    requires Marked(majors, minors, bytes, layout)
    ensures Marked(majors - {a}, minors, bytes, layout)
  {
    hide MajorInMemory, Listed, ValidLayout;
  }

  lemma DroppingMarks(majors: map<int, Major>, bytes: Bytes, layout: Layout, i: nat)
    requires MajorsInMemory(majors, bytes, layout) && i < |layout| && layout[i].addr !in majors
    ensures MajorsInMemory(majors, bytes, layout[..i] + layout[i + 1..])
  {
    hide MajorInMemory;
    forall a | a in majors ensures Listed(layout[..i] + layout[i + 1..], a) {
      var k :| 0 <= k < |layout| && layout[k].addr == a;
      assert (layout[..i] + layout[i + 1..])[if k < i then k else k - 1] == layout[k];
    }
  }

  /** A copy into the caller's range of one chunk touches no header. */
  lemma CopyMarks(majors: map<int, Major>, minors: map<int, Minor>, before: Bytes, after: Bytes, layout: Layout, i: nat, j: nat, src: int, count: nat)
    requires Marked(majors, minors, before, layout) && i < |layout| && j < |layout[i].chunks|
    requires IsCopy(before, after, layout[i].chunks[j].Ptr(), src, count) && count <= layout[i].chunks[j].req
    ensures Marked(majors, minors, after, layout)
  {
    PtrInside(layout, i, j);
    PayloadMarks(majors, minors, before, after, layout, i, j);
  }

  /** Memory in [lo, hi) is the same. */
  ghost predicate SameIn(before: Bytes, after: Bytes, lo: int, hi: int) {
    forall a | lo <= a < hi :: ByteAt(after, a) == ByteAt(before, a)
  }

  lemma MagicSameIn(before: Bytes, after: Bytes, lo: int, hi: int, a: int)
    requires SameIn(before, after, lo, hi) && lo <= a && a + HEADER_SIZE <= hi
    ensures MagicAt(after, a) == MagicAt(before, a)
  {
  }

  /** Unlinking a chunk and then reclaiming its block leave every payload there was. */
  lemma ReleasePayloads(b0: Bytes, b1: Bytes, b2: Bytes, layout: Layout, i: nat, j: nat)
    requires ValidLayout(layout) && i < |layout| && j < |layout[i].chunks| && SamePayloads(b0, b1, layout)
    requires SamePayloads(b1, b2, layout[i := Delete(layout[i], j)]) && SameIn(b1, b2, layout[i].addr, layout[i].End())
    ensures SamePayloads(b0, b2, layout)
  {
    var l := layout[i := Delete(layout[i], j)];
    forall k | 0 <= k < |layout| ensures SamePayloadsIn(b0, b2, layout[k]) {
      assert SamePayloadsIn(b0, b1, layout[k]) && SamePayloadsIn(b1, b2, l[k]) && ValidBlock(layout[k]);
      forall n | 0 <= n < |layout[k].chunks| ensures SamePayload(b0, b2, layout[k].chunks[n]) {
        assert SamePayload(b0, b1, layout[k].chunks[n]) && ValidChunk(layout[k], layout[k].chunks[n]);
        if k != i { assert l[k] == layout[k] && SamePayload(b1, b2, layout[k].chunks[n]); }
      }
    }
  }

  lemma SameInStep(a: Bytes, b: Bytes, c: Bytes, lo: int, hi: int, at: int)
    requires SameIn(a, b, lo, hi) && SameBut(b, c, at, at + HEADER_SIZE) && (at + HEADER_SIZE <= lo || hi <= at)
    ensures SameIn(a, c, lo, hi)
  {
  }

  lemma BlocksElsewhere(layout: Layout, i: nat, k: nat)
    requires ValidLayout(layout) && i < |layout| && k < |layout| && i != k
    ensures layout[k].addr + HEADER_SIZE <= layout[i].addr || layout[i].End() <= layout[k].addr
  {
    assert ValidBlock(layout[k]) && (i < k ==> Apart(layout[i], layout[k])) && (k < i ==> Apart(layout[k], layout[i]));
  }

  lemma OwnedTags(layout: Layout, bytes: Bytes, i: nat, j: nat, bytes': Bytes, k: nat, l: nat)
    requires ValidLayout(layout) && Tagged(bytes, layout)
    requires i < |layout| && j < |layout[i].chunks| && k < |layout| && l < |layout[k].chunks|
    requires SameExcept(bytes, bytes', layout[i].chunks[j])
    ensures ByteAt(bytes', layout[k].chunks[l].Tag()) == layout[k].chunks[l].Ptr() - layout[k].chunks[l].Payload()
    ensures (i, j) != (k, l) ==> SamePayload(bytes, bytes', layout[k].chunks[l])
  {
  }

  /** Writes inside one caller's range keep the heap image, tags included. */
  lemma OwnedStore(layout: Layout, root: int, bestBet: int, allocatedBytes: int, inuseBytes: int,
                   majors: map<int, Major>, minors: map<int, Minor>, bytes: Bytes, i: nat, j: nat, bytes': Bytes)
    requires Image(layout, root, bestBet, allocatedBytes, inuseBytes, majors, minors, bytes)
    requires i < |layout| && j < |layout[i].chunks| && SameExcept(bytes, bytes', layout[i].chunks[j])
    ensures Image(layout, root, bestBet, allocatedBytes, inuseBytes, majors, minors, bytes')
    ensures forall k, l | 0 <= k < |layout| && 0 <= l < |layout[k].chunks| && (k, l) != (i, j) ::
              SamePayload(bytes, bytes', layout[k].chunks[l])
  {
    forall k, l | 0 <= k < |layout| && 0 <= l < |layout[k].chunks|
      ensures ByteAt(bytes', layout[k].chunks[l].Tag()) == layout[k].chunks[l].Ptr() - layout[k].chunks[l].Payload()
      ensures (k, l) != (i, j) ==> SamePayload(bytes, bytes', layout[k].chunks[l])
    {
      OwnedTags(layout, bytes, i, j, bytes', k, l);
    }
  }

  // ------------------------------------------------------------- chunks as members

  ghost predicate BlockHas(b: Block, c: Chunk) {
    exists j :: 0 <= j < |b.chunks| && b.chunks[j] == c
  }

  ghost predicate IsChunk(layout: Layout, c: Chunk) {
    exists i :: 0 <= i < |layout| && BlockHas(layout[i], c)
  }

  lemma ChunkAt(layout: Layout, i: nat, j: nat)
    requires i < |layout| && j < |layout[i].chunks|
    ensures IsChunk(layout, layout[i].chunks[j])
  {
  }

  lemma ChunkIndex(layout: Layout, c: Chunk) returns (i: nat, j: nat)
    requires ValidLayout(layout) && IsChunk(layout, c)
    ensures i < |layout| && j < |layout[i].chunks| && layout[i].chunks[j] == c
    ensures Live(layout, c.addr) && IndexOf(layout, c.addr) == (i, j)
  {
    i :| 0 <= i < |layout| && BlockHas(layout[i], c);
    j :| 0 <= j < |layout[i].chunks| && layout[i].chunks[j] == c;
    IndexUnique(layout, i, j);
  }

  lemma PayloadOf(before: Bytes, after: Bytes, layout: Layout, c: Chunk)
    requires ValidLayout(layout) && SamePayloads(before, after, layout) && IsChunk(layout, c)
    ensures SamePayload(before, after, c)
  {
  }

  lemma BlockHasInsert(b: Block, j: nat, c: Chunk, d: Chunk)
    requires j <= |b.chunks|
    ensures BlockHas(Insert(b, j, c), d) <==> BlockHas(b, d) || d == c
  {
    if BlockHas(b, d) {
      var k :| 0 <= k < |b.chunks| && b.chunks[k] == d;
      InsertAt(b, j, c, if k < j then k else k + 1);
    }
    InsertAt(b, j, c, j);
    if BlockHas(Insert(b, j, c), d) {
      var k :| 0 <= k < |Insert(b, j, c).chunks| && Insert(b, j, c).chunks[k] == d;
      InsertAt(b, j, c, k);
    }
  }

  lemma IsChunkReplaced(layout: Layout, i: nat, b: Block, d: Chunk)
    requires i < |layout|
    ensures IsChunk(layout[i := b], d) <==> BlockHas(b, d) || exists k :: 0 <= k < |layout| && k != i && BlockHas(layout[k], d)
  {
    var l := layout[i := b];
    assert forall k | 0 <= k < |layout| :: l[k] == if k == i then b else layout[k];
    if BlockHas(b, d) { assert BlockHas(l[i], d); }
    if k :| 0 <= k < |layout| && k != i && BlockHas(layout[k], d) { assert BlockHas(l[k], d); }
  }

  /** malloc adds exactly the placed chunk. */
  lemma PlacedChunks(layout: Layout, place: Place, run: int, size: nat, req: int, d: Chunk)
    requires place.InGap? ==> place.i < |layout| && place.j <= |layout[place.i].chunks|
    ensures IsChunk(Placed(layout, place, run, size, req), d) <==>
              IsChunk(layout, d) || d == PlacedChunk(layout, place, run, size, req)
  {
    var c := PlacedChunk(layout, place, run, size, req);
    match place
    case InGap(i, j) =>
      BlockHasInsert(layout[i], j, c, d);
      IsChunkReplaced(layout, i, Insert(layout[i], j, c), d);
      IsChunkReplaced(layout, i, layout[i], d);
      assert layout[i := layout[i]] == layout;
    case NewBlock =>
      var b := Block(run, NewMajorPages(size), [c]);
      var l := layout + [b];
      assert b.chunks[0] == c && l[|layout|] == b;
      assert BlockHas(b, d) <==> d == c;
      assert forall k | 0 <= k < |layout| :: l[k] == layout[k];
      if d == c { assert BlockHas(l[|layout|], d); }
  }

  /** free removes no other chunk. */
  lemma ReleasedChunks(layout: Layout, i: nat, j: nat, d: Chunk)
    requires i < |layout| && j < |layout[i].chunks| && d != layout[i].chunks[j]
    ensures IsChunk(layout, d) ==> IsChunk(Release(layout, i, j), d)
  {
    var b := layout[i];
    DeleteInserts(b, j);
    BlockHasInsert(Delete(b, j), j, b.chunks[j], d);
    IsChunkReplaced(layout, i, b, d);
    assert layout[i := b] == layout;
    if IsChunk(layout, d) && |b.chunks| == 1 {
      assert Delete(b, j).chunks == [];
      var k :| 0 <= k < |layout| && k != i && BlockHas(layout[k], d);
      assert Release(layout, i, j)[if k < i then k else k - 1] == layout[k];
    } else {
      IsChunkReplaced(layout, i, Delete(b, j), d);
    }
  }

  // ------------------------------------------------------------------ main results

  /** Releasing what malloc placed gives back the exact layout, in every placement case. */
  lemma PlaceThenRelease(layout: Layout, start: nat, need: int, place: Place, run: int, size: nat, req: int)
    requires NoEmptyBlock(layout) && IsFirstFit(layout, start, need, place)
    ensures var l := Placed(layout, place, run, size, req); var (i, j) := PlacedAt(layout, place);
            && i < |l| && j < |l[i].chunks| && l[i].chunks[j] == PlacedChunk(layout, place, run, size, req)
            && Release(l, i, j) == layout
  {
    var c := PlacedChunk(layout, place, run, size, req);
    var l := Placed(layout, place, run, size, req);
    match place
    case InGap(i, j) =>
      InsertDeletes(layout[i], j, c);
      assert layout[i].chunks != [];
      assert l[i := layout[i]] == layout;
    case NewBlock =>
      assert l[..|layout|] == layout && l[|layout| + 1..] == [];
  }

  /**
   Every live pointer is 16-byte aligned, and the range its caller asked for lies in
   its own payload, clear of every header, every alignment tag and every other range.
   */
  lemma PointerSafe(layout: Layout, i: nat, j: nat, k: nat, l: nat)
    requires ValidLayout(layout) && i < |layout| && j < |layout[i].chunks| && k < |layout| && l < |layout[k].chunks|
    ensures var c := layout[i].chunks[j];
            0 < c.Ptr() && c.Ptr() % ALIGNMENT == 0 && c.Payload() < c.Ptr() && c.Ptr() + c.req <= c.End()
    ensures var c := layout[i].chunks[j]; var d := layout[k].chunks[l];
            forall a | c.Owns(a) ::
              && !(layout[k].addr <= a < layout[k].addr + HEADER_SIZE)
              && !(d.addr <= a < d.addr + HEADER_SIZE)
              && a != d.Tag()
              && (d.Owns(a) ==> (i, j) == (k, l))
  {
  }

  /** malloc's result is a well-formed layout again. */
  lemma PlacedValid(layout: Layout, start: nat, place: Place, run: int, req: nat)
    requires ValidLayout(layout) && req + ALIGNMENT + ALIGN_INFO + 2 * HEADER_SIZE <= MAX_FOOTPRINT
    requires IsFirstFit(layout, start, req + ALIGNMENT + ALIGN_INFO + HEADER_SIZE, place)
    requires place.NewBlock? ==> FreshRun(layout, run, NewMajorPages(req + ALIGNMENT + ALIGN_INFO))
    ensures ValidLayout(Placed(layout, place, run, req + ALIGNMENT + ALIGN_INFO, req))
  {
    var size := req + ALIGNMENT + ALIGN_INFO;
    var c := PlacedChunk(layout, place, run, size, req);
    match place
    case InGap(i, j) =>
      InsertValid(layout[i], j, c);
      ReplaceValid(layout, i, Insert(layout[i], j, c));
    case NewBlock =>
      NewBlockHolds(run, size);
      InsertValid(NewBlockAt(run, size), 0, c);
      assert Insert(NewBlockAt(run, size), 0, c) == Block(run, NewMajorPages(size), [c]);
      AppendValid(layout, Block(run, NewMajorPages(size), [c]));
  }

  // ------------------------------------------------------------ shrinking in place

  /** The layout after realloc lowers the requested size of chunk j of block i. */
  function WithReq(layout: Layout, i: nat, j: nat, req: int): Layout
    requires i < |layout| && j < |layout[i].chunks|
  {
    layout[i := BlockWithReq(layout[i], j, req)]
  }

  function BlockWithReq(b: Block, j: nat, req: int): Block
    requires j < |b.chunks|
  {
    b.(chunks := b.chunks[j := b.chunks[j].(req := req)])
  }

  lemma WithReqTotals(b: Block, j: nat, req: int)
    requires j < |b.chunks|
    ensures BlockWithReq(b, j, req).Usage() == b.Usage()
    ensures PayloadBytes(BlockWithReq(b, j, req).chunks) == PayloadBytes(b.chunks)
  {
    var d := Delete(b, j);
    DeleteInserts(b, j);
    InsertTotals(d, j, b.chunks[j]);
    InsertTotals(d, j, b.chunks[j].(req := req));
    assert BlockWithReq(b, j, req).chunks == Insert(d, j, b.chunks[j].(req := req)).chunks;
  }

  lemma WithReqValid(b: Block, j: nat, req: int)
    requires ValidBlock(b) && j < |b.chunks| && 0 <= req <= b.chunks[j].req
    ensures ValidBlock(BlockWithReq(b, j, req))
  {
  }

  lemma WithReqLinked(minors: map<int, Minor>, b: Block, j: nat, req: int)
    requires ValidBlock(b) && ChunksLinked(minors, b) && j < |b.chunks|
    ensures b.chunks[j].addr in minors
    ensures ChunksLinked(minors[b.chunks[j].addr := minors[b.chunks[j].addr].(req := req)], BlockWithReq(b, j, req))
  {
    var d := BlockWithReq(b, j, req);
    assert MinorStored(minors, b, j);
    var m := minors[b.chunks[j].addr := minors[b.chunks[j].addr].(req := req)];
    forall k | 0 <= k < |d.chunks| ensures MinorStored(m, d, k) {
      assert MinorStored(minors, b, k);
      ChunkAddrsDistinct(b, k, j);
    }
  }

  lemma WithReqLive(layout: Layout, i: nat, j: nat, req: int, a: int)
    requires i < |layout| && j < |layout[i].chunks| && Live(layout, a)
    ensures Live(WithReq(layout, i, j, req), a)
  {
    var k :| 0 <= k < |layout| && HasChunkAt(layout[k], a);
    var l :| 0 <= l < |layout[k].chunks| && layout[k].chunks[l].addr == a;
    assert WithReq(layout, i, j, req)[k].chunks[l].addr == a;
    assert HasChunkAt(WithReq(layout, i, j, req)[k], a);
  }

  lemma WithReqRepresents(layout: Layout, majors: map<int, Major>, minors: map<int, Minor>, bytes: Bytes, i: nat, j: nat, req: int)
    requires Represents(layout, majors, minors, bytes)
    requires i < |layout| && j < |layout[i].chunks| && 0 <= req <= layout[i].chunks[j].req
    ensures layout[i].chunks[j].addr in minors
    ensures var a := layout[i].chunks[j].addr;
            Represents(WithReq(layout, i, j, req), majors, minors[a := minors[a].(req := req)], bytes)
  {
    var b, d := layout[i], BlockWithReq(layout[i], j, req);
    WithReqValid(b, j, req);
    ReplaceValid(layout, i, d);
    WithReqMajors(majors, layout, i, j, req);
    WithReqMinors(minors, layout, i, j, req);
    WithReqTagged(bytes, layout, i, j, req);
  }

  lemma WithReqMajors(majors: map<int, Major>, layout: Layout, i: nat, j: nat, req: int)
    requires ValidLayout(layout) && MajorsLinked(majors, layout) && i < |layout| && j < |layout[i].chunks|
    ensures MajorsLinked(majors, WithReq(layout, i, j, req))
  {
    var b, d := layout[i], BlockWithReq(layout[i], j, req);
    WithReqTotals(b, j, req);
    MajorsReplaced(majors, layout, i, d);
    assert MajorStored(majors, layout, i);
    assert MajorOf(layout[i := d], i) == MajorOf(layout, i);
    assert majors[b.addr := MajorOf(layout, i)] == majors;
  }

  lemma WithReqMinors(minors: map<int, Minor>, layout: Layout, i: nat, j: nat, req: int)
    requires ValidLayout(layout) && MinorsLinked(minors, layout) && MagicMeansLive(minors, layout)
    requires i < |layout| && j < |layout[i].chunks|
    ensures layout[i].chunks[j].addr in minors
    ensures var a := layout[i].chunks[j].addr; var m := minors[a := minors[a].(req := req)];
            MinorsLinked(m, WithReq(layout, i, j, req)) && MagicMeansLive(m, WithReq(layout, i, j, req))
  {
    var b := layout[i];
    var a := b.chunks[j].addr;
    WithReqLinked(minors, b, j, req);
    assert ValidBlock(b) && ValidChunk(b, b.chunks[j]);
    hide ValidLayout, ValidBlock, BlockWithReq;
    var m := minors[a := minors[a].(req := req)];
    OtherBlocksLinked(minors, m, layout, i, BlockWithReq(b, j, req));
    forall x | x in m && m[x].magic == MAGIC ensures Live(WithReq(layout, i, j, req), x) {
      assert x in minors && minors[x].magic == MAGIC;
      WithReqLive(layout, i, j, req, x);
    }
  }

  lemma WithReqTagged(bytes: Bytes, layout: Layout, i: nat, j: nat, req: int)
    requires Tagged(bytes, layout) && i < |layout| && j < |layout[i].chunks|
    ensures Tagged(bytes, WithReq(layout, i, j, req))
  {
  }

  lemma WithReqImage(layout: Layout, root: int, bestBet: int, allocatedBytes: int, inuseBytes: int,
                     majors: map<int, Major>, minors: map<int, Minor>, bytes: Bytes,
                     i: nat, j: nat, req: int, bytes': Bytes)
    requires Image(layout, root, bestBet, allocatedBytes, inuseBytes, majors, minors, bytes)
    requires i < |layout| && j < |layout[i].chunks| && 0 <= req <= layout[i].chunks[j].req
    requires SamePayloads(bytes, bytes', layout)
    ensures layout[i].chunks[j].addr in minors
    ensures var a := layout[i].chunks[j].addr;
            Image(WithReq(layout, i, j, req), root, bestBet, allocatedBytes, inuseBytes,
                  majors, minors[a := minors[a].(req := req)], bytes')
  {
    TagsFollowPayloads(bytes, bytes', layout);
    WithReqRepresents(layout, majors, minors, bytes', i, j, req);
    WithReqTotals(layout[i], j, req);
    TotalsReplace(layout, i, BlockWithReq(layout[i], j, req));
    if bestBet != NULL { ListedAfterReplace(layout, i, BlockWithReq(layout[i], j, req), bestBet); }
  }

  // ------------------------------------------------------------- free as a function

  /** The layout free leaves, whatever pointer it is given. */
  ghost function Freed(layout: Layout, bytes: Bytes, ptr: int): Layout {
    if LeadsToLive(layout, bytes, ptr) then
      var (i, j) := IndexOf(layout, Unalign(bytes, ptr) - HEADER_SIZE);
      Release(layout, i, j)
    else layout
  }

  /** The pointer, once unaligned, sits right behind a live chunk's header. */
  ghost predicate LeadsToLive(layout: Layout, bytes: Bytes, ptr: int) {
    ptr != NULL && Live(layout, Unalign(bytes, ptr) - HEADER_SIZE)
  }

  /** How free takes a pointer; a forged one spells the magic number where no live chunk starts. */
  datatype Freeing = NoPointer | Released | Rejected | Forged

  ghost function FreeingOf(layout: Layout, bytes: Bytes, ptr: int): Freeing {
    if ptr == NULL then NoPointer
    else if LeadsToLive(layout, bytes, ptr) then Released
    else if MagicAt(bytes, Unalign(bytes, ptr) - HEADER_SIZE) == MAGIC then Forged
    else Rejected
  }

  /** The bytes of the magic number stored sixteen bytes below a pointer make free take it for a chunk's. */
  lemma ForgedPointer(layout: Layout, bytes: Bytes, q: int)
    requires q != NULL && !Live(layout, q - HEADER_SIZE)
    requires ByteAt(bytes, q - 16) == 0xde && ByteAt(bytes, q - 15) == 0xc0 && ByteAt(bytes, q - 14) == 0x01 && ByteAt(bytes, q - 13) == 0xc0
    ensures FreeingOf(layout, bytes, q) == Forged
  {
  }

  lemma PtrPositive(layout: Layout, i: nat, j: nat)
    requires ValidLayout(layout) && i < |layout| && j < |layout[i].chunks|
    ensures 0 < layout[i].chunks[j].addr
  {
    assert ValidChunk(layout[i], layout[i].chunks[j]);
  }

  lemma InsideNotLive(layout: Layout, i: nat, j: nat, a: int)
    requires ValidLayout(layout) && i < |layout| && j < |layout[i].chunks|
    requires layout[i].chunks[j].addr < a < layout[i].chunks[j].End()
    ensures !Live(layout, a)
  {
    forall k, l | 0 <= k < |layout| && 0 <= l < |layout[k].chunks| ensures layout[k].chunks[l].addr != a {
      if (k, l) != (i, j) {
        PayloadsApart(layout, i, j, k, l);
        PtrInside(layout, k, l);
      }
    }
  }

  /** A caller that stores the magic number at the start of its own object and frees 16 bytes past it is taken for one. */
  lemma ForgedInObject(layout: Layout, bytes: Bytes, i: nat, j: nat)
    requires ValidLayout(layout) && i < |layout| && j < |layout[i].chunks| && layout[i].chunks[j].req >= 4
    ensures var c := layout[i].chunks[j];
            var p := c.Ptr();
            && c.Owns(p) && c.Owns(p + 1) && c.Owns(p + 2) && c.Owns(p + 3)
            && FreeingOf(layout, bytes[p := 0xde][p + 1 := 0xc0][p + 2 := 0x01][p + 3 := 0xc0], p + 16) == Forged
  {
    hide ValidLayout, Live, AlignPointer, LeadsToLive, Unalign, MagicAt;
    var c := layout[i].chunks[j];
    PtrInside(layout, i, j);
    var p := c.Ptr();
    PtrPositive(layout, i, j);
    InsideNotLive(layout, i, j, p + 16 - HEADER_SIZE);
    ForgedPointer(layout, bytes[p := 0xde][p + 1 := 0xc0][p + 2 := 0x01][p + 3 := 0xc0], p + 16);
  }

  /** A pointer that unaligns to chunk j of block i, whether or not it is the one malloc gave out. */
  lemma FreedFrom(layout: Layout, bytes: Bytes, ptr: int, i: nat, j: nat)
    requires ValidLayout(layout) && i < |layout| && j < |layout[i].chunks| && ptr != NULL
    requires Unalign(bytes, ptr) == layout[i].chunks[j].Payload()
    ensures LeadsToLive(layout, bytes, ptr) && ChunkOf(layout, bytes, ptr) == layout[i].chunks[j]
    ensures Freed(layout, bytes, ptr) == Release(layout, i, j) && IndexOf(layout, layout[i].chunks[j].addr) == (i, j)
  {
    hide ValidLayout, Release, Live, IndexOf, AlignPointer, Unalign;
    IndexUnique(layout, i, j);
  }

  lemma FreedAt(layout: Layout, bytes: Bytes, i: nat, j: nat)
    requires ValidLayout(layout) && Tagged(bytes, layout) && i < |layout| && j < |layout[i].chunks|
    ensures LeadsToLive(layout, bytes, layout[i].chunks[j].Ptr())
    ensures Freed(layout, bytes, layout[i].chunks[j].Ptr()) == Release(layout, i, j)
  {
    hide ValidLayout, Tagged, Release, Live, IndexOf, AlignPointer, Unalign;
    UnalignRecovers(layout, bytes, i, j);
    IndexUnique(layout, i, j);
    PointerSafe(layout, i, j, i, j);
  }

  /** Releasing a chunk leaves nothing live at its address. */
  lemma ReleasedNotLive(layout: Layout, i: nat, j: nat)
    requires ValidLayout(layout) && i < |layout| && j < |layout[i].chunks|
    ensures !Live(Release(layout, i, j), layout[i].chunks[j].addr)
  {
  }

  lemma PtrInside(layout: Layout, i: nat, j: nat)
    requires ValidLayout(layout) && i < |layout| && j < |layout[i].chunks|
    ensures var c := layout[i].chunks[j]; c.Payload() < c.Ptr() && c.Ptr() + c.req <= c.End() && 0 <= c.req
  {
  }

  /** The chunk malloc places was not there before. */
  lemma PlacedIsNew(layout: Layout, start: nat, place: Place, run: int, req: nat, d: Chunk)
    requires ValidLayout(layout) && IsFirstFit(layout, start, req + ALIGNMENT + ALIGN_INFO + HEADER_SIZE, place)
    requires place.NewBlock? ==> FreshRun(layout, run, NewMajorPages(req + ALIGNMENT + ALIGN_INFO))
    requires IsChunk(layout, d)
    ensures d != PlacedChunk(layout, place, run, req + ALIGNMENT + ALIGN_INFO, req)
  {
    var (k, l) := IndexFor(layout, d);
    var size := req + ALIGNMENT + ALIGN_INFO;
    var c := PlacedChunk(layout, place, run, size, req);
    assert ValidBlock(layout[k]) && ValidChunk(layout[k], d);
    match place
    case InGap(i, j) =>
      GapSeparates(layout[i], j, c);
      if k < i { assert Apart(layout[k], layout[i]); }
      if i < k { assert Apart(layout[i], layout[k]); }
    case NewBlock =>
      assert Apart(layout[k], Block(run, NewMajorPages(size), []));
  }

  ghost function IndexFor(layout: Layout, d: Chunk): (p: (nat, nat))
    requires IsChunk(layout, d)
    ensures p.0 < |layout| && p.1 < |layout[p.0].chunks| && layout[p.0].chunks[p.1] == d
  {
    var i :| 0 <= i < |layout| && BlockHas(layout[i], d);
    var j :| 0 <= j < |layout[i].chunks| && layout[i].chunks[j] == d;
    (i, j)
  }

  /** l is mid without c. */
  ghost predicate Without(mid: Layout, c: Chunk, l: Layout) {
    && Live(mid, c.addr)
    && var (i, j) := IndexOf(mid, c.addr);
       mid[i].chunks[j] == c && l == Release(mid, i, j)
  }

  lemma WithoutKeeps(mid: Layout, c: Chunk, l: Layout, d: Chunk, before: Bytes, after: Bytes)
    requires ValidLayout(mid) && Without(mid, c, l) && IsChunk(mid, d) && d != c && SamePayloads(before, after, l)
    ensures SamePayload(before, after, d)
  {
    var (i, j) := IndexOf(mid, c.addr);
    ReleasedChunks(mid, i, j, d);
    ReleaseValid(mid, i, j);
    PayloadOf(before, after, l, d);
  }

  /** malloc, a copy into the new chunk and the release of the old one leave every other payload as it was. */
  lemma MoveKeepsOthers(before: Layout, start: nat, place: Place, run: int, req: nat, mid: Layout, after: Layout, c: Chunk, d: Chunk,
                        b0: Bytes, b1: Bytes, b2: Bytes, b3: Bytes)
    requires ValidLayout(before) && ValidLayout(mid)
    requires IsFirstFit(before, start, req + ALIGNMENT + ALIGN_INFO + HEADER_SIZE, place)
    requires place.NewBlock? ==> FreshRun(before, run, NewMajorPages(req + ALIGNMENT + ALIGN_INFO))
    requires mid == Placed(before, place, run, req + ALIGNMENT + ALIGN_INFO, req) && Without(mid, c, after)
    requires SamePayloads(b0, b1, before) && SamePayloads(b2, b3, after)
    requires SameExcept(b1, b2, PlacedChunk(before, place, run, req + ALIGNMENT + ALIGN_INFO, req))
    requires IsChunk(before, d) && d != c
    ensures SamePayload(b0, b3, d)
  {
    hide ValidLayout, IsFirstFit, FreshRun, Placed, PlacedChunk, SamePayloads, Without, IsChunk, AlignPointer, NewMajorPages, Live, IndexOf;
    FitBounds(before, start, req + ALIGNMENT + ALIGN_INFO + HEADER_SIZE, place);
    var n := PlacedChunk(before, place, run, req + ALIGNMENT + ALIGN_INFO, req);
    PayloadOf(b0, b1, before, d);
    PlacedIsNew(before, start, place, run, req, d);
    PlacedChunks(before, place, run, req + ALIGNMENT + ALIGN_INFO, req, d);
    PlacedChunks(before, place, run, req + ALIGNMENT + ALIGN_INFO, req, n);
    WithoutKeeps(mid, c, after, d, b2, b3);
    var (i, j) := IndexFor(mid, n);
    var (k, l) := IndexFor(mid, d);
    PayloadsApart(mid, i, j, k, l);
    PtrInside(mid, i, j);
  }

  lemma FitBounds(layout: Layout, start: nat, need: int, place: Place)
    requires IsFirstFit(layout, start, need, place)
    ensures place.InGap? ==> place.i < |layout| && place.j <= |layout[place.i].chunks|
  {
  }

  /** The facts realloc needs once malloc has placed the new chunk n beside the old chunk c. */
  lemma MoveIndices(before: Layout, start: nat, place: Place, run: int, req: nat, c: Chunk) returns (i: nat, j: nat, k: nat, l: nat)
    requires ValidLayout(before) && IsChunk(before, c)
    requires IsFirstFit(before, start, req + ALIGNMENT + ALIGN_INFO + HEADER_SIZE, place)
    requires place.NewBlock? ==> FreshRun(before, run, NewMajorPages(req + ALIGNMENT + ALIGN_INFO))
    requires ValidLayout(Placed(before, place, run, req + ALIGNMENT + ALIGN_INFO, req))
    ensures var mid := Placed(before, place, run, req + ALIGNMENT + ALIGN_INFO, req);
            var n := PlacedChunk(before, place, run, req + ALIGNMENT + ALIGN_INFO, req);
            && i < |mid| && j < |mid[i].chunks| && mid[i].chunks[j] == c
            && k < |mid| && l < |mid[k].chunks| && mid[k].chunks[l] == n && n != c && n.req == req
            && (c.End() <= n.addr || n.End() <= c.addr)
            && c.Payload() < c.Ptr() && c.Ptr() + c.req <= c.End() && n.Payload() < n.Ptr() && n.Ptr() + n.req <= n.End()
            && Live(mid, c.addr) && IndexOf(mid, c.addr) == (i, j) && IsChunk(mid, n)
  {
    hide ValidLayout, Placed, IsChunk, AlignPointer, NewMajorPages, Live, IndexOf, FreshRun;
    var size := req + ALIGNMENT + ALIGN_INFO;
    var mid := Placed(before, place, run, size, req);
    var n := PlacedChunk(before, place, run, size, req);
    PlacedIsNew(before, start, place, run, req, c);
    PlacedChunks(before, place, run, size, req, c);
    PlacedChunks(before, place, run, size, req, n);
    i, j := ChunkIndex(mid, c);
    k, l := ChunkIndex(mid, n);
    PayloadsApart(mid, i, j, k, l);
    PtrInside(mid, i, j);
    PtrInside(mid, k, l);
  }

  lemma CopyStaysInside(before: Bytes, after: Bytes, n: Chunk, src: int, count: nat)
    requires IsCopy(before, after, n.Ptr(), src, count) && count <= n.req
    ensures SameExcept(before, after, n)
  {
  }

  /** count bytes at `to` are the bytes that were at `from`. */
  ghost predicate Carried(before: Bytes, after: Bytes, from: int, to: int, count: int) {
    forall a | to <= a < to + count :: ByteAt(after, a) == ByteAt(before, from + (a - to))
  }

  /** The copied bytes are still in the new chunk after the old one is released. */
  lemma CopyArrived(c: Chunk, p: int, n: Chunk, b0: Bytes, b1: Bytes, b2: Bytes, b3: Bytes)
    requires SamePayload(b0, b1, c) && IsCopy(b1, b2, n.Ptr(), p, c.req) && SamePayload(b2, b3, n)
    requires c.Payload() <= p && p + c.req <= c.End() && n.Payload() < n.Ptr() && n.Ptr() + n.req <= n.End()
    requires c.req <= n.req
    ensures Carried(b0, b3, p, n.Ptr(), c.req)
  {
  }

  lemma HeaderInside(layout: Layout, i: nat, j: nat)
    requires ValidLayout(layout) && i < |layout| && j < |layout[i].chunks|
    ensures layout[i].addr <= layout[i].chunks[j].addr && layout[i].chunks[j].addr + HEADER_SIZE <= layout[i].End()
  {
    assert ValidBlock(layout[i]) && ValidChunk(layout[i], layout[i].chunks[j]);
  }

  /** A copy into another chunk does not touch the byte UNALIGN looks at. */
  lemma CopyUnalign(b1: Bytes, b2: Bytes, n: Chunk, c: Chunk, p: int, count: nat)
    requires IsCopy(b1, b2, n.Ptr(), p, count) && n.Payload() < n.Ptr() && n.Ptr() + count <= n.End()
    requires (c.End() <= n.addr || n.End() <= c.addr) && c.Payload() <= p && p - ALIGN_INFO < c.End()
    ensures Unalign(b2, p) == Unalign(b1, p)
  {
  }

  lemma NotFreedUnless(layout: Layout, bytes: Bytes, ptr: int)
    ensures FreeingOf(layout, bytes, ptr) != Released ==> Freed(layout, bytes, ptr) == layout
  {
  }

  lemma NotFreed(layout: Layout, bytes: Bytes, ptr: int)
    requires !LeadsToLive(layout, bytes, ptr)
    ensures Freed(layout, bytes, ptr) == layout
  {
  }

  /** A pointer that unaligns to a payload lies at most 31 bytes into it. */
  lemma NearPayload(layout: Layout, bytes: Bytes, p: int, i: nat, j: nat)
    requires ValidLayout(layout) && i < |layout| && j < |layout[i].chunks| && Unalign(bytes, p) == layout[i].chunks[j].Payload()
    ensures var c := layout[i].chunks[j]; 0 < c.Payload() <= p < c.Payload() + ALIGNMENT + ALIGN_INFO && p + c.req <= c.End()
  {
    assert ValidBlock(layout[i]) && ValidChunk(layout[i], layout[i].chunks[j]);
  }

  lemma HeaderTail(m: Minor, m': Minor, k: nat)
    requires m.magic == m'.magic && m.size == m'.size && m.req == m'.req && MAGIC_FIELD <= k < HEADER_SIZE
    ensures MinorBytes(m)[k] == MinorBytes(m')[k]
  {
    hide LittleEndian;
  }

  /** The byte UNALIGN looks at is in the chunk's header or payload, so it survives another placement. */
  lemma SameUnalign(b0: Bytes, b1: Bytes, c: Chunk, m: Minor, m': Minor, p: int)
    requires InMemory(b0, c.addr, m) && InMemory(b1, c.addr, m') && m.magic == m'.magic && m.size == m'.size && m.req == m'.req
    requires SamePayload(b0, b1, c) && c.Payload() <= p && p - ALIGN_INFO < c.End()
    ensures Unalign(b1, p) == Unalign(b0, p)
  {
    hide MinorBytes, InMemory;
    var at := p - ALIGN_INFO;
    assert ByteAt(b1, at) == ByteAt(b0, at) by {
      if at < c.Payload() {
        HeaderByte(b0, c.addr, m, at - c.addr);
        HeaderByte(b1, c.addr, m', at - c.addr);
        HeaderTail(m, m', at - c.addr);
      }
    }
  }

  lemma HeaderByte(bytes: Bytes, a: int, m: Minor, k: nat)
    requires InMemory(bytes, a, m) && k < HEADER_SIZE
    ensures ByteAt(bytes, a + k) == MinorBytes(m)[k]
  {
  }

  /** The live chunk a pointer leads to. */
  ghost function ChunkOf(layout: Layout, bytes: Bytes, ptr: int): Chunk
    requires LeadsToLive(layout, bytes, ptr)
  {
    var (i, j) := IndexOf(layout, Unalign(bytes, ptr) - HEADER_SIZE);
    layout[i].chunks[j]
  }
}
