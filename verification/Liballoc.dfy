/**
 The kernel heap: liballoc's globals, the headers it relinks in place, and its
 malloc, free and realloc.  The page source is the parameter `run`: the address
 liballoc_alloc_pages answers with if it is asked during the call, NULL for failure.
 */
module Liballoc {
  import opened Common
  import opened HeapLayout
  import opened HeapLinks
  import opened HeapBets
  import opened HeapObjects

  class Heap {
    var memRoot: int
    var bestBet: int
    var allocatedBytes: int
    var inuseBytes: int
    var warningCount: int
    var errorCount: int
    var possibleOverruns: int
    var majors: map<int, Major>
    var minors: map<int, Minor>
    var bytes: Bytes
    ghost var layout: Layout

    /** The headers, roots and counters describe the layout. */
    ghost predicate Consistent()
      reads this
    {
      && Image(layout, memRoot, bestBet, allocatedBytes, inuseBytes, majors, minors, bytes)
      && MinorsInMemory(minors, bytes) && MajorsInMemory(majors, bytes, layout)
    }

    /** The heap between calls: consistent, and every listed major holds a chunk. */
    ghost predicate Valid()
      reads this
    {
      Consistent() && NoEmptyBlock(layout)
    }

    constructor ()
      ensures Valid() && layout == [] && Shows(layout, bytes, map[])
    {
      memRoot, bestBet, allocatedBytes, inuseBytes := NULL, NULL, 0, 0;
      warningCount, errorCount, possibleOverruns := 0, 0, 0;
      majors, minors, bytes := map[], map[], map[];
      layout := [];
    }

    // ------------------------------------------------------------ header stores

    /** `l` is a layout whose headers the operation stores to: the one before it or the one after it. */
    method StoreMajor(a: int, m: Major, ghost orig: Bytes, ghost l: Layout)
      requires ClearRange(layout, a, a + HEADER_SIZE) && SamePayloads(orig, bytes, layout)
      requires Marked(majors, minors, bytes, l) && Listed(l, a)
      modifies this`majors, this`bytes
      ensures majors == old(majors)[a := m]
      ensures SamePayloads(orig, bytes, layout) && Marked(majors, minors, bytes, l) && SameBut(old(bytes), bytes, a, a + HEADER_SIZE)
    {
      HeaderKeepsPayloads(bytes, layout, a, MajorBytes(m));
      SamePayloadsTrans(orig, bytes, Stored(bytes, a, MajorBytes(m)), layout);
      MajorStoreMarks(majors, minors, bytes, l, a, m);
      majors := majors[a := m];
      bytes := Stored(bytes, a, MajorBytes(m));
    }

    method StoreMinor(a: int, m: Minor, ghost orig: Bytes, ghost l: Layout)
      requires ClearRange(layout, a, a + HEADER_SIZE) && SamePayloads(orig, bytes, layout)
      requires Marked(majors, minors, bytes, l) && Live(l, a)
      modifies this`minors, this`bytes
      ensures minors == old(minors)[a := m] && InMemory(bytes, a, m)
      ensures SamePayloads(orig, bytes, layout) && Marked(majors, minors, bytes, l) && SameBut(old(bytes), bytes, a, a + HEADER_SIZE)
    {
      HeaderKeepsPayloads(bytes, layout, a, MinorBytes(m));
      SamePayloadsTrans(orig, bytes, Stored(bytes, a, MinorBytes(m)), layout);
      MinorStoreMarks(majors, minors, bytes, l, a, m);
      minors := minors[a := m];
      bytes := Stored(bytes, a, MinorBytes(m));
    }

    /** The ALIGN macro: round up past the tag and record the distance moved; the payload is that of chunk j of block i of l. */
    method Align(base: int, ghost orig: Bytes, ghost l: Layout, ghost i: nat, ghost j: nat) returns (p: int)
      requires ClearRange(layout, AlignPointer(base) - ALIGN_INFO, AlignPointer(base) - ALIGN_INFO + 1)
      requires SamePayloads(orig, bytes, layout)
      requires Marked(majors, minors, bytes, l) && i < |l| && j < |l[i].chunks| && base == l[i].chunks[j].Payload()
      modifies this`bytes
      ensures p == AlignPointer(base)
      ensures ByteAt(bytes, p - ALIGN_INFO) == p - base
      ensures SamePayloads(orig, bytes, layout) && Marked(majors, minors, bytes, l)
    {
      p := base + ALIGN_INFO;
      var diff := p % ALIGNMENT;
      if diff != 0 {
        diff := ALIGNMENT - diff;
        p := p + diff;
      }
      ghost var after := bytes[p - ALIGN_INFO := diff + ALIGN_INFO];
      StoreKeepsPayloads(bytes, layout, p - ALIGN_INFO, diff + ALIGN_INFO);
      SamePayloadsTrans(orig, bytes, after, layout);
      PtrInside(l, i, j);
      PayloadMarks(majors, minors, bytes, after, l, i, j);
      bytes := bytes[p - ALIGN_INFO := diff + ALIGN_INFO];
    }

    // ---------------------------------------------------------------- placement

    /**
     The writes every placing case ends with: usage, the in-use total and the
     aligned pointer.  `majors0`, `minors0` and `bytes0` are the image before the case.
     */
    method FinishPlacement(maj: int, c: Chunk, ghost i: nat, ghost j: nat,
                           ghost majors0: map<int, Major>, ghost minors0: map<int, Minor>, ghost bytes0: Bytes)
      returns (p: int)
      requires Image(layout, memRoot, bestBet, allocatedBytes, inuseBytes, majors0, minors0, bytes0)
      requires i < |layout| && maj == layout[i].addr && Holds(layout[i], j, c)
      requires maj in majors0 && majors == majors0[maj := majors0[maj].(first := if j == 0 then c.addr else majors0[maj].first)]
      requires MinorsLinked(minors0, layout) && minors == LinkIn(minors0, layout[i], j, c)
      requires SamePayloads(bytes0, bytes, layout) && Marked(majors0, minors0, bytes0, layout)
      requires Marked(majors, minors, bytes, layout[i := Insert(layout[i], j, c)])
      modifies this`majors, this`bytes, this`inuseBytes, this`layout
      ensures Consistent()
      ensures layout == old(layout)[i := Insert(old(layout)[i], j, c)]
      ensures p == c.Ptr()
      ensures SamePayloads(bytes0, bytes, old(layout))
    {
      hide ValidLayout, MinorsLinked, MagicMeansLive, Tagged, SamePayloads, ClearRange, Listed, Allocated, InUse;
      hide LinkIn, Insert, ByteAt, MinorsInMemory, MajorsInMemory, Live;
      ghost var l := layout[i := Insert(layout[i], j, c)];
      PlacingMarks(layout, majors0, minors0, bytes0, i, j, c);
      MajorHeaderClear(layout, i);
      StoreMajor(maj, majors[maj].(usage := majors[maj].usage + c.size + HEADER_SIZE), bytes0, l);
      inuseBytes := inuseBytes + c.size;
      GapClear(layout, i, j, c, c.Tag(), c.Tag() + 1);
      p := Align(c.addr + HEADER_SIZE, bytes0, l, i, j);
      assert MajorStored(majors0, layout, i);
      assert majors == majors0[maj := MajorWith(MajorOf(layout, i), j, c)];
      PlacedImage(layout, memRoot, bestBet, allocatedBytes, old(inuseBytes), majors0, minors0, bytes0, i, j, c, bytes);
      layout := layout[i := Insert(layout[i], j, c)];
    }

    /** CASE 2: the block is empty. */
    method PlaceInEmpty(maj: int, size: nat, req: nat, ghost i: nat) returns (p: int)
      requires Consistent() && i < |layout| && maj == layout[i].addr && layout[i].chunks == []
      requires Holds(layout[i], 0, Chunk(maj + HEADER_SIZE, size, req))
      modifies this`majors, this`minors, this`bytes, this`inuseBytes, this`layout
      ensures Consistent()
      ensures layout == old(layout)[i := Insert(old(layout)[i], 0, Chunk(maj + HEADER_SIZE, size, req))]
      ensures p == Chunk(maj + HEADER_SIZE, size, req).Ptr()
      ensures SamePayloads(old(bytes), bytes, old(layout))
    {
      hide ValidLayout, MinorsLinked, MagicMeansLive, Tagged, SamePayloads, ClearRange, Listed, Allocated, InUse;
      hide Insert, Footprint, MinorsInMemory, MajorsInMemory, InMemory, Live;
      var min := maj + HEADER_SIZE;
      ghost var c := Chunk(min, size, req);
      NoChange(bytes, layout);
      ghost var l := layout[i := Insert(layout[i], 0, c)];
      PlacingMarks(layout, majors, minors, bytes, i, 0, c);
      MajorHeaderClear(layout, i);
      assert MajorStored(majors, layout, i);
      StoreMajor(maj, majors[maj].(first := min), old(bytes), l);
      GapClear(layout, i, 0, c, min, min + HEADER_SIZE);
      StoreMinor(min, Minor(NULL, NULL, maj, MAGIC, size, req), old(bytes), l);
      p := FinishPlacement(maj, Chunk(min, size, req), i, 0, old(majors), old(minors), old(bytes));
    }

    /** CASE 3: room in front of the first chunk. */
    method PlaceInFront(maj: int, size: nat, req: nat, ghost i: nat) returns (p: int)
      requires Consistent() && i < |layout| && maj == layout[i].addr && layout[i].chunks != []
      requires Holds(layout[i], 0, Chunk(maj + HEADER_SIZE, size, req))
      modifies this`majors, this`minors, this`bytes, this`inuseBytes, this`layout
      ensures Consistent()
      ensures layout == old(layout)[i := Insert(old(layout)[i], 0, Chunk(maj + HEADER_SIZE, size, req))]
      ensures p == Chunk(maj + HEADER_SIZE, size, req).Ptr()
      ensures SamePayloads(old(bytes), bytes, old(layout))
    {
      hide ValidLayout, MagicMeansLive, Tagged, SamePayloads, ClearRange, Listed, Allocated, InUse;
      hide Insert, Footprint, MinorsInMemory, MajorsInMemory, InMemory, Live;
      assert MajorStored(majors, layout, i) && MinorStored(minors, layout[i], 0);
      var first := majors[maj].first;
      var min := maj + HEADER_SIZE;
      ghost var c := Chunk(min, size, req);
      NoChange(bytes, layout);
      ghost var l := layout[i := Insert(layout[i], 0, c)];
      PlacingMarks(layout, majors, minors, bytes, i, 0, c);
      MinorHeaderClear(layout, i, 0);
      StoreMinor(first, minors[first].(prev := min), old(bytes), l);
      GapClear(layout, i, 0, c, min, min + HEADER_SIZE);
      StoreMinor(min, Minor(NULL, first, maj, MAGIC, size, req), old(bytes), l);
      MajorHeaderClear(layout, i);
      StoreMajor(maj, majors[maj].(first := min), old(bytes), l);
      p := FinishPlacement(maj, Chunk(min, size, req), i, 0, old(majors), old(minors), old(bytes));
    }

    /** CASE 4.1: room between the last chunk and the end of the block. */
    method PlaceAtEnd(maj: int, min: int, size: nat, req: nat, ghost i: nat) returns (p: int)
      requires Consistent() && i < |layout| && maj == layout[i].addr && layout[i].chunks != []
      requires min == layout[i].chunks[|layout[i].chunks| - 1].addr
      requires Holds(layout[i], |layout[i].chunks|, Chunk(layout[i].chunks[|layout[i].chunks| - 1].End(), size, req))
      modifies this`majors, this`minors, this`bytes, this`inuseBytes, this`layout
      ensures Consistent()
      ensures var b := old(layout)[i]; var n := |b.chunks|; var c := Chunk(b.chunks[n - 1].End(), size, req);
              layout == old(layout)[i := Insert(b, n, c)] && p == c.Ptr()
      ensures SamePayloads(old(bytes), bytes, old(layout))
    {
      hide ValidLayout, MagicMeansLive, Tagged, SamePayloads, ClearRange, Listed, Allocated, InUse;
      hide Insert, Footprint, MinorsInMemory, MajorsInMemory, InMemory, Live;
      ghost var n := |layout[i].chunks|;
      assert MajorStored(majors, layout, i) && MinorStored(minors, layout[i], n - 1);
      var next := min + HEADER_SIZE + minors[min].size;
      ghost var c := Chunk(next, size, req);
      NoChange(bytes, layout);
      ghost var l := layout[i := Insert(layout[i], n, c)];
      PlacingMarks(layout, majors, minors, bytes, i, n, c);
      MinorHeaderClear(layout, i, n - 1);
      StoreMinor(min, minors[min].(next := next), old(bytes), l);
      GapClear(layout, i, n, c, next, next + HEADER_SIZE);
      StoreMinor(next, Minor(min, NULL, maj, MAGIC, size, req), old(bytes), l);
      p := FinishPlacement(maj, Chunk(next, size, req), i, n, old(majors), old(minors), old(bytes));
    }

    /** CASE 4.2: room between two chunks. */
    method PlaceBetween(maj: int, min: int, size: nat, req: nat, ghost i: nat, ghost j: nat) returns (p: int)
      requires Consistent() && i < |layout| && maj == layout[i].addr && 0 < j < |layout[i].chunks|
      requires min == layout[i].chunks[j - 1].addr
      requires Holds(layout[i], j, Chunk(layout[i].chunks[j - 1].End(), size, req))
      modifies this`majors, this`minors, this`bytes, this`inuseBytes, this`layout
      ensures Consistent()
      ensures var b := old(layout)[i]; var c := Chunk(b.chunks[j - 1].End(), size, req);
              layout == old(layout)[i := Insert(b, j, c)] && p == c.Ptr()
      ensures SamePayloads(old(bytes), bytes, old(layout))
    {
      hide ValidLayout, MagicMeansLive, Tagged, SamePayloads, ClearRange, Listed, Allocated, InUse;
      hide Insert, Footprint, MinorsInMemory, MajorsInMemory, InMemory, Live;
      ghost var b := layout[i];
      assert MajorStored(majors, layout, i) && MinorStored(minors, b, j - 1) && MinorStored(minors, b, j);
      var newMin := min + HEADER_SIZE + minors[min].size;
      var next := minors[min].next;
      ghost var c := Chunk(newMin, size, req);
      NoChange(bytes, layout);
      ghost var l := layout[i := Insert(layout[i], j, c)];
      PlacingMarks(layout, majors, minors, bytes, i, j, c);
      GapClear(layout, i, j, c, newMin, newMin + HEADER_SIZE);
      StoreMinor(newMin, Minor(min, next, maj, MAGIC, size, req), old(bytes), l);
      MinorHeaderClear(layout, i, j);
      StoreMinor(next, minors[next].(prev := newMin), old(bytes), l);
      MinorHeaderClear(layout, i, j - 1);
      StoreMinor(min, minors[min].(next := newMin), old(bytes), l);
      AddrsAround(layout, i, j, c);
      p := FinishPlacement(maj, Chunk(newMin, size, req), i, j, old(majors), old(minors), old(bytes));
    }

    /** CASE 4: walk the block's chunks for the first one with enough room after it. */
    method PlaceAfterMinor(maj: int, size: nat, req: nat, ghost i: nat, ghost orig: Bytes) returns (p: int, ghost j: nat)
      requires Consistent() && i < |layout| && maj == layout[i].addr && size == req + ALIGNMENT + ALIGN_INFO
      requires layout[i].chunks != [] && Gap(layout[i], 0) < size + HEADER_SIZE
      requires SamePayloads(orig, bytes, layout)
      modifies this`majors, this`minors, this`bytes, this`inuseBytes, this`layout
      ensures Consistent() && SamePayloads(orig, bytes, old(layout))
      ensures p == NULL ==> layout == old(layout) && !Fits(layout[i], size + HEADER_SIZE)
      ensures p != NULL ==> IsFirstGap(old(layout)[i], size + HEADER_SIZE, j)
      ensures p != NULL ==>
        var c := Chunk(GapStart(old(layout)[i], j), size, req);
        p == c.Ptr() && layout == old(layout)[i := Insert(old(layout)[i], j, c)]
    {
      hide Image, SamePayloads, Insert, Fits, AlignPointer;
      ghost var b := layout[i];
      ghost var need := size + HEADER_SIZE;
      MinorRead(layout, memRoot, bestBet, allocatedBytes, inuseBytes, majors, minors, bytes, i, 0);
      var diff;
      var min := majors[maj].first;
      ghost var k := 0;
      while min != NULL
        invariant k <= |b.chunks| && (k < |b.chunks| ==> b.chunks[k].addr != NULL) && min == if k == |b.chunks| then NULL else b.chunks[k].addr
        invariant GapsBelow(b, k, need)
        invariant unchanged(this)
        decreases |b.chunks| - k
      {
        MinorRead(layout, memRoot, bestBet, allocatedBytes, inuseBytes, majors, minors, bytes, i, k);
        if minors[min].next == NULL {
          diff := maj + majors[maj].size - min - HEADER_SIZE - minors[min].size;
          if diff >= size + HEADER_SIZE {
            p := PlaceAtEnd(maj, min, size, req, i);
            SamePayloadsTrans(orig, old(bytes), bytes, old(layout));
            return p, k + 1;
          }
        }
        if minors[min].next != NULL {
          diff := minors[min].next - min - HEADER_SIZE - minors[min].size;
          if diff >= size + HEADER_SIZE {
            p := PlaceBetween(maj, min, size, req, i, k + 1);
            SamePayloadsTrans(orig, old(bytes), bytes, old(layout));
            return p, k + 1;
          }
        }
        min := minors[min].next;
        k := k + 1;
      }
      NoGapFits(b, need);
      p, j := NULL, 0;
    }

    /** CASES 2 to 4: the first gap of one block that holds the request. */
    method PlaceInBlock(maj: int, size: nat, req: nat, ghost i: nat, ghost orig: Bytes) returns (p: int, ghost j: nat)
      requires Consistent() && i < |layout| && maj == layout[i].addr && size == req + ALIGNMENT + ALIGN_INFO
      requires layout[i].chunks == [] ==> Gap(layout[i], 0) >= size + HEADER_SIZE
      requires SamePayloads(orig, bytes, layout)
      modifies this`majors, this`minors, this`bytes, this`inuseBytes, this`layout
      ensures Consistent() && SamePayloads(orig, bytes, old(layout))
      ensures p == NULL ==> layout == old(layout) && !Fits(layout[i], size + HEADER_SIZE)
      ensures p != NULL ==> IsFirstGap(old(layout)[i], size + HEADER_SIZE, j)
      ensures p != NULL ==>
        var c := Chunk(GapStart(old(layout)[i], j), size, req);
        p == c.Ptr() && layout == old(layout)[i := Insert(old(layout)[i], j, c)]
    {
      hide MagicMeansLive, Tagged, SamePayloads, Listed, Allocated, InUse;
      hide Insert, Footprint;
      ghost var b := layout[i];
      assert MajorStored(majors, layout, i) && ValidBlock(b);
      if majors[maj].first == NULL {
        p := PlaceInEmpty(maj, size, req, i);
        SamePayloadsTrans(orig, old(bytes), bytes, old(layout));
        return p, 0;
      }
      var diff := majors[maj].first - maj - HEADER_SIZE;
      if diff >= size + HEADER_SIZE {
        p := PlaceInFront(maj, size, req, i);
        SamePayloadsTrans(orig, old(bytes), bytes, old(layout));
        return p, 0;
      }
      p, j := PlaceAfterMinor(maj, size, req, i, orig);
    }

    // ------------------------------------------------------------- a new major

    method AllocateNewPage(size: nat, run: int, ghost orig: Bytes, ghost l: Layout) returns (maj: int)
      requires ClearRange(layout, run, run + HEADER_SIZE) || run == NULL
      requires SamePayloads(orig, bytes, layout) && Marked(majors, minors, bytes, l) && (run == NULL || Listed(l, run))
      modifies this`majors, this`bytes, this`allocatedBytes, this`warningCount
      ensures maj == run && SamePayloads(orig, bytes, layout) && Marked(majors, minors, bytes, l)
      ensures run == NULL ==>
        majors == old(majors) && bytes == old(bytes) && allocatedBytes == old(allocatedBytes) && warningCount == old(warningCount) + 1
      ensures run != NULL ==>
        && majors == old(majors)[run := Major(NULL, NULL, NewMajorPages(size), NewMajorSize(size), HEADER_SIZE, NULL)]
        && allocatedBytes == old(allocatedBytes) + NewMajorSize(size) && warningCount == old(warningCount)
    {
      var st := (size % WORD32 + HEADER_SIZE) % WORD32;
      st := (st + HEADER_SIZE) % WORD32;
      if st % PAGE_SIZE == 0 {
        st := st / PAGE_SIZE;
      } else {
        st := st / PAGE_SIZE + 1;
      }
      if st < MIN_PAGES {
        st := MIN_PAGES;
      }
      assert st == NewMajorPages(size);
      hide NewMajorPages;
      maj := run;
      if maj == NULL {
        warningCount := warningCount + 1;
        return;
      }
      hide Marked, Listed;
      StoreMajor(maj, Major(NULL, NULL, st, st * PAGE_SIZE % WORD32, HEADER_SIZE, NULL), orig, l);
      allocatedBytes := allocatedBytes + majors[maj].size;
    }

    /** The first major of an empty heap. */
    method StartList(size: nat, run: int)
      requires Consistent() && layout == []
      requires size + 2 * HEADER_SIZE <= MAX_FOOTPRINT && (run == NULL || FreshRun(layout, run, NewMajorPages(size)))
      modifies this
      ensures Consistent() && memRoot == run
      ensures layout == if run == NULL then [] else [NewBlockAt(run, size)]
      ensures SamePayloads(old(bytes), bytes, old(layout))
      ensures bestBet == old(bestBet) && errorCount == old(errorCount) && possibleOverruns == old(possibleOverruns)
    {
      hide Image, ValidLayout, MinorsLinked, MagicMeansLive, Tagged, SamePayloads, MinorsInMemory, MajorsInMemory, ValidBlock;
      hide NewMajorPages, NewMajorSize;
      ImageParts(layout, memRoot, bestBet, allocatedBytes, inuseBytes, majors, minors, bytes);
      NoChange(bytes, layout);
      ghost var e := NewBlockAt(run, size);
      if run != NULL {
        NewBlockHolds(run, size);
        AppendingMarks([], majors, minors, bytes, e);
      }
      memRoot := AllocateNewPage(size, run, bytes, if run == NULL then [] else [] + [e]);
      if run != NULL {
        AppendedImage([], bestBet, old(allocatedBytes), inuseBytes, old(majors), minors, old(bytes), e, bytes);
        assert [] + [e] == [e];
        layout := [e];
      }
    }

    /** Link a new major after the last one. */
    method ExtendList(maj: int, size: nat, run: int, ghost orig: Bytes) returns (next: int)
      requires Consistent() && layout != [] && maj == layout[|layout| - 1].addr
      requires size + 2 * HEADER_SIZE <= MAX_FOOTPRINT && (run == NULL || FreshRun(layout, run, NewMajorPages(size)))
      requires SamePayloads(orig, bytes, layout)
      modifies this
      ensures Consistent() && next == run
      ensures layout == if run == NULL then old(layout) else old(layout) + [NewBlockAt(run, size)]
      ensures SamePayloads(orig, bytes, layout)
      ensures bestBet == old(bestBet) && errorCount == old(errorCount) && possibleOverruns == old(possibleOverruns)
    {
      hide ValidLayout, MagicMeansLive, Tagged, SamePayloads, ClearRange, Listed, Allocated, InUse, Footprint, MinorsLinked;
      hide NewMajorPages, NewMajorSize, ValidBlock, MinorsInMemory, MajorsInMemory, Image, SameBut, FreshRun, NewBlockAt, LinkLast, MajorOf;
      ghost var e := NewBlockAt(run, size);
      ghost var n := |layout|;
      ImageParts(layout, memRoot, bestBet, allocatedBytes, inuseBytes, majors, minors, bytes);
      NoChange(bytes, layout);
      if run != NULL { NewRunReady(layout, majors, minors, bytes, run, size, e); }
      ghost var l := if run == NULL then layout else layout + [e];
      ListedIn(layout, n - 1);
      assert MajorStored(majors, layout, n - 1);
      LastHasNoNext(majors, layout);
      next := AllocateNewPage(size, run, bytes, l);
      MajorHeaderClear(layout, n - 1);
      StoreMajor(maj, majors[maj].(next := next), old(bytes), l);
      SamePayloadsTrans(orig, old(bytes), bytes, layout);
      if next == NULL {
        assert majors == old(majors);
        SameImage(layout, memRoot, bestBet, allocatedBytes, inuseBytes, majors, minors, old(bytes), bytes);
        return;
      }
      StoreMajor(next, majors[next].(prev := maj), old(bytes), l);
      LinkedLast(old(majors), layout, e);
      AppendedImage(layout, bestBet, old(allocatedBytes), inuseBytes, old(majors), minors, old(bytes), e, bytes);
      SamePayloadsTrans(orig, old(bytes), bytes, layout);
      EmptyAddsNothing(orig, bytes, layout, e);
      layout := layout + [e];
    }

    // -------------------------------------------------------------------- malloc

    /** Place in block i if one of its gaps fits; `grown` says block i was just linked for this request. */
    method TryBlock(maj: int, size: nat, req: nat, run: int, ghost layout0: Layout, ghost bytes0: Bytes,
                    ghost start: nat, ghost bet: bool, ghost startedBet: bool, ghost i: nat, ghost grown: bool)
      returns (p: int, ghost place: Place)
      requires size == req + ALIGNMENT + ALIGN_INFO && size + 2 * HEADER_SIZE <= MAX_FOOTPRINT && NoEmptyBlock(layout0)
      requires Consistent() && i < |layout| && maj == layout[i].addr && SamePayloads(bytes0, bytes, layout)
      requires !grown ==> layout == layout0 && Ruled(layout0, size + HEADER_SIZE, start, bet, startedBet, i)
      requires grown ==> layout == layout0 + [NewBlockAt(run, size)] && i == |layout0| && 0 < run
      requires grown ==> IsFirstFit(layout0, start, size + HEADER_SIZE, NewBlock)
      modifies this`majors, this`minors, this`bytes, this`inuseBytes, this`layout
      ensures Consistent()
      ensures p == NULL ==> !grown && layout == layout0 && !Fits(layout[i], size + HEADER_SIZE) && SamePayloads(bytes0, bytes, layout)
      ensures p == NULL ==> place == NewBlock
      ensures p != NULL ==>
        && Valid() && SamePayloads(bytes0, bytes, layout0)
        && (if grown then place == NewBlock && run != NULL else place.InGap? && place.i == i && Fits(layout0[i], size + HEADER_SIZE))
        && IsFirstFit(layout0, start, size + HEADER_SIZE, place)
        && p == PlacedChunk(layout0, place, run, size, req).Ptr()
        && layout == Placed(layout0, place, run, size, req)
    {
      hide Image, Ruled, Fits, Insert, GapStart, Gap, Footprint, ValidBlock;
      hide NewMajorPages, NewMajorSize, SamePayloads, NoEmptyBlock, AlignPointer;
      if grown { NewBlockHolds(run, size); } else { NotEmpty(layout0, i); }
      ghost var j;
      place := NewBlock;
      p, j := PlaceInBlock(maj, size, req, i, bytes0);
      if p != NULL {
        if grown {
          PrefixPayloads(bytes0, bytes, layout0, NewBlockAt(run, size));
          FilledNewBlock(layout0, run, size, req, j);
        } else {
          RuledFit(layout0, size + HEADER_SIZE, start, bet, startedBet, i, j);
          place := InGap(i, j);
        }
        PlacedNoEmpty(layout0, place, run, size, req);
      }
    }

    /** What the search reads at block i. */
    lemma ListHeader(i: nat, need: int)
      requires Consistent() && i < |layout|
      ensures NULL != memRoot == layout[0].addr && layout[i].addr != NULL && layout[i].addr in majors
      ensures majors[layout[i].addr].size - majors[layout[i].addr].usage == layout[i].Free()
      ensures majors[layout[i].addr].next == if i + 1 == |layout| then NULL else layout[i + 1].addr
      ensures i + 1 < |layout| ==> layout[i + 1].addr != NULL
      ensures layout[i].Free() < need ==> !Fits(layout[i], need)
    {
      HeaderOf(layout, memRoot, bestBet, allocatedBytes, inuseBytes, majors, minors, bytes, i, need);
    }

    /** The free bytes of the block under the search, which becomes the best bet if it has the most. */
    method NoteBet(maj: int, bestSize0: int, ghost i: nat) returns (diff: int, bestSize: int)
      requires Consistent() && i < |layout| && maj == layout[i].addr
      modifies this`bestBet
      ensures Consistent() && diff == layout[i].Free() && (bestBet, bestSize) == BetNext((old(bestBet), bestSize0), layout[i])
    {
      HeaderOf(layout, memRoot, bestBet, allocatedBytes, inuseBytes, majors, minors, bytes, i, 0);
      diff, bestSize := majors[maj].size - majors[maj].usage, bestSize0;
      if bestSize < diff {
        BetImage(layout, memRoot, bestBet, allocatedBytes, inuseBytes, majors, minors, bytes, maj);
        bestBet := maj;
        bestSize := diff;
      }
    }

    /** The search loop, entered at block i; `layout0` and `bytes0` are the heap before malloc. */
    method Search(maj0: int, startedBet0: bool, bestSize0: int, size: nat, req: nat, run: int,
                  ghost layout0: Layout, ghost bytes0: Bytes, ghost start: nat, ghost bet: bool, ghost i0: nat)
      returns (p: int, ghost place: Place)
      requires size == req + ALIGNMENT + ALIGN_INFO && size + 2 * HEADER_SIZE <= MAX_FOOTPRINT
      requires NoEmptyBlock(layout0) && (run == NULL || FreshRun(layout0, run, NewMajorPages(size)))
      requires Consistent() && i0 < |layout| && NULL != maj0 == layout[i0].addr && SamePayloads(bytes0, bytes, layout)
      requires if layout0 == [] then run != NULL && layout == [NewBlockAt(run, size)] && !startedBet0
                                     && IsFirstFit([], start, size + HEADER_SIZE, NewBlock)
               else layout == layout0 && Ruled(layout0, size + HEADER_SIZE, start, bet, startedBet0, i0)
      requires i0 == start <= |layout0| && bet == startedBet0 && (!bet ==> start == 0)
      modifies this
      ensures Valid() && SamePayloads(bytes0, bytes, layout0)
      ensures IsFirstFit(layout0, start, size + HEADER_SIZE, place)
      ensures p == NULL <==> place.NewBlock? && run == NULL
      ensures p == NULL ==> layout == layout0
      ensures p != NULL ==>
        && p == PlacedChunk(layout0, place, run, size, req).Ptr()
        && layout == Placed(layout0, place, run, size, req)
      ensures errorCount == old(errorCount) && possibleOverruns == old(possibleOverruns)
      ensures place.InGap? ==> place.i < |layout0|
      ensures bestBet == BetOver(TriedBlocks(layout0, start, bet, size + HEADER_SIZE, place, if run == NULL then [] else [NewBlockAt(run, size)]),
                                 (old(bestBet), bestSize0)).0
    {
      hide BetKnown, BetNext, BetOver, TriedBlocks, Block.Free;
      hide Consistent, Ruled, Fits, IsFirstFit, Placed, PlacedChunk, Gap, Footprint, ValidBlock;
      hide NewMajorPages, NewMajorSize, SamePayloads, NoEmptyBlock, AlignPointer;
      ghost var need := size + HEADER_SIZE;
      ghost var e := NewBlockAt(run, size);
      ghost var grown := layout0 == [];
      ghost var i: nat := i0;
      var maj, startedBet, bestSize := maj0, startedBet0, bestSize0;
      place := NewBlock;
      ghost var bet0 := (bestBet, bestSize0);
      ghost var added := if run == NULL then [] else [e];
      KnownStart(layout0, layout, start, bet, bet0);
      while maj != NULL
        invariant Consistent() && i < |layout| && NULL != maj == layout[i].addr
        invariant SamePayloads(bytes0, bytes, layout)
        invariant errorCount == old(errorCount) && possibleOverruns == old(possibleOverruns)
        invariant !grown ==> layout == layout0 && Ruled(layout0, need, start, bet, startedBet, i)
        invariant grown ==> layout == layout0 + [e] && i == |layout0| && run != NULL && IsFirstFit(layout0, start, need, NewBlock)
        invariant place == NewBlock && (startedBet ==> bet) && (grown ==> !startedBet && !LastSkipped(layout0, need))
        invariant BetKnown(layout0, layout, start, bet, startedBet, i, bet0, (bestBet, bestSize))
        decreases if startedBet then 2 else if !grown then 1 else 0, |layout| - i
      {
        ListHeader(i, need);
        if grown { NewBlockHolds(run, size); }
        var diff;
        KnownNext(layout0, layout, start, bet, startedBet, i, bet0, (bestBet, bestSize));
        diff, bestSize := NoteBet(maj, bestSize, i);
        ghost var bet1, skipped := (bestBet, bestSize), diff < need;
        // CASE 1
        if diff < size + HEADER_SIZE {
          RuledOut(layout0, need, start, bet, startedBet, i);
          if majors[maj].next != NULL {
            maj := majors[maj].next;
            i := i + 1;
            continue;
          }
          if startedBet {
            KnownAgain(layout0, start, bet, bet0, bet1);
            maj, startedBet := memRoot, false;
            i := 0;
            continue;
          }
          KnownSkipped(layout0, start, bet, need, added, bet0, bet1);
          var next := ExtendList(maj, size, run, bytes0);
          if next == NULL {
            break;
          }
          maj := next;
          i, grown := i + 1, true;
        }
        p, place := TryBlock(maj, size, req, run, layout0, bytes0, start, bet, startedBet, i, grown);
        if p != NULL {
          if !grown {
            KnownInGap(layout0, start, bet, startedBet, need, i, place.j, added, bet0, bet1);
          } else if !skipped {
            KnownAdded(layout0, e, start, bet, need, bet0, bet1);
          }
          return;
        }
        RuledOut(layout0, need, start, bet, startedBet, i);
        ListHeader(i, need);
        // CASE 5
        if majors[maj].next == NULL {
          if startedBet {
            KnownAgain(layout0, start, bet, bet0, bet1);
            maj, startedBet := memRoot, false;
            i := 0;
            continue;
          }
          if run == NULL { KnownSkipped(layout0, start, bet, need, added, bet0, bet1); }
          var next := ExtendList(maj, size, run, bytes0);
          if next == NULL {
            break;
          }
          KnownGrown(layout0, e, start, bet, bet0, bet1);
          grown := true;
          ListHeader(i, need);
        }
        maj := majors[maj].next;
        i := i + 1;
      }
      p := NULL;
    }

    /**
     malloc: a first fit from the best bet round to the block before it, with a new
     major exactly when no gap of any listed major holds the request.
     */
    method Malloc(req: nat, run: int) returns (p: int, ghost start: nat, ghost place: Place)
      requires Valid()
      requires req + ALIGNMENT + ALIGN_INFO + 2 * HEADER_SIZE <= MAX_FOOTPRINT
      requires run == NULL || FreshRun(layout, run, NewMajorPages(req + ALIGNMENT + ALIGN_INFO))
      modifies this
      ensures Valid() && SamePayloads(old(bytes), bytes, old(layout))
      ensures IsSearchStart(old(layout), old(bestBet), req + ALIGNMENT + ALIGN_INFO + HEADER_SIZE, start)
      ensures IsFirstFit(old(layout), start, req + ALIGNMENT + ALIGN_INFO + HEADER_SIZE, place)
      ensures p == NULL <==> place.NewBlock? && run == NULL
      ensures p == NULL ==> layout == old(layout)
      ensures p != NULL ==>
        && p == PlacedChunk(old(layout), place, run, req + ALIGNMENT + ALIGN_INFO, req).Ptr()
        && layout == Placed(old(layout), place, run, req + ALIGNMENT + ALIGN_INFO, req)
      ensures errorCount == old(errorCount) && possibleOverruns == old(possibleOverruns)
      ensures start <= |old(layout)| && (place.InGap? ==> place.i < |old(layout)|)
      ensures bestBet == BetAfterMalloc(old(layout), old(bestBet), start, req + ALIGNMENT + ALIGN_INFO + HEADER_SIZE, place,
                                        if run == NULL then [] else [NewBlockAt(run, req + ALIGNMENT + ALIGN_INFO)])
    {
      hide BetOver, TriedBlocks, FreeAt, Block.Free;
      hide Image, Ruled, Fits, IsFirstFit, IsSearchStart, Footprint, ValidBlock;
      hide NewMajorPages, NewMajorSize, FreshRun, SamePayloads, AlignPointer;
      var size := req + ALIGNMENT + ALIGN_INFO;
      ghost var need := size + HEADER_SIZE;
      NoChange(bytes, layout);
      ghost var k := BetAt(layout, memRoot, bestBet, allocatedBytes, inuseBytes, majors, minors, bytes, need);
      if bestBet != NULL { BetFree(layout, memRoot, bestBet, allocatedBytes, inuseBytes, majors, minors, bytes, k); }
      EmptyImage(layout, memRoot, bestBet, allocatedBytes, inuseBytes, majors, minors, bytes);
      if memRoot == NULL {
        StartList(size, run);
        if memRoot == NULL {
          NothingTried(bestBet, need);
          return NULL, 0, NewBlock;
        }
        EmptyAddsNothing(old(bytes), bytes, [], NewBlockAt(run, size));
        assert [] + [NewBlockAt(run, size)] == layout;
      }
      var maj, startedBet, bestSize := memRoot, false, 0;
      start := 0;
      if bestBet != NULL {
        bestSize := majors[bestBet].size - majors[bestBet].usage;
        if bestSize > size + HEADER_SIZE {
          maj, startedBet := bestBet, true;
          start := k;
        }
      }
      HeaderOf(layout, memRoot, bestBet, allocatedBytes, inuseBytes, majors, minors, bytes, start, need);
      RuledStart(old(layout), need, start, startedBet);
      p, place := Search(maj, startedBet, bestSize, size, req, run, old(layout), old(bytes), start, startedBet, start);
    }

    // ---------------------------------------------------------------------- free

    /** Mark chunk j of block i dead and take it out of the list of its block's chunks. */
    method RelinkMinors(min: int, ghost i: nat, ghost j: nat, ghost orig: Bytes)
      requires Marked(majors, minors, bytes, layout) && MinorsLinked(minors, layout) && SamePayloads(orig, bytes, layout)
      requires i < |layout| && j < |layout[i].chunks| && min == layout[i].chunks[j].addr && min in minors
      requires MinorsAround(minors, layout[i], j)
      modifies this`minors, this`bytes
      ensures minors == LinkOut(old(minors), layout[i], j)
      ensures SamePayloads(orig, bytes, layout) && Marked(majors, minors, bytes, layout)
      ensures InMemory(bytes, min, old(minors)[min].(magic := DEAD))
    {
      hide ValidLayout, MinorsLinked, MagicMeansLive, SamePayloads, ClearRange, MinorsInMemory, MajorsInMemory, InMemory, Live, SameBut;
      ghost var b := layout[i];
      LiveIn(layout, i, j);
      if 0 < j { LiveIn(layout, i, j - 1); }
      if j + 1 < |b.chunks| { LiveIn(layout, i, j + 1); }
      ChunkHeaders(layout, i, j);
      var m := minors[min];
      ghost var dead := m.(magic := DEAD);
      StoreMinor(min, m.(magic := DEAD), orig, layout);
      ghost var b1 := bytes;
      if m.next != NULL {
        StoreMinor(m.next, minors[m.next].(prev := m.prev), orig, layout);
        LiveAddrsApart(layout, m.next, min);
        StillInMemory(b1, bytes, m.next, m.next + HEADER_SIZE, min, dead);
      }
      ghost var b2 := bytes;
      if m.prev != NULL {
        StoreMinor(m.prev, minors[m.prev].(next := m.next), orig, layout);
        LiveAddrsApart(layout, m.prev, min);
        StillInMemory(b2, bytes, m.prev, m.prev + HEADER_SIZE, min, dead);
      }
    }

    /** Unlink chunk j of block i from its neighbours and its block, and mark it dead. */
    method Unlink(min: int, ghost i: nat, ghost j: nat)
      requires Consistent() && i < |layout| && j < |layout[i].chunks| && min == layout[i].chunks[j].addr
      modifies this`majors, this`minors, this`bytes, this`inuseBytes, this`layout
      ensures Consistent()
      ensures layout == old(layout)[i := Delete(old(layout)[i], j)]
      ensures SamePayloads(old(bytes), bytes, old(layout)) && MagicAt(bytes, min) == DEAD
    {
      hide ValidLayout, MagicMeansLive, Tagged, SamePayloads, ClearRange, Listed, Allocated, InUse, Footprint, Delete;
      hide MinorsInMemory, MajorsInMemory, InMemory, Live, SameBut, MagicAt, LinkOut, MinorsLinked;
      ghost var b := layout[i];
      NoChange(bytes, layout);
      ListedIn(layout, i);
      LiveIn(layout, i, j);
      AroundStored(minors, layout, i, j);
      ChunkHeaders(layout, i, j);
      assert MajorStored(majors, layout, i);
      var m := minors[min];
      var maj := m.block;
      inuseBytes := inuseBytes - m.size;
      MajorHeaderClear(layout, i);
      StoreMajor(maj, majors[maj].(usage := majors[maj].usage - (m.size + HEADER_SIZE)), old(bytes), layout);
      RelinkMinors(min, i, j, old(bytes));
      ghost var b3 := bytes;
      if m.prev == NULL {
        StoreMajor(maj, majors[maj].(first := m.next), old(bytes), layout);
        BlockAddrApart(layout, maj, min);
        StillInMemory(b3, bytes, maj, maj + HEADER_SIZE, min, m.(magic := DEAD));
      }
      MagicRead(bytes, min, m.(magic := DEAD));
      assert majors == old(majors)[maj := MajorWithout(MajorOf(layout, i), b, j)];
      DeletedImage(layout, memRoot, bestBet, allocatedBytes, old(inuseBytes), old(majors), old(minors), old(bytes), i, j, bytes);
      DeletingMarks(majors, bytes, layout, i, j);
      layout := layout[i := Delete(b, j)];
    }

    /** Take block i out of the list of majors. */
    method RelinkMajors(maj: int, ghost i: nat)
      requires Marked(majors, minors, bytes, layout) && MajorsLinked(majors, layout) && i < |layout| && maj == layout[i].addr
      modifies this`majors, this`bytes
      ensures MajorsAround(old(majors), layout, i) && majors == LinkPast(old(majors), layout, i) && maj !in majors
      ensures SamePayloads(old(bytes), bytes, layout) && Marked(majors, minors, bytes, layout)
      ensures SameIn(old(bytes), bytes, layout[i].addr, layout[i].End())
    {
      hide ValidLayout, MagicMeansLive, SamePayloads, ClearRange, Listed, Footprint, MinorsInMemory, MajorsInMemory, SameBut, ByteAt;
      NoChange(bytes, layout);
      BlockHeaders(layout);
      assert MajorStored(majors, layout, i);
      if 0 < i {
        assert MajorStored(majors, layout, i - 1);
        ListedIn(layout, i - 1);
      }
      if i + 1 < |layout| {
        assert MajorStored(majors, layout, i + 1);
        ListedIn(layout, i + 1);
      }
      var m := majors[maj];
      if m.prev != NULL {
        StoreMajor(m.prev, majors[m.prev].(next := m.next), old(bytes), layout);
        BlocksElsewhere(layout, i, i - 1);
        SameInStep(old(bytes), old(bytes), bytes, layout[i].addr, layout[i].End(), m.prev);
      }
      ghost var b1 := bytes;
      if m.next != NULL {
        StoreMajor(m.next, majors[m.next].(prev := m.prev), old(bytes), layout);
        BlocksElsewhere(layout, i, i + 1);
        SameInStep(old(bytes), b1, bytes, layout[i].addr, layout[i].End(), m.next);
      }
      FewerMarks(majors, minors, bytes, layout, maj);
      majors := majors - {maj};
    }

    /** Return an emptied block's pages: unlink it from the list of majors. */
    method DropMajor(maj: int, ghost i: nat)
      requires Consistent() && i < |layout| && maj == layout[i].addr && layout[i].chunks == []
      modifies this`majors, this`bytes, this`allocatedBytes, this`memRoot, this`bestBet, this`layout
      ensures Consistent()
      ensures layout == old(layout)[..i] + old(layout)[i + 1..]
      ensures SamePayloads(old(bytes), bytes, old(layout))
      ensures SameIn(old(bytes), bytes, old(layout)[i].addr, old(layout)[i].End())
      ensures bestBet == if old(bestBet) == maj then NULL else old(bestBet)
    {
      hide ValidLayout, MinorsLinked, MagicMeansLive, Tagged, SamePayloads, Listed, Allocated, InUse, Footprint, MinorsInMemory, MajorsInMemory;
      hide SameIn, LinkPast;
      assert MajorStored(majors, layout, i);
      var m := majors[maj];
      if memRoot == maj {
        memRoot := m.next;
      }
      if bestBet == maj {
        bestBet := NULL;
      }
      allocatedBytes := allocatedBytes - m.size;
      RelinkMajors(maj, i);
      DroppedImage(layout, old(memRoot), old(bestBet), old(allocatedBytes), inuseBytes, old(majors), minors, old(bytes), i, bytes);
      DroppingMarks(majors, bytes, layout, i);
      layout := layout[..i] + layout[i + 1..];
    }

    /** What free and realloc count when a header does not carry the magic number. */
    method NoteBadMagic(magic: int)
      modifies this`errorCount, this`possibleOverruns
      ensures errorCount == old(errorCount) + 1
      ensures possibleOverruns == old(possibleOverruns) + if LooksOverrun(magic) then 1 else 0
    {
      errorCount := errorCount + 1;
      if LooksOverrun(magic) {
        possibleOverruns := possibleOverruns + 1;
      }
    }

    /**
     free, for any pointer.  One that leads to a live chunk releases exactly that chunk, and its
     block with it if the block is left empty.  Any other is counted and ignored, unless memory
     happens to spell the magic number where the header would be: what the code does with such a
     forged header is not modelled, and the heap is given as it is before that.
     */
    method Free(ptr: int) returns (o: Freeing)
      requires Valid()
      modifies this
      ensures o == FreeingOf(old(layout), old(bytes), ptr)
      ensures Valid() && layout == Freed(old(layout), old(bytes), ptr)
      ensures SamePayloads(old(bytes), bytes, old(layout)) && SamePayloads(old(bytes), bytes, layout)
      ensures !o.Released? ==> bytes == old(bytes)
      ensures o.Released? ==> MagicAt(bytes, Unalign(old(bytes), ptr) - HEADER_SIZE) == DEAD
      ensures errorCount == old(errorCount) + (if o.Rejected? then 1 else 0)
      ensures warningCount == old(warningCount) + (if o.NoPointer? then 1 else 0)
      ensures possibleOverruns == old(possibleOverruns) +
        if o.Rejected? && LooksOverrun(MagicAt(old(bytes), Unalign(old(bytes), ptr) - HEADER_SIZE)) then 1 else 0
      ensures bestBet == if o.Released? then BetAfterRelease(old(layout), Unalign(old(bytes), ptr) - HEADER_SIZE, old(bestBet)) else old(bestBet)
    {
      hide BetAfterFree;
      hide Image, SamePayloads, Live, IndexOf, Unalign, NoEmptyBlock, Footprint, MinorsInMemory, MajorsInMemory, MagicAt;
      NoChange(bytes, layout);
      if ptr == NULL {
        warningCount := warningCount + 1;
        return NoPointer;
      }
      var min := Unalign(bytes, ptr) - HEADER_SIZE;
      ImageParts(layout, memRoot, bestBet, allocatedBytes, inuseBytes, majors, minors, bytes);
      HeaderIffLive(layout, minors, min);
      if Live(layout, min) { LiveMagic(layout, minors, bytes, min); }
      if MagicAt(bytes, min) != MAGIC {
        NoteBadMagic(MagicAt(bytes, min));
        return Rejected;
      }
      if min !in minors || minors[min].magic != MAGIC {
        return Forged;
      }
      FreeLive(min);
      return Released;
    }

    /** The part of free after the magic check. */
    method FreeLive(min: int)
      requires Valid() && Live(layout, min)
      modifies this`majors, this`minors, this`bytes, this`inuseBytes, this`allocatedBytes, this`memRoot, this`bestBet, this`layout
      ensures Valid() && SamePayloads(old(bytes), bytes, layout) && SamePayloads(old(bytes), bytes, old(layout))
      ensures var (i, j) := IndexOf(old(layout), min);
              && layout == Release(old(layout), i, j)
              && bestBet == BetAfterFree(old(layout)[i := Delete(old(layout)[i], j)], i, old(bestBet))
      ensures MagicAt(bytes, min) == DEAD
    {
      hide BetAfterFree;
      hide Image, SamePayloads, Live, IndexOf, NoEmptyBlock, Footprint, MinorsInMemory, MajorsInMemory, MagicAt, SameIn;
      ghost var (i, j) := IndexOf(layout, min);
      ghost var mid := layout[i := Delete(layout[i], j)];
      ImageParts(layout, memRoot, bestBet, allocatedBytes, inuseBytes, majors, minors, bytes);
      HeaderIffLive(layout, minors, min);
      ReleaseNoEmpty(layout, i, j);
      HeaderInside(layout, i, j);
      var maj := minors[min].block;
      Unlink(min, i, j);
      ghost var bytes1 := bytes;
      SubPayloads(old(bytes), bytes, old(layout), i, j);
      Reclaim(maj, i);
      MagicSameIn(bytes1, bytes, old(layout)[i].addr, old(layout)[i].End(), min);
      ReleasePayloads(old(bytes), bytes1, bytes, old(layout), i, j);
      SamePayloadsTrans(old(bytes), bytes1, bytes, mid);
      if mid[i].chunks == [] {
        DropPayloads(old(bytes), bytes, mid, i);
      }
    }

    /** Clean up after the majors: drop the block if it is empty, else refresh the best bet. */
    method Reclaim(maj: int, ghost i: nat)
      requires Consistent() && i < |layout| && maj == layout[i].addr
      modifies this`majors, this`bytes, this`allocatedBytes, this`memRoot, this`bestBet, this`layout
      ensures Consistent() && SamePayloads(old(bytes), bytes, old(layout))
      ensures SameIn(old(bytes), bytes, old(layout)[i].addr, old(layout)[i].End())
      ensures old(layout)[i].chunks == [] ==> layout == old(layout)[..i] + old(layout)[i + 1..]
      ensures old(layout)[i].chunks != [] ==> layout == old(layout) && bytes == old(bytes)
      ensures bestBet == BetAfterFree(old(layout), i, old(bestBet))
    {
      hide FreeAt, Block.Free, Int32;
      hide Image, SamePayloads, Footprint, ValidLayout, MajorsLinked, MinorsInMemory, MajorsInMemory;
      HeaderOf(layout, memRoot, bestBet, allocatedBytes, inuseBytes, majors, minors, bytes, i, 0);
      NoChange(bytes, layout);
      if majors[maj].first == NULL {
        DropMajor(maj, i);
      } else if bestBet != NULL {
        ghost var k := BetAt(layout, memRoot, bestBet, allocatedBytes, inuseBytes, majors, minors, bytes, 0);
        BetFree(layout, memRoot, bestBet, allocatedBytes, inuseBytes, majors, minors, bytes, k);
        var bestSize := Int32(majors[bestBet].size - majors[bestBet].usage);
        var majSize := Int32(majors[maj].size - majors[maj].usage);
        if majSize > bestSize {
          BetImage(layout, memRoot, bestBet, allocatedBytes, inuseBytes, majors, minors, bytes, maj);
          bestBet := maj;
        }
      }
    }

    // ------------------------------------------------------- bytes of live chunks

    /** A caller stores a byte inside the range it asked for. */
    method UserStore(a: int, v: Byte, ghost i: nat, ghost j: nat)
      requires Valid() && i < |layout| && j < |layout[i].chunks| && layout[i].chunks[j].Owns(a)
      modifies this`bytes
      ensures Valid() && bytes == old(bytes)[a := v]
    {
      OwnedStore(layout, memRoot, bestBet, allocatedBytes, inuseBytes, majors, minors, bytes, i, j, bytes[a := v]);
      PtrInside(layout, i, j);
      PayloadMarks(majors, minors, bytes, bytes[a := v], layout, i, j);
      bytes := bytes[a := v];
    }

    /** liballoc_memcpy: whole 32-bit words, then the remaining bytes. */
    method Memcpy(dst: int, src: int, count: nat)
      requires dst + count <= src || src + count <= dst
      modifies this`bytes
      ensures IsCopy(old(bytes), bytes, dst, src, count)
    {
      hide ByteAt;
      var ldest, lsrc, n := dst, src, count;
      while n >= 4
        invariant 0 <= n <= count && ldest == dst + (count - n) && lsrc == src + (count - n)
        invariant IsCopy(old(bytes), bytes, dst, src, count - n)
      {
        CopyWord(old(bytes), bytes, dst, src, count - n, count);
        var b0, b1, b2, b3 := ByteAt(bytes, lsrc), ByteAt(bytes, lsrc + 1), ByteAt(bytes, lsrc + 2), ByteAt(bytes, lsrc + 3);
        bytes := bytes[ldest := b0][ldest + 1 := b1][ldest + 2 := b2][ldest + 3 := b3];
        ldest, lsrc, n := ldest + 4, lsrc + 4, n - 4;
      }
      while n > 0
        invariant 0 <= n <= count && ldest == dst + (count - n) && lsrc == src + (count - n)
        invariant IsCopy(old(bytes), bytes, dst, src, count - n)
      {
        CopyByte(old(bytes), bytes, dst, src, count - n, count, ByteAt(bytes, lsrc));
        bytes := bytes[ldest := ByteAt(bytes, lsrc)];
        ldest, lsrc, n := ldest + 1, lsrc + 1, n - 1;
      }
    }

    // ------------------------------------------------------------------- realloc

    /** Lower a live chunk's requested size in place. */
    method Shrink(min: int, size: nat, ghost i: nat, ghost j: nat)
      requires Valid() && i < |layout| && j < |layout[i].chunks| && min == layout[i].chunks[j].addr
      requires size <= layout[i].chunks[j].req
      modifies this`minors, this`bytes, this`layout
      ensures Valid() && layout == WithReq(old(layout), i, j, size)
      ensures SamePayloads(old(bytes), bytes, old(layout))
    {
      hide Image, SamePayloads, ClearRange, ValidLayout, ValidBlock, Footprint, MajorsLinked, MagicMeansLive, Tagged, MinorsInMemory, MajorsInMemory, InMemory, Live;
      NoChange(bytes, layout);
      ImageParts(layout, memRoot, bestBet, allocatedBytes, inuseBytes, majors, minors, bytes);
      MinorHeaderClear(layout, i, j);
      assert ChunksLinked(minors, layout[i]) && MinorStored(minors, layout[i], j);
      LiveIn(layout, i, j);
      StoreMinor(min, minors[min].(req := size), bytes, layout);
      WithReqImage(layout, memRoot, bestBet, allocatedBytes, inuseBytes, majors, old(minors), old(bytes), i, j, size, bytes);
      ShrinkingMarks(majors, bytes, layout, i, j, size);
      layout := WithReq(layout, i, j, size);
    }

    /** Move a live chunk to a larger one: malloc, copy, free.  NULL when malloc fails, before the copy. */
    method Grow(p: int, realSize: nat, size: nat, run: int, ghost i: nat, ghost j: nat)
      returns (r: int, ghost start: nat, ghost place: Place)
      requires Valid() && i < |layout| && j < |layout[i].chunks| && Unalign(bytes, p) == layout[i].chunks[j].Payload()
      requires realSize == layout[i].chunks[j].req < size && size + ALIGNMENT + ALIGN_INFO + 2 * HEADER_SIZE <= MAX_FOOTPRINT
      requires run == NULL || FreshRun(layout, run, NewMajorPages(size + ALIGNMENT + ALIGN_INFO))
      modifies this
      ensures Valid()
      ensures IsFirstFit(old(layout), start, size + ALIGNMENT + ALIGN_INFO + HEADER_SIZE, place)
      ensures r == NULL <==> place.NewBlock? && run == NULL
      ensures r == NULL ==> layout == old(layout) && SamePayloads(old(bytes), bytes, old(layout))
      ensures r != NULL ==>
        && r == PlacedChunk(old(layout), place, run, size + ALIGNMENT + ALIGN_INFO, size).Ptr()
        && Without(Placed(old(layout), place, run, size + ALIGNMENT + ALIGN_INFO, size), old(layout)[i].chunks[j], layout)
        && Carried(old(bytes), bytes, p, r, realSize)
        && forall d | IsChunk(old(layout), d) && d != old(layout)[i].chunks[j] :: SamePayload(old(bytes), bytes, d)
    {
      hide BetAfterMalloc, BetAfterRelease, NewBlockAt;
      hide Image, ValidLayout, IsFirstFit, FreshRun, Placed, PlacedChunk, SamePayloads, IsChunk, AlignPointer, NewMajorPages;
      hide Live, IndexOf, Release, Tagged, Freed, LeadsToLive, NoEmptyBlock, SamePayload, ByteAt, Unalign, MinorsInMemory, MajorsInMemory, ChunkOf;
      ghost var before, b0, c := layout, bytes, layout[i].chunks[j];
      ImageParts(layout, memRoot, bestBet, allocatedBytes, inuseBytes, majors, minors, bytes);
      ChunkAt(layout, i, j);
      NearPayload(layout, bytes, p, i, j);
      ghost var m0 := HeaderNow(i, j);
      r, start, place := Malloc(size, run);
      if r == NULL {
        return;
      }
      FitBounds(before, start, size + ALIGNMENT + ALIGN_INFO + HEADER_SIZE, place);
      ghost var mid, b1, n := layout, bytes, PlacedChunk(before, place, run, size + ALIGNMENT + ALIGN_INFO, size);
      ImageParts(mid, memRoot, bestBet, allocatedBytes, inuseBytes, majors, minors, bytes);
      ghost var ic, jc, inn, jn := MoveIndices(before, start, place, run, size, c);
      ghost var m1 := HeaderNow(ic, jc);
      PayloadOf(b0, b1, before, c);
      SameUnalign(b0, b1, c, m0, m1, p);
      Memcpy(r, p, realSize);
      ghost var b2 := bytes;
      CopyStaysInside(b1, b2, n, p, realSize);
      OwnedStore(mid, memRoot, bestBet, allocatedBytes, inuseBytes, majors, minors, b1, inn, jn, b2);
      CopyMarks(majors, minors, b1, b2, mid, inn, jn, p, realSize);
      ImageParts(mid, memRoot, bestBet, allocatedBytes, inuseBytes, majors, minors, b2);
      CopyUnalign(b1, b2, n, c, p, realSize);
      FreedFrom(mid, b2, p, ic, jc);
      var _ := Free(p);
      ghost var b3 := bytes;
      WithoutKeeps(mid, c, layout, n, b2, b3);
      CopyArrived(c, p, n, b0, b1, b2, b3);
      forall d | IsChunk(before, d) && d != c ensures SamePayload(b0, b3, d) {
        MoveKeepsOthers(before, start, place, run, size, mid, layout, c, d, b0, b1, b2, b3);
      }
    }

    /** The header of a live chunk, as memory holds it. */
    lemma HeaderNow(i: nat, j: nat) returns (m: Minor)
      requires Consistent() && i < |layout| && j < |layout[i].chunks|
      ensures m == MinorOf(layout[i], j) && InMemory(bytes, layout[i].chunks[j].addr, m)
    {
      hide ValidLayout, Tagged, MagicMeansLive, InMemory;
      assert ChunksLinked(minors, layout[i]) && MinorStored(minors, layout[i], j);
      m := MinorOf(layout[i], j);
    }

    /**
     realloc, for any pointer and whatever the page source does.  A null, stale, forged or live
     pointer, a zero size, a size that still fits and a larger size each have their own outcome;
     bytes up to the smaller of the old and the new request survive, and no other live byte
     changes.  A failing page source is harmless unless a larger chunk is needed and no gap holds
     it: then the copy goes to address 0, and the heap is given as it is before that.
     */
    method Realloc(p: int, size: nat, run: int) returns (o: Reallocating, ghost start: nat, ghost place: Place)
      requires Valid() && size + ALIGNMENT + ALIGN_INFO + 2 * HEADER_SIZE <= MAX_FOOTPRINT
      requires run == NULL || FreshRun(layout, run, NewMajorPages(size + ALIGNMENT + ALIGN_INFO))
      modifies this
      ensures Valid()
      ensures o.ForgedHeader? <==> FreeingOf(old(layout), old(bytes), p).Forged?
      ensures o.CopiesToNull? <==>
        && size > 0 && LeadsToLive(old(layout), old(bytes), p) && size > ChunkOf(old(layout), old(bytes), p).req
        && run == NULL && NothingFits(old(layout), size + ALIGNMENT + ALIGN_INFO + HEADER_SIZE)
      ensures o.ForgedHeader? || o.CopiesToNull? ==> layout == old(layout) && SamePayloads(old(bytes), bytes, old(layout))
      ensures o.Answer? && size == 0 ==>
        o.r == NULL && layout == Freed(old(layout), old(bytes), p) && SamePayloads(old(bytes), bytes, layout)
      ensures o.Answer? && size > 0 && p != NULL && !LeadsToLive(old(layout), old(bytes), p) ==>
        o.r == NULL && layout == old(layout) && bytes == old(bytes) && errorCount == old(errorCount) + 1
      ensures o.Answer? && size > 0 && p == NULL ==>
        && IsFirstFit(old(layout), start, size + ALIGNMENT + ALIGN_INFO + HEADER_SIZE, place)
        && SamePayloads(old(bytes), bytes, old(layout))
        && (o.r == NULL <==> place.NewBlock? && run == NULL)
        && if o.r == NULL then layout == old(layout)
           else && o.r == PlacedChunk(old(layout), place, run, size + ALIGNMENT + ALIGN_INFO, size).Ptr()
                && layout == Placed(old(layout), place, run, size + ALIGNMENT + ALIGN_INFO, size)
      ensures o.Answer? && size > 0 && LeadsToLive(old(layout), old(bytes), p) && size <= ChunkOf(old(layout), old(bytes), p).req ==>
        var (i, j) := IndexOf(old(layout), ChunkOf(old(layout), old(bytes), p).addr);
        o.r == p && layout == WithReq(old(layout), i, j, size) && SamePayloads(old(bytes), bytes, old(layout))
      ensures o.Answer? && size > 0 && LeadsToLive(old(layout), old(bytes), p) && size > ChunkOf(old(layout), old(bytes), p).req ==>
        var c := ChunkOf(old(layout), old(bytes), p);
        && IsFirstFit(old(layout), start, size + ALIGNMENT + ALIGN_INFO + HEADER_SIZE, place) && (place.NewBlock? ==> run != NULL)
        && o.r == PlacedChunk(old(layout), place, run, size + ALIGNMENT + ALIGN_INFO, size).Ptr()
        && Without(Placed(old(layout), place, run, size + ALIGNMENT + ALIGN_INFO, size), c, layout)
        && Carried(old(bytes), bytes, p, o.r, c.req)
        && (forall d | IsChunk(old(layout), d) && d != c :: SamePayload(old(bytes), bytes, d))
    {
      hide Image, ValidLayout, FreshRun, Placed, PlacedChunk, SamePayloads, IsChunk, AlignPointer, NewMajorPages, IsFirstFit, NothingFits;
      hide Live, IndexOf, Release, Tagged, Freed, NoEmptyBlock, SamePayload, ByteAt, Without, Carried, WithReq, Unalign;
      hide MinorsInMemory, MajorsInMemory, MagicAt;
      start, place := 0, NewBlock;
      NoChange(bytes, layout);
      if size == 0 {
        var freed := Free(p);
        NotFreedUnless(old(layout), old(bytes), p);
        return if freed.Forged? then ForgedHeader else Answer(NULL), start, place;
      }
      if p == NULL {
        var r;
        r, start, place := Malloc(size, run);
        return Answer(r), start, place;
      }
      var min := Unalign(bytes, p) - HEADER_SIZE;
      ImageParts(layout, memRoot, bestBet, allocatedBytes, inuseBytes, majors, minors, bytes);
      HeaderIffLive(layout, minors, min);
      if Live(layout, min) { LiveMagic(layout, minors, bytes, min); }
      if MagicAt(bytes, min) != MAGIC {
        NoteBadMagic(MagicAt(bytes, min));
        return Answer(NULL), start, place;
      }
      if min !in minors || minors[min].magic != MAGIC {
        return ForgedHeader, start, place;
      }
      ghost var (i, j) := IndexOf(layout, min);
      var realSize := minors[min].req;
      if realSize >= size {
        Shrink(min, size, i, j);
        return Answer(p), start, place;
      }
      PtrInside(layout, i, j);
      var r;
      r, start, place := Grow(p, realSize, size, run, i, j);
      NewBlockIff(old(layout), start, size + ALIGNMENT + ALIGN_INFO + HEADER_SIZE, place);
      return if r == NULL then CopiesToNull else Answer(r), start, place;
    }

    // ------------------------------------------------------- the heap as live objects

    method ServeMalloc(req: nat, run: int, ghost m: Objects) returns (r: int, ghost m': Objects)
      requires Valid() && Shows(layout, bytes, m) && Small(req) && PagesFor(layout, m, CallMalloc(req), run)
      modifies this
      ensures Valid() && Shows(layout, bytes, m') && ObjectStep(m, CallMalloc(req), r, m')
      ensures r == NULL <==> Refused(old(layout), CallMalloc(req), run)
    {
      hide Image, ValidLayout, IsFirstFit, FreshRun, Placed, PlacedChunk, SamePayloads, AlignPointer, NewMajorPages, Shows, Created;
      hide BetAfterMalloc, NothingFits;
      ghost var start, place;
      r, start, place := Malloc(req, run);
      NewBlockIff(old(layout), start, req + ALIGNMENT + ALIGN_INFO + HEADER_SIZE, place);
      m' := m;
      ImageParts(old(layout), old(memRoot), old(bestBet), old(allocatedBytes), old(inuseBytes), old(majors), old(minors), old(bytes));
      ImageParts(layout, memRoot, bestBet, allocatedBytes, inuseBytes, majors, minors, bytes);
      if r != NULL {
        m' := MallocShows(old(layout), old(bytes), m, start, place, run, req, layout, bytes);
      } else {
        SameShows(layout, old(bytes), bytes, m);
      }
    }

    method ServeFree(p: int, ghost m: Objects)
      requires Valid() && Shows(layout, bytes, m) && WellCalled(m, CallFree(p))
      modifies this
      ensures Valid() && Shows(layout, bytes, m - {p})
    {
      hide Image, ValidLayout, SamePayloads, AlignPointer, Shows, Freed, Release, LeadsToLive, Tagged, IsChunk, Contents, MinorsInMemory, MajorsInMemory, MagicAt, Unalign;
      ImageParts(layout, memRoot, bestBet, allocatedBytes, inuseBytes, majors, minors, bytes);
      ghost var i, j := 0, 0;
      if p == NULL {
        NullLeadsNowhere(layout, bytes);
        ShownSpaced(layout, bytes, m);
        assert m - {p} == m;
        var _ := Free(p);
        SameShows(layout, old(bytes), bytes, m);
        return;
      }
      ghost var c;
      c, i, j := PointerChunk(layout, bytes, m, p);
      ChunkOfAt(layout, bytes, i, j);
      var _ := Free(p);
      FreeShows(old(layout), old(bytes), m, i, j, layout, bytes);
    }

    /**
     Any call on the heap is one step on the table of live objects: a new object is at a
     pointer that was not live, resizing keeps the common prefix, and nothing else changes.
     */
    method Serve(call: Call, run: int, ghost m: Objects) returns (r: int, ghost m': Objects)
      requires Valid() && Shows(layout, bytes, m) && WellCalled(m, call) && PagesFor(layout, m, call, run)
      modifies this
      ensures Valid() && Shows(layout, bytes, m') && Spaced(m')
      ensures ObjectStep(m, call, r, m')
      ensures AsksNew(call) ==> (r == NULL <==> Refused(old(layout), call, run))
    {
      hide Refused;
      hide Image, ValidLayout, Shows, Spaced, FreshRun, NewMajorPages, AlignPointer, Contents, IsChunk, Created;
      r, m' := NULL, m;
      match call {
        case CallMalloc(req) =>
          r, m' := ServeMalloc(req, run, m);
        case CallFree(p) =>
          ServeFree(p, m);
          m' := m - {p};
        case CallRealloc(p, size) =>
          r, m' := ServeRealloc(p, size, run, m);
        case Write(p, k, v) =>
          ImageParts(layout, memRoot, bestBet, allocatedBytes, inuseBytes, majors, minors, bytes);
          ghost var c, i, j := PointerChunk(layout, bytes, m, p);
          WriteShows(layout, bytes, m, i, j, k, v);
          UserStore(p + k, v, i, j);
          m' := m[p := Put(m[p], k, v)];
      }
      ImageParts(layout, memRoot, bestBet, allocatedBytes, inuseBytes, majors, minors, bytes);
      ShownSpaced(layout, bytes, m');
    }

    method ServeRealloc(p: int, size: nat, run: int, ghost m: Objects) returns (r: int, ghost m': Objects)
      requires Valid() && Shows(layout, bytes, m) && WellCalled(m, CallRealloc(p, size)) && PagesFor(layout, m, CallRealloc(p, size), run)
      modifies this
      ensures Valid() && Shows(layout, bytes, m') && ObjectStep(m, CallRealloc(p, size), r, m')
      ensures AsksNew(CallRealloc(p, size)) ==> (r == NULL <==> Refused(old(layout), CallRealloc(p, size), run))
    {
      hide Image, ValidLayout, IsFirstFit, FreshRun, Placed, PlacedChunk, SamePayloads, AlignPointer, NewMajorPages, Shows, Created;
      hide Freed, Release, LeadsToLive, ChunkOf, Tagged, IsChunk, Contents, IndexOf, WithReq, Without, Carried, SamePayload, NothingFits;
      hide MinorsInMemory, MajorsInMemory, MagicAt, Unalign;
      ImageParts(layout, memRoot, bestBet, allocatedBytes, inuseBytes, majors, minors, bytes);
      ghost var start, place;
      var o;
      if p == NULL {
        NullLeadsNowhere(layout, bytes);
        o, start, place := Realloc(p, size, run);
        r := o.r;
        if size > 0 { NewBlockIff(old(layout), start, size + ALIGNMENT + ALIGN_INFO + HEADER_SIZE, place); }
        ImageParts(layout, memRoot, bestBet, allocatedBytes, inuseBytes, majors, minors, bytes);
        if size == 0 {
          ShownSpaced(old(layout), old(bytes), m);
          m' := m - {p};
          assert m' == m;
          SameShows(layout, old(bytes), bytes, m);
        } else if r == NULL {
          m' := m;
          SameShows(layout, old(bytes), bytes, m);
        } else {
          m' := MallocShows(old(layout), old(bytes), m, start, place, run, size, layout, bytes);
        }
        return;
      }
      ghost var c, i, j := PointerChunk(layout, bytes, m, p);
      ChunkOfAt(layout, bytes, i, j);
      o, start, place := Realloc(p, size, run);
      r := o.r;
      ImageParts(layout, memRoot, bestBet, allocatedBytes, inuseBytes, majors, minors, bytes);
      if size == 0 {
        FreeShows(old(layout), old(bytes), m, i, j, layout, bytes);
        m' := m - {p};
      } else if size <= c.req {
        ShrinkShows(old(layout), old(bytes), m, i, j, size, layout, bytes);
        m' := m[p := m[p][..size]];
      } else {
        m' := GrowShows(old(layout), old(bytes), m, c, start, place, run, size, layout, bytes);
      }
    }

    /**
     Every run of the heap is a run of live objects: for every client that passes live pointers
     only and every page source that keeps its promise, the calls lead through a sequence of
     tables that UntouchedObject and ByteSurvives speak about, and the heap shows the last one.
     With a page source that never fails every request for a new object is granted.
     */
    method Run(client: seq<int> -> Call, source: (seq<int>, map<int, Major>) -> int, count: nat)
      returns (calls: seq<Call>, rs: seq<int>, ghost ms: seq<Objects>)
      requires Valid() && Shows(layout, bytes, map[]) && Careful(client) && Promising(source, client)
      modifies this
      ensures Valid() && |calls| == count && Chosen(client, calls, rs)
      ensures IsRun(ms, calls, rs) && ms[0] == map[] && Shows(layout, bytes, ms[count]) && Spaced(ms[count])
      ensures (forall a, b :: source(a, b) != NULL) ==> forall n | 0 <= n < count && AsksNew(calls[n]) :: rs[n] != NULL
    {
      hide Image, Shows, Spaced, ObjectStep, WellCalled, PagesFor, RunStep, MinorsInMemory, MajorsInMemory;
      calls, rs, ms := [], [], [map[]];
      ImageParts(layout, memRoot, bestBet, allocatedBytes, inuseBytes, majors, minors, bytes);
      ShownSpaced(layout, bytes, map[]);
      while |calls| < count
        invariant |calls| <= count && Valid() && Chosen(client, calls, rs) && IsRun(ms, calls, rs) && ms[0] == map[]
        invariant Shows(layout, bytes, ms[|calls|]) && Spaced(ms[|calls|])
        invariant (forall a, b :: source(a, b) != NULL) ==> forall n | 0 <= n < |calls| && AsksNew(calls[n]) :: rs[n] != NULL
      {
        ghost var m := ms[|calls|];
        ImageParts(layout, memRoot, bestBet, allocatedBytes, inuseBytes, majors, minors, bytes);
        var call := client(rs);
        var run := source(rs, majors);
        assert PromisedFor(source, client, rs, majors, layout, m);
        ghost var m';
        var r;
        r, m' := Serve(call, run, m);
        ExtendRun(ms, calls, rs, call, r, m');
        assert (rs + [r])[..|calls|] == rs;
        assert forall n | 0 <= n < |calls| :: (rs + [r])[..n] == rs[..n];
        calls, rs, ms := calls + [call], rs + [r], ms + [m'];
      }
    }

    // -------------------------------------------------------------- whole-call laws

    /**
     free undoes malloc: the pointer malloc gave, where first fit places it, is released, and
     layout, totals, root and every live byte are as before.
     */
    method MallocThenFree(req: nat, run: int) returns (p: int, o: Freeing, ghost start: nat, ghost place: Place)
      requires Valid() && req + ALIGNMENT + ALIGN_INFO + 2 * HEADER_SIZE <= MAX_FOOTPRINT
      requires run == NULL || FreshRun(layout, run, NewMajorPages(req + ALIGNMENT + ALIGN_INFO))
      modifies this
      ensures Valid() && layout == old(layout) && memRoot == old(memRoot)
      ensures inuseBytes == old(inuseBytes) && allocatedBytes == old(allocatedBytes)
      ensures SamePayloads(old(bytes), bytes, old(layout)) && errorCount == old(errorCount)
      ensures IsFirstFit(old(layout), start, req + ALIGNMENT + ALIGN_INFO + HEADER_SIZE, place)
      ensures if place.NewBlock? && run == NULL then p == NULL && o == NoPointer
              else p == PlacedChunk(old(layout), place, run, req + ALIGNMENT + ALIGN_INFO, req).Ptr() && o == Released
    {
      hide BetAfterMalloc, BetAfterRelease;
      hide ValidLayout, IsFirstFit, FreshRun, Placed, PlacedChunk, SamePayloads, AlignPointer, NewMajorPages;
      hide Release, Tagged, Freed, NoEmptyBlock, MajorsLinked, MinorsLinked, MagicMeansLive, LeadsToLive, Listed, MinorsInMemory, MajorsInMemory, MagicAt, Unalign;
      p, start, place := Malloc(req, run);
      ghost var b1, mid := bytes, layout;
      if p != NULL {
        FitBounds(old(layout), start, req + ALIGNMENT + ALIGN_INFO + HEADER_SIZE, place);
        PlaceThenRelease(old(layout), start, req + ALIGNMENT + ALIGN_INFO + HEADER_SIZE, place, run, req + ALIGNMENT + ALIGN_INFO, req);
        ghost var (i, j) := PlacedAt(old(layout), place);
        FreedAt(layout, bytes, i, j);
      }
      o := Free(p);
      if p == NULL {
        NullLeadsNowhere(mid, b1);
      }
      SamePayloadsTrans(old(bytes), b1, bytes, old(layout));
    }

    /** A second free of the same pointer, whatever became of its block, is detected and changes nothing. */
    method FreeTwice(ptr: int, ghost i: nat, ghost j: nat) returns (first: Freeing, second: Freeing)
      requires Valid() && i < |layout| && j < |layout[i].chunks| && ptr == layout[i].chunks[j].Ptr()
      modifies this
      ensures first == Released && second == Rejected
      ensures Valid() && layout == Release(old(layout), i, j) && errorCount == old(errorCount) + 1
    {
      hide Image, ValidLayout, SamePayloads, AlignPointer, Live, IndexOf, Tagged, Freed, NoEmptyBlock, Unalign, Delete;
      hide MinorsInMemory, MajorsInMemory, MagicAt;
      ImageParts(layout, memRoot, bestBet, allocatedBytes, inuseBytes, majors, minors, bytes);
      ghost var c := layout[i].chunks[j];
      FreedAt(layout, bytes, i, j);
      UnalignRecovers(layout, bytes, i, j);
      ReleasedNotLive(layout, i, j);
      first := Free(ptr);
      TagsFollowPayloads(old(bytes), bytes, old(layout));
      UnalignRecovers(old(layout), bytes, i, j);
      NotFreed(layout, bytes, ptr);
      second := Free(ptr);
    }
  }

  datatype Reallocating = Answer(r: int) | ForgedHeader | CopiesToNull

  /** One, two or three low bytes of the magic number survive: likely an overrun. */
  predicate LooksOverrun(magic: int) {
    || magic % 0x100_0000 == MAGIC % 0x100_0000
    || magic % 0x1_0000 == MAGIC % 0x1_0000
    || magic % 0x100 == MAGIC % 0x100
  }

  /** The three tests come down to one: the lowest byte is that of the magic number. */
  lemma OverrunIff(magic: int)
    ensures LooksOverrun(magic) <==> magic % 0x100 == 0xde
  {
    LowestByte(magic);
    LowestByte(MAGIC);
  }

  lemma LowestByte(x: int)
    ensures x % 0x100_0000 % 0x100 == x % 0x100 && x % 0x1_0000 % 0x100 == x % 0x100
  {
    LowByteOf(x / 0x100_0000 * 0x1_0000, x % 0x100_0000);
    LowByteOf(x / 0x1_0000 * 0x100, x % 0x1_0000);
  }

  lemma LowByteOf(k: int, r: int)
    ensures (0x100 * k + r) % 0x100 == r % 0x100
  {
  }
}
