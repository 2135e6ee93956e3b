/**
 What a caller sees of the heap: a table from live pointers to byte strings.  Each
 heap operation is one step on this table, and whole runs are reasoned about there.
 */
module HeapObjects {
  import opened Common
  import opened HeapLayout
  import opened HeapLinks

  type Objects = map<int, seq<Byte>>

  function Contents(bytes: Bytes, p: int, n: nat): (r: seq<Byte>)
    ensures |r| == n
  {
    seq<Byte>(n, k requires 0 <= k => ByteAt(bytes, p + k))
  }

  ghost predicate Shown(bytes: Bytes, m: Objects, c: Chunk) {
    0 <= c.req && c.Ptr() in m && m[c.Ptr()] == Contents(bytes, c.Ptr(), c.req)
  }

  ghost predicate IsPointer(layout: Layout, p: int) {
    exists c :: IsChunk(layout, c) && c.Ptr() == p
  }

  /** The table lists exactly the live pointers, each with the bytes it owns. */
  ghost predicate Shows(layout: Layout, bytes: Bytes, m: Objects) {
    && (forall c | IsChunk(layout, c) :: Shown(bytes, m, c))
    && (forall p | p in m :: IsPointer(layout, p))
  }

  // ------------------------------------------------------------------- live pointers

  lemma ChunkBounds(layout: Layout, c: Chunk)
    requires ValidLayout(layout) && IsChunk(layout, c)
    ensures 0 < c.Ptr() && c.Ptr() % ALIGNMENT == 0 && c.Payload() + ALIGN_INFO <= c.Ptr() && c.Ptr() + c.req <= c.End() && 0 <= c.req
  {
  }

  lemma ChunksApart(layout: Layout, c: Chunk, d: Chunk)
    requires ValidLayout(layout) && IsChunk(layout, c) && IsChunk(layout, d) && c != d
    ensures c.End() <= d.addr || d.End() <= c.addr
    ensures c.Ptr() + c.req <= d.Ptr() || d.Ptr() + d.req <= c.Ptr()
    ensures c.Ptr() != d.Ptr()
  {
  }

  /** Live pointers are positive, 16-aligned, and own pairwise disjoint ranges. */
  ghost predicate Spaced(m: Objects) {
    && (forall p | p in m :: 0 < p && p % ALIGNMENT == 0)
    && (forall p, q | p in m && q in m && p != q :: p + |m[p]| <= q || q + |m[q]| <= p)
  }

  lemma ShownSpaced(layout: Layout, bytes: Bytes, m: Objects)
    requires ValidLayout(layout) && Shows(layout, bytes, m)
    ensures Spaced(m)
  {
    hide ValidLayout, IsChunk;
    forall p | p in m ensures 0 < p && p % ALIGNMENT == 0 {
      assert IsPointer(layout, p);
      var c :| IsChunk(layout, c) && c.Ptr() == p;
      ChunkBounds(layout, c);
    }
    forall p, q | p in m && q in m && p != q ensures p + |m[p]| <= q || q + |m[q]| <= p {
      assert IsPointer(layout, p) && IsPointer(layout, q);
      var c :| IsChunk(layout, c) && c.Ptr() == p;
      var d :| IsChunk(layout, d) && d.Ptr() == q;
      ChunksApart(layout, c, d);
      assert Shown(bytes, m, c) && Shown(bytes, m, d);
    }
  }

  lemma PointerChunk(layout: Layout, bytes: Bytes, m: Objects, p: int) returns (c: Chunk, i: nat, j: nat)
    requires ValidLayout(layout) && Shows(layout, bytes, m) && p in m
    ensures IsChunk(layout, c) && c.Ptr() == p && c.req == |m[p]| && m[p] == Contents(bytes, p, c.req)
    ensures i < |layout| && j < |layout[i].chunks| && layout[i].chunks[j] == c
  {
    hide ValidLayout, IsChunk;
    assert IsPointer(layout, p);
    c :| IsChunk(layout, c) && c.Ptr() == p;
    assert Shown(bytes, m, c);
    i, j := ChunkIndex(layout, c);
  }

  // ------------------------------------------------------- how each operation changes it

  lemma ContentsSame(before: Bytes, after: Bytes, c: Chunk)
    requires SamePayload(before, after, c) && c.Payload() <= c.Ptr() && c.Ptr() + c.req <= c.End() && 0 <= c.req
    ensures Contents(after, c.Ptr(), c.req) == Contents(before, c.Ptr(), c.req)
  {
  }

  /** Every live chunk but c keeps its bytes. */
  ghost predicate OthersKept(layout: Layout, before: Bytes, after: Bytes, c: Chunk) {
    forall d | IsChunk(layout, d) && d != c :: SamePayload(before, after, d)
  }

  lemma KeptFromPayloads(layout: Layout, before: Bytes, after: Bytes, c: Chunk)
    requires ValidLayout(layout) && SamePayloads(before, after, layout)
    ensures OthersKept(layout, before, after, c)
  {
  }

  ghost predicate Adds(l: Layout, n: Chunk, l': Layout) {
    forall d :: IsChunk(l', d) <==> IsChunk(l, d) || d == n
  }

  ghost predicate Removes(l: Layout, c: Chunk, l': Layout) {
    forall d :: IsChunk(l', d) <==> IsChunk(l, d) && d != c
  }

  lemma AddedShows(l: Layout, b: Bytes, m: Objects, n: Chunk, l': Layout, b': Bytes)
    requires ValidLayout(l') && ValidLayout(l) && Shows(l, b, m) && Adds(l, n, l') && !IsChunk(l, n) && OthersKept(l, b, b', n)
    ensures 0 <= n.req && n.Ptr() !in m && Shows(l', b', m[n.Ptr() := Contents(b', n.Ptr(), n.req)])
  {
    hide ValidLayout, IsChunk, SamePayload, AlignPointer;
    ChunkBounds(l', n);
    var m' := m[n.Ptr() := Contents(b', n.Ptr(), n.req)];
    forall d | IsChunk(l', d) ensures Shown(b', m', d) {
      if d != n {
        ChunksApart(l', d, n);
        assert Shown(b, m, d);
        ChunkBounds(l, d);
        ContentsSame(b, b', d);
      }
    }
    if n.Ptr() in m {
      assert IsPointer(l, n.Ptr());
      var d :| IsChunk(l, d) && d.Ptr() == n.Ptr();
      ChunksApart(l', d, n);
    }
    forall p | p in m' ensures IsPointer(l', p) {
      if p != n.Ptr() {
        assert IsPointer(l, p);
        var d :| IsChunk(l, d) && d.Ptr() == p;
        assert IsChunk(l', d);
      } else {
        assert IsChunk(l', n);
      }
    }
  }

  lemma RemovedShows(l: Layout, b: Bytes, m: Objects, c: Chunk, l': Layout, b': Bytes)
    requires ValidLayout(l) && Shows(l, b, m) && IsChunk(l, c) && Removes(l, c, l') && OthersKept(l, b, b', c)
    ensures Shows(l', b', m - {c.Ptr()})
  {
    hide ValidLayout, IsChunk, SamePayload, AlignPointer;
    var m' := m - {c.Ptr()};
    forall d | IsChunk(l', d) ensures Shown(b', m', d) {
      assert IsChunk(l, d) && d != c;
      ChunksApart(l, d, c);
      assert Shown(b, m, d);
      ChunkBounds(l, d);
      ContentsSame(b, b', d);
    }
    forall p | p in m' ensures IsPointer(l', p) {
      assert IsPointer(l, p);
      var d :| IsChunk(l, d) && d.Ptr() == p;
      assert IsChunk(l', d);
    }
  }

  lemma PlacedAdds(layout: Layout, place: Place, run: int, size: nat, req: int)
    requires place.InGap? ==> place.i < |layout| && place.j <= |layout[place.i].chunks|
    ensures Adds(layout, PlacedChunk(layout, place, run, size, req), Placed(layout, place, run, size, req))
  {
    hide IsChunk, Placed, PlacedChunk;
    forall d ensures IsChunk(Placed(layout, place, run, size, req), d) <==>
                       IsChunk(layout, d) || d == PlacedChunk(layout, place, run, size, req)
    {
      PlacedChunks(layout, place, run, size, req, d);
    }
  }

  lemma ReleasedWereThere(layout: Layout, i: nat, j: nat, d: Chunk)
    requires i < |layout| && j < |layout[i].chunks| && IsChunk(Release(layout, i, j), d)
    ensures IsChunk(layout, d)
  {
  }

  lemma ReleaseRemoves(layout: Layout, i: nat, j: nat)
    requires ValidLayout(layout) && i < |layout| && j < |layout[i].chunks|
    ensures Removes(layout, layout[i].chunks[j], Release(layout, i, j))
  {
    var c, l := layout[i].chunks[j], Release(layout, i, j);
    ReleaseValid(layout, i, j);
    ReleasedNotLive(layout, i, j);
    hide ValidLayout, IsChunk, Release, Live;
    forall d ensures IsChunk(l, d) <==> IsChunk(layout, d) && d != c {
      if IsChunk(l, d) {
        ReleasedWereThere(layout, i, j, d);
        var k, n := ChunkIndex(l, d);
      }
      if IsChunk(layout, d) && d != c { ReleasedChunks(layout, i, j, d); }
    }
  }

  ghost predicate Replaces(l: Layout, c: Chunk, n: Chunk, l': Layout) {
    forall d :: IsChunk(l', d) <==> (IsChunk(l, d) && d != c) || d == n
  }

  lemma ReplacedShows(l: Layout, b: Bytes, m: Objects, c: Chunk, n: Chunk, l': Layout, b': Bytes)
    requires ValidLayout(l) && ValidLayout(l') && Shows(l, b, m) && IsChunk(l, c)
    requires Replaces(l, c, n, l') && OthersKept(l, b, b', c)
    ensures 0 <= n.req && Shows(l', b', (m - {c.Ptr()})[n.Ptr() := Contents(b', n.Ptr(), n.req)])
  {
    hide ValidLayout, IsChunk, SamePayload, AlignPointer;
    ChunkBounds(l', n);
    var m' := (m - {c.Ptr()})[n.Ptr() := Contents(b', n.Ptr(), n.req)];
    forall d | IsChunk(l', d) ensures Shown(b', m', d) {
      if d != n {
        ChunksApart(l', d, n);
        ChunksApart(l, d, c);
        assert Shown(b, m, d);
        ChunkBounds(l, d);
        ContentsSame(b, b', d);
      }
    }
    forall p | p in m' ensures IsPointer(l', p) {
      if p != n.Ptr() {
        assert IsPointer(l, p);
        var d :| IsChunk(l, d) && d.Ptr() == p;
        assert IsChunk(l', d);
      } else {
        assert IsChunk(l', n);
      }
    }
  }

  lemma OnlyInBlock(layout: Layout, i: nat, j: nat, k: nat, n: nat)
    requires ValidLayout(layout) && i < |layout| && j < |layout[i].chunks| && k < |layout| && n < |layout[k].chunks|
    requires layout[k].chunks[n] == layout[i].chunks[j]
    ensures (k, n) == (i, j)
  {
  }

  lemma WithReqAt(layout: Layout, i: nat, j: nat, req: int, k: nat, x: nat)
    requires i < |layout| && j < |layout[i].chunks| && k < |layout|
    ensures var l := WithReq(layout, i, j, req);
            && |l| == |layout| && |l[k].chunks| == |layout[k].chunks|
            && (x < |layout[k].chunks| ==>
                  l[k].chunks[x] == if (k, x) == (i, j) then layout[i].chunks[j].(req := req) else layout[k].chunks[x])
  {
  }

  lemma WithReqChunk(layout: Layout, i: nat, j: nat, req: int, d: Chunk)
    requires ValidLayout(layout) && i < |layout| && j < |layout[i].chunks|
    ensures var c := layout[i].chunks[j];
            IsChunk(WithReq(layout, i, j, req), d) <==> (IsChunk(layout, d) && d != c) || d == c.(req := req)
  {
    hide ValidLayout, IsChunk, WithReq;
    var c, l := layout[i].chunks[j], WithReq(layout, i, j, req);
    WithReqAt(layout, i, j, req, i, j);
    ChunkAt(l, i, j);
    if IsChunk(l, d) && d != c.(req := req) {
      var (k, x) := IndexFor(l, d);
      WithReqAt(layout, i, j, req, k, x);
      ChunkAt(layout, k, x);
      if d == c { OnlyInBlock(layout, i, j, k, x); }
    }
    if IsChunk(layout, d) && d != c {
      var (k, x) := IndexFor(layout, d);
      WithReqAt(layout, i, j, req, k, x);
      ChunkAt(l, k, x);
    }
  }

  lemma WithReqReplaces(layout: Layout, i: nat, j: nat, req: int)
    requires ValidLayout(layout) && i < |layout| && j < |layout[i].chunks|
    ensures Replaces(layout, layout[i].chunks[j], layout[i].chunks[j].(req := req), WithReq(layout, i, j, req))
  {
    var c, l := layout[i].chunks[j], WithReq(layout, i, j, req);
    hide ValidLayout, IsChunk, WithReq;
    forall d ensures IsChunk(l, d) <==> (IsChunk(layout, d) && d != c) || d == c.(req := req) {
      WithReqChunk(layout, i, j, req, d);
    }
  }

  // ------------------------------------------------------------------ calls and runs

  /** A call on the heap, or a caller's store to byte k of the object at p. */
  datatype Call = CallMalloc(req: nat) | CallFree(p: int) | CallRealloc(p: int, size: nat) | Write(p: int, k: nat, v: Byte)

  ghost predicate Small(req: nat) { req + ALIGNMENT + ALIGN_INFO + 2 * HEADER_SIZE <= MAX_FOOTPRINT }

  /** What C asks of the caller: pointers are null or live, stores stay inside the object. */
  ghost predicate WellCalled(m: Objects, call: Call) {
    match call
    case CallMalloc(req) => Small(req)
    case CallFree(p) => p == NULL || p in m
    case CallRealloc(p, size) => Small(size) && (p == NULL || p in m)
    case Write(p, k, _) => p in m && k < |m[p]|
  }

  function Put(s: seq<Byte>, k: nat, v: Byte): seq<Byte>
    requires k < |s|
  {
    s[k := v]
  }

  /** A new object at a pointer that was not live; every other object as before. */
  ghost predicate Created(m: Objects, r: int, size: nat, m': Objects) {
    r !in m && r in m' && |m'[r]| == size && m' - {r} == m
  }

  /** One call as the caller sees it. */
  ghost predicate ObjectStep(m: Objects, call: Call, r: int, m': Objects)
    requires WellCalled(m, call)
  {
    match call
    case CallMalloc(req) => if r == NULL then m' == m else Created(m, r, req, m')
    case CallFree(p) => m' == m - {p}
    case CallRealloc(p, size) =>
      if size == 0 then r == NULL && m' == m - {p}
      else if p == NULL then (if r == NULL then m' == m else Created(m, r, size, m'))
      else if size <= |m[p]| then r == p && m' == m[p := m[p][..size]]
      else r !in m && r in m' && |m'[r]| == size && m[p] <= m'[r] && m' - {r} == m - {p}
    case Write(p, k, v) => m' == m[p := Put(m[p], k, v)]
  }

  /** The call asks for a new object. */
  predicate AsksNew(call: Call) { call.CallMalloc? || (call.CallRealloc? && call.p == NULL && call.size > 0) }

  /** No gap holds the new object and no pages are to be had. */
  ghost predicate Refused(layout: Layout, call: Call, run: int)
    requires AsksNew(call)
  {
    run == NULL && NothingFits(layout, (if call.CallMalloc? then call.req else call.size) + ALIGNMENT + ALIGN_INFO + HEADER_SIZE)
  }

  // -------------------------------------------------------------- operations as steps

  lemma MallocShows(l: Layout, b: Bytes, m: Objects, start: nat, place: Place, run: int, req: nat, l': Layout, b': Bytes)
    returns (m': Objects)
    requires ValidLayout(l) && ValidLayout(l') && Shows(l, b, m) && SamePayloads(b, b', l)
    requires IsFirstFit(l, start, req + ALIGNMENT + ALIGN_INFO + HEADER_SIZE, place)
    requires place.NewBlock? ==> FreshRun(l, run, NewMajorPages(req + ALIGNMENT + ALIGN_INFO))
    requires l' == Placed(l, place, run, req + ALIGNMENT + ALIGN_INFO, req)
    ensures Shows(l', b', m') && Created(m, PlacedChunk(l, place, run, req + ALIGNMENT + ALIGN_INFO, req).Ptr(), req, m')
  {
    hide ValidLayout, Shows, SamePayloads, FreshRun, NewMajorPages, Placed, IsChunk, AlignPointer, Contents;
    var n := PlacedChunk(l, place, run, req + ALIGNMENT + ALIGN_INFO, req);
    assert n.req == req;
    if IsChunk(l, n) { PlacedIsNew(l, start, place, run, req, n); }
    PlacedAdds(l, place, run, req + ALIGNMENT + ALIGN_INFO, req);
    KeptFromPayloads(l, b, b', n);
    AddedShows(l, b, m, n, l', b');
    m' := m[n.Ptr() := Contents(b', n.Ptr(), req)];
    assert m' - {n.Ptr()} == m;
  }

  lemma FreeShows(l: Layout, b: Bytes, m: Objects, i: nat, j: nat, l': Layout, b': Bytes)
    requires ValidLayout(l) && i < |l| && j < |l[i].chunks| && l' == Release(l, i, j)
    requires Shows(l, b, m) && SamePayloads(b, b', l')
    ensures Shows(l', b', m - {l[i].chunks[j].Ptr()})
  {
    var c := l[i].chunks[j];
    ChunkAt(l, i, j);
    ReleaseValid(l, i, j);
    ReleaseRemoves(l, i, j);
    hide ValidLayout, Shows, SamePayloads, Release, IsChunk, AlignPointer;
    forall d | IsChunk(l, d) && d != c ensures SamePayload(b, b', d) {
      assert IsChunk(l', d);
      PayloadOf(b, b', l', d);
    }
    RemovedShows(l, b, m, c, l', b');
  }

  lemma ShrinkShows(l: Layout, b: Bytes, m: Objects, i: nat, j: nat, size: nat, l': Layout, b': Bytes)
    requires ValidLayout(l) && ValidLayout(l') && i < |l| && j < |l[i].chunks| && l' == WithReq(l, i, j, size)
    requires size <= l[i].chunks[j].req && Shows(l, b, m) && SamePayloads(b, b', l)
    ensures var p := l[i].chunks[j].Ptr(); p in m && size <= |m[p]| && Shows(l', b', m[p := m[p][..size]])
  {
    hide ValidLayout, Shows, SamePayloads, WithReq, IsChunk, AlignPointer, Contents;
    var c := l[i].chunks[j];
    var p := c.Ptr();
    ChunkAt(l, i, j);
    ShownAt(l, b, m, c);
    WithReqReplaces(l, i, j, size);
    KeptFromPayloads(l, b, b', c);
    PayloadOf(b, b', l, c);
    ChunkBounds(l, c);
    ContentsSame(b, b', c);
    ReplacedShows(l, b, m, c, c.(req := size), l', b');
    ContentsPrefix(b', p, size, c.req);
    assert (m - {p})[p := m[p][..size]] == m[p := m[p][..size]];
  }

  lemma ContentsPrefix(b: Bytes, p: int, size: nat, n: nat)
    requires size <= n
    ensures Contents(b, p, size) == Contents(b, p, n)[..size]
  {
  }

  lemma GrowShows(l: Layout, b: Bytes, m: Objects, c: Chunk, start: nat, place: Place, run: int, size: nat, l': Layout, b': Bytes)
    returns (m': Objects)
    requires ValidLayout(l) && IsChunk(l, c) && c.req < size && Small(size) && Shows(l, b, m) && OthersKept(l, b, b', c)
    requires IsFirstFit(l, start, size + ALIGNMENT + ALIGN_INFO + HEADER_SIZE, place)
    requires place.NewBlock? ==> FreshRun(l, run, NewMajorPages(size + ALIGNMENT + ALIGN_INFO))
    requires Without(Placed(l, place, run, size + ALIGNMENT + ALIGN_INFO, size), c, l')
    requires Carried(b, b', c.Ptr(), PlacedChunk(l, place, run, size + ALIGNMENT + ALIGN_INFO, size).Ptr(), c.req)
    ensures Shows(l', b', m')
    ensures var p, r := c.Ptr(), PlacedChunk(l, place, run, size + ALIGNMENT + ALIGN_INFO, size).Ptr();
            p in m && r !in m && r in m' && |m'[r]| == size && m[p] <= m'[r] && m' - {r} == m - {p}
  {
    hide ValidLayout, Shows, Without, Placed, PlacedChunk, FreshRun, IsFirstFit, IsChunk, AlignPointer, NewMajorPages, Contents, Carried;
    FitBounds(l, start, size + ALIGNMENT + ALIGN_INFO + HEADER_SIZE, place);
    var n := PlacedChunk(l, place, run, size + ALIGNMENT + ALIGN_INFO, size);
    var p, r := c.Ptr(), n.Ptr();
    GrowReplaces(l, b, m, c, start, place, run, size, l');
    ReplacedShows(l, b, m, c, n, l', b');
    m' := (m - {p})[r := Contents(b', r, size)];
    ShownAt(l, b, m, c);
    assert m' - {r} == m - {p};
    CarriedContents(b, b', p, r, c.req, size);
  }

  lemma ShownAt(l: Layout, b: Bytes, m: Objects, c: Chunk)
    requires Shows(l, b, m) && IsChunk(l, c)
    ensures Shown(b, m, c)
  {
  }

  lemma GrowReplaces(l: Layout, b: Bytes, m: Objects, c: Chunk, start: nat, place: Place, run: int, size: nat, l': Layout)
    requires ValidLayout(l) && IsChunk(l, c) && Small(size) && Shows(l, b, m)
    requires IsFirstFit(l, start, size + ALIGNMENT + ALIGN_INFO + HEADER_SIZE, place)
    requires place.NewBlock? ==> FreshRun(l, run, NewMajorPages(size + ALIGNMENT + ALIGN_INFO))
    requires Without(Placed(l, place, run, size + ALIGNMENT + ALIGN_INFO, size), c, l')
    ensures var n := PlacedChunk(l, place, run, size + ALIGNMENT + ALIGN_INFO, size);
            ValidLayout(l') && Replaces(l, c, n, l') && n.Ptr() !in m && n.req == size
  {
    hide ValidLayout, Shows, Release, Placed, FreshRun, IsFirstFit, IsChunk, AlignPointer, IndexOf, NewMajorPages;
    FitBounds(l, start, size + ALIGNMENT + ALIGN_INFO + HEADER_SIZE, place);
    var mid := Placed(l, place, run, size + ALIGNMENT + ALIGN_INFO, size);
    var n := PlacedChunk(l, place, run, size + ALIGNMENT + ALIGN_INFO, size);
    PlacedValid(l, start, place, run, size);
    PlacedIsNew(l, start, place, run, size, c);
    if IsChunk(l, n) { PlacedIsNew(l, start, place, run, size, n); }
    PlacedAdds(l, place, run, size + ALIGNMENT + ALIGN_INFO, size);
    NotYetShown(l, b, m, n, mid);
    var (i, j) := IndexOf(mid, c.addr);
    ReleaseRemoves(mid, i, j);
    ReleaseValid(mid, i, j);
  }

  lemma CarriedContents(b: Bytes, b': Bytes, p: int, r: int, count: nat, size: nat)
    requires Carried(b, b', p, r, count) && count <= size
    ensures Contents(b, p, count) <= Contents(b', r, size)
  {
  }

  lemma NotYetShown(l: Layout, b: Bytes, m: Objects, n: Chunk, mid: Layout)
    requires Shows(l, b, m) && Adds(l, n, mid) && ValidLayout(mid) && !IsChunk(l, n)
    ensures n.Ptr() !in m
  {
  }

  lemma WriteShows(l: Layout, b: Bytes, m: Objects, i: nat, j: nat, k: nat, v: Byte)
    requires ValidLayout(l) && i < |l| && j < |l[i].chunks| && k < l[i].chunks[j].req && Shows(l, b, m)
    ensures var p := l[i].chunks[j].Ptr(); p in m && k < |m[p]| && Shows(l, b[p + k := v], m[p := Put(m[p], k, v)])
  {
    hide ValidLayout, Shows, IsChunk, AlignPointer, Contents;
    var c := l[i].chunks[j];
    var p := c.Ptr();
    ChunkAt(l, i, j);
    ShownAt(l, b, m, c);
    WriteKeepsOthers(l, b, c, k, v);
    ReplacedShows(l, b, m, c, c, l, b[p + k := v]);
    WriteContents(b, p, c.req, k, v);
    assert (m - {p})[p := Put(m[p], k, v)] == m[p := Put(m[p], k, v)];
  }

  lemma WriteKeepsOthers(l: Layout, b: Bytes, c: Chunk, k: nat, v: Byte)
    requires ValidLayout(l) && IsChunk(l, c) && k < c.req
    ensures OthersKept(l, b, b[c.Ptr() + k := v], c)
  {
  }

  lemma WriteContents(b: Bytes, p: int, n: nat, k: nat, v: Byte)
    requires k < n
    ensures Contents(b[p + k := v], p, n) == Put(Contents(b, p, n), k, v)
  {
    var b', s := b[p + k := v], Contents(b, p, n);
    forall x: nat | x < n ensures Contents(b', p, n)[x] == Put(s, k, v)[x] {
      assert ByteAt(b', p + x) == if p + x == p + k then v else ByteAt(b, p + x);
      assert s[x] == ByteAt(b, p + x);
    }
  }

  lemma ChunkOfAt(layout: Layout, bytes: Bytes, i: nat, j: nat)
    requires ValidLayout(layout) && Tagged(bytes, layout) && i < |layout| && j < |layout[i].chunks|
    ensures var c := layout[i].chunks[j];
            && LeadsToLive(layout, bytes, c.Ptr()) && ChunkOf(layout, bytes, c.Ptr()) == c && IndexOf(layout, c.addr) == (i, j)
            && Freed(layout, bytes, c.Ptr()) == Release(layout, i, j)
  {
    FreedAt(layout, bytes, i, j);
    hide ValidLayout, Tagged, Release, Live, IndexOf, AlignPointer, Unalign, Freed;
    UnalignRecovers(layout, bytes, i, j);
    IndexUnique(layout, i, j);
  }

  lemma SameShows(l: Layout, b: Bytes, b': Bytes, m: Objects)
    requires ValidLayout(l) && Shows(l, b, m) && SamePayloads(b, b', l)
    ensures Shows(l, b', m)
  {
  }

  lemma NullLeadsNowhere(layout: Layout, bytes: Bytes)
    ensures !LeadsToLive(layout, bytes, NULL) && Freed(layout, bytes, NULL) == layout
  {
  }

  // ------------------------------------------------------------------------- runs

  /** The page source's promise for the call: a fresh run, or null where the caller can see failure or no run is needed. */
  ghost predicate PagesFor(layout: Layout, m: Objects, call: Call, run: int) {
    match call
    case CallMalloc(req) => run == NULL || FreshRun(layout, run, NewMajorPages(req + ALIGNMENT + ALIGN_INFO))
    case CallRealloc(p, size) =>
      && (run == NULL || FreshRun(layout, run, NewMajorPages(size + ALIGNMENT + ALIGN_INFO)))
      && (run == NULL && p in m && size > |m[p]| ==> !NothingFits(layout, size + ALIGNMENT + ALIGN_INFO + HEADER_SIZE))
    case _ => true
  }

  /** The call may change the object at p. */
  predicate Names(call: Call, p: int) {
    match call
    case CallMalloc(_) => false
    case CallFree(q) => q == p
    case CallRealloc(q, _) => q == p
    case Write(q, _, _) => q == p
  }

  ghost predicate RunStep(ms: seq<Objects>, calls: seq<Call>, rs: seq<int>, n: nat)
    requires n < |calls| == |rs| && |ms| == |calls| + 1
  {
    Spaced(ms[n]) && WellCalled(ms[n], calls[n]) && ObjectStep(ms[n], calls[n], rs[n], ms[n + 1])
  }

  /** ms is the sequence of tables a run of calls goes through, rs the pointers it returns. */
  ghost predicate IsRun(ms: seq<Objects>, calls: seq<Call>, rs: seq<int>) {
    && |ms| == |calls| + 1 && |rs| == |calls|
    && forall n | 0 <= n < |calls| :: RunStep(ms, calls, rs, n)
  }

  lemma StepKeepsOthers(m: Objects, call: Call, r: int, m': Objects, p: int)
    requires WellCalled(m, call) && ObjectStep(m, call, r, m') && p in m && !Names(call, p)
    ensures p in m' && m'[p] == m[p]
  {
    match call
    case CallMalloc(_) => if r != NULL { assert p in m' - {r}; }
    case CallFree(_) =>
    case CallRealloc(q, size) =>
      if size > 0 && q == NULL && r != NULL {
        assert p in m' - {r} && (m' - {r})[p] == m'[p];
      } else if size > 0 && q != NULL && size > |m[q]| {
        assert p in m' - {r} && (m' - {r})[p] == m'[p] && (m - {q})[p] == m[p];
      }
    case Write(_, _, _) =>
  }

  /** Between two points of a run, an object no call names is still live, with the same bytes. */
  lemma {:induction false} UntouchedObject(ms: seq<Objects>, calls: seq<Call>, rs: seq<int>, a: nat, b: nat, p: int)
    requires IsRun(ms, calls, rs) && a <= b <= |calls| && p in ms[a]
    requires forall n | a <= n < b :: !Names(calls[n], p)
    ensures p in ms[b] && ms[b][p] == ms[a][p]
    decreases b
  {
    if a < b {
      UntouchedObject(ms, calls, rs, a, b - 1, p);
      assert RunStep(ms, calls, rs, b - 1);
      StepKeepsOthers(ms[b - 1], calls[b - 1], rs[b - 1], ms[b], p);
    }
  }

  /** Where the object at p is after the call. */
  function Track(call: Call, r: int, p: int): int { if call.CallRealloc? && call.p == p then r else p }

  function Trail(calls: seq<Call>, rs: seq<int>, a: nat, b: nat, p: int): int
    requires b <= |calls| == |rs|
    decreases b
  {
    if b <= a then p else Track(calls[b - 1], rs[b - 1], Trail(calls, rs, a, b - 1, p))
  }

  /** The call neither frees the object at p, nor stores to its byte k, nor cuts it off. */
  predicate KeepsByte(call: Call, p: int, k: nat) {
    match call
    case CallMalloc(_) => true
    case CallFree(q) => q != p
    case CallRealloc(q, size) => q == p ==> k < size
    case Write(q, x, _) => q == p ==> x != k
  }

  lemma StepKeepsByte(m: Objects, call: Call, r: int, m': Objects, p: int, k: nat)
    requires WellCalled(m, call) && ObjectStep(m, call, r, m') && Spaced(m) && p in m && k < |m[p]| && KeepsByte(call, p, k)
    ensures var q := Track(call, r, p); q in m' && k < |m'[q]| && m'[q][k] == m[p][k]
  {
    if !Names(call, p) { StepKeepsOthers(m, call, r, m', p); }
  }

  /**
   In every run, a byte of a live object keeps its value, through any number of reallocs
   that may move the object, until the object is freed or cut short or that byte is stored to.
   */
  lemma {:induction false} ByteSurvives(ms: seq<Objects>, calls: seq<Call>, rs: seq<int>, a: nat, b: nat, p: int, k: nat)
    requires IsRun(ms, calls, rs) && a <= b <= |calls| && p in ms[a] && k < |ms[a][p]|
    requires forall n | a <= n < b :: KeepsByte(calls[n], Trail(calls, rs, a, n, p), k)
    ensures var q := Trail(calls, rs, a, b, p); q in ms[b] && k < |ms[b][q]| && ms[b][q][k] == ms[a][p][k]
    decreases b
  {
    if a < b {
      hide Spaced, ObjectStep, WellCalled, KeepsByte, Track;
      ByteSurvives(ms, calls, rs, a, b - 1, p, k);
      assert RunStep(ms, calls, rs, b - 1);
      StepKeepsByte(ms[b - 1], calls[b - 1], rs[b - 1], ms[b], Trail(calls, rs, a, b - 1, p), k);
    }
  }

  // ---------------------------------------------------------- clients and page sources

  /** The calls are the ones the client makes, each on seeing the results before it. */
  ghost predicate Chosen(client: seq<int> -> Call, calls: seq<Call>, rs: seq<int>) {
    |calls| == |rs| && forall n | 0 <= n < |calls| :: calls[n] == client(rs[..n])
  }

  /** In every run from an empty heap the client passes live pointers only. */
  ghost predicate Careful(client: seq<int> -> Call) {
    forall ms, calls, rs | IsRun(ms, calls, rs) && ms[0] == map[] && Chosen(client, calls, rs) :: WellCalled(ms[|calls|], client(rs))
  }

  /** Whatever majors are listed, the page source keeps its promise for the client's next call. */
  ghost predicate Promising(source: (seq<int>, map<int, Major>) -> int, client: seq<int> -> Call) {
    forall rs, majors, layout, m | ValidLayout(layout) && MajorsLinked(majors, layout) ::
      PromisedFor(source, client, rs, majors, layout, m)
  }

  ghost predicate PromisedFor(source: (seq<int>, map<int, Major>) -> int, client: seq<int> -> Call,
                              rs: seq<int>, majors: map<int, Major>, layout: Layout, m: Objects) {
    PagesFor(layout, m, client(rs), source(rs, majors))
  }

  lemma ExtendRun(ms: seq<Objects>, calls: seq<Call>, rs: seq<int>, call: Call, r: int, m': Objects)
    requires IsRun(ms, calls, rs) && Spaced(ms[|calls|]) && WellCalled(ms[|calls|], call) && ObjectStep(ms[|calls|], call, r, m')
    ensures IsRun(ms + [m'], calls + [call], rs + [r])
  {
    hide Spaced, WellCalled, ObjectStep;
    var ms', calls', rs' := ms + [m'], calls + [call], rs + [r];
    forall n | 0 <= n < |calls'| ensures RunStep(ms', calls', rs', n) {
      if n < |calls| { assert RunStep(ms, calls, rs, n); }
    }
  }

  /** An address above the majors at the given addresses. */
  ghost function TopOf(majors: map<int, Major>, addrs: set<int>): (t: int)
    requires addrs <= majors.Keys
    ensures 0 < t && forall a | a in addrs :: a + majors[a].pages * PAGE_SIZE <= t
    decreases addrs
  {
    if addrs == {} then 1
    else
      assert exists a :: a in addrs by { NonEmpty(addrs); }
      var a :| a in addrs;
      var t, end := TopOf(majors, addrs - {a}), a + majors[a].pages * PAGE_SIZE;
      if t < end then end else t
  }

  lemma NonEmpty(addrs: set<int>)
    requires addrs != {}
    ensures exists a :: a in addrs
  {
    assert (forall a :: a !in addrs) ==> addrs == {};
  }

  ghost function Top(majors: map<int, Major>): int { TopOf(majors, majors.Keys) }

  lemma FreshAbove(layout: Layout, majors: map<int, Major>, pages: nat)
    requires MajorsLinked(majors, layout)
    ensures FreshRun(layout, Top(majors), pages)
  {
    forall i | 0 <= i < |layout| ensures Apart(layout[i], Block(Top(majors), pages, [])) {
      assert MajorStored(majors, layout, i);
    }
  }

  /** There is a page source that keeps its promise to every client. */
  lemma PromisingSource(client: seq<int> -> Call) returns (source: (seq<int>, map<int, Major>) -> int)
    ensures Promising(source, client)
  {
    source := (rs: seq<int>, majors: map<int, Major>) => Top(majors);
    forall rs, majors, layout, m | ValidLayout(layout) && MajorsLinked(majors, layout)
      ensures PromisedFor(source, client, rs, majors, layout, m)
    {
      match client(rs)
      case CallMalloc(req) => FreshAbove(layout, majors, NewMajorPages(req + ALIGNMENT + ALIGN_INFO));
      case CallRealloc(_, size) => FreshAbove(layout, majors, NewMajorPages(size + ALIGNMENT + ALIGN_INFO));
      case CallFree(_) =>
      case Write(_, _, _) =>
    }
  }
}
