/** The best bet: which listed major malloc and free leave as the one the next search starts at. */
module HeapBets {
  import opened HeapLayout
  import opened HeapLinks

  // ------------------------------------------------------------ the most free bytes

  /** The best bet and its free bytes after one more block: a block with strictly more takes over. */
  function BetNext(bet: (int, int), b: Block): (int, int) {
    if bet.1 < b.Free() then (b.addr, b.Free()) else bet
  }

  function BetOver(tried: seq<Block>, bet: (int, int)): (int, int) {
    if tried == [] then bet else BetNext(BetOver(tried[..|tried| - 1], bet), tried[|tried| - 1])
  }

  /** Block k of those tried has the most free bytes, the earlier ones less. */
  ghost predicate FirstMost(tried: seq<Block>, k: nat) {
    && k < |tried| && (forall j | 0 <= j < |tried| :: tried[j].Free() <= tried[k].Free())
    && (forall j | 0 <= j < k :: tried[j].Free() < tried[k].Free())
  }

  /** The best bet stays exactly when no tried block has more free bytes; otherwise it is the first that has the most. */
  lemma {:induction false} BetOverIs(tried: seq<Block>, bet: (int, int))
    ensures BetOver(tried, bet) == bet <==> forall j | 0 <= j < |tried| :: tried[j].Free() <= bet.1
    ensures BetOver(tried, bet) != bet ==>
      exists k: nat :: FirstMost(tried, k) && BetOver(tried, bet) == (tried[k].addr, tried[k].Free())
    ensures BetOver(tried, bet).1 >= bet.1
    ensures forall j | 0 <= j < |tried| :: tried[j].Free() <= BetOver(tried, bet).1
  {
    hide Block.Free;
    if tried != [] {
      var n := |tried| - 1;
      var front := tried[..n];
      BetOverIs(front, bet);
      assert forall j | 0 <= j < n :: front[j] == tried[j];
      assert BetOver(tried, bet) == BetNext(BetOver(front, bet), tried[n]);
      if BetOver(front, bet).1 < tried[n].Free() {
        assert FirstMost(tried, n);
      } else if BetOver(front, bet) != bet {
        var k: nat :| FirstMost(front, k) && BetOver(front, bet) == (front[k].addr, front[k].Free());
        assert FirstMost(tried, k);
      }
    }
  }

  // ------------------------------------------------------------------ during malloc

  /** The blocks looked at on reaching block i of the list `now`; `layout` is the list before malloc. */
  function Visited(layout: Layout, now: Layout, start: nat, bet: bool, startedBet: bool, i: nat): seq<Block>
    requires start <= |layout| && i <= |now| && (startedBet ==> start <= i)
  {
    if startedBet then now[start..i] else (if bet then layout[start..] else []) + now[..i]
  }

  /** The best bet and its free bytes on reaching block i, from those malloc began with. */
  ghost predicate BetKnown(layout: Layout, now: Layout, start: nat, bet: bool, startedBet: bool, i: nat, bet0: (int, int), bet1: (int, int)) {
    && start <= |layout| && i <= |now| && (startedBet ==> start <= i)
    && BetOver(Visited(layout, now, start, bet, startedBet, i), bet0) == bet1
  }

  lemma KnownStart(layout: Layout, now: Layout, start: nat, bet: bool, bet0: (int, int))
    requires start <= |layout| && start <= |now| && (!bet ==> start == 0)
    ensures BetKnown(layout, now, start, bet, bet, start, bet0, bet0)
  {
  }

  lemma KnownNext(layout: Layout, now: Layout, start: nat, bet: bool, startedBet: bool, i: nat, bet0: (int, int), bet1: (int, int))
    requires BetKnown(layout, now, start, bet, startedBet, i, bet0, bet1) && i < |now|
    ensures BetKnown(layout, now, start, bet, startedBet, i + 1, bet0, BetNext(bet1, now[i]))
  {
    var before, after := Visited(layout, now, start, bet, startedBet, i), Visited(layout, now, start, bet, startedBet, i + 1);
    assert after[..|after| - 1] == before && after[|after| - 1] == now[i];
  }

  lemma KnownAgain(layout: Layout, start: nat, bet: bool, bet0: (int, int), bet1: (int, int))
    requires bet && BetKnown(layout, layout, start, bet, true, |layout|, bet0, bet1)
    ensures BetKnown(layout, layout, start, bet, false, 0, bet0, bet1)
  {
    assert Visited(layout, layout, start, bet, true, |layout|) == Visited(layout, layout, start, bet, false, 0);
  }

  lemma KnownGrown(layout: Layout, e: Block, start: nat, bet: bool, bet0: (int, int), bet1: (int, int))
    requires BetKnown(layout, layout, start, bet, false, |layout|, bet0, bet1)
    ensures BetKnown(layout, layout + [e], start, bet, false, |layout|, bet0, bet1)
  {
    assert (layout + [e])[..|layout|] == layout[..|layout|];
  }

  /** The blocks malloc looks at, in order; `added` is the new major, if one was made. */
  ghost function TriedBlocks(layout: Layout, start: nat, bet: bool, need: int, place: Place, added: seq<Block>): seq<Block>
    requires start <= |layout| && (place.InGap? ==> place.i < |layout|)
  {
    match place
    case InGap(i, _) =>
      if !bet then layout[..i + 1] else if start <= i then layout[start..i + 1] else layout[start..] + layout[..i + 1]
    case NewBlock => (if bet then layout[start..] else []) + layout + if LastSkipped(layout, need) then [] else added
  }

  /** CASE 1 gave up on the last block, so that the new major is filled without being looked at. */
  ghost predicate LastSkipped(layout: Layout, need: int) { layout != [] && layout[|layout| - 1].Free() < need }

  lemma KnownInGap(layout: Layout, start: nat, bet: bool, startedBet: bool, need: int, i: nat, j: nat, added: seq<Block>,
                   bet0: (int, int), bet1: (int, int))
    requires Ruled(layout, need, start, bet, startedBet, i) && i < |layout| && Fits(layout[i], need)
    requires BetKnown(layout, layout, start, bet, startedBet, i + 1, bet0, bet1)
    ensures BetOver(TriedBlocks(layout, start, bet, need, InGap(i, j), added), bet0) == bet1
  {
    assert [] + layout[..i + 1] == layout[..i + 1];
  }

  lemma KnownSkipped(layout: Layout, start: nat, bet: bool, need: int, added: seq<Block>, bet0: (int, int), bet1: (int, int))
    requires BetKnown(layout, layout, start, bet, false, |layout|, bet0, bet1) && (added == [] || LastSkipped(layout, need))
    ensures BetOver(TriedBlocks(layout, start, bet, need, NewBlock, added), bet0) == bet1
  {
    var prefix: seq<Block> := if bet then layout[start..] else [];
    assert prefix + layout + [] == prefix + layout[..|layout|];
  }

  lemma KnownAdded(layout: Layout, e: Block, start: nat, bet: bool, need: int, bet0: (int, int), bet1: (int, int))
    requires BetKnown(layout, layout + [e], start, bet, false, |layout| + 1, bet0, bet1) && !LastSkipped(layout, need)
    ensures BetOver(TriedBlocks(layout, start, bet, need, NewBlock, [e]), bet0) == bet1
  {
    var prefix: seq<Block> := if bet then layout[start..] else [];
    assert prefix + layout + [e] == prefix + (layout + [e])[..|layout| + 1];
  }

  // ------------------------------------------------------------------ for the callers

  /** Free bytes of the listed block at an address. */
  ghost function FreeAt(layout: Layout, a: int): int {
    if Listed(layout, a) then var k :| 0 <= k < |layout| && layout[k].addr == a; layout[k].Free() else 0
  }

  lemma FreeAtIs(layout: Layout, k: nat)
    requires ValidLayout(layout) && k < |layout|
    ensures FreeAt(layout, layout[k].addr) == layout[k].Free()
  {
    hide ValidLayout;
    ListedIn(layout, k);
    var i :| 0 <= i < |layout| && layout[i].addr == layout[k].addr && FreeAt(layout, layout[k].addr) == layout[i].Free();
    BlockAddrsDistinct(layout, i, k);
  }

  /** The search starts at the best bet. */
  ghost predicate StartsAtBet(layout: Layout, bestBet: int, need: int) { bestBet != NULL && FreeAt(layout, bestBet) > need }

  /** The best bet malloc leaves: the block with the most free bytes of those it looked at, if more than the old one had. */
  ghost function BetAfterMalloc(layout: Layout, bestBet: int, start: nat, need: int, place: Place, added: seq<Block>): int
    requires start <= |layout| && (place.InGap? ==> place.i < |layout|)
  {
    var most := if bestBet == NULL then 0 else FreeAt(layout, bestBet);
    BetOver(TriedBlocks(layout, start, StartsAtBet(layout, bestBet, need), need, place, added), (bestBet, most)).0
  }

  /** An unsigned int read as an int. */
  function Int32(x: int): int {
    if x % WORD32 >= 0x8000_0000 then x % WORD32 - WORD32 else x % WORD32
  }

  /** The best bet free leaves once block i has lost a chunk: none if it was dropped, or the block if it now has more free bytes. */
  ghost function BetAfterFree(layout: Layout, i: nat, bestBet: int): int
    requires i < |layout|
  {
    var b := layout[i];
    if b.chunks == [] then if bestBet == b.addr then NULL else bestBet
    else if bestBet != NULL && Int32(b.Free()) > Int32(FreeAt(layout, bestBet)) then b.addr
    else bestBet
  }

  /** Below 2 GiB of free bytes the comparison is the plain one. */
  lemma BetBySize(layout: Layout, i: nat, bestBet: int)
    requires i < |layout| && layout[i].chunks != [] && bestBet != NULL
    requires 0 <= layout[i].Free() < 0x8000_0000 && 0 <= FreeAt(layout, bestBet) < 0x8000_0000
    ensures BetAfterFree(layout, i, bestBet) == if layout[i].Free() > FreeAt(layout, bestBet) then layout[i].addr else bestBet
  {
    hide FreeAt, Block.Free;
  }

  /** From there on it is not: a block with 2 GiB free counts for less than one with nothing free. */
  lemma BetMisjudged(layout: Layout, i: nat, bestBet: int)
    requires i < |layout| && layout[i].chunks != [] && bestBet != NULL
    requires layout[i].Free() == 0x8000_0000 && FreeAt(layout, bestBet) == 0
    ensures BetAfterFree(layout, i, bestBet) == bestBet
  {
    hide FreeAt, Block.Free;
  }

  /** The same for the live chunk whose header is at min. */
  ghost function BetAfterRelease(layout: Layout, min: int, bestBet: int): int {
    if Live(layout, min) then
      var (i, j) := IndexOf(layout, min); BetAfterFree(layout[i := Delete(layout[i], j)], i, bestBet)
    else bestBet
  }

  lemma BetFree(layout: Layout, root: int, bestBet: int, allocatedBytes: int, inuseBytes: int,
                majors: map<int, Major>, minors: map<int, Minor>, bytes: Bytes, k: nat)
    requires Image(layout, root, bestBet, allocatedBytes, inuseBytes, majors, minors, bytes)
    requires k < |layout| && layout[k].addr == bestBet
    ensures FreeAt(layout, bestBet) == layout[k].Free()
  {
    ImageParts(layout, root, bestBet, allocatedBytes, inuseBytes, majors, minors, bytes);
    FreeAtIs(layout, k);
  }

  lemma NothingTried(bestBet: int, need: int)
    ensures BetAfterMalloc([], bestBet, 0, need, NewBlock, []) == bestBet
  {
  }
}
