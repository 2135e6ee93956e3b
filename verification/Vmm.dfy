/**
 The virtual memory manager: page tables built on demand in physical frames, one
 top-level table per pagemap, upper halves shared.  A method that returns false
 stands for the kernel halting because pmalloc found no free frame.
 */
module Vmm {
  import opened Common
  import opened PageTables
  import Pmm

  class Vmm {
    const pmm: Pmm.FrameBitmap
    var ram: Ram
    var pagemaps: seq<nat> // top-level frames; the kernel's is first
    ghost var shape: Shape

    /** Table frames are in use and frame 0 is reserved. */
    ghost predicate FramesHeld()
      reads this, pmm.bitmap
    {
      && pmm.Valid() && pmm.frames <= |ram|
      && 0 in pmm.UsedFrames()
      && (forall f | f in shape.level :: f in pmm.UsedFrames())
    }

    /** The tables form trees below the pagemaps' top-level frames. */
    ghost predicate Consistent()
      reads this, pmm.bitmap
    {
      && FramesHeld()
      && Tree(ram, shape)
      && pagemaps != [] && pagemaps[0] == shape.kernel
      && (forall m | 0 <= m < |pagemaps| :: pagemaps[m] in shape.level && shape.level[pagemaps[m]] == 4)
      && (forall m, k | 0 <= m < k < |pagemaps| :: pagemaps[m] != pagemaps[k])
    }

    ghost predicate Valid()
      reads this, pmm.bitmap
    {
      Consistent() && UpperFilled(ram, shape, ENTRIES)
    }

    /** Memory before init_vmm: any contents, no tables. */
    constructor (pmm: Pmm.FrameBitmap, ram: Ram)
      requires pmm.Valid() && pmm.frames <= |ram| && 0 in pmm.UsedFrames()
      requires forall f | 0 <= f < |ram| :: |ram[f]| == ENTRIES
      ensures this.pmm == pmm && this.ram == ram && pagemaps == [] && FramesHeld() && shape.level == map[]
    {
      this.pmm := pmm;
      this.ram := ram;
      pagemaps := [];
      shape := Shape(0, map[], map[]);
    }

    /** What pagemap m holds for a path. */
    ghost function Translate(m: nat, p: Path): nat
      reads this
      requires m < |pagemaps|
    {
      Walk(ram, pagemaps[m], p)
    }

    twostate predicate SameTranslations()
      reads this
    {
      && pagemaps == old(pagemaps)
      && forall m, p: Path | 0 <= m < |pagemaps| && p.Valid() :: Walk(ram, pagemaps[m], p) == old(Walk(ram, pagemaps[m], p))
    }

    /** pcalloc(1): a zeroed frame that is no table yet. */
    method Pcalloc() returns (ok: bool, g: nat)
      requires FramesHeld()
      modifies this`ram, pmm.bitmap
      ensures ok <==> old(pmm.FreeFrames()) != {}
      ensures ok ==> g < |old(ram)| && 0 < g && g !in shape.level && ram == old(ram)[g := Zeros()]
      ensures ok ==> g in old(pmm.FreeFrames()) && pmm.UsedFrames() == old(pmm.UsedFrames()) + {g}
      ensures !ok ==> ram == old(ram) && pmm.UsedFrames() == old(pmm.UsedFrames())
      ensures pmm.FreeFrames() == if ok then old(pmm.FreeFrames()) - {g} else {}
    {
      var r := pmm.Pmalloc(1);
      ok, g := r.Run?, if r.Halt? then 0 else r.f;
      if ok {
        ram := ram[g := Zeros()];
      }
      assert ok ==> Pmm.FrameRun(g, 1) == {g};
    }

    /** The frames in use grew by exactly the tables added. */
    twostate predicate TablesTaken()
      reads this, pmm.bitmap
    {
      Took(old(pmm.UsedFrames()), old(shape).level.Keys, pmm.UsedFrames(), shape.level.Keys)
    }

    /** vmm_get_next_level: follow slot i of a table, hanging an empty table there first if need be. */
    method GetNextLevel(f: nat, i: nat) returns (ok: bool, g: nat)
      requires Consistent() && f in shape.level && shape.level[f] >= 2 && i < ENTRIES
      requires shape.level[f] == 4 && i >= UPPER ==>
        Present(At(ram, f, i)) || forall t | t in shape.level && shape.level[t] == 4 :: t == shape.kernel
      modifies this`ram, this`shape, pmm.bitmap
      ensures Consistent() && SameTranslations()
      ensures forall h | h in old(shape).level :: h in shape.level && shape.level[h] == old(shape).level[h]
      ensures ok ==> Present(At(ram, f, i)) && g == FrameOf(At(ram, f, i)) && g in shape.level && shape.level[g] == shape.level[f] - 1
      ensures forall h, k: nat | h in old(shape).level && Present(At(old(ram), h, k)) :: At(ram, h, k) == At(old(ram), h, k)
      ensures forall h | h in shape.level && shape.level[h] == 4 :: h in old(shape).level
      ensures shape.kernel == old(shape).kernel && TablesTaken()
      ensures ok <==> Present(At(old(ram), f, i)) || old(pmm.FreeFrames()) != {}
      ensures Present(At(old(ram), f, i)) ==> ram == old(ram) && pmm.FreeFrames() == old(pmm.FreeFrames())
      ensures ok && !Present(At(old(ram), f, i)) ==>
        g in old(pmm.FreeFrames()) && pmm.FreeFrames() == old(pmm.FreeFrames()) - {g} && forall k: nat :: At(ram, g, k) == 0
      ensures !ok ==> pmm.FreeFrames() == {}
    {
      hide Tree, Walk, Or, Pmm.FrameBitmap.UsedFrames, Pmm.FrameBitmap.FreeFrames;
      InTree(ram, shape, f);
      if At(ram, f, i) % 2 == 1 {
        Child(ram, shape, f, i);
        return true, FrameOf(ram[f][i]);
      }
      ok, g := Pcalloc();
      if ok {
        OrPageFlags(g * PAGE, 7);
        HangTable(f, i, g, Or(g * PAGE, 7), old(ram));
      }
    }

    /** Write entry e, which points at the zeroed frame g, into slot i of table f. */
    method HangTable(f: nat, i: nat, g: nat, e: nat, ghost was: Ram)
      requires FramesHeld() && f in shape.level && shape.level[f] >= 2 && i < ENTRIES && g in pmm.UsedFrames()
      requires CanLink(was, shape, f, i, g, e) && Present(e) && ram == was[g := Zeros()]
      modifies this`ram, this`shape
      ensures FramesHeld() && Tree(ram, shape) && shape.kernel == old(shape).kernel && forall k: nat :: At(ram, g, k) == 0
      ensures shape.level == old(shape).level[g := old(shape).level[f] - 1] && Present(At(ram, f, i)) && g == FrameOf(At(ram, f, i))
      ensures forall top, p: Path | top in old(shape).level && old(shape).level[top] == 4 && p.Valid() ::
        Walk(ram, top, p) == Walk(was, top, p)
      ensures forall h, k: nat | h in old(shape).level && Present(At(was, h, k)) :: At(ram, h, k) == At(was, h, k)
    {
      hide Tree, Walk, CanLink, Grown, Pmm.FrameBitmap.UsedFrames, Pmm.FrameBitmap.Valid;
      CanLinkFacts(was, shape, f, i, g, e);
      LinkedTable(was, shape, f, i, g, e);
      ram := Store(ram, f, i, e);
      assert ram == Link(was, f, i, g, e);
      shape := Grown(shape, f, i, g);
    }

    ghost predicate OnlyKernelTop()
      reads this
    {
      forall t | t in shape.level && shape.level[t] == 4 :: t == shape.kernel
    }

    /** The kernel pagemap before its upper half is filled: one zeroed table. */
    method StartTree(top: nat)
      requires FramesHeld() && 0 < top < |ram| && top in pmm.UsedFrames() && ram[top] == Zeros()
      requires forall f | 0 <= f < |ram| :: |ram[f]| == ENTRIES
      modifies this`pagemaps, this`shape
      ensures Consistent() && OnlyKernelTop() && pagemaps == [top] && shape.kernel == top && UpperFilled(ram, shape, UPPER)
      ensures shape.level.Keys == {top}
      ensures forall p: Path | p.Valid() :: Walk(ram, top, p) == 0
    {
      pagemaps := [top];
      shape := Shape(top, map[top := 4], map[]);
      ZeroTop(ram, top);
    }

    /** The start of init_vmm: a kernel pagemap whose 256 upper slots all have a table. */
    method StartKernel() returns (ok: bool)
      requires FramesHeld() && pagemaps == [] && shape.level == map[]
      requires forall f | 0 <= f < |ram| :: |ram[f]| == ENTRIES
      modifies this, pmm.bitmap
      ensures ok ==> Valid() && |pagemaps| == 1 && forall p: Path | p.Valid() :: Translate(0, p) == 0
      ensures TablesTaken() && (!ok ==> pmm.FreeFrames() == {})
    {
      hide Tree, Walk, At, UpperFilled, Pmm.FrameBitmap.UsedFrames, Pmm.FrameBitmap.FreeFrames;
      var top;
      ok, top := Pcalloc();
      if !ok {
        return;
      }
      StartTree(top);
      hide Consistent;
      var i := UPPER;
      while i < ENTRIES
        invariant UPPER <= i <= ENTRIES && Consistent() && pagemaps == [top] && UpperFilled(ram, shape, i)
        invariant OnlyKernelTop() && shape.kernel == top && top in shape.level && shape.level[top] == 4
        invariant forall p: Path | p.Valid() :: Walk(ram, top, p) == 0
        invariant ok && TablesTaken()
      {
        var g;
        ghost var was, before, used := ram, shape, pmm.UsedFrames();
        ok, g := GetNextLevel(top, i);
        TookTrans(old(pmm.UsedFrames()), old(shape).level.Keys, used, before.level.Keys, pmm.UsedFrames(), shape.level.Keys);
        if !ok {
          return;
        }
        FillStep(was, ram, before, shape, i);
        i := i + 1;
      }
    }

    /** The loop that copies the kernel's upper entries into a zeroed top-level frame. */
    method CopyUpper(kernel: nat, g: nat, ghost was: Ram)
      requires g < |was| && kernel != g && ram == was[g := Zeros()]
      modifies this`ram
      ensures ram == was[g := TopRow(was, kernel)]
    {
      var i := UPPER;
      while i < ENTRIES
        invariant UPPER <= i <= ENTRIES && |ram| == |was| && |ram[g]| == ENTRIES
        invariant ram == was[g := ram[g]]
        invariant forall k | 0 <= k < ENTRIES :: ram[g][k] == if UPPER <= k < i then At(was, kernel, k) else 0
      {
        ram := Store(ram, g, i, At(ram, kernel, i));
        i := i + 1;
      }
      assert ram[g] == TopRow(was, kernel);
    }

    /** vmm_create_new_pagemap: a fresh top-level frame with the kernel's upper half copied in. */
    method CreatePagemap() returns (ok: bool)
      requires Valid()
      modifies this, pmm.bitmap
      ensures Valid()
      ensures !ok ==> SameTranslations()
      ensures ok ==> |pagemaps| == |old(pagemaps)| + 1 && old(pagemaps) < pagemaps
      ensures ok ==> forall m, p: Path | 0 <= m < |old(pagemaps)| && p.Valid() :: Translate(m, p) == old(Translate(m, p))
      ensures ok ==> forall p: Path | p.Valid() ::
        Translate(|old(pagemaps)|, p) == if p.i4 < UPPER then 0 else old(Translate(0, p))
      ensures TablesTaken() && (!ok ==> pmm.FreeFrames() == {})
      ensures ok <==> old(pmm.FreeFrames()) != {}
    {
      hide Tree, Walk, TopRow, UpperFilled, Pmm.FrameBitmap.UsedFrames, Pmm.FrameBitmap.FreeFrames;
      var g;
      ok, g := Pcalloc();
      if !ok {
        return;
      }
      ghost var was := old(ram);
      var kernel := pagemaps[0];
      CopyUpper(kernel, g, was);
      TopKeepsTree(was, shape, g);
      forall m, p: Path | 0 <= m < |pagemaps| && p.Valid()
        ensures Walk(ram, pagemaps[m], p) == Walk(was, pagemaps[m], p)
      {
        NewTopWalks(was, shape, g, pagemaps[m], p);
      }
      forall p: Path | p.Valid() ensures Walk(ram, g, p) == if p.i4 < UPPER then 0 else Walk(was, kernel, p) {
        NewTopWalks(was, shape, g, kernel, p);
      }
      shape := WithTop(shape, g);
      pagemaps := pagemaps + [g];
    }

    /** The three steps from a top-level table to the level-1 table of a path. */
    method Descend(m: nat, p: Path) returns (ok: bool, f1: nat)
      requires Valid() && m < |pagemaps| && p.Valid()
      modifies this`ram, this`shape, pmm.bitmap
      ensures Valid() && SameTranslations()
      ensures ok ==> Leaf(ram, pagemaps[m], 4, p) == Some(f1)
      ensures TablesTaken() && (!ok ==> pmm.FreeFrames() == {})
      ensures ok <==> Missing(old(ram), old(pagemaps)[m], 4, p) <= |old(pmm.FreeFrames())|
    {
      hide Walk, Tree, Missing, Pmm.FrameBitmap.UsedFrames, Pmm.FrameBitmap.FreeFrames;
      f1 := 0;
      var top := pagemaps[m];
      UpperPresent(ram, shape, top, p);
      var f3, f2;
      ok, f3 := NextLevel(top, 4, p);
      if !ok {
        return;
      }
      ghost var u, t := pmm.UsedFrames(), shape.level.Keys;
      ok, f2 := NextLevel(f3, 3, p);
      TookTrans(old(pmm.UsedFrames()), old(shape).level.Keys, u, t, pmm.UsedFrames(), shape.level.Keys);
      if !ok {
        return;
      }
      u, t := pmm.UsedFrames(), shape.level.Keys;
      ok, f1 := NextLevel(f2, 2, p);
      TookTrans(old(pmm.UsedFrames()), old(shape).level.Keys, u, t, pmm.UsedFrames(), shape.level.Keys);
      NothingBelowLeaf(ram, f1, p);
    }

    /** One step down a path, which needs a frame exactly when the slot has no table. */
    method NextLevel(f: nat, level: nat, p: Path) returns (ok: bool, g: nat)
      requires Consistent() && f in shape.level && shape.level[f] == level >= 2 && p.Valid()
      requires level == 4 && p.i4 >= UPPER ==> Present(At(ram, f, p.i4))
      modifies this`ram, this`shape, pmm.bitmap
      ensures Consistent() && SameTranslations()
      ensures forall h | h in old(shape).level :: h in shape.level && shape.level[h] == old(shape).level[h]
      ensures ok ==>
        && Present(At(ram, f, p.Index(level))) && g == FrameOf(At(ram, f, p.Index(level)))
        && g in shape.level && shape.level[g] == level - 1
      ensures forall h, k: nat | h in old(shape).level && Present(At(old(ram), h, k)) :: At(ram, h, k) == At(old(ram), h, k)
      ensures shape.kernel == old(shape).kernel && TablesTaken() && (!ok ==> pmm.FreeFrames() == {})
      ensures !ok ==> Missing(old(ram), f, level, p) > |old(pmm.FreeFrames())|
      ensures ok ==> Missing(ram, g, level - 1, p) - |pmm.FreeFrames()| == Missing(old(ram), f, level, p) - |old(pmm.FreeFrames())|
    {
      hide Walk, Tree, Leaf, Pmm.FrameBitmap.UsedFrames, Pmm.FrameBitmap.FreeFrames;
      InTree(ram, shape, f);
      ok, g := GetNextLevel(f, p.Index(level));
      if ok {
        MissingStep(old(ram), ram, f, level, p, g);
      }
    }

    /** Only the pairs that share the slot see the entry; every other translation is as before. */
    twostate predicate Written(m: nat, p: Path, e: nat)
      reads this
      requires m < |old(pagemaps)|
    {
      && pagemaps == old(pagemaps)
      && forall k, q: Path | 0 <= k < |pagemaps| && q.Valid() ::
           Walk(ram, pagemaps[k], q) ==
             if SameSlot(pagemaps[m], p, pagemaps[k], q) then e else old(Walk(ram, pagemaps[k], q))
    }

    method WriteEntry(m: nat, p: Path, e: nat) returns (ok: bool)
      requires Valid() && m < |pagemaps| && p.Valid()
      modifies this`ram, this`shape, pmm.bitmap
      ensures Valid()
      ensures if ok then Written(m, p, e) else SameTranslations()
      ensures TablesTaken() && (!ok ==> pmm.FreeFrames() == {})
      ensures ok <==> Missing(old(ram), old(pagemaps)[m], 4, p) <= |old(pmm.FreeFrames())|
    {
      hide Tree, Walk, Store, UpperFilled, Leaf, Missing, Pmm.FrameBitmap.UsedFrames, Pmm.FrameBitmap.FreeFrames;
      var f1;
      ok, f1 := Descend(m, p);
      if !ok {
        return;
      }
      ghost var was := ram;
      LeafIsTable(ram, shape, pagemaps[m], 4, p);
      StoreKeepsTree(ram, shape, f1, p.i1, e);
      ram := Store(ram, f1, p.i1, e);
      forall k, q: Path | 0 <= k < |pagemaps| && q.Valid()
        ensures Walk(ram, pagemaps[k], q) == if SameSlot(pagemaps[m], p, pagemaps[k], q) then e else Walk(was, pagemaps[k], q)
      {
        StoreIsFlatUpdate(was, shape, pagemaps[m], p, e, pagemaps[k], q);
      }
    }

    /** vmm_map_page */
    method MapPage(m: nat, phys: nat, va: nat, flags: nat) returns (ok: bool)
      requires Valid() && m < |pagemaps|
      modifies this`ram, this`shape, pmm.bitmap
      ensures Valid()
      ensures if ok then Written(m, PathOf(va), Or(phys, flags)) else SameTranslations()
      ensures TablesTaken() && (!ok ==> pmm.FreeFrames() == {})
      ensures ok <==> Missing(old(ram), old(pagemaps)[m], 4, PathOf(va)) <= |old(pmm.FreeFrames())|
    {
      ok := WriteEntry(m, PathOf(va), Or(phys, flags));
    }

    /** vmm_unmap_page */
    method UnmapPage(m: nat, va: nat) returns (ok: bool)
      requires Valid() && m < |pagemaps|
      modifies this`ram, this`shape, pmm.bitmap
      ensures Valid()
      ensures if ok then Written(m, PathOf(va), 0) else SameTranslations()
      ensures TablesTaken() && (!ok ==> pmm.FreeFrames() == {})
      ensures ok <==> Missing(old(ram), old(pagemaps)[m], 4, PathOf(va)) <= |old(pmm.FreeFrames())|
    {
      ok := WriteEntry(m, PathOf(va), 0);
    }

    /** vmm_virt_to_phys: the mapped page's address, 0 if unmapped; tables it adds change no translation. */
    method VirtToPhys(m: nat, va: nat) returns (ok: bool, phys: nat)
      requires Valid() && m < |pagemaps|
      modifies this`ram, this`shape, pmm.bitmap
      ensures Valid() && SameTranslations()
      ensures ok ==> phys == Address(Translate(m, PathOf(va)))
      ensures TablesTaken() && (!ok ==> pmm.FreeFrames() == {})
      ensures ok <==> Missing(old(ram), old(pagemaps)[m], 4, PathOf(va)) <= |old(pmm.FreeFrames())|
    {
      hide Tree, WalkFrom, Leaf, UpperFilled, PathOf, Missing, Pmm.FrameBitmap.UsedFrames, Pmm.FrameBitmap.FreeFrames;
      var f1;
      var p := PathOf(va);
      ok, f1 := Descend(m, p);
      if !ok {
        return false, 0;
      }
      LeafEntry(ram, pagemaps[m], 4, p);
      var e := At(ram, f1, p.i1);
      if e % 2 == 0 {
        return true, 0;
      }
      return true, e - e % PAGE;
    }

    /** A map, unmap or lookup whose path already reaches a level-1 table needs no frame. */
    lemma ReachedNeedsNone(m: nat, p: Path)
      requires m < |pagemaps| && Leaf(ram, pagemaps[m], 4, p).Some?
      ensures Missing(ram, pagemaps[m], 4, p) == 0 <= |pmm.FreeFrames()|
    {
      NothingMissingIff(ram, pagemaps[m], 4, p);
    }

    /** Frames a call takes if there are as many. */
    ghost function FramesNeeded(call: Call): nat
      reads this
      requires !call.Create? ==> call.m < |pagemaps|
    {
      if call.Create? then 1 else Missing(ram, pagemaps[call.m], 4, PathOf(call.va))
    }

    /** Every pagemap's tables hold what the run so far last wrote. */
    ghost predicate Reflects(calls: seq<Call>)
      reads this
    {
      && |pagemaps| == Created(calls)
      && forall m, p: Path | 0 <= m < |pagemaps| && p.Valid() :: Walk(ram, pagemaps[m], p) == LastEntry(calls, m, p)
    }

    /** In every state all pagemaps translate every upper-half path alike. */
    lemma UpperHalfShared(m: nat, k: nat, p: Path)
      requires Valid() && m < |pagemaps| && k < |pagemaps| && p.Valid() && p.i4 >= UPPER
      ensures Translate(m, p) == Translate(k, p)
    {
      SharedLeaf(ram, shape, pagemaps[m], pagemaps[k], p);
    }

    /**
     Two runs that make the same calls on pagemap m leave it with the same lower half, whatever
     they do with other pagemaps.
     */
    lemma LowerHalfIsolated(other: Vmm, calls: seq<Call>, calls': seq<Call>, m: nat, p: Path)
      requires Reflects(calls) && other.Reflects(calls') && m < |pagemaps| && m < |other.pagemaps|
      requires p.Valid() && p.i4 < UPPER && Only(calls, m) == Only(calls', m)
      ensures Translate(m, p) == other.Translate(m, p)
    {
      OnlyMatters(calls, m, p);
      OnlyMatters(calls', m, p);
    }

    method StepCreate(ghost front: seq<Call>) returns (ok: bool)
      requires Valid() && WellFormed(front) && Reflects(front)
      modifies this, pmm.bitmap
      ensures Valid()
      ensures ok ==> Reflects(front + [Create])
      ensures TablesTaken() && (!ok ==> pmm.FreeFrames() == {})
      ensures ok <==> old(pmm.FreeFrames()) != {}
    {
      hide Walk, Tree, UpperFilled, WellFormed, Pmm.FrameBitmap.UsedFrames, Pmm.FrameBitmap.FreeFrames;
      ghost var calls, n := front + [Create], |pagemaps|;
      assert calls[..|calls| - 1] == front;
      ok := CreatePagemap();
      if ok {
        forall m, p: Path | 0 <= m <= n && p.Valid() ensures Walk(ram, pagemaps[m], p) == LastEntry(calls, m, p) {
          if m < n { assert Translate(m, p) == old(Translate(m, p)); }
          else if p.i4 < UPPER { NothingBeforeCreation(front, n, p); assert Translate(n, p) == 0; }
          else { UpperEntryShared(front, 0, n, p); assert Translate(n, p) == old(Translate(0, p)); }
        }
      }
    }

    method StepMap(m: nat, phys: nat, va: nat, flags: nat, ghost front: seq<Call>) returns (ok: bool)
      requires Valid() && Reflects(front) && m < Created(front)
      modifies this, pmm.bitmap
      ensures Valid()
      ensures ok ==> Reflects(front + [Map(m, phys, va, flags)])
      ensures TablesTaken() && (!ok ==> pmm.FreeFrames() == {})
      ensures ok <==> Missing(old(ram), old(pagemaps)[m], 4, PathOf(va)) <= |old(pmm.FreeFrames())|
    {
      hide Walk, Tree, UpperFilled, PathOf, Or, Missing, Pmm.FrameBitmap.UsedFrames, Pmm.FrameBitmap.FreeFrames;
      assert (front + [Map(m, phys, va, flags)])[..|front|] == front;
      ok := MapPage(m, phys, va, flags);
    }

    method StepUnmap(m: nat, va: nat, ghost front: seq<Call>) returns (ok: bool)
      requires Valid() && Reflects(front) && m < Created(front)
      modifies this, pmm.bitmap
      ensures Valid()
      ensures ok ==> Reflects(front + [Unmap(m, va)])
      ensures TablesTaken() && (!ok ==> pmm.FreeFrames() == {})
      ensures ok <==> Missing(old(ram), old(pagemaps)[m], 4, PathOf(va)) <= |old(pmm.FreeFrames())|
    {
      hide Walk, Tree, UpperFilled, PathOf, Or, Missing, Pmm.FrameBitmap.UsedFrames, Pmm.FrameBitmap.FreeFrames;
      assert (front + [Unmap(m, va)])[..|front|] == front;
      ok := UnmapPage(m, va);
    }

    method StepLookup(m: nat, va: nat, ghost front: seq<Call>) returns (ok: bool, phys: nat)
      requires Valid() && Reflects(front) && m < Created(front)
      modifies this, pmm.bitmap
      ensures Valid()
      ensures ok ==> Reflects(front + [Lookup(m, va)]) && phys == Address(LastEntry(front, m, PathOf(va)))
      ensures TablesTaken() && (!ok ==> pmm.FreeFrames() == {})
      ensures ok <==> Missing(old(ram), old(pagemaps)[m], 4, PathOf(va)) <= |old(pmm.FreeFrames())|
    {
      hide Walk, Tree, UpperFilled, Or, PathOf, Address, Consistent, Missing, Pmm.FrameBitmap.UsedFrames, Pmm.FrameBitmap.FreeFrames;
      assert (front + [Lookup(m, va)])[..|front|] == front;
      ok, phys := VirtToPhys(m, va);
    }

    lemma NothingMapped()
      requires Valid() && |pagemaps| == 1 && forall p: Path | p.Valid() :: Translate(0, p) == 0
      ensures Reflects([])
    {
    }

    /** The identity and physical-memory mappings of init_vmm: two pages a turn. */
    method MapLow() returns (ok: bool)
      requires Valid() && Reflects([])
      modifies this, pmm.bitmap
      ensures Valid()
      ensures ok ==> Reflects(LowCalls(LOW_PAGES))
      ensures TablesTaken() && (!ok ==> pmm.FreeFrames() == {})
    {
      hide Consistent, UpperFilled, Reflects, Created, Missing, PathOf, Or, Took, Pmm.FrameBitmap.UsedFrames, Pmm.FrameBitmap.FreeFrames;
      TookNone(pmm.UsedFrames(), shape.level.Keys);
      var n := 0;
      while n < LOW_PAGES
        invariant n <= LOW_PAGES && Valid() && Reflects(LowCalls(n)) && TablesTaken()
      {
        var i := (n + 1) * PAGE;
        LowCreated(n);
        ghost var front := LowCalls(n);
        ghost var u, t := pmm.UsedFrames(), shape.level.Keys;
        ok := StepMap(0, i, i, 3, front);
        TookTrans(old(pmm.UsedFrames()), old(shape).level.Keys, u, t, pmm.UsedFrames(), shape.level.Keys);
        if !ok {
          return;
        }
        MapCreatesNothing(front, Map(0, i, i, 3));
        front := front + [Map(0, i, i, 3)];
        u, t := pmm.UsedFrames(), shape.level.Keys;
        ok := StepMap(0, i, i + PHYS_MEM_OFFSET, 3, front);
        TookTrans(old(pmm.UsedFrames()), old(shape).level.Keys, u, t, pmm.UsedFrames(), shape.level.Keys);
        if !ok {
          return;
        }
        LowStep(n);
        n := n + 1;
      }
      ok := true;
    }

    /** The kernel-image mappings of init_vmm. */
    method MapKernel() returns (ok: bool)
      requires Valid() && Reflects(LowCalls(LOW_PAGES))
      modifies this, pmm.bitmap
      ensures Valid()
      ensures ok ==> Reflects(BootCalls(KERNEL_PAGES))
      ensures TablesTaken() && (!ok ==> pmm.FreeFrames() == {})
    {
      hide Consistent, UpperFilled, Reflects, Created, Missing, PathOf, Or, Took, Pmm.FrameBitmap.UsedFrames, Pmm.FrameBitmap.FreeFrames;
      TookNone(pmm.UsedFrames(), shape.level.Keys);
      var n := 0;
      BootStart();
      while n < KERNEL_PAGES
        invariant n <= KERNEL_PAGES && Valid() && Reflects(BootCalls(n)) && TablesTaken()
      {
        var i := n * PAGE;
        BootCreated(n);
        ghost var u, t := pmm.UsedFrames(), shape.level.Keys;
        ok := StepMap(0, i, i + KERNEL_MEM_OFFSET, 7, BootCalls(n));
        TookTrans(old(pmm.UsedFrames()), old(shape).level.Keys, u, t, pmm.UsedFrames(), shape.level.Keys);
        if !ok {
          return;
        }
        BootStep(n);
        n := n + 1;
      }
      ok := true;
    }

    /** init_vmm: the tables hold exactly what its mapping loops last wrote. */
    method InitVmm() returns (ok: bool)
      requires FramesHeld() && pagemaps == [] && shape.level == map[]
      requires forall f | 0 <= f < |ram| :: |ram[f]| == ENTRIES
      modifies this, pmm.bitmap
      ensures ok ==> Valid() && Reflects(BootCalls(KERNEL_PAGES))
      ensures TablesTaken() && (!ok ==> pmm.FreeFrames() == {})
    {
      hide Consistent, UpperFilled, Reflects, Pmm.FrameBitmap.UsedFrames, Pmm.FrameBitmap.FreeFrames;
      ok := StartKernel();
      if ok {
        NothingMapped();
        ghost var u, t := pmm.UsedFrames(), shape.level.Keys;
        ok := MapLow();
        TookTrans(old(pmm.UsedFrames()), old(shape).level.Keys, u, t, pmm.UsedFrames(), shape.level.Keys);
        if ok {
          u, t := pmm.UsedFrames(), shape.level.Keys;
          ok := MapKernel();
          TookTrans(old(pmm.UsedFrames()), old(shape).level.Keys, u, t, pmm.UsedFrames(), shape.level.Keys);
        }
      }
    }

    /** What init_vmm maps, for every address. */
    lemma BootTranslation(va: nat)
      requires Reflects(BootCalls(KERNEL_PAGES))
      ensures |pagemaps| == 1 && Translate(0, PathOf(va)) == BootEntry(PageOf(va))
    {
      BootCreated(KERNEL_PAGES);
      BootIs(KERNEL_PAGES, va);
      hide BootCalls;
    }

    /** One call; `front` is the run before it. */
    method Step(call: Call, ghost front: seq<Call>, answers0: seq<nat>) returns (ok: bool, answers: seq<nat>)
      requires Valid() && WellFormed(front + [call]) && Reflects(front) && answers0 == Answers(front)
      modifies this, pmm.bitmap
      ensures Valid()
      ensures ok ==> Reflects(front + [call]) && answers == Answers(front + [call])
      ensures TablesTaken() && (!ok ==> pmm.FreeFrames() == {})
      ensures !call.Create? ==> call.m < |old(pagemaps)|
      ensures ok <==> old(FramesNeeded(call) <= |pmm.FreeFrames()|)
    {
      assert (front + [call])[..|front|] == front && (front + [call])[|front|] == call;
      assert !call.Create? ==> call.m < Created(front);
      FrontWellFormed(front, call);
      assert !call.Create? ==> call.m < |pagemaps|;
      hide Consistent, UpperFilled, Reflects, WellFormed, Missing, Pmm.FrameBitmap.UsedFrames, Pmm.FrameBitmap.FreeFrames;
      answers := answers0;
      match call
      case Map(m, phys, va, flags) => ok := StepMap(m, phys, va, flags, front);
      case Unmap(m, va) => ok := StepUnmap(m, va, front);
      case Lookup(m, va) =>
        var phys;
        ok, phys := StepLookup(m, va, front);
        answers := answers + [phys];
      case Create => ok := StepCreate(front);
    }

    /**
     Any run of map, unmap, lookup and create calls on top of any run `front`, such as the one
     init_vmm makes, over any number of pagemaps: the four-level walk of every page in every
     pagemap is exactly the last entry written for it, and lookups answer accordingly.
     */
    method Run(ghost front: seq<Call>, answers0: seq<nat>, calls: seq<Call>) returns (ok: bool, answers: seq<nat>)
      requires Valid() && Reflects(front) && answers0 == Answers(front) && WellFormed(front + calls)
      modifies this, pmm.bitmap
      ensures Valid()
      ensures ok ==> Reflects(front + calls) && answers == Answers(front + calls)
      ensures TablesTaken() && (!ok ==> pmm.FreeFrames() == {})
    {
      hide Walk, Tree, UpperFilled, Reflects, Answers, Consistent, FramesNeeded, Pmm.FrameBitmap.UsedFrames, Pmm.FrameBitmap.FreeFrames;
      answers := answers0;
      var n := 0;
      assert front + calls[..0] == front;
      while n < |calls|
        invariant n <= |calls| && Valid() && Reflects(front + calls[..n]) && answers == Answers(front + calls[..n])
        invariant TablesTaken()
      {
        assert front + calls[..n + 1] == (front + calls[..n]) + [calls[n]];
        assert (front + calls)[..|front| + n + 1] == front + calls[..n + 1];
        PrefixWellFormed(front + calls, |front| + n + 1);
        ghost var u, t := pmm.UsedFrames(), shape.level.Keys;
        ok, answers := Step(calls[n], front + calls[..n], answers);
        TookTrans(old(pmm.UsedFrames()), old(shape).level.Keys, u, t, pmm.UsedFrames(), shape.level.Keys);
        if !ok {
          return;
        }
        n := n + 1;
      }
      assert calls[..|calls|] == calls;
      ok := true;
    }
  }
}
