/** The physical frame bitmap: one bit per frame, set when the frame is in use. */
module Pmm {

  /** 1 << k, for a bit position inside one byte. */
  function Mask(k: nat): bv8
    requires k < 8
  {
    [1, 2, 4, 8, 16, 32, 64, 128][k]
  }

  lemma MaskShifts(k: nat)
    requires k < 7
    ensures Mask(0) == 1 && Mask(k + 1) == Mask(k) << 1
  {
  }

  predicate Meets(b: bv8, x: bv8) { b & x != 0 }

  predicate BitOf(b: bv8, k: nat)
    requires k < 8
  {
    Meets(b, Mask(k))
  }

  ghost predicate OneBit(x: bv8) {
    x == 1 || x == 2 || x == 4 || x == 8 || x == 16 || x == 32 || x == 64 || x == 128
  }

  lemma MaskAlgebra(b: bv8, x: bv8, y: bv8)
    requires OneBit(x) && OneBit(y)
    ensures Meets(b | x, y) <==> x == y || Meets(b, y)
    ensures Meets(b & !x, y) <==> x != y && Meets(b, y)
  {
  }

  lemma MaskInjective(k: nat, m: nat)
    requires k < 8 && m < 8
    ensures OneBit(Mask(k)) && OneBit(Mask(m)) && (Mask(k) == Mask(m) <==> k == m)
  {
  }

  /** Setting or clearing one bit of a byte changes that bit and no other. */
  lemma BitAlgebra(b: bv8, k: nat, m: nat)
    requires k < 8 && m < 8
    ensures BitOf(b | Mask(k), m) <==> k == m || BitOf(b, m)
    ensures BitOf(b & !Mask(k), m) <==> k != m && BitOf(b, m)
  {
    hide Mask, Meets, OneBit;
    MaskInjective(k, m);
    MaskAlgebra(b, Mask(k), Mask(m));
  }

  // ------------------------------------------------------------------ the bitmap's size

  const PAGE := 4096
  const FRAMES_PER_PAGE := 8 * PAGE // the frames one page of bitmap stands for

  /** init_pmm's bitmap_size: the whole pages that hold frames / 8 bytes. */
  function BitmapSize(highest: nat): nat {
    ((highest - highest % PAGE) / PAGE / 8 + PAGE - 1) / PAGE * PAGE
  }

  /** Dividing the frame count by 8 rounds down, so up to seven last frames can be left without a bit. */
  lemma BitmapCoversIff(highest: nat)
    ensures var frames := highest / PAGE;
            frames <= 8 * BitmapSize(highest) <==> frames % FRAMES_PER_PAGE == 0 || frames % FRAMES_PER_PAGE >= 8
  {
    var frames := highest / PAGE;
    assert (highest - highest % PAGE) / PAGE == frames;
    var q, r := frames / FRAMES_PER_PAGE, frames % FRAMES_PER_PAGE;
    assert frames / 8 == q * PAGE + r / 8;
    assert (frames / 8 + PAGE - 1) / PAGE == q + (r / 8 + PAGE - 1) / PAGE;
  }

  /** The smallest memory with a frame that has no bit: one frame more than a page of bitmap holds. */
  lemma FrameWithoutBit()
    ensures (FRAMES_PER_PAGE + 1) * PAGE / PAGE > 8 * BitmapSize((FRAMES_PER_PAGE + 1) * PAGE)
  {
  }

  // ------------------------------------------------------------------------ the bitmap

  class FrameBitmap {
    const bitmap: array<bv8>
    const frames: nat // highest_page / PAGE_SIZE

    /** Every frame has a bit. */
    ghost predicate Valid() { frames <= 8 * bitmap.Length }

    predicate Used(f: nat)
      reads bitmap
      requires f < 8 * bitmap.Length
    {
      BitOf(bitmap[f / 8], f % 8)
    }

    ghost function UsedFrames(): set<nat>
      reads bitmap
    {
      set f: nat | f < 8 * bitmap.Length && Used(f)
    }

    ghost function FreeFrames(): set<nat>
      reads bitmap
    {
      set f: nat | f < frames && f !in UsedFrames()
    }

    /** Every bit starts set; init_pmm then frees the usable ranges. */
    constructor (highest: nat)
      ensures fresh(bitmap) && frames == highest / PAGE && bitmap.Length == BitmapSize(highest)
      ensures Valid() <==> frames % FRAMES_PER_PAGE == 0 || frames % FRAMES_PER_PAGE >= 8
      ensures forall f: nat :: f in UsedFrames() <==> f < 8 * bitmap.Length
    {
      frames := highest / PAGE;
      bitmap := new bv8[BitmapSize(highest)](_ => 0xff);
      new;
      BitmapCoversIff(highest);
      forall f: nat | f < 8 * bitmap.Length ensures f in UsedFrames() {
        assert bitmap[f / 8] == 0xff && BitOf(0xff, f % 8);
      }
    }

    /** BIT_SET */
    method SetBit(f: nat)
      requires f < 8 * bitmap.Length
      modifies bitmap
      ensures UsedFrames() == old(UsedFrames()) + {f}
    {
      hide BitOf, Mask;
      ghost var was := bitmap[..];
      bitmap[f / 8] := bitmap[f / 8] | Mask(f % 8);
      forall g: nat | g < 8 * bitmap.Length ensures Used(g) <==> old(Used(g)) || g == f {
        BitAlgebra(was[f / 8], f % 8, g % 8);
      }
    }

    /** BIT_CLEAR, which is pmm_free_page */
    method FreePage(f: nat)
      requires f < 8 * bitmap.Length
      modifies bitmap
      ensures UsedFrames() == old(UsedFrames()) - {f}
    {
      hide BitOf, Mask;
      ghost var was := bitmap[..];
      bitmap[f / 8] := bitmap[f / 8] & !Mask(f % 8);
      forall g: nat | g < 8 * bitmap.Length ensures Used(g) <==> old(Used(g)) && g != f {
        BitAlgebra(was[f / 8], f % 8, g % 8);
      }
    }

    /** pmm_alloc_pages */
    method AllocPages(f: nat, pages: nat)
      requires f + pages <= 8 * bitmap.Length
      modifies bitmap
      ensures UsedFrames() == old(UsedFrames()) + FrameRun(f, pages)
    {
      hide UsedFrames, Used;
      var i := 0;
      while i < pages
        invariant i <= pages && UsedFrames() == old(UsedFrames()) + FrameRun(f, i)
      {
        SetBit(f + i);
        i := i + 1;
      }
    }

    /**
     pmalloc.  The search tests the first frame of a run only: it takes the run from the lowest
     free frame on, whatever the other frames are.  The run was wholly free, so that the used
     frames grow by its length, exactly when no frame behind its first one was in use.
     */
    method Pmalloc(pages: nat) returns (r: Taken)
      requires Valid()
      modifies bitmap
      ensures r.Halt? <==> pages == 0 || forall g: nat | g < frames :: g in old(UsedFrames())
      ensures !r.Halt? ==> IsLowestFree(frames, old(UsedFrames()), r.f)
      ensures r.PastBitmap? <==> !r.Halt? && r.f + pages > 8 * bitmap.Length
      ensures UsedFrames() == old(UsedFrames()) + if r.Run? then FrameRun(r.f, pages) else {}
      ensures r.Run? ==>
        (|UsedFrames()| == |old(UsedFrames())| + pages <==> forall g: nat | r.f < g < r.f + pages :: g !in old(UsedFrames()))
    {
      hide BitOf, FrameRun;
      var i := 0;
      while i < frames
        invariant i <= frames && unchanged(bitmap)
        invariant pages > 0 ==> forall g: nat | g < i :: g in UsedFrames()
      {
        var j := 0;
        while j < pages && !Used(i)
          invariant j <= pages && unchanged(bitmap)
          invariant j > 0 ==> !Used(i)
          invariant j == pages ==> pages == 0
        {
          if j == pages - 1 {
            assert i !in UsedFrames();
            if i + pages > 8 * bitmap.Length {
              return PastBitmap(i);
            }
            RunWasFreeIff(UsedFrames(), i, pages);
            AllocPages(i, pages);
            return Run(i);
          }
          j := j + 1;
        }
        i := i + 1;
      }
      r := Halt;
    }
  }

  /** The kernel halts, marks frames past the bitmap, or takes a run. */
  datatype Taken = Halt | PastBitmap(f: nat) | Run(f: nat)

  /** f is the lowest free frame. */
  ghost predicate IsLowestFree(frames: nat, used: set<nat>, f: nat) {
    f < frames && f !in used && forall g: nat | g < f :: g in used
  }

  ghost function FrameRun(f: nat, pages: nat): (r: set<nat>)
    ensures forall g: nat :: g in r <==> f <= g < f + pages
  {
    if pages == 0 then {} else FrameRun(f, pages - 1) + {f + pages - 1}
  }

  lemma {:induction false} RunSize(f: nat, pages: nat)
    ensures |FrameRun(f, pages)| == pages
  {
    if pages > 0 {
      RunSize(f, pages - 1);
    }
  }

  /** Adding a run that starts free grows the used frames by its length exactly when it was all free. */
  lemma RunWasFreeIff(used: set<nat>, f: nat, pages: nat)
    requires f !in used
    ensures |used + FrameRun(f, pages)| == |used| + pages <==> forall g: nat | f < g < f + pages :: g !in used
  {
    RunSize(f, pages);
    var more := FrameRun(f, pages) - used;
    assert used + FrameRun(f, pages) == used + more && used * more == {};
    if forall g: nat | f < g < f + pages :: g !in used {
      assert more == FrameRun(f, pages);
    } else {
      var g: nat :| f < g < f + pages && g in used;
      assert more < FrameRun(f, pages);
      SmallerSet(more, FrameRun(f, pages));
    }
  }

  /** With frame 1 free and frames 0 and 2 in use, the two frames taken are 1 and 2. */
  lemma TakesUsedFrame()
    ensures var used: set<nat> := {0, 2};
            && IsLowestFree(3, used, 1) && FrameRun(1, 2) == {1, 2} && |used + FrameRun(1, 2)| == |used| + 1
  {
    var used: set<nat> := {0, 2};
    assert FrameRun(1, 2) == {1, 2};
    assert used + {1, 2} == used + {1};
  }

  lemma SmallerSet(a: set<nat>, b: set<nat>)
    requires a < b
    ensures |a| < |b|
  {
    assert b == a + (b - a) && b - a != {};
  }
}
