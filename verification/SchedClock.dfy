/**
 The triangular priority counter: a CPU sweeps levels 0..peg, then restarts at 0 with
 the peg one higher, wrapping from the last level back to 0.
 */
module SchedClock {

  datatype Clock = Clock(priority: nat, peg: nat)

  ghost predicate ValidClock(c: Clock, levels: nat) { c.priority <= c.peg < levels }

  /** One turn of the do-while loop in schedule. */
  function Advance(c: Clock, levels: nat): Clock {
    if c.priority + 1 > c.peg then
      Clock(0, if c.peg + 1 == levels then 0 else c.peg + 1)
    else Clock(c.priority + 1, c.peg)
  }

  function AdvanceN(c: Clock, levels: nat, n: nat): Clock {
    if n == 0 then c else Advance(AdvanceN(c, levels, n - 1), levels)
  }

  /** How many of the next n turns land on level k. */
  function Visits(c: Clock, levels: nat, k: nat, n: nat): nat {
    if n == 0 then 0
    else Visits(c, levels, k, n - 1) + if AdvanceN(c, levels, n).priority == k then 1 else 0
  }

  /** n(n+1)/2 */
  function Triangle(n: nat): nat { if n == 0 then 0 else Triangle(n - 1) + n }

  lemma TriangleClosedForm(n: nat)
    ensures 2 * Triangle(n) == n * (n + 1)
  {
  }

  lemma {:induction false} AdvanceNValid(c: Clock, levels: nat, n: nat)
    requires ValidClock(c, levels)
    ensures ValidClock(AdvanceN(c, levels, n), levels)
  {
    if n > 0 { AdvanceNValid(c, levels, n - 1); }
  }

  lemma {:induction false} AdvanceSum(c: Clock, levels: nat, a: nat, b: nat)
    ensures AdvanceN(AdvanceN(c, levels, a), levels, b) == AdvanceN(c, levels, a + b)
  {
    if b > 0 { AdvanceSum(c, levels, a, b - 1); }
  }

  lemma {:induction false} VisitsSum(c: Clock, levels: nat, k: nat, a: nat, b: nat)
    ensures Visits(c, levels, k, a + b) == Visits(c, levels, k, a) + Visits(AdvanceN(c, levels, a), levels, k, b)
  {
    if b > 0 {
      VisitsSum(c, levels, k, a, b - 1);
      AdvanceSum(c, levels, a, b);
    }
  }

  // --------------------------------------------------------------------- one row

  /** Inside a row the counter climbs by one. */
  lemma {:induction false} Climb(g: nat, levels: nat, k: nat, n: nat)
    requires n <= g < levels
    ensures AdvanceN(Clock(0, g), levels, n) == Clock(n, g)
    ensures Visits(Clock(0, g), levels, k, n) == if 0 < k <= n then 1 else 0
  {
    if n > 0 { Climb(g, levels, k, n - 1); }
  }

  /** From the end of row g-1, the g+1 turns of row g visit each of its levels once. */
  lemma Row(c: Clock, g: nat, levels: nat, k: nat)
    requires g < levels && Advance(c, levels) == Clock(0, g)
    ensures AdvanceN(c, levels, g + 1) == Clock(g, g)
    ensures Visits(c, levels, k, g + 1) == if k <= g then 1 else 0
  {
    assert AdvanceN(c, levels, 1) == Advance(AdvanceN(c, levels, 0), levels);
    AdvanceSum(c, levels, 1, g);
    VisitsSum(c, levels, k, 1, g);
    Climb(g, levels, k, g);
    assert Visits(c, levels, k, 1) == Visits(c, levels, k, 0) + if k == 0 then 1 else 0;
  }

  function RowEnd(levels: nat): Clock
    requires levels > 0
  {
    Clock(levels - 1, levels - 1)
  }

  /** The first n rows, started from the end of the last row. */
  lemma {:induction false} Rows(levels: nat, k: nat, n: nat)
    requires 0 < levels && n <= levels
    ensures AdvanceN(RowEnd(levels), levels, Triangle(n)) == if n == 0 then RowEnd(levels) else Clock(n - 1, n - 1)
    ensures Visits(RowEnd(levels), levels, k, Triangle(n)) == if k < n then n - k else 0
  {
    if n > 0 {
      Rows(levels, k, n - 1);
      var c := AdvanceN(RowEnd(levels), levels, Triangle(n - 1));
      Row(c, n - 1, levels, k);
      AdvanceSum(RowEnd(levels), levels, Triangle(n - 1), n);
      VisitsSum(RowEnd(levels), levels, k, Triangle(n - 1), n);
    }
  }

  /** The order of the turns of a cycle: level 0, then 0 and 1, then 0, 1 and 2, up to all levels. */
  lemma TurnOrder(levels: nat, row: nat, k: nat)
    requires k <= row < levels
    ensures AdvanceN(RowEnd(levels), levels, Triangle(row) + 1 + k) == Clock(k, row)
  {
    hide Triangle, AdvanceN, Visits;
    var e := RowEnd(levels);
    Rows(levels, k, row);
    OneTurnOn(e, levels, Triangle(row));
    AdvanceSum(e, levels, Triangle(row) + 1, k);
    Climb(row, levels, k, k);
  }

  lemma OneTurnOn(c: Clock, levels: nat, n: nat)
    ensures AdvanceN(c, levels, n + 1) == Advance(AdvanceN(c, levels, n), levels)
  {
  }

  // ------------------------------------------------------------------- full cycle

  /** Every clock value is reached from the row end. */
  lemma {:induction false} Reached(c: Clock, levels: nat) returns (n: nat)
    requires ValidClock(c, levels)
    ensures AdvanceN(RowEnd(levels), levels, n) == c
    decreases c.peg, c.priority
  {
    if c.priority > 0 {
      n := Reached(Clock(c.priority - 1, c.peg), levels);
    } else if c.peg > 0 {
      n := Reached(Clock(c.peg - 1, c.peg - 1), levels);
    } else {
      n := 0;
    }
    n := n + 1;
  }

  /** Starting a cycle one turn later does not change its visit count. */
  lemma {:induction false} CycleShift(levels: nat, k: nat, n: nat)
    requires 0 < levels
    ensures var c := AdvanceN(RowEnd(levels), levels, n);
            && AdvanceN(c, levels, Triangle(levels)) == c
            && Visits(c, levels, k, Triangle(levels)) == Visits(RowEnd(levels), levels, k, Triangle(levels))
  {
    var e, t := RowEnd(levels), Triangle(levels);
    if n == 0 {
      Rows(levels, k, levels);
    } else {
      CycleShift(levels, k, n - 1);
      var b := AdvanceN(e, levels, n - 1);
      var c := Advance(b, levels);
      assert AdvanceN(b, levels, 1) == Advance(AdvanceN(b, levels, 0), levels);
      AdvanceSum(b, levels, 1, t);
      AdvanceSum(b, levels, t, 1);
      VisitsSum(b, levels, k, 1, t);
      VisitsSum(b, levels, k, t, 1);
    }
  }

  /**
   Proportional share: any L(L+1)/2 consecutive turns, from any clock value, visit
   level k exactly L-k times and return to the same clock value.
   */
  lemma ProportionalShare(c: Clock, levels: nat, k: nat)
    requires ValidClock(c, levels) && k < levels
    ensures Visits(c, levels, k, Triangle(levels)) == levels - k
    ensures AdvanceN(c, levels, Triangle(levels)) == c
  {
    var n := Reached(c, levels);
    CycleShift(levels, k, n);
    Rows(levels, k, levels);
  }

  lemma Distribute(n: nat, t: nat)
    requires n > 0
    ensures n * t == (n - 1) * t + t
  {
  }

  lemma NoTurns(c: Clock, levels: nat, k: nat)
    ensures Visits(c, levels, k, 0) == 0 && AdvanceN(c, levels, 0) == c
  {
  }

  lemma OneCycleMore(c: Clock, levels: nat, k: nat, m: nat)
    requires ValidClock(c, levels) && k < levels && AdvanceN(c, levels, m) == c
    ensures Visits(c, levels, k, m + Triangle(levels)) == Visits(c, levels, k, m) + levels - k
    ensures AdvanceN(c, levels, m + Triangle(levels)) == c
  {
    hide Triangle, AdvanceN, Visits;
    ProportionalShare(c, levels, k);
    AdvanceSum(c, levels, m, Triangle(levels));
    VisitsSum(c, levels, k, m, Triangle(levels));
  }

  lemma {:induction false} ManyCycles(c: Clock, levels: nat, k: nat, n: nat)
    requires ValidClock(c, levels) && k < levels
    ensures Visits(c, levels, k, n * Triangle(levels)) == n * (levels - k)
    ensures AdvanceN(c, levels, n * Triangle(levels)) == c
  {
    hide Triangle, AdvanceN, Visits;
    if n == 0 {
      NoTurns(c, levels, k);
    } else {
      ManyCycles(c, levels, k, n - 1);
      OneCycleMore(c, levels, k, (n - 1) * Triangle(levels));
      Distribute(n, Triangle(levels));
      Distribute(n, levels - k);
    }
  }

  lemma {:induction false} VisitsMonotone(c: Clock, levels: nat, k: nat, a: nat, b: nat)
    requires a <= b
    ensures Visits(c, levels, k, a) <= Visits(c, levels, k, b)
    decreases b - a
  {
    if a < b { VisitsMonotone(c, levels, k, a + 1, b); }
  }

  /** The turn at which a given visit happens. */
  lemma {:induction false} VisitAt(c: Clock, levels: nat, k: nat, v: nat, n: nat) returns (m: nat)
    requires 1 <= v <= Visits(c, levels, k, n)
    ensures 1 <= m <= n && Visits(c, levels, k, m) == v && AdvanceN(c, levels, m).priority == k
  {
    if Visits(c, levels, k, n - 1) >= v {
      m := VisitAt(c, levels, k, v, n - 1);
    } else {
      m := n;
    }
  }
}
