/** One CPU and a fixed set of threads: round robin inside a level, and a bound on waiting. */
module SchedFairness {
  import opened Common
  import opened SchedClock
  import opened SchedModel
  import opened SchedSafety

  /** A uniprocessor between ticks. */
  ghost predicate Solo(s: State) {
    Valid(s) && Runnable(s) && Safe(s) && |s.cpus| == 1 && Aligned(s, 0)
  }

  /** One turn of the priority counter, dispatching if the level it lands on has threads. */
  function Turn(threads: seq<seq<Tid>>, cpu: Cpu): Cpu {
    var clock := Advance(cpu.clock, |threads|);
    var k := clock.priority;
    if k < |threads| && k < |cpu.last| && threads[k] != [] then
      var i := Wrap(cpu.last[k] + 1, |threads[k]|);
      Cpu(Some(threads[k][i]), cpu.last[k := i], clock)
    else cpu.(clock := clock)
  }

  function TurnN(threads: seq<seq<Tid>>, cpu: Cpu, n: nat): Cpu {
    if n == 0 then cpu else Turn(threads, TurnN(threads, cpu, n - 1))
  }

  // ------------------------------------------------------------- a tick is some turns

  /** On one CPU the next thread of the level is always free, so a tick dispatches exactly it. */
  lemma SoloTick(s: State)
    requires Solo(s)
    ensures Solo(Tick(s, 0)) && Tick(s, 0).threads == s.threads
    ensures var cpu := s.cpus[0]; var clock := NextClock(s, cpu); var k := clock.priority;
            && k < |s.threads| && k < |cpu.last| && s.threads[k] != []
            && var i := Wrap(cpu.last[k] + 1, |s.threads[k]|);
               Tick(s, 0).cpus[0] == Cpu(Some(s.threads[k][i]), cpu.last[k := i], clock)
  {
    TickReady(s, 0);
    var cpu := s.cpus[0];
    var k := NextClock(s, cpu).priority;
    var i := Wrap(cpu.last[k] + 1, |s.threads[k]|);
    assert Eligible(s.threads[k][i], cpu.current, s.locked) by {
      if s.threads[k][i] in s.locked { assert Runs(s, s.threads[k][i]); }
    }
    assert PickIndex(s, 0) == Some(i);
    AlignedJudges(s, 0);
    TickSafeIff(s, 0);
    TickValid(s, 0);
    SoloAligned(s);
  }

  lemma SoloAligned(s: State)
    requires Solo(s) && (TickReady(s, 0); PickIndex(s, 0).Some?)
    ensures Aligned(Tick(s, 0), 0)
  {
    TickReady(s, 0);
    assert AllAligned(s);
    TickAligned(s, 0);
  }

  lemma {:induction false} EmptyTurns(threads: seq<seq<Tid>>, cpu: Cpu, n: nat)
    requires forall j | 1 <= j <= n :: !BusyAt(threads, cpu.clock, j)
    ensures TurnN(threads, cpu, n) == cpu.(clock := AdvanceN(cpu.clock, |threads|, n))
  {
    if n > 0 {
      EmptyTurns(threads, cpu, n - 1);
      assert !BusyAt(threads, cpu.clock, n);
    }
  }

  lemma OneTurn(threads: seq<seq<Tid>>, cpu: Cpu, n: nat)
    requires n >= 1
    ensures AdvanceN(cpu.clock, |threads|, n) == Advance(AdvanceN(cpu.clock, |threads|, n - 1), |threads|)
    ensures TurnN(threads, cpu, n) == Turn(threads, TurnN(threads, cpu, n - 1))
  {
  }

  lemma LastTurn(threads: seq<seq<Tid>>, cpu: Cpu, n: nat)
    requires n >= 1 && BusyAt(threads, cpu.clock, n) && forall j | 1 <= j < n :: !BusyAt(threads, cpu.clock, j)
    requires |cpu.last| == |threads|
    ensures var clock := AdvanceN(cpu.clock, |threads|, n);
            var k := clock.priority;
            var i := Wrap(cpu.last[k] + 1, |threads[k]|);
            i < |threads[k]| && TurnN(threads, cpu, n) == Cpu(Some(threads[k][i]), cpu.last[k := i], clock)
  {
    hide Advance;
    OneTurn(threads, cpu, n);
    hide TurnN, AdvanceN, BusyAt;
    EmptyTurns(threads, cpu, n - 1);
  }

  /** A tick is the turns its skip loop takes; only the last of them dispatches. */
  lemma TickIsTurns(s: State)
    requires Solo(s)
    ensures |s.cpus| == 1 && |Tick(s, 0).cpus| == 1 && Tick(s, 0).cpus[0] == TurnN(s.threads, s.cpus[0], Skip(s, s.cpus[0]))
    ensures 1 <= Skip(s, s.cpus[0]) && BusyAt(s.threads, s.cpus[0].clock, Skip(s, s.cpus[0]))
    ensures forall j | 1 <= j < Skip(s, s.cpus[0]) :: !BusyAt(s.threads, s.cpus[0].clock, j)
  {
    hide Tick, Solo, Skip, Valid, AdvanceN, Triangle;
    SoloCpu(s);
    var cpu := s.cpus[0];
    var n := Skip(s, cpu);
    SkipTerminates(s, cpu);
    SoloTick(s);
    LastTurn(s.threads, cpu, n);
  }

  ghost function TickN(s: State, j: nat): State
    requires Solo(s)
    ensures Solo(TickN(s, j)) && TickN(s, j).threads == s.threads
  {
    if j == 0 then s else SoloTick(TickN(s, j - 1)); Tick(TickN(s, j - 1), 0)
  }

  /** Turns of the counter used by the first j ticks. */
  ghost function TurnsOf(s: State, j: nat): nat
    requires Solo(s)
  {
    if j == 0 then 0 else TurnsOf(s, j - 1) + Skip(TickN(s, j - 1), TickN(s, j - 1).cpus[0])
  }

  lemma {:induction false} TurnSum(threads: seq<seq<Tid>>, cpu: Cpu, a: nat, b: nat)
    ensures TurnN(threads, TurnN(threads, cpu, a), b) == TurnN(threads, cpu, a + b)
  {
    if b > 0 { TurnSum(threads, cpu, a, b - 1); }
  }

  lemma {:induction false} TurnClock(threads: seq<seq<Tid>>, cpu: Cpu, n: nat)
    ensures TurnN(threads, cpu, n).clock == AdvanceN(cpu.clock, |threads|, n)
    ensures |TurnN(threads, cpu, n).last| == |cpu.last|
  {
    if n > 0 { TurnClock(threads, cpu, n - 1); }
  }

  lemma TickNStep(s: State, j: nat)
    requires Solo(s)
    ensures |s.cpus| == 1 && |TickN(s, j).cpus| == 1 && TickN(s, j).threads == s.threads && Solo(TickN(s, j))
    ensures j == 0 ==> TickN(s, j) == s && TurnsOf(s, j) == 0
    ensures j > 0 ==>
      var r := TickN(s, j - 1);
      && Solo(r) && |r.cpus| == 1 && r.threads == s.threads
      && CanTick(r, 0) && TickN(s, j) == Tick(r, 0) && TurnsOf(s, j) == TurnsOf(s, j - 1) + Skip(r, r.cpus[0])
  {
  }

  lemma TurnZero(threads: seq<seq<Tid>>, cpu: Cpu)
    ensures TurnN(threads, cpu, 0) == cpu
  {
  }

  lemma {:induction false} TicksAreTurns(s: State, j: nat)
    requires Solo(s)
    ensures |s.cpus| == 1 && |TickN(s, j).cpus| == 1
    ensures TickN(s, j).cpus[0] == TurnN(s.threads, s.cpus[0], TurnsOf(s, j))
  {
    hide *;
    TickNStep(s, j);
    if j == 0 {
      TurnZero(s.threads, s.cpus[0]);
    } else {
      TicksAreTurns(s, j - 1);
      var r := TickN(s, j - 1);
      TickIsTurns(r);
      TurnSum(s.threads, s.cpus[0], TurnsOf(s, j - 1), Skip(r, r.cpus[0]));
    }
  }

  lemma BusyLater(threads: seq<seq<Tid>>, c: Clock, a: nat, b: nat)
    ensures BusyAt(threads, AdvanceN(c, |threads|, a), b) <==> BusyAt(threads, c, a + b)
  {
    AdvanceSum(c, |threads|, a, b);
  }

  /** Every turn that lands on a level with threads is the end of some tick. */
  lemma {:induction false} TurnIsTickEnd(s: State, j0: nat, m: nat) returns (j: nat)
    requires Solo(s) && TurnsOf(s, j0) < m && BusyAt(s.threads, s.cpus[0].clock, m)
    ensures j0 < j && TurnsOf(s, j) == m
    decreases m - TurnsOf(s, j0)
  {
    hide *;
    TickNStep(s, j0);
    TickNStep(s, j0 + 1);
    var r := TickN(s, j0);
    var a := TurnsOf(s, j0);
    TickIsTurns(r);
    TicksAreTurns(s, j0);
    TurnClock(s.threads, s.cpus[0], a);
    BusyLater(s.threads, s.cpus[0].clock, a, m - a);
    if TurnsOf(s, j0 + 1) == m {
      j := j0 + 1;
    } else {
      j := TurnIsTickEnd(s, j0 + 1, m);
    }
  }

  // ------------------------------------------------------------------- round robin

  function Rotate(i: nat, v: nat, n: nat): nat { if v == 0 then i else Wrap(Rotate(i, v - 1, n) + 1, n) }

  lemma {:induction false} RotateClosed(i: nat, v: nat, n: nat)
    requires i < n && v <= n
    ensures Rotate(i, v, n) == if i + v < n then i + v else i + v - n
  {
    if v > 0 { RotateClosed(i, v - 1, n); }
  }

  /** Each visit to a level moves its saved index one place on, and no other visit moves it. */
  lemma {:induction false} LastRotates(threads: seq<seq<Tid>>, cpu: Cpu, k: nat, n: nat)
    requires ValidClock(cpu.clock, |threads|) && |cpu.last| == |threads| && k < |threads| && threads[k] != []
    ensures |TurnN(threads, cpu, n).last| == |threads|
    ensures TurnN(threads, cpu, n).last[k] == Rotate(cpu.last[k], Visits(cpu.clock, |threads|, k, n), |threads[k]|)
  {
    hide Advance, Wrap;
    if n > 0 {
      LastRotates(threads, cpu, k, n - 1);
      TurnClock(threads, cpu, n - 1);
      TurnLast(threads, TurnN(threads, cpu, n - 1), k);
      AdvanceNValid(cpu.clock, |threads|, n);
      hide Turn;
    }
  }

  lemma TurnLast(threads: seq<seq<Tid>>, cpu: Cpu, k: nat)
    requires |cpu.last| == |threads| && k < |threads| && threads[k] != []
    ensures |Turn(threads, cpu).last| == |threads|
    ensures Turn(threads, cpu).last[k] ==
              if Advance(cpu.clock, |threads|).priority == k then Wrap(cpu.last[k] + 1, |threads[k]|) else cpu.last[k]
  {
  }

  lemma AtLeast(n: nat, m: nat)
    requires m >= 1
    ensures n * m >= n
  {
  }

  lemma SoloCpu(s: State)
    requires Solo(s)
    ensures |s.cpus| == 1 && Runnable(s) && ValidClock(s.cpus[0].clock, |s.threads|) && |s.cpus[0].last| == |s.threads|
    ensures forall k | 0 <= k < |s.threads| :: s.cpus[0].last[k] < |s.threads[k]| || s.cpus[0].last[k] == 0
  {
  }

  /**
   Starvation bound: with one CPU, every thread of a level with n threads is dispatched
   by the level's n-th visit at the latest, hence within n * L(L+1)/2 turns of the counter.
   */
  lemma StarvationBound(s: State, k: nat, i: nat) returns (j: nat)
    requires Solo(s) && k < |s.threads| && i < |s.threads[k]|
    ensures TickN(s, j).cpus[0].current == Some(s.threads[k][i])
    ensures 1 <= TurnsOf(s, j) <= |s.threads[k]| * Triangle(|s.threads|)
    ensures 1 <= Visits(s.cpus[0].clock, |s.threads|, k, TurnsOf(s, j)) <= |s.threads[k]|
  {
    SoloCpu(s);
    var m := TurnThatDispatches(s.threads, s.cpus[0], k, i);
    hide *;
    TickNStep(s, 0);
    j := TurnIsTickEnd(s, 0, m);
    TicksAreTurns(s, j);
  }

  /** The turn at which thread i of level k is dispatched. */
  lemma TurnThatDispatches(threads: seq<seq<Tid>>, cpu: Cpu, k: nat, i: nat) returns (m: nat)
    requires ValidClock(cpu.clock, |threads|) && |cpu.last| == |threads| && k < |threads| && i < |threads[k]|
    requires cpu.last[k] < |threads[k]|
    ensures 1 <= m <= |threads[k]| * Triangle(|threads|) && BusyAt(threads, cpu.clock, m)
    ensures 1 <= Visits(cpu.clock, |threads|, k, m) <= |threads[k]|
    ensures TurnN(threads, cpu, m).current == Some(threads[k][i])
  {
    hide Turn, TurnN, AdvanceN, Visits, Triangle, Rotate;
    var n, L := |threads[k]|, |threads|;
    var v := if i > cpu.last[k] then i - cpu.last[k] else i + n - cpu.last[k];
    ManyCycles(cpu.clock, L, k, n);
    AtLeast(n, L - k);
    m := VisitAt(cpu.clock, L, k, v, n * Triangle(L));
    LastRotates(threads, cpu, k, m);
    RotateClosed(cpu.last[k], v, n);
    LastTurnDispatches(threads, cpu, k, m);
  }

  lemma LastTurnDispatches(threads: seq<seq<Tid>>, cpu: Cpu, k: nat, m: nat)
    requires ValidClock(cpu.clock, |threads|) && |cpu.last| == |threads| && k < |threads| && threads[k] != []
    requires 1 <= m && AdvanceN(cpu.clock, |threads|, m).priority == k
    ensures |TurnN(threads, cpu, m).last| == |threads| && TurnN(threads, cpu, m).last[k] < |threads[k]|
    ensures TurnN(threads, cpu, m).current == Some(threads[k][TurnN(threads, cpu, m).last[k]])
  {
    TurnClock(threads, cpu, m - 1);
  }

  // ------------------------------------------------------------------------ from boot

  /** Every state with a thread that a one-CPU run from boot reaches is one StarvationBound is about. */
  lemma SoloReached(levels: nat, events: seq<Event>)
    requires levels > 0 && Runnable(After(Booted(levels, 1), events))
    ensures Solo(After(Booted(levels, 1), events))
  {
    forall n | 0 <= n < |events| && events[n].TickOf? ensures Enough(Queues(levels, events[..n]).0, 1) {}
    EnoughThreadsSafe(levels, 1, events);
    MutualExclusion(levels, 1, events);
    AfterValid(levels, 1, events);
  }

  /** After any one-CPU run from boot, no thread waits longer than the bound. */
  lemma NoStarvation(levels: nat, events: seq<Event>, k: nat, i: nat) returns (j: nat)
    requires levels > 0
    requires var s := After(Booted(levels, 1), events); k < |s.threads| && i < |s.threads[k]|
    ensures var s := After(Booted(levels, 1), events);
            && Solo(s) && |s.cpus| == 1 && |TickN(s, j).cpus| == 1 && TickN(s, j).cpus[0].current == Some(s.threads[k][i])
            && 1 <= TurnsOf(s, j) <= |s.threads[k]| * Triangle(|s.threads|)
  {
    var s := After(Booted(levels, 1), events);
    assert s.threads[k] != [];
    SoloReached(levels, events);
    hide Solo, After, Booted;
    SoloCpu(s);
    j := StarvationBound(s, k, i);
    TickNStep(s, j);
  }
}
