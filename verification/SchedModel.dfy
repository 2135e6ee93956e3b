/**
 The scheduler as a state machine over any number of CPUs and priority levels.  A tick
 of one CPU is atomic, as the scheduler lock makes it.
 */
module SchedModel {
  import opened Common
  import opened SchedClock

  type Tid = nat

  /** Per-CPU locals. */
  datatype Cpu = Cpu(current: Option<Tid>, last: seq<nat>, clock: Clock)

  datatype State = State(threads: seq<seq<Tid>>, locked: set<Tid>, queued: set<Tid>, cpus: seq<Cpu>) {
    function Levels(): nat { |threads| }
  }

  ghost predicate Runnable(s: State) {
    exists k :: 0 <= k < |s.threads| && s.threads[k] != []
  }

  ghost predicate ValidCpu(s: State, c: Cpu) {
    && ValidClock(c.clock, s.Levels())
    && |c.last| == s.Levels()
    && (forall k | 0 <= k < s.Levels() :: c.last[k] < |s.threads[k]| || c.last[k] == 0)
    && (c.current.Some? ==> c.current.value in s.queued)
  }

  ghost predicate Valid(s: State) {
    && (forall c | 0 <= c < |s.cpus| :: ValidCpu(s, s.cpus[c]))
    && (forall k, i | 0 <= k < |s.threads| && 0 <= i < |s.threads[k]| :: s.threads[k][i] in s.queued)
    && (forall k, i, l, j | 0 <= k < |s.threads| && 0 <= i < |s.threads[k]| && 0 <= l < |s.threads| && 0 <= j < |s.threads[l]|
                            && s.threads[k][i] == s.threads[l][j] :: k == l && i == j)
  }

  // ------------------------------------------------------------- skipping empty levels

  /** Turns of the do-while loop until a level with threads, at most n + 1 of them. */
  function SkipCount(threads: seq<seq<Tid>>, c: Clock, n: nat): nat
    decreases n
  {
    var d := Advance(c, |threads|);
    if d.priority >= |threads| || threads[d.priority] != [] || n == 0 then 1
    else 1 + SkipCount(threads, d, n - 1)
  }

  /** Turn j lands on a level with threads. */
  predicate BusyAt(threads: seq<seq<Tid>>, c: Clock, j: nat) {
    var k := AdvanceN(c, |threads|, j).priority;
    k < |threads| && threads[k] != []
  }

  lemma AdvanceFirst(threads: seq<seq<Tid>>, c: Clock, j: nat)
    ensures BusyAt(threads, c, j + 1) <==> BusyAt(threads, Advance(c, |threads|), j)
  {
    assert AdvanceN(c, |threads|, 1) == Advance(AdvanceN(c, |threads|, 0), |threads|);
    AdvanceSum(c, |threads|, 1, j);
  }

  lemma {:induction false} SkipFinds(threads: seq<seq<Tid>>, c: Clock, n: nat, m: nat)
    requires ValidClock(c, |threads|) && 1 <= m <= n + 1 && BusyAt(threads, c, m)
    ensures var k := SkipCount(threads, c, n);
            1 <= k <= m && BusyAt(threads, c, k) && forall j | 1 <= j < k :: !BusyAt(threads, c, j)
    decreases n
  {
    var d := Advance(c, |threads|);
    assert BusyAt(threads, d, 0) <==> threads[d.priority] != [];
    hide BusyAt;
    AdvanceFirst(threads, c, 0);
    if !BusyAt(threads, d, 0) && n > 0 {
      AdvanceFirst(threads, c, m - 1);
      SkipFinds(threads, d, n - 1, m - 1);
      var k := SkipCount(threads, d, n - 1);
      AdvanceFirst(threads, c, k);
      forall j | 1 <= j < k + 1 ensures !BusyAt(threads, c, j) {
        AdvanceFirst(threads, c, j - 1);
      }
    }
  }

  function Skip(s: State, c: Cpu): nat { SkipCount(s.threads, c.clock, Triangle(s.Levels())) }

  function NextClock(s: State, c: Cpu): Clock { AdvanceN(c.clock, s.Levels(), Skip(s, c)) }

  /** With a thread anywhere, the loop stops within one full cycle, at the first level that has one. */
  lemma SkipTerminates(s: State, c: Cpu)
    requires ValidClock(c.clock, s.Levels()) && Runnable(s)
    ensures 1 <= Skip(s, c) <= Triangle(s.Levels())
    ensures ValidClock(NextClock(s, c), s.Levels()) && s.threads[NextClock(s, c).priority] != []
    ensures forall j | 1 <= j < Skip(s, c) :: !BusyAt(s.threads, c.clock, j)
  {
    var k :| 0 <= k < |s.threads| && s.threads[k] != [];
    ProportionalShare(c.clock, s.Levels(), k);
    var m := VisitAt(c.clock, s.Levels(), k, 1, Triangle(s.Levels()));
    SkipFinds(s.threads, c.clock, Triangle(s.Levels()), m);
    AdvanceNValid(c.clock, s.Levels(), Skip(s, c));
  }

  // ------------------------------------------------------------------------ the pick

  predicate Eligible(t: Tid, current: Option<Tid>, locked: set<Tid>) {
    current == Some(t) || t !in locked
  }

  /** Index `off` places after orig + 1, wrapping once. */
  function Wrap(x: nat, n: nat): nat { if x < n then x else if x - n < n then x - n else 0 }

  /** sched_get_next_thread's scan from offset off on. */
  function Scan(level: seq<Tid>, current: Option<Tid>, locked: set<Tid>, orig: nat, off: nat): (r: Option<nat>)
    requires level != []
    ensures r.Some? ==> r.value < |level| && Eligible(level[r.value], current, locked)
    decreases |level| - off
  {
    if off >= |level| then None
    else
      var i := Wrap(orig + 1 + off, |level|);
      if Eligible(level[i], current, locked) then Some(i)
      else Scan(level, current, locked, orig, off + 1)
  }

  /** Places from orig + 1 on, counting round a level of n threads, to index i; orig itself comes last. */
  function Distance(i: nat, orig: nat, n: nat): int { if i > orig then i - orig - 1 else i + n - orig - 1 }

  /** No index nearer to orig + 1 than `far`, and at least `near` away, holds an eligible thread. */
  ghost predicate NoneBetween(level: seq<Tid>, current: Option<Tid>, locked: set<Tid>, orig: nat, near: int, far: int) {
    forall j | 0 <= j < |level| && near <= Distance(j, orig, |level|) < far :: !Eligible(level[j], current, locked)
  }

  /** Index i is eligible and every index before it on the way round from orig + 1 is not. */
  ghost predicate IsNextEligible(level: seq<Tid>, current: Option<Tid>, locked: set<Tid>, orig: nat, i: nat) {
    && i < |level| && Eligible(level[i], current, locked)
    && NoneBetween(level, current, locked, orig, 0, Distance(i, orig, |level|))
  }

  lemma {:induction false} ScanFrom(level: seq<Tid>, current: Option<Tid>, locked: set<Tid>, orig: nat, off: nat)
    requires orig < |level| && off <= |level|
    ensures match Scan(level, current, locked, orig, off)
            case Some(i) => off <= Distance(i, orig, |level|) && NoneBetween(level, current, locked, orig, off, Distance(i, orig, |level|))
            case None => NoneBetween(level, current, locked, orig, off, |level|)
    decreases |level| - off
  {
    if off < |level| {
      assert Distance(Wrap(orig + 1 + off, |level|), orig, |level|) == off;
      ScanFrom(level, current, locked, orig, off + 1);
    }
  }

  /**
   The thread sched_get_next_thread picks, for every level, saved index and set of locks: the
   next eligible one round the level, and none exactly when no thread of the level is eligible.
   */
  lemma ScanIff(level: seq<Tid>, current: Option<Tid>, locked: set<Tid>, orig: nat, i: nat)
    requires orig < |level|
    ensures Scan(level, current, locked, orig, 0) == Some(i) <==> IsNextEligible(level, current, locked, orig, i)
    ensures Scan(level, current, locked, orig, 0) == None <==> forall j | 0 <= j < |level| :: !Eligible(level[j], current, locked)
  {
    hide Eligible;
    ScanFrom(level, current, locked, orig, 0);
  }

  function PickIndex(s: State, c: nat): Option<nat>
    requires c < |s.cpus| && NextClock(s, s.cpus[c]).priority < |s.threads|
    requires s.threads[NextClock(s, s.cpus[c]).priority] != []
    requires NextClock(s, s.cpus[c]).priority < |s.cpus[c].last|
  {
    var cpu := s.cpus[c];
    var k := NextClock(s, cpu).priority;
    Scan(s.threads[k], cpu.current, s.locked, cpu.last[k], 0)
  }

  // ------------------------------------------------------------------------- one tick

  ghost predicate CanTick(s: State, c: nat) {
    Valid(s) && Runnable(s) && c < |s.cpus|
  }

  lemma TickReady(s: State, c: nat)
    requires CanTick(s, c)
    ensures var k := NextClock(s, s.cpus[c]).priority;
            k < |s.threads| && s.threads[k] != [] && |s.cpus[c].last| == |s.threads| && s.cpus[c].last[k] < |s.threads[k]|
    ensures s.cpus[c].clock.priority < |s.threads|
  {
    assert ValidCpu(s, s.cpus[c]);
    SkipTerminates(s, s.cpus[c]);
  }

  function SetCpu(s: State, c: nat, cpu: Cpu, locked: set<Tid>): State
    requires c < |s.cpus|
  {
    s.(cpus := s.cpus[c := cpu], locked := locked)
  }

  /** The test `same priority and same index as before` of schedule. */
  ghost predicate LooksSame(s: State, c: nat)
    requires CanTick(s, c) && (TickReady(s, c); PickIndex(s, c).Some?)
  {
    TickReady(s, c);
    var cpu := s.cpus[c];
    NextClock(s, cpu).priority == cpu.clock.priority && PickIndex(s, c).value == cpu.last[cpu.clock.priority]
  }

  /** The thread a successful pick returns. */
  ghost function Picked(s: State, c: nat): Tid
    requires CanTick(s, c) && (TickReady(s, c); PickIndex(s, c).Some?)
  {
    TickReady(s, c);
    s.threads[NextClock(s, s.cpus[c]).priority][PickIndex(s, c).value]
  }

  /** schedule on CPU c, once it holds the scheduler lock. */
  ghost function Tick(s: State, c: nat): State
    requires CanTick(s, c)
  {
    TickReady(s, c);
    var cpu := s.cpus[c];
    var clock := NextClock(s, cpu);
    var k := clock.priority;
    var moved := cpu.(clock := clock);
    match PickIndex(s, c)
    case None => SetCpu(s, c, moved, s.locked)
    case Some(i) =>
      var t := s.threads[k][i];
      var locked := if cpu.current == Some(t) then s.locked else s.locked + {t};
      if cpu.current.Some? && LooksSame(s, c) then SetCpu(s, c, moved, locked)
      else
        SetCpu(s, c, moved.(current := Some(t), last := cpu.last[k := i]),
               if cpu.current.Some? then locked - {cpu.current.value} else locked)
  }

  /** sched_enqueue */
  function Enqueue(s: State, t: Tid, k: nat): State
    requires k < |s.threads|
  {
    if t in s.queued then s
    else s.(queued := s.queued + {t}, threads := s.threads[k := s.threads[k] + [t]])
  }

  // ---------------------------------------------------------------- mutual exclusion

  ghost predicate Runs(s: State, t: Tid) {
    exists c :: 0 <= c < |s.cpus| && s.cpus[c].current == Some(t)
  }

  /** Each thread is current on at most one CPU, and its lock bit says whether it is. */
  ghost predicate Safe(s: State) {
    && (forall c, d | 0 <= c < d < |s.cpus| && s.cpus[c].current.Some? :: s.cpus[c].current != s.cpus[d].current)
    && (forall t :: t in s.locked <==> Runs(s, t))
  }

  /** The thread a CPU runs is the one its saved priority and index point at. */
  ghost predicate Aligned(s: State, c: nat)
    requires c < |s.cpus|
  {
    var cpu := s.cpus[c];
    cpu.current.Some? ==>
      && cpu.clock.priority < |s.threads| && cpu.clock.priority < |cpu.last|
      && cpu.last[cpu.clock.priority] < |s.threads[cpu.clock.priority]|
      && s.threads[cpu.clock.priority][cpu.last[cpu.clock.priority]] == cpu.current.value
  }

  ghost predicate AllAligned(s: State) {
    forall c | 0 <= c < |s.cpus| :: Aligned(s, c)
  }

  /** The same-thread test gives the right answer. */
  ghost predicate JudgedRight(s: State, c: nat)
    requires CanTick(s, c)
  {
    TickReady(s, c);
    PickIndex(s, c).Some? && s.cpus[c].current.Some? ==> (LooksSame(s, c) <==> s.cpus[c].current.value == Picked(s, c))
  }

  /** The pick found no thread although the CPU is running one. */
  ghost predicate FailsWhileRunning(s: State, c: nat)
    requires CanTick(s, c)
  {
    TickReady(s, c);
    s.cpus[c].current.Some? && PickIndex(s, c).None?
  }
}
