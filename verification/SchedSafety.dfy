/** Mutual exclusion of threads over whole runs, and exactly when one tick keeps it. */
module SchedSafety {
  import opened Common
  import opened SchedClock
  import opened SchedModel

  /** Saved indices stay in range and the thread vectors are untouched by a tick. */
  lemma TickValid(s: State, c: nat)
    requires CanTick(s, c)
    ensures var s' := Tick(s, c);
            && Valid(s') && Runnable(s') && s'.threads == s.threads && s'.queued == s.queued && |s'.cpus| == |s.cpus|
            && (forall d | 0 <= d < |s.cpus| && d != c :: s'.cpus[d] == s.cpus[d])
  {
    TickReady(s, c);
    var s' := Tick(s, c);
    var cpu := s.cpus[c];
    assert ValidCpu(s, cpu);
    SkipTerminates(s, cpu);
    assert ValidCpu(s', s'.cpus[c]);
    forall d | 0 <= d < |s.cpus| ensures ValidCpu(s', s'.cpus[d]) {
      if d != c { assert ValidCpu(s, s.cpus[d]); }
    }
    assert Runnable(s') by { var k :| 0 <= k < |s.threads| && s.threads[k] != []; assert s'.threads[k] != []; }
  }

  /** Safe states after CPU c's current thread and the lock set change. */
  lemma SafeAfter(s: State, s': State, c: nat)
    requires c < |s.cpus| == |s'.cpus| && Safe(s)
    requires forall d | 0 <= d < |s.cpus| && d != c :: s'.cpus[d] == s.cpus[d]
    requires s'.cpus[c].current.Some? ==> s'.cpus[c].current == s.cpus[c].current || s'.cpus[c].current.value !in s.locked
    ensures Safe(s') <==>
      s'.locked == s.locked - (if s.cpus[c].current.Some? then {s.cpus[c].current.value} else {})
                            + (if s'.cpus[c].current.Some? then {s'.cpus[c].current.value} else {})
  {
  }

  /**
   Exactly when a tick keeps mutual exclusion: when schedule's same-thread test agrees
   with whether the picked thread is the running one.
   */
  lemma TickSafeIff(s: State, c: nat)
    requires CanTick(s, c) && Safe(s)
    ensures Safe(Tick(s, c)) <==> JudgedRight(s, c)
  {
    TickReady(s, c);
    TickValid(s, c);
    hide Valid, Runnable, NextClock, Skip;
    SafeAfter(s, Tick(s, c), c);
    var cpu := s.cpus[c];
    if cpu.current.Some? { assert Runs(s, cpu.current.value); }
  }

  /** A CPU whose saved position is accurate always judges right. */
  lemma AlignedJudges(s: State, c: nat)
    requires CanTick(s, c) && Aligned(s, c)
    ensures JudgedRight(s, c)
  {
    TickReady(s, c);
  }

  /** A tick keeps the saved position accurate unless its pick fails while a thread is running. */
  lemma TickAligned(s: State, c: nat)
    requires CanTick(s, c) && AllAligned(s) && !FailsWhileRunning(s, c)
    ensures AllAligned(Tick(s, c))
  {
    TickReady(s, c);
    TickValid(s, c);
    var s' := Tick(s, c);
    assert Aligned(s, c);
    forall d | 0 <= d < |s'.cpus| ensures Aligned(s', d) {
      assert Aligned(s, d);
    }
  }

  lemma EnqueueKeeps(s: State, t: Tid, k: nat)
    requires Valid(s) && k < |s.threads|
    ensures Valid(Enqueue(s, t, k))
    ensures Safe(s) ==> Safe(Enqueue(s, t, k))
    ensures AllAligned(s) ==> AllAligned(Enqueue(s, t, k))
  {
    var s' := Enqueue(s, t, k);
    forall d | 0 <= d < |s.cpus| ensures ValidCpu(s', s'.cpus[d]) { assert ValidCpu(s, s.cpus[d]); }
    assert forall u: Tid :: Runs(s', u) <==> Runs(s, u);
    if AllAligned(s) {
      forall d | 0 <= d < |s'.cpus| ensures Aligned(s', d) { assert Aligned(s, d) && ValidCpu(s, s.cpus[d]); }
    }
  }

  // -------------------------------------------------------------------- whole runs

  /** A timer tick, a tick that finds the scheduler lock taken, or an enqueue. */
  datatype Event = TickOf(c: nat) | LockBusy(c: nat) | Add(t: Tid, k: nat)

  ghost function Exec(s: State, e: Event): State {
    match e
    case TickOf(c) => if CanTick(s, c) then Tick(s, c) else s
    case LockBusy(_) => s
    case Add(t, k) => if k < |s.threads| then Enqueue(s, t, k) else s
  }

  ghost function After(s: State, events: seq<Event>): State {
    if events == [] then s else Exec(After(s, events[..|events| - 1]), events[|events| - 1])
  }

  /** No CPU that is running a thread ever has its pick fail. */
  ghost predicate NoFailedPick(s: State, events: seq<Event>) {
    forall n | 0 <= n < |events| && events[n].TickOf? ::
      var r := After(s, events[..n]); CanTick(r, events[n].c) ==> !FailsWhileRunning(r, events[n].c)
  }

  function Booted(levels: nat, cpus: nat): State {
    State(seq(levels, _ => []), {}, {}, seq(cpus, _ => Cpu(None, seq(levels, _ => 0), Clock(0, 0))))
  }

  /**
   In every run from boot, whatever the number of CPUs and the interleaving of ticks and
   enqueues, as long as no pick fails on a CPU that is running a thread: every thread is
   current on at most one CPU and is locked exactly while it is current somewhere.
   */
  lemma {:induction false} MutualExclusion(levels: nat, cpus: nat, events: seq<Event>)
    requires levels > 0 && NoFailedPick(Booted(levels, cpus), events)
    ensures var s := After(Booted(levels, cpus), events); Valid(s) && Safe(s) && AllAligned(s)
  {
    var b := Booted(levels, cpus);
    if events == [] {
      forall c | 0 <= c < |b.cpus| ensures ValidCpu(b, b.cpus[c]) {}
    } else {
      var n := |events| - 1;
      forall m | 0 <= m < n && events[..n][m].TickOf?
        ensures var r := After(b, events[..n][..m]); CanTick(r, events[..n][m].c) ==> !FailsWhileRunning(r, events[..n][m].c)
      {
        assert events[..n][..m] == events[..m] && events[..n][m] == events[m];
      }
      MutualExclusion(levels, cpus, events[..n]);
      ExecKeeps(After(b, events[..n]), events[n]);
    }
  }

  lemma ExecKeeps(s: State, e: Event)
    requires Valid(s) && Safe(s) && AllAligned(s)
    requires e.TickOf? && CanTick(s, e.c) ==> !FailsWhileRunning(s, e.c)
    ensures Valid(Exec(s, e)) && Safe(Exec(s, e)) && AllAligned(Exec(s, e))
  {
    hide Valid, Safe, Tick, Enqueue, FailsWhileRunning;
    match e
    case TickOf(c) =>
      if CanTick(s, c) {
        TickValid(s, c);
        AlignedJudges(s, c);
        TickSafeIff(s, c);
        TickAligned(s, c);
      }
    case LockBusy(_) =>
    case Add(t, k) => if k < |s.threads| { EnqueueKeeps(s, t, k); }
  }

  // -------------------------------------------------------------- when picks succeed

  ghost function ThreadSet(level: seq<Tid>): set<Tid> { set i | 0 <= i < |level| :: level[i] }

  lemma {:induction false} DistinctCount(level: seq<Tid>)
    requires forall i, j | 0 <= i < j < |level| :: level[i] != level[j]
    ensures |ThreadSet(level)| == |level|
  {
    if level != [] {
      var n := |level| - 1;
      DistinctCount(level[..n]);
      assert ThreadSet(level) == ThreadSet(level[..n]) + {level[n]};
    }
  }

  /** Threads current on CPUs below n other than c. */
  ghost function Others(s: State, c: nat, n: nat): set<Tid>
    requires n <= |s.cpus|
  {
    set d | 0 <= d < n && d != c && s.cpus[d].current.Some? :: s.cpus[d].current.value
  }

  lemma {:induction false} OthersCount(s: State, c: nat, n: nat)
    requires n <= |s.cpus|
    ensures |Others(s, c, n)| <= if c < n then n - 1 else n
  {
    if n > 0 {
      OthersCount(s, c, n - 1);
      var cpu := s.cpus[n - 1];
      var more := if n - 1 != c && cpu.current.Some? then {cpu.current.value} else {};
      assert Others(s, c, n) == Others(s, c, n - 1) + more;
    }
  }

  lemma SubsetCount(a: set<Tid>, b: set<Tid>)
    requires a <= b
    ensures |a| <= |b|
  {
    assert b == a + (b - a);
  }

  /** Each level that has threads has at least one per CPU. */
  ghost predicate Enough(threads: seq<seq<Tid>>, cpus: nat) {
    forall k | 0 <= k < |threads| && threads[k] != [] :: |threads[k]| >= cpus
  }

  /** A level with at least as many threads as there are CPUs always yields a thread. */
  lemma EnoughThreadsNeverFails(s: State, c: nat)
    requires CanTick(s, c) && Safe(s)
    requires Enough(s.threads, |s.cpus|)
    ensures !FailsWhileRunning(s, c) && (TickReady(s, c); PickIndex(s, c).Some?)
  {
    TickReady(s, c);
    var cpu := s.cpus[c];
    var k := NextClock(s, cpu).priority;
    var level := s.threads[k];
    DistinctCount(level);
    OthersCount(s, c, |s.cpus|);
    if forall i | 0 <= i < |level| :: !Eligible(level[i], cpu.current, s.locked) {
      forall t | t in ThreadSet(level) ensures t in Others(s, c, |s.cpus|) {
        assert t in s.locked && Runs(s, t);
      }
      SubsetCount(ThreadSet(level), Others(s, c, |s.cpus|));
    } else {
      var i :| 0 <= i < |level| && Eligible(level[i], cpu.current, s.locked);
      ScanIff(level, cpu.current, s.locked, cpu.last[k], i);
    }
  }

  // ------------------------------------------------------------ exact conditions over runs

  lemma BootedValid(levels: nat, cpus: nat)
    requires levels > 0
    ensures Valid(Booted(levels, cpus)) && Safe(Booted(levels, cpus))
  {
  }

  /** Safe at the start and after every event. */
  ghost predicate SafeThroughout(s: State, events: seq<Event>) {
    forall n | 0 <= n <= |events| :: Safe(After(s, events[..n]))
  }

  ghost predicate TickJudged(s: State, e: Event) {
    e.TickOf? && CanTick(s, e.c) ==> JudgedRight(s, e.c)
  }

  ghost predicate JudgedThroughout(s: State, events: seq<Event>) {
    forall n | 0 <= n < |events| :: TickJudged(After(s, events[..n]), events[n])
  }

  lemma ExecSafeIff(s: State, e: Event)
    requires Valid(s)
    ensures Valid(Exec(s, e)) && |Exec(s, e).cpus| == |s.cpus|
    ensures Safe(s) ==> (Safe(Exec(s, e)) <==> TickJudged(s, e))
  {
    hide Valid, Safe, Tick, JudgedRight;
    match e
    case TickOf(c) =>
      if CanTick(s, c) {
        TickValid(s, c);
        if Safe(s) { TickSafeIff(s, c); }
      }
    case LockBusy(_) =>
    case Add(t, k) => if k < |s.threads| { EnqueueKeeps(s, t, k); }
  }

  lemma {:induction false} AfterValid(levels: nat, cpus: nat, events: seq<Event>)
    requires levels > 0
    ensures Valid(After(Booted(levels, cpus), events)) && |After(Booted(levels, cpus), events).cpus| == cpus
  {
    BootedValid(levels, cpus);
    if events != [] {
      AfterValid(levels, cpus, events[..|events| - 1]);
      ExecSafeIff(After(Booted(levels, cpus), events[..|events| - 1]), events[|events| - 1]);
    }
  }

  lemma SplitLast(s: State, events: seq<Event>, n: nat)
    requires |events| == n + 1
    ensures SafeThroughout(s, events) <==> SafeThroughout(s, events[..n]) && Safe(After(s, events))
    ensures JudgedThroughout(s, events) <==> JudgedThroughout(s, events[..n]) && TickJudged(After(s, events[..n]), events[n])
  {
    hide Safe, TickJudged, After;
    assert events[..n + 1] == events;
    assert forall m | 0 <= m <= n :: events[..n][..m] == events[..m];
  }

  /** A run from boot is safe at every step exactly when every tick in it judges right. */
  lemma {:induction false} SafeRunIff(levels: nat, cpus: nat, events: seq<Event>)
    requires levels > 0
    ensures SafeThroughout(Booted(levels, cpus), events) <==> JudgedThroughout(Booted(levels, cpus), events)
  {
    var b := Booted(levels, cpus);
    if events == [] {
      BootedValid(levels, cpus);
      assert events[..0] == [];
    } else {
      var n := |events| - 1;
      SafeRunIff(levels, cpus, events[..n]);
      AfterValid(levels, cpus, events[..n]);
      SplitLast(b, events, n);
      hide JudgedThroughout, TickJudged, Safe, Valid, Exec;
      assert SafeThroughout(b, events[..n]) ==> Safe(After(b, events[..n])) by { assert events[..n][..n] == events[..n]; }
      ExecSafeIff(After(b, events[..n]), events[n]);
    }
  }

  /** The thread vectors as the enqueues of a run alone determine them. */
  function Queues(levels: nat, events: seq<Event>): (seq<seq<Tid>>, set<Tid>) {
    if events == [] then (seq(levels, _ => []), {})
    else
      var (threads, queued) := Queues(levels, events[..|events| - 1]);
      match events[|events| - 1]
      case Add(t, k) => if k < |threads| && t !in queued then (threads[k := threads[k] + [t]], queued + {t}) else (threads, queued)
      case _ => (threads, queued)
  }

  lemma {:induction false} TicksKeepQueues(levels: nat, cpus: nat, events: seq<Event>)
    requires levels > 0
    ensures (After(Booted(levels, cpus), events).threads, After(Booted(levels, cpus), events).queued) == Queues(levels, events)
  {
    if events != [] {
      var n := |events| - 1;
      TicksKeepQueues(levels, cpus, events[..n]);
      ExecQueues(After(Booted(levels, cpus), events[..n]), events[n]);
    }
  }

  lemma ExecQueues(s: State, e: Event)
    ensures var r := Exec(s, e);
            (r.threads, r.queued) ==
              if e.Add? && e.k < |s.threads| && e.t !in s.queued then (s.threads[e.k := s.threads[e.k] + [e.t]], s.queued + {e.t})
              else (s.threads, s.queued)
  {
  }

  ghost predicate EnoughAtTicks(levels: nat, cpus: nat, events: seq<Event>) {
    forall n | 0 <= n < |events| && events[n].TickOf? :: Enough(Queues(levels, events[..n]).0, cpus)
  }

  /** A condition on the enqueues alone under which every interleaving of ticks is safe. */
  lemma EnoughThreadsSafe(levels: nat, cpus: nat, events: seq<Event>)
    requires levels > 0 && EnoughAtTicks(levels, cpus, events)
    ensures NoFailedPick(Booted(levels, cpus), events)
    ensures SafeThroughout(Booted(levels, cpus), events)
  {
    var b := Booted(levels, cpus);
    forall n | 0 <= n <= |events| ensures NoFailedPick(b, events[..n]) && Safe(After(b, events[..n])) {
      EnoughSoFar(levels, cpus, events, n);
      MutualExclusion(levels, cpus, events[..n]);
    }
    assert events[..|events|] == events;
  }

  lemma EnoughAt(levels: nat, cpus: nat, events: seq<Event>, n: nat)
    requires EnoughAtTicks(levels, cpus, events) && n < |events| && events[n].TickOf?
    ensures Enough(Queues(levels, events[..n]).0, cpus)
  {
  }

  lemma NextPickSucceeds(levels: nat, cpus: nat, front: seq<Event>, c: nat)
    requires levels > 0 && NoFailedPick(Booted(levels, cpus), front) && Enough(Queues(levels, front).0, cpus)
    requires CanTick(After(Booted(levels, cpus), front), c)
    ensures !FailsWhileRunning(After(Booted(levels, cpus), front), c)
  {
    hide After, Queues, Booted, Safe, Valid, NoFailedPick;
    MutualExclusion(levels, cpus, front);
    TicksKeepQueues(levels, cpus, front);
    AfterValid(levels, cpus, front);
    EnoughThreadsNeverFails(After(Booted(levels, cpus), front), c);
  }

  lemma {:induction false} EnoughSoFar(levels: nat, cpus: nat, events: seq<Event>, n: nat)
    requires levels > 0 && EnoughAtTicks(levels, cpus, events) && n <= |events|
    ensures NoFailedPick(Booted(levels, cpus), events[..n])
  {
    if n > 0 {
      var b, e := Booted(levels, cpus), events[n - 1];
      EnoughSoFar(levels, cpus, events, n - 1);
      hide *;
      if e.TickOf? && CanTick(After(b, events[..n - 1]), e.c) {
        EnoughAt(levels, cpus, events, n - 1);
        NextPickSucceeds(levels, cpus, events[..n - 1], e.c);
      }
      NoFailedPickStep(b, events, n - 1);
    }
  }

  lemma NoFailedPickStep(s: State, events: seq<Event>, n: nat)
    requires n < |events| && NoFailedPick(s, events[..n])
    requires var r := After(s, events[..n]); events[n].TickOf? && CanTick(r, events[n].c) ==> !FailsWhileRunning(r, events[n].c)
    ensures NoFailedPick(s, events[..n + 1])
  {
    hide After, FailsWhileRunning, CanTick;
    assert forall m | 0 <= m <= n :: events[..n + 1][..m] == events[..m] && (m < n ==> events[..n][..m] == events[..m]);
  }

  // --------------------------------------------------------------- the hypothesis is needed

  /** Two CPUs, two levels, thread 10 alone in level 0 and thread 20 alone in level 1. */
  function Pair(c0: Cpu, c1: Cpu, locked: set<Tid>): State {
    State([[10], [20]], locked, {10, 20}, [c0, c1])
  }

  ghost predicate PairCpu(c: Cpu) {
    ValidClock(c.clock, 2) && c.last == [0, 0] && (c.current == None || c.current == Some(10) || c.current == Some(20))
  }

  function PairNext(c: Cpu, locked: set<Tid>): (Cpu, set<Tid>)
    requires PairCpu(c)
  {
    var clock := Advance(c.clock, 2);
    var t := if clock.priority == 0 then 10 else 20;
    var moved := c.(clock := clock);
    if c.current == Some(t) then
      if clock.priority == c.clock.priority then (moved, locked) else (moved, locked - {t})
    else if t in locked then (moved, locked)
    else if c.current == None then (moved.(current := Some(t)), locked + {t})
    else if clock.priority == c.clock.priority then (moved, locked + {t})
    else (moved.(current := Some(t)), locked + {t} - {c.current.value})
  }

  lemma PairReady(c0: Cpu, c1: Cpu, locked: set<Tid>, c: nat)
    requires PairCpu(c0) && PairCpu(c1) && c < 2
    ensures CanTick(Pair(c0, c1, locked), c)
  {
    var s := Pair(c0, c1, locked);
    assert s.threads[0] == [10] && s.threads[1] == [20];
    assert ValidCpu(s, s.cpus[0]) && ValidCpu(s, s.cpus[1]);
  }

  lemma PairPick(c0: Cpu, c1: Cpu, locked: set<Tid>, c: nat)
    requires PairCpu(c0) && PairCpu(c1) && c < 2
    ensures var s := Pair(c0, c1, locked); var cpu := s.cpus[c];
            var k := Advance(cpu.clock, 2).priority;
            && NextClock(s, cpu) == Advance(cpu.clock, 2) && k < 2
            && PickIndex(s, c) == (if Eligible(s.threads[k][0], cpu.current, locked) then Some(0) else None)
  {
    var s := Pair(c0, c1, locked);
    var cpu := s.cpus[c];
    assert s.threads[0] == [10] && s.threads[1] == [20];
    assert Skip(s, cpu) == 1;
    assert AdvanceN(cpu.clock, 2, 1) == Advance(AdvanceN(cpu.clock, 2, 0), 2);
    assert Scan(s.threads[NextClock(s, cpu).priority], cpu.current, locked, 0, 1) == None;
  }

  lemma PairTick(c0: Cpu, c1: Cpu, locked: set<Tid>, c: nat)
    requires PairCpu(c0) && PairCpu(c1) && c < 2
    ensures CanTick(Pair(c0, c1, locked), c)
    ensures var (n, l) := PairNext(if c == 0 then c0 else c1, locked);
            PairCpu(n) && Tick(Pair(c0, c1, locked), c) == if c == 0 then Pair(n, c1, l) else Pair(c0, n, l)
  {
    var s := Pair(c0, c1, locked);
    PairReady(c0, c1, locked, c);
    PairPick(c0, c1, locked, c);
    TickReady(s, c);
    assert s.threads[0] == [10] && s.threads[1] == [20];
    hide NextClock, PickIndex, CanTick, Triangle;
    var cpu := s.cpus[c];
    assert cpu.last[0 := 0] == [0, 0] && cpu.last[1 := 0] == [0, 0];
  }

  lemma BootPair()
    ensures var idle := Cpu(None, [0, 0], Clock(0, 0));
            Pair(idle, idle, {}) == Enqueue(Enqueue(Booted(2, 2), 10, 0), 20, 1)
  {
    var idle := Cpu(None, [0, 0], Clock(0, 0));
    var b := Booted(2, 2);
    assert b.threads == [[], []] && b.cpus[0].last == [0, 0] && b.cpus[1].last == [0, 0];
    assert b.cpus == [idle, idle];
    var e: seq<Tid> := [];
    assert e + [10] == [10] && e + [20] == [20];
    assert Enqueue(b, 10, 0).threads == [[10], []];
    assert Enqueue(Enqueue(b, 10, 0), 20, 1).threads == [[10], [20]];
    assert Enqueue(Enqueue(b, 10, 0), 20, 1).queued == {10, 20};
  }

  lemma AfterOne(s: State, events: seq<Event>, n: nat)
    requires n < |events|
    ensures After(s, events[..n + 1]) == Exec(After(s, events[..n]), events[n])
  {
    assert events[..n + 1][..n] == events[..n];
  }

  /** Tick n of a run that has reached Pair(c0, c1, locked). */
  lemma PairStep(s: State, es: seq<Event>, n: nat, c0: Cpu, c1: Cpu, locked: set<Tid>)
    requires n < |es| && es[n].TickOf? && es[n].c < 2 && PairCpu(c0) && PairCpu(c1)
    requires After(s, es[..n]) == Pair(c0, c1, locked)
    ensures var (m, l) := PairNext(if es[n].c == 0 then c0 else c1, locked);
            After(s, es[..n + 1]) == if es[n].c == 0 then Pair(m, c1, l) else Pair(c0, m, l)
  {
    hide Tick, CanTick, PairNext;
    AfterOne(s, es, n);
    PairTick(c0, c1, locked, es[n].c);
  }

  lemma AfterNone(s: State, events: seq<Event>)
    ensures After(s, events[..0]) == s
  {
  }

  /** What the ticks of the run below do to the ticking CPU and the locks. */
  lemma PairMoves()
    ensures PairNext(Cpu(None, [0, 0], Clock(0, 0)), {}) == (Cpu(Some(10), [0, 0], Clock(0, 1)), {10})
    ensures PairNext(Cpu(None, [0, 0], Clock(0, 0)), {10}) == (Cpu(None, [0, 0], Clock(0, 1)), {10})
    ensures PairNext(Cpu(None, [0, 0], Clock(0, 1)), {10}) == (Cpu(Some(20), [0, 0], Clock(1, 1)), {10, 20})
    ensures PairNext(Cpu(Some(10), [0, 0], Clock(0, 1)), {10, 20}) == (Cpu(Some(10), [0, 0], Clock(1, 1)), {10, 20})
    ensures PairNext(Cpu(Some(10), [0, 0], Clock(1, 1)), {10, 20}) == (Cpu(Some(10), [0, 0], Clock(0, 0)), {20})
    ensures PairNext(Cpu(Some(20), [0, 0], Clock(1, 1)), {20}) == (Cpu(Some(10), [0, 0], Clock(0, 0)), {10})
  {
    var e: set<Tid> := {};
    assert e + {10} == {10} && {10} + {20} == {10, 20} && {10, 20} - {10} == {20} && {20} + {10} - {20} == {10};
  }

  /**
   Without the hypothesis exclusion fails: after CPU 0's pick fails while it runs thread
   10, its next tick unlocks the thread it keeps running, and CPU 1 takes it too.
   */
  lemma FailedPickBreaksExclusion()
    ensures var idle := Cpu(None, [0, 0], Clock(0, 0));
            var s := After(Pair(idle, idle, {}), [TickOf(0), TickOf(1), TickOf(1), TickOf(0), TickOf(0), TickOf(1)]);
            && Pair(idle, idle, {}) == Enqueue(Enqueue(Booted(2, 2), 10, 0), 20, 1)
            && |s.cpus| == 2 && s.cpus[0].current == Some(10) == s.cpus[1].current && !Safe(s)
  {
    hide Tick, CanTick, Enqueue, Booted, Exec, After, PairNext;
    BootPair();
    var es := [TickOf(0), TickOf(1), TickOf(1), TickOf(0), TickOf(0), TickOf(1)];
    var c := Cpu(None, [0, 0], Clock(0, 0));
    var s0 := Pair(c, c, {});
    AfterNone(s0, es);
    var a1, b1 := Cpu(Some(10), [0, 0], Clock(0, 1)), Cpu(None, [0, 0], Clock(0, 1));
    var b2, a2 := Cpu(Some(20), [0, 0], Clock(1, 1)), Cpu(Some(10), [0, 0], Clock(1, 1));
    var a3 := Cpu(Some(10), [0, 0], Clock(0, 0));
    PairMoves();
    PairStep(s0, es, 0, c, c, {});
    PairStep(s0, es, 1, a1, c, {10});
    PairStep(s0, es, 2, a1, b1, {10});
    PairStep(s0, es, 3, a1, b2, {10, 20});
    PairStep(s0, es, 4, a2, b2, {10, 20});
    PairStep(s0, es, 5, a3, b2, {20});
    assert es[..6] == es;
    var s6 := Pair(a3, a3, {10});
    assert s6.cpus[0].current == s6.cpus[1].current;
  }
}
