/** The scheduler's imperative form: thread vectors, lock bits and per-CPU locals updated in place. */
module Scheduler {
  import opened Common
  import opened SchedClock
  import opened SchedModel
  import opened SchedSafety

  class Scheduler {
    var threads: seq<seq<Tid>>
    var locked: set<Tid>
    var queued: set<Tid>
    var cpus: seq<Cpu>

    ghost function View(): State
      reads this
    {
      State(threads, locked, queued, cpus)
    }

    constructor (levels: nat, count: nat)
      ensures View() == Booted(levels, count)
    {
      threads := seq(levels, _ => []);
      locked, queued := {}, {};
      cpus := seq(count, _ => Cpu(None, seq(levels, _ => 0), Clock(0, 0)));
    }

    /** sched_enqueue */
    method EnqueueThread(t: Tid, priority: nat)
      requires priority < |threads|
      modifies this
      ensures View() == Enqueue(old(View()), t, priority)
    {
      if t in queued {
        return;
      }
      queued := queued + {t};
      threads := threads[priority := threads[priority] + [t]];
    }

    /** LOCK_ACQUIRE on a thread's lock */
    method TryLock(t: Tid) returns (got: bool)
      modifies this`locked
      ensures got <==> t !in old(locked)
      ensures locked == old(locked) + {t}
    {
      got := t !in locked;
      locked := locked + {t};
    }

    /** sched_get_next_thread: each thread of the level is tried at most once, from orig + 1 round to orig. */
    method GetNextThread(c: nat, orig: nat, priority: nat) returns (found: bool, newIndex: nat)
      requires c < |cpus| && priority < |threads| && orig < |threads[priority]|
      modifies this`locked
      ensures Scan(threads[priority], cpus[c].current, old(locked), orig, 0) == if found then Some(newIndex) else None
      ensures found ==> IsNextEligible(threads[priority], cpus[c].current, old(locked), orig, newIndex)
      ensures !found ==> locked == old(locked) && forall j | 0 <= j < |threads[priority]| ::
        !Eligible(threads[priority][j], cpus[c].current, locked)
      ensures found ==> newIndex < |threads[priority]|
      ensures found ==> locked == if cpus[c].current == Some(threads[priority][newIndex]) then old(locked)
                                  else old(locked) + {threads[priority][newIndex]}
    {
      ghost var level := threads[priority];
      var index := orig + 1;
      ghost var off := 0;
      newIndex := 0;
      while true
        invariant off < |level| && index == (if orig + 1 + off <= |level| then orig + 1 + off else orig + 1 + off - |level|)
        invariant locked == old(locked)
        invariant Scan(level, cpus[c].current, locked, orig, 0) == Scan(level, cpus[c].current, locked, orig, off)
        decreases |level| - off
      {
        if index >= |threads[priority]| {
          index := 0;
        }
        var thread := threads[priority][index];
        assert index == Wrap(orig + 1 + off, |level|);
        ScanIff(level, cpus[c].current, locked, orig, index);
        if cpus[c].current == Some(thread) {
          return true, index;
        }
        var got := TryLock(thread);
        if got {
          return true, index;
        }
        assert locked == old(locked);
        if index == orig {
          return false, 0;
        }
        index := index + 1;
        off := off + 1;
      }
    }

    /** The do-while loop: advance the counter until it lands on a level with threads. */
    method NextLevel(c: nat)
      requires CanTick(View(), c)
      modifies this`cpus
      ensures View() == SetCpu(old(View()), c, old(cpus)[c].(clock := NextClock(old(View()), old(cpus)[c])), old(locked))
    {
      ghost var s, cpu0 := View(), cpus[c];
      assert ValidCpu(s, cpu0);
      SkipTerminates(s, cpu0);
      var p: nat, g: nat := cpus[c].clock.priority, cpus[c].clock.peg;
      ghost var n := 0;
      var again := true;
      while again
        invariant Clock(p, g) == AdvanceN(cpu0.clock, |threads|, n) && n <= Skip(s, cpu0)
        invariant again <==> n < Skip(s, cpu0)
        invariant cpus == old(cpus)
        decreases Skip(s, cpu0) - n
      {
        p := p + 1;
        if p > g {
          p := 0;
          g := g + 1;
          if g == |threads| {
            g := 0;
          }
        }
        n := n + 1;
        AdvanceNValid(cpu0.clock, |threads|, n);
        assert n < Skip(s, cpu0) ==> !BusyAt(threads, cpu0.clock, n);
        again := |threads[p]| == 0;
      }
      cpus := cpus[c := cpus[c].(clock := Clock(p, g))];
    }

    /** schedule: a tick of CPU c; `lockFree` says whether it gets the scheduler lock. */
    method Schedule(c: nat, lockFree: bool)
      requires CanTick(View(), c)
      modifies this
      ensures View() == if lockFree then Tick(old(View()), c) else old(View())
    {
      if !lockFree {
        return;
      }
      TickReady(View(), c);
      var current := cpus[c].current;
      var oldPriority := cpus[c].clock.priority;
      var oldIndex := cpus[c].last[oldPriority];
      NextLevel(c);
      var priority := cpus[c].clock.priority;
      var found, newIndex := GetNextThread(c, cpus[c].last[priority], priority);
      if !found {
        return;
      }
      if current.Some? {
        if priority == oldPriority && newIndex == oldIndex {
          return;
        }
        locked := locked - {current.value};
      }
      cpus := cpus[c := cpus[c].(current := Some(threads[priority][newIndex]), last := cpus[c].last[priority := newIndex])];
    }
  }
}
