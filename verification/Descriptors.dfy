/** Per-process descriptor tables and the reference counts of the files they name. */
module Descriptors {
  import opened Common

  const FDS_COUNT := 128
  const EBADF := -8 // negated errno values
  const EMFILE := -33
  const WORD64 := 0x1_0000_0000_0000_0000 // a negative start index wraps in size_t

  type FileId = nat

  type Table = seq<Option<FileId>>

  /** Slots of one table that name file f. */
  function Uses(fds: Table, f: FileId): nat {
    if fds == [] then 0 else Uses(fds[..|fds| - 1], f) + if fds[|fds| - 1] == Some(f) then 1 else 0
  }

  /** Slots of all tables that name file f. */
  function TotalUses(procs: seq<Table>, f: FileId): nat {
    if procs == [] then 0 else TotalUses(procs[..|procs| - 1], f) + Uses(procs[|procs| - 1], f)
  }

  lemma {:induction false} UsesUpdate(fds: Table, i: nat, v: Option<FileId>, f: FileId)
    requires i < |fds|
    ensures Uses(fds[i := v], f) == Uses(fds, f) - (if fds[i] == Some(f) then 1 else 0) + (if v == Some(f) then 1 else 0)
  {
    var n := |fds| - 1;
    if i == n {
      assert fds[i := v][..n] == fds[..n];
    } else {
      assert fds[i := v][..n] == fds[..n][i := v];
      UsesUpdate(fds[..n], i, v, f);
    }
  }

  lemma {:induction false} TotalUpdate(procs: seq<Table>, p: nat, fds: Table, f: FileId)
    requires p < |procs|
    ensures TotalUses(procs[p := fds], f) == TotalUses(procs, f) - Uses(procs[p], f) + Uses(fds, f)
  {
    var n := |procs| - 1;
    if p == n {
      assert procs[p := fds][..n] == procs[..n];
    } else {
      assert procs[p := fds][..n] == procs[..n][p := fds];
      TotalUpdate(procs[..n], p, fds, f);
    }
  }

  lemma SlotUpdate(procs: seq<Table>, p: nat, i: nat, v: Option<FileId>, f: FileId)
    requires p < |procs| && i < |procs[p]|
    ensures TotalUses(procs[p := procs[p][i := v]], f)
              == TotalUses(procs, f) - (if procs[p][i] == Some(f) then 1 else 0) + (if v == Some(f) then 1 else 0)
  {
    UsesUpdate(procs[p], i, v, f);
    TotalUpdate(procs, p, procs[p][i := v], f);
  }

  /** Naming file f in a free slot adds one use of f and none of any other file. */
  lemma SlotFilled(procs: seq<Table>, p: nat, i: nat, f: FileId)
    requires p < |procs| && i < |procs[p]| && procs[p][i] == None
    ensures forall g :: TotalUses(procs[p := procs[p][i := Some(f)]], g) == TotalUses(procs, g) + if g == f then 1 else 0
  {
    forall g ensures TotalUses(procs[p := procs[p][i := Some(f)]], g) == TotalUses(procs, g) + if g == f then 1 else 0 {
      SlotUpdate(procs, p, i, Some(f), g);
    }
  }

  lemma {:induction false} UsesAt(fds: Table, i: nat, f: FileId)
    requires i < |fds| && fds[i] == Some(f)
    ensures Uses(fds, f) >= 1
  {
    if i < |fds| - 1 { UsesAt(fds[..|fds| - 1], i, f); }
  }

  lemma {:induction false} TotalAt(procs: seq<Table>, p: nat, i: nat, f: FileId)
    requires p < |procs| && i < |procs[p]| && procs[p][i] == Some(f)
    ensures TotalUses(procs, f) >= 1
  {
    if p < |procs| - 1 { TotalAt(procs[..|procs| - 1], p, i, f); } else { UsesAt(procs[p], i, f); }
  }

  lemma {:induction false} UsesBounded(fds: Table, f: FileId)
    ensures Uses(fds, f) <= |fds|
  {
    if fds != [] { UsesBounded(fds[..|fds| - 1], f); }
  }

  lemma {:induction false} TotalBounded(procs: seq<Table>, f: FileId)
    requires forall p | 0 <= p < |procs| :: |procs[p]| == FDS_COUNT
    ensures TotalUses(procs, f) <= FDS_COUNT * |procs|
  {
    if procs != [] {
      TotalBounded(procs[..|procs| - 1], f);
      UsesBounded(procs[|procs| - 1], f);
    }
  }

  // ------------------------------------------------------------- what calls mean

  datatype Call = DoOpen(p: nat) | DoClose(p: nat, id: nat) | DoDup(p: nat, fd: CInt, arg: CInt) | DoFork(p: nat)

  /** Every process's table, and the leaked references of every file opened so far. */
  datatype World = World(procs: seq<Table>, leaked: seq<nat>)

  /** i is the lowest free slot of the table from index `from` on. */
  ghost predicate IsLowestFree(fds: Table, from: int, i: int) {
    0 <= from <= i < |fds| && fds[i] == None && forall j | from <= j < i :: fds[j].Some?
  }

  ghost predicate HasRoom(fds: Table, from: int) { exists i :: IsLowestFree(fds, from, i) }

  /** The table with f in its lowest free slot from index `from` on. */
  ghost function Named(fds: Table, from: int, f: FileId): Table
    requires HasRoom(fds, from)
  {
    var i :| IsLowestFree(fds, from, i); fds[i := Some(f)]
  }

  lemma NamedIs(fds: Table, from: int, f: FileId, i: int)
    requires IsLowestFree(fds, from, i)
    ensures HasRoom(fds, from) && Named(fds, from, f) == fds[i := Some(f)]
  {
    assert forall j | IsLowestFree(fds, from, j) :: j == i;
  }

  lemma Crowded(fds: Table)
    requires forall i | 0 <= i < |fds| :: fds[i].Some?
    ensures !HasRoom(fds, 0)
  {
  }

  lemma DupIs(fds: Table, from: int, f: FileId, i: int)
    ensures HasRoom(fds, from) <==> exists i :: IsLowestFree(fds, from, i)
    ensures IsLowestFree(fds, from, i) ==> Named(fds, from, f) == fds[i := Some(f)]
  {
    if IsLowestFree(fds, from, i) { NamedIs(fds, from, f, i); }
  }

  /** The world after one call by a process that exists; the files named by no slot and no leaked reference are the released ones. */
  ghost function Next(w: World, call: Call): World {
    if call.p >= |w.procs| then w
    else
      var fds := w.procs[call.p];
      match call
      case DoOpen(p) =>
        World(if HasRoom(fds, 0) then w.procs[p := Named(fds, 0, |w.leaked|)] else w.procs, w.leaked + [0])
      case DoClose(p, id) => if id < |fds| then w.(procs := w.procs[p := fds[id := None]]) else w
      case DoDup(p, fd, arg) =>
        if 0 <= fd < |fds| && fds[fd].Some? then
          var f := fds[fd].value;
          if HasRoom(fds, arg) then w.(procs := w.procs[p := Named(fds, arg, f)])
          else if f < |w.leaked| then w.(leaked := w.leaked[f := w.leaked[f] + 1])
          else w
        else w
      case DoFork(p) => w.(procs := w.procs + [fds])
  }

  ghost function After(w: World, calls: seq<Call>): World {
    if calls == [] then w else Next(After(w, calls[..|calls| - 1]), calls[|calls| - 1])
  }

  class Kernel {
    var procs: seq<Table>
    var refs: seq<nat> // refs[f] is file f's ref_count; files are numbered as they are opened
    var released: set<FileId>
    ghost var leaked: seq<nat> // references taken by F_DUPFD calls that found no slot

    ghost predicate Valid()
      reads this
    {
      && (forall p | 0 <= p < |procs| :: |procs[p]| == FDS_COUNT)
      && (forall p, i, f | 0 <= p < |procs| && 0 <= i < FDS_COUNT && procs[p][i] == Some(f) :: f < |refs|)
      && |leaked| == |refs|
      && (forall f | 0 <= f < |refs| :: refs[f] == TotalUses(procs, f) + leaked[f])
      && (forall f | f in released :: f < |refs|)
      && (forall f | 0 <= f < |refs| :: f in released <==> refs[f] == 0)
    }

    ghost function View(): World
      reads this
    {
      World(procs, leaked)
    }

    /** In every state the tables and leaked references say which files are released and how often each is referenced. */
    lemma ViewTells(f: FileId)
      requires Valid() && f < |refs|
      ensures refs[f] == TotalUses(procs, f) + leaked[f] && (f in released <==> TotalUses(procs, f) == 0 && leaked[f] == 0)
    {
    }

    /** A file is released only when no slot of any process names it. */
    lemma ReleasedUnused(p: nat, i: nat)
      requires Valid() && p < |procs| && i < FDS_COUNT && procs[p][i].Some?
      ensures procs[p][i].value !in released && refs[procs[p][i].value] >= 1
    {
      TotalAt(procs, p, i, procs[p][i].value);
    }

    /** A count exceeds the slots there are only by the references that F_DUPFD leaked. */
    lemma RefsBounded(f: FileId)
      requires Valid() && f < |refs|
      ensures refs[f] <= FDS_COUNT * |procs| + leaked[f]
    {
      TotalBounded(procs, f);
    }

    constructor ()
      ensures Valid() && |procs| == 1
    {
      var empty: Table := seq(FDS_COUNT, _ => None);
      procs, refs, released, leaked := [empty], [], {}, [];
    }

    /** vfs_close: drop a reference, release the file with the last one. */
    method VfsClose(f: FileId)
      requires f < |refs| && refs[f] > 0
      modifies this`refs, this`released
      ensures refs == old(refs)[f := old(refs)[f] - 1]
      ensures released == if old(refs)[f] == 1 then old(released) + {f} else old(released)
    {
      var less: nat := refs[f] - 1;
      refs := refs[f := less];
      if refs[f] != 0 {
        return;
      }
      released := released + {f};
    }

    /** The first free slot from index `from` on, or the index where the loop stops. */
    method FirstFree(p: nat, from: nat) returns (i: nat)
      requires p < |procs| && |procs[p]| == FDS_COUNT
      ensures from <= i && (i < FDS_COUNT ==> procs[p][i] == None) && (i >= FDS_COUNT ==> i == from || i == FDS_COUNT)
      ensures forall j | from <= j < i && j < FDS_COUNT :: procs[p][j].Some?
    {
      i := from;
      while i < FDS_COUNT
        invariant from <= i && (i <= FDS_COUNT || i == from) && forall j | from <= j < i && j < FDS_COUNT :: procs[p][j].Some?
      {
        if procs[p][i] == None {
          return;
        }
        i := i + 1;
      }
    }

    /** syscall_open once the file system has opened the file, which starts with one reference. */
    method Open(p: nat) returns (r: int)
      requires Valid() && p < |procs|
      modifies this
      ensures Valid() && |procs| == |old(procs)| && |refs| == |old(refs)| + 1 && leaked == old(leaked) + [0]
      ensures r == EMFILE || 0 <= r < FDS_COUNT
      ensures r == EMFILE ==> procs == old(procs) && |old(refs)| in released && forall i | 0 <= i < FDS_COUNT :: procs[p][i].Some?
      ensures r >= 0 ==> procs == old(procs)[p := old(procs)[p][r := Some(|old(refs)|)]] && |old(refs)| !in released
      ensures r >= 0 ==> IsLowestFree(old(procs)[p], 0, r)
    {
      hide TotalUses;
      ghost var f := |refs|;
      assert TotalUses(procs, f) == 0 by { NeverNamed(f); }
      refs := refs + [1];
      leaked := leaked + [0];
      var i := FirstFree(p, 0);
      if i < FDS_COUNT {
        SlotFilled(procs, p, i, f);
        procs := procs[p := procs[p][i := Some(|refs| - 1)]];
        return i;
      }
      VfsClose(|refs| - 1);
      return EMFILE;
    }

    /** syscall_close; None when the descriptor lies past the table, which the call does not test. */
    method Close(p: nat, id: nat) returns (r: Option<int>)
      requires Valid() && p < |procs|
      modifies this
      ensures Valid() && |refs| == |old(refs)| && leaked == old(leaked)
      ensures r.None? <==> id >= FDS_COUNT
      ensures r.None? ==> procs == old(procs) && refs == old(refs) && released == old(released)
      ensures r.Some? ==> r.value == (if old(procs)[p][id] == None then EBADF else 0)
      ensures r.Some? ==> procs == old(procs)[p := old(procs)[p][id := None]]
      ensures forall f | f in released && f !in old(released) :: id < FDS_COUNT && old(procs)[p][id] == Some(f)
    {
      if id >= FDS_COUNT {
        return None;
      }
      if procs[p][id] == None {
        assert procs[p][id := None] == procs[p];
        return Some(EBADF);
      }
      var f := procs[p][id].value;
      TotalAt(procs, p, id, f);
      forall g | 0 <= g < |refs|
        ensures TotalUses(procs[p := procs[p][id := None]], g) == TotalUses(procs, g) - if g == f then 1 else 0
      {
        SlotUpdate(procs, p, id, None, g);
      }
      VfsClose(f);
      procs := procs[p := procs[p][id := None]];
      return Some(0);
    }

    /**
     F_DUPFD: a reference is taken before a slot is looked for, and kept if none is free.
     None when the descriptor lies outside the table, which the call does not test.
     */
    method Dup(p: nat, fd: CInt, arg: CInt) returns (r: Option<int>)
      requires Valid() && p < |procs|
      modifies this
      ensures Valid() && released == old(released)
      ensures r.None? <==> !(0 <= fd < FDS_COUNT)
      ensures r.None? || old(procs)[p][fd] == None ==> procs == old(procs) && refs == old(refs) && leaked == old(leaked)
      ensures r.Some? && old(procs)[p][fd] == None ==> r.value == EBADF
      ensures r.Some? && old(procs)[p][fd].Some? ==>
        var f := old(procs)[p][fd].value;
        && refs == old(refs)[f := old(refs)[f] + 1]
        && if exists i :: IsLowestFree(old(procs)[p], arg, i) then
             IsLowestFree(old(procs)[p], arg, r.value) && leaked == old(leaked)
             && procs == old(procs)[p := old(procs)[p][r.value := Some(f)]]
           else procs == old(procs) && leaked == old(leaked)[f := old(leaked)[f] + 1]
                && r.value == if 0 <= arg < FDS_COUNT then FDS_COUNT else arg
    {
      hide TotalUses;
      if fd < 0 || fd >= FDS_COUNT {
        return None;
      }
      if procs[p][fd] == None {
        return Some(EBADF);
      }
      var f := procs[p][fd].value;
      TotalAt(procs, p, fd, f);
      var more: nat := refs[f] + 1;
      refs := refs[f := more];
      var i := FirstFree(p, if arg < 0 then arg + WORD64 else arg);
      if i < FDS_COUNT {
        assert IsLowestFree(procs[p], arg, i);
        SlotFilled(procs, p, i, f);
        procs := procs[p := procs[p][i := Some(f)]];
      } else {
        ghost var lost: nat := leaked[f] + 1;
        leaked := leaked[f := lost];
      }
      return Some(if arg < 0 then i - WORD64 else i);
    }

    /** The descriptor copy in sched_new_proc: the child names every open file once more. */
    method Fork(p: nat)
      requires Valid() && p < |procs|
      modifies this
      ensures Valid() && released == old(released) && leaked == old(leaked)
      ensures procs == old(procs) + [old(procs)[p]]
    {
      var fds: Table := seq(FDS_COUNT, _ => None);
      forall g | 0 <= g < |refs| ensures Uses(fds, g) == 0 { NoUsesIn(fds, g); }
      var i := 0;
      while i < FDS_COUNT
        invariant i <= FDS_COUNT && |fds| == FDS_COUNT && procs == old(procs) && released == old(released) && leaked == old(leaked)
        invariant |refs| == |old(refs)|
        invariant forall j | 0 <= j < FDS_COUNT :: fds[j] == if j < i then procs[p][j] else None
        invariant forall g | 0 <= g < |refs| :: refs[g] == old(refs)[g] + Uses(fds, g)
      {
        if procs[p][i].Some? {
          var f := procs[p][i].value;
          forall g | 0 <= g < |refs| ensures Uses(fds[i := Some(f)], g) == Uses(fds, g) + if g == f then 1 else 0 {
            UsesUpdate(fds, i, Some(f), g);
          }
          fds := fds[i := Some(f)];
          var more: nat := refs[f] + 1;
          refs := refs[f := more];
        }
        i := i + 1;
      }
      assert fds == procs[p];
      forall g | 0 <= g < |refs| ensures TotalUses(procs + [fds], g) == TotalUses(procs, g) + Uses(fds, g) {
        assert (procs + [fds])[..|procs|] == procs;
      }
      forall g | 0 <= g < |refs| ensures refs[g] == 0 <==> old(refs)[g] == 0 {
        NotInTable(p, g);
      }
      procs := procs + [fds];
    }

    lemma NotInTable(p: nat, g: FileId)
      requires p < |procs|
      ensures Uses(procs[p], g) <= TotalUses(procs, g)
    {
      UsesWithin(procs, p, g);
    }

    /** One call; those of processes that do not exist are skipped. */
    method Serve(call: Call)
      requires Valid()
      modifies this
      ensures Valid() && View() == Next(old(View()), call)
    {
      hide TotalUses, Named, HasRoom;
      if call.p >= |procs| {
        return;
      }
      ghost var fds := procs[call.p];
      match call {
        case DoOpen(p) =>
          var r := Open(p);
          if r >= 0 { NamedIs(fds, 0, |old(leaked)|, r); } else { Crowded(fds); }
        case DoClose(p, id) =>
          var _ := Close(p, id);
        case DoDup(p, fd, arg) =>
          var r := Dup(p, fd, arg);
          if r.Some? && fds[fd].Some? { DupIs(fds, arg, fds[fd].value, r.value); }
        case DoFork(p) =>
          Fork(p);
      }
    }

    /**
     Any multi-process run: the tables and leaked references are those of the calls one after
     another, and every reference count stays equal to its slots plus its leaked references.
     */
    method Run(calls: seq<Call>)
      requires Valid()
      modifies this
      ensures Valid() && View() == After(old(View()), calls)
    {
      hide Next;
      var n := 0;
      while n < |calls|
        invariant Valid() && n <= |calls| && View() == After(old(View()), calls[..n])
      {
        Serve(calls[n]);
        assert calls[..n + 1][..n] == calls[..n];
        n := n + 1;
      }
      assert calls[..|calls|] == calls;
    }

    lemma NeverNamed(f: FileId)
      requires Valid() && f >= |refs|
      ensures TotalUses(procs, f) == 0
    {
      NoUses(procs, f);
    }
  }

  lemma {:induction false} UsesWithin(procs: seq<Table>, p: nat, f: FileId)
    requires p < |procs|
    ensures Uses(procs[p], f) <= TotalUses(procs, f)
  {
    if p < |procs| - 1 { UsesWithin(procs[..|procs| - 1], p, f); }
  }

  lemma {:induction false} NoUses(procs: seq<Table>, f: FileId)
    requires forall p, i | 0 <= p < |procs| && 0 <= i < |procs[p]| :: procs[p][i] != Some(f)
    ensures TotalUses(procs, f) == 0
  {
    if procs != [] {
      NoUses(procs[..|procs| - 1], f);
      NoUsesIn(procs[|procs| - 1], f);
    }
  }

  lemma {:induction false} NoUsesIn(fds: Table, f: FileId)
    requires forall i | 0 <= i < |fds| :: fds[i] != Some(f)
    ensures Uses(fds, f) == 0
  {
    if fds != [] { NoUsesIn(fds[..|fds| - 1], f); }
  }
}
