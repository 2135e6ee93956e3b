/**
 fat_find in one directory: the pass that builds the short name, the path pointer that is
 moved back afterwards, and the loop over the directory's entries.
 */
module NameSearch {
  import opened Common
  import opened FatLayout
  import opened Fat32
  import opened FatNames
  import L = LongNames

  const SLASH: Byte := '/' as int
  const DOT: Byte := '.' as int
  const SPACE: Byte := ' ' as int
  const BASE := 8 // characters of a short name before its extension
  const SHORT := 11

  // ----------------------------------------------------------------- components

  /** Where the component that starts at `from` ends. */
  function ComponentEnd(path: seq<Byte>, from: nat): (r: nat)
    requires from <= |path|
    ensures from <= r <= |path| && (r < |path| ==> path[r] == SLASH)
    ensures forall k | from <= k < r :: path[k] != SLASH
    decreases |path| - from
  {
    if from == |path| || path[from] == SLASH then from else ComponentEnd(path, from + 1)
  }

  function Component(path: seq<Byte>, from: nat): seq<Byte>
    requires from <= |path|
  {
    path[from..ComponentEnd(path, from)]
  }

  lemma ComponentTail(path: seq<Byte>, from: nat, k: nat)
    requires from <= k && from <= |path| && k <= ComponentEnd(path, from)
    ensures ComponentEnd(path, k) == ComponentEnd(path, from) && Component(path, k) == Component(path, from)[k - from..]
  {
    var e := ComponentEnd(path, from);
    assert e <= ComponentEnd(path, k) <= e;
  }

  // ------------------------------------------------------------- the short name

  /** The pass over the component: next position in the short name, characters read, the name so far. */
  datatype Pass = Pass(pos: nat, taken: nat, name: seq<Byte>)

  function Upper(b: Byte): Byte { if 0x61 <= b <= 0x7a then b - 0x20 else b }

  /** One character; the pass is over once the name is full. */
  function Step(s: Pass, b: Byte): Pass
    requires |s.name| == 12
  {
    if s.pos >= SHORT then s
    else if b == DOT then Pass(if s.pos < BASE then BASE else s.pos, s.taken + 1, s.name)
    else Pass(s.pos + 1, s.taken + 1, s.name[s.pos := Upper(b)])
  }

  /** The pass after at most n characters of the component. */
  function PassOf(c: seq<Byte>, n: nat): (s: Pass)
    requires n <= |c|
    ensures |s.name| == 12 && s.pos <= SHORT && s.taken <= n
  {
    if n == 0 then Pass(0, 0, seq(12, _ => SPACE)) else Step(PassOf(c, n - 1), c[n - 1])
  }

  lemma PassStart(c: seq<Byte>)
    ensures PassOf(c, 0) == Pass(0, 0, seq(12, _ => SPACE))
  {
  }

  lemma PassNext(c: seq<Byte>, n: nat)
    requires n < |c|
    ensures PassOf(c, n + 1) == Step(PassOf(c, n), c[n])
  {
  }

  lemma {:induction false} PassOver(c: seq<Byte>, k: nat, n: nat)
    requires k <= n <= |c| && PassOf(c, k).pos == SHORT
    ensures PassOf(c, n) == PassOf(c, k)
  {
    if k < n { PassOver(c, k, n - 1); }
  }

  method ShortName(path: seq<Byte>, from: nat) returns (short: seq<Byte>, pos: nat, at: nat)
    requires from <= |path|
    ensures var c := Component(path, from); from <= at <= |path| && PassOf(c, |c|) == Pass(pos, at - from, short)
  {
    hide Step, PassOf, ComponentEnd;
    ghost var c := Component(path, from);
    var name := new Byte[12](_ => SPACE);
    at, pos := from, 0;
    PassStart(c);
    assert name[..] == PassOf(c, 0).name;
    while at < |path| && pos != SHORT && path[at] != SLASH
      invariant from <= at <= from + |c| && pos <= SHORT && PassOf(c, at - from) == Pass(pos, at - from, name[..])
    {
      ghost var was := name[..];
      StepBy(Pass(pos, at - from, was), path[at]);
      PassNext(c, at - from);
      if path[at] == DOT {
        if pos < BASE {
          pos := BASE;
        }
      } else {
        name[pos] := Upper(path[at]);
        assert name[..] == was[pos := Upper(path[at])];
        pos := pos + 1;
      }
      at := at + 1;
    }
    if pos == SHORT { PassOver(c, at - from, |c|); }
    short := name[..];
  }

  lemma StepBy(s: Pass, b: Byte)
    requires |s.name| == 12 && s.pos < SHORT
    ensures b == DOT ==> Step(s, b) == Pass(if s.pos < BASE then BASE else s.pos, s.taken + 1, s.name)
    ensures b != DOT ==> Step(s, b) == Pass(s.pos + 1, s.taken + 1, s.name[s.pos := Upper(b)])
  {
  }

  const CAPITALS := "ABCDEFGHIJKLMNOPQRSTUVWXYZ"

  /** The capital of the letters a to z; every other character is its own. */
  function Capital(b: Byte): (c: Byte) {
    if 'a' as int <= b <= 'z' as int then CAPITALS[b - 'a' as int] as int else b
  }

  lemma UpperIsCapital(b: Byte)
    ensures Upper(b) == Capital(b)
  {
  }

  ghost predicate Dotless(s: seq<Byte>) { forall k | 0 <= k < |s| :: s[k] != DOT }

  /** The padded capitals of a short name. */
  function Padded(base: seq<Byte>, ext: seq<Byte>): (r: seq<Byte>)
    ensures |r| == 12
  {
    seq(12, k requires 0 <= k < 12 =>
      if k < BASE then (if k < |base| then Capital(base[k]) else SPACE)
      else if k - BASE < |ext| then Capital(ext[k - BASE]) else SPACE)
  }

  lemma {:induction false} BasePass(base: seq<Byte>, rest: seq<Byte>)
    requires |base| <= BASE && Dotless(base)
    ensures PassOf(base + rest, |base|) == Pass(|base|, |base|, Padded(base, []))
  {
    if base == [] {
      assert Padded([], []) == seq(12, _ => SPACE);
    } else {
      var b, x := base[..|base| - 1], base[|base| - 1];
      assert b + ([x] + rest) == base + rest;
      BasePass(b, [x] + rest);
      PassNext(base + rest, |b|);
      UpperIsCapital(x);
      assert Padded(b, [])[|b| := Capital(x)] == Padded(base, []);
    }
  }

  lemma {:induction false} ExtPass(base: seq<Byte>, ext: seq<Byte>, rest: seq<Byte>)
    requires |base| <= BASE && |ext| <= SHORT - BASE && Dotless(base) && Dotless(ext)
    ensures PassOf(base + [DOT] + ext + rest, |base| + 1 + |ext|) == Pass(BASE + |ext|, |base| + 1 + |ext|, Padded(base, ext))
  {
    hide PassOf;
    var c := base + [DOT] + ext + rest;
    if ext == [] {
      assert base + ([DOT] + rest) == c;
      BasePass(base, [DOT] + rest);
      PassNext(c, |base|);
    } else {
      var e, x := ext[..|ext| - 1], ext[|ext| - 1];
      assert base + [DOT] + e + ([x] + rest) == c;
      ExtPass(base, e, [x] + rest);
      PassNext(c, |base| + 1 + |e|);
      UpperIsCapital(x);
      assert Padded(base, e)[BASE + |e| := Capital(x)] == Padded(base, ext);
    }
  }

  /** A name of at most eight characters, a dot and at most three gives the padded capitals of its two parts. */
  lemma ShortIsPadded(base: seq<Byte>, ext: seq<Byte>)
    requires |base| <= BASE && |ext| <= SHORT - BASE && Dotless(base) && Dotless(ext)
    ensures var c := base + [DOT] + ext; PassOf(c, |c|).name == Padded(base, ext)
  {
    var c := base + [DOT] + ext;
    assert c + [] == c;
    ExtPass(base, ext, []);
  }

  // ----------------------------------------------------------------- the rewind

  /** The position in the short name runs ahead of the characters read by this much. */
  function Drift(c: seq<Byte>): int { PassOf(c, |c|).pos - PassOf(c, |c|).taken }

  function FirstDot(c: seq<Byte>): (d: nat)
    ensures d <= |c| && (d < |c| ==> c[d] == DOT) && forall k | 0 <= k < d :: c[k] != DOT
  {
    if c == [] || c[0] == DOT then 0 else 1 + FirstDot(c[1..])
  }

  /** Dots from index k on, up to the point where `room` other characters have been read. */
  function DotsBefore(c: seq<Byte>, k: nat, room: nat): nat
    requires k <= |c|
    decreases |c| - k
  {
    if k == |c| || room == 0 then 0
    else if c[k] == DOT then 1 + DotsBefore(c, k + 1, room)
    else DotsBefore(c, k + 1, room - 1)
  }

  lemma {:induction false} BeforeDot(c: seq<Byte>, n: nat)
    requires n <= FirstDot(c) && n <= SHORT
    ensures PassOf(c, n).pos == PassOf(c, n).taken == n
  {
    if n > 0 { BeforeDot(c, n - 1); }
  }

  lemma {:induction false} AfterDot(c: seq<Byte>, k: nat)
    requires k <= |c| && PassOf(c, k).pos >= BASE
    ensures var s := PassOf(c, k); Drift(c) == s.pos - s.taken - DotsBefore(c, k, SHORT - s.pos)
    decreases |c| - k
  {
    hide PassOf;
    if PassOf(c, k).pos == SHORT {
      PassOver(c, k, |c|);
    } else if k < |c| {
      PassNext(c, k);
      AfterDot(c, k + 1);
    }
  }

  lemma OnDot(c: seq<Byte>)
    requires FirstDot(c) < |c| && FirstDot(c) < SHORT
    ensures var d, s := FirstDot(c), PassOf(c, FirstDot(c) + 1);
            s.taken == d + 1 && s.pos == if d < BASE then BASE else d
  {
    hide FirstDot, PassOf;
    BeforeDot(c, FirstDot(c));
    PassNext(c, FirstDot(c));
  }

  /** The drift of every component, from where its dots are. */
  lemma DriftIs(c: seq<Byte>)
    ensures var d := FirstDot(c);
            Drift(c) == if d == |c| || d >= SHORT then 0
                        else if d < BASE then BASE - 1 - d - DotsBefore(c, d + 1, SHORT - BASE)
                        else -1 - DotsBefore(c, d + 1, SHORT - d)
  {
    hide DotsBefore, PassOf, FirstDot;
    var d := FirstDot(c);
    if d >= SHORT {
      BeforeDot(c, SHORT);
      PassOver(c, SHORT, |c|);
    } else if d == |c| {
      BeforeDot(c, d);
    } else {
      OnDot(c);
      AfterDot(c, d + 1);
    }
  }

  /** Where the long-name comparison starts to copy: the path pointer less the position. */
  function Rewound(path: seq<Byte>, from: nat): int
    requires from <= |path|
  {
    from - Drift(Component(path, from))
  }

  /** The copy starts at the component exactly when its first eleven characters hold no dot or its dots make up for each other. */
  lemma RewindsIff(path: seq<Byte>, from: nat)
    requires from <= |path|
    ensures var c := Component(path, from); var d := FirstDot(c);
            Rewound(path, from) == from <==>
              d == |c| || d >= SHORT || (d < BASE && DotsBefore(c, d + 1, SHORT - BASE) == BASE - 1 - d)
  {
    DriftIs(Component(path, from));
  }

  lemma {:induction false} NoDots(c: seq<Byte>, k: nat, room: nat)
    requires k <= |c| && forall n | k <= n < |c| :: c[n] != DOT
    ensures DotsBefore(c, k, room) == 0
    decreases |c| - k
  {
    if k < |c| && room > 0 { NoDots(c, k + 1, room - 1); }
  }

  /** A component with one dot is copied from its start exactly when the dot is its eighth character or comes after eleven. */
  lemma OneDot(path: seq<Byte>, from: nat, d: nat)
    requires from <= |path|
    requires var c := Component(path, from); d < |c| && forall k | 0 <= k < |c| :: c[k] == DOT <==> k == d
    ensures Rewound(path, from) == if d < BASE then from - (BASE - 1 - d) else if d < SHORT then from + 1 else from
  {
    hide DotsBefore, Drift, FirstDot, Component;
    var c := Component(path, from);
    DriftIs(c);
    var f := FirstDot(c);
    assert c[d] == DOT && (f < |c| ==> c[f] == DOT);
    NoDots(c, d + 1, SHORT - BASE);
    if BASE <= d < SHORT { NoDots(c, d + 1, SHORT - d); }
  }

  // --------------------------------------------------------------- the directory

  /** What a directory lists, in order; the slots of a long name are one item, its own entry the next. */
  datatype Item = Unused | Plain | Long(name: seq<Byte>) {
    function Width(): nat { if Long? then L.SlotCount(name) else 1 }
  }

  predicate IsUnused(first: Byte) { first == 0 || first == 0xe5 }

  /** The entry at which item k starts. */
  ghost function StartAt(items: seq<Item>, k: nat): nat
    requires k <= |items|
  {
    if k == 0 then 0 else StartAt(items, k - 1) + items[k - 1].Width()
  }

  /** The entries from `at` on are those of the item; a long name has at most 64 slots. */
  ghost predicate ItemAt(data: seq<Byte>, at: nat, it: Item) {
    && at + it.Width() <= |data| / SLOT
    && match it
       case Unused => IsUnused(Slot(data, at)[0])
       case Plain => !IsUnused(Slot(data, at)[0]) && Slot(data, at)[11] != 0x0f
       case Long(name) =>
         L.SlotCount(name) <= L.MAX_SLOTS && L.IsName(name) && L.Encodes(SlotsOf(data), at, name) && Slot(data, at)[11] == 0x0f
  }

  ghost predicate Lists(data: seq<Byte>, items: seq<Item>) {
    StartAt(items, |items|) == |data| / SLOT && forall k | 0 <= k < |items| :: ItemAt(data, StartAt(items, k), items[k])
  }

  lemma LongFirst(data: seq<Byte>, at: nat, name: seq<Byte>)
    requires ItemAt(data, at, Long(name))
    ensures !IsUnused(Slot(data, at)[0])
  {
    hide Slot, L.Placement, L.UnitsFrom;
    var len := L.SlotCount(name);
    assert SlotsOf(data)[at] == L.SlotOf(name, len - 1);
    L.PlacementLast(len);
  }

  // ------------------------------------------------------------------ the search

  /**
   A search for the component of the path that starts at `from`.  The short name is freed at the
   first long name that does not match; `stale` is what its memory holds when entry i is compared
   after that.
   */
  datatype Query = Query(data: seq<Byte>, path: seq<Byte>, from: nat, stale: seq<seq<Byte>>) {
    ghost predicate Valid() {
      && L.IsName(path) && from <= |path|
      && |stale| == |data| / SLOT && forall i | 0 <= i < |stale| :: |stale[i]| == 12
    }
  }

  /** The entry found, nothing, or an access outside path_name or before the path. */
  datatype Hit = NotFound | Entry(index: nat) | PastPathName | BeforePath

  datatype Verdict = GoOn | Stop(hit: Hit)

  ghost predicate AnyLong(items: seq<Item>, k: nat)
    requires k <= |items|
  {
    exists j | 0 <= j < k :: items[j].Long?
  }

  /** The component as the long names are compared with it; past 255 bytes only the first one sees all of it. */
  ghost function Compared(path: seq<Byte>, from: nat, first: bool): seq<Byte>
    requires from <= |path| && 0 <= Rewound(path, from) <= |path|
  {
    var c := Component(path, Rewound(path, from));
    if first then c else c[|c| - |c| % 256..]
  }

  /** What the search does at item k. */
  ghost function Judge(q: Query, items: seq<Item>, k: nat): Verdict
    requires q.Valid() && Lists(q.data, items) && k < |items|
  {
    var at := StartAt(items, k);
    RewoundInside(q.path, q.from);
    match items[k]
    case Unused => GoOn
    case Plain =>
      var c := Component(q.path, q.from);
      var short := if AnyLong(items, k) then q.stale[at] else PassOf(c, |c|).name;
      if short[..SHORT] == Slot(q.data, at)[..SHORT] then Stop(Entry(at)) else GoOn
    case Long(name) =>
      if L.SlotCount(name) * L.UNITS > L.PATH_NAME then Stop(PastPathName)
      else if Rewound(q.path, q.from) < 0 then Stop(BeforePath)
      else if L.Agrees(Compared(q.path, q.from, !AnyLong(items, k)), name) then Stop(Entry(at + L.SlotCount(name)))
      else GoOn
  }

  lemma RewoundInside(path: seq<Byte>, from: nat)
    requires from <= |path|
    ensures Rewound(path, from) <= |path|
  {
  }

  ghost predicate StopsFirst(q: Query, items: seq<Item>, k: nat, hit: Hit)
    requires q.Valid() && Lists(q.data, items)
  {
    k < |items| && Judge(q, items, k) == Stop(hit) && forall j | 0 <= j < k :: Judge(q, items, j) == GoOn
  }

  /** The search ends with the first item that stops it. */
  ghost predicate EndsWith(q: Query, items: seq<Item>, hit: Hit)
    requires q.Valid() && Lists(q.data, items)
  {
    if hit.NotFound? then forall k | 0 <= k < |items| :: Judge(q, items, k) == GoOn
    else exists k: nat :: StopsFirst(q, items, k, hit)
  }

  /** The path pointer and the position before item k is looked at. */
  ghost predicate PointerAt(q: Query, items: seq<Item>, k: nat, at: int, pos: int)
    requires q.Valid() && k <= |items|
  {
    var r := Rewound(q.path, q.from);
    if AnyLong(items, k) then
      0 <= r <= |q.path| && at == ComponentEnd(q.path, r) && pos == |Component(q.path, r)| % 256
    else at - pos == r
  }

  /** Moving the pointer back by the position and copying a component leaves it where the next long name expects it. */
  lemma PointerNext(q: Query, items: seq<Item>, k: nat, at: int, pos: int)
    requires q.Valid() && k < |items| && items[k].Long? && PointerAt(q, items, k, at, pos) && 0 <= Rewound(q.path, q.from)
    ensures 0 <= at - pos <= |q.path| && Rewound(q.path, q.from) <= |q.path|
    ensures var c := Component(q.path, at - pos);
            && c == Compared(q.path, q.from, !AnyLong(items, k))
            && PointerAt(q, items, k + 1, at - pos + |c|, |c| % 256)
  {
    hide Rewound, AnyLong, Component, ComponentEnd;
    RewoundInside(q.path, q.from);
    LongAfter(items, k);
    WrappedTail(q.path, Rewound(q.path, q.from));
  }

  /** The last |c| mod 256 bytes of a component are a component that ends where it ends. */
  lemma WrappedTail(path: seq<Byte>, r: nat)
    requires r <= |path|
    ensures ComponentEnd(path, r) == r + |Component(path, r)| <= |path|
    ensures var c := Component(path, r); var m := |c| % 256;
            0 <= m <= |c| && Component(path, r + |c| - m) == c[|c| - m..] && m % 256 == m
  {
    hide ComponentEnd;
    var c := Component(path, r);
    WrapFits(|c|);
    ComponentTail(path, r, r + |c| - |c| % 256);
  }

  lemma WrapFits(n: nat)
    ensures 0 <= n % 256 <= n && n % 256 % 256 == n % 256
  {
  }

  lemma StartNext(data: seq<Byte>, items: seq<Item>, k: nat)
    requires Lists(data, items) && k <= |items|
    ensures k < |items| <==> StartAt(items, k) < |data| / SLOT
    ensures k < |items| ==> ItemAt(data, StartAt(items, k), items[k]) && StartAt(items, k + 1) == StartAt(items, k) + items[k].Width()
  {
    hide StartAt, Slot, SlotsOf, IsUnused, L.Encodes, L.IsName;
    if k < |items| { StartStep(items, k); }
  }

  lemma StartStep(items: seq<Item>, k: nat)
    requires k < |items|
    ensures StartAt(items, k + 1) == StartAt(items, k) + items[k].Width()
  {
  }

  lemma SeesAll(name: seq<Byte>)
    requires L.SlotCount(name) <= L.MAX_SLOTS
    ensures L.Seen(name) == name
  {
    L.StartsAtZeroIff(name);
  }

  lemma PointerStays(q: Query, items: seq<Item>, k: nat, at: int, pos: int)
    requires q.Valid() && k < |items| && !items[k].Long? && PointerAt(q, items, k, at, pos)
    ensures PointerAt(q, items, k + 1, at, pos)
  {
    hide Rewound;
    LongAfter(items, k);
  }

  lemma LongAfter(items: seq<Item>, k: nat)
    requires k < |items|
    ensures AnyLong(items, k + 1) <==> AnyLong(items, k) || items[k].Long?
  {
    if AnyLong(items, k) {
      var j :| 0 <= j < k && items[j].Long?;
      assert items[j].Long?;
    }
  }

  /** The comparison with a long name: its slots, the rewound pointer, the copy. */
  method CompareLong(q: Query, dir: seq<L.Slot>, i: nat, at0: nat, pos0: nat, ghost items: seq<Item>, ghost k: nat)
    returns (v: Verdict, count: nat, at: nat, pos: nat)
    requires q.Valid() && Lists(q.data, items) && k < |items| && items[k].Long? && i == StartAt(items, k)
    requires dir == SlotsOf(q.data) && PointerAt(q, items, k, at0, pos0)
    ensures v == Judge(q, items, k) && (v.Stop? ==> !v.hit.NotFound?)
    ensures v.GoOn? ==> count == items[k].Width() && PointerAt(q, items, k + 1, at, pos)
  {
    hide Slot, SlotsOf, StartAt, Rewound, Compared, PointerAt, AnyLong, L.Encodes, L.Seen, L.NameByte, L.PathByte, PassOf, Component;
    ghost var name := items[k].name;
    StartNext(q.data, items, k);
    SeesAll(name);
    at, pos := at0, pos0;
    var counted, bytes := L.Gather(dir, i, name);
    count := counted.value;
    if |bytes| > L.PATH_NAME {
      return Stop(PastPathName), count, at, pos;
    }
    BackBefore(q, items, k, at, pos);
    if at < pos {
      return Stop(BeforePath), count, at, pos;
    }
    PointerNext(q, items, k, at, pos);
    at := at - pos;
    var component := Component(q.path, at);
    var same := L.Compare(component, bytes);
    at, pos := at + |component|, |component| % 256;
    v := if same.value then Stop(Entry(i + count)) else GoOn;
  }

  lemma BackBefore(q: Query, items: seq<Item>, k: nat, at: nat, pos: nat)
    requires q.Valid() && k <= |items| && PointerAt(q, items, k, at, pos)
    ensures at < pos <==> Rewound(q.path, q.from) < 0
  {
  }

  /** The loop over the entries stops at the first item that its comparison accepts. */
  method Search(q: Query, ghost items: seq<Item>) returns (r: Hit)
    requires q.Valid() && Lists(q.data, items)
    ensures EndsWith(q, items, r)
  {
    hide ItemAt, Lists, StartAt, Rewound, PointerAt, AnyLong, SlotsOf, PassOf, Judge, Component;
    var short, pos, at := ShortName(q.path, q.from);
    FirstPointer(q, items, at, pos);
    var dir := ReadSlots(q.data);
    var freed := false;
    var i := 0;
    ghost var k := 0;
    while i < |q.data| / SLOT
      invariant k <= |items| && i == StartAt(items, k) && PointerAt(q, items, k, at, pos) && (freed <==> AnyLong(items, k))
      invariant forall j | 0 <= j < k :: Judge(q, items, j) == GoOn
    {
      StartNext(q.data, items, k);
      LongAfter(items, k);
      var e := Slot(q.data, i);
      KindAt(q, items, k, short);
      if !items[k].Long? { PointerStays(q, items, k, at, pos); }
      if e[0] == 0 || e[0] == 0xe5 {
        i := i + 1;
      } else if e[11] == 0x0f {
        var v, count;
        v, count, at, pos := CompareLong(q, dir, i, at, pos, items, k);
        if v.Stop? {
          assert StopsFirst(q, items, k, v.hit);
          return v.hit;
        }
        freed := true;
        i := i + count;
      } else {
        var d := L.Strncmp(if freed then q.stale[i] else short, e, SHORT);
        if d == 0 {
          assert StopsFirst(q, items, k, Entry(i));
          return Entry(i);
        }
        i := i + 1;
      }
      k := k + 1;
    }
    StartNext(q.data, items, k);
    r := NotFound;
  }

  lemma FirstPointer(q: Query, items: seq<Item>, at: nat, pos: nat)
    requires q.Valid() && q.from <= at
    requires var c := Component(q.path, q.from); PassOf(c, |c|).pos == pos && PassOf(c, |c|).taken == at - q.from
    ensures PointerAt(q, items, 0, at, pos) && !AnyLong(items, 0) && StartAt(items, 0) == 0
  {
  }

  /** What kind of item the entry at hand belongs to, and what the search does with it. */
  lemma KindAt(q: Query, items: seq<Item>, k: nat, short: seq<Byte>)
    requires q.Valid() && Lists(q.data, items) && k < |items|
    requires var c := Component(q.path, q.from); short == PassOf(c, |c|).name
    ensures StartAt(items, k) < |q.data| / SLOT
    ensures var at := StartAt(items, k);
            var e := Slot(q.data, at);
            && (IsUnused(e[0]) <==> items[k].Unused?)
            && (!IsUnused(e[0]) ==> (e[11] == 0x0f <==> items[k].Long?))
            && (items[k].Unused? ==> Judge(q, items, k) == GoOn)
            && (items[k].Plain? ==>
                 var held := if AnyLong(items, k) then q.stale[at] else short;
                 Judge(q, items, k) == if held[..SHORT] == e[..SHORT] then Stop(Entry(at)) else GoOn)
  {
    hide Rewound, AnyLong, PassOf, SlotsOf, Component;
    StartNext(q.data, items, k);
    if items[k].Long? { LongFirst(q.data, StartAt(items, k), items[k].name); }
  }

  // ------------------------------------------------------------- what is found

  /** The component is below 256 bytes, its dots do not move the copy, and every listed name fits path_name. */
  ghost predicate Fair(q: Query, items: seq<Item>)
    requires q.Valid()
  {
    && Drift(Component(q.path, q.from)) == 0 && |Component(q.path, q.from)| < 256
    && forall k | 0 <= k < |items| && items[k].Long? :: |items[k].name| <= 246
  }

  /** A long name then stops the search exactly when it is the component. */
  lemma JudgesNames(q: Query, items: seq<Item>, k: nat)
    requires q.Valid() && Lists(q.data, items) && Fair(q, items) && k < |items| && items[k].Long?
    ensures Judge(q, items, k) ==
      if items[k].name == Component(q.path, q.from) then Stop(Entry(StartAt(items, k) + L.SlotCount(items[k].name))) else GoOn
  {
    hide StartAt, ItemAt, Slot, SlotsOf, Drift, PassOf, AnyLong, Component, Compared, L.IsName, L.Agrees;
    StartNext(q.data, items, k);
    ComparedIs(q.path, q.from, !AnyLong(items, k));
    NamesBoth(q, StartAt(items, k), items[k].name);
    L.AgreesIff(Component(q.path, q.from), items[k].name);
  }

  lemma ComparedIs(path: seq<Byte>, from: nat, first: bool)
    requires from <= |path| && Drift(Component(path, from)) == 0 && |Component(path, from)| < 256
    ensures Rewound(path, from) == from && Compared(path, from, first) == Component(path, from)
  {
    hide Drift, Component;
    var c := Component(path, from);
    assert c[0..] == c;
  }

  lemma NamesBoth(q: Query, at: nat, name: seq<Byte>)
    requires q.Valid() && ItemAt(q.data, at, Long(name))
    ensures L.IsName(name) && L.IsName(Component(q.path, q.from))
  {
    hide Slot, SlotsOf, L.Encodes;
  }

  /**
   If no plain entry stops the search, it finds the first long name that is the component, and
   nothing exactly when there is none.
   */
  lemma FindsName(q: Query, items: seq<Item>, hit: Hit)
    requires q.Valid() && Lists(q.data, items) && Fair(q, items) && EndsWith(q, items, hit)
    requires forall k | 0 <= k < |items| && items[k].Plain? :: Judge(q, items, k) == GoOn
    ensures hit.NotFound? <==> Long(Component(q.path, q.from)) !in items
    ensures !hit.NotFound? ==>
      exists k | 0 <= k < |items| ::
        && items[k] == Long(Component(q.path, q.from)) && (forall j | 0 <= j < k :: items[j] != items[k])
        && hit == Entry(StartAt(items, k) + items[k].Width())
  {
    hide Judge, StartAt, Component, Fair, Lists;
    var c := Component(q.path, q.from);
    forall k | 0 <= k < |items| && !items[k].Plain?
      ensures Judge(q, items, k) == if items[k] == Long(c) then Stop(Entry(StartAt(items, k) + items[k].Width())) else GoOn
    {
      if items[k].Long? { JudgesNames(q, items, k); } else { JudgesUnused(q, items, k); }
    }
    if !hit.NotFound? {
      var k: nat :| StopsFirst(q, items, k, hit);
      assert items[k] == Long(c);
      forall j | 0 <= j < k ensures items[j] != Long(c) { assert Judge(q, items, j) == GoOn; }
    }
  }

  lemma JudgesUnused(q: Query, items: seq<Item>, k: nat)
    requires q.Valid() && Lists(q.data, items) && k < |items| && items[k].Unused?
    ensures Judge(q, items, k) == GoOn
  {
  }

  /**
   A component whose one dot comes before its eighth character, near the start of the path, is
   never found: the first long name listed, whatever it is, makes the search read before the path.
   */
  lemma DottedNameLost(q: Query, items: seq<Item>, d: nat)
    requires q.Valid() && Lists(q.data, items) && items != [] && items[0].Long? && |items[0].name| <= 246
    requires var c := Component(q.path, q.from); d < |c| && forall k | 0 <= k < |c| :: c[k] == DOT <==> k == d
    requires q.from + d < BASE - 1
    ensures EndsWith(q, items, BeforePath)
  {
    hide Rewound, Lists;
    OneDot(q.path, q.from, d);
    assert StopsFirst(q, items, 0, BeforePath);
  }

  // ------------------------------------------------------------- storing and finding

  /** The listing with a long name in place of the unused entries from item a on. */
  ghost function Relisted(items: seq<Item>, a: nat, name: seq<Byte>): seq<Item>
    requires a + L.SlotCount(name) <= |items|
  {
    items[..a] + [Long(name)] + items[a + L.SlotCount(name)..]
  }

  lemma {:induction false} StartUnused(items: seq<Item>, a: nat, n: nat)
    requires a + n <= |items| && forall j | a <= j < a + n :: items[j].Unused?
    ensures StartAt(items, a + n) == StartAt(items, a) + n
  {
    if n > 0 { StartUnused(items, a, n - 1); }
  }

  lemma {:induction false} StartShift(items: seq<Item>, items': seq<Item>, a: nat, b: nat, n: nat)
    requires a + n <= |items| && b + n <= |items'| && StartAt(items, a) == StartAt(items', b)
    requires items[a..a + n] == items'[b..b + n]
    ensures StartAt(items, a + n) == StartAt(items', b + n)
  {
    if n > 0 {
      assert items[a..a + n - 1] == items[a..a + n][..n - 1] && items'[b..b + n - 1] == items'[b..b + n][..n - 1];
      assert items[a..a + n][n - 1] == items'[b..b + n][n - 1];
      StartShift(items, items', a, b, n - 1);
    }
  }

  lemma ItemKept(data: seq<Byte>, data': seq<Byte>, at: nat, it: Item)
    requires |data'| == |data| && ItemAt(data, at, it)
    requires forall n | at <= n < at + it.Width() :: Slot(data', n) == Slot(data, n)
    ensures ItemAt(data', at, it)
  {
    hide Slot, FromEntry, L.SlotOf;
    if it.Long? {
      var len := L.SlotCount(it.name);
      forall n | at <= n < at + len ensures SlotsOf(data')[n] == L.SlotOf(it.name, at + len - 1 - n) {
        assert SlotsOf(data)[n] == L.SlotOf(it.name, at + len - 1 - n) && Slot(data', n) == Slot(data, n);
      }
    }
  }

  /** Storing a name over unused entries lists it there; what else the directory lists stays listed. */
  lemma StoredIsListed(data: seq<Byte>, data': seq<Byte>, items: seq<Item>, a: nat, name: seq<Byte>, checksum: Byte)
    requires Lists(data, items) && L.IsName(name) && L.SlotCount(name) <= L.MAX_SLOTS && a + L.SlotCount(name) <= |items|
    requires forall j | a <= j < a + L.SlotCount(name) :: items[j].Unused?
    requires StoredSoFar(data, data', StartAt(items, a), name, checksum, L.SlotCount(name))
    ensures Lists(data', Relisted(items, a, name)) && StartAt(Relisted(items, a, name), a) == StartAt(items, a)
  {
    hide StartAt, ItemAt, StoredSoFar, L.SlotCount;
    var len, items' := L.SlotCount(name), Relisted(items, a, name);
    RelistedStarts(items, a, name, a);
    StoredItem(data, data', StartAt(items, a), name, checksum);
    forall k | 0 <= k < |items'| ensures ItemAt(data', StartAt(items', k), items'[k]) {
      RelistedStarts(items, a, name, k);
      if k < a {
        StartsBefore(data, items, k, a);
        OthersKept(data, data', StartAt(items, a), name, checksum, StartAt(items, k), items[k]);
      } else if k > a {
        StartUnused(items, a, len);
        StartsBefore(data, items, a + len, k - 1 + len);
        OthersKept(data, data', StartAt(items, a), name, checksum, StartAt(items, k - 1 + len), items[k - 1 + len]);
      }
    }
    RelistedStarts(items, a, name, |items'|);
  }

  lemma RelistedStarts(items: seq<Item>, a: nat, name: seq<Byte>, k: nat)
    requires a + L.SlotCount(name) <= |items| && k <= |items| + 1 - L.SlotCount(name)
    requires forall j | a <= j < a + L.SlotCount(name) :: items[j].Unused?
    ensures k <= a ==> StartAt(Relisted(items, a, name), k) == StartAt(items, k)
    ensures k > a ==> StartAt(Relisted(items, a, name), k) == StartAt(items, k - 1 + L.SlotCount(name))
  {
    hide StartAt, L.SlotCount;
    var len, items' := L.SlotCount(name), Relisted(items, a, name);
    var n := if k <= a then k else a;
    assert items[0..n] == items'[0..n];
    StartNone(items, items');
    StartShift(items, items', 0, 0, n);
    if k > a {
      StartUnused(items, a, len);
      StartStep(items', a);
      RelistedTail(items, a, name, k - a - 1);
      StartShift(items, items', a + len, a + 1, k - a - 1);
    }
  }

  lemma RelistedTail(items: seq<Item>, a: nat, name: seq<Byte>, n: nat)
    requires a + L.SlotCount(name) + n <= |items|
    ensures items[a + L.SlotCount(name)..a + L.SlotCount(name) + n] == Relisted(items, a, name)[a + 1..a + 1 + n]
  {
    hide L.SlotCount;
    var rest := items[a + L.SlotCount(name)..];
    assert Relisted(items, a, name)[a + 1..] == rest;
    assert rest[..n] == items[a + L.SlotCount(name)..a + L.SlotCount(name) + n];
  }

  lemma StartNone(items: seq<Item>, items': seq<Item>)
    ensures StartAt(items, 0) == StartAt(items', 0) == 0
  {
  }

  lemma {:induction false} StartsBefore(data: seq<Byte>, items: seq<Item>, k: nat, n: nat)
    requires Lists(data, items) && k <= n <= |items|
    ensures StartAt(items, k) <= StartAt(items, n)
    ensures k < n ==> StartAt(items, k) + items[k].Width() <= StartAt(items, n)
  {
    hide Lists;
    if k < n {
      StartStep(items, n - 1);
      StartsBefore(data, items, k, n - 1);
    }
  }

  lemma StoredItem(data: seq<Byte>, data': seq<Byte>, index: nat, name: seq<Byte>, checksum: Byte)
    requires L.IsName(name) && L.SlotCount(name) <= L.MAX_SLOTS
    requires StoredSoFar(data, data', index, name, checksum, L.SlotCount(name))
    ensures ItemAt(data', index, Long(name)) && |data'| == |data|
  {
    hide L.IsName, Slot, ToEntry, SlotsOf;
    StoredEncodes(data, data', index, name, checksum);
    assert EntryStored(data, data', index, name, checksum, L.SlotCount(name), index);
    SlotOfName(name, L.SlotCount(name) - 1);
    EntryAttribute(L.SlotOf(name, L.SlotCount(name) - 1), checksum);
  }

  lemma EntryAttribute(s: L.Slot, checksum: Byte)
    requires IsSlot(s)
    ensures ToEntry(s, checksum)[11] == 0x0f
  {
    hide Pack;
  }

  lemma OthersKept(data: seq<Byte>, data': seq<Byte>, index: nat, name: seq<Byte>, checksum: Byte, at: nat, it: Item)
    requires StoredSoFar(data, data', index, name, checksum, L.SlotCount(name)) && ItemAt(data, at, it)
    requires at + it.Width() <= index || index + L.SlotCount(name) <= at
    ensures ItemAt(data', at, it)
  {
    hide ItemAt, Slot, ToEntry, L.SlotOf, L.SlotCount;
    ItemInside(data, at, it);
    forall n | at <= n < at + it.Width() ensures Slot(data', n) == Slot(data, n) {
      assert EntryStored(data, data', index, name, checksum, L.SlotCount(name), n);
    }
    ItemKept(data, data', at, it);
  }

  lemma ItemInside(data: seq<Byte>, at: nat, it: Item)
    requires ItemAt(data, at, it)
    ensures at + it.Width() <= |data| / SLOT
  {
  }

  /** The search on the disk; None when reading the directory overruns the scratch buffer. */
  method SearchDirectory(fs: FatVolume, directory: nat, path: seq<Byte>, from: nat, stale: seq<seq<Byte>>,
                         ghost chain: seq<nat>, ghost items: seq<Item>)
    returns (r: Option<Hit>)
    requires fs.Valid() && IsChain(fs.vol, fs.dev.disk[..], FirstCluster(fs.vol, directory), chain)
    requires ClustersFit(fs.vol, fs.dev.disk.Length, chain)
    requires var data := ChainData(fs.vol, fs.dev.disk[..], chain);
             Query(data, path, from, stale).Valid() && Lists(data, items)
    ensures r.None? <==> fs.ScratchOverrun(chain)
    ensures r.Some? ==> EndsWith(Query(ChainData(fs.vol, fs.dev.disk[..], chain), path, from, stale), items, r.value)
  {
    hide IsChain, ChainData, ClustersFit, Lists, EndsWith;
    var data := ReadDirectory(fs, directory, chain);
    if data.None? {
      return None;
    }
    var hit := Search(Query(data.value, path, from, stale), items);
    return Some(hit);
  }

  /** No plain entry stops the search. */
  ghost predicate Quiet(q: Query, items: seq<Item>)
    requires q.Valid() && Lists(q.data, items)
  {
    forall k | 0 <= k < |items| && items[k].Plain? :: Judge(q, items, k) == GoOn
  }

  /**
   A name whose slots are stored over the unused entries from item a on, and then searched for:
   the search ends as the new listing says, and at the entry behind those slots if nothing listed
   before is taken for the name.
   */
  method StoreThenSearch(fs: FatVolume, directory: nat, index: nat, name: seq<Byte>, checksum: Byte,
                         path: seq<Byte>, from: nat, stale: seq<seq<Byte>>,
                         ghost chain: seq<nat>, ghost items: seq<Item>, ghost a: nat)
    returns (r: Option<Hit>)
    requires fs.Valid() && IsChain(fs.vol, fs.dev.disk[..], FirstCluster(fs.vol, directory), chain)
    requires ClustersFit(fs.vol, fs.dev.disk.Length, chain)
    requires var data := ChainData(fs.vol, fs.dev.disk[..], chain);
             Query(data, path, from, stale).Valid() && Lists(data, items)
    requires L.IsName(name) && L.SlotCount(name) <= L.MAX_SLOTS && a + L.SlotCount(name) <= |items| && index == StartAt(items, a)
    requires forall j | a <= j < a + L.SlotCount(name) :: items[j].Unused?
    modifies fs.dev.disk
    ensures ClustersFit(fs.vol, fs.dev.disk.Length, chain) && (r.None? <==> fs.ScratchOverrun(chain))
    ensures r.Some? ==>
      var q, items' := Query(ChainData(fs.vol, fs.dev.disk[..], chain), path, from, stale), Relisted(items, a, name);
      && q.Valid() && Lists(q.data, items') && EndsWith(q, items', r.value)
      && (Fair(q, items') && Quiet(q, items') && name == Component(path, from) && (forall j | 0 <= j < a :: items[j] != Long(name)) ==>
           r.value == Entry(index + L.SlotCount(name)))
  {
    hide IsChain, ChainData, ClustersFit, Lists, EndsWith, StoredSoFar, StartAt, Judge, Component, Fair, L.IsName, L.Encodes, SlotsOf;
    ghost var was := ChainData(fs.vol, fs.dev.disk[..], chain);
    HeldData(fs.vol, fs.dev.disk[..], FirstCluster(fs.vol, directory), chain);
    RoomFor(was, items, a, name);
    var w := StoreName(fs, directory, index, name, checksum, chain);
    if w.PastScratch? {
      return None;
    }
    ghost var data := ChainData(fs.vol, fs.dev.disk[..], chain);
    StoredIsListed(was, data, items, a, name, checksum);
    r := SearchDirectory(fs, directory, path, from, stale, chain, Relisted(items, a, name));
    ghost var q := Query(data, path, from, stale);
    if Fair(q, Relisted(items, a, name)) && Quiet(q, Relisted(items, a, name)) && name == Component(path, from)
       && (forall j | 0 <= j < a :: items[j] != Long(name)) {
      FindsStored(q, items, a, name, r.value);
    }
  }

  lemma RoomFor(data: seq<Byte>, items: seq<Item>, a: nat, name: seq<Byte>)
    requires Lists(data, items) && a + L.SlotCount(name) <= |items|
    requires forall j | a <= j < a + L.SlotCount(name) :: items[j].Unused?
    ensures (StartAt(items, a) + L.SlotCount(name)) * SLOT <= |data|
  {
    hide Lists, StartAt, L.SlotCount;
    StartUnused(items, a, L.SlotCount(name));
    StartsBefore(data, items, a + L.SlotCount(name), |items|);
    AllStarts(data, items);
  }

  lemma AllStarts(data: seq<Byte>, items: seq<Item>)
    requires Lists(data, items)
    ensures StartAt(items, |items|) == |data| / SLOT
  {
  }

  lemma FindsStored(q: Query, items: seq<Item>, a: nat, name: seq<Byte>, hit: Hit)
    requires q.Valid() && a + L.SlotCount(name) <= |items|
    requires var items' := Relisted(items, a, name);
             Lists(q.data, items') && Fair(q, items') && Quiet(q, items') && EndsWith(q, items', hit)
    requires name == Component(q.path, q.from) && forall j | 0 <= j < a :: items[j] != Long(name)
    requires StartAt(Relisted(items, a, name), a) == StartAt(items, a)
    ensures hit == Entry(StartAt(items, a) + L.SlotCount(name))
  {
    hide Lists, Fair, EndsWith, Judge, StartAt, Component;
    var items' := Relisted(items, a, name);
    FindsName(q, items', hit);
    assert items'[a] == Long(name) && forall j | 0 <= j < a :: items'[j] == items[j];
    var k :| 0 <= k < |items'| && items'[k] == Long(name) && (forall j | 0 <= j < k :: items'[j] != items'[k])
             && hit == Entry(StartAt(items', k) + items'[k].Width());
    assert !(k < a) && !(a < k);
  }
}
