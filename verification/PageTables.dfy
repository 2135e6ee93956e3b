/**
 Four-level page tables as values: physical frames holding 512 entries each, and the
 walk from a top-level frame to the entry of a virtual page.
 */
module PageTables {
  import opened Common

  const ENTRIES := 512
  const UPPER := 256 // first top-level index of the shared upper half
  const PAGE := 4096

  type Ram = seq<seq<nat>>

  function At(ram: Ram, f: nat, i: nat): nat {
    if f < |ram| && i < |ram[f]| then ram[f][i] else 0
  }

  function Store(ram: Ram, f: nat, i: nat, e: nat): Ram
    requires f < |ram| && i < |ram[f]|
  {
    var row: seq<nat> := ram[f][i := e];
    ram[f := row]
  }

  /** Bit 0 of an entry. */
  predicate Present(e: nat) { e % 2 == 1 }

  /** The frame an entry points at: the entry with its low twelve bits cleared, in frames. */
  function FrameOf(e: nat): nat { e / PAGE }

  // ---------------------------------------------------------- virtual addresses

  datatype Path = Path(i4: nat, i3: nat, i2: nat, i1: nat) {
    predicate Valid() { i4 < ENTRIES && i3 < ENTRIES && i2 < ENTRIES && i1 < ENTRIES }

    /** The index used in a table of the given level. */
    function Index(level: nat): nat {
      if level == 4 then i4 else if level == 3 then i3 else if level == 2 then i2 else i1
    }
  }

  function PathOf(va: nat): (p: Path)
    ensures p.Valid()
  {
    Path(va / 0x80_0000_0000 % ENTRIES, va / 0x4000_0000 % ENTRIES, va / 0x20_0000 % ENTRIES, va / PAGE % ENTRIES)
  }

  /** The page number of an address within the 48 translated bits. */
  function PageOf(va: nat): nat { va / PAGE % 0x10_0000_0000 }

  lemma PathDigits(va: nat)
    ensures var p := PathOf(va); PageOf(va) == ((p.i4 * ENTRIES + p.i3) * ENTRIES + p.i2) * ENTRIES + p.i1
  {
    var n := va / PAGE;
    var n1 := n / ENTRIES;
    var n2 := n1 / ENTRIES;
    var n3 := n2 / ENTRIES;
    assert va / 0x20_0000 == n1;
    assert va / 0x4000_0000 == n2;
    assert va / 0x80_0000_0000 == n3;
    Digits(n);
  }

  lemma Digits(n: nat)
    ensures n % 0x10_0000_0000 ==
              ((n / 512 / 512 / 512 % 512 * 512 + n / 512 / 512 % 512) * 512 + n / 512 % 512) * 512 + n % 512
  {
    var n1, n2, n3 := n / 512, n / 512 / 512, n / 512 / 512 / 512;
    Remainder(n3 / 512, n3 % 512, n2 % 512, n1 % 512, n % 512);
  }

  lemma Remainder(q: nat, a: nat, b: nat, c: nat, d: nat)
    requires a < 512 && b < 512 && c < 512 && d < 512
    ensures ((((q * 512 + a) * 512 + b) * 512 + c) * 512 + d) % 0x10_0000_0000 == ((a * 512 + b) * 512 + c) * 512 + d
  {
    LowPart(q, ((a * 512 + b) * 512 + c) * 512 + d);
  }

  lemma LowPart(q: nat, r: nat)
    requires r < 0x10_0000_0000
    ensures (q * 0x10_0000_0000 + r) % 0x10_0000_0000 == r
  {
  }

  /** Two addresses take the same path exactly when they lie in the same page. */
  lemma PathIsPage(va: nat, vb: nat)
    ensures PathOf(va) == PathOf(vb) <==> PageOf(va) == PageOf(vb)
  {
    hide PathOf, PageOf;
    SamePage(va, vb);
    if PageOf(va) == PageOf(vb) {
      PathDigits(va);
      PathDigits(vb);
      SameDigits(PathOf(va), PathOf(vb));
    }
  }

  lemma SamePage(va: nat, vb: nat)
    ensures PathOf(va) == PathOf(vb) ==> PageOf(va) == PageOf(vb)
  {
    hide PathOf, PageOf;
    PathDigits(va);
    PathDigits(vb);
  }

  lemma SameDigits(p: Path, q: Path)
    requires p.Valid() && q.Valid()
    requires ((p.i4 * ENTRIES + p.i3) * ENTRIES + p.i2) * ENTRIES + p.i1 == ((q.i4 * ENTRIES + q.i3) * ENTRIES + q.i2) * ENTRIES + q.i1
    ensures p == q
  {
    var x, y := p.i4 * ENTRIES + p.i3, q.i4 * ENTRIES + q.i3;
    LastDigit(x * ENTRIES + p.i2, p.i1, y * ENTRIES + q.i2, q.i1);
    LastDigit(x, p.i2, y, q.i2);
    LastDigit(p.i4, p.i3, q.i4, q.i3);
  }

  lemma LastDigit(x: nat, a: nat, y: nat, b: nat)
    requires a < 512 && b < 512 && x * 512 + a == y * 512 + b
    ensures x == y && a == b
  {
  }

  /** The shared upper half is the upper half of the 48-bit addresses. */
  lemma UpperIsHigh(va: nat)
    ensures PathOf(va).i4 >= UPPER <==> va % 0x1_0000_0000_0000 >= 0x8000_0000_0000
  {
    var n := va / 0x80_0000_0000;
    var r := va % 0x80_0000_0000;
    LowAddress(n / 512, n % 512, r);
  }

  lemma LowAddress(q: nat, a: nat, r: nat)
    requires a < 512 && r < 0x80_0000_0000
    ensures ((q * 512 + a) * 0x80_0000_0000 + r) % 0x1_0000_0000_0000 == a * 0x80_0000_0000 + r
  {
    assert (q * 512 + a) * 0x80_0000_0000 + r == q * 0x1_0000_0000_0000 + (a * 0x80_0000_0000 + r);
  }

  // ------------------------------------------------------------------- the walk

  function WalkFrom(ram: Ram, f: nat, level: nat, p: Path): nat
    decreases level
  {
    var e := At(ram, f, p.Index(level));
    if level <= 1 then e
    else if Present(e) then WalkFrom(ram, FrameOf(e), level - 1, p)
    else 0
  }

  /** The final entry for a path, 0 where a table is missing. */
  function Walk(ram: Ram, top: nat, p: Path): nat { WalkFrom(ram, top, 4, p) }

  /** The level-1 table a path reaches. */
  function Leaf(ram: Ram, f: nat, level: nat, p: Path): Option<nat>
    decreases level
  {
    if level <= 1 then Some(f)
    else
      var e := At(ram, f, p.Index(level));
      if Present(e) then Leaf(ram, FrameOf(e), level - 1, p) else None
  }

  /** Tables missing on the way from a table down to the level-1 table of a path. */
  function Missing(ram: Ram, f: nat, level: nat, p: Path): nat
    decreases level
  {
    if level <= 1 then 0
    else
      var e := At(ram, f, p.Index(level));
      if Present(e) then Missing(ram, FrameOf(e), level - 1, p) else level - 1
  }

  lemma {:induction false} NothingMissingIff(ram: Ram, f: nat, level: nat, p: Path)
    ensures Missing(ram, f, level, p) == 0 <==> Leaf(ram, f, level, p).Some?
    decreases level
  {
    if level > 1 { NothingMissingIff(ram, FrameOf(At(ram, f, p.Index(level))), level - 1, p); }
  }

  lemma NothingBelowLeaf(ram: Ram, f: nat, p: Path)
    ensures Missing(ram, f, 1, p) == 0
  {
  }

  /** Following a slot, once it has a table, leaves one table less to add if it had none. */
  lemma MissingStep(was: Ram, ram: Ram, f: nat, level: nat, p: Path, g: nat)
    requires level >= 2 && (if Present(At(was, f, p.Index(level))) then ram == was && g == FrameOf(At(was, f, p.Index(level)))
                            else forall k: nat :: At(ram, g, k) == 0)
    ensures Missing(was, f, level, p) == Missing(ram, g, level - 1, p) + if Present(At(was, f, p.Index(level))) then 0 else 1
  {
  }

  // ----------------------------------------------------------- frames and tables

  /** The frames in use grew by exactly the tables added. */
  ghost predicate Took(used: set<nat>, tables: set<nat>, used': set<nat>, tables': set<nat>) {
    tables <= tables' && used' == used + (tables' - tables)
  }

  lemma TookNone(used: set<nat>, tables: set<nat>)
    ensures Took(used, tables, used, tables)
  {
  }

  lemma TookTrans(u0: set<nat>, t0: set<nat>, u1: set<nat>, t1: set<nat>, u2: set<nat>, t2: set<nat>)
    requires Took(u0, t0, u1, t1) && Took(u1, t1, u2, t2)
    ensures Took(u0, t0, u2, t2)
  {
  }

  // ------------------------------------------------------------ shape of the tree

  /** Which frames are tables, at which level, and the one slot that owns each. */
  datatype Shape = Shape(kernel: nat, level: map<nat, nat>, parent: map<nat, (nat, nat)>) {

    /** The slot counted as the owner of a child: the kernel's for the shared upper half. */
    function Owner(f: nat, i: nat): (nat, nat)
      requires f in level
    {
      (if level[f] == 4 && i >= UPPER then kernel else f, i)
    }
  }

  ghost predicate ChildOk(ram: Ram, s: Shape, f: nat, i: nat)
    requires f in s.level
  {
    s.level[f] >= 2 && Present(At(ram, f, i)) ==>
      var g := FrameOf(At(ram, f, i));
      && g in s.level && s.level[g] == s.level[f] - 1 && g in s.parent && s.parent[g] == s.Owner(f, i)
      && At(ram, f, i) == g * PAGE + 7
  }

  ghost predicate Tree(ram: Ram, s: Shape) {
    && (forall f | 0 <= f < |ram| :: |ram[f]| == ENTRIES)
    && (forall f | f in s.level :: 0 < f < |ram| && 1 <= s.level[f] <= 4)
    && s.kernel in s.level && s.level[s.kernel] == 4
    && (forall f, i: nat | f in s.level :: ChildOk(ram, s, f, i))
    && (forall f, i: nat | f in s.level && s.level[f] == 4 && UPPER <= i < ENTRIES :: At(ram, f, i) == At(ram, s.kernel, i))
  }

  /** Top-level entries 256..n-1 are in place. */
  ghost predicate UpperFilled(ram: Ram, s: Shape, n: nat) {
    forall i | UPPER <= i < n :: Present(At(ram, s.kernel, i))
  }

  lemma InTree(ram: Ram, s: Shape, f: nat)
    requires Tree(ram, s) && f in s.level
    ensures 0 < f < |ram| && |ram[f]| == ENTRIES && 1 <= s.level[f] <= 4
  {
  }

  /** Every entry above level 1 is present, writable and open to user code, and leads to a table one level down. */
  lemma Child(ram: Ram, s: Shape, f: nat, i: nat)
    requires Tree(ram, s) && f in s.level && s.level[f] >= 2 && Present(At(ram, f, i))
    ensures var g := FrameOf(At(ram, f, i));
            && g in s.level && s.level[g] == s.level[f] - 1 && g in s.parent && s.parent[g] == s.Owner(f, i)
            && At(ram, f, i) == g * PAGE + 7
  {
    assert ChildOk(ram, s, f, i);
  }

  // --------------------------------------------------------- no two paths collide

  /** Two walks that end in the same level-1 table came down the same slots. */
  lemma {:induction false} LeafInjective(ram: Ram, s: Shape, f: nat, f': nat, level: nat, p: Path, p': Path)
    requires Tree(ram, s) && f in s.level && f' in s.level && s.level[f] == s.level[f'] == level && 1 <= level <= 4
    requires Leaf(ram, f, level, p).Some? && Leaf(ram, f, level, p) == Leaf(ram, f', level, p')
    ensures forall l | 2 <= l <= level :: p.Index(l) == p'.Index(l)
    ensures f == f' || (level == 4 && p.i4 >= UPPER)
    decreases level
  {
    if level >= 2 {
      var i, i' := p.Index(level), p'.Index(level);
      Child(ram, s, f, i);
      Child(ram, s, f', i');
      LeafInjective(ram, s, FrameOf(At(ram, f, i)), FrameOf(At(ram, f', i')), level - 1, p, p');
    }
  }

  lemma {:induction false} LeafIsTable(ram: Ram, s: Shape, f: nat, level: nat, p: Path)
    requires Tree(ram, s) && f in s.level && s.level[f] == level && 1 <= level
    requires Leaf(ram, f, level, p).Some?
    ensures Leaf(ram, f, level, p).value in s.level && s.level[Leaf(ram, f, level, p).value] == 1
    decreases level
  {
    if level >= 2 {
      Child(ram, s, f, p.Index(level));
      LeafIsTable(ram, s, FrameOf(At(ram, f, p.Index(level))), level - 1, p);
    }
  }

  // ------------------------------------------------------------------ leaf writes

  /** A write into a level-1 table shows at exactly the walks that end in that slot. */
  lemma {:induction false} WalkAfterStore(ram: Ram, s: Shape, g: nat, i: nat, e: nat, f: nat, level: nat, p: Path)
    requires Tree(ram, s) && g in s.level && s.level[g] == 1 && i < ENTRIES && p.Valid()
    requires f in s.level && s.level[f] == level && 1 <= level
    ensures WalkFrom(Store(ram, g, i, e), f, level, p) ==
              if Leaf(ram, f, level, p) == Some(g) && p.i1 == i then e else WalkFrom(ram, f, level, p)
    decreases level
  {
    if level >= 2 && Present(At(ram, f, p.Index(level))) {
      Child(ram, s, f, p.Index(level));
      WalkAfterStore(ram, s, g, i, e, FrameOf(At(ram, f, p.Index(level))), level - 1, p);
    }
  }

  /** Which (pagemap, path) pairs a write at (top, p) reaches. */
  predicate SameSlot(top: nat, p: Path, top': nat, p': Path) {
    p == p' && (top == top' || p.i4 >= UPPER)
  }

  /**
   Writing the entry of path p in pagemap `top` is one update of a flat map: the slot
   itself, in every pagemap if the path is in the upper half, and nothing else.
   */
  lemma StoreIsFlatUpdate(ram: Ram, s: Shape, top: nat, p: Path, e: nat, top': nat, p': Path)
    requires Tree(ram, s) && p.Valid() && p'.Valid()
    requires top in s.level && s.level[top] == 4 && top' in s.level && s.level[top'] == 4
    requires Leaf(ram, top, 4, p).Some?
    ensures Leaf(ram, top, 4, p).value < |ram|
    ensures Walk(Store(ram, Leaf(ram, top, 4, p).value, p.i1, e), top', p') ==
              if SameSlot(top, p, top', p') then e else Walk(ram, top', p')
  {
    var g := Leaf(ram, top, 4, p).value;
    LeafIsTable(ram, s, top, 4, p);
    WalkAfterStore(ram, s, g, p.i1, e, top', 4, p');
    if Leaf(ram, top', 4, p') == Some(g) && p'.i1 == p.i1 {
      LeafInjective(ram, s, top, top', 4, p, p');
      assert p.Index(4) == p'.Index(4) && p.Index(3) == p'.Index(3) && p.Index(2) == p'.Index(2);
    } else if SameSlot(top, p, top', p') {
      SharedLeaf(ram, s, top, top', p);
    }
  }

  lemma SharedLeaf(ram: Ram, s: Shape, top: nat, top': nat, p: Path)
    requires Tree(ram, s) && p.Valid() && (top == top' || p.i4 >= UPPER)
    requires top in s.level && s.level[top] == 4 && top' in s.level && s.level[top'] == 4
    ensures Leaf(ram, top, 4, p) == Leaf(ram, top', 4, p)
    ensures Walk(ram, top, p) == Walk(ram, top', p)
  {
  }

  lemma StoreKeepsTree(ram: Ram, s: Shape, g: nat, i: nat, e: nat)
    requires Tree(ram, s) && g in s.level && s.level[g] == 1 && i < ENTRIES
    ensures g < |ram| && |ram[g]| == ENTRIES && |Store(ram, g, i, e)| == |ram|
    ensures Tree(Store(ram, g, i, e), s)
    ensures UpperFilled(ram, s, ENTRIES) ==> UpperFilled(Store(ram, g, i, e), s, ENTRIES)
  {
    var r := Store(ram, g, i, e);
    assert forall k: nat :: At(r, s.kernel, k) == At(ram, s.kernel, k);
    forall f, k: nat | f in s.level ensures ChildOk(r, s, f, k) {
      assert ChildOk(ram, s, f, k);
    }
    forall f, k: nat | f in s.level && s.level[f] == 4 && UPPER <= k < ENTRIES ensures At(r, f, k) == At(r, s.kernel, k) {
      assert At(r, f, k) == At(ram, f, k) && At(r, s.kernel, k) == At(ram, s.kernel, k);
    }
  }

  // -------------------------------------------------------------- linking a table

  /** A zeroed frame g hung below slot i of table f. */
  function Link(ram: Ram, f: nat, i: nat, g: nat, e: nat): Ram
    requires f < |ram| && g < |ram| && f != g && i < |ram[f]|
  {
    Store(ram[g := Zeros()], f, i, e)
  }

  function Zeros(): seq<nat> { seq(ENTRIES, _ => 0) }

  function Grown(s: Shape, f: nat, i: nat, g: nat): Shape
    requires f in s.level && s.level[f] >= 2
  {
    s.(level := s.level[g := s.level[f] - 1], parent := s.parent[g := s.Owner(f, i)])
  }

  ghost predicate CanLink(ram: Ram, s: Shape, f: nat, i: nat, g: nat, e: nat) {
    && Tree(ram, s) && f in s.level && s.level[f] >= 2 && i < ENTRIES && !Present(At(ram, f, i))
    && 0 < g < |ram| && g !in s.level && FrameOf(e) == g && e == g * PAGE + 7
    && (s.level[f] == 4 && i >= UPPER ==> forall t | t in s.level && s.level[t] == 4 :: t == s.kernel)
  }

  lemma CanLinkFacts(ram: Ram, s: Shape, f: nat, i: nat, g: nat, e: nat)
    requires CanLink(ram, s, f, i, g, e)
    ensures f < |ram| && |ram[f]| == ENTRIES && i < ENTRIES && g < |ram| && g != f && FrameOf(e) == g
  {
  }

  lemma LinkAt(ram: Ram, s: Shape, f: nat, i: nat, g: nat, e: nat, f': nat, k: nat)
    requires CanLink(ram, s, f, i, g, e)
    ensures At(Link(ram, f, i, g, e), f', k) == if f' == f && k == i then e else if f' == g then 0 else At(ram, f', k)
  {
  }

  lemma LinkKeepsTree(ram: Ram, s: Shape, f: nat, i: nat, g: nat, e: nat)
    requires CanLink(ram, s, f, i, g, e)
    ensures Tree(Link(ram, f, i, g, e), Grown(s, f, i, g))
  {
    var r, t := Link(ram, f, i, g, e), Grown(s, f, i, g);
    forall h, k: nat | h in t.level ensures ChildOk(r, t, h, k) {
      LinkAt(ram, s, f, i, g, e, h, k);
      if h != g { assert ChildOk(ram, s, h, k); }
    }
    forall h, k: nat | h in t.level && t.level[h] == 4 && UPPER <= k < ENTRIES
      ensures At(r, h, k) == At(r, s.kernel, k)
    {
      LinkAt(ram, s, f, i, g, e, h, k);
      LinkAt(ram, s, f, i, g, e, s.kernel, k);
    }
  }

  /** Hanging an empty table changes no walk: it reads as zeros where the walk stopped before. */
  lemma {:induction false} WalkAfterLink(ram: Ram, s: Shape, f: nat, i: nat, g: nat, e: nat, h: nat, level: nat, p: Path)
    requires CanLink(ram, s, f, i, g, e) && p.Valid()
    requires h in s.level && s.level[h] == level && 1 <= level
    ensures WalkFrom(Link(ram, f, i, g, e), h, level, p) == WalkFrom(ram, h, level, p)
    decreases level
  {
    LinkAt(ram, s, f, i, g, e, h, p.Index(level));
    if level >= 2 {
      if h == f && p.Index(level) == i {
        EmptyTable(ram, s, f, i, g, e, level - 1, p);
      } else if Present(At(ram, h, p.Index(level))) {
        Child(ram, s, h, p.Index(level));
        WalkAfterLink(ram, s, f, i, g, e, FrameOf(At(ram, h, p.Index(level))), level - 1, p);
      }
    }
  }

  lemma EmptyTable(ram: Ram, s: Shape, f: nat, i: nat, g: nat, e: nat, level: nat, p: Path)
    requires CanLink(ram, s, f, i, g, e)
    ensures WalkFrom(Link(ram, f, i, g, e), g, level, p) == 0
  {
  }

  // ---------------------------------------------------------- a new top-level table

  /** The frame of a new pagemap: an empty lower half and the kernel's upper half. */
  function TopRow(ram: Ram, kernel: nat): seq<nat> {
    seq(ENTRIES, i requires 0 <= i => if i < UPPER then 0 else At(ram, kernel, i))
  }

  function WithTop(s: Shape, g: nat): Shape {
    s.(level := s.level[g := 4])
  }

  ghost predicate CanAddTop(ram: Ram, s: Shape, g: nat) {
    Tree(ram, s) && 0 < g < |ram| && g !in s.level
  }

  lemma TopKeepsTree(ram: Ram, s: Shape, g: nat)
    requires CanAddTop(ram, s, g)
    ensures Tree(ram[g := TopRow(ram, s.kernel)], WithTop(s, g))
    ensures UpperFilled(ram, s, ENTRIES) ==> UpperFilled(ram[g := TopRow(ram, s.kernel)], WithTop(s, g), ENTRIES)
  {
    var r, t := ram[g := TopRow(ram, s.kernel)], WithTop(s, g);
    forall h, k: nat | h in t.level ensures ChildOk(r, t, h, k) {
      assert ChildOk(ram, s, s.kernel, k);
      if h != g { assert ChildOk(ram, s, h, k); }
    }
    forall h, k: nat | h in t.level && t.level[h] == 4 && UPPER <= k < ENTRIES ensures At(r, h, k) == At(r, s.kernel, k) {
      assert At(r, h, k) == At(ram, if h == g then s.kernel else h, k);
    }
    TopKeepsFilled(ram, s, g);
  }

  lemma TopKeepsFilled(ram: Ram, s: Shape, g: nat)
    requires CanAddTop(ram, s, g)
    ensures UpperFilled(ram, s, ENTRIES) ==> UpperFilled(ram[g := TopRow(ram, s.kernel)], WithTop(s, g), ENTRIES)
  {
    assert s.kernel != g;
    var r := ram[g := TopRow(ram, s.kernel)];
    if UpperFilled(ram, s, ENTRIES) {
      forall k | UPPER <= k < ENTRIES ensures Present(At(r, s.kernel, k)) {
        assert Present(At(ram, s.kernel, k));
      }
    }
  }

  lemma {:induction false} WalkAfterTop(ram: Ram, s: Shape, g: nat, h: nat, level: nat, p: Path)
    requires CanAddTop(ram, s, g) && p.Valid()
    requires h in s.level && s.level[h] == level && 1 <= level
    ensures WalkFrom(ram[g := TopRow(ram, s.kernel)], h, level, p) == WalkFrom(ram, h, level, p)
    decreases level
  {
    assert At(ram[g := TopRow(ram, s.kernel)], h, p.Index(level)) == At(ram, h, p.Index(level));
    if level >= 2 && Present(At(ram, h, p.Index(level))) {
      Child(ram, s, h, p.Index(level));
      WalkAfterTop(ram, s, g, FrameOf(At(ram, h, p.Index(level))), level - 1, p);
    }
  }

  /** A new pagemap translates nothing below and the kernel's upper half above; no other pagemap changes. */
  lemma NewTopWalks(ram: Ram, s: Shape, g: nat, top: nat, p: Path)
    requires CanAddTop(ram, s, g) && p.Valid() && top in s.level && s.level[top] == 4
    ensures var r := ram[g := TopRow(ram, s.kernel)];
            && Walk(r, top, p) == Walk(ram, top, p)
            && Walk(r, g, p) == if p.i4 < UPPER then 0 else Walk(ram, s.kernel, p)
  {
    var r := ram[g := TopRow(ram, s.kernel)];
    WalkAfterTop(ram, s, g, top, 4, p);
    WalkAfterTop(ram, s, g, s.kernel, 4, p);
    assert At(r, g, p.i4) == if p.i4 < UPPER then 0 else At(ram, s.kernel, p.i4);
    if p.i4 >= UPPER {
      TopKeepsTree(ram, s, g);
      SharedLeaf(r, WithTop(s, g), g, s.kernel, p);
    }
  }

  lemma FillStep(was: Ram, ram: Ram, before: Shape, s: Shape, i: nat)
    requires before.kernel == s.kernel && UpperFilled(was, before, i) && Present(At(ram, s.kernel, i))
    requires forall k: nat | Present(At(was, s.kernel, k)) :: At(ram, s.kernel, k) == At(was, s.kernel, k)
    ensures UpperFilled(ram, s, i + 1)
  {
  }

  /** A single zeroed top-level table is a tree with no entries. */
  lemma ZeroTop(ram: Ram, top: nat)
    requires 0 < top < |ram| && ram[top] == Zeros() && forall f | 0 <= f < |ram| :: |ram[f]| == ENTRIES
    ensures var s := Shape(top, map[top := 4], map[]); Tree(ram, s) && UpperFilled(ram, s, UPPER)
    ensures forall p: Path | p.Valid() :: Walk(ram, top, p) == 0
  {
  }

  // ------------------------------------------------------------------- entry values

  /** Bitwise or. */
  function Or(a: nat, b: nat): nat {
    if a == 0 then b else if b == 0 then a
    else 2 * Or(a / 2, b / 2) + (if a % 2 == 1 || b % 2 == 1 then 1 else 0)
  }

  function Pow2(k: nat): nat { if k == 0 then 1 else 2 * Pow2(k - 1) }

  function Bit(x: nat, k: nat): bool { if k == 0 then x % 2 == 1 else Bit(x / 2, k - 1) }

  /** Every bit of the result is set exactly when it is set in either operand. */
  lemma {:induction false} OrBit(a: nat, b: nat, k: nat)
    ensures Bit(Or(a, b), k) <==> Bit(a, k) || Bit(b, k)
    decreases k
  {
    hide Or, Bit;
    BitStep(a, k);
    BitStep(b, k);
    BitStep(Or(a, b), k);
    OrHalves(a, b);
    if k > 0 { OrBit(a / 2, b / 2, k - 1); }
  }

  lemma BitStep(x: nat, k: nat)
    ensures Bit(x, k) <==> if k == 0 then x % 2 == 1 else Bit(x / 2, k - 1)
  {
  }

  lemma OrHalves(a: nat, b: nat)
    ensures Or(a, b) / 2 == Or(a / 2, b / 2) && (Or(a, b) % 2 == 1 <==> a % 2 == 1 || b % 2 == 1)
  {
  }

  lemma {:induction false} OrDisjoint(q: nat, b: nat, k: nat)
    requires b < Pow2(k)
    ensures Or(q * Pow2(k), b) == q * Pow2(k) + b
    decreases k
  {
    if k > 0 && q > 0 && b > 0 {
      var half := q * Pow2(k - 1);
      assert q * Pow2(k) == 2 * half;
      assert half > 0;
      OrDisjoint(q, b / 2, k - 1);
    }
  }

  /** A page-aligned address or-ed with flags below 4096 keeps both parts apart. */
  lemma OrPageFlags(phys: nat, flags: nat)
    requires phys % PAGE == 0 && flags < PAGE
    ensures Or(phys, flags) == phys + flags
    ensures FrameOf(Or(phys, flags)) == phys / PAGE
    ensures Present(Or(phys, flags)) <==> flags % 2 == 1
  {
    assert Pow2(12) == PAGE;
    OrDisjoint(phys / PAGE, flags, 12);
    hide Or, Pow2;
    PageParts(phys, flags);
  }

  lemma PageParts(phys: nat, flags: nat)
    requires phys % PAGE == 0 && flags < PAGE
    ensures FrameOf(phys + flags) == phys / PAGE && (Present(phys + flags) <==> flags % 2 == 1)
  {
    var q := phys / PAGE;
    assert phys == q * PAGE && phys + flags == 2 * (2048 * q) + flags;
  }

  /** What a lookup answers for an entry. */
  function Address(e: nat): nat {
    if Present(e) then FrameOf(e) * PAGE else 0
  }

  /** Mapping an aligned address with the present flag is what a later lookup answers. */
  lemma MappedAddress(phys: nat, flags: nat)
    requires phys % PAGE == 0 && flags < PAGE
    ensures Address(Or(phys, flags)) == if flags % 2 == 1 then phys else 0
  {
    OrPageFlags(phys, flags);
  }

  lemma {:induction false} LeafEntry(ram: Ram, f: nat, level: nat, p: Path)
    requires 1 <= level && Leaf(ram, f, level, p).Some?
    ensures WalkFrom(ram, f, level, p) == At(ram, Leaf(ram, f, level, p).value, p.i1)
    decreases level
  {
    if level >= 2 { LeafEntry(ram, FrameOf(At(ram, f, p.Index(level))), level - 1, p); }
  }

  lemma UpperPresent(ram: Ram, s: Shape, top: nat, p: Path)
    requires Tree(ram, s) && UpperFilled(ram, s, ENTRIES) && top in s.level && s.level[top] == 4 && p.Valid()
    ensures p.i4 >= UPPER ==> Present(At(ram, top, p.i4))
  {
  }

  /** Hanging an empty table changes no translation and no present entry. */
  lemma LinkedTable(ram: Ram, s: Shape, f: nat, i: nat, g: nat, e: nat)
    requires CanLink(ram, s, f, i, g, e)
    ensures var r, t := Link(ram, f, i, g, e), Grown(s, f, i, g);
            && Tree(r, t) && At(r, f, i) == e && (forall k: nat :: At(r, g, k) == 0)
            && t.kernel == s.kernel && t.level == s.level[g := s.level[f] - 1]
            && (forall top, p: Path | top in s.level && s.level[top] == 4 && p.Valid() :: Walk(r, top, p) == Walk(ram, top, p))
            && (forall h, k: nat | h in s.level && Present(At(ram, h, k)) :: At(r, h, k) == At(ram, h, k))
  {
    var r := Link(ram, f, i, g, e);
    LinkKeepsTree(ram, s, f, i, g, e);
    LinkAt(ram, s, f, i, g, e, f, i);
    forall k: nat ensures At(r, g, k) == 0 { LinkAt(ram, s, f, i, g, e, g, k); }
    forall top, p: Path | top in s.level && s.level[top] == 4 && p.Valid() ensures Walk(r, top, p) == Walk(ram, top, p) {
      WalkAfterLink(ram, s, f, i, g, e, top, 4, p);
    }
    forall h, k: nat | h in s.level && Present(At(ram, h, k)) ensures At(r, h, k) == At(ram, h, k) {
      LinkAt(ram, s, f, i, g, e, h, k);
    }
  }

  // ----------------------------------------------------------------- whole runs

  /** One call into the manager; m numbers the pagemaps in creation order, the kernel's being 0. */
  datatype Call =
    | Map(m: nat, phys: nat, va: nat, flags: nat)
    | Unmap(m: nat, va: nat)
    | Lookup(m: nat, va: nat)
    | Create

  function Created(calls: seq<Call>): nat {
    if calls == [] then 1
    else Created(calls[..|calls| - 1]) + if calls[|calls| - 1].Create? then 1 else 0
  }

  /** Every call names a pagemap that exists by then. */
  ghost predicate WellFormed(calls: seq<Call>) {
    forall n | 0 <= n < |calls| && !calls[n].Create? :: calls[n].m < Created(calls[..n])
  }

  /** The flat-map reading of a run: the entry last written for a path as pagemap m sees it. */
  function LastEntry(calls: seq<Call>, m: nat, p: Path): nat {
    if calls == [] then 0
    else
      match calls[|calls| - 1]
      case Map(k, phys, va, flags) =>
        if PathOf(va) == p && (k == m || p.i4 >= UPPER) then Or(phys, flags) else LastEntry(calls[..|calls| - 1], m, p)
      case Unmap(k, va) =>
        if PathOf(va) == p && (k == m || p.i4 >= UPPER) then 0 else LastEntry(calls[..|calls| - 1], m, p)
      case Lookup(_, _) => LastEntry(calls[..|calls| - 1], m, p)
      case Create => LastEntry(calls[..|calls| - 1], m, p)
  }

  /** What the lookups of a run answer, in order. */
  function Answers(calls: seq<Call>): seq<nat> {
    if calls == [] then []
    else
      var front := calls[..|calls| - 1];
      match calls[|calls| - 1]
      case Lookup(m, va) => Answers(front) + [Address(LastEntry(front, m, PathOf(va)))]
      case _ => Answers(front)
  }

  /** In every run, all pagemaps hold the same entry for every upper-half path. */
  lemma {:induction false} UpperEntryShared(calls: seq<Call>, m: nat, k: nat, p: Path)
    requires p.i4 >= UPPER
    ensures LastEntry(calls, m, p) == LastEntry(calls, k, p)
  {
    if calls != [] { UpperEntryShared(calls[..|calls| - 1], m, k, p); }
  }

  /** Calls that name other pagemaps never matter to a lower-half path: they can be dropped from the run. */
  lemma {:induction false} OnlyMatters(calls: seq<Call>, m: nat, p: Path)
    requires p.i4 < UPPER
    ensures LastEntry(calls, m, p) == LastEntry(Only(calls, m), m, p)
  {
    if calls != [] {
      var front := calls[..|calls| - 1];
      OnlyMatters(front, m, p);
      assert (Only(front, m) + [calls[|calls| - 1]])[..|Only(front, m)|] == Only(front, m);
      assert Only(front, m) + [] == Only(front, m);
    }
  }

  function Only(calls: seq<Call>, m: nat): seq<Call> {
    if calls == [] then []
    else
      var c := calls[|calls| - 1];
      Only(calls[..|calls| - 1], m) + if !c.Create? && c.m == m then [c] else []
  }

  /** A pagemap not yet created has no lower-half entry. */
  lemma {:induction false} NothingBeforeCreation(calls: seq<Call>, m: nat, p: Path)
    requires WellFormed(calls) && Created(calls) <= m && p.i4 < UPPER
    ensures LastEntry(calls, m, p) == 0
  {
    if calls != [] {
      var n := |calls| - 1;
      PrefixWellFormed(calls, n);
      NothingBeforeCreation(calls[..n], m, p);
    }
  }

  lemma PrefixWellFormed(calls: seq<Call>, n: nat)
    requires WellFormed(calls) && n <= |calls|
    ensures WellFormed(calls[..n])
  {
    forall k | 0 <= k < n && !calls[..n][k].Create? ensures calls[..n][k].m < Created(calls[..n][..k]) {
      assert calls[..n][..k] == calls[..k];
    }
  }

  lemma FrontWellFormed(front: seq<Call>, call: Call)
    requires WellFormed(front + [call])
    ensures WellFormed(front)
  {
    PrefixWellFormed(front + [call], |front|);
    assert (front + [call])[..|front|] == front;
  }

  // ------------------------------------------------------------------ init_vmm's run

  const PHYS_MEM_OFFSET := 0xffff_8000_0000_0000
  const KERNEL_MEM_OFFSET := 0xffff_ffff_8000_0000
  const LOW_PAGES := 0xf_ffff // pages 1.. below 4 GiB
  const KERNEL_PAGES := 0x8_0000
  const PHYS_PAGE := 0x8_0000_0000 // page numbers of the two offsets
  const KERNEL_PAGE := 0xf_fff8_0000

  /** The first n turns of the identity and physical-memory loop. */
  function LowCalls(n: nat): seq<Call> {
    if n == 0 then []
    else LowCalls(n - 1) + [Map(0, n * PAGE, n * PAGE, 3), Map(0, n * PAGE, n * PAGE + PHYS_MEM_OFFSET, 3)]
  }

  /** All of those and the first n turns of the kernel-image loop. */
  function BootCalls(n: nat): seq<Call> {
    if n == 0 then LowCalls(LOW_PAGES) else BootCalls(n - 1) + [Map(0, (n - 1) * PAGE, (n - 1) * PAGE + KERNEL_MEM_OFFSET, 7)]
  }

  lemma MapCreatesNothing(front: seq<Call>, c: Call)
    requires !c.Create?
    ensures Created(front + [c]) == Created(front)
  {
    assert (front + [c])[..|front|] == front;
  }

  lemma LowStep(n: nat)
    ensures var i := (n + 1) * PAGE;
            LowCalls(n + 1) == (LowCalls(n) + [Map(0, i, i, 3)]) + [Map(0, i, i + PHYS_MEM_OFFSET, 3)]
  {
  }

  lemma {:induction false} LowCreated(n: nat)
    ensures Created(LowCalls(n)) == 1
  {
    if n > 0 {
      LowCreated(n - 1);
      LowStep(n - 1);
      MapCreatesNothing(LowCalls(n - 1), Map(0, n * PAGE, n * PAGE, 3));
      MapCreatesNothing(LowCalls(n - 1) + [Map(0, n * PAGE, n * PAGE, 3)], Map(0, n * PAGE, n * PAGE + PHYS_MEM_OFFSET, 3));
    }
  }

  lemma BootStart()
    ensures BootCalls(0) == LowCalls(LOW_PAGES)
  {
  }

  lemma BootStep(n: nat)
    ensures BootCalls(n + 1) == BootCalls(n) + [Map(0, n * PAGE, n * PAGE + KERNEL_MEM_OFFSET, 7)]
  {
  }

  lemma {:induction false} BootCreated(n: nat)
    ensures Created(BootCalls(n)) == 1
  {
    if n == 0 {
      BootStart();
      LowCreated(LOW_PAGES);
    } else {
      BootCreated(n - 1);
      BootStep(n - 1);
      MapCreatesNothing(BootCalls(n - 1), Map(0, (n - 1) * PAGE, (n - 1) * PAGE + KERNEL_MEM_OFFSET, 7));
    }
  }

  /** The entry of page q after n turns of the first loop and k of the second. */
  function EntryAfter(n: nat, k: nat, q: nat): nat {
    if 1 <= q <= n then Or(q * PAGE, 3)
    else if PHYS_PAGE < q <= PHYS_PAGE + n then Or((q - PHYS_PAGE) * PAGE, 3)
    else if KERNEL_PAGE <= q < KERNEL_PAGE + k then Or((q - KERNEL_PAGE) * PAGE, 7)
    else 0
  }

  /**
   What the kernel pagemap holds after init_vmm: memory below 4 GiB at its own address and at
   the physical offset, all but page 0; the kernel image at the kernel offset; nothing else.
   */
  function BootEntry(q: nat): nat { EntryAfter(LOW_PAGES, KERNEL_PAGES, q) }

  lemma MapEntry(front: seq<Call>, phys: nat, at: nat, flags: nat, va: nat)
    ensures LastEntry(front + [Map(0, phys, at, flags)], 0, PathOf(va)) ==
              if PageOf(at) == PageOf(va) then Or(phys, flags) else LastEntry(front, 0, PathOf(va))
  {
    hide PathOf, PageOf, Or;
    assert (front + [Map(0, phys, at, flags)])[..|front|] == front;
    PathIsPage(at, va);
  }

  lemma PageNumbers(n: nat)
    requires n <= 0x10_0000
    ensures PageOf(n * PAGE) == n
    ensures PageOf(n * PAGE + PHYS_MEM_OFFSET) == PHYS_PAGE + n
    ensures n < KERNEL_PAGES ==> PageOf(n * PAGE + KERNEL_MEM_OFFSET) == KERNEL_PAGE + n
  {
  }

  lemma {:induction false} LowIs(n: nat, va: nat)
    requires n <= LOW_PAGES
    ensures LastEntry(LowCalls(n), 0, PathOf(va)) == EntryAfter(n, 0, PageOf(va))
  {
    hide LowCalls, LastEntry, PathOf, PageOf, Or;
    if n == 0 {
      LowNone(va);
    } else {
      LowIs(n - 1, va);
      LowStep(n - 1);
      PageNumbers(n);
      MapEntry(LowCalls(n - 1), n * PAGE, n * PAGE, 3, va);
      MapEntry(LowCalls(n - 1) + [Map(0, n * PAGE, n * PAGE, 3)], n * PAGE, n * PAGE + PHYS_MEM_OFFSET, 3, va);
    }
  }

  lemma LowNone(va: nat)
    ensures LastEntry(LowCalls(0), 0, PathOf(va)) == EntryAfter(0, 0, PageOf(va))
  {
  }

  lemma {:induction false} BootIs(k: nat, va: nat)
    requires k <= KERNEL_PAGES
    ensures LastEntry(BootCalls(k), 0, PathOf(va)) == EntryAfter(LOW_PAGES, k, PageOf(va))
  {
    if k == 0 {
      hide LowCalls, LastEntry, PathOf, PageOf, Or;
      BootStart();
      LowIs(LOW_PAGES, va);
    } else {
      hide BootCalls, LastEntry, PathOf, PageOf, Or;
      BootIs(k - 1, va);
      BootStep(k - 1);
      PageNumbers(k - 1);
      MapEntry(BootCalls(k - 1), (k - 1) * PAGE, (k - 1) * PAGE + KERNEL_MEM_OFFSET, 7, va);
    }
  }
}
