/** The run-length cases of the TGA reader: packets expanded into a pixel array, rows flipped by the origin field. */
module Tga {
  import opened Common

  // ----------------------------------------------------------------- row geometry

  /** Index of column x of row r. */
  function Cell(r: nat, x: nat, w: nat): nat { r * w + x }

  lemma MulLe(a: nat, b: nat, k: nat)
    requires a <= b
    ensures a * k <= b * k
  {
    assert (b - a) * k >= 0;
    assert b * k == a * k + (b - a) * k;
  }

  lemma CellBound(r: nat, x: nat, w: nat, h: nat)
    requires r < h && x < w
    ensures Cell(r, x, w) < w * h
  {
    MulLe(r + 1, h, w);
  }

  lemma CellInjective(r: nat, x: nat, s: nat, y: nat, w: nat)
    requires x < w && y < w
    ensures Cell(r, x, w) == Cell(s, y, w) <==> r == s && x == y
  {
    if r < s { MulLe(r + 1, s, w); }
    if s < r { MulLe(s + 1, r, w); }
  }

  /** The row of the picture that row r of the stream lands in. */
  function RowOf(r: nat, h: nat, flip: bool): nat
    requires r < h
  {
    if flip then h - r - 1 else r
  }

  /** Stream pixels 0..n-1 are in their places. */
  ghost predicate Painted(data: seq<int>, pixels: seq<int>, w: nat, h: nat, flip: bool, n: nat) {
    && |data| == w * h && n <= |pixels|
    && forall r: nat, x: nat | r < h && x < w && Cell(r, x, w) < n ::
         PaintedAt(data, pixels, w, h, flip, r, x)
  }

  ghost predicate PaintedAt(data: seq<int>, pixels: seq<int>, w: nat, h: nat, flip: bool, r: nat, x: nat)
    requires r < h && x < w && Cell(r, x, w) < |pixels|
  {
    var at := Cell(RowOf(r, h, flip), x, w);
    at < |data| && data[at] == pixels[Cell(r, x, w)]
  }

  lemma PaintOne(data: seq<int>, pixels: seq<int>, w: nat, h: nat, flip: bool, r: nat, x: nat)
    requires r < h && x < w && Painted(data, pixels, w, h, flip, Cell(r, x, w)) && Cell(r, x, w) < |pixels|
    ensures Cell(RowOf(r, h, flip), x, w) < |data|
    ensures Painted(data[Cell(RowOf(r, h, flip), x, w) := pixels[Cell(r, x, w)]], pixels, w, h, flip, Cell(r, x, w) + 1)
  {
    CellBound(RowOf(r, h, flip), x, w, h);
    var d := data[Cell(RowOf(r, h, flip), x, w) := pixels[Cell(r, x, w)]];
    forall s: nat, y: nat | s < h && y < w && Cell(s, y, w) < Cell(r, x, w) + 1
      ensures PaintedAt(d, pixels, w, h, flip, s, y)
    {
      CellInjective(r, x, s, y, w);
      CellInjective(RowOf(r, h, flip), x, RowOf(s, h, flip), y, w);
      if (s, y) != (r, x) { assert PaintedAt(data, pixels, w, h, flip, s, y); }
    }
  }

  // ------------------------------------------------------------------ the stores made

  /** The indices stored to while stream pixels 0..n-1 were put, in order. */
  ghost predicate Logged(stored: seq<nat>, w: nat, h: nat, flip: bool, n: nat) {
    |stored| == n && forall r: nat, x: nat | r < h && x < w && Cell(r, x, w) < n :: LoggedAt(stored, w, h, flip, r, x)
  }

  ghost predicate LoggedAt(stored: seq<nat>, w: nat, h: nat, flip: bool, r: nat, x: nat)
    requires r < h && x < w && Cell(r, x, w) < |stored|
  {
    stored[Cell(r, x, w)] == Cell(RowOf(r, h, flip), x, w)
  }

  lemma LogOne(stored: seq<nat>, w: nat, h: nat, flip: bool, r: nat, x: nat)
    requires r < h && x < w && Logged(stored, w, h, flip, Cell(r, x, w))
    ensures Logged(stored + [Cell(RowOf(r, h, flip), x, w)], w, h, flip, Cell(r, x, w) + 1)
  {
    var log, n := stored + [Cell(RowOf(r, h, flip), x, w)], Cell(r, x, w) + 1;
    forall s: nat, y: nat | s < h && y < w && Cell(s, y, w) < n ensures LoggedAt(log, w, h, flip, s, y) {
      CellInjective(r, x, s, y, w);
      assert Cell(s, y, w) < |stored| ==> LoggedAt(stored, w, h, flip, s, y);
    }
  }

  /** Every index below n occurs in the record, and none occurs twice. */
  ghost predicate OnceEach(stored: seq<nat>, n: nat) {
    && |stored| == n && (forall d: nat | d < n :: d in stored)
    && (forall t, u | 0 <= t < u < |stored| :: stored[t] != stored[u])
  }

  lemma CellOf(t: nat, w: nat, h: nat) returns (r: nat, x: nat)
    requires w >= 1 && t < w * h
    ensures r < h && x < w && t == Cell(r, x, w)
  {
    r, x := t / w, t % w;
    assert t == r * w + x;
    if r >= h { MulLe(h, r, w); }
  }

  /** A finished record names every pixel of the picture exactly once. */
  lemma WrittenOnce(stored: seq<nat>, w: nat, h: nat, flip: bool)
    requires w >= 1 && Logged(stored, w, h, flip, w * h)
    ensures OnceEach(stored, w * h)
  {
    assert |stored| == w * h;
    hide Logged, Cell;
    forall d: nat | d < w * h ensures d in stored {
      var r, x := CellOf(d, w, h);
      CellBound(RowOf(r, h, flip), x, w, h);
      LoggedIs(stored, w, h, flip, RowOf(r, h, flip), x);
    }
    forall t: nat, u: nat | t < u < w * h ensures stored[t] != stored[u] {
      var r, x := CellOf(t, w, h);
      var s, y := CellOf(u, w, h);
      LoggedIs(stored, w, h, flip, r, x);
      LoggedIs(stored, w, h, flip, s, y);
      CellInjective(RowOf(r, h, flip), x, RowOf(s, h, flip), y, w);
    }
  }

  lemma LoggedIs(stored: seq<nat>, w: nat, h: nat, flip: bool, r: nat, x: nat)
    requires r < h && x < w && Logged(stored, w, h, flip, w * h)
    ensures |stored| == w * h && Cell(r, x, w) < w * h && stored[Cell(r, x, w)] == Cell(RowOf(r, h, flip), x, w)
  {
    CellBound(r, x, w, h);
    assert LoggedAt(stored, w, h, flip, r, x);
  }

  // ----------------------------------------------------------------- packet streams

  /** Indexed pixels are one byte each; true-colour pixels are `depth` bytes. */
  datatype Format = Indexed(depth: nat) | TrueColor(depth: nat) {
    function Unit(): nat { if Indexed? then 1 else depth }
  }

  /** A 32-bit pixel from three or four bytes at j. */
  function Color(ptr: seq<Byte>, j: nat, depth: nat): int
    requires j + depth <= |ptr| && (depth == 3 || depth == 4)
  {
    var alpha: int, red: int, green: int, blue: int := if depth == 4 then ptr[j + 3] else 0xFF, ptr[j + 2], ptr[j + 1], ptr[j];
    alpha * 0x100_0000 + red * 0x1_0000 + green * 0x100 + blue
  }

  ghost predicate Readable(ptr: seq<Byte>, f: Format, m: nat) {
    && (f.depth == 3 || f.depth == 4) && m + f.Unit() <= |ptr|
    && (f.Indexed? ==> ptr[m] * f.depth + 18 + f.depth <= |ptr|)
  }

  /** The pixel whose data is at m. */
  function PixelAt(ptr: seq<Byte>, f: Format, m: nat): int
    requires Readable(ptr, f, m)
  {
    if f.Indexed? then Color(ptr, ptr[m] * f.depth + 18, f.depth) else Color(ptr, m, f.depth)
  }

  function Length(k: Byte): nat { if k > 127 then k - 127 else k + 1 }

  /** Bytes of pixel data after a packet's header byte. */
  function Payload(f: Format, k: Byte): nat { if k > 127 then f.Unit() else Length(k) * f.Unit() }

  /** The packets from m on hold exactly `need` pixels, all of whose data is in the file. */
  ghost predicate Covers(ptr: seq<Byte>, f: Format, m: nat, need: nat)
    decreases need
  {
    need > 0 ==>
      && m < |ptr| && Length(ptr[m]) <= need
      && (forall t: nat | t < Length(ptr[m]) :: Readable(ptr, f, DataAt(f, ptr[m], m, t)))
      && Covers(ptr, f, m + 1 + Payload(f, ptr[m]), need - Length(ptr[m]))
  }

  /** Where pixel t of the packet at m has its data. */
  function DataAt(f: Format, k: Byte, m: nat, t: nat): nat { if k > 127 then m + 1 else UnitAt(f, m + 1, t) }

  function UnitAt(f: Format, m: nat, t: nat): nat { m + t * f.Unit() }

  /** The data from m on is that of the given pixels, one unit each. */
  ghost predicate HoldsRaw(ptr: seq<Byte>, f: Format, m: nat, pixels: seq<int>) {
    && (forall t: nat | t < |pixels| :: Readable(ptr, f, UnitAt(f, m, t)))
    && (forall t: nat | t < |pixels| :: pixels[t] == PixelAt(ptr, f, UnitAt(f, m, t)))
  }

  function PacketPixels(ptr: seq<Byte>, f: Format, m: nat): (r: seq<int>)
    requires m < |ptr| && forall t: nat | t < Length(ptr[m]) :: Readable(ptr, f, DataAt(f, ptr[m], m, t))
    ensures |r| == Length(ptr[m])
  {
    seq(Length(ptr[m]), t requires 0 <= t < Length(ptr[m]) => PixelAt(ptr, f, DataAt(f, ptr[m], m, t)))
  }

  /** The flat expansion of the packets. */
  function Expand(ptr: seq<Byte>, f: Format, m: nat, need: nat): (r: seq<int>)
    requires Covers(ptr, f, m, need)
    ensures |r| == need
    decreases need
  {
    if need == 0 then []
    else PacketPixels(ptr, f, m) + Expand(ptr, f, m + 1 + Payload(f, ptr[m]), need - Length(ptr[m]))
  }

  // --------------------------------------------------------------------- the decoder

  /** Where the cursor (i, y) stands after n pixels: at the start, or col columns into stream row y - 1. */
  ghost predicate Cursor(w: nat, h: nat, flip: bool, i: nat, y: nat, col: nat, n: nat) {
    || (n == 0 && i == 0 && y == 0)
    || (1 <= y <= h && 1 <= col <= w && n == Cell(y - 1, col, w) && i == Cell(RowOf(y - 1, h, flip), col, w))
  }

  class Decoder {
    const data: array<int>
    const w: nat
    const h: nat
    const flip: bool
    var i: nat
    var y: nat
    ghost var col: nat
    ghost var stored: seq<nat> // every index of data stored to, in order

    constructor (w: nat, h: nat, flip: bool)
      ensures this.w == w && this.h == h && this.flip == flip && i == 0 && y == 0 && stored == []
      ensures fresh(data) && data.Length == w * h
    {
      this.w, this.h, this.flip := w, h, flip;
      data := new int[w * h](_ => 0);
      i, y, col, stored := 0, 0, 0, [];
    }

    ghost predicate At(pixels: seq<int>, n: nat)
      reads this, data
    {
      && w >= 1 && |pixels| == w * h == data.Length
      && Painted(data[..], pixels, w, h, flip, n) && Cursor(w, h, flip, i, y, col, n) && Logged(stored, w, h, flip, n)
    }

    lemma Starts(pixels: seq<int>)
      requires w >= 1 && |pixels| == w * h == data.Length && i == 0 && y == 0 && stored == []
      ensures At(pixels, 0)
    {
    }

    /** The innermost body: start a row when one is full, then store a pixel. */
    method Put(pixel: int, ghost pixels: seq<int>, ghost n: nat)
      requires At(pixels, n) && n < |pixels| && pixel == pixels[n]
      modifies this, data
      ensures At(pixels, n + 1)
    {
      hide Cell, Painted, Logged;
      ghost var r, x := Place(w, h, flip, i, y, col, n);
      CellSteps(RowOf(r, h, flip), x, w);
      CellSteps(r, x, w);
      if i % w == 0 {
        i := (if flip then h - y - 1 else y) * w;
        y := y + 1;
      }
      assert i == Cell(RowOf(r, h, flip), x, w) && y == r + 1;
      PaintOne(data[..], pixels, w, h, flip, r, x);
      LogOne(stored, w, h, flip, r, x);
      data[i] := pixel;
      stored := stored + [i];
      assert data[..] == old(data[..])[i := pixel];
      i := i + 1;
      col := x + 1;
    }

    /** The inner loop of a run packet: one pixel, k times. */
    method PutRun(ptr: seq<Byte>, f: Format, m: nat, k0: nat, ghost pixels: seq<int>, ghost n: nat)
      requires At(pixels, n) && n + k0 <= |pixels| && Readable(ptr, f, m)
      requires forall t | n <= t < n + k0 :: pixels[t] == PixelAt(ptr, f, m)
      modifies this, data
      ensures At(pixels, n + k0)
    {
      hide Painted, Cursor, Logged, Readable, PixelAt;
      var k: nat := k0;
      while k > 0
        invariant k <= k0 && At(pixels, n + k0 - k)
      {
        k := k - 1;
        Put(PixelAt(ptr, f, m), pixels, n + k0 - 1 - k);
      }
    }

    /** The inner loop of a raw packet: k pixels, one after the other. */
    method PutRaw(ptr: seq<Byte>, f: Format, m0: nat, k0: nat, ghost pixels: seq<int>, ghost n: nat) returns (m: nat)
      requires At(pixels, n) && n + k0 <= |pixels|
      requires HoldsRaw(ptr, f, m0, pixels[n..n + k0])
      modifies this, data
      ensures At(pixels, n + k0) && m == UnitAt(f, m0, k0)
    {
      hide Painted, Cursor, Logged, Readable, PixelAt;
      var k: nat := k0;
      m := m0;
      while k > 0
        invariant k <= k0 && At(pixels, n + k0 - k) && m == UnitAt(f, m0, k0 - k)
      {
        k := k - 1;
        ghost var t := k0 - 1 - k;
        assert Readable(ptr, f, UnitAt(f, m0, t)) && pixels[n..n + k0][t] == pixels[n + t];
        Put(PixelAt(ptr, f, m), pixels, n + k0 - 1 - k);
        m := m + f.Unit();
        assert (t + 1) * f.Unit() == t * f.Unit() + f.Unit();
      }
    }
  }

  lemma CellSteps(r: nat, x: nat, w: nat)
    ensures Cell(r, 0, w) == r * w && Cell(r, x + 1, w) == Cell(r, x, w) + 1
  {
  }

  /** The stream position of pixel n, and what the row test sees there. */
  lemma Place(w: nat, h: nat, flip: bool, i: nat, y: nat, col: nat, n: nat) returns (r: nat, x: nat)
    requires w >= 1 && n < w * h && Cursor(w, h, flip, i, y, col, n)
    ensures r < h && x < w && n == Cell(r, x, w)
    ensures if i % w == 0 then x == 0 && y == r else y == r + 1 && i == Cell(RowOf(r, h, flip), x, w)
  {
    if n == 0 {
      r, x := 0, 0;
      SomeRow(w, h);
    } else {
      ColumnTest(RowOf(y - 1, h, flip), col, w);
      if col == w {
        r, x := y, 0;
        RowBelow(w, h, y);
      } else {
        r, x := y - 1, col;
      }
    }
  }

  lemma SomeRow(w: nat, h: nat)
    requires 0 < w * h
    ensures 0 < h && Cell(0, 0, w) == 0
  {
  }

  lemma RowBelow(w: nat, h: nat, y: nat)
    requires 1 <= y && Cell(y - 1, w, w) < w * h
    ensures Cell(y - 1, w, w) == Cell(y, 0, w) && y < h
  {
    if h <= y { MulLe(h, y, w); }
  }

  lemma ColumnTest(row: nat, c: nat, w: nat)
    requires 1 <= c <= w
    ensures Cell(row, c, w) % w == 0 <==> c == w
  {
    if c == w {
      ModOf(row + 1, 0, w);
    } else {
      ModOf(row, c, w);
    }
  }

  lemma ModOf(q: nat, c: nat, w: nat)
    requires c < w
    ensures (q * w + c) % w == c
  {
    var a := q * w + c;
    assert a == a / w * w + a % w;
    var d := a / w - q;
    assert d * w == c - a % w;
    if d >= 1 { MulLe(1, d, w); }
    if d <= -1 { MulLe(1, -d, w); }
  }

  /** One packet more: its pixels are the next ones of the expansion. */
  lemma PacketNext(ptr: seq<Byte>, f: Format, m: nat, need: nat)
    requires need > 0 && Covers(ptr, f, m, need)
    ensures var c := Length(ptr[m]); var m' := m + 1 + Payload(f, ptr[m]);
            && 1 <= c <= need && Covers(ptr, f, m', need - c)
            && Expand(ptr, f, m, need)[..c] == PacketPixels(ptr, f, m)
            && Expand(ptr, f, m, need)[c..] == Expand(ptr, f, m', need - c)
  {
  }

  /** The decoding loop shared by cases 9 and 10. */
  method Decode(ptr: seq<Byte>, f: Format, m0: nat, w: nat, h: nat, flip: bool)
    returns (data: seq<int>, ghost stored: seq<nat>)
    requires w >= 1 && h >= 1 && Covers(ptr, f, m0, w * h)
    ensures Painted(data, Expand(ptr, f, m0, w * h), w, h, flip, w * h) && OnceEach(stored, w * h)
  {
    hide Covers, Expand, Readable, PixelAt, Cursor, Logged, OnceEach;
    ghost var pixels := Expand(ptr, f, m0, w * h);
    var d := new Decoder(w, h, flip);
    var x: nat, m: nat := 0, m0;
    d.Starts(pixels);
    while x < w * h && m < |ptr|
      invariant 0 <= x <= w * h && d.w == w && d.h == h && d.flip == flip && fresh(d) && fresh(d.data)
      invariant Covers(ptr, f, m, w * h - x) && pixels[x..] == Expand(ptr, f, m, w * h - x) && d.At(pixels, x)
    {
      m, x := Packet(d, ptr, f, m, x, pixels);
    }
    if m >= |ptr| { NeedsMore(ptr, f, m, w * h - x); }
    data, stored := d.data[..], d.stored;
    WrittenOnce(stored, w, h, flip);
  }

  lemma NeedsMore(ptr: seq<Byte>, f: Format, m: nat, need: nat)
    requires Covers(ptr, f, m, need) && m >= |ptr|
    ensures need == 0
  {
  }

  /** What the packet at m0 contributes from pixel x0 on, in the form its inner loop needs. */
  lemma PacketFacts(ptr: seq<Byte>, f: Format, m0: nat, x0: nat, pixels: seq<int>)
    requires x0 < |pixels| && Covers(ptr, f, m0, |pixels| - x0) && pixels[x0..] == Expand(ptr, f, m0, |pixels| - x0)
    ensures m0 < |ptr| && x0 + Length(ptr[m0]) <= |pixels|
    ensures ptr[m0] > 127 ==> Readable(ptr, f, m0 + 1) && forall t | x0 <= t < x0 + Length(ptr[m0]) :: pixels[t] == PixelAt(ptr, f, m0 + 1)
    ensures ptr[m0] <= 127 ==>
      HoldsRaw(ptr, f, m0 + 1, pixels[x0..x0 + Length(ptr[m0])])
    ensures var x := x0 + Length(ptr[m0]);
            var m := if ptr[m0] > 127 then m0 + 1 + f.Unit() else UnitAt(f, m0 + 1, Length(ptr[m0]));
            Covers(ptr, f, m, |pixels| - x) && pixels[x..] == Expand(ptr, f, m, |pixels| - x)
  {
    hide Expand, PixelAt, Readable, Covers, PacketPixels, HoldsRaw, UnitAt, DataAt, Payload;
    PacketSlices(ptr, f, m0, x0, pixels);
    PacketData(ptr, f, m0);
    PacketEnd(ptr, f, m0);
    var c := Length(ptr[m0]);
    if ptr[m0] > 127 {
      forall t | x0 <= t < x0 + c ensures pixels[t] == PixelAt(ptr, f, m0 + 1) {
        assert pixels[x0..x0 + c][t - x0] == pixels[t];
      }
    }
  }

  lemma PacketSlices(ptr: seq<Byte>, f: Format, m0: nat, x0: nat, pixels: seq<int>)
    requires x0 < |pixels| && Covers(ptr, f, m0, |pixels| - x0) && pixels[x0..] == Expand(ptr, f, m0, |pixels| - x0)
    ensures m0 < |ptr| && x0 + Length(ptr[m0]) <= |pixels|
    ensures forall t: nat | t < Length(ptr[m0]) :: Readable(ptr, f, DataAt(f, ptr[m0], m0, t))
    ensures pixels[x0..x0 + Length(ptr[m0])] == PacketPixels(ptr, f, m0)
    ensures var x, m := x0 + Length(ptr[m0]), m0 + 1 + Payload(f, ptr[m0]);
            Covers(ptr, f, m, |pixels| - x) && pixels[x..] == Expand(ptr, f, m, |pixels| - x)
  {
    PacketNext(ptr, f, m0, |pixels| - x0);
    hide Expand, PixelAt, Readable, PacketPixels, DataAt, Payload;
    var c := Length(ptr[m0]);
    assert pixels[x0..][..c] == pixels[x0..x0 + c] && pixels[x0..][c..] == pixels[x0 + c..];
  }

  /** Where the next packet starts. */
  lemma PacketEnd(ptr: seq<Byte>, f: Format, m0: nat)
    requires m0 < |ptr|
    ensures m0 + 1 + Payload(f, ptr[m0]) == if ptr[m0] > 127 then m0 + 1 + f.Unit() else UnitAt(f, m0 + 1, Length(ptr[m0]))
  {
  }

  /** The pixels of one packet: a repeated one, or one per unit. */
  lemma PacketData(ptr: seq<Byte>, f: Format, m0: nat)
    requires m0 < |ptr| && forall t: nat | t < Length(ptr[m0]) :: Readable(ptr, f, DataAt(f, ptr[m0], m0, t))
    ensures ptr[m0] > 127 ==>
      Readable(ptr, f, m0 + 1) && forall t | 0 <= t < Length(ptr[m0]) :: PacketPixels(ptr, f, m0)[t] == PixelAt(ptr, f, m0 + 1)
    ensures ptr[m0] <= 127 ==> HoldsRaw(ptr, f, m0 + 1, PacketPixels(ptr, f, m0))
  {
    hide PixelAt, Readable;
    var m := m0 + 1;
    if ptr[m0] > 127 {
      assert DataAt(f, ptr[m0], m0, 0) == m;
    } else {
      forall t: nat | t < Length(ptr[m0]) ensures Readable(ptr, f, UnitAt(f, m, t)) {
        assert DataAt(f, ptr[m0], m0, t) == UnitAt(f, m, t);
      }
    }
  }

  /** The body of the decoding loop: one packet. */
  method Packet(d: Decoder, ptr: seq<Byte>, f: Format, m0: nat, x0: nat, ghost pixels: seq<int>) returns (m: nat, x: nat)
    requires x0 < |pixels| && Covers(ptr, f, m0, |pixels| - x0) && pixels[x0..] == Expand(ptr, f, m0, |pixels| - x0)
    requires m0 < |ptr| && d.At(pixels, x0)
    modifies d, d.data
    ensures x0 < x <= |pixels| && d.At(pixels, x)
    ensures Covers(ptr, f, m, |pixels| - x) && pixels[x..] == Expand(ptr, f, m, |pixels| - x)
  {
    hide Covers, Expand, Painted, Cursor, Logged, PixelAt, Readable, UnitAt;
    PacketFacts(ptr, f, m0, x0, pixels);
    var k: int := ptr[m0];
    m := m0 + 1;
    if k > 127 {
      k := k - 127;
      x := x0 + k;
      d.PutRun(ptr, f, m, k, pixels, x0);
      m := m + f.Unit();
    } else {
      k := k + 1;
      x := x0 + k;
      m := d.PutRaw(ptr, f, m, k, pixels, x0);
    }
  }

  // ----------------------------------------------------------------------- tga_parse

  function Width(ptr: seq<Byte>): nat
    requires |ptr| >= 18
  {
    Word(ptr[12], ptr[13])
  }

  function Height(ptr: seq<Byte>): nat
    requires |ptr| >= 18
  {
    Word(ptr[14], ptr[15])
  }

  function Word(lo: Byte, hi: Byte): nat {
    var l: int, h: int := lo, hi;
    h * 256 + l
  }

  /** The pixel format of run-length cases 9 and 10, or nothing where tga_parse gives up. */
  function FormatOf(ptr: seq<Byte>): Option<Format>
    requires |ptr| >= 18
  {
    if Width(ptr) < 1 || Height(ptr) < 1 then None
    else if ptr[2] == 9 && ptr[6] == 0 && ptr[4] == 0 && ptr[3] == 0 && (ptr[7] == 24 || ptr[7] == 32) then Some(Indexed(ptr[7] / 8))
    else if ptr[2] == 10 && ptr[5] == 0 && ptr[6] == 0 && ptr[1] == 0 && (ptr[16] == 24 || ptr[16] == 32) then Some(TrueColor(ptr[16] / 8))
    else None
  }

  /** Offset of the first packet: after the header and the colour map. */
  function PacketStart(ptr: seq<Byte>): nat
    requires |ptr| >= 18
  {
    var bits: int, count: int := ptr[7], ptr[5];
    (if ptr[1] != 0 then bits / 8 * count else 0) + 18
  }

  const INT_MAX := 0x7fff_ffff

  datatype Parsed = GivenUp | Overflow | Picture(data: seq<int>)

  /** The product w * h + 2 does not fit the int it is computed in. */
  ghost predicate TooLarge(ptr: seq<Byte>)
    requires |ptr| >= 18
  {
    Width(ptr) >= 1 && Height(ptr) >= 1 && Width(ptr) * Height(ptr) + 2 > INT_MAX
  }

  /**
   tga_parse on a run-length image: the size words, then every destination pixel holding
   its pixel of the packets' flat expansion, the bottom row first when the origin is 0, and
   stored to exactly once.  `room` says whether malloc finds memory for the picture.
   */
  method TgaParse(ptr: seq<Byte>, room: bool) returns (r: Parsed, ghost stored: seq<nat>)
    requires |ptr| >= 18 && (ptr[2] == 9 || ptr[2] == 10)
    requires FormatOf(ptr).Some? && room && !TooLarge(ptr) ==>
      Covers(ptr, FormatOf(ptr).value, PacketStart(ptr), Width(ptr) * Height(ptr))
    ensures r.Overflow? <==> TooLarge(ptr)
    ensures r.GivenUp? <==> !TooLarge(ptr) && (!room || FormatOf(ptr).None?)
    ensures r.Picture? ==>
      var w, h := Width(ptr), Height(ptr);
      && |r.data| == w * h + 2 && r.data[0] == w && r.data[1] == h && OnceEach(stored, w * h)
      && Painted(r.data[2..], Expand(ptr, FormatOf(ptr).value, PacketStart(ptr), w * h), w, h, Word(ptr[10], ptr[11]) == 0, w * h)
  {
    hide Covers, Expand, OnceEach;
    var w, h, o := Word(ptr[12], ptr[13]), Word(ptr[14], ptr[15]), Word(ptr[10], ptr[11]);
    var m := PacketStart(ptr);
    stored := [];
    if w < 1 || h < 1 {
      return GivenUp, stored;
    }
    if w * h + 2 > INT_MAX {
      return Overflow, stored;
    }
    if !room {
      return GivenUp, stored;
    }
    var f;
    if ptr[2] == 9 {
      if ptr[6] != 0 || ptr[4] != 0 || ptr[3] != 0 || (ptr[7] != 24 && ptr[7] != 32) {
        return GivenUp, stored;
      }
      f := Indexed(ptr[7] / 8);
    } else {
      if ptr[5] != 0 || ptr[6] != 0 || ptr[1] != 0 || (ptr[16] != 24 && ptr[16] != 32) {
        return GivenUp, stored;
      }
      f := TrueColor(ptr[16] / 8);
    }
    var data;
    data, stored := Decode(ptr, f, m, w, h, o == 0);
    r := Picture([w, h] + data);
    assert ([w, h] + data)[2..] == data;
  }

  /** A 65535 by 65535 header is one of the images that overflow. */
  lemma LargestOverflows(ptr: seq<Byte>)
    requires |ptr| >= 18 && Width(ptr) == 0xffff && Height(ptr) == 0xffff
    ensures TooLarge(ptr)
  {
  }
}
