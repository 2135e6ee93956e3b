/**
 Run-length TGA files written out byte by byte, apart from the reader: what they mean is stated
 here, and the reader is proved to give it back.
 */
module TgaFile {
  import opened Common
  import opened Tga

  // ------------------------------------------------------------------------ colours

  datatype Argb = Argb(a: Byte, r: Byte, g: Byte, b: Byte)

  /** The word is the colour, alpha in its highest byte and blue in its lowest. */
  ghost predicate Shows(word: int, c: Argb) {
    && 0 <= word < 0x1_0000_0000 && word / 0x100_0000 == c.a
    && word / 0x1_0000 % 0x100 == c.r && word / 0x100 % 0x100 == c.g && word % 0x100 == c.b
  }

  /** A colour in a file: blue first; without an alpha byte it is opaque. */
  ghost predicate IsColor(bytes: seq<Byte>, depth: nat, c: Argb) {
    if depth == 4 then bytes == [c.b, c.g, c.r, c.a] else depth == 3 && bytes == [c.b, c.g, c.r] && c.a == 0xff
  }

  lemma ColorShows(ptr: seq<Byte>, j: nat, depth: nat, c: Argb)
    requires j + depth <= |ptr| && IsColor(ptr[j..j + depth], depth, c)
    ensures Shows(Color(ptr, j, depth), c)
  {
    hide Shows;
    assert ptr[j] == ptr[j..j + depth][0] && ptr[j + 1] == ptr[j..j + depth][1] && ptr[j + 2] == ptr[j..j + depth][2];
    assert depth == 4 ==> ptr[j + 3] == ptr[j..j + depth][3];
    WordShows(c);
  }

  lemma WordShows(c: Argb)
    ensures Shows(c.a * 0x100_0000 + c.r * 0x1_0000 + c.g * 0x100 + c.b, c)
  {
    var low := c.g * 0x100 + c.b;
    var word := c.a * 0x100_0000 + c.r * 0x1_0000 + low;
    assert low / 0x100 == c.g && word / 0x100 == c.a * 0x1_0000 + c.r * 0x100 + c.g;
    assert word / 0x1_0000 == c.a * 0x100 + c.r;
  }

  // ------------------------------------------------------------------------ packets

  /** Up to 128 times the same pixel, or up to 128 pixels; each is given by its bytes. */
  datatype Packet = Repeat(count: nat, unit: seq<Byte>) | Each(units: seq<seq<Byte>>) {
    function Units(): seq<seq<Byte>> { if Repeat? then seq(count, _ => unit) else units }
    ghost predicate Valid(size: nat) {
      1 <= |Units()| <= 128 && (if Repeat? then |unit| == size else forall t | 0 <= t < |units| :: |units[t]| == size)
    }
  }

  function Concat(units: seq<seq<Byte>>): seq<Byte> {
    if units == [] then [] else Concat(units[..|units| - 1]) + units[|units| - 1]
  }

  /** Bit 7 of the first byte marks a repeated pixel; the other bits are the count less one. */
  function PacketBytes(p: Packet): seq<Byte>
    requires 1 <= |p.Units()| <= 128
  {
    if p.Repeat? then [0x80 + (p.count - 1)] + p.unit else [|p.units| - 1] + Concat(p.units)
  }

  function Flat(packets: seq<Packet>): seq<seq<Byte>> {
    if packets == [] then [] else packets[0].Units() + Flat(packets[1..])
  }

  ghost predicate AllValid(packets: seq<Packet>, size: nat) {
    forall k | 0 <= k < |packets| :: packets[k].Valid(size)
  }

  function StreamBytes(packets: seq<Packet>): seq<Byte>
    requires forall k | 0 <= k < |packets| :: 1 <= |packets[k].Units()| <= 128
  {
    if packets == [] then [] else PacketBytes(packets[0]) + StreamBytes(packets[1..])
  }

  lemma {:induction false} ConcatAt(units: seq<seq<Byte>>, size: nat, t: nat)
    requires (forall k | 0 <= k < |units| :: |units[k]| == size) && t < |units|
    ensures |Concat(units)| == |units| * size && 0 <= t * size <= t * size + size <= |units| * size
    ensures Concat(units)[t * size..t * size + size] == units[t]
  {
    var n := |units| - 1;
    var front := units[..n];
    Product(t, n, size);
    if n == 0 {
      assert Concat(units) == units[0];
    } else {
      ConcatAt(front, size, if t < n then t else 0);
      var c := Concat(front);
      if t < n {
        assert (c + units[n])[t * size..t * size + size] == c[t * size..t * size + size];
      } else {
        assert (c + units[n])[n * size..n * size + size] == units[n];
      }
    }
  }

  lemma Product(t: nat, n: nat, size: nat)
    requires t <= n
    ensures (n + 1) * size == n * size + size && 0 <= t * size <= n * size && (t < n ==> t * size + size <= n * size)
  {
    if t < n { assert n * size == t * size + size + (n - t - 1) * size; }
  }

  // ---------------------------------------------------------- one packet, read back

  /** The pixel's bytes have a meaning in the file: an index has an entry in the colour map. */
  ghost predicate Meaningful(ptr: seq<Byte>, f: Format, unit: seq<Byte>) {
    && (f.depth == 3 || f.depth == 4) && |unit| == f.Unit()
    && (f.Indexed? ==> unit[0] * f.depth + 18 + f.depth <= |ptr|)
  }

  /** The pixel a unit stands for. */
  function UnitPixel(ptr: seq<Byte>, f: Format, unit: seq<Byte>): int
    requires Meaningful(ptr, f, unit)
  {
    if f.Indexed? then Color(ptr, unit[0] * f.depth + 18, f.depth) else Color(unit, 0, f.depth)
  }

  lemma UnitReads(ptr: seq<Byte>, f: Format, m: nat, unit: seq<Byte>)
    requires Meaningful(ptr, f, unit) && m + f.Unit() <= |ptr| && ptr[m..m + f.Unit()] == unit
    ensures Readable(ptr, f, m) && PixelAt(ptr, f, m) == UnitPixel(ptr, f, unit)
  {
    assert ptr[m] == unit[0];
    assert !f.Indexed? ==> ptr[m + 1] == unit[1] && ptr[m + 2] == unit[2] && (f.depth == 4 ==> ptr[m + 3] == unit[3]);
  }

  /** The file holds the bytes from m on. */
  ghost predicate HoldsAt(ptr: seq<Byte>, m: nat, bytes: seq<Byte>) { m + |bytes| <= |ptr| && ptr[m..m + |bytes|] == bytes }

  lemma PartHeld(ptr: seq<Byte>, m: nat, bytes: seq<Byte>, lo: nat, hi: nat)
    requires HoldsAt(ptr, m, bytes) && lo <= hi <= |bytes|
    ensures HoldsAt(ptr, m + lo, bytes[lo..hi])
  {
    var part := ptr[m..m + |bytes|];
    forall k | 0 <= k < hi - lo ensures ptr[m + lo..m + hi][k] == bytes[lo..hi][k] { assert part[lo + k] == ptr[m + lo + k]; }
    assert ptr[m + lo..m + lo + (hi - lo)] == bytes[lo..hi];
  }

  lemma PacketReads(ptr: seq<Byte>, f: Format, m: nat, p: Packet)
    requires p.Valid(f.Unit()) && HoldsAt(ptr, m, PacketBytes(p))
    requires forall t | 0 <= t < |p.Units()| :: Meaningful(ptr, f, p.Units()[t])
    ensures m < |ptr| && Length(ptr[m]) == |p.Units()| && 1 + Payload(f, ptr[m]) == |PacketBytes(p)|
    ensures forall t: nat | t < |p.Units()| ::
      && Readable(ptr, f, DataAt(f, ptr[m], m, t))
      && PixelAt(ptr, f, DataAt(f, ptr[m], m, t)) == UnitPixel(ptr, f, p.Units()[t])
  {
    hide Readable, PixelAt, UnitPixel, Meaningful, PacketBytes, DataAt, Payload;
    PacketStarts(ptr, f, m, p);
    forall t: nat | t < |p.Units()|
      ensures Readable(ptr, f, DataAt(f, ptr[m], m, t)) && PixelAt(ptr, f, DataAt(f, ptr[m], m, t)) == UnitPixel(ptr, f, p.Units()[t])
    {
      UnitHeld(f, p, t);
      PartHeld(ptr, m, PacketBytes(p), UnitOffset(f, p, t), UnitOffset(f, p, t) + f.Unit());
      UnitReads(ptr, f, m + UnitOffset(f, p, t), p.Units()[t]);
    }
  }

  lemma PacketStarts(ptr: seq<Byte>, f: Format, m: nat, p: Packet)
    requires p.Valid(f.Unit()) && HoldsAt(ptr, m, PacketBytes(p))
    ensures m < |ptr| && Length(ptr[m]) == |p.Units()| && 1 + Payload(f, ptr[m]) == |PacketBytes(p)|
    ensures forall t: nat | t < |p.Units()| :: DataAt(f, ptr[m], m, t) == m + UnitOffset(f, p, t)
  {
    PacketShape(f, p);
    hide PacketBytes;
    assert ptr[m] == ptr[m..m + |PacketBytes(p)|][0];
  }

  function UnitOffset(f: Format, p: Packet, t: nat): nat { if p.Repeat? then 1 else 1 + t * f.Unit() }

  lemma PacketShape(f: Format, p: Packet)
    requires p.Valid(f.Unit())
    ensures |PacketBytes(p)| == 1 + if p.Repeat? then f.Unit() else |p.units| * f.Unit()
    ensures PacketBytes(p)[0] == if p.Repeat? then 127 + p.count else |p.units| - 1
  {
    if p.Each? { ConcatAt(p.units, f.Unit(), 0); }
  }

  lemma UnitHeld(f: Format, p: Packet, t: nat)
    requires p.Valid(f.Unit()) && t < |p.Units()|
    ensures var at := UnitOffset(f, p, t);
            at + f.Unit() <= |PacketBytes(p)| && PacketBytes(p)[at..at + f.Unit()] == p.Units()[t]
  {
    if p.Each? {
      hide Concat;
      ConcatAt(p.units, f.Unit(), t);
      SliceBehind(|p.units| - 1, Concat(p.units), t * f.Unit(), t * f.Unit() + f.Unit());
    }
  }

  lemma SliceBehind(b: Byte, s: seq<Byte>, lo: nat, hi: nat)
    requires lo <= hi <= |s|
    ensures ([b] + s)[1 + lo..1 + hi] == s[lo..hi]
  {
  }

  // ------------------------------------------------------- the whole stream, read back

  /** Whatever the packets, the reader's expansion of their bytes is their pixels in order. */
  lemma {:induction false} StreamReads(ptr: seq<Byte>, f: Format, m: nat, packets: seq<Packet>)
    requires AllValid(packets, f.Unit()) && HoldsAt(ptr, m, StreamBytes(packets))
    requires forall t | 0 <= t < |Flat(packets)| :: Meaningful(ptr, f, Flat(packets)[t])
    ensures Covers(ptr, f, m, |Flat(packets)|)
    ensures forall t | 0 <= t < |Flat(packets)| :: Expand(ptr, f, m, |Flat(packets)|)[t] == UnitPixel(ptr, f, Flat(packets)[t])
    decreases |packets|
  {
    hide Meaningful, UnitPixel, Readable, PixelAt, Packet.Valid, PacketBytes, Payload, DataAt, Length;
    if packets != [] {
      var p, rest := packets[0], packets[1..];
      FirstValid(packets, f.Unit());
      var size := |PacketBytes(p)|;
      var flat := Flat(packets);
      assert flat[..|p.Units()|] == p.Units() && flat[|p.Units()|..] == Flat(rest);
      forall t | 0 <= t < |p.Units()| ensures Meaningful(ptr, f, p.Units()[t]) { assert flat[t] == p.Units()[t]; }
      forall t | 0 <= t < |Flat(rest)| ensures Meaningful(ptr, f, Flat(rest)[t]) { assert flat[|p.Units()| + t] == Flat(rest)[t]; }
      StreamSplit(packets);
      PartHeld(ptr, m, StreamBytes(packets), 0, size);
      PartHeld(ptr, m, StreamBytes(packets), size, |StreamBytes(packets)|);
      PacketReads(ptr, f, m, p);
      StreamReads(ptr, f, m + size, rest);
      Prepend(ptr, f, m, |p.Units()|, |flat|);
    }
  }

  lemma FirstValid(packets: seq<Packet>, size: nat)
    requires AllValid(packets, size) && packets != []
    ensures packets[0].Valid(size) && 1 <= |packets[0].Units()| <= 128 && AllValid(packets[1..], size)
    ensures forall k | 0 <= k < |packets| :: 1 <= |packets[k].Units()| <= 128
  {
  }

  lemma StreamSplit(packets: seq<Packet>)
    requires packets != [] && forall k | 0 <= k < |packets| :: 1 <= |packets[k].Units()| <= 128
    ensures var size, all := |PacketBytes(packets[0])|, StreamBytes(packets);
            size <= |all| && all[0..size] == PacketBytes(packets[0]) && all[size..|all|] == StreamBytes(packets[1..])
  {
    hide PacketBytes;
  }

  lemma Prepend(ptr: seq<Byte>, f: Format, m: nat, count: nat, need: nat)
    requires m < |ptr| && count == Length(ptr[m]) <= need
    requires forall t: nat | t < count :: Readable(ptr, f, DataAt(f, ptr[m], m, t))
    requires Covers(ptr, f, m + 1 + Payload(f, ptr[m]), need - count)
    ensures Covers(ptr, f, m, need)
    ensures Expand(ptr, f, m, need) == PacketPixels(ptr, f, m) + Expand(ptr, f, m + 1 + Payload(f, ptr[m]), need - count)
  {
    hide Readable, PixelAt, DataAt, Payload;
  }

  // ------------------------------------------------------------------------ the file

  /** A run-length picture: its size, whether its first row is the top one, its colour map and its packets. */
  datatype Image = Image(f: Format, w: nat, h: nat, origin: nat, palette: seq<Argb>, packets: seq<Packet>) {
    ghost predicate Valid() {
      && (f.depth == 3 || f.depth == 4) && 1 <= w < 0x1_0000 && 1 <= h < 0x1_0000 && origin < 0x1_0000
      && (f.TrueColor? ==> palette == []) && |palette| < 256
      && AllValid(packets, f.Unit()) && |Flat(packets)| == w * h
      && (f.Indexed? ==> forall t | 0 <= t < |Flat(packets)| :: Flat(packets)[t] != [] && Flat(packets)[t][0] < |palette|)
      && (f.depth == 3 ==> forall k | 0 <= k < |palette| :: palette[k].a == 0xff)
    }
  }

  function ColorBytes(c: Argb, depth: nat): (r: seq<Byte>)
    requires depth == 3 || depth == 4
    ensures |r| == depth && (depth == 3 && c.a == 0xff ==> IsColor(r, depth, c)) && (depth == 4 ==> IsColor(r, depth, c))
  {
    [c.b, c.g, c.r] + if depth == 4 then [c.a] else []
  }

  function PaletteBytes(palette: seq<Argb>, depth: nat): seq<Byte>
    requires depth == 3 || depth == 4
  {
    Concat(seq(|palette|, k requires 0 <= k < |palette| => ColorBytes(palette[k], depth)))
  }

  /** The eighteen header bytes; two-byte numbers have their low byte first. */
  function Header(im: Image): (r: seq<Byte>)
    requires im.w < 0x1_0000 && im.h < 0x1_0000 && im.origin < 0x1_0000 && |im.palette| < 256 && im.f.depth <= 4
    ensures |r| == 18
  {
    var bits: Byte := 8 * im.f.depth;
    [0, if im.f.Indexed? then 1 else 0, if im.f.Indexed? then 9 else 10, 0, 0, |im.palette|, 0, if im.f.Indexed? then bits else 0, 0, 0,
     im.origin % 256, im.origin / 256, im.w % 256, im.w / 256, im.h % 256, im.h / 256, if im.f.Indexed? then 8 else bits, 0]
  }

  ghost function FileBytes(im: Image): seq<Byte>
    requires im.Valid()
  {
    Header(im) + PaletteBytes(im.palette, im.f.depth) + StreamBytes(im.packets)
  }

  /** The colour pixel t of the packets stands for. */
  ghost predicate Stands(im: Image, t: nat, c: Argb)
    requires im.Valid() && t < |Flat(im.packets)|
  {
    var unit := Flat(im.packets)[t];
    if im.f.Indexed? then 0 < |unit| && unit[0] < |im.palette| && im.palette[unit[0]] == c else IsColor(unit, im.f.depth, c)
  }

  lemma HeaderReads(im: Image, ptr: seq<Byte>)
    requires im.Valid() && |ptr| >= 18 && ptr[..18] == Header(im)
    ensures Width(ptr) == im.w && Height(ptr) == im.h && Word(ptr[10], ptr[11]) == im.origin && FormatOf(ptr) == Some(im.f)
    ensures PacketStart(ptr) == 18 + if im.f.Indexed? then im.f.depth * |im.palette| else 0
    ensures ptr[2] == if im.f.Indexed? then 9 else 10
  {
    hide AllValid, Flat;
    var r := Header(im);
    assert forall k | 0 <= k < 18 :: ptr[k] == r[k];
  }

  lemma {:induction false} FlatValid(packets: seq<Packet>, size: nat, t: nat)
    requires AllValid(packets, size) && t < |Flat(packets)|
    ensures |Flat(packets)[t]| == size
    decreases |packets|
  {
    FirstValid(packets, size);
    var n := |packets[0].Units()|;
    if t >= n {
      FlatValid(packets[1..], size, t - n);
    }
  }

  lemma PaletteAt(palette: seq<Argb>, depth: nat, k: nat)
    requires (depth == 3 || depth == 4) && k < |palette|
    ensures |PaletteBytes(palette, depth)| == |palette| * depth && 0 <= k * depth && k * depth + depth <= |palette| * depth
    ensures PaletteBytes(palette, depth)[k * depth..k * depth + depth] == ColorBytes(palette[k], depth)
  {
    hide Concat, ColorBytes;
    ConcatAt(seq(|palette|, k requires 0 <= k < |palette| => ColorBytes(palette[k], depth)), depth, k);
  }

  lemma PaletteSize(im: Image)
    requires im.Valid()
    ensures |PaletteBytes(im.palette, im.f.depth)| == im.f.depth * |im.palette|
  {
    hide AllValid, Flat;
    if im.palette != [] { PaletteAt(im.palette, im.f.depth, 0); }
  }

  lemma FileParts(im: Image)
    requires im.Valid()
    ensures var ptr, size := FileBytes(im), |PaletteBytes(im.palette, im.f.depth)|;
            && |ptr| >= 18 && ptr[..18] == Header(im)
            && HoldsAt(ptr, 18, PaletteBytes(im.palette, im.f.depth)) && HoldsAt(ptr, 18 + size, StreamBytes(im.packets))
  {
    hide Flat, Header, PaletteBytes, StreamBytes;
    var a, b, c := Header(im), PaletteBytes(im.palette, im.f.depth), StreamBytes(im.packets);
    var ptr := FileBytes(im);
    assert ptr == a + b + c;
    assert ptr[18..18 + |b|] == b && ptr[18 + |b|..18 + |b| + |c|] == c;
  }

  lemma MapEntry(im: Image, ptr: seq<Byte>, k: nat)
    requires im.Valid() && k < |im.palette| && HoldsAt(ptr, 18, PaletteBytes(im.palette, im.f.depth))
    ensures k * im.f.depth + 18 + im.f.depth <= |ptr|
    ensures Shows(Color(ptr, k * im.f.depth + 18, im.f.depth), im.palette[k])
  {
    hide AllValid, Flat, Shows, Color, PaletteBytes;
    var depth := im.f.depth;
    PaletteAt(im.palette, depth, k);
    PartHeld(ptr, 18, PaletteBytes(im.palette, depth), k * depth, k * depth + depth);
    ColorShows(ptr, k * depth + 18, depth, im.palette[k]);
  }

  lemma UnitMeans(im: Image, ptr: seq<Byte>, t: nat)
    requires im.Valid() && t < |Flat(im.packets)| && HoldsAt(ptr, 18, PaletteBytes(im.palette, im.f.depth))
    ensures Meaningful(ptr, im.f, Flat(im.packets)[t])
    ensures forall c | Stands(im, t, c) :: Shows(UnitPixel(ptr, im.f, Flat(im.packets)[t]), c)
  {
    hide AllValid, Flat, Shows, Color, PaletteBytes, HoldsAt;
    FlatValid(im.packets, im.f.Unit(), t);
    var unit := Flat(im.packets)[t];
    if im.f.Indexed? {
      MapEntry(im, ptr, unit[0]);
    } else {
      forall c | Stands(im, t, c) ensures Shows(UnitPixel(ptr, im.f, unit), c) {
        assert unit[0..im.f.depth] == unit;
        ColorShows(unit, 0, im.f.depth, c);
      }
    }
  }

  /** Every run-length file is covered by its packets, and the reader's expansion is its colours in order. */
  lemma FileReads(im: Image)
    requires im.Valid()
    ensures var ptr := FileBytes(im);
            && |ptr| >= 18 && Width(ptr) == im.w && Height(ptr) == im.h && FormatOf(ptr) == Some(im.f)
            && Word(ptr[10], ptr[11]) == im.origin && (ptr[2] == 9 || ptr[2] == 10)
            && Covers(ptr, im.f, PacketStart(ptr), im.w * im.h)
            && forall t: nat, c | t < im.w * im.h && Stands(im, t, c) :: Shows(Expand(ptr, im.f, PacketStart(ptr), im.w * im.h)[t], c)
  {
    hide AllValid, Flat, Shows, Stands, PaletteBytes, StreamBytes, HoldsAt, Meaningful, UnitPixel, Covers, Expand, Header, FileBytes, FormatOf;
    var ptr := FileBytes(im);
    FileParts(im);
    PaletteSize(im);
    HeaderReads(im, ptr);
    forall t | 0 <= t < |Flat(im.packets)| ensures Meaningful(ptr, im.f, Flat(im.packets)[t]) { UnitMeans(im, ptr, t); }
    StreamReads(ptr, im.f, PacketStart(ptr), im.packets);
    forall t: nat, c | t < im.w * im.h && Stands(im, t, c)
      ensures Shows(Expand(ptr, im.f, PacketStart(ptr), im.w * im.h)[t], c)
    {
      UnitMeans(im, ptr, t);
    }
  }

  /**
   tga_parse on the bytes of a run-length picture: the size words, then the colour of every pixel
   where the picture has it, the first row of the file at the bottom exactly when the origin is 0.
   */
  method ParseFile(ptr: seq<Byte>, ghost im: Image) returns (data: seq<int>)
    requires im.Valid() && im.w * im.h + 2 <= INT_MAX && ptr == FileBytes(im)
    ensures |data| == im.w * im.h + 2 && data[0] == im.w && data[1] == im.h
    ensures forall row: nat, x: nat, c | row < im.h && x < im.w && PixelIs(im, row, x, c) ::
      PixelShows(data, if im.origin == 0 then im.h - 1 - row else row, x, im.w, c)
  {
    hide Image.Valid, Shows, Stands, FileBytes, Covers, Expand, FormatOf, PacketStart, Painted, OnceEach, PixelIs, PixelShows, Width, Height, Word;
    FileReads(im);
    var r, _ := TgaParse(ptr, true);
    data := r.data;
    ghost var pixels := Expand(ptr, im.f, PacketStart(ptr), im.w * im.h);
    forall row: nat, x: nat, c | row < im.h && x < im.w && PixelIs(im, row, x, c)
      ensures PixelShows(data, if im.origin == 0 then im.h - 1 - row else row, x, im.w, c)
    {
      ColorPlaced(im, data, pixels, row, x, c);
    }
  }

  lemma ColorPlaced(im: Image, data: seq<int>, pixels: seq<int>, row: nat, x: nat, c: Argb)
    requires im.Valid() && |data| == im.w * im.h + 2 && |pixels| == im.w * im.h && row < im.h && x < im.w
    requires Painted(data[2..], pixels, im.w, im.h, im.origin == 0, im.w * im.h) && PixelIs(im, row, x, c)
    requires forall t: nat, c | t < im.w * im.h && Stands(im, t, c) :: Shows(pixels[t], c)
    ensures PixelShows(data, if im.origin == 0 then im.h - 1 - row else row, x, im.w, c)
  {
    hide Image.Valid, Shows, Stands, Painted, Flat;
    PixelPlaced(data[2..], pixels, im.w, im.h, im.origin == 0, row, x);
  }

  /** The colour of column x of the file's row. */
  ghost predicate PixelIs(im: Image, row: nat, x: nat, c: Argb)
    requires im.Valid()
  {
    row * im.w + x < |Flat(im.packets)| && Stands(im, row * im.w + x, c)
  }

  ghost predicate PixelShows(data: seq<int>, row: nat, x: nat, w: nat, c: Argb) {
    2 + row * w + x < |data| && Shows(data[2 + row * w + x], c)
  }

  lemma PixelPlaced(dest: seq<int>, pixels: seq<int>, w: nat, h: nat, flip: bool, row: nat, x: nat)
    requires Painted(dest, pixels, w, h, flip, w * h) && row < h && x < w && |pixels| == w * h && |dest| == w * h
    ensures var to := if flip then h - 1 - row else row;
            row * w + x < w * h && 0 <= to * w + x < w * h && dest[to * w + x] == pixels[row * w + x]
  {
    CellBound(row, x, w, h);
    CellBound(if flip then h - 1 - row else row, x, w, h);
    assert PaintedAt(dest, pixels, w, h, flip, row, x);
  }
}
