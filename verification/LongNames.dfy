/**
 FAT long file names: a name cut into slots of thirteen 16-bit units, the slots stored
 in reverse order, and the lookup that puts them together again and compares.
 */
module LongNames {
  import opened Common

  const UNITS := 13
  const MAX_SLOTS := 64 // slot numbers above this collide with the marked first slot
  const PATH_NAME := 256 // bytes of fat_find's path_name buffer

  /** The parts of long_filename_t the codec uses. */
  datatype Slot = Slot(flags: nat, lo: seq<int>, mid: seq<int>, hi: seq<int>) {
    function Units(): seq<int> { lo + mid + hi }
  }

  ghost predicate IsName(name: seq<Byte>) {
    forall k | 0 <= k < |name| :: name[k] != 0
  }

  /** *path with path at position k: the string is followed by a zero byte. */
  function CharAt(name: seq<Byte>, k: nat): Byte { if k < |name| then name[k] else 0 }

  /** A (signed) char stored in a uint16_t. */
  function SignExtend(b: Byte): int { if b < 0x80 then b else 0xff00 + b }

  /** Read as signed numbers, the 8-bit character and the 16-bit unit are the same. */
  lemma SignKept(b: Byte)
    ensures 0 <= SignExtend(b) < 0x1_0000
    ensures (if SignExtend(b) < 0x8000 then SignExtend(b) else SignExtend(b) - 0x1_0000) == if b < 0x80 then b as int else b as int - 0x100
  {
  }

  /** Unit k of the encoded name: the character, then one terminator, then padding. */
  function Unit(name: seq<Byte>, k: nat): int {
    if k < |name| then SignExtend(name[k]) else if k == |name| then 0 else 0xffff
  }

  function UnitsFrom(name: seq<Byte>, k: nat, n: nat): (r: seq<int>)
    ensures |r| == n && forall j | 0 <= j < n :: r[j] == Unit(name, k + j)
  {
    seq(n, j requires 0 <= j < n => Unit(name, k + j))
  }

  function SlotCount(name: seq<Byte>): nat { |name| / UNITS + 1 }

  /** The flags byte of slot i when there are len slots. */
  function Placement(i: nat, len: nat): nat {
    if i == 0 then 1 else NextPlacement(Placement(i - 1, len), len)
  }

  /** The uint8_t placement after p: one more, marked with bit 6 when p was len - 1. */
  function NextPlacement(p: nat, len: nat): nat {
    var q := if p < 255 then p + 1 else 0;
    if p == len - 1 then (if 64 <= q < 128 || 192 <= q then q else q + 64) else q
  }

  /** One more in eight bits; after the last but one slot bit 6 is set as well and no other bit changes. */
  lemma NextPlacementBits(p: nat, len: nat)
    requires p < 256
    ensures var q, r := (p + 1) % 256, NextPlacement(p, len);
            && r < 256 && r % 64 == q % 64 && r / 128 == q / 128
            && r / 64 % 2 == if p == len - 1 then 1 else q / 64 % 2
  {
  }

  function SlotOf(name: seq<Byte>, i: nat): Slot {
    Slot(Placement(i, SlotCount(name)), UnitsFrom(name, UNITS * i, 5), UnitsFrom(name, UNITS * i + 5, 6), UnitsFrom(name, UNITS * i + 11, 2))
  }

  /** The name's slots lie at index.. in reverse order. */
  ghost predicate Encodes(dir: seq<Slot>, index: nat, name: seq<Byte>) {
    var len := SlotCount(name);
    index + len <= |dir| && forall n | index <= n < index + len :: dir[n] == SlotOf(name, index + len - 1 - n)
  }

  // ---------------------------------------------------------------------- encoding

  /** One of the three inner loops of fat_create: fill a field from the current position. */
  method FillField(name: seq<Byte>, ghost k: nat, pos0: nat, done0: bool, width: nat) returns (units: seq<int>, pos: nat, done: bool)
    requires IsName(name) && (done0 <==> k > |name|) && (!done0 ==> pos0 == k)
    ensures units == UnitsFrom(name, k, width)
    ensures (done <==> k + width > |name|) && (!done ==> pos == k + width)
  {
    pos, done := pos0, done0;
    units := [];
    var j := 0;
    while j < width
      invariant j <= width && |units| == j && forall h | 0 <= h < j :: units[h] == Unit(name, k + h)
      invariant (done <==> k + j > |name|) && (!done ==> pos == k + j)
    {
      if !done {
        if CharAt(name, pos) == 0 {
          done := true;
          units := units + [0];
        } else {
          units := units + [SignExtend(CharAt(name, pos))];
          pos := pos + 1;
        }
      } else {
        units := units + [0xffff];
      }
      j := j + 1;
    }
  }

  /** One slot: five, six and two units. */
  method EncodeSlot(name: seq<Byte>, ghost i: nat, pos0: nat, done0: bool, placement: nat) returns (slot: Slot, pos: nat, done: bool)
    requires IsName(name) && (done0 <==> UNITS * i > |name|) && (!done0 ==> pos0 == UNITS * i)
    requires placement == Placement(i, SlotCount(name))
    ensures slot == SlotOf(name, i)
    ensures (done <==> UNITS * (i + 1) > |name|) && (!done ==> pos == UNITS * (i + 1))
  {
    var lo, mid, hi;
    lo, pos, done := FillField(name, UNITS * i, pos0, done0, 5);
    mid, pos, done := FillField(name, UNITS * i + 5, pos, done, 6);
    hi, pos, done := FillField(name, UNITS * i + 11, pos, done, 2);
    slot := Slot(placement, lo, mid, hi);
  }

  // ---------------------------------------------------------------------- decoding

  predicate IsFirst(flags: nat) { flags == 0x1 || flags == 0x41 }

  /** The slot where fat_find's scan from `index` stops. */
  ghost predicate StopsAt(dir: seq<Slot>, index: nat, stop: nat) {
    index <= stop < |dir| && IsFirst(dir[stop].flags) && forall n | index <= n < stop :: !IsFirst(dir[n].flags)
  }

  /** The scan for a slot numbered one, from entry i on; None when it leaves the directory. */
  method CountSlots(dir: seq<Slot>, i: nat) returns (count: Option<nat>)
    requires i <= |dir|
    ensures count.None? <==> forall n | i <= n < |dir| :: !IsFirst(dir[n].flags)
    ensures count.Some? ==> 1 <= count.value && StopsAt(dir, i, i + count.value - 1)
  {
    var k := 0;
    while i + k < |dir| && dir[i + k].flags != 0x1 && dir[i + k].flags != 0x41
      invariant i + k <= |dir| && forall n | i <= n < i + k :: !IsFirst(dir[n].flags)
    {
      k := k + 1;
    }
    if i + k == |dir| {
      return None;
    }
    return Some(k + 1);
  }

  ghost predicate FullSlots(dir: seq<Slot>, i: nat, count: nat) {
    i + count <= |dir| && forall n | i <= n < i + count :: |dir[n].lo| == 5 && |dir[n].mid| == 6 && |dir[n].hi| == 2
  }

  /** Byte k that fat_find assembles from count slots starting at entry i. */
  function ByteOf(dir: seq<Slot>, i: nat, count: nat, k: nat): Byte
    requires FullSlots(dir, i, count) && k < count * UNITS
  {
    dir[i + count - 1 - k / UNITS].Units()[k % UNITS] % 256
  }

  /** The three copying loops of fat_find, slot by slot from the last stored to the first. */
  method Assemble(dir: seq<Slot>, i: nat, count: nat) returns (bytes: seq<Byte>)
    requires FullSlots(dir, i, count)
    ensures |bytes| == count * UNITS && forall k | 0 <= k < |bytes| :: bytes[k] == ByteOf(dir, i, count, k)
  {
    bytes := [];
    var j := 0;
    while j < count
      invariant j <= count && |bytes| == j * UNITS && forall k | 0 <= k < |bytes| :: bytes[k] == ByteOf(dir, i, count, k)
    {
      var lfn := dir[i + count - 1 - j];
      var part := CopyUnits(lfn);
      bytes := bytes + part;
      j := j + 1;
    }
  }

  method CopyUnits(lfn: Slot) returns (part: seq<Byte>)
    requires |lfn.lo| == 5 && |lfn.mid| == 6 && |lfn.hi| == 2
    ensures |part| == UNITS && forall x | 0 <= x < UNITS :: part[x] == lfn.Units()[x] % 256
  {
    part := [];
    for x := 0 to 5
      invariant |part| == x && forall y | 0 <= y < x :: part[y] == lfn.lo[y] % 256
    {
      part := part + [lfn.lo[x] % 256];
    }
    for x := 0 to 6
      invariant |part| == 5 + x && (forall y | 0 <= y < 5 :: part[y] == lfn.lo[y] % 256)
      invariant forall y | 5 <= y < 5 + x :: part[y] == lfn.mid[y - 5] % 256
    {
      part := part + [lfn.mid[x] % 256];
    }
    for x := 0 to 2
      invariant |part| == 11 + x && (forall y | 0 <= y < 5 :: part[y] == lfn.lo[y] % 256)
      invariant forall y | 5 <= y < 11 :: part[y] == lfn.mid[y - 5] % 256
      invariant forall y | 11 <= y < 11 + x :: part[y] == lfn.hi[y - 11] % 256
    {
      part := part + [lfn.hi[x] % 256];
    }
  }

  // -------------------------------------------------------------------- round trip

  /** Byte k of the decoded buffer: the name, its terminator, 0xff padding. */
  function NameByte(name: seq<Byte>, k: nat): Byte {
    if k < |name| then name[k] else if k == |name| then 0 else 0xff
  }

  lemma EncodedFull(dir: seq<Slot>, index: nat, name: seq<Byte>)
    requires Encodes(dir, index, name)
    ensures FullSlots(dir, index, SlotCount(name))
  {
  }

  /** Decoding what was encoded gives the name back, whatever bytes it is made of. */
  lemma DecodesToName(dir: seq<Slot>, index: nat, name: seq<Byte>, k: nat)
    requires Encodes(dir, index, name) && k < SlotCount(name) * UNITS
    ensures FullSlots(dir, index, SlotCount(name)) && ByteOf(dir, index, SlotCount(name), k) == NameByte(name, k)
  {
  }

  // ------------------------------------------------------------------ slot numbers

  lemma {:induction false} PlacementBelow(i: nat, len: nat)
    requires i + 1 < len && i < 255
    ensures Placement(i, len) == i + 1
  {
    if i > 0 { PlacementBelow(i - 1, len); }
  }

  /** The flags byte of the last slot, which is stored first. */
  lemma PlacementLast(len: nat)
    requires 1 <= len <= 65
    ensures Placement(len - 1, len) == if len == 1 then 1 else if len < 64 then len + 64 else if len == 64 then 64 else 65
  {
    if len > 1 {
      PlacementBelow(len - 2, len);
      assert Placement(len - 1, len) == NextPlacement(len - 1, len);
    }
  }

  /** Slot 64 of a name that has one carries the number fat_find takes for the first slot. */
  lemma Collision(len: nat)
    requires len > MAX_SLOTS
    ensures Placement(64, len) == 0x41
  {
    if len == 65 { PlacementLast(65); } else { PlacementBelow(64, len); }
  }

  /** The last slot at or below slot i that fat_find takes for the first one. */
  function Start(i: nat, len: nat): (r: nat)
    ensures r <= i && IsFirst(Placement(r, len)) && forall n | r < n <= i :: !IsFirst(Placement(n, len))
  {
    if i == 0 || IsFirst(Placement(i, len)) then i else Start(i - 1, len)
  }

  /** The slot of the name at which fat_find begins to read it. */
  function StartOf(name: seq<Byte>): nat { StartAt(|name|) }

  function StartAt(n: nat): nat { Start(n / UNITS, n / UNITS + 1) }

  /** fat_find reads a name from its beginning exactly when it has at most 64 slots. */
  lemma StartsAtZeroIff(name: seq<Byte>)
    ensures StartOf(name) == 0 <==> SlotCount(name) <= MAX_SLOTS
  {
    var len := SlotCount(name);
    var i := StartOf(name);
    if len > MAX_SLOTS {
      Collision(len);
    } else if i > 0 {
      if i + 1 < len { PlacementBelow(i, len); } else { PlacementLast(len); }
    }
  }

  /** The part of the name fat_find sees. */
  function Seen(name: seq<Byte>): seq<Byte> { name[UNITS * StartOf(name)..] }

  lemma SeenSlots(name: seq<Byte>)
    ensures UNITS * StartOf(name) <= |name| && SlotCount(Seen(name)) == SlotCount(name) - StartOf(name)
  {
    Shift(|name|, StartOf(name));
  }

  lemma Shift(n: nat, k: nat)
    requires UNITS * k <= n
    ensures (n - UNITS * k) / UNITS == n / UNITS - k
  {
  }

  /** fat_find's scan stops at slot StartOf, whatever lies around the name. */
  lemma ScanStops(dir: seq<Slot>, index: nat, name: seq<Byte>, stop: nat)
    requires Encodes(dir, index, name) && StopsAt(dir, index, stop)
    ensures stop == index + SlotCount(name) - 1 - StartOf(name)
  {
    hide Placement;
    var len, i := SlotCount(name), StartOf(name);
    assert dir[index + len - 1 - i].flags == Placement(i, len);
    assert stop <= index + len - 1 - i;
    assert dir[stop].flags == Placement(index + len - 1 - stop, len);
  }

  /** fat_find counts a name's slots correctly exactly when there are at most 64 of them. */
  lemma CountsAllIff(dir: seq<Slot>, index: nat, name: seq<Byte>)
    requires Encodes(dir, index, name)
    ensures StopsAt(dir, index, index + SlotCount(name) - 1) <==> SlotCount(name) <= MAX_SLOTS
  {
    StartsAtZeroIff(name);
    hide Placement;
    var len := SlotCount(name);
    if len <= MAX_SLOTS {
      forall n | index <= n < index + len - 1 ensures !IsFirst(dir[n].flags) {
        assert dir[n].flags == Placement(index + len - 1 - n, len);
      }
      assert dir[index + len - 1].flags == Placement(0, len);
    } else if StopsAt(dir, index, index + len - 1) {
      ScanStops(dir, index, name, index + len - 1);
    }
  }

  /** The slots fat_find counts hold the part of the name it sees. */
  lemma SeenDecodes(dir: seq<Slot>, index: nat, name: seq<Byte>, count: nat, k: nat)
    requires Encodes(dir, index, name) && count == SlotCount(name) - StartOf(name) && k < count * UNITS
    ensures FullSlots(dir, index, count) && ByteOf(dir, index, count, k) == NameByte(Seen(name), k)
  {
    hide SlotOf, Unit, Placement, StartAt, NameByte;
    SeenSlots(name);
    EncodedFull(dir, index, name);
    var i, j, x := StartOf(name), k / UNITS, k % UNITS;
    assert dir[index + count - 1 - j] == SlotOf(name, i + j);
    UnitInSlot(name, i + j, x);
    SeenUnit(name, UNITS * i, k);
  }

  lemma UnitInSlot(name: seq<Byte>, j: nat, x: nat)
    requires x < UNITS
    ensures |SlotOf(name, j).Units()| == UNITS && SlotOf(name, j).Units()[x] == Unit(name, UNITS * j + x)
  {
    hide Placement;
  }

  lemma SeenUnit(name: seq<Byte>, start: nat, k: nat)
    requires start <= |name|
    ensures Unit(name, start + k) % 256 == NameByte(name[start..], k)
  {
  }

  // ------------------------------------------------------------------- comparison

  /** Byte k of path_name after the first t characters are stored with an 8-bit position. */
  function WrappedByte(component: seq<Byte>, t: nat, k: nat): Byte
    requires t <= |component| && k < PATH_NAME
  {
    var pos := t % PATH_NAME;
    if k < pos then component[t - pos + k] else if t - pos >= PATH_NAME then component[t - pos - PATH_NAME + k] else 0xff
  }

  /** Byte k of the finished path_name. */
  function PathByte(component: seq<Byte>, k: nat): Byte
    requires k < PATH_NAME
  {
    if k == |component| % PATH_NAME then 0 else WrappedByte(component, |component|, k)
  }

  lemma WrapStep(component: seq<Byte>, t: nat, k: nat)
    requires t < |component| && k < PATH_NAME
    ensures WrappedByte(component, t + 1, k) == if k == t % PATH_NAME then component[t] else WrappedByte(component, t, k)
  {
    var q, r := t / PATH_NAME, t % PATH_NAME;
    assert t == q * PATH_NAME + r;
    assert (t + 1) % PATH_NAME == if r == 255 then 0 else r + 1;
  }

  /** path_name: n bytes of 0xff, then the component and a zero byte; None when n bytes overrun the buffer. */
  method BuildPathName(component: seq<Byte>, n: nat) returns (path: Option<seq<Byte>>)
    ensures path.None? <==> n > PATH_NAME
    ensures path.Some? ==> |path.value| == PATH_NAME && forall k | 0 <= k < n :: path.value[k] == PathByte(component, k)
  {
    var name := new Byte[PATH_NAME];
    var i := 0;
    while i < n
      invariant i <= n && i <= PATH_NAME && forall k | 0 <= k < i :: name[k] == 0xff
    {
      if i == PATH_NAME {
        return None;
      }
      name[i] := 0xff;
      i := i + 1;
    }
    hide WrappedByte;
    var t, pos := 0, 0;
    assert forall k | 0 <= k < n :: name[k] == WrappedByte(component, 0, k) by { EmptyPath(component); }
    while t < |component|
      invariant t <= |component| && pos == t % PATH_NAME
      invariant forall k | 0 <= k < n :: name[k] == WrappedByte(component, t, k)
    {
      forall k | 0 <= k < n
        ensures WrappedByte(component, t + 1, k) == if k == pos then component[t] else WrappedByte(component, t, k)
      {
        WrapStep(component, t, k);
      }
      name[pos] := component[t];
      pos := if pos == 255 then 0 else pos + 1;
      t := t + 1;
    }
    name[pos] := 0;
    return Some(name[..]);
  }

  lemma EmptyPath(component: seq<Byte>)
    ensures forall k: nat | k < PATH_NAME :: WrappedByte(component, 0, k) == 0xff
  {
  }

  /** The kernel's strncmp: compares all n bytes, past any zero. */
  method Strncmp(a: seq<Byte>, b: seq<Byte>, n: nat) returns (r: int)
    requires n <= |a| && n <= |b|
    ensures r == 0 <==> a[..n] == b[..n]
  {
    var i := 0;
    while i < n
      invariant i <= n && a[..i] == b[..i]
    {
      if a[i] != b[i] {
        assert a[..n][i] != b[..n][i];
        return 1;
      }
      i := i + 1;
    }
    return 0;
  }

  /** The component, as path_name holds it, agrees with the slots of the name. */
  ghost predicate Agrees(component: seq<Byte>, name: seq<Byte>)
    requires SlotCount(name) * UNITS <= PATH_NAME
  {
    forall k | 0 <= k < SlotCount(name) * UNITS :: PathByte(component, k) == NameByte(name, k)
  }

  /**
   What a match means: below 256 bytes, that the names are equal; from 256 bytes on, that the
   component wraps so that it ends in the name, with 0xff where the slots are padded.
   */
  lemma AgreesIff(component: seq<Byte>, name: seq<Byte>)
    requires IsName(component) && IsName(name) && SlotCount(name) * UNITS <= PATH_NAME
    ensures Agrees(component, name) ==> |component| % PATH_NAME == |name|
    ensures |component| < PATH_NAME ==> (Agrees(component, name) <==> component == name)
  {
    if Agrees(component, name) {
      assert PathByte(component, |name|) == NameByte(name, |name|) == 0;
      if |component| < PATH_NAME {
        forall k | 0 <= k < |name| ensures component[k] == name[k] {
          assert PathByte(component, k) == NameByte(name, k);
        }
      }
    }
  }

  datatype Lookup = PastDirectory | PastPathName | Answer(found: bool)

  /** The buffer overrun, or whether the component agrees with the part of the name that is seen. */
  ghost function Outcome(component: seq<Byte>, name: seq<Byte>): Lookup {
    if SlotCount(Seen(name)) * UNITS > PATH_NAME then PastPathName else Answer(Agrees(component, Seen(name)))
  }

  /** The counting and copying loops on a stored name: the bytes of the part of it that is seen. */
  method Gather(dir: seq<Slot>, index: nat, ghost name: seq<Byte>) returns (count: Option<nat>, bytes: seq<Byte>)
    requires Encodes(dir, index, name)
    ensures count == Some(SlotCount(Seen(name))) && |bytes| == count.value * UNITS
    ensures forall k | 0 <= k < |bytes| :: bytes[k] == NameByte(Seen(name), k)
  {
    hide SlotOf, Placement, NameByte, ByteOf;
    bytes := [];
    count := CountSlots(dir, index);
    FirstIsThere(dir, index, name);
    if count.None? {
      return;
    }
    ScanStops(dir, index, name, index + count.value - 1);
    SeenSlots(name);
    EncodedFull(dir, index, name);
    bytes := Assemble(dir, index, count.value);
    forall k | 0 <= k < |bytes| ensures bytes[k] == NameByte(Seen(name), k) { SeenDecodes(dir, index, name, count.value, k); }
  }

  /** path_name against the bytes of the slots; None when the slots are more than path_name holds. */
  method Compare(component: seq<Byte>, bytes: seq<Byte>) returns (same: Option<bool>)
    ensures same.None? <==> |bytes| > PATH_NAME
    ensures same.Some? ==> (same.value <==> forall k | 0 <= k < |bytes| :: PathByte(component, k) == bytes[k])
  {
    hide PathByte;
    var path := BuildPathName(component, |bytes|);
    if path.None? {
      return None;
    }
    var d := Strncmp(path.value, bytes, |bytes|);
    assert path.value[..|bytes|] == bytes[..|bytes|] <==> forall k | 0 <= k < |bytes| :: path.value[k] == bytes[k];
    return Some(d == 0);
  }

  /**
   One comparison of fat_find, for a name stored in the directory.  The scan never leaves the
   directory, and the answer is the one AgreesIff and RightForIff are about.
   */
  method LookUp(dir: seq<Slot>, index: nat, component: seq<Byte>, ghost name: seq<Byte>) returns (r: Lookup)
    requires IsName(name) && IsName(component) && Encodes(dir, index, name)
    ensures r == Outcome(component, name)
  {
    hide Encodes, PathByte, NameByte, Seen;
    var counted, bytes := Gather(dir, index, name);
    if counted.None? {
      return PastDirectory;
    }
    var same := Compare(component, bytes);
    if same.None? {
      return PastPathName;
    }
    return Answer(same.value);
  }

  lemma FirstIsThere(dir: seq<Slot>, index: nat, name: seq<Byte>)
    requires Encodes(dir, index, name)
    ensures exists n :: index <= n < |dir| && IsFirst(dir[n].flags)
  {
    var len := SlotCount(name);
    assert dir[index + len - 1] == SlotOf(name, 0);
  }

  // ----------------------------------------------------- when the lookup is right

  /** Every lookup of a component of c bytes against a stored name of n bytes is right. */
  ghost predicate RightFor(c: nat, n: nat) {
    forall component: seq<Byte>, name: seq<Byte> | IsName(component) && IsName(name) && |component| == c && |name| == n ::
      Outcome(component, name) == Answer(component == name)
  }

  function Ones(n: nat): seq<Byte> { seq<Byte>(n, _ => 1) }

  /** A component that wraps onto the name made of ones. */
  function Wrapping(c: nat, n: nat): seq<Byte>
    requires n <= c
  {
    seq<Byte>(c - n, _ => 0xff) + Ones(n)
  }

  lemma WrappingAgrees(c: nat, name: seq<Byte>)
    requires |name| < PATH_NAME && c % PATH_NAME == |name| && name == Ones(|name|) && SlotCount(name) * UNITS <= PATH_NAME
    ensures Agrees(Wrapping(c, |name|), name)
  {
    hide Wrapping, SlotCount, PathByte;
    forall k | 0 <= k < SlotCount(name) * UNITS ensures PathByte(Wrapping(c, |name|), k) == NameByte(name, k) {
      WrappingByte(c, |name|, k);
    }
  }

  lemma WrappingByte(c: nat, n: nat, k: nat)
    requires n < PATH_NAME && c % PATH_NAME == n && k < PATH_NAME
    ensures n <= c && PathByte(Wrapping(c, n), k) == if k < n then 1 else if k == n then 0 else 0xff
  {
    var w, base := Wrapping(c, n), c - n;
    assert base >= PATH_NAME || base == 0;
    assert forall i: nat | i < c :: w[i] == if i < base then 0xff else 1;
  }

  /** Bytes of an n-byte name that fat_find sees. */
  function SeenLength(n: nat): nat
  {
    SeenSlots(Ones(n));
    n - UNITS * StartAt(n)
  }

  lemma SeenOf(name: seq<Byte>)
    ensures |Seen(name)| == SeenLength(|name|)
    ensures name == Ones(|name|) ==> Seen(name) == Ones(SeenLength(|name|))
  {
    SeenSlots(name);
  }

  lemma OnesNames(c: nat, n: nat)
    requires n <= c
    ensures IsName(Ones(n)) && IsName(Wrapping(c, n)) && |Wrapping(c, n)| == c
    ensures n < c ==> Wrapping(c, n) != Ones(c)
  {
    if n < c { assert Wrapping(c, n)[0] == 0xff && Ones(c)[0] == 1; }
  }

  ghost predicate LengthsFit(c: nat, n: nat) {
    && (SeenLength(n) / UNITS + 1) * UNITS <= PATH_NAME
    && (if StartAt(n) == 0 then c < PATH_NAME || c % PATH_NAME != n else c != n && c % PATH_NAME != SeenLength(n))
  }

  lemma FitIsRight(component: seq<Byte>, name: seq<Byte>)
    requires IsName(component) && IsName(name) && LengthsFit(|component|, |name|)
    ensures Outcome(component, name) == Answer(component == name)
  {
    hide Agrees, StartAt;
    SeenOf(name);
    SeenIsName(name);
    AgreesIff(component, Seen(name));
    if StartAt(|name|) == 0 { assert Seen(name) == name; }
  }

  lemma SeenIsName(name: seq<Byte>)
    requires IsName(name)
    ensures IsName(Seen(name))
  {
    SeenSlots(name);
  }

  /** A lookup that goes wrong for lengths that do not fit. */
  lemma MisfitIsWrong(c: nat, n: nat) returns (component: seq<Byte>, name: seq<Byte>)
    requires !LengthsFit(c, n)
    ensures IsName(component) && IsName(name) && |component| == c && |name| == n
    ensures Outcome(component, name) != Answer(component == name)
  {
    var t := SeenLength(n);
    name := Ones(n);
    SeenOf(name);
    OnesNames(n, n);
    OnesNames(c, c);
    if (t / UNITS + 1) * UNITS > PATH_NAME {
      component := Ones(c);
    } else if c % PATH_NAME == t {
      component := Wrapping(c, t);
      OnesNames(c, t);
      WrappingAgrees(c, Ones(t));
    } else {
      component := Ones(c);
      SeenIsName(name);
      AgreesIff(component, Seen(name));
    }
  }

  /** Exactly the lengths for which a lookup never answers wrongly. */
  lemma RightForIff(c: nat, n: nat)
    ensures RightFor(c, n) <==> LengthsFit(c, n)
  {
    hide Outcome, LengthsFit;
    if LengthsFit(c, n) {
      forall component: seq<Byte>, name: seq<Byte> | IsName(component) && IsName(name) && |component| == c && |name| == n
        ensures Outcome(component, name) == Answer(component == name)
      {
        FitIsRight(component, name);
      }
    } else {
      var component, name := MisfitIsWrong(c, n);
    }
  }

  /** For names of at most 64 slots: right exactly when the slots fit path_name and the component does not wrap onto the name. */
  lemma RightForShortNamesIff(c: nat, n: nat)
    requires n / UNITS + 1 <= MAX_SLOTS
    ensures RightFor(c, n) <==> n <= 246 && (c < PATH_NAME || c % PATH_NAME != n)
  {
    RightForIff(c, n);
    StartsAtZeroIff(Ones(n));
    assert SeenLength(n) == n;
  }

  /** A component of 268 bytes is found under the name of its last twelve. */
  lemma WrongNameFound(component: seq<Byte>, name: seq<Byte>)
    requires IsName(component) && IsName(name) && |component| == 268 && |name| == 12 && component[256..] == name
    ensures Outcome(component, name) == Answer(true) && component != name
  {
    StartsAtZeroIff(name);
    assert Seen(name) == name;
    forall k | 0 <= k < SlotCount(name) * UNITS ensures PathByte(component, k) == NameByte(name, k) {
      if k < 12 { assert component[256 + k] == component[256..][k]; }
    }
  }
}
