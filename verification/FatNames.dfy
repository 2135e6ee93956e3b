/**
 Long names on disk: slots as the 32 bytes of a directory entry, stored along the
 directory's cluster chain by the slot-writing loop of fat_create and read back by fat_find.
 */
module FatNames {
  import opened Common
  import opened BlockDevice
  import opened FatLayout
  import opened Fat32
  import L = LongNames

  // ------------------------------------------------------------------ one entry

  /** Little-endian bytes of 16-bit units. */
  function Pack(us: seq<int>): (b: seq<Byte>)
    ensures |b| == 2 * |us|
  {
    if us == [] then [] else [us[0] % 256, us[0] / 256 % 256] + Pack(us[1..])
  }

  function Unpack(b: seq<Byte>): seq<int> {
    if |b| < 2 then [] else [b[0] as int + 256 * b[1] as int] + Unpack(b[2..])
  }

  ghost predicate Words(us: seq<int>) { forall k | 0 <= k < |us| :: 0 <= us[k] < 0x1_0000 }

  lemma {:induction false} UnpackPacked(us: seq<int>)
    requires Words(us)
    ensures Unpack(Pack(us)) == us
  {
    if us != [] {
      UnpackPacked(us[1..]);
      assert Pack(us)[2..] == Pack(us[1..]);
      assert us[0] % 256 + 256 * (us[0] / 256 % 256) == us[0];
    }
  }

  ghost predicate IsSlot(s: L.Slot) {
    s.flags < 256 && |s.lo| == 5 && |s.mid| == 6 && |s.hi| == 2 && Words(s.lo) && Words(s.mid) && Words(s.hi)
  }

  /** The packed bytes of a long_filename_t: flags, five units, attribute, type, checksum, six units, zero, two units. */
  function ToEntry(s: L.Slot, checksum: Byte): (e: seq<Byte>)
    requires |s.lo| == 5 && |s.mid| == 6 && |s.hi| == 2
    ensures |e| == SLOT
  {
    [s.flags % 256] + Pack(s.lo) + [0x0f, 0, checksum] + Pack(s.mid) + [0, 0] + Pack(s.hi)
  }

  function FromEntry(e: seq<Byte>): L.Slot
    requires |e| == SLOT
  {
    L.Slot(e[0], Unpack(e[1..11]), Unpack(e[14..26]), Unpack(e[28..32]))
  }

  lemma {:induction false} PackAt(us: seq<int>, k: nat)
    requires k < |us|
    ensures Pack(us)[2 * k] == us[k] % 256 && Pack(us)[2 * k + 1] == us[k] / 256 % 256
  {
    if k > 0 {
      PackAt(us[1..], k - 1);
    }
  }

  /** Where each part of a slot lies in the 32 bytes; a unit has its low byte first. */
  lemma EntryBytes(s: L.Slot, checksum: Byte, k: nat)
    requires IsSlot(s)
    ensures var e := ToEntry(s, checksum);
            && e[0] == s.flags && e[11] == 0x0f && e[12] == 0 && e[13] == checksum && e[26] == 0 && e[27] == 0
            && (k < 5 ==> e[1 + 2 * k] == s.lo[k] % 256 && e[2 + 2 * k] == s.lo[k] / 256)
            && (k < 6 ==> e[14 + 2 * k] == s.mid[k] % 256 && e[15 + 2 * k] == s.mid[k] / 256)
            && (k < 2 ==> e[28 + 2 * k] == s.hi[k] % 256 && e[29 + 2 * k] == s.hi[k] / 256)
  {
    hide Pack;
    if k < 5 { PackAt(s.lo, k); }
    if k < 6 { PackAt(s.mid, k); }
    if k < 2 { PackAt(s.hi, k); }
  }

  /** Reading an entry's bytes gives the slot that was packed into them. */
  lemma EntryRoundTrip(s: L.Slot, checksum: Byte)
    requires IsSlot(s)
    ensures FromEntry(ToEntry(s, checksum)) == s
  {
    hide Pack, Unpack;
    var e := ToEntry(s, checksum);
    assert e[1..11] == Pack(s.lo) && e[14..26] == Pack(s.mid) && e[28..32] == Pack(s.hi);
    UnpackPacked(s.lo);
    UnpackPacked(s.mid);
    UnpackPacked(s.hi);
  }

  lemma {:induction false} PlacementIsByte(i: nat, len: nat)
    ensures L.Placement(i, len) < 256
  {
    if i > 0 { PlacementIsByte(i - 1, len); }
  }

  lemma SlotOfName(name: seq<Byte>, i: nat)
    ensures IsSlot(L.SlotOf(name, i))
  {
    PlacementIsByte(i, L.SlotCount(name));
  }

  // ----------------------------------------------------------------- a directory

  /** The slots of a directory's bytes. */
  function SlotsOf(data: seq<Byte>): (r: seq<L.Slot>)
    ensures |r| == |data| / SLOT
  {
    seq(|data| / SLOT, k requires 0 <= k < |data| / SLOT => FromEntry(Slot(data, k)))
  }

  ghost predicate EntryStored(was: seq<Byte>, data: seq<Byte>, index: nat, name: seq<Byte>, checksum: Byte, i: nat, n: nat)
    requires |data| == |was| && n < |data| / SLOT
  {
    var len := L.SlotCount(name);
    Slot(data, n) == if index + len - i <= n < index + len then ToEntry(L.SlotOf(name, index + len - 1 - n), checksum) else Slot(was, n)
  }

  /** The first i slots of the name are stored; every other entry is as it was. */
  ghost predicate StoredSoFar(was: seq<Byte>, data: seq<Byte>, index: nat, name: seq<Byte>, checksum: Byte, i: nat) {
    && |data| == |was| && i <= L.SlotCount(name) && (index + L.SlotCount(name)) * SLOT <= |data|
    && forall n: nat | n < |data| / SLOT :: EntryStored(was, data, index, name, checksum, i, n)
  }

  lemma StoredEncodes(was: seq<Byte>, data: seq<Byte>, index: nat, name: seq<Byte>, checksum: Byte)
    requires StoredSoFar(was, data, index, name, checksum, L.SlotCount(name))
    ensures L.Encodes(SlotsOf(data), index, name)
  {
    hide ToEntry, FromEntry, Slot;
    var len := L.SlotCount(name);
    forall n: nat | index <= n < index + len ensures SlotsOf(data)[n] == L.SlotOf(name, index + len - 1 - n) {
      assert EntryStored(was, data, index, name, checksum, len, n);
      SlotOfName(name, index + len - 1 - n);
      EntryRoundTrip(L.SlotOf(name, index + len - 1 - n), checksum);
    }
  }

  lemma StoreNext(was: seq<Byte>, data: seq<Byte>, index: nat, name: seq<Byte>, checksum: Byte, i: nat, data': seq<Byte>)
    requires StoredSoFar(was, data, index, name, checksum, i) && i < L.SlotCount(name)
    requires var at := index + L.SlotCount(name) - 1 - i;
             at * SLOT + SLOT <= |data| == |data'| && data' == Overwrite(data, at * SLOT, ToEntry(L.SlotOf(name, i), checksum))
    ensures StoredSoFar(was, data', index, name, checksum, i + 1)
  {
    hide EntryStored, L.SlotOf, ToEntry, Overwrite;
    var next := i + 1;
    forall n: nat | n < |data| / SLOT ensures EntryStored(was, data', index, name, checksum, next, n) {
      assert EntryStored(was, data, index, name, checksum, i, n);
      StoreNextAt(was, data, index, name, checksum, i, data', n);
    }
  }

  lemma StoreNextAt(was: seq<Byte>, data: seq<Byte>, index: nat, name: seq<Byte>, checksum: Byte, i: nat, data': seq<Byte>, n: nat)
    requires |data| == |was| && n < |data| / SLOT && i < L.SlotCount(name)
    requires EntryStored(was, data, index, name, checksum, i, n)
    requires var at := index + L.SlotCount(name) - 1 - i;
             at * SLOT + SLOT <= |data| == |data'| && data' == Overwrite(data, at * SLOT, ToEntry(L.SlotOf(name, i), checksum))
    ensures EntryStored(was, data', index, name, checksum, i + 1, n)
  {
    hide Slot, ToEntry, Overwrite, Pack, L.SlotOf, L.SlotCount, L.Placement, L.UnitsFrom, L.Unit;
    SlotOfName(name, i);
    var entry := ToEntry(L.SlotOf(name, i), checksum);
    SlotOverwritten(data, index + L.SlotCount(name) - 1 - i, entry, n);
  }

  // ------------------------------------------------------------- on the volume

  function FirstCluster(v: Volume, directory: nat): nat { if directory == 0 then v.rootCluster else directory }

  /** The directory's chain is in place and holds the given bytes. */
  ghost predicate Holds(v: Volume, disk: seq<Byte>, first: nat, chain: seq<nat>, data: seq<Byte>) {
    && IsChain(v, disk, first, chain) && ClustersFit(v, |disk|, chain)
    && |data| == |chain| * v.ClusterBytes() && ChainData(v, disk, chain) == data
  }

  lemma HeldData(v: Volume, disk: seq<Byte>, first: nat, chain: seq<nat>)
    requires IsChain(v, disk, first, chain)
    ensures ClustersFit(v, |disk|, chain) && Holds(v, disk, first, chain, ChainData(v, disk, chain))
  {
    hide IsChain, ChainData;
    ChainFits(v, disk, first, chain);
    ChainDataLength(v, disk, chain);
  }

  lemma HeldAfterStore(v: Volume, disk: seq<Byte>, first: nat, chain: seq<nat>, was: seq<Byte>, data: seq<Byte>)
    requires v.Valid() && Holds(v, disk, first, chain, was) && |data| == |was|
    ensures Holds(v, StoreChain(v, disk, chain, data), first, chain, data)
  {
    hide IsChain, ChainData, StoreChain;
    ChainRoundTrip(v, disk, first, chain, data);
  }

  /**
   The slot-writing loop of fat_create on the disk: afterwards the directory's bytes encode
   the name, and every other entry of the directory is as it was.
   */
  method StoreName(fs: FatVolume, directory: nat, index: nat, name: seq<Byte>, checksum: Byte, ghost chain: seq<nat>)
    returns (r: SlotWrite)
    requires fs.Valid() && L.IsName(name) && IsChain(fs.vol, fs.dev.disk[..], FirstCluster(fs.vol, directory), chain)
    requires (index + L.SlotCount(name)) * SLOT <= |chain| * fs.vol.ClusterBytes()
    modifies fs.dev.disk
    ensures r == if fs.ScratchOverrun(chain) then PastScratch else Stored
    ensures ClustersFit(fs.vol, fs.dev.disk.Length, chain)
    ensures r.Stored? ==>
      var was, data := ChainData(fs.vol, old(fs.dev.disk[..]), chain), ChainData(fs.vol, fs.dev.disk[..], chain);
      && Holds(fs.vol, fs.dev.disk[..], FirstCluster(fs.vol, directory), chain, data)
      && StoredSoFar(was, data, index, name, checksum, L.SlotCount(name)) && L.Encodes(SlotsOf(data), index, name)
  {
    hide IsChain, ChainData, StoreChain, ClustersFit, Slot, ToEntry, Overwrite, L.SlotOf, L.IsName, L.NextPlacement, L.Placement;
    ghost var v, first := fs.vol, FirstCluster(fs.vol, directory);
    HeldData(v, fs.dev.disk[..], first, chain);
    ghost var was := ChainData(v, fs.dev.disk[..], chain);
    ghost var data := was;
    var len := |name| / L.UNITS + 1;
    var placement: nat, pos: nat, done := 1, 0, false;
    var i := 0;
    NothingStored(was, index, name, checksum);
    FirstPlacement(len);
    while i < len
      invariant i <= len == L.SlotCount(name) && placement == L.Placement(i, len)
      invariant (done <==> L.UNITS * i > |name|) && (!done ==> pos == L.UNITS * i)
      invariant Holds(v, fs.dev.disk[..], first, chain, data) && StoredSoFar(was, data, index, name, checksum, i)
      invariant fs.ScratchOverrun(chain) ==> i == 0
    {
      var slot;
      slot, pos, done := L.EncodeSlot(name, i, pos, done, placement);
      SlotOfName(name, i);
      ghost var disk := fs.dev.disk[..];
      var at := index + len - 1 - i;
      r := fs.SetDirEntry(directory, at, ToEntry(slot, checksum), chain);
      if r.PastScratch? {
        return;
      }
      ghost var next := Overwrite(data, at * SLOT, ToEntry(slot, checksum));
      OverwriteLength(data, at * SLOT, ToEntry(slot, checksum));
      HeldAfterStore(v, disk, first, chain, data, next);
      StoreNext(was, data, index, name, checksum, i, next);
      data := next;
      placement := L.NextPlacement(placement, len);
      NextIs(i, len);
      i := i + 1;
    }
    StoredEncodes(was, data, index, name, checksum);
    r := Stored;
  }

  lemma NothingStored(was: seq<Byte>, index: nat, name: seq<Byte>, checksum: Byte)
    requires (index + L.SlotCount(name)) * SLOT <= |was|
    ensures StoredSoFar(was, was, index, name, checksum, 0)
  {
  }

  lemma FirstPlacement(len: nat)
    ensures L.Placement(0, len) == 1
  {
  }

  lemma NextIs(i: nat, len: nat)
    ensures L.Placement(i + 1, len) == L.NextPlacement(L.Placement(i, len), len)
  {
  }

  lemma OverwriteLength(s: seq<Byte>, start: nat, data: seq<Byte>)
    requires start + |data| <= |s|
    ensures |Overwrite(s, start, data)| == |s|
  {
  }

  datatype Found = PastScratchBuffer | Compared(result: L.Lookup)

  /** The slots of a buffer, entry by entry. */
  method ReadSlots(data: seq<Byte>) returns (dir: seq<L.Slot>)
    ensures dir == SlotsOf(data)
  {
    hide FromEntry;
    dir := [];
    var k := 0;
    while k < |data| / SLOT
      invariant k <= |data| / SLOT && dir == SlotsOf(data)[..k]
    {
      dir := dir + [FromEntry(Slot(data, k))];
      k := k + 1;
    }
    assert SlotsOf(data)[..|data| / SLOT] == SlotsOf(data);
  }

  /** fat_find's reading of the directory along its chain; None when the scratch buffer is overrun. */
  method ReadDirectory(fs: FatVolume, directory: nat, ghost chain: seq<nat>) returns (data: Option<seq<Byte>>)
    requires fs.Valid() && IsChain(fs.vol, fs.dev.disk[..], FirstCluster(fs.vol, directory), chain)
    requires ClustersFit(fs.vol, fs.dev.disk.Length, chain)
    ensures data == if fs.ScratchOverrun(chain) then None else Some(ChainData(fs.vol, fs.dev.disk[..], chain))
  {
    hide IsChain, ChainData, ClustersFit;
    var first := FirstCluster(fs.vol, directory);
    HeldData(fs.vol, fs.dev.disk[..], first, chain);
    var length := fs.ChainLength(first, chain);
    if length.None? {
      return None;
    }
    var size := length.value * fs.vol.clusterSize * 512;
    assert size == |chain| * fs.vol.ClusterBytes();
    var buffer := new Byte[size];
    OverwriteAll(buffer[..], ChainData(fs.vol, fs.dev.disk[..], chain));
    fs.ReadClusterChain(buffer, first, chain);
    return Some(buffer[..]);
  }

  /** fat_find's reading of the directory and its comparison at entry `index`. */
  method FindName(fs: FatVolume, directory: nat, index: nat, component: seq<Byte>, ghost chain: seq<nat>, ghost name: seq<Byte>)
    returns (r: Found)
    requires fs.Valid() && IsChain(fs.vol, fs.dev.disk[..], FirstCluster(fs.vol, directory), chain)
    requires L.IsName(name) && L.IsName(component) && ClustersFit(fs.vol, fs.dev.disk.Length, chain)
    requires L.Encodes(SlotsOf(ChainData(fs.vol, fs.dev.disk[..], chain)), index, name)
    ensures r == if fs.ScratchOverrun(chain) then PastScratchBuffer else Compared(L.Outcome(component, name))
  {
    hide IsChain, ChainData, ClustersFit, SlotsOf, L.Encodes, L.IsName, L.Outcome;
    var data := ReadDirectory(fs, directory, chain);
    if data.None? {
      return PastScratchBuffer;
    }
    var dir := ReadSlots(data.value);
    var result := L.LookUp(dir, index, component, name);
    return Compared(result);
  }

  lemma OverwriteAll(s: seq<Byte>, data: seq<Byte>)
    requires |s| == |data|
    ensures Overwrite(s, 0, data) == data
  {
  }

  /** A name stored by the slot-writing loop compares, from the bytes on the disk, exactly as Outcome says. */
  method StoreThenFind(fs: FatVolume, directory: nat, index: nat, name: seq<Byte>, checksum: Byte, component: seq<Byte>, ghost chain: seq<nat>)
    returns (r: Found)
    requires fs.Valid() && L.IsName(name) && L.IsName(component)
    requires IsChain(fs.vol, fs.dev.disk[..], FirstCluster(fs.vol, directory), chain)
    requires (index + L.SlotCount(name)) * SLOT <= |chain| * fs.vol.ClusterBytes()
    modifies fs.dev.disk
    ensures r == if fs.ScratchOverrun(chain) then PastScratchBuffer else Compared(L.Outcome(component, name))
  {
    hide IsChain, ChainData, ClustersFit, SlotsOf, StoredSoFar, L.Encodes, L.IsName, L.Outcome;
    var w := StoreName(fs, directory, index, name, checksum, chain);
    if w.PastScratch? {
      return PastScratchBuffer;
    }
    r := FindName(fs, directory, index, component, chain, name);
  }
}
