/** Chain reads and writes and directory slots on a FAT32 volume, sector by sector. */
module Fat32 {
  import opened Common
  import opened BlockDevice
  import opened FatLayout

  const SLOT := 32 // sizeof(dir_entry_t)

  /** What fat_set_dir_entry does; the two Past cases store outside the buffer they have allocated. */
  datatype SlotWrite = PastScratch | Ignored | PastBuffer | Stored

  class FatVolume {
    const vol: Volume
    const dev: BlockDevice

    constructor (vol: Volume, dev: BlockDevice)
      requires vol.Valid() && dev.Valid() && dev.blockSize == SECTOR
      ensures Valid() && this.vol == vol && this.dev == dev
    {
      this.vol := vol;
      this.dev := dev;
    }

    ghost predicate Valid() { vol.Valid() && dev.Valid() && dev.blockSize == SECTOR }

    /** fat_get_next_cluster */
    method GetNextCluster(c: nat) returns (next: nat)
      requires Valid() && OnVolume(vol, dev.disk.Length, c)
      ensures next == Next(vol, dev.disk[..], c)
    {
      SectorInside(vol, dev.disk.Length, c);
      var fatSector := vol.reserved + c * 4 / SECTOR;
      var buf := ReadSector(fatSector);
      EntryInSector(vol, dev.disk[..], c, buf[..]);
      hide Next, Word28;
      var at := c * 4 % SECTOR;
      next := Word28(buf[at], buf[at + 1], buf[at + 2], buf[at + 3]);
    }

    method ReadSector(sector: nat) returns (buf: array<Byte>)
      requires Valid() && sector * SECTOR + SECTOR <= dev.disk.Length
      ensures fresh(buf) && buf[..] == dev.disk[..][sector * SECTOR..sector * SECTOR + SECTOR]
    {
      buf := new Byte[SECTOR](_ => 0);
      dev.ReadBlocks(sector, 1, buf, 0);
    }

    /** fat_read_cluster */
    method ReadCluster(buffer: array<Byte>, at: nat, c: nat) returns (next: nat)
      requires Valid() && OnVolume(vol, dev.disk.Length, c) && buffer != dev.disk && at + vol.ClusterBytes() <= buffer.Length
      modifies buffer
      ensures buffer[..] == Overwrite(old(buffer[..]), at, ClusterData(vol, dev.disk[..], c))
      ensures next == Next(vol, dev.disk[..], c)
    {
      dev.ReadBlocks(ClusterToSector(vol, c), vol.clusterSize, buffer, at);
      next := GetNextCluster(c);
    }

    /** fat_read_cluster_chain: the buffer receives the chain's bytes in order. */
    method ReadClusterChain(buffer: array<Byte>, first: nat, ghost chain: seq<nat>)
      requires Valid() && IsChain(vol, dev.disk[..], first, chain) && buffer != dev.disk
      requires |chain| * vol.ClusterBytes() <= buffer.Length
      modifies buffer
      ensures ClustersFit(vol, dev.disk.Length, chain) && |ChainData(vol, dev.disk[..], chain)| == |chain| * vol.ClusterBytes()
      ensures buffer[..] == Overwrite(old(buffer[..]), 0, ChainData(vol, dev.disk[..], chain))
    {
      hide Overwrite, ChainData, IsChain, ReadSoFar, ClusterData, OnVolume, Next;
      ghost var d, was := dev.disk[..], buffer[..];
      ReadStarts(vol, d, chain, was, first);
      var cluster: nat, at: nat := first, 0;
      ghost var n := 0;
      while cluster >= 2 && cluster < CHAIN_END
        invariant n <= |chain| && ReadSoFar(vol, dev.disk[..], chain, was, buffer[..], cluster, n, at) && dev.disk[..] == d
        decreases |chain| - n
      {
        ReadContinues(vol, d, chain, was, buffer[..], cluster, n, at);
        cluster := ReadCluster(buffer, at, cluster);
        at := at + vol.clusterSize * 512;
        n := n + 1;
      }
      ReadEnds(vol, d, chain, was, buffer[..], cluster, n, at);
    }

    /** fat_write_cluster */
    method WriteCluster(buffer: array<Byte>, at: nat, c: nat) returns (next: nat)
      requires Valid() && OnVolume(vol, dev.disk.Length, c) && buffer != dev.disk && at + vol.ClusterBytes() <= buffer.Length
      modifies dev.disk
      ensures dev.disk[..] == Overwrite(old(dev.disk[..]), ClusterStart(vol, c), buffer[..][at..at + vol.ClusterBytes()])
      ensures next == Next(vol, dev.disk[..], c)
    {
      dev.WriteBlocks(ClusterToSector(vol, c), vol.clusterSize, buffer, at);
      next := GetNextCluster(c);
    }

    /** fat_write_cluster_chain: the chain's clusters receive the buffer in order. */
    method WriteClusterChain(buffer: array<Byte>, first: nat, ghost chain: seq<nat>)
      requires Valid() && IsChain(vol, dev.disk[..], first, chain) && buffer != dev.disk
      requires |chain| * vol.ClusterBytes() <= buffer.Length
      modifies dev.disk
      ensures ClustersFit(vol, dev.disk.Length, chain)
      ensures dev.disk[..] == StoreChain(vol, old(dev.disk[..]), chain, buffer[..][..|chain| * vol.ClusterBytes()])
    {
      hide Overwrite, StoreChain, IsChain, WroteSoFar, OnVolume, Next, ClusterStart;
      ghost var was, all := dev.disk[..], buffer[..];
      ghost var data := all[..|chain| * vol.ClusterBytes()];
      WriteStarts(vol, was, chain, data, first);
      var cluster: nat, at: nat := first, 0;
      ghost var n := 0;
      while cluster >= 2 && cluster < CHAIN_END
        invariant n <= |chain| && WroteSoFar(vol, was, chain, data, dev.disk[..], cluster, n, at) && buffer[..] == all
        decreases |chain| - n
      {
        WriteContinues(vol, was, chain, data, dev.disk[..], cluster, n, at);
        assert data[at..at + vol.ClusterBytes()] == all[at..at + vol.ClusterBytes()];
        cluster := WriteCluster(buffer, at, cluster);
        at := at + vol.clusterSize * 512;
        n := n + 1;
      }
      WriteEnds(vol, was, chain, data, dev.disk[..], cluster, n, at);
    }

    /** The scratch buffer of fat_chain_cluster_length holds one sector, but whole clusters are read into it. */
    ghost predicate ScratchOverrun(chain: seq<nat>) { vol.clusterSize > 1 && chain != [] }

    /** fat_chain_cluster_length; None when the first read runs past the scratch buffer. */
    method ChainLength(first: nat, ghost chain: seq<nat>) returns (length: Option<nat>)
      requires Valid() && IsChain(vol, dev.disk[..], first, chain)
      ensures length == if ScratchOverrun(chain) then None else Some(|chain|)
    {
      hide ChainData, ClusterData, Overwrite;
      ghost var d := dev.disk[..];
      ChainFits(vol, d, first, chain);
      var buffer := new Byte[SECTOR];
      var count := 0;
      var cluster: nat := first;
      assert chain[0..] == chain;
      while cluster >= 2 && cluster < CHAIN_END
        invariant count <= |chain| && IsChain(vol, d, cluster, chain[count..]) && dev.disk[..] == d && fresh(buffer)
        invariant vol.clusterSize > 1 ==> count == 0
        decreases |chain| - count
      {
        ChainStep(vol, d, cluster, chain, count);
        if vol.clusterSize * SECTOR > buffer.Length {
          return None;
        }
        cluster := ReadCluster(buffer, 0, cluster);
        count := count + 1;
      }
      return Some(count);
    }

    /**
     fat_set_dir_entry.  With one-sector clusters, below the slot count it replaces exactly
     slot `index` of the directory; above it nothing happens; at the count the store is past
     the buffer.  With larger clusters, counting the chain already runs past its scratch buffer.
     */
    method SetDirEntry(directory0: nat, index: nat, entry: seq<Byte>, ghost chain: seq<nat>) returns (r: SlotWrite)
      requires Valid() && |entry| == SLOT
      requires IsChain(vol, dev.disk[..], if directory0 == 0 then vol.rootCluster else directory0, chain)
      modifies dev.disk
      ensures ClustersFit(vol, dev.disk.Length, chain)
      ensures r.PastScratch? <==> ScratchOverrun(chain)
      ensures r.Ignored? <==> !ScratchOverrun(chain) && index > |chain| * vol.ClusterBytes() / SLOT
      ensures r.PastBuffer? <==> !ScratchOverrun(chain) && index == |chain| * vol.ClusterBytes() / SLOT
      ensures !r.Stored? ==> dev.disk[..] == old(dev.disk[..])
      ensures r.Stored? ==>
        var was := ChainData(vol, old(dev.disk[..]), chain);
        && |was| == |chain| * vol.ClusterBytes() && index * SLOT + SLOT <= |was|
        && dev.disk[..] == StoreChain(vol, old(dev.disk[..]), chain, Overwrite(was, index * SLOT, entry))
    {
      hide StoreChain, IsChain, ChainData, ClusterStart;
      var directory := directory0;
      if directory == 0 {
        directory := vol.rootCluster;
      }
      ChainFits(vol, dev.disk[..], directory, chain);
      ChainDataLength(vol, dev.disk[..], chain);
      var length := ChainLength(directory, chain);
      if length.None? {
        return PastScratch;
      }
      var size := length.value * vol.clusterSize * 512;
      assert size == |chain| * vol.ClusterBytes();
      if index > size / SLOT {
        return Ignored;
      }
      if index == size / SLOT {
        return PastBuffer;
      }
      var entries := new Byte[size](_ => 0);
      ReadClusterChain(entries, directory, chain);
      ghost var was := ChainData(vol, dev.disk[..], chain);
      assert entries[..] == was;
      StoreBytes(entries, index * SLOT, entry);
      assert entries[..][..size] == entries[..];
      WriteClusterChain(entries, directory, chain);
      r := Stored;
    }

    method StoreBytes(buf: array<Byte>, at: nat, data: seq<Byte>)
      requires at + |data| <= buf.Length
      modifies buf
      ensures buf[..] == Overwrite(old(buf[..]), at, data)
    {
      forall i | 0 <= i < |data| {
        buf[at + i] := data[i];
      }
    }
  }

  /** Slot k of a directory's bytes. */
  function Slot(data: seq<Byte>, k: nat): seq<Byte>
    requires k * SLOT + SLOT <= |data|
  {
    data[k * SLOT..k * SLOT + SLOT]
  }

  /** Storing one slot along the directory's chain changes that slot and no other. */
  lemma SlotStored(v: Volume, disk: seq<Byte>, first: nat, chain: seq<nat>, index: nat, entry: seq<Byte>, k: nat)
    requires v.Valid() && IsChain(v, disk, first, chain) && |entry| == SLOT
    requires ClustersFit(v, |disk|, chain) && |ChainData(v, disk, chain)| == |chain| * v.ClusterBytes()
    requires index * SLOT + SLOT <= |chain| * v.ClusterBytes() && k * SLOT + SLOT <= |chain| * v.ClusterBytes()
    ensures var was := ChainData(v, disk, chain);
            var d := StoreChain(v, disk, chain, Overwrite(was, index * SLOT, entry));
            |ChainData(v, d, chain)| == |was| && Slot(ChainData(v, d, chain), k) == if k == index then entry else Slot(was, k)
  {
    hide ChainData, StoreChain, IsChain, ClusterStart;
    var was := ChainData(v, disk, chain);
    ChainRoundTrip(v, disk, first, chain, Overwrite(was, index * SLOT, entry));
    SlotOverwritten(was, index, entry, k);
  }

  lemma SlotOverwritten(data: seq<Byte>, index: nat, entry: seq<Byte>, k: nat)
    requires |entry| == SLOT && index * SLOT + SLOT <= |data| && k * SLOT + SLOT <= |data|
    ensures Slot(Overwrite(data, index * SLOT, entry), k) == if k == index then entry else Slot(data, k)
  {
  }
}
