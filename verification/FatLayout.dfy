/** A FAT32 volume as bytes: where clusters and FAT entries lie, and what a chain is. */
module FatLayout {
  import opened Common
  import opened BlockDevice

  const SECTOR := 512
  const CHAIN_END := 0xffffff7 // clusters from here on end a chain, as do 0 and 1

  /** The boot-record fields the chain code uses; cluster and table sizes are in sectors. */
  datatype Volume = Volume(clusterSize: nat, reserved: nat, tableCount: nat, tableSize: nat, rootCluster: nat) {
    function ClusterBytes(): nat { clusterSize * SECTOR }

    /** First sector after the FATs. */
    function DataSector(): nat { reserved + tableCount * tableSize }

    function DataStart(): nat { DataSector() * SECTOR }

    ghost predicate Valid() { clusterSize > 0 && tableCount > 0 }
  }

  /** fat_cluster_to_sector */
  function ClusterToSector(v: Volume, c: nat): nat
    requires 2 <= c
  {
    (c - 2) * v.clusterSize + v.reserved + v.tableCount * v.tableSize
  }

  function ClusterStart(v: Volume, c: nat): nat
    requires 2 <= c
  {
    ClusterToSector(v, c) * SECTOR
  }

  /** Byte address of a cluster's entry in the first FAT. */
  function EntryStart(v: Volume, c: nat): nat { v.reserved * SECTOR + c * 4 }

  predicate Ends(c: nat) { c < 2 || c >= CHAIN_END }

  /** The cluster's data and its FAT entry lie on the volume. */
  ghost predicate OnVolume(v: Volume, total: nat, c: nat) {
    2 <= c < v.tableSize * (SECTOR / 4) && ClusterStart(v, c) + v.ClusterBytes() <= total
  }

  // -------------------------------------------------------------- cluster geometry

  lemma MulMono(a: nat, b: nat, k: nat)
    requires a < b
    ensures a * k + k <= b * k
  {
    assert (b - a) * k == b * k - a * k;
    if k > 0 { MulBound(b - a, k); }
  }

  lemma ClusterStartIs(v: Volume, c: nat)
    requires 2 <= c
    ensures ClusterStart(v, c) == v.DataStart() + (c - 2) * v.ClusterBytes()
    ensures ClusterStart(v, c) >= v.DataStart()
  {
  }

  /** Different clusters occupy different bytes. */
  lemma ClustersApart(v: Volume, c: nat, d: nat)
    requires 2 <= c && 2 <= d && c != d
    ensures ClusterStart(v, c) + v.ClusterBytes() <= ClusterStart(v, d) || ClusterStart(v, d) + v.ClusterBytes() <= ClusterStart(v, c)
  {
    ClusterStartIs(v, c);
    ClusterStartIs(v, d);
    if c < d { MulMono(c - 2, d - 2, v.ClusterBytes()); } else { MulMono(d - 2, c - 2, v.ClusterBytes()); }
  }

  /** FAT entries lie before every cluster. */
  lemma EntryBeforeData(v: Volume, total: nat, c: nat)
    requires v.Valid() && OnVolume(v, total, c)
    ensures EntryStart(v, c) + 4 <= v.DataStart() <= total
  {
    hide ClusterStart, Volume.DataStart, Volume.ClusterBytes;
    DataInside(v, total, c);
    TablesBeforeData(v);
    assert c + 1 <= v.tableSize * 128;
  }

  lemma DataInside(v: Volume, total: nat, c: nat)
    requires OnVolume(v, total, c)
    ensures v.DataStart() <= total
  {
    hide ClusterStart, Volume.DataStart, Volume.ClusterBytes;
    ClusterStartIs(v, c);
  }

  lemma TablesBeforeData(v: Volume)
    requires v.Valid()
    ensures v.reserved * SECTOR + v.tableSize * SECTOR <= v.DataStart()
  {
    MulMono(0, v.tableCount, v.tableSize);
    assert v.DataStart() == v.reserved * SECTOR + v.tableCount * v.tableSize * SECTOR;
  }

  // ----------------------------------------------------------------------- chains

  /** A 32-bit little-endian word with its top four bits cleared. */
  function Word28(b0: Byte, b1: Byte, b2: Byte, b3: Byte): nat {
    (b0 + 0x100 * b1 + 0x1_0000 * b2 + 0x100_0000 * b3) % 0x1000_0000
  }

  function Next(v: Volume, disk: seq<Byte>, c: nat): nat {
    var a := EntryStart(v, c);
    if a + 4 <= |disk| then Word28(disk[a], disk[a + 1], disk[a + 2], disk[a + 3]) else 0
  }

  /** The disk holds the 32-bit number n, least significant byte first, as the FAT entry of cluster c. */
  ghost predicate EntryHolds(v: Volume, disk: seq<Byte>, c: nat, n: nat) {
    var a := 512 * v.reserved + 4 * c;
    && n < 0x1_0000_0000 && a + 4 <= |disk|
    && disk[a] == n % 256 && disk[a + 1] == n / 256 % 256 && disk[a + 2] == n / 65536 % 256 && disk[a + 3] == n / 16777216
  }

  lemma WordOfBytes(n: nat)
    requires n < 0x1_0000_0000
    ensures Word28(n % 256, n / 256 % 256, n / 65536 % 256, n / 16777216) == n % 0x1000_0000
  {
    var a, b, c := n / 256, n / 65536, n / 16777216;
    assert a / 256 == b && b / 256 == c;
  }

  /** The next cluster is the number the entry holds, its top four bits cleared. */
  lemma NextReads(v: Volume, disk: seq<Byte>, c: nat, n: nat)
    requires EntryHolds(v, disk, c, n)
    ensures Next(v, disk, c) == n % 0x1000_0000
  {
    hide Word28;
    WordOfBytes(n);
  }

  /** A chain goes on after a cluster exactly when its entry holds a cluster number from 2 up to the end marks. */
  lemma EndMarkEnds(v: Volume, disk: seq<Byte>, c: nat, n: nat)
    requires EntryHolds(v, disk, c, n) && !Ends(c) && OnVolume(v, |disk|, c)
    ensures IsChain(v, disk, c, [c]) <==> n % 0x1000_0000 < 2 || 0xffffff7 <= n % 0x1000_0000
  {
    hide Word28, OnVolume;
    NextReads(v, disk, c, n);
    ChainOfOne(v, disk, c);
  }

  lemma ChainOfOne(v: Volume, disk: seq<Byte>, c: nat)
    requires !Ends(c) && OnVolume(v, |disk|, c)
    ensures IsChain(v, disk, c, [c]) <==> Ends(Next(v, disk, c))
  {
    hide OnVolume, Next;
    assert [c][1..] == [];
  }

  /** chain lists the clusters from c on, in order, up to the end mark. */
  ghost predicate IsChain(v: Volume, disk: seq<Byte>, c: nat, chain: seq<nat>)
    decreases |chain|
  {
    if Ends(c) then chain == []
    else
      && chain != [] && chain[0] == c && OnVolume(v, |disk|, c)
      && IsChain(v, disk, Next(v, disk, c), chain[1..])
  }

  lemma {:induction false} ChainUnique(v: Volume, disk: seq<Byte>, c: nat, a: seq<nat>, b: seq<nat>)
    requires IsChain(v, disk, c, a) && IsChain(v, disk, c, b)
    ensures a == b
    decreases |a|
  {
    if !Ends(c) {
      ChainUnique(v, disk, Next(v, disk, c), a[1..], b[1..]);
      assert a == [a[0]] + a[1..] && b == [b[0]] + b[1..];
    }
  }

  lemma {:induction false} ChainSuffix(v: Volume, disk: seq<Byte>, c: nat, chain: seq<nat>, i: nat)
    requires IsChain(v, disk, c, chain) && i < |chain|
    ensures IsChain(v, disk, chain[i], chain[i..]) && !Ends(chain[i]) && OnVolume(v, |disk|, chain[i])
    decreases i
  {
    if i == 0 {
      assert chain[0..] == chain;
    } else {
      ChainSuffix(v, disk, Next(v, disk, c), chain[1..], i - 1);
      assert chain[1..][i - 1..] == chain[i..];
    }
  }

  /** A chain that reaches its end never visits a cluster twice. */
  lemma ChainDistinct(v: Volume, disk: seq<Byte>, c: nat, chain: seq<nat>, i: nat, j: nat)
    requires IsChain(v, disk, c, chain) && i < j < |chain|
    ensures chain[i] != chain[j]
  {
    ChainSuffix(v, disk, c, chain, i);
    ChainSuffix(v, disk, c, chain, j);
    if chain[i] == chain[j] { ChainUnique(v, disk, chain[i], chain[i..], chain[j..]); }
  }

  /** Chains depend on the bytes before the first cluster only. */
  lemma {:induction false} ChainFollowsFat(v: Volume, disk: seq<Byte>, disk': seq<Byte>, c: nat, chain: seq<nat>)
    requires v.Valid() && IsChain(v, disk, c, chain) && |disk'| == |disk|
    requires forall a | 0 <= a < v.DataStart() && a < |disk| :: disk'[a] == disk[a]
    ensures IsChain(v, disk', c, chain)
    decreases |chain|
  {
    if !Ends(c) {
      EntryBeforeData(v, |disk|, c);
      assert Next(v, disk', c) == Next(v, disk, c);
      ChainFollowsFat(v, disk, disk', Next(v, disk, c), chain[1..]);
    }
  }

  // ------------------------------------------------------------------ chain contents

  function ClusterData(v: Volume, disk: seq<Byte>, c: nat): (r: seq<Byte>)
    requires 2 <= c && ClusterStart(v, c) + v.ClusterBytes() <= |disk|
    ensures |r| == v.ClusterBytes()
  {
    disk[ClusterStart(v, c)..ClusterStart(v, c) + v.ClusterBytes()]
  }

  ghost predicate ClustersFit(v: Volume, total: nat, chain: seq<nat>) {
    forall i | 0 <= i < |chain| :: 2 <= chain[i] && ClusterStart(v, chain[i]) + v.ClusterBytes() <= total
  }

  /** The bytes of a chain, cluster after cluster. */
  function ChainData(v: Volume, disk: seq<Byte>, chain: seq<nat>): seq<Byte>
    requires ClustersFit(v, |disk|, chain)
  {
    if chain == [] then []
    else ChainData(v, disk, chain[..|chain| - 1]) + ClusterData(v, disk, chain[|chain| - 1])
  }

  /** The disk after data is stored along a chain, cluster after cluster. */
  function StoreChain(v: Volume, disk: seq<Byte>, chain: seq<nat>, data: seq<Byte>): (r: seq<Byte>)
    requires ClustersFit(v, |disk|, chain) && |data| == |chain| * v.ClusterBytes()
    ensures |r| == |disk|
  {
    if chain == [] then disk
    else
      var n := |chain| - 1;
      var cut := n * v.ClusterBytes();
      assert |data| - cut == v.ClusterBytes();
      Overwrite(StoreChain(v, disk, chain[..n], data[..cut]), ClusterStart(v, chain[n]), data[cut..])
  }

  lemma {:induction false} ChainDataLength(v: Volume, disk: seq<Byte>, chain: seq<nat>)
    requires ClustersFit(v, |disk|, chain)
    ensures |ChainData(v, disk, chain)| == |chain| * v.ClusterBytes()
  {
    if chain != [] { ChainDataLength(v, disk, chain[..|chain| - 1]); }
  }

  ghost predicate InChain(v: Volume, chain: seq<nat>, a: nat) {
    exists i :: 0 <= i < |chain| && 2 <= chain[i] && ClusterStart(v, chain[i]) <= a < ClusterStart(v, chain[i]) + v.ClusterBytes()
  }

  lemma OverwriteAt(s: seq<Byte>, start: nat, data: seq<Byte>, a: nat)
    requires start + |data| <= |s| && a < |s| && !(start <= a < start + |data|)
    ensures Overwrite(s, start, data)[a] == s[a]
  {
  }

  lemma OutsidePrefix(v: Volume, chain: seq<nat>, a: nat)
    requires !InChain(v, chain, a) && chain != [] && 2 <= chain[|chain| - 1]
    ensures !InChain(v, chain[..|chain| - 1], a)
    ensures !(ClusterStart(v, chain[|chain| - 1]) <= a < ClusterStart(v, chain[|chain| - 1]) + v.ClusterBytes())
  {
  }

  /** Storing along a chain changes no byte outside the chain's clusters. */
  lemma {:induction false} StoreKeepsOutside(v: Volume, disk: seq<Byte>, chain: seq<nat>, data: seq<Byte>, a: nat)
    requires ClustersFit(v, |disk|, chain) && |data| == |chain| * v.ClusterBytes()
    requires a < |disk| && !InChain(v, chain, a)
    ensures StoreChain(v, disk, chain, data)[a] == disk[a]
  {
    hide ClusterStart, InChain, Overwrite;
    if chain != [] {
      var n, cut := |chain| - 1, (|chain| - 1) * v.ClusterBytes();
      MulMono(n, |chain|, v.ClusterBytes());
      OutsidePrefix(v, chain, a);
      StoreKeepsOutside(v, disk, chain[..n], data[..cut], a);
      OverwriteAt(StoreChain(v, disk, chain[..n], data[..cut]), ClusterStart(v, chain[n]), data[cut..], a);
    }
  }

  ghost predicate AllDistinct(chain: seq<nat>) {
    forall i, j | 0 <= i < j < |chain| :: chain[i] != chain[j]
  }

  lemma OverwriteElsewhere(v: Volume, disk: seq<Byte>, c: nat, d: nat, data: seq<Byte>)
    requires 2 <= c && 2 <= d && c != d && |data| == v.ClusterBytes()
    requires ClusterStart(v, c) + v.ClusterBytes() <= |disk| && ClusterStart(v, d) + v.ClusterBytes() <= |disk|
    ensures ClusterData(v, Overwrite(disk, ClusterStart(v, c), data), d) == ClusterData(v, disk, d)
    ensures ClusterData(v, Overwrite(disk, ClusterStart(v, c), data), c) == data
  {
    ClustersApart(v, c, d);
    ReadsBack(disk, ClusterStart(v, c), data);
    ReadsElsewhere(disk, ClusterStart(v, c), data, ClusterStart(v, d), ClusterStart(v, d) + v.ClusterBytes());
    hide Overwrite, ClusterStart;
  }

  lemma {:induction false} ChainDataElsewhere(v: Volume, disk: seq<Byte>, c: nat, chain: seq<nat>, data: seq<Byte>)
    requires 2 <= c && c !in chain && |data| == v.ClusterBytes()
    requires ClusterStart(v, c) + v.ClusterBytes() <= |disk| && ClustersFit(v, |disk|, chain)
    ensures ChainData(v, Overwrite(disk, ClusterStart(v, c), data), chain) == ChainData(v, disk, chain)
  {
    if chain != [] {
      var n := |chain| - 1;
      ChainDataElsewhere(v, disk, c, chain[..n], data);
      OverwriteElsewhere(v, disk, c, chain[n], data);
    }
  }

  /** Reading a chain back after storing along it gives the stored bytes. */
  lemma {:induction false} StoreThenLoad(v: Volume, disk: seq<Byte>, chain: seq<nat>, data: seq<Byte>)
    requires ClustersFit(v, |disk|, chain) && |data| == |chain| * v.ClusterBytes() && AllDistinct(chain)
    ensures ChainData(v, StoreChain(v, disk, chain, data), chain) == data
  {
    hide ClusterStart, Volume.ClusterBytes, Overwrite, ClusterData;
    if chain != [] {
      var n, cut := |chain| - 1, (|chain| - 1) * v.ClusterBytes();
      Distribute(n, v.ClusterBytes());
      var front := StoreChain(v, disk, chain[..n], data[..cut]);
      StoreThenLoad(v, disk, chain[..n], data[..cut]);
      ChainDataElsewhere(v, front, chain[n], chain[..n], data[cut..]);
      OverwrittenCluster(v, front, chain[n], data[cut..]);
      assert data[..cut] + data[cut..] == data;
    }
  }

  lemma OverwrittenCluster(v: Volume, disk: seq<Byte>, c: nat, data: seq<Byte>)
    requires 2 <= c && ClusterStart(v, c) + v.ClusterBytes() <= |disk| && |data| == v.ClusterBytes()
    ensures |Overwrite(disk, ClusterStart(v, c), data)| == |disk|
    ensures ClusterData(v, Overwrite(disk, ClusterStart(v, c), data), c) == data
  {
    hide ClusterStart, Volume.ClusterBytes;
  }

  lemma Distribute(n: nat, k: nat)
    ensures 0 <= n * k && (n + 1) * k == n * k + k && 0 * k == 0
  {
  }

  // ------------------------------------------------------------- steps of the loops

  lemma SectorInside(v: Volume, total: nat, c: nat)
    requires v.Valid() && OnVolume(v, total, c)
    ensures (v.reserved + c * 4 / SECTOR) * SECTOR + SECTOR <= v.DataStart() <= total
    ensures EntryStart(v, c) == (v.reserved + c * 4 / SECTOR) * SECTOR + c * 4 % SECTOR && c * 4 % SECTOR <= SECTOR - 4
  {
    hide ClusterStart, Volume.DataStart, Volume.ClusterBytes;
    DataInside(v, total, c);
    TablesBeforeData(v);
    SectorOfEntry(v.reserved, v.tableSize, c, v.DataStart());
  }

  lemma SectorOfEntry(reserved: nat, tableSize: nat, c: nat, end: nat)
    requires c < tableSize * 128 && reserved * SECTOR + tableSize * SECTOR <= end
    ensures (reserved + c * 4 / SECTOR) * SECTOR + SECTOR <= end
    ensures reserved * SECTOR + c * 4 == (reserved + c * 4 / SECTOR) * SECTOR + c * 4 % SECTOR && c * 4 % SECTOR <= SECTOR - 4
  {
  }

  /** The entry as read from the sector that holds it. */
  lemma EntryInSector(v: Volume, disk: seq<Byte>, c: nat, sector: seq<Byte>)
    requires v.Valid() && OnVolume(v, |disk|, c)
    requires var s := (v.reserved + c * 4 / SECTOR) * SECTOR; s + SECTOR <= |disk| && sector == disk[s..s + SECTOR]
    ensures var at := c * 4 % SECTOR;
            at + 3 < SECTOR && Next(v, disk, c) == Word28(sector[at], sector[at + 1], sector[at + 2], sector[at + 3])
  {
    SectorInside(v, |disk|, c);
    hide Word28;
    var s, at := (v.reserved + c * 4 / SECTOR) * SECTOR, c * 4 % SECTOR;
    assert EntryStart(v, c) == s + at;
    assert forall k | 0 <= k < SECTOR :: sector[k] == disk[s + k];
  }

  lemma ChainFits(v: Volume, disk: seq<Byte>, c: nat, chain: seq<nat>)
    requires IsChain(v, disk, c, chain)
    ensures ClustersFit(v, |disk|, chain) && AllDistinct(chain)
  {
    forall i | 0 <= i < |chain| ensures 2 <= chain[i] && ClusterStart(v, chain[i]) + v.ClusterBytes() <= |disk| {
      ChainSuffix(v, disk, c, chain, i);
    }
    forall i, j | 0 <= i < j < |chain| ensures chain[i] != chain[j] { ChainDistinct(v, disk, c, chain, i, j); }
  }

  /** One turn of a chain loop: the current cluster is the next listed one. */
  lemma ChainStep(v: Volume, disk: seq<Byte>, c: nat, chain: seq<nat>, n: nat)
    requires n <= |chain| && IsChain(v, disk, c, chain[n..]) && !Ends(c) && ClustersFit(v, |disk|, chain)
    ensures n < |chain| && c == chain[n] && OnVolume(v, |disk|, c)
    ensures IsChain(v, disk, Next(v, disk, c), chain[n + 1..])
    ensures ClustersFit(v, |disk|, chain[..n + 1])
    ensures ChainData(v, disk, chain[..n + 1]) == ChainData(v, disk, chain[..n]) + ClusterData(v, disk, chain[n])
    ensures n * v.ClusterBytes() + v.ClusterBytes() == (n + 1) * v.ClusterBytes() <= |chain| * v.ClusterBytes()
  {
    assert chain[n..][1..] == chain[n + 1..];
    assert chain[..n + 1][..n] == chain[..n];
    MulMono(n, |chain|, v.ClusterBytes());
  }

  /** The read loop's state after n clusters. */
  ghost predicate ReadSoFar(v: Volume, disk: seq<Byte>, chain: seq<nat>, was: seq<Byte>, buf: seq<Byte>, cluster: nat, n: nat, at: nat) {
    && n <= |chain| && at == n * v.ClusterBytes() && |chain| * v.ClusterBytes() <= |was|
    && ClustersFit(v, |disk|, chain) && IsChain(v, disk, cluster, chain[n..])
    && ClustersFit(v, |disk|, chain[..n]) && |ChainData(v, disk, chain[..n])| == at <= |was|
    && buf == Overwrite(was, 0, ChainData(v, disk, chain[..n]))
  }

  lemma ReadStarts(v: Volume, disk: seq<Byte>, chain: seq<nat>, buf: seq<Byte>, first: nat)
    requires IsChain(v, disk, first, chain) && |chain| * v.ClusterBytes() <= |buf|
    ensures ReadSoFar(v, disk, chain, buf, buf, first, 0, 0)
  {
    ChainFits(v, disk, first, chain);
    assert chain[0..] == chain && chain[..0] == [] && Overwrite(buf, 0, []) == buf;
  }

  lemma ReadContinues(v: Volume, disk: seq<Byte>, chain: seq<nat>, was: seq<Byte>, buf: seq<Byte>, cluster: nat, n: nat, at: nat)
    requires ReadSoFar(v, disk, chain, was, buf, cluster, n, at) && !Ends(cluster)
    ensures n < |chain| && OnVolume(v, |disk|, cluster) && at + v.ClusterBytes() <= |was| == |buf|
    ensures ReadSoFar(v, disk, chain, was, Overwrite(buf, at, ClusterData(v, disk, cluster)), Next(v, disk, cluster), n + 1,
                      at + v.ClusterBytes())
  {
    ChainStep(v, disk, cluster, chain, n);
    hide ClusterData, ClusterStart, OnVolume, ChainData, IsChain;
    OverwriteAppend(was, 0, ChainData(v, disk, chain[..n]), ClusterData(v, disk, cluster));
  }

  lemma ReadEnds(v: Volume, disk: seq<Byte>, chain: seq<nat>, was: seq<Byte>, buf: seq<Byte>, cluster: nat, n: nat, at: nat)
    requires ReadSoFar(v, disk, chain, was, buf, cluster, n, at) && Ends(cluster)
    ensures n == |chain| && ClustersFit(v, |disk|, chain) && |ChainData(v, disk, chain)| == |chain| * v.ClusterBytes() <= |was|
    ensures buf == Overwrite(was, 0, ChainData(v, disk, chain))
  {
    assert chain[n..] == [];
    assert chain[..n] == chain;
  }

  /** No store along a chain touches the boot record or the FATs. */
  lemma StoreKeepsFat(v: Volume, disk: seq<Byte>, chain: seq<nat>, data: seq<Byte>)
    requires ClustersFit(v, |disk|, chain) && |data| == |chain| * v.ClusterBytes()
    ensures forall a | 0 <= a < v.DataStart() && a < |disk| :: StoreChain(v, disk, chain, data)[a] == disk[a]
  {
    forall a | 0 <= a < v.DataStart() && a < |disk| ensures StoreChain(v, disk, chain, data)[a] == disk[a] {
      forall i | 0 <= i < |chain| ensures 2 <= chain[i] && v.DataStart() <= ClusterStart(v, chain[i]) { ClusterStartIs(v, chain[i]); }
      StoreKeepsOutside(v, disk, chain, data, a);
    }
  }

  /** The write loop's state after n clusters; `was` is the disk before, `data` the chain's worth of buffer. */
  ghost predicate WroteSoFar(v: Volume, was: seq<Byte>, chain: seq<nat>, data: seq<Byte>, disk: seq<Byte>, cluster: nat, n: nat, at: nat) {
    && v.Valid() && n <= |chain| && at == n * v.ClusterBytes() <= |data| == |chain| * v.ClusterBytes()
    && ClustersFit(v, |was|, chain) && IsChain(v, was, cluster, chain[n..])
    && ClustersFit(v, |was|, chain[..n]) && disk == StoreChain(v, was, chain[..n], data[..at])
  }

  lemma WriteStarts(v: Volume, disk: seq<Byte>, chain: seq<nat>, data: seq<Byte>, first: nat)
    requires v.Valid() && IsChain(v, disk, first, chain) && |data| == |chain| * v.ClusterBytes()
    ensures WroteSoFar(v, disk, chain, data, disk, first, 0, 0)
  {
    ChainFits(v, disk, first, chain);
    assert chain[0..] == chain && chain[..0] == [] && data[..0] == [];
  }

  lemma StoreOneMore(v: Volume, disk: seq<Byte>, chain: seq<nat>, data: seq<Byte>, n: nat)
    requires n < |chain| && ClustersFit(v, |disk|, chain) && |data| == |chain| * v.ClusterBytes()
    ensures var at, next := n * v.ClusterBytes(), (n + 1) * v.ClusterBytes();
            && next <= |data| && ClustersFit(v, |disk|, chain[..n]) && ClustersFit(v, |disk|, chain[..n + 1])
            && StoreChain(v, disk, chain[..n + 1], data[..next])
                 == Overwrite(StoreChain(v, disk, chain[..n], data[..at]), ClusterStart(v, chain[n]), data[at..next])
  {
    hide Overwrite, ClusterStart;
    var cb := v.ClusterBytes();
    var at, next := n * cb, (n + 1) * cb;
    MulMono(n, |chain|, cb);
    MulMono(n, n + 1, cb);
    assert next == at + cb <= |data|;
    assert chain[..n + 1][..n] == chain[..n] && chain[..n + 1][n] == chain[n];
    assert data[..next][..at] == data[..at] && data[..next][at..] == data[at..next];
  }

  lemma WriteContinues(v: Volume, was: seq<Byte>, chain: seq<nat>, data: seq<Byte>, disk: seq<Byte>, cluster: nat, n: nat, at: nat)
    requires WroteSoFar(v, was, chain, data, disk, cluster, n, at) && !Ends(cluster)
    ensures n < |chain| && OnVolume(v, |disk|, cluster) && at + v.ClusterBytes() <= |data|
    ensures var d := Overwrite(disk, ClusterStart(v, cluster), data[at..at + v.ClusterBytes()]);
            WroteSoFar(v, was, chain, data, d, Next(v, d, cluster), n + 1, at + v.ClusterBytes())
  {
    ChainStep(v, was, cluster, chain, n);
    StoreOneMore(v, was, chain, data, n);
    var d := StoreChain(v, was, chain[..n + 1], data[..(n + 1) * v.ClusterBytes()]);
    StoreKeepsFat(v, was, chain[..n + 1], data[..(n + 1) * v.ClusterBytes()]);
    SameEntry(v, was, d, cluster);
  }

  lemma SameEntry(v: Volume, was: seq<Byte>, disk: seq<Byte>, c: nat)
    requires v.Valid() && |disk| == |was| && OnVolume(v, |was|, c)
    requires forall a | 0 <= a < v.DataStart() && a < |was| :: disk[a] == was[a]
    ensures Next(v, disk, c) == Next(v, was, c)
  {
    EntryBeforeData(v, |was|, c);
  }

  lemma WriteEnds(v: Volume, was: seq<Byte>, chain: seq<nat>, data: seq<Byte>, disk: seq<Byte>, cluster: nat, n: nat, at: nat)
    requires WroteSoFar(v, was, chain, data, disk, cluster, n, at) && Ends(cluster)
    ensures ClustersFit(v, |was|, chain) && disk == StoreChain(v, was, chain, data)
  {
    assert chain[n..] == [];
    assert chain[..n] == chain && data[..at] == data;
  }

  /**
   Writing along any terminating chain and reading the same chain back is the identity;
   the chain itself, the FATs and every byte off the chain are as before.
   */
  lemma ChainRoundTrip(v: Volume, disk: seq<Byte>, first: nat, chain: seq<nat>, data: seq<Byte>)
    requires v.Valid() && IsChain(v, disk, first, chain) && |data| == |chain| * v.ClusterBytes()
    ensures ClustersFit(v, |disk|, chain)
    ensures var d := StoreChain(v, disk, chain, data);
            && IsChain(v, d, first, chain) && ChainData(v, d, chain) == data
            && (forall a | 0 <= a < v.DataStart() && a < |disk| :: d[a] == disk[a])
            && (forall a | 0 <= a < |disk| && !InChain(v, chain, a) :: d[a] == disk[a])
  {
    ChainFits(v, disk, first, chain);
    StoreThenLoad(v, disk, chain, data);
    StoreKeepsFat(v, disk, chain, data);
    ChainFollowsFat(v, disk, StoreChain(v, disk, chain, data), first, chain);
    forall a | 0 <= a < |disk| && !InChain(v, chain, a) ensures StoreChain(v, disk, chain, data)[a] == disk[a] {
      StoreKeepsOutside(v, disk, chain, data, a);
    }
  }
}
