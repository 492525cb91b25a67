/** Cluster arithmetic and cluster loading of stage2/FAT16 (fat16_helpers.c, chain.c,
    load_clusterd_entry.c), through the driver of Ata. */
module FatVolume {
  import opened Ints
  import opened Disk
  import opened FatChain
  import Ata
  import opened Words

  /** The initialised `Fat16` structure: the table, the geometry and the root directory, with the
      disk behind it. `wordAtZero` is the 16-bit word at address 0, which `parse_dir` reads through
      a NULL chain. */
  datatype Volume = Volume(
    fat: seq<U16>, sectorsPerCluster: U16, bytesPerSector: U16, dataStartLba: U32,
    rootDir: seq<Byte>, rootDirEntries: U16, disk: Image, wordAtZero: U16)

  /** What the driver and `fat_init` give: 512-byte sectors, a cluster size from one byte of the boot
      sector, and a root directory with all its entries. */
  predicate Mounted(v: Volume) {
    && v.bytesPerSector == SECTOR
    && 1 <= v.sectorsPerCluster <= 255
    && 32 * v.rootDirEntries <= |v.rootDir|
  }

  function ClusterBytes(v: Volume): nat {
    v.sectorsPerCluster * v.bytesPerSector
  }

  // ---------- rounding a byte count to clusters ----------

  function CeilDiv(a: nat, b: nat): (r: nat)
    requires b > 0
    ensures r * b >= a
    ensures r > 0 ==> (r - 1) * b < a
  {
    a / b + (if a % b != 0 then 1 else 0)
  }

  function BytesToSectors(v: Volume, bytes: U32): nat
    requires v.bytesPerSector > 0
  {
    CeilDiv(bytes, v.bytesPerSector)
  }

  /** The count of clusters is a 16-bit number. */
  function SectorsToClusters(v: Volume, sectors: nat): U16
    requires v.sectorsPerCluster > 0
  {
    CeilDiv(sectors, v.sectorsPerCluster) % LIMIT16
  }

  function RoundBytesToClusters(v: Volume, bytes: U32): U32
    requires v.bytesPerSector > 0 && v.sectorsPerCluster > 0
  {
    SectorsToClusters(v, BytesToSectors(v, bytes)) * v.bytesPerSector * v.sectorsPerCluster % LIMIT32
  }

  lemma MulGap(q: nat, r: nat, b: nat)
    ensures q < r ==> q * b <= (r - 1) * b
  {
    if q < r {
      MulLe(q, r - 1, b);
    }
  }

  lemma CeilDivUnique(a: nat, b: nat, r: nat)
    requires b > 0 && r * b >= a && (r > 0 ==> (r - 1) * b < a)
    ensures CeilDiv(a, b) == r
  {
    MulGap(CeilDiv(a, b), r, b);
    MulGap(r, CeilDiv(a, b), b);
  }

  lemma MulMiddle(q: int, s: int, c: int)
    ensures (q * c) * s == q * (s * c)
    ensures q * s * c == q * (c * s)
  {
  }

  /** Rounding up to sectors and then to clusters is rounding up to clusters at once. */
  lemma RoundTwice(a: nat, s: nat, c: nat)
    requires s > 0 && c > 0 && s * c > 0
    ensures CeilDiv(CeilDiv(a, s), c) == CeilDiv(a, s * c)
  {
    hide CeilDiv;
    var p := CeilDiv(a, s);
    var q := CeilDiv(p, c);
    MulLe(p, q * c, s);
    MulMiddle(q, s, c);
    if q > 0 {
      MulLe((q - 1) * c, p - 1, s);
      MulMiddle(q - 1, s, c);
    }
    CeilDivUnique(a, s * c, q);
  }

  /** In general: the rounded size is the least multiple of the cluster size that holds the bytes,
      as long as the cluster count fits 16 bits and the size 32 bits. */
  lemma RoundsUp(v: Volume, bytes: U32)
    requires v.bytesPerSector > 0 && v.sectorsPerCluster > 0
    requires ClusterBytes(v) > 0 && CeilDiv(bytes, ClusterBytes(v)) < LIMIT16
    requires CeilDiv(bytes, ClusterBytes(v)) * ClusterBytes(v) < LIMIT32
    ensures RoundBytesToClusters(v, bytes) == CeilDiv(bytes, ClusterBytes(v)) * ClusterBytes(v)
    ensures bytes <= RoundBytesToClusters(v, bytes) < bytes + ClusterBytes(v)
  {
    hide CeilDiv, RoundBytesToClusters, ClusterBytes;
    var b := ClusterBytes(v);
    var k := CeilDiv(bytes, b);
    RoundedIs(v, bytes, k);
    assert k > 0 ==> (k - 1) * b == k * b - b;
  }

  lemma RoundedIs(v: Volume, bytes: U32, k: nat)
    requires v.bytesPerSector > 0 && v.sectorsPerCluster > 0 && ClusterBytes(v) > 0
    requires k == CeilDiv(bytes, ClusterBytes(v)) < LIMIT16 && k * ClusterBytes(v) < LIMIT32
    ensures RoundBytesToClusters(v, bytes) == k * ClusterBytes(v)
  {
    hide CeilDiv, SectorsToClusters, BytesToSectors;
    ClustersIs(v, bytes, k);
    MulMiddle(k, v.bytesPerSector, v.sectorsPerCluster);
    assert k * v.bytesPerSector * v.sectorsPerCluster == k * ClusterBytes(v);
  }

  lemma ClustersIs(v: Volume, bytes: U32, k: nat)
    requires v.bytesPerSector > 0 && v.sectorsPerCluster > 0 && ClusterBytes(v) > 0
    requires k == CeilDiv(bytes, ClusterBytes(v)) < LIMIT16
    ensures SectorsToClusters(v, BytesToSectors(v, bytes)) == k
  {
    hide CeilDiv, ClusterBytes;
    BytesOfCluster(v);
    RoundTwice(bytes, v.bytesPerSector, v.sectorsPerCluster);
  }

  lemma BytesOfCluster(v: Volume)
    ensures ClusterBytes(v) == v.bytesPerSector * v.sectorsPerCluster
  {
  }

  /** Rounding a whole number of clusters changes nothing. */
  lemma RoundWhole(v: Volume, n: nat)
    requires v.bytesPerSector > 0 && v.sectorsPerCluster > 0
    requires n < LIMIT16 && n * ClusterBytes(v) < LIMIT32
    ensures RoundBytesToClusters(v, n * ClusterBytes(v)) == n * ClusterBytes(v)
  {
    var b := ClusterBytes(v);
    assert b > 0 && 0 <= n * b;
    assert (n - 1) * b == n * b - b;
    CeilDivUnique(n * b, b, n);
    hide CeilDiv, RoundBytesToClusters;
    RoundsUp(v, n * b);
  }

  // ---------- reading clusters ----------

  /** `cluster_to_lba`, an unsigned 32-bit sum. */
  function ClusterLba(v: Volume, cluster: U16): U32
    requires cluster >= 2
  {
    (v.dataStartLba + (cluster - 2) * v.sectorsPerCluster) % LIMIT32
  }

  /** What loading leaves of a cluster in a zeroed buffer: clusters below 2 have no sectors. */
  function ClusterData(v: Volume, cluster: U16): (bytes: seq<Byte>)
    requires v.bytesPerSector == SECTOR
    ensures |bytes| == ClusterBytes(v)
  {
    if cluster < 2 then Zeros(ClusterBytes(v))
    else Sectors(v.disk, ClusterLba(v, cluster), v.sectorsPerCluster)
  }

  function Contents(v: Volume, chain: seq<U16>): (bytes: seq<Byte>)
    requires v.bytesPerSector == SECTOR
    ensures |bytes| == |chain| * ClusterBytes(v)
  {
    if chain == [] then []
    else
      var n := |chain| - 1;
      assert n * ClusterBytes(v) + ClusterBytes(v) == |chain| * ClusterBytes(v);
      Contents(v, chain[..n]) + ClusterData(v, chain[n])
  }

  /** Cluster `k` of the chain lies in the contents at its multiple of the cluster size. */
  lemma {:induction false} ContentsAt(v: Volume, chain: seq<U16>, k: nat)
    requires v.bytesPerSector == SECTOR && k < |chain|
    ensures 0 <= k * ClusterBytes(v) <= k * ClusterBytes(v) + ClusterBytes(v) <= |Contents(v, chain)|
    ensures Contents(v, chain)[k * ClusterBytes(v)..k * ClusterBytes(v) + ClusterBytes(v)]
         == ClusterData(v, chain[k])
  {
    var n, b := |chain| - 1, ClusterBytes(v);
    var first := Contents(v, chain[..n]);
    assert Contents(v, chain) == first + ClusterData(v, chain[n]);
    assert n * b + b == |chain| * b;
    if k < n {
      ContentsAt(v, chain[..n], k);
      assert (first + ClusterData(v, chain[n]))[k * b..k * b + b] == first[k * b..k * b + b];
    } else {
      assert (first + ClusterData(v, chain[n]))[k * b..k * b + b] == ClusterData(v, chain[k]);
    }
  }

  /** What `load_clustered_entry` makes of a first cluster. `Overrun`: the size passed to `zalloc` is
      cut to 16 bits and the clusters would be written past the block. */
  datatype Loaded = Failed | Overrun | Buffer(bytes: seq<Byte>)

  function Load(v: Volume, cluster: U16): Loaded
    requires v.bytesPerSector == SECTOR
  {
    match Traverse(v.fat, cluster)
    case None => Failed
    case Some(chain) =>
      var total := |chain| * ClusterBytes(v);
      if total % LIMIT16 == 0 then Failed
      else if total >= LIMIT16 then Overrun
      else Buffer(Contents(v, chain))
  }

  /** With 64 sectors to a cluster, the three clusters from cluster 2 are 98304 bytes; the block has 32768. */
  lemma OverrunReached(v: Volume)
    requires v.fat == [0, 0, 3, 4, 0xFFF8] && v.bytesPerSector == SECTOR && v.sectorsPerCluster == 64
    ensures Load(v, 2) == Overrun
  {
    var fat := v.fat;
    assert Walk(fat, 2, 0) == 2;
    assert Walk(fat, 2, 1) == 3;
    assert Walk(fat, 2, 2) == 4;
    assert Walk(fat, 2, 3) == 0xFFF8;
    assert EndsAfter(fat, 2, 3);
    ShortIffEnds(fat, 2);
  }

  lemma NextFits(i: nat, n: nat, b: nat)
    requires i < n
    ensures i * b + b == (i + 1) * b <= n * b
  {
    assert (i + 1) * b == i * b + b;
    MulLe(i + 1, n, b);
  }

  /** The first cluster with sectors is 2; its sectors begin at the data area. */
  function FirstSector(v: Volume, cluster: U16): int {
    (v.dataStartLba + (cluster - 2) * v.sectorsPerCluster) % LIMIT32
  }

  /** Part `k` of `bytes` is the data of a cluster: its sectors, or zeros if the number is below 2. */
  ghost predicate PartIs(v: Volume, bytes: seq<Byte>, k: nat, cluster: U16) {
    var b := v.sectorsPerCluster * SECTOR;
    && 0 <= k * b <= k * b + b <= |bytes|
    && bytes[k * b..k * b + b]
       == if cluster < 2 then Zeros(b) else Sectors(v.disk, FirstSector(v, cluster), v.sectorsPerCluster)
  }

  /** `bytes` are the clusters of the walk from `cluster`, in order, `n` of them, and fit 16 bits. */
  ghost predicate LoadsAs(v: Volume, cluster: U16, n: nat, bytes: seq<Byte>) {
    && |bytes| == n * (v.sectorsPerCluster * SECTOR) < LIMIT16
    && forall k: nat :: k < n ==> PartIs(v, bytes, k, Walk(v.fat, cluster, k))
  }

  /** The chain from `cluster` loads, as `bytes`. */
  ghost predicate Loads(v: Volume, cluster: U16, bytes: seq<Byte>) {
    exists n: nat :: IsChain(v.fat, cluster, n) && LoadsAs(v, cluster, n, bytes)
  }

  /** The chain from `cluster` does not fit a 16-bit size, and what is left of the size is not zero. */
  ghost predicate Overruns(v: Volume, cluster: U16) {
    exists n: nat :: IsChain(v.fat, cluster, n) && TooLong(v, n)
  }

  predicate TooLong(v: Volume, n: nat) {
    var size := n * (v.sectorsPerCluster * SECTOR);
    size > LIMIT16 && size % LIMIT16 != 0
  }

  lemma BytesAre(v: Volume)
    requires v.bytesPerSector == SECTOR
    ensures ClusterBytes(v) == v.sectorsPerCluster * SECTOR
  {
  }

  lemma FirstSectorIs(v: Volume, cluster: U16)
    requires cluster >= 2
    ensures FirstSector(v, cluster) == ClusterLba(v, cluster)
  {
  }

  lemma PartsOfContents(v: Volume, cluster: U16, n: nat)
    requires v.bytesPerSector == SECTOR && n * ClusterBytes(v) < LIMIT16
    ensures LoadsAs(v, cluster, n, Contents(v, Path(v.fat, cluster, n)))
  {
    hide Contents, Walk, ClusterLba, FirstSector, ClusterBytes, PartIs;
    BytesAre(v);
    var chain := Path(v.fat, cluster, n);
    forall k: nat | k < n
      ensures PartIs(v, Contents(v, chain), k, Walk(v.fat, cluster, k))
    {
      PartOfContents(v, chain, k);
    }
  }

  lemma PartOfContents(v: Volume, chain: seq<U16>, k: nat)
    requires v.bytesPerSector == SECTOR && k < |chain|
    ensures PartIs(v, Contents(v, chain), k, chain[k])
  {
    hide Contents, ClusterLba, FirstSector;
    ContentsAt(v, chain, k);
    BytesAre(v);
    if chain[k] >= 2 {
      FirstSectorIs(v, chain[k]);
    }
  }

  /** Bytes with the same parts are the same. */
  lemma {:induction false} PartsAreAll(v: Volume, chain: seq<U16>, bytes: seq<Byte>)
    requires v.bytesPerSector == SECTOR && |bytes| == |chain| * ClusterBytes(v)
    requires forall k: nat :: k < |chain| ==> PartIs(v, bytes, k, chain[k])
    ensures bytes == Contents(v, chain)
    decreases |chain|
  {
    hide Contents, ClusterLba, FirstSector, ClusterBytes, PartIs;
    BytesAre(v);
    if chain == [] {
      assert bytes == [];
      ContentsNone(v);
    } else {
      var n, b := |chain| - 1, ClusterBytes(v);
      NextFits(n, n + 1, b);
      PartIsData(v, bytes, n, chain[n]);
      forall k: nat | k < n
        ensures PartIs(v, bytes[..n * b], k, chain[..n][k])
      {
        PartKept(v, bytes, n, k, chain[k]);
      }
      PartsAreAll(v, chain[..n], bytes[..n * b]);
      ContentsLast(v, chain);
      assert bytes == bytes[..n * b] + bytes[n * b..n * b + b];
    }
  }

  lemma ContentsNone(v: Volume)
    requires v.bytesPerSector == SECTOR
    ensures Contents(v, []) == []
  {
  }

  lemma ContentsLast(v: Volume, chain: seq<U16>)
    requires v.bytesPerSector == SECTOR && chain != []
    ensures Contents(v, chain) == Contents(v, chain[..|chain| - 1]) + ClusterData(v, chain[|chain| - 1])
  {
  }

  lemma PartIsData(v: Volume, bytes: seq<Byte>, k: nat, cluster: U16)
    requires v.bytesPerSector == SECTOR && PartIs(v, bytes, k, cluster)
    ensures 0 <= k * ClusterBytes(v) <= k * ClusterBytes(v) + ClusterBytes(v) <= |bytes|
    ensures bytes[k * ClusterBytes(v)..k * ClusterBytes(v) + ClusterBytes(v)] == ClusterData(v, cluster)
  {
    hide ClusterLba, FirstSector;
    BytesAre(v);
    if cluster >= 2 {
      FirstSectorIs(v, cluster);
    }
  }

  lemma PartKept(v: Volume, bytes: seq<Byte>, n: nat, k: nat, cluster: U16)
    requires v.bytesPerSector == SECTOR && k < n && PartIs(v, bytes, k, cluster)
    requires 0 <= n * ClusterBytes(v) <= |bytes|
    ensures PartIs(v, bytes[..n * ClusterBytes(v)], k, cluster)
  {
    hide FirstSector, ClusterBytes;
    BytesAre(v);
    var b := ClusterBytes(v);
    NextFits(k, n, b);
    assert bytes[..n * b][k * b..k * b + b] == bytes[k * b..k * b + b];
  }

  /** When a first cluster loads, and as what: exactly when a chain comes back that fits 16 bits, and then
      as the data of its clusters in order. */
  lemma LoadsIff(v: Volume, cluster: U16, bytes: seq<Byte>)
    requires Mounted(v)
    ensures Load(v, cluster) == Buffer(bytes) <==> Loads(v, cluster, bytes)
  {
    hide Contents, Traverse, IsChain, LoadsAs;
    ChainOf(v.fat, cluster);
    BytesAre(v);
    if Load(v, cluster) == Buffer(bytes) {
      var chain := Traverse(v.fat, cluster).value;
      PartsOfContents(v, cluster, |chain|);
    }
    if Loads(v, cluster, bytes) {
      var n: nat :| IsChain(v.fat, cluster, n) && LoadsAs(v, cluster, n, bytes);
      ChainIs(v.fat, cluster, n);
      LoadsAsContents(v, cluster, n, bytes);
      ChainNotEmpty(v, cluster, n);
    }
  }

  lemma LoadsAsContents(v: Volume, cluster: U16, n: nat, bytes: seq<Byte>)
    requires v.bytesPerSector == SECTOR && LoadsAs(v, cluster, n, bytes)
    ensures n * ClusterBytes(v) == |bytes| < LIMIT16
    ensures bytes == Contents(v, Path(v.fat, cluster, n))
  {
    hide Contents, PartIs, Walk;
    BytesAre(v);
    PartsAreAll(v, Path(v.fat, cluster, n), bytes);
  }

  lemma ChainNotEmpty(v: Volume, cluster: U16, n: nat)
    requires Mounted(v) && IsChain(v.fat, cluster, n)
    ensures n * ClusterBytes(v) > 0
  {
    MulLe(1, n, ClusterBytes(v));
  }

  /** When it overruns: exactly when a chain comes back that is too long, and not by a multiple of 2^16. */
  lemma OverrunIff(v: Volume, cluster: U16)
    requires Mounted(v)
    ensures Load(v, cluster) == Overrun <==> Overruns(v, cluster)
  {
    hide Contents, Traverse, IsChain;
    ChainOf(v.fat, cluster);
    BytesAre(v);
    if Load(v, cluster) == Overrun {
      assert TooLong(v, |Traverse(v.fat, cluster).value|);
    }
    if Overruns(v, cluster) {
      var n: nat :| IsChain(v.fat, cluster, n) && TooLong(v, n);
      ChainIs(v.fat, cluster, n);
    }
  }

  /** When it fails: exactly when no chain comes back, or its bytes are a multiple of 2^16. */
  lemma FailedIff(v: Volume, cluster: U16)
    requires Mounted(v)
    ensures Load(v, cluster) == Failed
       <==> forall n: nat :: IsChain(v.fat, cluster, n) ==> n * (v.sectorsPerCluster * SECTOR) % LIMIT16 == 0
  {
    hide Contents, Traverse, IsChain;
    ChainOf(v.fat, cluster);
    BytesAre(v);
    forall n: nat | IsChain(v.fat, cluster, n)
      ensures Load(v, cluster) == Failed <==> n * (v.sectorsPerCluster * SECTOR) % LIMIT16 == 0
    {
      ChainIs(v.fat, cluster, n);
    }
  }

  /** In a load, sector `j` of the `k`-th cluster of the walk, if its number is at least 2, lies at its
      place in the buffer. */
  lemma LoadsSectorsInOrder(v: Volume, cluster: U16, n: nat, bytes: seq<Byte>, k: nat, j: nat)
    requires Mounted(v) && Load(v, cluster) == Buffer(bytes) && IsChain(v.fat, cluster, n)
    requires k < n && j < v.sectorsPerCluster && Walk(v.fat, cluster, k) >= 2
    ensures var at := k * (v.sectorsPerCluster * SECTOR) + j * SECTOR;
            var lba := (v.dataStartLba + (Walk(v.fat, cluster, k) - 2) * v.sectorsPerCluster) % LIMIT32;
            0 <= at <= |bytes| - SECTOR && bytes[at..at + SECTOR] == v.disk(lba + j)
  {
    hide Load, Traverse, Contents, ClusterBytes, Sectors, Walk, PartIs;
    ChainIs(v.fat, cluster, n);
    var chain := Path(v.fat, cluster, n);
    LoadIs(v, cluster, chain, bytes);
    PartOfContents(v, chain, k);
    SectorOfPart(v, bytes, k, chain[k], j);
  }

  lemma SectorOfPart(v: Volume, bytes: seq<Byte>, k: nat, cluster: U16, j: nat)
    requires PartIs(v, bytes, k, cluster) && cluster >= 2 && j < v.sectorsPerCluster
    ensures var at := k * (v.sectorsPerCluster * SECTOR) + j * SECTOR;
            0 <= at <= |bytes| - SECTOR && bytes[at..at + SECTOR] == v.disk(FirstSector(v, cluster) + j)
  {
    hide FirstSector;
    FirstSectorIs(v, cluster);
    var p: int := k * (v.sectorsPerCluster * SECTOR);
    SectorOfRun(bytes, p, v.disk, FirstSector(v, cluster), v.sectorsPerCluster, j);
  }

  /** Sector `j` of a run of `n` that lies at `p`. */
  lemma SectorOfRun(bytes: seq<Byte>, p: int, disk: Image, lba: nat, n: nat, j: nat)
    requires 0 <= p <= p + n * SECTOR <= |bytes| && bytes[p..p + n * SECTOR] == Sectors(disk, lba, n) && j < n
    ensures 0 <= p + j * SECTOR <= |bytes| - SECTOR
    ensures bytes[p + j * SECTOR..p + j * SECTOR + SECTOR] == disk(lba + j)
  {
    hide Sectors;
    SectorAt(disk, lba, n, j);
    PieceOfPiece(bytes, p, n * SECTOR, j * SECTOR);
  }

  lemma LoadIs(v: Volume, cluster: U16, chain: seq<U16>, bytes: seq<Byte>)
    requires v.bytesPerSector == SECTOR
    requires Traverse(v.fat, cluster) == Some(chain) && Load(v, cluster) == Buffer(bytes)
    ensures bytes == Contents(v, chain)
  {
  }

  lemma PieceOfPiece(bytes: seq<Byte>, p: nat, b: nat, x: nat)
    requires p + b <= |bytes| && x + SECTOR <= b
    ensures bytes[p..p + b][x..x + SECTOR] == bytes[p + x..p + x + SECTOR]
  {
    var l, r := bytes[p..p + b][x..x + SECTOR], bytes[p + x..p + x + SECTOR];
    assert |l| == |r| && forall i :: 0 <= i < |l| ==> l[i] == bytes[p + x + i] == r[i];
  }

  // ---------- the drive ----------

  /** The volume's drive, without a failed command behind it. */
  ghost predicate Behind(v: Volume, drive: Ata.Drive)
    reads drive
  {
    drive.Ready() && drive.phase != Ata.Failed && drive.disk == v.disk
  }

  /** A cluster that a 28-bit command can address and the drive has. */
  ghost predicate OnDisk(v: Volume, drive: Ata.Drive, cluster: U16) {
    cluster >= 2 ==>
      && ClusterLba(v, cluster) < Ata.LBA28
      && ClusterLba(v, cluster) + v.sectorsPerCluster <= drive.capacity
  }

  /** Reads succeed: the drive is healthy and holds every cluster that the table marks as in use. */
  ghost predicate Attached(v: Volume, drive: Ata.Drive)
    reads drive
  {
    && Behind(v, drive) && drive.healthy
    && forall c :: 0 <= c < |v.fat| && c < LIMIT16 && v.fat[c] != FREE_CLUSTER ==> OnDisk(v, drive, c)
  }

  lemma ChainHeld(v: Volume, drive: Ata.Drive, cluster: U16, chain: seq<U16>)
    requires Attached(v, drive) && Traverse(v.fat, cluster) == Some(chain)
    ensures forall i :: 0 <= i < |chain| ==> OnDisk(v, drive, chain[i])
  {
    hide OnDisk;
    forall i | 0 <= i < |chain|
      ensures OnDisk(v, drive, chain[i])
    {
      ChainInUse(v.fat, cluster, chain, i);
    }
  }

  // ---------- the code ----------

  /** `read_cluster` into `dest` from byte `at` on; true, and nothing written, below cluster 2. No failure
      of the read is reported: an address beyond 28 bits leaves the buffer as it was, and past the end of a
      healthy drive only the sectors before the end are stored. */
  method ReadCluster(v: Volume, drive: Ata.Drive, cluster: U16, dest: array<Byte>, at: nat) returns (invalid: bool)
    requires Mounted(v) && drive.Valid() && at + ClusterBytes(v) <= dest.Length
    modifies drive, dest
    ensures drive.Valid()
    ensures invalid <==> cluster < 2
    ensures invalid || ClusterLba(v, cluster) >= Ata.LBA28 ==> unchanged(drive) && dest[..] == old(dest[..])
    ensures !invalid && old(Behind(v, drive)) ==>
      exists k: nat :: k <= v.sectorsPerCluster
                    && Ata.Stored(dest[..], old(dest[..]), at, v.disk, ClusterLba(v, cluster), k)
    ensures !invalid && old(Behind(v, drive)) && drive.healthy && OnDisk(v, drive, cluster) ==>
      Behind(v, drive) && dest[..] == Write(old(dest[..]), at, ClusterData(v, cluster))
    ensures (!invalid && old(Behind(v, drive)) && drive.healthy && !OnDisk(v, drive, cluster)
             && ClusterLba(v, cluster) < Ata.LBA28) ==>
      && drive.phase == Ata.Failed
      && Ata.Available(drive.capacity, ClusterLba(v, cluster), v.sectorsPerCluster) < v.sectorsPerCluster
      && Ata.Stored(dest[..], old(dest[..]), at, v.disk, ClusterLba(v, cluster),
                    Ata.Available(drive.capacity, ClusterLba(v, cluster), v.sectorsPerCluster))
  {
    hide Write, ClusterLba;
    if cluster < 2 {
      return true;
    }
    var lba := ClusterLba(v, cluster);
    Ata.NoSector(dest[..], at, drive.disk, lba);
    var e := Ata.Pio28Read(dest, at, drive, v.sectorsPerCluster, lba);
    return false;
  }

  /** The contents so far, and zeros behind them. */
  ghost predicate Filled(v: Volume, now: seq<Byte>, chain: seq<U16>)
    requires v.bytesPerSector == SECTOR
  {
    var n := |chain| * ClusterBytes(v);
    n <= |now| && now == Contents(v, chain) + Zeros(|now| - n)
  }

  lemma FilledNone(v: Volume, now: seq<Byte>)
    requires v.bytesPerSector == SECTOR && forall i :: 0 <= i < |now| ==> now[i] == 0
    ensures Filled(v, now, [])
  {
  }

  /** One more cluster. Below cluster 2 nothing is written, which leaves zeros. */
  lemma FilledMore(v: Volume, now: seq<Byte>, mid: seq<Byte>, chain: seq<U16>, i: nat)
    requires v.bytesPerSector == SECTOR && i < |chain| && (i + 1) * ClusterBytes(v) <= |mid|
    requires 0 <= i * ClusterBytes(v) <= i * ClusterBytes(v) + ClusterBytes(v) == (i + 1) * ClusterBytes(v)
    requires Filled(v, mid, chain[..i])
    requires now == if chain[i] < 2 then mid
                    else Write(mid, i * ClusterBytes(v), ClusterData(v, chain[i]))
    ensures Filled(v, now, chain[..i + 1])
  {
    hide ClusterBytes;
    assert chain[..i + 1][..i] == chain[..i];
    var b := ClusterBytes(v);
    var first, data := Contents(v, chain[..i]), ClusterData(v, chain[i]);
    assert Zeros(|mid| - i * b) == Zeros(b) + Zeros(|mid| - i * b - b);
    assert now == first + data + Zeros(|mid| - i * b - b);
  }

  /** `load_cluster_chain` into a zeroed buffer. */
  method LoadClusterChain(v: Volume, drive: Ata.Drive, chain: seq<U16>, dest: array<Byte>)
    requires Mounted(v) && Attached(v, drive) && |chain| * ClusterBytes(v) <= dest.Length
    requires forall i :: 0 <= i < |chain| ==> OnDisk(v, drive, chain[i])
    requires forall i :: 0 <= i < dest.Length ==> dest[i] == 0
    modifies drive, dest
    ensures Attached(v, drive)
    ensures Filled(v, dest[..], chain)
  {
    hide ClusterBytes, OnDisk, ClusterData, Filled, Write, Ata.Stored;
    var b := ClusterBytes(v);
    FilledNone(v, dest[..]);
    assert chain[..0] == [];
    for i := 0 to |chain|
      invariant Attached(v, drive)
      invariant Filled(v, dest[..], chain[..i])
    {
      NextFits(i, |chain|, b);
      ghost var mid := dest[..];
      var invalid := ReadCluster(v, drive, chain[i], dest, i * b);
      FilledMore(v, dest[..], mid, chain, i);
    }
    assert chain[..|chain|] == chain;
  }

  /** `load_clustered_entry`, for an entry whose first cluster is `cluster`. `overrun`: the clusters run
      past the end of the block. */
  method LoadClusteredEntry(v: Volume, drive: Ata.Drive, cluster: U16) returns (dest: array?<Byte>, overrun: bool)
    requires Mounted(v) && Attached(v, drive)
    modifies drive
    ensures Attached(v, drive)
    ensures overrun <==> Load(v, cluster).Overrun?
    ensures dest == null <==> !Load(v, cluster).Buffer?
    ensures dest != null ==> fresh(dest) && Load(v, cluster) == Buffer(dest[..])
  {
    hide ClusterBytes, Contents, OnDisk, Attached, Traverse;
    var found := TraverseChain(v.fat, cluster);
    if found.None? {
      return null, false;
    }
    var chain := found.value;
    var total := TotalBytes(v, |chain|);
    if total % LIMIT16 == 0 {
      return null, false;
    }
    dest := new Byte[total % LIMIT16](_ => 0);
    if total > dest.Length {
      return null, true;
    }
    ChainHeld(v, drive, cluster, chain);
    LoadClusterChain(v, drive, chain, dest);
    overrun := false;
    FilledWhole(v, dest[..], chain);
  }

  function TotalBytes(v: Volume, clusters: nat): (n: nat)
    ensures n == clusters * ClusterBytes(v)
  {
    MulMiddle(clusters, v.bytesPerSector, v.sectorsPerCluster);
    clusters * v.sectorsPerCluster * v.bytesPerSector
  }

  lemma FilledWhole(v: Volume, now: seq<Byte>, chain: seq<U16>)
    requires v.bytesPerSector == SECTOR && Filled(v, now, chain) && |now| == |chain| * ClusterBytes(v)
    ensures now == Contents(v, chain)
  {
  }
}
