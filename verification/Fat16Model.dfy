/** The FAT16 volume: the plain layout of Microsoft's FAT specification (section "FAT Data
    Structure"), and the loader's own numbering, in which the root directory takes up
    clusters 2, 3, ... and data clusters come after it. */
module Fat16Model {
  import opened Words
  import opened Arith

  const SECTOR: nat := 512
  type Sector = s: seq<u8> | |s| == 512 witness seq(512, _ => 0)

  // The fields of the volume identifier that the loader uses.
  datatype Volume = Volume(spc: u8, reserved: u16, numFats: u8, maxRoot: u16, spf: u16)

  function Word(s: Sector, off: nat): u16
    requires off + 1 < SECTOR
  {
    var lo: int, hi: int := s[off], s[off + 1];
    lo + 0x100 * hi
  }

  // _init_vid
  function VolumeId(s: Sector): Volume {
    Volume(s[0xd], Word(s, 0xe), s[0x10], Word(s, 0x11), Word(s, 0x16))
  }

  /** The fields in their places: a volume whose numbers stand in the boot sector, low bytes first, at
      bytes 13, 14, 16, 17 and 22 is the one that is read from it. */
  lemma VolumeIs(v: Volume, s: Sector)
    requires s[13] == v.spc && s[14] == v.reserved % 256 && s[15] == v.reserved / 256 && s[16] == v.numFats
    requires s[17] == v.maxRoot % 256 && s[18] == v.maxRoot / 256
    requires s[22] == v.spf % 256 && s[23] == v.spf / 256
    ensures VolumeId(s) == v
  {
  }

  // A partition: its readable sectors, by relative number.
  type Image = seq<Sector>

  // Byte a of the partition.
  function ByteOf(im: Image, a: nat): Option<u8> {
    if a / 512 < |im| then Some(im[a / 512][a % 512]) else None
  }

  // ---- The plain layout

  function FirstRootSector(v: Volume): nat {
    v.reserved + v.numFats * v.spf
  }

  function RootSectors(v: Volume): nat {
    (v.maxRoot * 32 + SECTOR - 1) / SECTOR
  }

  // First sector of data cluster n.
  function PlainSector(v: Volume, n: nat): int {
    (n - 2) * v.spc + FirstRootSector(v) + RootSectors(v)
  }

  // Entry n of the first FAT.
  function FatEntry(v: Volume, im: Image, n: nat): Option<u16> {
    if v.reserved + n / 256 < |im| then Some(Word(im[v.reserved + n / 256], 2 * (n % 256))) else None
  }

  // The numbers a data cluster can have; 0xfff7 marks a bad one, and the rest end a chain.
  predicate IsData(n: int) { 2 <= n <= 0xfff6 }

  // One place, as a byte of the partition and as a byte of a sector.
  lemma InSector(sec: nat, off: nat)
    requires off < 512
    ensures (512 * sec + off) / 512 == sec && (512 * sec + off) % 512 == off
  {
    QuotientUnique(512 * sec + off, 512, sec);
    Remainder(512 * sec + off, 512, sec);
  }

  /** The table of 16-bit entries begins behind the reserved sectors; the last nine numbers and the
      first two are no clusters of a file. */
  lemma FatEntryIs(v: Volume, im: Image, n: u16)
    ensures var a := 512 * v.reserved + 2 * n;
      match FatEntry(v, im, n)
      case None => 512 * |im| <= a
      case Some(m) =>
        && ByteOf(im, a).Some? && ByteOf(im, a + 1).Some? && m == ByteOf(im, a).value + 256 * ByteOf(im, a + 1).value
        && (IsData(m) <==> m != 0 && m != 1 && m < 65527)
  {
    var sec, off := v.reserved + n / 256, 2 * (n % 256);
    InSector(sec, off);
    InSector(sec, off + 1);
  }

  /** The root directory has room for its entries and less than a sector more. Cluster 2 begins
      behind it, and each cluster a cluster's size behind the one before. */
  lemma DataFollowsRoot(v: Volume, n: nat)
    ensures FirstRootSector(v) == v.reserved + v.numFats * v.spf
    ensures 32 * v.maxRoot <= 512 * RootSectors(v) < 32 * v.maxRoot + 512
    ensures PlainSector(v, 2) == FirstRootSector(v) + RootSectors(v)
    ensures PlainSector(v, n + 1) == PlainSector(v, n) + v.spc
  {
    NextProduct(n - 2, v.spc);
  }

  lemma NextProduct(a: int, k: int)
    ensures (a + 1) * k == a * k + k
  {
  }

  // The k-th cluster of the file that starts in cluster n.
  function PlainCluster(v: Volume, im: Image, n: u16, k: nat): Option<u16> {
    if k == 0 then Some(n) else
      match PlainCluster(v, im, n, k - 1)
      case None => None
      case Some(m) => FatEntry(v, im, m)
  }

  // The chain has k + 1 data clusters at least.
  ghost predicate ChainReaches(v: Volume, im: Image, n: u16, k: int) {
    forall j: nat | j <= k :: PlainCluster(v, im, n, j).Some? && IsData(PlainCluster(v, im, n, j).value)
  }

  // ---- The loader's numbering

  function ClusterSize(v: Volume): nat { v.spc * SECTOR }

  // ROOT_CLUSTERS
  function RootClusters(v: Volume): nat
    requires 0 < v.spc
  {
    Quotient(v.maxRoot * 32, ClusterSize(v));
    v.maxRoot * 32 / ClusterSize(v)
  }

  // _clu2rsec: first sector of cluster clu, counted from zero.
  function Clu2Rsec(v: Volume, clu: u16): (r: nat)
    ensures r == clu * v.spc + FirstRootSector(v) && r <= 0xffff * 0xff + 0xffff + 0xff * 0xffff
  {
    MulLe(clu, 0xffff, v.spc);
    MulLe(v.numFats, 0xff, v.spf);
    var n: nat, spc: nat := clu, v.spc;
    n * spc + FirstRootSector(v)
  }

  // Sector sec of cluster clu, as _read_cluster_sec computes it.
  function ClusterSector(v: Volume, clu: u16, sec: nat): Option<nat> {
    if clu < 2 || sec >= v.spc then None else Some(Clu2Rsec(v, clu - 2) + sec)
  }

  // _fat_get_next_clu_num, in 16 bits; 0xffff also stands for failure.
  function NextClu(v: Volume, im: Image, clu: u16): u16
    requires 0 < v.spc
  {
    if clu < 2 + RootClusters(v) then 0xffff else
      match FatEntry(v, im, clu - RootClusters(v))
      case None => 0xffff
      case Some(m) => m
  }

  // What the load loop makes of the entry it read: it gives up, or adds the literal 8.
  function Onward(m: u16): Option<u16> {
    if m == 0 || m == 0xffff then None else Some((m + 8) % 0x1_0000)
  }

  /** The loop gives up at a free entry and at 0xffff; adding 8 wraps from 0xfff8 on. */
  lemma OnwardIs(m: u16)
    ensures Onward(m) == if m == 0 || m == 65535 then None else if m < 65528 then Some(m + 8) else Some(m - 65528)
  {
  }

  // clu_num after k steps of the load loop; None when the loop gives up.
  function LoaderCluster(v: Volume, im: Image, n: u16, k: nat): Option<u16>
    requires 0 < v.spc
  {
    if k == 0 then Some((n + RootClusters(v)) % 0x1_0000) else
      match LoaderCluster(v, im, n, k - 1)
      case None => None
      case Some(c) => Onward(NextClu(v, im, c))
  }

  predicate WholeRoot(v: Volume)
    requires 0 < v.spc
  {
    RootClusters(v) * v.spc == RootSectors(v)
  }

  // One step along the chain.
  lemma StepShifted(v: Volume, im: Image, c: u16, next: u16)
    requires 0 < v.spc && IsData(c) && c + RootClusters(v) < 0x1_0000 && FatEntry(v, im, c) == Some(next)
    requires IsData(next)
    ensures Onward(NextClu(v, im, c + RootClusters(v))) == Some(next + 8)
  {
  }

  /** On a volume whose root directory takes exactly eight clusters, the loader's clusters
      are the plain ones shifted by eight, all along the chain. */
  lemma {:induction false} LoaderFollowsChain(v: Volume, im: Image, n: u16, k: nat)
    requires 0 < v.spc && RootClusters(v) == 8 && ChainReaches(v, im, n, k)
    ensures LoaderCluster(v, im, n, k) == Some(PlainCluster(v, im, n, k).value + 8)
  {
    ChainCluster(v, im, n, k, k);
    if k != 0 {
      LoaderFollowsChain(v, im, n, k - 1);
      ChainCluster(v, im, n, k, k - 1);
      StepShifted(v, im, PlainCluster(v, im, n, k - 1).value, PlainCluster(v, im, n, k).value);
    }
  }

  lemma ChainCluster(v: Volume, im: Image, n: u16, k: nat, j: nat)
    requires ChainReaches(v, im, n, k) && j <= k
    ensures PlainCluster(v, im, n, j).Some? && IsData(PlainCluster(v, im, n, j).value)
  {
  }

  // The loader reads, for cluster k of the file, the sectors of the plain layout.
  predicate ReadsRight(v: Volume, im: Image, n: u16, k: nat)
    requires 0 < v.spc && PlainCluster(v, im, n, k).Some?
  {
    match LoaderCluster(v, im, n, k)
    case None => false
    case Some(c) => 2 <= c && Clu2Rsec(v, c - 2) == PlainSector(v, PlainCluster(v, im, n, k).value)
  }

  // A shift of the cluster number by s moves the sectors by the size of the root directory
  // exactly when s clusters are that size.
  lemma ShiftedSector(v: Volume, c: u16, s: nat)
    requires IsData(c) && c + s < 0x1_0000
    ensures Clu2Rsec(v, c + s - 2) == PlainSector(v, c) <==> s * v.spc == RootSectors(v)
  {
  }

  /** The first cluster is read right if and only if its number does not wrap and the root directory
      is a whole number of clusters. */
  lemma FirstReadsRightIff(v: Volume, im: Image, n: u16)
    requires 0 < v.spc && IsData(n)
    ensures ReadsRight(v, im, n, 0) <==> WholeRoot(v) && n + RootClusters(v) < 0x1_0000
  {
    if n + RootClusters(v) < 0x1_0000 {
      ShiftedSector(v, n, RootClusters(v));
    } else {
      WrappedFirst(v, im, n);
    }
  }

  // A number that wraps is that of a root cluster, or of none.
  lemma WrappedFirst(v: Volume, im: Image, n: u16)
    requires 0 < v.spc && IsData(n) && 0x1_0000 <= n + RootClusters(v)
    ensures !ReadsRight(v, im, n, 0)
    ensures LoaderCluster(v, im, n, 1).None?
  {
    RootClustersSmall(v);
    var rc: nat := RootClusters(v);
    Wraps(n, rc);
    var c: u16 := n + rc - 0x1_0000;
    assert LoaderCluster(v, im, n, 0) == Some(c);
    if 2 <= c { SectorBefore(v, c, n); }
    assert NextClu(v, im, c) == 0xffff;
  }

  lemma Wraps(n: u16, rc: nat)
    requires 0x1_0000 <= n + rc && rc <= 4095
    ensures (n + rc) % 0x1_0000 == n + rc - 0x1_0000
  {
  }

  // A smaller number, as the loader counts, is an earlier sector.
  lemma SectorBefore(v: Volume, c: u16, n: u16)
    requires 2 <= c < n && 0 < v.spc
    ensures Clu2Rsec(v, c - 2) < PlainSector(v, n)
  {
    WrappedBelow(c - 2, n - 2, v.spc);
  }

  lemma WrappedBelow(a: nat, b: nat, spc: nat)
    requires a < b && 0 < spc
    ensures a * spc < b * spc
  {
  }

  lemma SecondReadsRightIff(v: Volume, im: Image, n: u16)
    requires 0 < v.spc && ChainReaches(v, im, n, 1)
    ensures PlainCluster(v, im, n, 1).Some?
    ensures ReadsRight(v, im, n, 1) <==> n + RootClusters(v) < 0x1_0000 && 8 * v.spc == RootSectors(v)
  {
    ChainCluster(v, im, n, 1, 0);
    ChainCluster(v, im, n, 1, 1);
    var m := PlainCluster(v, im, n, 1).value;
    assert PlainCluster(v, im, n, 0) == Some(n);
    if n + RootClusters(v) < 0x1_0000 {
      assert LoaderCluster(v, im, n, 0) == Some(n + RootClusters(v));
      StepShifted(v, im, n, m);
      ShiftedSector(v, m, 8);
    } else {
      WrappedFirst(v, im, n);
    }
  }

  lemma AllReadRight(v: Volume, im: Image, n: u16, k: nat)
    requires 0 < v.spc && ChainReaches(v, im, n, k) && WholeRoot(v) && RootClusters(v) == 8
    ensures PlainCluster(v, im, n, k).Some? && ReadsRight(v, im, n, k)
  {
    LoaderFollowsChain(v, im, n, k);
    ChainCluster(v, im, n, k, k);
    ShiftedSector(v, PlainCluster(v, im, n, k).value, 8);
  }

  /** Exactly when the load is right: the root directory must be a whole number of clusters, eight of
      them unless the file fits in one cluster, and the first number must not wrap. */
  lemma LoadsRightIff(v: Volume, im: Image, n: u16, k: nat)
    requires 0 < v.spc && ChainReaches(v, im, n, k)
    ensures (forall j: nat | j <= k :: ReadsRight(v, im, n, j)) <==>
            WholeRoot(v) && n + RootClusters(v) < 0x1_0000 && (k == 0 || RootClusters(v) == 8)
  {
    ChainCluster(v, im, n, k, 0);
    FirstReadsRightIff(v, im, n);
    if k != 0 {
      SecondReadsRightIff(v, im, n);
      if WholeRoot(v) && 8 * v.spc == RootSectors(v) { MulCancel(RootClusters(v), 8, v.spc); }
    }
    if WholeRoot(v) && RootClusters(v) == 8 {
      forall j: nat | j <= k ensures ReadsRight(v, im, n, j) { AllReadRight(v, im, n, j); }
    }
  }

  /** A root directory of 32 whole clusters, and a file of one cluster whose number wraps. */
  lemma WrapMisread(im: Image)
    ensures var v := Volume(1, 1, 1, 512, 1);
      WholeRoot(v) && RootClusters(v) == 32 && ChainReaches(v, im, 0xffe5, 0) && !ReadsRight(v, im, 0xffe5, 0)
  {
    var v := Volume(1, 1, 1, 512, 1);
    assert RootClusters(v) == 32;
    FirstReadsRightIff(v, im, 0xffe5);
  }

  // A volume whose root directory is four whole clusters, and a table whose entry 2 is 3.
  const FOUR_CLUSTERS: Volume := Volume(8, 1, 1, 512, 1)

  function FourClusterImage(): Image {
    [seq(SECTOR, _ => 0), [0, 0, 0, 0, 3, 0] + seq(SECTOR - 6, _ => 0)]
  }

  lemma FourClusterChain()
    ensures var v, im := FOUR_CLUSTERS, FourClusterImage();
      PlainCluster(v, im, 2, 0) == Some(2) && PlainCluster(v, im, 2, 1) == Some(3) && ChainReaches(v, im, 2, 1)
  {
    var v, im := FOUR_CLUSTERS, FourClusterImage();
    assert FatEntry(v, im, 2) == Some(3);
    assert PlainCluster(v, im, 2, 0) == Some(2);
  }

  lemma FourClusterRoot()
    ensures RootClusters(FOUR_CLUSTERS) == 4 && RootSectors(FOUR_CLUSTERS) == 32 && WholeRoot(FOUR_CLUSTERS)
  {
  }

  /** There the loader does not read the second cluster of the file that starts in cluster 2. */
  lemma FourClustersMisread()
    ensures var v, im := FOUR_CLUSTERS, FourClusterImage();
      && WholeRoot(v) && RootClusters(v) == 4 && ChainReaches(v, im, 2, 1)
      && PlainCluster(v, im, 2, 1).Some? && !ReadsRight(v, im, 2, 1)
  {
    FourClusterRoot();
    FourClusterChain();
    SecondReadsRightIff(FOUR_CLUSTERS, FourClusterImage(), 2);
  }

  lemma MulCancel(a: int, b: int, k: int)
    requires a * k == b * k && k != 0
    ensures a == b
  {
  }

  /** A file longer than its chain: of the eight end-of-chain marks only three end the load;
      the other five wrap around to clusters 2 to 6, in the root directory. */
  lemma EndMarks(v: Volume, im: Image, c: u16)
    requires 0 < v.spc && RootClusters(v) == 8 && 0xfff8 <= NextClu(v, im, c)
    ensures var m := NextClu(v, im, c); var next: u16 := (m + 8) % 0x1_0000;
            (m == 0xffff || ClusterSector(v, next, 0).None?) <==> m == 0xffff || m == 0xfff8 || m == 0xfff9
  {
  }

  // ---- Arithmetic of sectors and clusters

  // i / CLUSTER_SIZE and i % CLUSTER_SIZE, in sectors.
  lemma ClusterOfByte(v: Volume, i: nat)
    requires 0 < v.spc
    ensures i / ClusterSize(v) == i / SECTOR / v.spc
    ensures i % SECTOR == 0 ==> (i % ClusterSize(v) == 0 <==> i / SECTOR % v.spc == 0)
  {
    var q, cs, spc: nat := i / SECTOR, ClusterSize(v), v.spc;
    DivDiv(i, SECTOR, spc);
    Quotient(i, cs);
    Remainder(i, cs, i / cs);
    Quotient(q, spc);
    Remainder(q, spc, q / spc);
    Associate(q / spc, spc, SECTOR);
  }

  lemma NextSectorCluster(q: nat, spc: nat)
    requires 0 < spc && 0 < q
    ensures q / spc == (q - 1) / spc + if q % spc == 0 then 1 else 0
  {
    var k := (q - 1) / spc;
    Quotient(q - 1, spc);
    if q == k * spc + spc {
      Distribute(k, 1, spc);
      QuotientUnique(q, spc, k + 1);
      Remainder(q, spc, k + 1);
    } else {
      QuotientUnique(q, spc, k);
      Remainder(q, spc, k);
    }
  }

  // ---- The root directory

  const ENTRY: nat := 32

  // Entry n of the root directory: its place does not depend on the cluster size.
  function RootEntry(v: Volume, im: Image, n: nat): (r: Option<seq<u8>>)
    ensures r.Some? ==> |r.value| == ENTRY
  {
    if FirstRootSector(v) + n / 16 < |im|
    then Some(im[FirstRootSector(v) + n / 16][ENTRY * (n % 16)..ENTRY * (n % 16) + ENTRY]) else None
  }

  // The loader's place for it: cluster, sector of the cluster, slot.
  function LoaderEntrySector(v: Volume, n: nat): Option<nat>
    requires 0 < v.spc
  {
    var steps := n * ENTRY / ClusterSize(v);
    if steps >= RootClusters(v) then None
    else ClusterSector(v, (2 + steps) % 0x1_0000, n * ENTRY / SECTOR % v.spc)
  }

  // The entries the loader can reach: those in whole clusters.
  function Reach(v: Volume): nat
    requires 0 < v.spc
  {
    16 * (v.spc * RootClusters(v))
  }

  lemma RootClustersSmall(v: Volume)
    requires 0 < v.spc
    ensures RootClusters(v) <= 4095
  {
  }

  lemma WithinClusters(q: nat, spc: nat, rc: nat)
    requires 0 < spc
    ensures q / spc * spc + q % spc == q && q % spc < spc
    ensures q / spc < rc <==> q < spc * rc
  {
    var steps := q / spc;
    Quotient(q, spc);
    Remainder(q, spc, steps);
    if steps < rc {
      MulLe(steps + 1, rc, spc);
      Distribute(steps, 1, spc);
    } else {
      MulLe(rc, steps, spc);
    }
  }

  lemma Sixteens(n: nat, m: nat)
    ensures n < 16 * m <==> n / 16 < m
  {
  }

  lemma EntryCluster(v: Volume, n: nat)
    requires 0 < v.spc
    ensures n * ENTRY / ClusterSize(v) == n / 16 / v.spc && n * ENTRY / SECTOR == n / 16
  {
    DivDiv(n * ENTRY, SECTOR, v.spc);
  }

  lemma SectorOfEntryCluster(v: Volume, steps: nat, r: nat)
    requires steps < 0x1_0000 - 2 && r < v.spc
    ensures ClusterSector(v, 2 + steps, r) == Some(steps * v.spc + FirstRootSector(v) + r)
  {
  }

  /** For every cluster size, an entry within reach is found in sector n / 16 of the root
      directory, and an entry out of reach is not found at all. */
  lemma EntryPlace(v: Volume, n: nat)
    requires 0 < v.spc
    ensures LoaderEntrySector(v, n) == if n < Reach(v) then Some(FirstRootSector(v) + n / 16) else None
  {
    var q, spc: nat, rc := n / 16, v.spc, RootClusters(v);
    EntryCluster(v, n);
    WithinClusters(q, spc, rc);
    Sixteens(n, spc * rc);
    if q / spc < rc {
      RootClustersSmall(v);
      SectorOfEntryCluster(v, q / spc, q % spc);
    }
  }

  lemma ReachWithinTable(v: Volume)
    requires 0 < v.spc
    ensures Reach(v) <= v.maxRoot
  {
  }

  /** With a whole-cluster root directory every entry is within reach. */
  lemma WholeRootReachesAll(v: Volume)
    requires 0 < v.spc && WholeRoot(v)
    ensures Reach(v) == v.maxRoot
  {
  }

  predicate IsEnd(e: seq<u8>) { |e| == ENTRY && e[0] == 0 }
  predicate IsUnused(e: seq<u8>) { |e| == ENTRY && e[0] == 0xe5 }
  predicate HasLongName(e: seq<u8>) { |e| == ENTRY && e[11] % 16 == 15 }

  // A live entry under its short name; isFile stands for the comparison of the 11 name bytes.
  predicate Matches(e: seq<u8>, isFile: seq<u8> -> bool) {
    |e| == ENTRY && !IsUnused(e) && !HasLongName(e) && isFile(e[..11])
  }

  /** The directory begins behind the tables, with 32 bytes for each entry. */
  lemma RootEntryIs(v: Volume, im: Image, n: nat, k: nat)
    requires k < 32
    ensures var a := 512 * FirstRootSector(v) + 32 * n + k;
      match RootEntry(v, im, n)
      case None => ByteOf(im, a).None?
      case Some(e) => ByteOf(im, a) == Some(e[k])
  {
    InSector(FirstRootSector(v) + n / 16, 32 * (n % 16) + k);
  }

  /** The scan goes on behind an entry that begins with the byte 229, one that belongs to a long name,
      and any other whose name does not match; not behind one that begins with 0. */
  lemma PassedOverIff(v: Volume, im: Image, isFile: seq<u8> -> bool, j: nat, e: seq<u8>)
    requires RootEntry(v, im, j) == Some(e)
    ensures PassedOver(v, im, isFile, j) <==> e[0] != 0 && (e[0] == 229 || HasLongName(e) || !isFile(e[..11]))
    ensures FindFrom(v, im, isFile, j, j + 1) == Some(j) <==>
            e[0] != 0 && e[0] != 229 && !HasLongName(e) && isFile(e[..11])
  {
  }

  /** The attributes of such an entry, in byte 11: read-only, hidden, system and label. */
  lemma LongNameIff(e: seq<u8>, readOnly: nat, hidden: nat, system: nat, volume: nat, rest: nat)
    requires |e| == 32 && readOnly <= 1 && hidden <= 1 && system <= 1 && volume <= 1
    requires e[11] == readOnly + 2 * hidden + 4 * system + 8 * volume + 16 * rest
    ensures HasLongName(e) <==> readOnly == 1 && hidden == 1 && system == 1 && volume == 1
  {
  }

  // The scan of the directory from entry i, up to limit.
  function FindFrom(v: Volume, im: Image, isFile: seq<u8> -> bool, i: nat, limit: nat): (r: Option<nat>)
    ensures r.Some? ==> i <= r.value < limit && RootEntry(v, im, r.value).Some?
    decreases limit - i
  {
    if i >= limit then None else
      match RootEntry(v, im, i)
      case None => None
      case Some(e) =>
        if IsEnd(e) then None
        else if Matches(e, isFile) then Some(i)
        else FindFrom(v, im, isFile, i + 1, limit)
  }

  // Entry j is neither missing, nor the end marker, nor a match.
  predicate PassedOver(v: Volume, im: Image, isFile: seq<u8> -> bool, j: nat) {
    match RootEntry(v, im, j)
    case None => false
    case Some(e) => !IsEnd(e) && !Matches(e, isFile)
  }

  // Where the scan stops.
  function StopIndex(v: Volume, im: Image, isFile: seq<u8> -> bool, i: nat, limit: nat): nat
    decreases limit - i
  {
    if i >= limit || !PassedOver(v, im, isFile, i) then i else StopIndex(v, im, isFile, i + 1, limit)
  }

  /** The scan returns the first live match before the end marker, or nothing. */
  lemma {:induction false} FindIsFirst(v: Volume, im: Image, isFile: seq<u8> -> bool, i: nat, limit: nat)
    requires i <= limit
    ensures var s := StopIndex(v, im, isFile, i, limit);
            && i <= s <= limit && (forall j | i <= j < s :: PassedOver(v, im, isFile, j))
            && (s < limit ==> !PassedOver(v, im, isFile, s))
            && FindFrom(v, im, isFile, i, limit) ==
               if s < limit && RootEntry(v, im, s).Some? && !IsEnd(RootEntry(v, im, s).value) then Some(s) else None
    decreases limit - i
  {
    if i < limit && PassedOver(v, im, isFile, i) {
      FindIsFirst(v, im, isFile, i + 1, limit);
    }
  }

  // ---- The bytes of a file

  // clu_num while the loop reads sector q of the file; None when the loop has given up.
  function CluAt(v: Volume, im: Image, n: u16, q: nat): Option<u16>
    requires 0 < v.spc
  {
    if q == 0 then Some((n + RootClusters(v)) % 0x1_0000) else
      match CluAt(v, im, n, q - 1)
      case None => None
      case Some(c) => if q % v.spc == 0 then Onward(NextClu(v, im, c)) else Some(c)
  }

  // The sector the loop reads as sector q of the file; None when it gives up or the read fails.
  function LoaderSector(v: Volume, im: Image, n: u16, q: nat): (r: Option<nat>)
    requires 0 < v.spc
    ensures r.Some? ==> r.value < |im|
  {
    match CluAt(v, im, n, q)
    case None => None
    case Some(c) => SectorWithin(v, im, c, q % v.spc)
  }

  function SectorWithin(v: Volume, im: Image, c: u16, p: nat): (r: Option<nat>)
    ensures r.Some? ==> r.value < |im|
  {
    match ClusterSector(v, c, p)
    case None => None
    case Some(sec) => if sec < |im| then Some(sec) else None
  }

  lemma {:induction false} CluAtIsLoaderCluster(v: Volume, im: Image, n: u16, q: nat)
    requires 0 < v.spc
    ensures CluAt(v, im, n, q) == LoaderCluster(v, im, n, q / v.spc)
  {
    if q != 0 {
      CluAtIsLoaderCluster(v, im, n, q - 1);
      NextSectorCluster(q, v.spc);
    }
  }

  // The loader finds a sector for each of the first max bytes.
  ghost predicate AllFound(v: Volume, im: Image, n: u16, max: nat)
    requires 0 < v.spc
  {
    forall q | 0 <= q < (max + SECTOR - 1) / SECTOR :: LoaderSector(v, im, n, q).Some?
  }

  // Sector q of the file by the plain layout.
  function PlainFileSector(v: Volume, im: Image, n: u16, q: nat): Option<nat>
    requires 0 < v.spc
  {
    match PlainCluster(v, im, n, q / v.spc)
    case None => None
    case Some(c) => PlainSectorWithin(v, im, c, q % v.spc)
  }

  function PlainSectorWithin(v: Volume, im: Image, c: u16, p: nat): Option<nat> {
    var sec: int := PlainSector(v, c) + p;
    if 0 <= sec < |im| then Some(sec) else None
  }

  function PlainByte(v: Volume, im: Image, n: u16, i: nat): Option<u8>
    requires 0 < v.spc
  {
    match PlainFileSector(v, im, n, i / SECTOR)
    case None => None
    case Some(sec) => Some(im[sec][i % SECTOR])
  }

  /** Byte r of the k-th cluster of a file is byte r of that cluster on the volume. */
  lemma PlainByteIs(v: Volume, im: Image, n: u16, k: nat, r: nat, i: nat, c: u16, a: nat)
    requires 0 < v.spc && r < 512 * v.spc && i == k * (512 * v.spc) + r
    requires PlainCluster(v, im, n, k) == Some(c) && 2 <= c && a == 512 * PlainSector(v, c) + r
    ensures PlainByte(v, im, n, i) == ByteOf(im, a)
  {
    var spc: nat := v.spc;
    MulLe(0, c - 2, spc);
    WithinCluster(k, r, spc);
    InSector(PlainSector(v, c) + r / 512, r % 512);
  }

  lemma WithinCluster(k: nat, r: nat, spc: nat)
    requires r < 512 * spc
    ensures var i := k * (512 * spc) + r;
      0 < spc && i / 512 / spc == k && i / 512 % spc == r / 512 && i % 512 == r % 512
  {
    var i, q := k * (512 * spc) + r, k * spc + r / 512;
    Associate(k, spc, 512);
    QuotientUnique(i, 512, q);
    Remainder(i, 512, q);
    QuotientUnique(q, spc, k);
    Remainder(q, spc, k);
  }

  function LoaderByte(v: Volume, im: Image, n: u16, i: nat): Option<u8>
    requires 0 < v.spc
  {
    match LoaderSector(v, im, n, i / SECTOR)
    case None => None
    case Some(sec) => Some(im[sec][i % SECTOR])
  }

  lemma LoaderSectorIsPlain(v: Volume, im: Image, n: u16, q: nat)
    requires 0 < v.spc && PlainCluster(v, im, n, q / v.spc).Some? && ReadsRight(v, im, n, q / v.spc)
    ensures LoaderSector(v, im, n, q) == PlainFileSector(v, im, n, q)
  {
    Quotient(q, v.spc);
    CluAtIsLoaderCluster(v, im, n, q);
    var k: nat := q / v.spc;
    WithinIsPlain(v, im, LoaderCluster(v, im, n, k).value, PlainCluster(v, im, n, k).value, q % v.spc);
  }

  lemma WithinIsPlain(v: Volume, im: Image, c: u16, plain: u16, p: nat)
    requires p < v.spc && 2 <= c && Clu2Rsec(v, c - 2) == PlainSector(v, plain)
    ensures SectorWithin(v, im, c, p) == PlainSectorWithin(v, im, plain, p)
  {
  }

  /** On the volumes the loader is right for, every byte is the byte of the plain layout. */
  lemma LoaderByteIsPlain(v: Volume, im: Image, n: u16, i: nat)
    requires 0 < v.spc && WholeRoot(v) && n + RootClusters(v) < 0x1_0000
    requires ChainReaches(v, im, n, i / ClusterSize(v)) && (i < ClusterSize(v) || RootClusters(v) == 8)
    ensures LoaderByte(v, im, n, i) == PlainByte(v, im, n, i)
  {
    var k := i / ClusterSize(v);
    ClusterOfByte(v, i);
    if i < ClusterSize(v) { QuotientUnique(i, ClusterSize(v), 0); }
    LoadsRightIff(v, im, n, k);
    assert ReadsRight(v, im, n, k);
    LoaderSectorIsPlain(v, im, n, i / SECTOR);
  }

  /** A file whose first max bytes the plain layout defines, on a volume the loader is
      right for: the chain is long enough and its sectors are there. */
  ghost predicate Sound(v: Volume, im: Image, n: u16, max: nat)
    requires 0 < v.spc
  {
    && WholeRoot(v) && n + RootClusters(v) < 0x1_0000
    && (RootClusters(v) == 8 || max <= ClusterSize(v))
    && (0 < max ==> ChainReaches(v, im, n, (max - 1) / ClusterSize(v)))
    && forall q | 0 <= q < (max + SECTOR - 1) / SECTOR :: PlainFileSector(v, im, n, q).Some?
  }

  /** For one, a file of at most one cluster, if the cluster is on the volume. */
  lemma OneClusterIsSound(v: Volume, im: Image, n: u16, max: nat)
    requires 0 < v.spc && WholeRoot(v) && 2 <= n <= 0xfff6 && n + RootClusters(v) < 0x1_0000
    requires max <= 512 * v.spc && PlainSector(v, n) + v.spc <= |im|
    ensures Sound(v, im, n, max)
  {
    if 0 < max {
      QuotientUnique(max - 1, ClusterSize(v), 0);
      assert PlainCluster(v, im, n, 0) == Some(n);
    }
    forall q | 0 <= q < (max + SECTOR - 1) / SECTOR ensures PlainFileSector(v, im, n, q).Some? {
      assert q < v.spc;
      QuotientUnique(q, v.spc, 0);
      Remainder(q, v.spc, 0);
      MulLe(0, n - 2, v.spc);
      assert PlainSectorWithin(v, im, n, q).Some?;
    }
  }

  lemma SoundByte(v: Volume, im: Image, n: u16, max: nat, i: nat)
    requires 0 < v.spc && Sound(v, im, n, max) && i < max
    ensures LoaderByte(v, im, n, i) == PlainByte(v, im, n, i) && PlainByte(v, im, n, i).Some?
  {
    DivMonotone(i, max - 1, ClusterSize(v));
    assert i / SECTOR < (max + SECTOR - 1) / SECTOR;
    LoaderByteIsPlain(v, im, n, i);
  }

  lemma SoundIsFound(v: Volume, im: Image, n: u16, max: nat)
    requires 0 < v.spc && Sound(v, im, n, max)
    ensures AllFound(v, im, n, max)
  {
    forall q | 0 <= q < (max + SECTOR - 1) / SECTOR ensures LoaderSector(v, im, n, q).Some? {
      var i := SECTOR * q;
      assert i < max && i / SECTOR == q;
      SoundByte(v, im, n, max, i);
    }
  }
}
