/** drivers/fat16.c. One sector buffer serves directory, FAT and data reads. */
module Fat16 {
  import opened Words
  import opened Arith
  import opened Disk
  import opened Fat16Model
  import opened Strings
  import ShortName

  class Fat16 {
    const drive: Drive<Sector>
    const partitions: seq<Option<Partition>>   // the four slots of the MBR
    const buf: array<u8>                       // _buf_sec
    var partitionNum: nat
    var startingCluSec: u32
    var startingFatSec: u32
    var vid: Volume
    ghost var im: Image                        // the sectors of the chosen partition

    constructor (drive: Drive<Sector>, partitions: seq<Option<Partition>>)
      requires |partitions| == 4
      ensures this.drive == drive && this.partitions == partitions && buf.Length == SECTOR && fresh(buf)
    {
      this.drive, this.partitions := drive, partitions;
      buf := new u8[SECTOR](_ => 0);
      partitionNum, startingCluSec, startingFatSec, vid, im := 0, 0, 0, Volume(0, 0, 0, 0, 0), [];
    }

    // im is the chosen partition's sectors, all of which can be read.
    ghost predicate OnDisk()
      reads this
    {
      && buf.Length == SECTOR && drive.Geometric() && |partitions| == 4 && partitionNum < 4
      && IsContent(drive, partitions[partitionNum], im)
    }

    ghost predicate Mounted()
      reads this
    {
      && OnDisk() && 0 < |im| && vid == VolumeId(im[0]) && 0 < vid.spc
      && startingCluSec == FirstRootSector(vid) && startingFatSec == vid.reserved
    }

    // hdd_read_sector into the shared buffer
    method ReadSector(sec: u32) returns (ok: bool)
      requires OnDisk()
      modifies buf
      ensures ok <==> sec < |im|
      ensures buf[..] == if ok then im[sec] else old(buf[..])
    {
      var part := partitions[partitionNum];
      var r := ReadPartition(drive, part, sec);
      ok := r.Some?;
      if ok {
        forall i | 0 <= i < SECTOR { buf[i] := r.value[i]; }
        assert buf[..] == r.value;
      }
    }

    /** fat16_init: it fails for a partition that does not exist or is empty, and reads the
        volume's layout otherwise. */
    method Init(num: nat) returns (code: int)
      requires buf.Length == SECTOR && drive.Geometric() && |partitions| == 4
      requires forall p | p in partitions :: ReadsWhole(drive, p)
      modifies this, buf
      ensures code == 0 <==> num < 4 && partitions[num].Some? && 0 < partitions[num].value.numSecs
      ensures code == 0 ==> partitionNum == num && OnDisk() && 0 < |im| && (0 < VolumeId(im[0]).spc ==> Mounted())
    {
      if num >= 4 { return 1; }
      partitionNum := num;
      im := Content(drive, partitions[num]);
      var ok := ReadSector(0);
      if !ok { return 1; }
      vid := VolumeId(buf[..]);
      startingCluSec := Product(vid.numFats, vid.spf) + vid.reserved;
      startingFatSec := vid.reserved;
      return 0;
    }

    function Product(a: u8, b: u16): (p: nat)
      ensures p == a * b <= 0xff * 0xffff
    {
      MulLe(a, 0xff, b);
      var p: int := a * b;
      p
    }

    // _read_cluster_sec
    method ReadClusterSec(clu: u16, sec: nat) returns (ok: bool)
      requires Mounted()
      modifies buf
      ensures ok <==> ClusterSector(vid, clu, sec).Some? && ClusterSector(vid, clu, sec).value < |im|
      ensures ok ==> buf[..] == im[ClusterSector(vid, clu, sec).value]
    {
      if clu < 2 { return false; }
      if sec >= vid.spc { return false; }
      ok := ReadSector(Clu2Rsec(vid, clu - 2) + sec);
    }

    // _fat_get_next_clu_num
    method FatGetNextCluNum(clu: u16) returns (next: u16)
      requires Mounted()
      modifies buf
      ensures next == NextClu(vid, im, clu)
    {
      RootClustersSmall(vid);
      var rc: nat := RootClusters(vid);
      if clu < 2 + rc { return 0xffff; }
      var entry := ReadFatEntry(clu - rc);
      next := if entry.Some? then entry.value else 0xffff;
    }

    // The entry of the table, through the shared buffer.
    method ReadFatEntry(c: u16) returns (entry: Option<u16>)
      requires Mounted()
      modifies buf
      ensures entry == FatEntry(vid, im, c)
    {
      var ok := ReadSector(startingFatSec + c / 256);
      entry := if ok then Some(Word(buf[..], 2 * (c % 256))) else None;
    }

    // _rootdir_get_entry_num: the offset of the entry in the buffer
    method RootdirGetEntryNum(num: nat) returns (off: Option<nat>)
      requires Mounted() && num < 0x1_0000
      modifies buf
      ensures off.Some? <==> num < Reach(vid) && RootEntry(vid, im, num).Some?
      ensures off.Some? ==>
        off.value <= SECTOR - ENTRY && buf[off.value..off.value + ENTRY] == RootEntry(vid, im, num).value
    {
      EntryPlace(vid, num);
      RootClustersSmall(vid);
      var steps := num * ENTRY / ClusterSize(vid);
      if steps >= RootClusters(vid) { return None; }
      var rsec := num * ENTRY / SECTOR % vid.spc;
      var rentry := num % (SECTOR / ENTRY);
      var ok := ReadClusterSec((2 + steps) % 0x1_0000, rsec);
      if !ok { return None; }
      return Some(ENTRY * rentry);
    }

    /** _rootdir_find_entry: the first live match among the entries within reach; the buffer
        is left holding it. */
    method RootdirFindEntry(filename: string) returns (off: Option<nat>)
      requires Mounted() && IsCString(filename)
      modifies buf
      ensures off.Some? <==> Find(filename).Some?
      ensures off.Some? ==>
        off.value <= SECTOR - ENTRY &&
          Some(buf[off.value..off.value + ENTRY]) == RootEntry(vid, im, Find(filename).value)
    {
      ReachWithinTable(vid);
      for i := 0 to vid.maxRoot
        invariant Find(filename) == FindFrom(vid, im, ShortName.Test(filename), i, Reach(vid))
      {
        var stop;
        stop, off := VisitEntry(i, filename);
        if stop { return; }
      }
      return None;
    }

    // One turn of the scan: it stops at an entry that cannot be had, the end marker or a match.
    method VisitEntry(i: nat, filename: string) returns (stop: bool, off: Option<nat>)
      requires Mounted() && IsCString(filename) && i < 0x1_0000
      modifies buf
      ensures var n := FindFrom(vid, im, ShortName.Test(filename), i, Reach(vid));
        if stop then
          && (off.Some? <==> n.Some?)
          && (off.Some? ==>
                off.value <= SECTOR - ENTRY && Some(buf[off.value..off.value + ENTRY]) == RootEntry(vid, im, n.value))
        else n == FindFrom(vid, im, ShortName.Test(filename), i + 1, Reach(vid))
    {
      off := RootdirGetEntryNum(i);
      if off.None? { return true, None; }
      var de := buf[off.value..off.value + ENTRY];
      if IsEnd(de) { return true, None; }
      if IsUnused(de) { return false, None; }
      if HasLongName(de) { return false, None; }
      stop := ShortName.DirEntryIsFilename(de[..11], filename);
    }

    // The number of the file's entry.
    ghost function Find(filename: string): (n: Option<nat>)
      requires Mounted()
      reads this
      ensures n.Some? ==> RootEntry(vid, im, n.value).Some?
    {
      FindFrom(vid, im, ShortName.Test(filename), 0, Reach(vid))
    }

    // What the directory says of the file: starting cluster and size.
    ghost function Entry(filename: string): Option<seq<u8>>
      requires Mounted()
      reads this
    {
      match Find(filename)
      case None => None
      case Some(n) => RootEntry(vid, im, n)
    }

    // The bytes wanted of a file: all, or as many as the buffer takes.
    ghost predicate Loads(filename: string, bufSize: nat)
      requires Mounted() && Entry(filename).Some?
      reads this
    {
      AllFound(vid, im, StartOf(Entry(filename).value), Wanted(Entry(filename).value, bufSize))
    }

    /** fat16_load. It succeeds when the file has an entry and the loader finds a sector for each
        of the bytes wanted; then they are in the buffer. On a sound volume it succeeds, with the
        bytes of the plain layout. Whatever happens, nothing behind them is touched. Their number
        is returned as a signed word. */
    method Load(filename: string, dst: array<u8>, bufSize: nat) returns (r: int)
      requires Mounted() && IsCString(filename) && dst != buf && bufSize <= dst.Length
      modifies buf, dst
      ensures Entry(filename).None? ==> r == -1 && dst[..] == old(dst[..])
      ensures Entry(filename).Some? ==>
        var max := Wanted(Entry(filename).value, bufSize);
        var start := StartOf(Entry(filename).value);
        && r == (if Loads(filename, bufSize) then Signed(max) else -1)
        && (Loads(filename, bufSize) ==> forall i | 0 <= i < max :: LoaderByte(vid, im, start, i) == Some(dst[i]))
        && (Sound(vid, im, start, max) ==>
              Loads(filename, bufSize) && forall i | 0 <= i < max :: PlainByte(vid, im, start, i) == Some(dst[i]))
        && dst[max..] == old(dst[max..])
    {
      var de := RootdirFindEntry(filename);
      if de.None? { return -1; }
      var e := buf[de.value..de.value + ENTRY];
      var n := LoadEntry(e, dst, Wanted(e, bufSize));
      r := if n == -1 then -1 else Signed(n);
      SoundCopy(StartOf(e), Wanted(e, bufSize));
    }

    method LoadEntry(e: seq<u8>, dst: array<u8>, max: nat) returns (r: int)
      requires Mounted() && dst != buf && |e| == ENTRY && max <= dst.Length
      modifies buf, dst
      ensures r == if AllFound(vid, im, StartOf(e), max) then max else -1
      ensures r == max ==> forall i | 0 <= i < max :: LoaderByte(vid, im, StartOf(e), i) == Some(dst[i])
      ensures dst[max..] == old(dst[max..])
    {
      RootClustersSmall(vid);
      var cluNum: u16 := (StartOf(e) + RootClusters(vid)) % 0x1_0000;
      r := CopyFile(StartOf(e), cluNum, dst, max);
    }

    // On a sound volume what the loader finds is what the plain layout says.
    lemma SoundCopy(start: u16, max: nat)
      requires Mounted()
      ensures Sound(vid, im, start, max) ==>
                && AllFound(vid, im, start, max)
                && forall i | 0 <= i < max :: PlainByte(vid, im, start, i) == LoaderByte(vid, im, start, i)
    {
      if Sound(vid, im, start, max) {
        SoundIsFound(vid, im, start, max);
        forall i | 0 <= i < max ensures PlainByte(vid, im, start, i) == LoaderByte(vid, im, start, i) {
          SoundByte(vid, im, start, max, i);
        }
      }
    }

    // Byte i is next: it lies behind the first psec bytes of sector q, which is in the buffer,
    // or, if psec is a whole sector, at the start of the sector after it.
    ghost predicate Positioned(start: u16, i: nat, cluNum: u16, psec: nat, q: nat)
      requires Mounted()
      reads this, buf
    {
      && CluAt(vid, im, start, q) == Some(cluNum)
      && if i == 0 then q == 0 else i == SECTOR * q + psec && 0 < psec <= SECTOR && InBuffer(start, q)
    }

    // Byte i is byte psec of sector q, which is in the buffer.
    ghost predicate Ready(start: u16, i: nat, cluNum: u16, psec: nat, q: nat)
      requires Mounted()
      reads this, buf
    {
      CluAt(vid, im, start, q) == Some(cluNum) && i == SECTOR * q + psec && psec < SECTOR && InBuffer(start, q)
    }

    method Refill(ghost start: u16, i: nat, cluNum0: u16, psec0: nat, ghost q0: nat)
      returns (ok: bool, cluNum: u16, psec: nat, ghost q: nat)
      requires Mounted() && Positioned(start, i, cluNum0, psec0, q0)
      modifies buf
      ensures if ok then Ready(start, i, cluNum, psec, q) else LoaderSector(vid, im, start, i / SECTOR).None?
    {
      ok, cluNum, psec, q := true, cluNum0, psec0, q0;
      if i != 0 { SectorBoundary(i, q, psec); }
      if i % SECTOR == 0 {
        q := if i == 0 then 0 else q + 1;
        ok, cluNum := UpdateSector(start, cluNum, i, q);
        psec := 0;
      }
    }

    // The body of the loop, but for the store to dst.
    method NextByte(ghost start: u16, i: nat, cluNum0: u16, psec0: nat, ghost q0: nat)
      returns (ok: bool, b: u8, cluNum: u16, psec: nat, ghost q: nat)
      requires Mounted() && Positioned(start, i, cluNum0, psec0, q0)
      modifies buf
      ensures ok ==> Positioned(start, i + 1, cluNum, psec, q)
      ensures Bytes(start)(i) == if ok then Some(b) else None
    {
      assert Bytes(start)(i) == LoaderByte(vid, im, start, i);
      b := 0;
      ok, cluNum, psec, q := Refill(start, i, cluNum0, psec0, q0);
      if ok {
        ByteInBuffer(start, q, psec);
        b := buf[psec];
        psec := psec + 1;
      }
    }

    // The bytes the loader delivers, by their number.
    ghost function Bytes(start: u16): nat -> Option<u8>
      requires Mounted()
      reads this
    {
      var v, im := vid, im;
      (i: nat) => LoaderByte(v, im, start, i)
    }

    lemma FoundIffBytes(start: u16, max: nat)
      requires Mounted()
      ensures AllFound(vid, im, start, max) <==> forall j: nat | j < max :: Bytes(start)(j).Some?
    {
      if forall j: nat | j < max :: Bytes(start)(j).Some? {
        forall q | 0 <= q < (max + SECTOR - 1) / SECTOR ensures LoaderSector(vid, im, start, q).Some? {
          assert SECTOR * q / SECTOR == q;
          assert Bytes(start)(SECTOR * q).Some?;
        }
      }
    }

    method CopyFile(ghost start: u16, firstClu: u16, dst: array<u8>, max: nat) returns (r: int)
      requires Mounted() && dst != buf && max <= dst.Length && CluAt(vid, im, start, 0) == Some(firstClu)
      modifies buf, dst
      ensures r == if AllFound(vid, im, start, max) then max else -1
      ensures r == max ==> forall i | 0 <= i < max :: LoaderByte(vid, im, start, i) == Some(dst[i])
      ensures forall j | max <= j < dst.Length :: dst[j] == old(dst[j])
    {
      FoundIffBytes(start, max);
      r := CopyBytes(start, firstClu, dst, max, Bytes(start));
      if r == max {
        assert forall i: nat | i < max :: Bytes(start)(i) == Some(dst[..max][i]);
      }
    }

    method CopyBytes(ghost start: u16, firstClu: u16, dst: array<u8>, max: nat, ghost want: nat -> Option<u8>)
      returns (r: int)
      requires Mounted() && dst != buf && max <= dst.Length && CluAt(vid, im, start, 0) == Some(firstClu)
      requires want == Bytes(start)
      modifies buf, dst
      ensures r == (if forall j: nat | j < max :: want(j).Some? then max else -1)
      ensures r == max ==> Copied(want, dst[..max])
      ensures forall j | max <= j < dst.Length :: dst[j] == old(dst[j])
    {
      var cluNum, i, psec := firstClu, 0, 0;
      ghost var q := 0;   // the sector of the file in the buffer
      while i < max
        invariant 0 <= i <= max && Mounted() && want == Bytes(start) && Positioned(start, i, cluNum, psec, q)
        invariant Copied(want, dst[..i])
        invariant forall j | max <= j < dst.Length :: dst[j] == old(dst[j])
      {
        var ok, b;
        ok, b, cluNum, psec, q := NextByte(start, i, cluNum, psec, q);
        if !ok { return -1; }
        ghost var done := dst[..i];
        dst[i] := b;
        CopiedSnoc(want, done, b);
        assert dst[..i + 1] == done + [b];
        i := i + 1;
      }
      r := i;
    }

    lemma ByteInBuffer(start: u16, q: nat, p: nat)
      requires Mounted() && InBuffer(start, q) && p < SECTOR && buf.Length == SECTOR
      ensures LoaderByte(vid, im, start, SECTOR * q + p) == Some(buf[p])
    {
    }

    ghost predicate InBuffer(start: u16, q: nat)
      requires Mounted()
      reads this, buf
    {
      LoaderSector(vid, im, start, q).Some? && buf[..] == im[LoaderSector(vid, im, start, q).value]
    }

    // The part of the loop that runs at a sector boundary: the next cluster at a cluster
    // boundary, then the sector. q is the number of the sector.
    method UpdateSector(ghost start: u16, cluNum: u16, i: nat, ghost q: nat) returns (ok: bool, clu: u16)
      requires Mounted() && i == SECTOR * q && CluAt(vid, im, start, if q == 0 then 0 else q - 1) == Some(cluNum)
      modifies buf
      ensures ok <==> LoaderSector(vid, im, start, q).Some?
      ensures ok ==> InBuffer(start, q) && CluAt(vid, im, start, q) == Some(clu)
    {
      clu := cluNum;
      ClusterOfByte(vid, i);
      var rsecNum := i / SECTOR % vid.spc;
      if i != 0 && i % ClusterSize(vid) == 0 {
        clu := FatGetNextCluNum(clu);
        if clu == 0 || clu == 0xffff { return false, clu; }
        clu := (clu + 8) % 0x1_0000;
      }
      assert CluAt(vid, im, start, q) == Some(clu);
      ok := ReadClusterSec(clu, rsecNum);
    }
  }

  lemma SectorBoundary(i: nat, q: nat, psec: nat)
    requires i == SECTOR * q + psec && 0 < psec <= SECTOR
    ensures i % SECTOR == 0 <==> psec == SECTOR
    ensures psec == SECTOR ==> i == SECTOR * (q + 1) && i / SECTOR == q + 1
  {
  }

  ghost predicate Copied(want: nat -> Option<u8>, s: seq<u8>) {
    forall j: nat | j < |s| :: want(j) == Some(s[j])
  }

  lemma CopiedSnoc(want: nat -> Option<u8>, s: seq<u8>, b: u8)
    requires Copied(want, s) && want(|s|) == Some(b)
    ensures Copied(want, s + [b])
  {
  }

  function StartOf(e: seq<u8>): u16
    requires |e| == ENTRY
  {
    var lo: int, hi: int := e[26], e[27];
    lo + 0x100 * hi
  }

  function SizeOf(e: seq<u8>): u32
    requires |e| == ENTRY
  {
    var b0: int, b1: int, b2: int, b3: int := e[28], e[29], e[30], e[31];
    b0 + 0x100 * b1 + 0x1_0000 * b2 + 0x100_0000 * b3
  }

  function Wanted(e: seq<u8>, bufSize: nat): (n: nat)
    requires |e| == ENTRY
    ensures n < TWO32
  {
    if SizeOf(e) < bufSize then SizeOf(e) else bufSize
  }

  /** An entry holds the first cluster in bytes 26 and 27 and the size in bytes 28 to 31, low bytes
      first; as much is wanted as the buffer takes. */
  lemma EntryFieldsAre(e: seq<u8>, start: u16, size: u32, bufSize: nat)
    requires |e| == 32 && e[26] == start % 256 && e[27] == start / 256
    requires e[28] == size % 256 && e[29] == size / 256 % 256
    requires e[30] == size / 65536 % 256 && e[31] == size / 16777216
    ensures StartOf(e) == start && SizeOf(e) == size
    ensures Wanted(e, bufSize) <= size && Wanted(e, bufSize) <= bufSize
    ensures Wanted(e, bufSize) == size || Wanted(e, bufSize) == bufSize
  {
    FourBytes(start);
    FourBytes(size);
  }

  lemma FourBytes(n: nat)
    ensures n == n % 256 + 256 * (n / 256)
    ensures n == n % 256 + 256 * (n / 256 % 256) + 65536 * (n / 65536 % 256) + 16777216 * (n / 16777216)
  {
    var q, r := n / 256, n / 65536;
    assert r == q / 256 && n / 16777216 == r / 256;
  }
}
