/** drivers/ata.c and drivers/hdd.c: from a sector of a partition to a cylinder, head and
    sector of the drive; and utils/mk.inc_hdd.c, which writes the image the driver's test reads. */
module Disk {
  import opened Words
  import opened Arith

  // What IDENTIFY reports, and the sectors in the order of the drive: cylinder by
  // cylinder, head by head, sector by sector.
  datatype Drive<+S> = Drive(cylinders: u16, heads: u16, spt: u16, numSectors: u32, image: seq<S>) {
    predicate Geometric() {
      0 < heads && 0 < spt && 0 < heads * spt < 0x8000_0000
    }

    predicate InRange(p: Chs) {
      p.c < cylinders && p.h < heads && 1 <= p.s <= spt
    }

    function Index(p: Chs): int {
      (p.c * heads + p.h) * spt + p.s - 1
    }
  }

  datatype Chs = Chs(c: nat, h: nat, s: nat)

  // _lba2chs. The products are at most lba, so they do not wrap.
  function Lba2Chs<S>(d: Drive<S>, lba: u32): Option<Chs>
    requires d.Geometric()
  {
    if lba >= d.numSectors then None else Some(Split(lba, d.heads, d.spt))
  }

  function Split(lba: nat, heads: nat, spt: nat): Chs
    requires 0 < heads && 0 < spt && 0 < heads * spt
  {
    var c := lba / (heads * spt);
    var h := Sub(lba, c * (heads * spt)) / spt;
    Chs(c, h, Sub(Sub(lba, c * (heads * spt)), h * spt) + 1)
  }

  // A subtraction of 32-bit words that does not wrap (SplitFits).
  function Sub(a: nat, b: nat): nat {
    if b <= a then a - b else 0
  }

  /** The three quotients fit together, and no subtraction wraps. */
  lemma SplitFits(lba: nat, heads: nat, spt: nat)
    requires 0 < heads && 0 < spt && 0 < heads * spt
    ensures var p := Split(lba, heads, spt);
            && p.c * (heads * spt) <= lba && p.h * spt <= lba - p.c * (heads * spt)
            && p.h < heads && 1 <= p.s <= spt && (p.c * heads + p.h) * spt + p.s - 1 == lba
  {
    var p := Split(lba, heads, spt);
    Quotient(lba, heads * spt);
    var rest := lba - p.c * (heads * spt);
    Quotient(rest, spt);
    if heads <= p.h { MulLe(heads, p.h, spt); }
    Associate(p.c, heads, spt);
    Distribute(p.c * heads, p.h, spt);
  }

  lemma SplitOf(c: nat, h: nat, r: nat, heads: nat, spt: nat)
    requires 0 < heads && 0 < spt && 0 < heads * spt && h < heads && r < spt
    ensures Split((c * heads + h) * spt + r, heads, spt) == Chs(c, h, r + 1)
  {
    var lba := (c * heads + h) * spt + r;
    Associate(c, heads, spt);
    Distribute(c * heads, h, spt);
    MulLe(h + 1, heads, spt);
    Distribute(h, 1, spt);
    QuotientUnique(lba, heads * spt, c);
    QuotientUnique(lba - c * (heads * spt), spt, h);
  }

  /** Every sector number below the capacity has a place, its place in the drive's order. */
  lemma LbaHasPlace<S>(d: Drive<S>, lba: u32)
    requires d.Geometric() && lba < d.numSectors
    ensures match Lba2Chs(d, lba)
            case None => false
            case Some(p) => p.h < d.heads && 1 <= p.s <= d.spt && d.Index(p) == lba
  {
    SplitFits(lba, d.heads, d.spt);
  }

  /** And every in-range place below the capacity is the place of its sector number. */
  lemma PlaceHasLba<S>(d: Drive<S>, p: Chs)
    requires d.Geometric() && p.h < d.heads && 1 <= p.s <= d.spt && 0 <= d.Index(p) < d.numSectors
    ensures Lba2Chs(d, d.Index(p)) == Some(p)
  {
    SplitOf(p.c, p.h, p.s - 1, d.heads, d.spt);
  }

  // The registers of ata_read_sector_chs: eight bits of sector number, eight and two bits of cylinder.
  function Latched(p: Chs): Chs {
    Chs(p.c % 0x100 + 0x100 * (p.c / 0x100 % 4), p.h % 16, p.s % 0x100)
  }

  // ata_read_sector_chs; the drive answers with an error for a place it does not have.
  function ReadChs<S>(d: Drive<S>, p: Chs): Option<S>
    requires d.Geometric()
  {
    if p.c > 1023 || p.h > 15 || p.s < 1 || p.s > 256 then None else
      var q := Latched(p);
      if d.InRange(q) && 0 <= d.Index(q) < |d.image| then Some(d.image[d.Index(q)]) else None
  }

  function ReadLba<S>(d: Drive<S>, lba: u32): Option<S>
    requires d.Geometric()
  {
    match Lba2Chs(d, lba)
    case None => None
    case Some(p) => ReadChs(d, p)
  }

  // The image has one sector for each place, and the capacity lies within it.
  predicate Complete<S>(d: Drive<S>) {
    d.Geometric() && |d.image| == d.cylinders * d.heads * d.spt && d.numSectors <= |d.image|
  }

  // The places that the registers can name.
  predicate Nameable(p: Chs) { p.c <= 1023 && p.h <= 15 && p.s <= 255 }

  lemma CylinderInRange<S>(d: Drive<S>, p: Chs)
    requires Complete(d) && 1 <= p.s && d.Index(p) < d.numSectors
    ensures p.c < d.cylinders
  {
    if d.cylinders <= p.c {
      MulLe(d.cylinders * d.heads, p.c * d.heads + p.h, d.spt) by { MulLe(d.cylinders, p.c, d.heads); }
    }
  }

  lemma LatchedIs(p: Chs)
    requires p.c <= 1023 && p.h <= 15 && p.s <= 256
    ensures Latched(p) == if p.s == 256 then Chs(p.c, p.h, 0) else p
  {
    Quotient(p.c, 0x100);
    Remainder(p.c, 0x100, p.c / 0x100);
    Remainder(p.c / 0x100, 4, 0);
    Remainder(p.h, 16, 0);
    Remainder(p.s, 0x100, if p.s == 256 then 1 else 0);
  }

  /** Software LBA addressing reads the image in order, and fails exactly from the capacity on, from
      cylinder 1024 on, from head 16 on, and for sectors of a track from 256 on. */
  lemma ReadLbaExact<S>(d: Drive<S>, lba: u32)
    requires Complete(d)
    ensures var p := Split(lba, d.heads, d.spt);
      ReadLba(d, lba) ==
      if lba < d.numSectors && p.c < 1024 && p.h < 16 && p.s < 256 then Some(d.image[lba]) else None
  {
    if lba < d.numSectors {
      var p := Split(lba, d.heads, d.spt);
      LbaHasPlace(d, lba);
      CylinderInRange(d, p);
      if p.c <= 1023 && p.h <= 15 && p.s <= 256 { LatchedIs(p); }
    }
  }

  // The registers can name every place of the drive.
  predicate Addressable<S>(d: Drive<S>) {
    Complete(d) && d.cylinders <= 1024 && d.heads <= 16 && d.spt <= 255
  }

  /** On such a drive everything below the capacity can be read. */
  lemma AddressableReadsAll<S>(d: Drive<S>, lba: u32)
    requires Addressable(d)
    ensures ReadLba(d, lba) == if lba < d.numSectors then Some(d.image[lba]) else None
  {
    ReadLbaExact(d, lba);
    if lba < d.numSectors {
      LbaHasPlace(d, lba);
      CylinderInRange(d, Split(lba, d.heads, d.spt));
    }
  }

  /** The first sector of cylinder 1024, and the last sector of a track of 256, cannot be read. */
  lemma UnreadableSectors<S>(tall: Drive<S>, wide: Drive<S>)
    requires Complete(tall) && tall.heads == 1 && tall.spt == 1 && 1024 < tall.numSectors
    requires Complete(wide) && wide.heads == 1 && wide.spt == 256 && 255 < wide.numSectors
    ensures ReadLba(tall, 1024).None? && ReadLba(wide, 255).None?
  {
    assert Split(1024, 1, 1).c == 1024 && Split(255, 1, 256).s == 256;
    ReadLbaExact(tall, 1024);
    ReadLbaExact(wide, 255);
  }

  // ---- drivers/hdd.c

  datatype Partition = Partition(start: u32, numSecs: u32)

  function ReadPartition<S>(d: Drive<S>, p: Option<Partition>, rsec: u32): Option<S>
    requires d.Geometric()
  {
    if p.None? || rsec >= p.value.numSecs then None else ReadLba(d, (p.value.start + rsec) % TWO32)
  }

  /** A partition reads as its stretch of the drive, as far as that is below the capacity and can be
      named; the sum wraps at 32 bits. */
  lemma ReadPartitionExact<S>(d: Drive<S>, p: Partition, rsec: u32)
    requires Complete(d)
    ensures var lba: u32 := (p.start + rsec) % TWO32;
      ReadPartition(d, Some(p), rsec) ==
      if rsec < p.numSecs && lba < d.numSectors && Nameable(Split(lba, d.heads, d.spt)) then Some(d.image[lba])
        else None
  {
    ReadLbaExact(d, (p.start + rsec) % TWO32);
  }

  // Every sector of the partition, if it exists, can be read.
  ghost predicate ReadsWhole<S>(d: Drive<S>, p: Option<Partition>) {
    d.Geometric() && (p.Some? ==> forall rsec: u32 | rsec < p.value.numSecs :: ReadPartition(d, p, rsec).Some?)
  }

  // What is read then.
  ghost predicate IsContent<S>(d: Drive<S>, p: Option<Partition>, im: seq<S>)
    requires d.Geometric()
  {
    && |im| == (if p.None? then 0 else p.value.numSecs)
    && forall rsec: u32 {:trigger ReadPartition(d, p, rsec)} | rsec < |im| ::
      ReadPartition(d, p, rsec) == Some(im[rsec])
  }

  function Content<S>(d: Drive<S>, p: Option<Partition>): (im: seq<S>)
    requires ReadsWhole(d, p)
    ensures IsContent(d, p, im)
  {
    if p.None? then [] else seq(p.value.numSecs, i requires 0 <= i < p.value.numSecs => ReadPartition(d, p, i).value)
  }

  /** So a partition within an addressable drive reads as its stretch of the image. */
  lemma PartitionReadsAll<S>(d: Drive<S>, p: Partition)
    requires Addressable(d) && p.start + p.numSecs <= d.numSectors
    ensures ReadsWhole(d, Some(p)) && Content(d, Some(p)) == d.image[p.start..p.start + p.numSecs]
  {
    forall rsec: u32 | rsec < p.numSecs ensures ReadPartition(d, Some(p), rsec) == Some(d.image[p.start + rsec]) {
      assert (p.start + rsec) % TWO32 == p.start + rsec;
      AddressableReadsAll(d, p.start + rsec);
    }
  }
}

module IncImage {
  import opened Words
  import opened Arith
  import opened Disk

  const LEN: nat := 128

  // Sector number n of the incremental image.
  predicate IsSector(s: seq<u32>, n: nat) {
    |s| == LEN && forall j | 0 <= j < LEN :: s[j] == (LEN * n + j) % TWO32
  }

  class Generator {
    var counter: u32
    const sector: array<u32>
    var file: seq<seq<u32>>

    constructor ()
      ensures counter == 0 && file == [] && sector.Length == LEN && fresh(sector)
    {
      counter, file := 0, [];
      sector := new u32[LEN](_ => 0);
    }

    ghost predicate Valid()
      reads this, sector
    {
      && sector.Length == LEN && counter == LEN * |file| % TWO32
      && forall n | 0 <= n < |file| :: IsSector(file[n], n)
    }

    // _write_sector
    method WriteSector()
      requires Valid()
      modifies this, sector
      ensures Valid() && |file| == old(|file|) + 1
    {
      UpdateSector(|file|);
      file := file + [sector[..]];
    }

    // _update_sector
    method UpdateSector(ghost n: nat)
      requires sector.Length == LEN && counter == LEN * n % TWO32
      modifies this`counter, sector
      ensures IsSector(sector[..], n) && counter == LEN * (n + 1) % TWO32
    {
      for i := 0 to LEN
        invariant counter == (LEN * n + i) % TWO32
        invariant forall j | 0 <= j < i :: sector[j] == (LEN * n + j) % TWO32
      {
        sector[i] := counter;
        NextCount(LEN * n + i);
        counter := (counter + 1) % TWO32;
      }
    }

    /** Whatever the geometry, word j of sector n holds 128 n + j, modulo the word size. */
    method ExpandImage(cylinders: nat, heads: nat, spt: nat)
      requires Valid() && file == []
      modifies this, sector
      ensures Valid() && |file| == cylinders * heads * spt
    {
      for c := 0 to cylinders
        invariant Valid() && |file| == c * heads * spt
      {
        for h := 0 to heads
          invariant Valid() && |file| == c * heads * spt + h * spt
        {
          ghost var before := |file|;
          for s := 0 to spt
            invariant Valid() && |file| == before + s
          {
            WriteSector();
          }
          Distribute(h, 1, spt);
        }
        Distribute(c, 1, heads);
        Distribute(c * heads, heads, spt);
      }
    }
  }

  lemma NextCount(x: nat)
    ensures (x % TWO32 + 1) % TWO32 == (x + 1) % TWO32
  {
  }

  /** What the driver's test checks: on a drive holding the incremental image, word j of every
      sector that can be read is 128 lba + j. */
  lemma DriverReadsCounter(d: Drive<seq<u32>>, lba: u32, j: nat)
    requires Complete(d) && (forall n | 0 <= n < |d.image| :: IsSector(d.image[n], n)) && j < 128
    ensures ReadLba(d, lba).Some? <==> lba < d.numSectors && Nameable(Split(lba, d.heads, d.spt))
    ensures ReadLba(d, lba).Some? ==>
      |ReadLba(d, lba).value| == 128 && ReadLba(d, lba).value[j] == (128 * lba + j) % TWO32
  {
    ReadLbaExact(d, lba);
  }
}
