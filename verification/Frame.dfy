/** kernel/lib/frame.c: a bitmap over the page frames from 2 MiB to 14 MiB, and the set of
    used frames it stands for. */
module Frame {
  import opened Words
  import opened Arith
  import opened Numerals

  const PAGE_SIZE: int := 4096
  const PADDR_MIN: int := 0x20_0000
  const LEN: nat := 96
  const FRAMES: nat := 3072

  // ---- The bits of a word: bitmap & 1 << j, bitmap | 1 << j and bitmap & ~(1 << j)

  predicate IsBitSet(w: nat, j: nat) { Digit(w, j) == 1 }

  // Binary digit j of w.
  function Digit(w: nat, j: nat): nat {
    if j == 0 then w % 2 else Digit(w / 2, j - 1)
  }

  function SetBit(w: nat, j: nat): nat {
    if j == 0 then w / 2 * 2 + 1 else SetBit(w / 2, j - 1) * 2 + w % 2
  }

  function ClearBit(w: nat, j: nat): nat {
    if j == 0 then w / 2 * 2 else ClearBit(w / 2, j - 1) * 2 + w % 2
  }

  lemma {:induction false} SetOneBit(w: nat, j: nat, k: nat)
    ensures IsBitSet(SetBit(w, j), k) <==> j == k || IsBitSet(w, k)
  {
    if j > 0 && k > 0 { SetOneBit(w / 2, j - 1, k - 1); }
  }

  lemma {:induction false} ClearOneBit(w: nat, j: nat, k: nat)
    ensures IsBitSet(ClearBit(w, j), k) <==> j != k && IsBitSet(w, k)
  {
    if j > 0 && k > 0 { ClearOneBit(w / 2, j - 1, k - 1); }
  }

  // 1 << j
  lemma {:induction false} OneBit(j: nat, k: nat)
    ensures IsBitSet(Power(2, j), k) <==> j == k
  {
    if j > 0 {
      assert Power(2, j) == 2 * Power(2, j - 1);
      if k > 0 { OneBit(j - 1, k - 1); }
    } else if k > 0 {
      ZeroHasNoBits(k - 1);
    }
  }

  lemma {:induction false} BitsFit(w: nat, j: nat, n: nat)
    requires w < Power(2, n) && j < n
    ensures SetBit(w, j) < Power(2, n) && ClearBit(w, j) < Power(2, n)
  {
    var half := w / 2;
    assert half < Power(2, n - 1);
    if j > 0 {
      BitsFit(half, j - 1, n - 1);
      Doubled(SetBit(half, j - 1), w % 2, Power(2, n - 1));
      Doubled(ClearBit(half, j - 1), w % 2, Power(2, n - 1));
    }
  }

  lemma Doubled(x: nat, bit: nat, p: nat)
    requires x < p && bit <= 1
    ensures x * 2 + bit < 2 * p
  {
  }

  lemma {:induction false} FullIsAllSet(w: nat, n: nat)
    requires w < Power(2, n)
    ensures w == Power(2, n) - 1 <==> forall j | 0 <= j < n :: IsBitSet(w, j)
  {
    if n > 0 {
      FullIsAllSet(w / 2, n - 1);
      if forall j | 0 <= j < n :: IsBitSet(w, j) {
        forall j | 0 <= j < n - 1 ensures IsBitSet(w / 2, j) { assert IsBitSet(w, j + 1); }
        assert IsBitSet(w, 0);
      }
      if w == Power(2, n) - 1 {
        assert w / 2 == Power(2, n - 1) - 1;
        forall j | 0 <= j < n ensures IsBitSet(w, j) { if j > 0 { assert IsBitSet(w / 2, j - 1); } }
      }
    }
  }

  // ---- Addresses and positions

  function Idx2Paddr(i: nat, j: nat): int { PADDR_MIN + PAGE_SIZE * (32 * i + j) }

  // The page number is computed in 32 bits, so that addresses below 2 MiB wrap around.
  function PageNum(paddr: u32): nat { (paddr - PADDR_MIN) % TWO32 / PAGE_SIZE }

  function FrameAddr(f: nat): int { PADDR_MIN + PAGE_SIZE * f }

  /** Conversions are inverse to each other, and an address belongs to frame f exactly when
      it lies in its page; addresses below 2 MiB and from 14 MiB on belong to none. */
  lemma AddressRoundTrip(paddr: u32, f: nat)
    requires f < FRAMES
    ensures Idx2Paddr(f / 32, f % 32) == FrameAddr(f) && 0 <= FrameAddr(f) < TWO32 && PageNum(FrameAddr(f)) == f
    ensures PageNum(paddr) == f <==> FrameAddr(f) <= paddr < FrameAddr(f) + PAGE_SIZE
  {
  }

  /** The frames are the pages from 2 MiB to 14 MiB, in order. */
  lemma FramePlaces(paddr: u32)
    ensures PageNum(paddr) < FRAMES <==> 0x20_0000 <= paddr < 0xe0_0000
    ensures 0x20_0000 <= paddr < 0xe0_0000 ==>
              var f := (paddr - 0x20_0000) / 0x1000; PageNum(paddr) == f && FrameAddr(f) == 0x20_0000 + 0x1000 * f
  {
  }

  // ---- What has been handed out

  datatype Deal = Got(f: nat) | Freed(f: nat)

  // The frames handed out and not given back.
  function Live(log: seq<Deal>): set<nat> {
    if log == [] then {} else
      match log[|log| - 1]
      case Got(f) => Live(log[..|log| - 1]) + {f}
      case Freed(f) => Live(log[..|log| - 1]) - {f}
  }

  // A frame is only handed out when it is not live, and only given back when it is.
  predicate Fair(log: seq<Deal>) {
    log == [] || (
      && Fair(log[..|log| - 1])
      && match log[|log| - 1]
         case Got(f) => f < FRAMES && f !in Live(log[..|log| - 1])
         case Freed(f) => f in Live(log[..|log| - 1]))
  }

  function Handouts(log: seq<Deal>): int {
    if log == [] then 0 else Handouts(log[..|log| - 1]) + if log[|log| - 1].Got? then 1 else -1
  }

  /** The frames in use are as many as were handed out less those given back. */
  lemma {:induction false} FramesConserved(log: seq<Deal>)
    requires Fair(log)
    ensures |Live(log)| == Handouts(log) && forall f | f in Live(log) :: f < FRAMES
  {
    if log != [] { FramesConserved(log[..|log| - 1]); }
  }

  lemma {:induction false} LiveBetween(log: seq<Deal>, i: nat, f: nat)
    requires Fair(log) && i < |log| && log[i] == Got(f) && forall k | i < k < |log| :: log[k] != Freed(f)
    ensures f in Live(log)
  {
    if i < |log| - 1 {
      var init := log[..|log| - 1];
      assert forall k | i < k < |init| :: init[k] == log[k];
      LiveBetween(init, i, f);
    }
  }

  lemma {:induction false} FairPrefix(log: seq<Deal>, n: nat)
    requires Fair(log) && n <= |log|
    ensures Fair(log[..n])
  {
    if n < |log| {
      FairPrefix(log[..|log| - 1], n);
      assert log[..|log| - 1][..n] == log[..n];
    } else {
      assert log[..n] == log;
    }
  }

  /** A frame handed out twice has been given back in between. */
  lemma NeverHandedOutTwice(log: seq<Deal>, i: nat, j: nat, f: nat)
    requires Fair(log) && i < j < |log| && log[i] == Got(f) && log[j] == Got(f)
    ensures exists k :: i < k < j && log[k] == Freed(f)
  {
    FairPrefix(log, j + 1);
    var before := log[..j + 1][..j];
    if forall k | i < k < j :: before[k] != Freed(f) {
      LiveBetween(before, i, f);
      assert false;
    }
  }

  lemma InWord(i: nat, j: nat)
    requires j < 32
    ensures (32 * i + j) / 32 == i && (32 * i + j) % 32 == j
  {
    QuotientUnique(32 * i + j, 32, i);
    Remainder(32 * i + j, 32, i);
  }

  class FrameAllocator {
    const bitmap: array<u32>
    ghost var log: seq<Deal>

    constructor ()
      ensures Valid() && log == [] && fresh(bitmap)
    {
      bitmap := new u32[LEN](_ => 0);
      log := [];
      new;
      forall f: nat | f < FRAMES ensures !IsUsed(f) { ZeroHasNoBits(f % 32); }
    }

    predicate IsUsed(f: nat)
      requires bitmap.Length == LEN && f < FRAMES
      reads bitmap
    {
      IsBitSet(bitmap[f / 32], f % 32)
    }

    /** The set of frames the bitmap stands for. */
    ghost function Used(): set<nat>
      requires bitmap.Length == LEN
      reads bitmap
    {
      set f: nat | f < FRAMES && IsUsed(f)
    }

    // The used frames are the live ones.
    ghost predicate Valid()
      reads this, bitmap
    {
      bitmap.Length == LEN && Fair(log) && Used() == Live(log)
    }

    // _get_clear_bit_num
    method GetClearBitNum(w: u32) returns (j: u32)
      ensures if w == 0xffff_ffff then j == 0xffff_ffff
              else j < 32 && !IsBitSet(w, j) && forall k | 0 <= k < j :: IsBitSet(w, k)
    {
      TwoToThe32();
      FullIsAllSet(w, 32);
      j := 0;
      while j < 32
        invariant 0 <= j <= 32 && forall k | 0 <= k < j :: IsBitSet(w, k)
      {
        if !IsBitSet(w, j) {
          assert w != Power(2, 32) - 1;
          return;
        }
        j := j + 1;
      }
      j := 0xffff_ffff;
    }

    // bitmap[i] with bit j set, or cleared
    method Assign(i: nat, j: nat, used: bool)
      requires bitmap.Length == LEN && i < LEN && j < 32
      modifies bitmap
      ensures Used() == if used then old(Used()) + {32 * i + j} else old(Used()) - {32 * i + j}
    {
      TwoToThe32();
      BitsFit(bitmap[i], j, 32);
      var w := bitmap[i];
      bitmap[i] := if used then SetBit(w, j) else ClearBit(w, j);
      forall f: nat | f < FRAMES
        ensures IsUsed(f) <==> if f == 32 * i + j then used else old(IsUsed(f))
      {
        if f / 32 == i {
          SetOneBit(w, j, f % 32);
          ClearOneBit(w, j, f % 32);
        }
      }
    }

    lemma FullWordUsed(i: nat)
      requires bitmap.Length == LEN && i < LEN && bitmap[i] == 0xffff_ffff
      ensures forall g: nat | 32 * i <= g < 32 * i + 32 :: g in Used()
    {
      TwoToThe32();
      FullIsAllSet(bitmap[i], 32);
      forall g: nat | 32 * i <= g < 32 * i + 32 ensures g in Used() {
        assert g / 32 == i && IsBitSet(bitmap[i], g % 32);
      }
    }

    /** The lowest free frame, which becomes used; 0 if and only if none is free. The first one lies at
        2 MiB. */
    method Alloc() returns (paddr: u32)
      requires Valid()
      modifies this`log, bitmap
      ensures Valid()
      ensures paddr == 0 <==> forall g: nat | g < FRAMES :: g in old(Used())
      ensures paddr == 0 ==> log == old(log)
      ensures paddr != 0 ==> exists f: nat ::
                && f < FRAMES && paddr == FrameAddr(f) && log == old(log) + [Got(f)]
                && f !in old(Used()) && (forall g: nat | g < f :: g in old(Used()))
      ensures 0 !in old(Used()) ==> paddr == 0x20_0000
    {
      for i := 0 to LEN
        invariant bitmap[..] == old(bitmap[..]) && log == old(log) && Valid()
        invariant forall g: nat | g < 32 * i :: g in Used()
      {
        if bitmap[i] == 0xffff_ffff {
          FullWordUsed(i);
          continue;
        }
        paddr := Take(i);
        return;
      }
      paddr := 0;
    }

    lemma LowestClear(i: nat, j: nat)
      requires bitmap.Length == LEN && i < LEN && j < 32 && !IsBitSet(bitmap[i], j)
      requires forall k | 0 <= k < j :: IsBitSet(bitmap[i], k)
      ensures 32 * i + j !in Used() && forall g: nat | 32 * i <= g < 32 * i + j :: g in Used()
    {
      InWord(i, j);
      forall g: nat | 32 * i <= g < 32 * i + j ensures g in Used() { InWord(i, g - 32 * i); }
    }

    // The lowest free frame of a word that has one.
    method Take(i: nat) returns (paddr: u32)
      requires Valid() && i < LEN && bitmap[i] != 0xffff_ffff
      modifies this`log, bitmap
      ensures Valid()
      ensures exists f: nat ::
                && 32 * i <= f < 32 * i + 32 && paddr == FrameAddr(f) && log == old(log) + [Got(f)]
                && f !in old(Used()) && (forall g: nat | 32 * i <= g < f :: g in old(Used()))
    {
      var j := GetClearBitNum(bitmap[i]);
      ghost var f := 32 * i + j;
      LowestClear(i, j);
      Assign(i, j, true);
      log := log + [Got(f)];
      assert log[..|log| - 1] == old(log);
      paddr := Idx2Paddr(i, j);
    }

    /** A frame is given back exactly when the address is in a used frame and a multiple of
        1 KiB: the alignment test masks ten bits, so an address inside a frame passes too. */
    method Dealloc(paddr: u32) returns (code: int)
      requires Valid()
      modifies this`log, bitmap
      ensures Valid()
      ensures code == 0 <==> paddr % 1024 == 0 && PageNum(paddr) in old(Used())
      ensures log == if code == 0 then old(log) + [Freed(PageNum(paddr))] else old(log)
    {
      if paddr % 1024 != 0 { return 1; }
      var pageNum := PageNum(paddr);
      var i, j := pageNum / 32, pageNum % 32;
      if i >= LEN { return 1; }
      if !IsBitSet(bitmap[i], j) { return 1; }
      Assign(i, j, false);
      log := log + [Freed(pageNum)];
      assert log[..|log| - 1] == old(log);
      return 0;
    }
  }

  lemma {:induction false} ZeroHasNoBits(j: nat)
    ensures !IsBitSet(0, j)
  {
    if j > 0 { ZeroHasNoBits(j - 1); }
  }

  /** Of the addresses of a frame, those that are accepted for it: four, of which the first
      alone was handed out. */
  lemma AcceptedAddresses(paddr: u32, f: nat)
    requires f < FRAMES
    ensures paddr % 1024 == 0 && PageNum(paddr) == f <==>
            exists q :: 0 <= q < 4 && paddr == FrameAddr(f) + 1024 * q
  {
    AddressRoundTrip(paddr, f);
    if paddr % 1024 == 0 && PageNum(paddr) == f {
      var q := (paddr - FrameAddr(f)) / 1024;
      assert paddr == FrameAddr(f) + 1024 * q;
    }
  }
}
