/** The hardware side of 32-bit paging: entry formats, the two-level walk, a TLB
    that may fill at any moment, and the physical memory the tables live in. */
module Mmu {
  import opened Words
  import opened MmCommon

  const ENTRIES: nat := 1024
  const NUM_PAGE_TABLES: nat := 5
  const SELF: nat := 1023       // the page directory slot that points at the directory
  const WINDOW: nat := SELF * ENTRIES // first page of the recursive window

  type Frame = f: int | 0 <= f < 0x10_0000
  type Page = p: int | 0 <= p < 0x10_0000

  // The bit fields of a directory or table entry, as both C structs declare them.
  datatype Entry = Entry(present: bool, write: bool, user: bool, writeThrough: bool,
                         cacheDisabled: bool, zero: Zero, frame: Frame)
  type Zero = z: int | 0 <= z < 128

  const CLEAR_ENTRY: Entry := Entry(false, false, false, false, false, 0, 0)

  function Bit(b: bool): (r: int)
    ensures 0 <= r <= 1
  {
    if b then 1 else 0
  }

  // The 32-bit word the hardware finds in memory for an entry.
  function Encode(e: Entry): u32 {
    Bit(e.present) + 2 * Bit(e.write) + 4 * Bit(e.user) + 8 * Bit(e.writeThrough)
    + 16 * Bit(e.cacheDisabled) + 32 * e.zero + 4096 * e.frame
  }

  predicate WordPresent(w: u32) { w % 2 == 1 }
  predicate WordWritable(w: u32) { w / 2 % 2 == 1 }
  function WordFrame(w: u32): Frame { w / 4096 }

  lemma EncodeFields(e: Entry)
    ensures WordPresent(Encode(e)) == e.present
    ensures WordWritable(Encode(e)) == e.write
    ensures WordFrame(Encode(e)) == e.frame
  {
    var upper := Bit(e.user) + 2 * Bit(e.writeThrough) + 4 * Bit(e.cacheDisabled) + 8 * e.zero;
    assert 0 <= upper < 1024;
    Fields(Bit(e.present), Bit(e.write), upper, e.frame);
  }

  lemma Fields(p: nat, w: nat, upper: nat, frame: nat)
    requires p <= 1 && w <= 1 && upper < 1024
    ensures var word := p + 2 * w + 4 * upper + 4096 * frame; word % 2 == p && word / 2 % 2 == w && word / 4096 == frame
  {
    LowBit(p, w + 2 * upper + 2048 * frame);
    LowBit(w, upper + 1024 * frame);
    Upper(p + 2 * w + 4 * upper, frame);
  }

  lemma LowBit(b: nat, rest: nat)
    requires b <= 1
    ensures (b + 2 * rest) % 2 == b && (b + 2 * rest) / 2 == rest
  {
  }

  lemma Upper(low: nat, frame: nat)
    requires low < 4096
    ensures (low + 4096 * frame) / 4096 == frame
  {
  }

  /** The page directory and the page tables, and the frames the linker gave them.
      The five tables are contiguous: entry j of table a is pt[1024 * a + j]. */
  datatype Tables = Tables(dirFrame: Frame, ptFrame: Frame, dir: seq<Entry>, pt: seq<Entry>) {
    predicate Shape() {
      && |dir| == ENTRIES
      && |pt| == NUM_PAGE_TABLES * ENTRIES
      && 0 < ptFrame
      && 4096 * (ptFrame + NUM_PAGE_TABLES) <= PADDR_MAX
      && 4096 * (dirFrame + 1) <= PADDR_MAX
      && !(ptFrame <= dirFrame < ptFrame + NUM_PAGE_TABLES)
    }

    predicate IsTableFrame(frame: int) {
      frame == dirFrame || ptFrame <= frame < ptFrame + NUM_PAGE_TABLES
    }

    // Word idx of a physical frame, when the frame holds the directory or a table.
    function PhysWord(frame: Frame, idx: nat): Option<u32>
      requires Shape() && idx < ENTRIES
    {
      if frame == dirFrame then Some(Encode(dir[idx]))
      else if ptFrame <= frame < ptFrame + NUM_PAGE_TABLES then Some(Encode(pt[ENTRIES * (frame - ptFrame) + idx]))
      else None
    }

    /** The two-level walk of 32-bit paging with 4 KiB pages, CR3 holding the directory's frame. */
    function Walk(page: Page): Xlat
      requires Shape()
    {
      match PhysWord(dirFrame, page / ENTRIES)
      case None => Stray
      case Some(pde) =>
        if !WordPresent(pde) then Miss else
        match PhysWord(WordFrame(pde), page % ENTRIES)
        case None => Stray
        case Some(pte) =>
          if !WordPresent(pte) then Miss
          else Hit(WordFrame(pte), WordWritable(pde) && WordWritable(pte))
    }

    // Byte address translation by the walk.
    function Translate(vaddr: u32): Option<u32>
      requires Shape()
    {
      match Walk(vaddr / PAGE_SIZE)
      case Hit(frame, _) => Some(PAGE_SIZE * frame + vaddr % PAGE_SIZE)
      case _ => None
    }

    // Word idx of a page; None is a page fault.
    function WordOf(page: Page, idx: nat): Option<u32>
      requires Shape() && idx < ENTRIES
    {
      match Walk(page)
      case Hit(frame, _) => PhysWord(frame, idx)
      case _ => None
    }

    // A 32-bit load from a virtual address.
    function Load(vaddr: u32): Option<u32>
      requires Shape() && vaddr % 4 == 0
    {
      WordOf(vaddr / PAGE_SIZE, vaddr % PAGE_SIZE / 4)
    }
  }

  /** The walk, entry by entry: the upper ten bits of the address choose the directory entry, the next
      ten the table entry, and both must be present, and allow writing for it to be allowed. */
  lemma WalkIs(t: Tables, v: u32, a: nat)
    requires t.Shape() && a < 5 && t.dir[v / 0x40_0000].frame == t.ptFrame + a
    ensures var pde, pte := t.dir[v / 0x40_0000], t.pt[1024 * a + v / 4096 % 1024];
      && t.Walk(v / 4096) == (if pde.present && pte.present then Hit(pte.frame, pde.write && pte.write) else Miss)
      && t.Translate(v) == if pde.present && pte.present then Some(4096 * pte.frame + v % 4096) else None
  {
    assert v / 4096 / 1024 == v / 0x40_0000;
    EncodeFields(t.dir[v / 0x40_0000]);
    EncodeFields(t.pt[1024 * a + v / 4096 % 1024]);
  }

  // Stray: the walker left the loader's own tables.
  datatype Xlat = Hit(frame: Frame, write: bool) | Miss | Stray

  datatype Cached = Cached(page: Page, frame: Frame, write: bool)

  // What the hardware may cache: a translation the tables currently give.
  predicate Agrees(t: Tables, c: Cached)
    requires t.Shape()
  {
    t.Walk(c.page) == Hit(c.frame, c.write)
  }

  ghost predicate Coherent(t: Tables, tlb: set<Cached>)
    requires t.Shape()
  {
    forall c | c in tlb :: Agrees(t, c)
  }
}
