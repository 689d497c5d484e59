/** What map and unmap do to the tables, as functions on table contents, and what that
    means: a partial map from pages to frames, seen alike by the hardware walk and by the
    software translation through the recursive window. */
module PagingModel {
  import opened Words
  import opened MmCommon
  import opened Mmu

  // ---- mm/page_tables.c: five tables, for directory slots 0-3 and 768

  predicate TableIdxIsImplemented(idx: nat) {
    idx < NUM_PAGE_TABLES - 1 || idx == 768
  }

  function TableIdx2ArrayIdx(idx: nat): (a: nat)
    ensures a < NUM_PAGE_TABLES
  {
    if idx < NUM_PAGE_TABLES - 1 then idx else NUM_PAGE_TABLES - 1
  }

  // Position of a page's entry in the contiguous tables.
  function Slot(page: Page): (s: nat)
    ensures s < NUM_PAGE_TABLES * ENTRIES
  {
    ENTRIES * TableIdx2ArrayIdx(page / ENTRIES) + page % ENTRIES
  }

  // Zero stands for "no address" to the caller; an unimplemented slot yields 1, not 0.
  function TablesGetPaddr(t: Tables, idx: nat): u32
    requires t.Shape()
  {
    if !TableIdxIsImplemented(idx) then 1 else PAGE_SIZE * (t.ptFrame + TableIdx2ArrayIdx(idx))
  }

  function TableEntry(e: Entry, paddr: u32, writable: bool): Entry {
    Entry(true, writable, false, e.writeThrough, true, 0, paddr / PAGE_SIZE)
  }

  // ---- mm/page_dir.c

  function DirEntry(paddr: u32): Entry {
    Entry(true, true, false, false, true, 0, paddr / PAGE_SIZE)
  }

  // ---- mm/paging.c

  // The range check is made in 32 bits and wraps for the last page of the address space.
  predicate Accepted(vaddr: u32, paddr: u32) {
    && AddrIsPageAligned(vaddr) && AddrIsPageAligned(paddr)
    && (paddr + PAGE_SIZE - 1) % TWO32 <= PADDR_MAX
    && TableIdxIsImplemented(vaddr / 0x40_0000)
  }

  /** The requests that are accepted, in addresses: both multiples of 1 KiB, a frame in the first
      15 MiB or in the last page of the address space, a page in the first 16 MiB or in the 4 MiB
      from 3 GiB on, where the kernel is. */
  lemma AcceptedIff(v: u32, p: u32)
    ensures Accepted(v, p) <==>
            && v % 1024 == 0 && p % 1024 == 0
            && (p <= 0xef_f000 || 0xffff_f400 <= p)
            && (v < 0x100_0000 || 0xc000_0000 <= v < 0xc040_0000)
  {
  }

  function MapTables(t: Tables, vaddr: u32, paddr: u32, writable: bool): Tables
    requires t.Shape()
  {
    if !Accepted(vaddr, paddr) then t else
      var i, s := vaddr / 0x40_0000, Slot(vaddr / PAGE_SIZE);
      var dir := if t.dir[i].present then t.dir else t.dir[i := DirEntry(TablesGetPaddr(t, i))];
      t.(dir := dir, pt := t.pt[s := TableEntry(t.pt[s], paddr, writable)])
  }

  function UnmapTables(t: Tables, vaddr: u32): Tables
    requires t.Shape()
  {
    var i := vaddr / 0x40_0000;
    if AddrIsPageAligned(vaddr) && t.dir[i].present && TableIdxIsImplemented(i)
    then t.(pt := t.pt[Slot(vaddr / PAGE_SIZE) := CLEAR_ENTRY])
    else t
  }

  function UnmapFails(t: Tables, vaddr: u32): bool
    requires t.Shape()
  {
    !AddrIsPageAligned(vaddr) || (t.dir[vaddr / 0x40_0000].present && !TableIdxIsImplemented(vaddr / 0x40_0000))
  }

  /** The requests that unmap refuses: addresses that are no multiple of 1 KiB, and the window. */
  lemma UnmapFailsIff(t: Tables, v: u32)
    requires Inv(t) && SelfMapped(t)
    ensures UnmapFails(t, v) <==> v % 1024 != 0 || 0xffc0_0000 <= v
  {
    var i := v / 0x40_0000;
    if i < SELF && t.dir[i].present { assert TableIdxIsImplemented(i); }
  }

  /** The words that the code puts into the directory and the tables: present, writable as asked for,
      supervisor, not cached; the write-through bit of a table entry is left as it was. */
  lemma EntryWords(e: Entry, p: u32, writable: bool)
    ensures Encode(DirEntry(p)) == p / 4096 * 4096 + 0x13
    ensures Encode(TableEntry(e, p, writable)) ==
            p / 4096 * 4096 + 0x11 + (if writable then 2 else 0) + if e.writeThrough then 8 else 0
  {
  }

  /** Slots 0 to 3 have the first four tables, slot 768 the fifth. */
  lemma TablePlaces(t: Tables, idx: nat)
    requires t.Shape()
    ensures idx <= 3 ==> TablesGetPaddr(t, idx) == 4096 * (t.ptFrame + idx)
    ensures idx == 768 ==> TablesGetPaddr(t, idx) == 4096 * (t.ptFrame + 4)
    ensures idx > 3 && idx != 768 ==> TablesGetPaddr(t, idx) == 1
  {
  }

  // Word idx of page pdIdx of the recursive window.
  function WindowAddr(pdIdx: nat, idx: nat): (a: u32)
    requires pdIdx < ENTRIES && idx < ENTRIES
    ensures a / PAGE_SIZE == WINDOW + pdIdx && a % PAGE_SIZE == 4 * idx && a % 4 == 0
  {
    0xffc0_0000 + PAGE_SIZE * pdIdx + 4 * idx
  }

  /** The two loads of the software translation, through the recursive window.
      None: one of the loads faulted. Otherwise the last word read. */
  function WindowWord(t: Tables, pdIdx: nat, ptIdx: nat): Option<u32>
    requires t.Shape() && pdIdx < ENTRIES && ptIdx < ENTRIES
  {
    match t.Load(WindowAddr(SELF, pdIdx))
    case None => None
    case Some(pde) => if !WordPresent(pde) then Some(pde) else t.Load(WindowAddr(pdIdx, ptIdx))
  }

  // Some(0): the address is not mapped.
  function Vaddr2Paddr(t: Tables, vaddr: u32): Option<u32>
    requires t.Shape()
  {
    match WindowWord(t, vaddr / 0x40_0000, vaddr / PAGE_SIZE % ENTRIES)
    case None => None
    case Some(w) => if !WordPresent(w) then Some(0) else Some(PAGE_SIZE * WordFrame(w) + vaddr % PAGE_SIZE)
  }

  // ---- The table invariant

  predicate SelfMapped(t: Tables)
    requires t.Shape()
  {
    t.dir[SELF] == DirEntry(PAGE_SIZE * t.dirFrame)
  }

  // A directory slot that is not present hides no live table entry.
  ghost predicate Inv(t: Tables) {
    && t.Shape()
    && (t.dir[SELF].present ==> SelfMapped(t))
    && (forall i | 0 <= i < SELF && t.dir[i].present ::
          TableIdxIsImplemented(i) && t.dir[i].write && t.dir[i].frame == t.ptFrame + TableIdx2ArrayIdx(i))
    && (forall page: Page | page < WINDOW && !t.dir[page / ENTRIES].present && TableIdxIsImplemented(page / ENTRIES) ::
          !t.pt[Slot(page)].present)
  }

  predicate Live(t: Tables, page: Page)
    requires t.Shape()
  {
    t.dir[page / ENTRIES].present && t.pt[Slot(page)].present
  }

  lemma WalkBelowWindow(t: Tables, page: Page)
    requires Inv(t) && page < WINDOW
    ensures t.Walk(page) == if Live(t, page) then Hit(t.pt[Slot(page)].frame, t.pt[Slot(page)].write) else Miss
  {
    var pde := t.dir[page / ENTRIES];
    EncodeFields(pde);
    if pde.present {
      EncodeFields(t.pt[Slot(page)]);
    }
  }

  lemma WalkInWindow(t: Tables, page: Page)
    requires Inv(t) && SelfMapped(t) && page >= WINDOW
    ensures t.Walk(page) == if t.dir[page % ENTRIES].present
      then Hit(t.dir[page % ENTRIES].frame, t.dir[page % ENTRIES].write) else Miss
  {
    EncodeFields(t.dir[SELF]);
    EncodeFields(t.dir[page % ENTRIES]);
  }

  lemma SlotInjective(p: Page, q: Page)
    requires TableIdxIsImplemented(p / ENTRIES) && TableIdxIsImplemented(q / ENTRIES) && Slot(p) == Slot(q)
    ensures p == q
  {
  }

  // ---- The abstract view: a partial map from page numbers to frames

  datatype Mapping = Mapping(frame: Frame, write: bool)
  type Space = map<Page, Mapping>

  function Lookup(t: Tables, page: Page): Option<Mapping>
    requires t.Shape()
  {
    match t.Walk(page)
    case Hit(frame, write) => Some(Mapping(frame, write))
    case _ => None
  }

  function Get(m: Space, page: Page): Option<Mapping> {
    if page in m then Some(m[page]) else None
  }

  datatype Op = Map(vaddr: u32, paddr: u32, writable: bool) | Unmap(vaddr: u32)

  function Apply(t: Tables, op: Op): (t': Tables)
    requires t.Shape()
    ensures t'.Shape() && t'.dirFrame == t.dirFrame && t'.ptFrame == t.ptFrame
  {
    match op
    case Map(v, p, w) => MapTables(t, v, p, w)
    case Unmap(v) => UnmapTables(t, v)
  }

  function SpecApply(m: Space, op: Op): Space {
    match op
    case Map(v, p, w) => if Accepted(v, p) then m[v / PAGE_SIZE := Mapping(p / PAGE_SIZE, w)] else m
    case Unmap(v) => if AddrIsPageAligned(v) then m - {v / PAGE_SIZE} else m
  }

  ghost predicate Represents(t: Tables, m: Space)
    requires t.Shape()
  {
    forall page: Page | page < WINDOW :: Lookup(t, page) == Get(m, page)
  }

  lemma MapKeepsInv(t: Tables, v: u32, p: u32, w: bool)
    requires Inv(t)
    ensures Inv(MapTables(t, v, p, w))
    ensures SelfMapped(t) ==> SelfMapped(MapTables(t, v, p, w))
  {
    var t' := MapTables(t, v, p, w);
    forall page: Page | page < WINDOW && !t'.dir[page / ENTRIES].present && TableIdxIsImplemented(page / ENTRIES)
      ensures !t'.pt[Slot(page)].present
    {
      if Accepted(v, p) && Slot(page) == Slot(v / PAGE_SIZE) { SlotInjective(page, v / PAGE_SIZE); }
    }
  }

  lemma UnmapKeepsInv(t: Tables, v: u32)
    requires Inv(t)
    ensures Inv(UnmapTables(t, v))
    ensures SelfMapped(t) ==> SelfMapped(UnmapTables(t, v))
  {
  }

  /** Map changes the addressed page and no other; when it is refused nothing changes.
      In particular a directory entry it installs brings no other page to life. */
  lemma MapChangesOnePage(t: Tables, v: u32, p: u32, w: bool, page: Page)
    requires Inv(t) && page < WINDOW
    ensures Lookup(MapTables(t, v, p, w), page) ==
            if Accepted(v, p) && page == v / PAGE_SIZE then Some(Mapping(p / PAGE_SIZE, w)) else Lookup(t, page)
  {
    var t' := MapTables(t, v, p, w);
    MapKeepsInv(t, v, p, w);
    WalkBelowWindow(t, page);
    WalkBelowWindow(t', page);
    if Accepted(v, p) && t'.dir[page / ENTRIES].present && Slot(page) == Slot(v / PAGE_SIZE) {
      SlotInjective(page, v / PAGE_SIZE);
    }
  }

  lemma UnmapChangesOnePage(t: Tables, v: u32, page: Page)
    requires Inv(t) && page < WINDOW
    ensures Lookup(UnmapTables(t, v), page) ==
            if AddrIsPageAligned(v) && page == v / PAGE_SIZE then None else Lookup(t, page)
  {
    var t' := UnmapTables(t, v);
    UnmapKeepsInv(t, v);
    WalkBelowWindow(t, page);
    WalkBelowWindow(t', page);
    if t' != t && t.dir[page / ENTRIES].present && Slot(page) == Slot(v / PAGE_SIZE) {
      SlotInjective(page, v / PAGE_SIZE);
    }
  }

  lemma ApplyRefines(t: Tables, m: Space, op: Op)
    requires Inv(t) && Represents(t, m)
    ensures Inv(Apply(t, op)) && Represents(Apply(t, op), SpecApply(m, op))
    ensures SelfMapped(t) ==> SelfMapped(Apply(t, op))
  {
    match op {
      case Map(v, p, w) =>
        MapKeepsInv(t, v, p, w);
        forall page: Page | page < WINDOW ensures Lookup(Apply(t, op), page) == Get(SpecApply(m, op), page) {
          MapChangesOnePage(t, v, p, w, page);
        }
      case Unmap(v) =>
        UnmapKeepsInv(t, v);
        forall page: Page | page < WINDOW ensures Lookup(Apply(t, op), page) == Get(SpecApply(m, op), page) {
          UnmapChangesOnePage(t, v, page);
        }
    }
  }

  function Run(t: Tables, ops: seq<Op>): (t': Tables)
    requires t.Shape()
    ensures t'.Shape()
    decreases |ops|
  {
    if ops == [] then t else Run(Apply(t, ops[0]), ops[1..])
  }

  function SpecRun(m: Space, ops: seq<Op>): Space
    decreases |ops|
  {
    if ops == [] then m else SpecRun(SpecApply(m, ops[0]), ops[1..])
  }

  /** Every run of map and unmap refines the partial map. */
  lemma {:induction false} RunRefines(t: Tables, m: Space, ops: seq<Op>)
    requires Inv(t) && SelfMapped(t) && Represents(t, m)
    ensures Inv(Run(t, ops)) && SelfMapped(Run(t, ops)) && Represents(Run(t, ops), SpecRun(m, ops))
    decreases |ops|
  {
    if ops != [] {
      ApplyRefines(t, m, ops[0]);
      RunRefines(Apply(t, ops[0]), SpecApply(m, ops[0]), ops[1..]);
    }
  }

  // A load through the window reads the page table, or the directory, of the addressed slot.
  lemma WindowLoad(t: Tables, pdIdx: nat, idx: nat)
    requires Inv(t) && SelfMapped(t) && pdIdx < ENTRIES && idx < ENTRIES
    ensures t.Load(WindowAddr(pdIdx, idx)) ==
            if t.dir[pdIdx].present then t.PhysWord(t.dir[pdIdx].frame, idx) else None
  {
    WalkInWindow(t, WINDOW + pdIdx);
  }

  // Both loads succeed, and the last word they read is the one the walk ends at.
  lemma WindowShowsWalk(t: Tables, page: Page)
    requires Inv(t) && SelfMapped(t)
    ensures match WindowWord(t, page / ENTRIES, page % ENTRIES)
            case None => false
            case Some(w) =>
              if WordPresent(w) then t.Walk(page).Hit? && t.Walk(page).frame == WordFrame(w) else t.Walk(page) == Miss
  {
    var pdIdx, ptIdx := page / ENTRIES, page % ENTRIES;
    WindowLoad(t, SELF, pdIdx);
    WindowLoad(t, pdIdx, ptIdx);
    EncodeFields(t.dir[pdIdx]);
    if pdIdx == SELF {
      EncodeFields(t.dir[ptIdx]);
    } else if t.dir[pdIdx].present {
      EncodeFields(t.pt[Slot(page)]);
    }
  }

  /** For every address, in the window or below it, the software translation is the
      hardware's, and neither of its own loads faults. */
  lemma SoftwareEqualsHardware(t: Tables, v: u32)
    requires Inv(t) && SelfMapped(t)
    ensures Vaddr2Paddr(t, v) == Some(match t.Translate(v) case Some(p) => p case None => 0)
  {
    assert v / PAGE_SIZE / ENTRIES == v / 0x40_0000;
    WindowShowsWalk(t, v / PAGE_SIZE);
  }

  // ---- Single stores to the tables

  /** Giving an absent directory slot its page table, or any absent entry, takes no translation away. */
  lemma InstallKeepsHits(t: Tables, i: nat, e: Entry, page: Page)
    requires Inv(t) && SelfMapped(t) && i < ENTRIES && !t.dir[i].present
    requires e.present ==> TableIdxIsImplemented(i) && e == DirEntry(TablesGetPaddr(t, i))
    ensures var t' := t.(dir := t.dir[i := e]); Inv(t') && SelfMapped(t')
    ensures var t' := t.(dir := t.dir[i := e]); t.Walk(page).Hit? ==> t'.Walk(page) == t.Walk(page)
  {
    var t' := t.(dir := t.dir[i := e]);
    assert forall p: Page | p < WINDOW && p / ENTRIES == i && TableIdxIsImplemented(i) :: !t'.pt[Slot(p)].present;
    if page < WINDOW {
      WalkBelowWindow(t, page);
      WalkBelowWindow(t', page);
    } else {
      WalkInWindow(t, page);
      WalkInWindow(t', page);
    }
  }

  /** A store to one table entry changes the translation of its page only. */
  lemma TableStoreChangesOnePage(t: Tables, p: Page, e: Entry, page: Page)
    requires Inv(t) && SelfMapped(t) && p < WINDOW && t.dir[p / ENTRIES].present
    ensures var t' := t.(pt := t.pt[Slot(p) := e]); Inv(t') && SelfMapped(t')
    ensures var t' := t.(pt := t.pt[Slot(p) := e]);
            t'.Walk(page) == if page != p then t.Walk(page) else if e.present then Hit(e.frame, e.write) else Miss
  {
    var t' := t.(pt := t.pt[Slot(p) := e]);
    forall q: Page | q < WINDOW && TableIdxIsImplemented(q / ENTRIES) && Slot(q) == Slot(p) ensures q == p {
      SlotInjective(p, q);
    }
    if page < WINDOW {
      WalkBelowWindow(t, page);
      WalkBelowWindow(t', page);
    } else {
      WalkInWindow(t, page);
      WalkInWindow(t', page);
    }
  }
}
