/** mm/page_dir.c, mm/page_tables.c and mm/paging.c, statement by statement on the machine.
    Between any two statements the TLB may change. */
module PageDir {
  import opened Words
  import opened MmCommon
  import opened Mmu
  import opened PagingModel
  import opened Hardware

  method EntryIsPresent(m: Machine, entryNum: nat) returns (r: bool)
    requires m.Valid() && m.Reaches(m.dirFrame)
    ensures r <==> entryNum < ENTRIES && m.View().dir[entryNum].present
  {
    if entryNum >= ENTRIES { return false; }
    var e := m.LoadDir(entryNum);
    r := e.present;
  }

  // A slot that is not present becomes present only with the last store. A caller with
  // paging on installs a table none of whose entries is live, as Inv says of every such slot.
  method SetEntry(m: Machine, entryNum: nat, paddr: u32) returns (code: int)
    requires m.Valid()
    requires m.pagingOn ==> m.Settled()
    requires m.pagingOn && entryNum < ENTRIES && AddrIsPageAligned(paddr) ==>
               && !m.View().dir[entryNum].present && TableIdxIsImplemented(entryNum)
               && paddr == TablesGetPaddr(m.View(), entryNum)
    modifies m.dir, m`tlb
    ensures m.Valid() && (code == 0 <==> entryNum < ENTRIES && AddrIsPageAligned(paddr))
    ensures var t := old(m.View());
      m.View() == if code == 0 then t.(dir := t.dir[entryNum := DirEntry(paddr)]) else t
    ensures m.pagingOn ==> m.Settled()
  {
    if entryNum >= ENTRIES { return 1; }
    if !AddrIsPageAligned(paddr) { return 1; }
    var e := m.LoadDir(entryNum);
    var e1 := e.(frame := paddr / PAGE_SIZE);
    var e2 := e1.(zero := 0);
    var e3 := e2.(cacheDisabled := true);
    var e4 := e3.(write := true);
    var e5 := e4.(user := false);
    var e6 := e5.(writeThrough := false);
    var e7 := e6.(present := true);
    Store(m, entryNum, [e1, e2, e3, e4, e5, e6, e7]);
    return 0;
  }

  // The field stores to slot i, one after the other; with paging on only the last may set the present bit.
  method Store(m: Machine, i: nat, es: seq<Entry>)
    requires m.Valid() && i < ENTRIES && es != []
    requires m.pagingOn ==> m.Settled() && !m.View().dir[i].present && forall k | 0 <= k < |es| - 1 :: !es[k].present
    requires m.pagingOn ==> TableIdxIsImplemented(i) && es[|es| - 1] == DirEntry(TablesGetPaddr(m.View(), i))
    modifies m.dir, m`tlb
    ensures m.Valid() && m.View() == old(m.View()).(dir := old(m.View()).dir[i := es[|es| - 1]])
    ensures m.pagingOn ==> m.Settled()
  {
    ghost var t := m.View();
    var k := 0;
    while k < |es|
      invariant 0 <= k <= |es| && m.Valid()
      invariant m.View() == if k == 0 then t else t.(dir := t.dir[i := es[k - 1]])
      invariant m.pagingOn ==> m.Settled()
    {
      ghost var t0, tlb0 := m.View(), m.tlb;
      m.StoreDir(i, es[k]);
      if m.pagingOn {
        InstallKeepsSettled(t0, tlb0, i, es[k], m.View(), m.tlb);
      }
      assert t0.dir[i := es[k]] == t.dir[i := es[k]];
      k := k + 1;
    }
  }
}

module PageTables {
  import opened Words
  import opened MmCommon
  import opened Mmu
  import opened PagingModel
  import opened Hardware

  ghost predicate Updating(m: Machine, p: Page)
    reads m, m.dir, m.tables
  {
    && m.Valid() && p < WINDOW && TableIdxIsImplemented(p / ENTRIES)
    && (m.pagingOn ==> UpdatingOn(m.View(), m.tlb, p))
  }

  // Stores to the entry of page p, one after the other. The page of a table may only be
  // stored to if it stays mapped to itself.
  method Store(m: Machine, p: Page, es: seq<Entry>)
    requires Updating(m, p) && es != []
    requires m.pagingOn && m.View().IsTableFrame(p) ==> forall k | 0 <= k < |es| :: es[k].present && es[k].frame == p
    modifies m.tables, m`tlb
    ensures Updating(m, p)
    ensures m.View() == old(m.View()).(pt := old(m.View()).pt[Slot(p) := es[|es| - 1]])
  {
    ghost var t := m.View();
    var k := 0;
    while k < |es|
      invariant 0 <= k <= |es| && Updating(m, p)
      invariant m.View() == if k == 0 then t else t.(pt := t.pt[Slot(p) := es[k - 1]])
    {
      ghost var t0 := m.View();
      StoreOne(m, p, es[k]);
      assert t0.pt[Slot(p) := es[k]] == t.pt[Slot(p) := es[k]];
      k := k + 1;
    }
  }

  method StoreOne(m: Machine, p: Page, e: Entry)
    requires Updating(m, p)
    requires m.pagingOn && m.View().IsTableFrame(p) ==> e.present && e.frame == p
    modifies m.tables, m`tlb
    ensures Updating(m, p) && m.View() == old(m.View()).(pt := old(m.View()).pt[Slot(p) := e])
  {
    ghost var t, tlb := m.View(), m.tlb;
    m.StoreTable(TableIdx2ArrayIdx(p / ENTRIES), p % ENTRIES, e);
    if m.pagingOn {
      TableStoreKeepsUpdating(t, tlb, p, e, m.View(), m.tlb);
    }
  }

  function PageAt(tableIdx: nat, entryNum: nat): (p: Page)
    requires tableIdx < ENTRIES && entryNum < ENTRIES
    ensures p / ENTRIES == tableIdx && p % ENTRIES == entryNum
  {
    ENTRIES * tableIdx + entryNum
  }

  method SetEntry(m: Machine, tableIdx: nat, entryNum: nat, paddr: u32, writable: bool) returns (code: int)
    requires tableIdx < ENTRIES && entryNum < ENTRIES && m.Valid()
    requires TableIdxIsImplemented(tableIdx) && AddrIsPageAligned(paddr) ==> Updating(m, PageAt(tableIdx, entryNum))
    requires m.pagingOn && TableIdxIsImplemented(tableIdx) && AddrIsPageAligned(paddr) ==>
               var p := PageAt(tableIdx, entryNum);
               m.View().IsTableFrame(p) ==> paddr / PAGE_SIZE == p
    modifies m.tables, m`tlb
    ensures code == 0 <==> AddrIsPageAligned(paddr) && TableIdxIsImplemented(tableIdx)
    ensures code != 0 ==> m.View() == old(m.View()) && m.tlb == old(m.tlb)
    ensures code == 0 ==>
              && Updating(m, PageAt(tableIdx, entryNum))
              && var s := Slot(PageAt(tableIdx, entryNum));
                 var t := old(m.View());
                 m.View() == t.(pt := t.pt[s := TableEntry(t.pt[s], paddr, writable)])
  {
    if !AddrIsPageAligned(paddr) { return 1; }
    if !TableIdxIsImplemented(tableIdx) { return 1; }
    FillEntry(m, PageAt(tableIdx, entryNum), paddr, writable);
    return 0;
  }

  lemma TablePageIsPresent(t: Tables, tlb: set<Cached>, p: Page)
    requires UpdatingOn(t, tlb, p)
    ensures t.IsTableFrame(p) ==> t.pt[Slot(p)].present
  {
    WalkBelowWindow(t, p);
  }

  // The field stores of a new entry.
  method FillEntry(m: Machine, p: Page, paddr: u32, writable: bool)
    requires Updating(m, p)
    requires m.pagingOn && m.View().IsTableFrame(p) ==> paddr / PAGE_SIZE == p
    modifies m.tables, m`tlb
    ensures Updating(m, p)
    ensures var t := old(m.View()); m.View() == t.(pt := t.pt[Slot(p) := TableEntry(t.pt[Slot(p)], paddr, writable)])
  {
    var e := LoadEntry(m, p);
    Store(m, p, FieldStores(e, paddr, writable));
  }

  // A page that holds a table is present as long as paging is on.
  method LoadEntry(m: Machine, p: Page) returns (e: Entry)
    requires Updating(m, p)
    ensures e == m.View().pt[Slot(p)]
    ensures m.pagingOn && m.View().IsTableFrame(p) ==> e.present
  {
    if m.pagingOn { TablePageIsPresent(m.View(), m.tlb, p); }
    e := m.LoadTable(TableIdx2ArrayIdx(p / ENTRIES), p % ENTRIES);
  }

  // What the entry holds after each of the six field assignments.
  function FieldStores(e: Entry, paddr: u32, writable: bool): (es: seq<Entry>)
    ensures |es| == 6 && es[5] == TableEntry(e, paddr, writable)
    ensures forall k | 0 <= k < 6 :: es[k].frame == paddr / PAGE_SIZE && (e.present ==> es[k].present)
  {
    var e1 := e.(frame := paddr / PAGE_SIZE);
    var e2 := e1.(zero := 0);
    var e3 := e2.(cacheDisabled := true);
    var e4 := e3.(user := false);
    var e5 := e4.(write := writable);
    [e1, e2, e3, e4, e5, e5.(present := true)]
  }

  // bzero clears the four bytes of the entry from the last to the first, so the entry is
  // still present while its frame is already partly cleared.
  method ClearEntry(m: Machine, tableIdx: nat, entryNum: nat) returns (code: int)
    requires tableIdx < ENTRIES && entryNum < ENTRIES && m.Valid()
    requires TableIdxIsImplemented(tableIdx) ==> Updating(m, PageAt(tableIdx, entryNum))
    requires m.pagingOn ==> !m.View().IsTableFrame(PageAt(tableIdx, entryNum))
    modifies m.tables, m`tlb
    ensures code == 0 <==> TableIdxIsImplemented(tableIdx)
    ensures code != 0 ==> m.View() == old(m.View()) && m.tlb == old(m.tlb)
    ensures code == 0 ==>
              && Updating(m, PageAt(tableIdx, entryNum))
              && m.View() == old(m.View()).(pt := old(m.View()).pt[Slot(PageAt(tableIdx, entryNum)) := CLEAR_ENTRY])
  {
    if !TableIdxIsImplemented(tableIdx) { return 1; }
    var p := PageAt(tableIdx, entryNum);
    var e := m.LoadTable(TableIdx2ArrayIdx(tableIdx), entryNum);
    var e1 := e.(frame := e.frame % 0x1000);
    var e2 := e.(frame := e.frame % 0x10);
    var e3 := e.(frame := 0, zero := e.zero % 8);
    Store(m, p, [e1, e2, e3, CLEAR_ENTRY]);
    return 0;
  }
}

module Paging {
  import opened Words
  import opened Arith
  import opened MmCommon
  import opened Mmu
  import opened PagingModel
  import opened Hardware
  import PageDir
  import PageTables

  /** Whether the pages of the directory and the tables keep their place, that is,
      whether the loader can still reach its tables after the call. */
  predicate KeepsTables(t: Tables, op: Op)
    requires t.Shape()
  {
    match op
    case Map(v, p, _) => Accepted(v, p) && t.IsTableFrame(v / PAGE_SIZE) ==> p / PAGE_SIZE == v / PAGE_SIZE
    case Unmap(v) => AddrIsPageAligned(v) ==> !t.IsTableFrame(v / PAGE_SIZE)
  }

  /** The restriction on callers is exact: it is what keeps the tables in place. */
  lemma TablesStayIffKept(t: Tables, op: Op)
    requires Inv(t) && SelfMapped(t) && TablesInPlace(t)
    ensures TablesInPlace(Apply(t, op)) <==> KeepsTables(t, op)
  {
    forall f: Frame | t.IsTableFrame(f)
      ensures Apply(t, op).Walk(f).Hit? && Apply(t, op).Walk(f).frame == f <==>
              if op.vaddr / PAGE_SIZE == f then KeepsTables(t, op) else true
    {
      match op {
        case Map(v, p, w) => MapChangesOnePage(t, v, p, w, f);
        case Unmap(v) => UnmapChangesOnePage(t, v, f);
      }
      assert t.Walk(f).Hit? && t.Walk(f).frame == f;
    }
  }

  // With paging on and the machine settled, an accepted request starts the update of its page.
  lemma SettledStartsUpdate(t: Tables, tlb: set<Cached>, p: Page)
    requires SettledOn(t, tlb) && p < WINDOW && TableIdxIsImplemented(p / ENTRIES) && t.dir[p / ENTRIES].present
    ensures UpdatingOn(t, tlb, p)
  {
  }

  /** Success changes the addressed page only, failure changes nothing, and every
      translation cached on return is current. */
  method Map(m: Machine, vaddr: u32, paddr: u32, writable: bool) returns (code: int)
    requires m.Settled()
    requires m.pagingOn ==> KeepsTables(m.View(), Op.Map(vaddr, paddr, writable))
    modifies m.dir, m.tables, m`tlb
    ensures m.Settled()
    ensures code == 0 <==> Accepted(vaddr, paddr)
    ensures m.View() == MapTables(old(m.View()), vaddr, paddr, writable)
  {
    ghost var t := m.View();
    if !AddrIsPageAligned(vaddr) || !AddrIsPageAligned(paddr) { return 1; }
    if (paddr + PAGE_SIZE - 1) % TWO32 > PADDR_MAX { return 1; }
    var pdIdx, ptIdx := vaddr / 0x40_0000, vaddr / PAGE_SIZE % ENTRIES;
    assert PageTables.PageAt(pdIdx, ptIdx) == vaddr / PAGE_SIZE;
    var c := InstallTable(m, pdIdx);
    if c != 0 { return 1; }
    if TableIdxIsImplemented(pdIdx) && m.pagingOn {
      SettledStartsUpdate(m.View(), m.tlb, vaddr / PAGE_SIZE);
    }
    MapKeepsInv(t, vaddr, paddr, writable);
    c := PageTables.SetEntry(m, pdIdx, ptIdx, paddr, writable);
    if c != 0 { return 1; }
    m.ReloadCr3();
    return 0;
  }

  // The slot is given its page table if it has none. An unimplemented slot is refused by
  // the alignment test on the "address" 1.
  method InstallTable(m: Machine, pdIdx: nat) returns (code: int)
    requires m.Settled() && pdIdx < ENTRIES
    modifies m.dir, m`tlb
    ensures code == 0 <==> m.View().dir[pdIdx].present
    ensures code == 0 <==> old(m.View()).dir[pdIdx].present || TableIdxIsImplemented(pdIdx)
    ensures m.Valid() && (m.pagingOn || code != 0 ==> m.Settled())
    ensures var t := old(m.View());
      m.View() == if t.dir[pdIdx].present || code != 0 then t
                  else t.(dir := t.dir[pdIdx := DirEntry(TablesGetPaddr(t, pdIdx))])
  {
    var present := PageDir.EntryIsPresent(m, pdIdx);
    if present { return 0; }
    var ptPaddr := PageTablesGetPaddr(m, pdIdx);
    if ptPaddr == 0 { return 1; }
    code := PageDir.SetEntry(m, pdIdx, ptPaddr);
  }

  /** The address of the slot's table: never 0, a multiple of 1 KiB exactly if the slot has a
      table, and then the place in memory of the entries of the slot's pages, and of no others. */
  method PageTablesGetPaddr(m: Machine, idx: nat) returns (paddr: u32)
    requires m.Valid() && idx < ENTRIES
    ensures paddr == TablesGetPaddr(m.View(), idx)
    ensures paddr != 0 && (AddrIsPageAligned(paddr) <==> TableIdxIsImplemented(idx))
    ensures TableIdxIsImplemented(idx) ==> HoldsTable(m.View(), idx, paddr)
  {
    if !TableIdxIsImplemented(idx) { return 1; }
    paddr := PAGE_SIZE * (m.ptFrame + TableIdx2ArrayIdx(idx));
    TableIsHeld(m.View(), idx);
  }

  // The page at paddr holds the entries of the pages of slot idx, and no other slot's table is there.
  ghost predicate HoldsTable(t: Tables, idx: nat, paddr: u32)
    requires t.Shape() && idx < ENTRIES
  {
    && paddr % PAGE_SIZE == 0
    && (forall page: Page | page / ENTRIES == idx ::
          t.PhysWord(paddr / PAGE_SIZE, page % ENTRIES) == Some(Encode(t.pt[Slot(page)])))
    && (forall k: nat | k != idx && TableIdxIsImplemented(k) :: TablesGetPaddr(t, k) != paddr)
  }

  lemma TableIsHeld(t: Tables, idx: nat)
    requires t.Shape() && idx < ENTRIES && TableIdxIsImplemented(idx)
    ensures HoldsTable(t, idx, TablesGetPaddr(t, idx))
  {
  }

  method Unmap(m: Machine, vaddr: u32) returns (code: int)
    requires m.Settled()
    requires m.pagingOn ==> KeepsTables(m.View(), Op.Unmap(vaddr))
    modifies m.dir, m.tables, m`tlb
    ensures m.Settled()
    ensures code != 0 <==> UnmapFails(old(m.View()), vaddr)
    ensures m.View() == UnmapTables(old(m.View()), vaddr)
  {
    if !AddrIsPageAligned(vaddr) { return 1; }
    var pdIdx, ptIdx := vaddr / 0x40_0000, vaddr / PAGE_SIZE % ENTRIES;
    assert PageTables.PageAt(pdIdx, ptIdx) == vaddr / PAGE_SIZE;
    var present := PageDir.EntryIsPresent(m, pdIdx);
    if !present { return 0; }
    if TableIdxIsImplemented(pdIdx) && m.pagingOn {
      SettledStartsUpdate(m.View(), m.tlb, vaddr / PAGE_SIZE);
    }
    var c := PageTables.ClearEntry(m, pdIdx, ptIdx);
    if c != 0 { return 1; }
    m.ReloadCr3();
    return 0;
  }

  /** paging_vaddr2paddr, whatever translations its loads through the window use: none of them
      faults, and the answer is the hardware's. */
  method SoftwareTranslate(m: Machine, vaddr: u32) returns (paddr: u32)
    requires m.Settled() && m.pagingOn
    ensures paddr == match m.View().Translate(vaddr) case Some(p) => p case None => 0
    ensures Some(paddr) == Vaddr2Paddr(m.View(), vaddr)
  {
    var pdIdx, ptIdx := vaddr / 0x40_0000, vaddr / PAGE_SIZE % ENTRIES;
    SoftwareEqualsHardware(m.View(), vaddr);
    WindowLoad(m.View(), SELF, pdIdx);
    WindowLoad(m.View(), pdIdx, ptIdx);
    var pde := LoadWindow(m, SELF, pdIdx);
    if !WordPresent(pde) { return 0; }
    PresentSlot(m.View(), pdIdx);
    var pte := LoadWindow(m, pdIdx, ptIdx);
    if !WordPresent(pte) { return 0; }
    pte := LoadWindow(m, pdIdx, ptIdx);
    paddr := PAGE_SIZE * WordFrame(pte) + vaddr % PAGE_SIZE;
  }

  // A slot whose word says so is present, and its table is one of the loader's.
  lemma PresentSlot(t: Tables, pdIdx: nat)
    requires Inv(t) && SelfMapped(t) && pdIdx < ENTRIES
    ensures t.Load(WindowAddr(SELF, pdIdx)) == Some(Encode(t.dir[pdIdx]))
    ensures WordPresent(Encode(t.dir[pdIdx])) <==> t.dir[pdIdx].present
    ensures t.dir[pdIdx].present ==> forall idx: nat | idx < ENTRIES :: t.Load(WindowAddr(pdIdx, idx)).Some?
  {
    EncodeFields(t.dir[pdIdx]);
    WindowLoad(t, SELF, pdIdx);
    forall idx: nat | idx < ENTRIES && t.dir[pdIdx].present ensures t.Load(WindowAddr(pdIdx, idx)).Some? {
      WindowLoad(t, pdIdx, idx);
    }
  }

  method LoadWindow(m: Machine, pdIdx: nat, idx: nat) returns (w: u32)
    requires m.Settled() && m.pagingOn && pdIdx < ENTRIES && idx < ENTRIES
    requires m.View().Load(WindowAddr(pdIdx, idx)).Some?
    ensures Some(w) == m.View().Load(WindowAddr(pdIdx, idx))
  {
    w := m.LoadWord(WINDOW + pdIdx, idx);
    m.LoadIsWalk(WINDOW + pdIdx, idx, w);
  }

  // ---- Start-up

  // The first n pages mapped to themselves, writable.
  function Identity(n: nat): Space {
    map page: Page | page < n :: Mapping(page, true)
  }

  method ClearAll(m: Machine)
    requires m.Valid() && !m.pagingOn
    modifies m.dir, m.tables, m`tlb
    ensures m.Valid() && (forall i | 0 <= i < ENTRIES :: m.View().dir[i] == CLEAR_ENTRY)
    ensures forall s | 0 <= s < NUM_PAGE_TABLES * ENTRIES :: m.View().pt[s] == CLEAR_ENTRY
  {
    for i := 0 to ENTRIES
      invariant m.Valid() && forall k | 0 <= k < i :: m.dir[k] == CLEAR_ENTRY
    {
      m.StoreDir(i, CLEAR_ENTRY);
      assert forall k | 0 <= k < ENTRIES :: m.dir[k] == m.View().dir[k];
    }
    for s := 0 to NUM_PAGE_TABLES * ENTRIES
      invariant m.Valid() && (forall k | 0 <= k < ENTRIES :: m.dir[k] == CLEAR_ENTRY)
      invariant forall k | 0 <= k < s :: m.tables[k] == CLEAR_ENTRY
    {
      m.StoreTable(s / ENTRIES, s % ENTRIES, CLEAR_ENTRY);
      assert forall k | 0 <= k < NUM_PAGE_TABLES * ENTRIES :: m.tables[k] == m.View().pt[k];
    }
  }

  lemma ClearIsEmpty(t: Tables)
    requires t.Shape() && (forall i | 0 <= i < ENTRIES :: t.dir[i] == CLEAR_ENTRY)
    requires forall s | 0 <= s < NUM_PAGE_TABLES * ENTRIES :: t.pt[s] == CLEAR_ENTRY
    ensures Inv(t) && Represents(t, Identity(0))
  {
    forall page: Page | page < WINDOW ensures Lookup(t, page) == Get(Identity(0), page) {
      WalkBelowWindow(t, page);
    }
  }

  lemma AutomapRefines(t: Tables, m: Space)
    requires Inv(t) && Represents(t, m)
    ensures var t' := t.(dir := t.dir[SELF := DirEntry(PAGE_SIZE * t.dirFrame)]);
      Inv(t') && SelfMapped(t') && Represents(t', m)
  {
    var t' := t.(dir := t.dir[SELF := DirEntry(PAGE_SIZE * t.dirFrame)]);
    forall page: Page | page < WINDOW ensures Lookup(t', page) == Get(m, page) {
      WalkBelowWindow(t, page);
      WalkBelowWindow(t', page);
    }
  }

  /** Start-up maps the pages below 15 MiB to themselves, writable. */
  lemma IdentityIs(v: u32)
    ensures var m := Identity((PADDR_MAX + 1) / PAGE_SIZE);
      Get(m, v / 4096) == if v < 0xf0_0000 then Some(Mapping(v / 4096, true)) else None
  {
  }

  // _setup_identity
  method SetupIdentity(m: Machine) returns (code: int)
    requires m.Settled() && !m.pagingOn && Represents(m.View(), Identity(0))
    modifies m.dir, m.tables, m`tlb
    ensures code == 0 && m.Settled() && Represents(m.View(), Identity((PADDR_MAX + 1) / PAGE_SIZE))
  {
    var addr := 0;
    while addr + PAGE_SIZE - 1 <= PADDR_MAX
      invariant 0 <= addr <= PADDR_MAX + 1 && addr % PAGE_SIZE == 0
      invariant m.Settled() && Represents(m.View(), Identity(addr / PAGE_SIZE))
    {
      var c := MapIdentity(m, addr, addr / PAGE_SIZE);
      if c != 0 { return 1; }
      addr := addr + PAGE_SIZE;
    }
    code := 0;
  }

  method MapIdentity(m: Machine, addr: u32, ghost n: nat) returns (code: int)
    requires m.Settled() && !m.pagingOn && Represents(m.View(), Identity(n)) && addr == PAGE_SIZE * n
    requires addr + PAGE_SIZE - 1 <= PADDR_MAX
    modifies m.dir, m.tables, m`tlb
    ensures code == 0 && m.Settled() && Represents(m.View(), Identity(n + 1))
  {
    IdentityGrows(m.View(), n, addr);
    code := Map(m, addr, addr, true);
  }

  lemma IdentityGrows(t: Tables, n: nat, addr: u32)
    requires Inv(t) && Represents(t, Identity(n)) && addr == PAGE_SIZE * n && addr + PAGE_SIZE - 1 <= PADDR_MAX
    ensures Accepted(addr, addr) && Represents(MapTables(t, addr, addr, true), Identity(n + 1))
  {
    NextIdentity(n, addr);
    ApplyRefines(t, Identity(n), Op.Map(addr, addr, true));
  }

  lemma NextIdentity(n: nat, addr: u32)
    requires addr == PAGE_SIZE * n && addr + PAGE_SIZE - 1 <= PADDR_MAX
    ensures Accepted(addr, addr) && SpecApply(Identity(n), Op.Map(addr, addr, true)) == Identity(n + 1)
  {
    PageAccepted(n, addr);
    IdentityInsert(n);
  }

  lemma PageAccepted(n: nat, addr: u32)
    requires addr == PAGE_SIZE * n && addr + PAGE_SIZE - 1 <= PADDR_MAX
    ensures Accepted(addr, addr) && addr / PAGE_SIZE == n
  {
    PageStart(n, addr);
    assert addr / 0x40_0000 < 4;
  }

  lemma PageStart(n: nat, addr: nat)
    requires addr == PAGE_SIZE * n
    ensures addr % 1024 == 0 && addr / PAGE_SIZE == n
  {
    QuotientUnique(addr, PAGE_SIZE, n);
    Remainder(addr, 1024, 4 * n);
  }

  lemma IdentityInsert(n: Page)
    ensures Identity(n)[n := Mapping(n, true)] == Identity(n + 1)
  {
    var a, b := Identity(n)[n := Mapping(n, true)], Identity(n + 1);
    forall page: Page ensures page in a <==> page in b {}
    forall page: Page | page in a ensures a[page] == b[page] {}
  }

  /** paging_init succeeds, maps exactly the available physical memory to itself, and
      closes the recursive window. */
  method Init(m: Machine) returns (code: int)
    requires m.Valid() && !m.pagingOn
    modifies m.dir, m.tables, m`tlb
    ensures code == 0 && m.Settled() && SelfMapped(m.View())
    ensures Represents(m.View(), Identity((PADDR_MAX + 1) / PAGE_SIZE))
  {
    ClearAll(m);
    ClearIsEmpty(m.View());
    code := SetupIdentity(m);
    if code != 0 { return 1; }
    AutomapRefines(m.View(), Identity((PADDR_MAX + 1) / PAGE_SIZE));
    code := PageDir.SetEntry(m, SELF, PAGE_SIZE * m.dirFrame);
  }

  // The tables' own pages are mapped to themselves at start-up, so paging can be switched on.
  method Enable(m: Machine, ghost space: Space)
    requires m.Settled() && !m.pagingOn && SelfMapped(m.View()) && Represents(m.View(), space)
    requires forall f: Frame | m.View().IsTableFrame(f) :: f in space && space[f].frame == f
    modifies m`pagingOn
    ensures m.pagingOn && m.Settled()
  {
    forall f: Frame | m.View().IsTableFrame(f) ensures m.View().Walk(f).Hit? && m.View().Walk(f).frame == f {
      assert Lookup(m.View(), f) == Get(space, f);
    }
    m.pagingOn := true;
  }

  // ---- Whole runs

  /** Any sequence of calls that leaves the table pages alone, from any settled state:
      the tables follow the partial map, the software translation is the hardware's at
      every address, and the TLB is coherent. */
  method Drive(m: Machine, ops: seq<Op>, ghost space: Space)
    requires m.Settled() && m.pagingOn && Represents(m.View(), space)
    requires forall op | op in ops :: KeepsTables(m.View(), op)
    modifies m.dir, m.tables, m`tlb
    ensures m.Settled() && Represents(m.View(), SpecRun(space, ops))
    ensures m.View() == Run(old(m.View()), ops)
    ensures forall v: u32 ::
      Vaddr2Paddr(m.View(), v) == Some(match m.View().Translate(v) case Some(p) => p case None => 0)
  {
    ghost var t0 := m.View();
    ghost var sp := space;
    for i := 0 to |ops|
      invariant m.Settled() && m.pagingOn && Represents(m.View(), sp)
      invariant forall f: Frame :: m.View().IsTableFrame(f) == t0.IsTableFrame(f)
      invariant Run(m.View(), ops[i..]) == Run(t0, ops) && SpecRun(sp, ops[i..]) == SpecRun(space, ops)
    {
      assert ops[i..][1..] == ops[i + 1..];
      assert KeepsTables(t0, ops[i]);
      ApplyRefines(m.View(), sp, ops[i]);
      match ops[i] {
        case Map(v, p, w) => var _ := Map(m, v, p, w);
        case Unmap(v) => var _ := Unmap(m, v);
      }
      sp := SpecApply(sp, ops[i]);
    }
    assert ops[|ops|..] == [];
    forall v: u32
      ensures Vaddr2Paddr(m.View(), v) == Some(match m.View().Translate(v) case Some(p) => p case None => 0)
    {
      SoftwareEqualsHardware(m.View(), v);
    }
  }

  /** The start-up of main(): initialise, unmap page 0, enable, then any run. */
  method BootAndDrive(dirFrame: Frame, ptFrame: Frame, ops: seq<Op>) returns (m: Machine)
    requires 0 < ptFrame && 0 < dirFrame && 4096 * (ptFrame + NUM_PAGE_TABLES) <= PADDR_MAX
    requires 4096 * (dirFrame + 1) <= PADDR_MAX
    requires !(ptFrame <= dirFrame < ptFrame + NUM_PAGE_TABLES)
    requires forall op, t: Tables | op in ops && t.Shape() && t.dirFrame == dirFrame && t.ptFrame == ptFrame ::
      KeepsTables(t, op)
    ensures m.Settled() && m.pagingOn
    ensures Represents(m.View(), SpecRun(Identity((PADDR_MAX + 1) / PAGE_SIZE) - {0}, ops))
    ensures forall v: u32 ::
      Vaddr2Paddr(m.View(), v) == Some(match m.View().Translate(v) case Some(p) => p case None => 0)
  {
    m := new Machine(dirFrame, ptFrame);
    var code := Init(m);
    ghost var space := Identity((PADDR_MAX + 1) / PAGE_SIZE);
    ApplyRefines(m.View(), space, Op.Unmap(0));
    code := Unmap(m, 0);
    space := space - {0};
    Enable(m, space);
    Drive(m, ops, space);
  }

  // ---- The wrap in the range check

  ghost predicate FramesAvailable(t: Tables)
    requires t.Shape()
  {
    forall page: Page | page < WINDOW && Lookup(t, page).Some? ::
      PAGE_SIZE * (Lookup(t, page).value.frame + 1) - 1 <= PADDR_MAX
  }

  lemma RangeCheck(p: u32)
    requires AddrIsPageAligned(p) && (p + PAGE_SIZE - 1) % TWO32 <= PADDR_MAX
    ensures PAGE_SIZE * (p / PAGE_SIZE + 1) - 1 <= PADDR_MAX <==> p < 0xffff_f000
  {
  }

  /** Map keeps every frame inside the available memory exactly when it does not accept
      an address of the last page of the address space, where the range check wraps. */
  lemma MapStaysAvailableIff(t: Tables, v: u32, p: u32, w: bool)
    requires Inv(t) && FramesAvailable(t)
    ensures Inv(MapTables(t, v, p, w))
    ensures FramesAvailable(MapTables(t, v, p, w)) <==> !(Accepted(v, p) && p >= 0xffff_f000)
  {
    var t' := MapTables(t, v, p, w);
    MapKeepsInv(t, v, p, w);
    if AddrIsPageAligned(p) && (p + PAGE_SIZE - 1) % TWO32 <= PADDR_MAX { RangeCheck(p); }
    forall page: Page | page < WINDOW
      ensures Lookup(t', page) ==
              if Accepted(v, p) && page == v / PAGE_SIZE then Some(Mapping(p / PAGE_SIZE, w)) else Lookup(t, page)
    {
      MapChangesOnePage(t, v, p, w, page);
    }
    if Accepted(v, p) { assert Lookup(t', v / PAGE_SIZE) == Some(Mapping(p / PAGE_SIZE, w)); }
  }

  lemma WrapIsAccepted()
    ensures Accepted(0x40_0000, 0xffff_f400)
  {
  }
}
