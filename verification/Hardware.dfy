/** The machine the loader runs on: the page directory and page tables in memory, the
    rest of memory as bytes, the paging switch, and a TLB that may change between any
    two statements. Loader code reaches the tables at their link addresses, so with
    paging on a store to them is itself translated. */
module Hardware {
  import opened Words
  import opened MmCommon
  import opened Mmu
  import opened PagingModel

  // The directory and table pages are mapped to themselves.
  ghost predicate TablesInPlace(t: Tables)
    requires t.Shape()
  {
    forall f: Frame {:trigger t.Walk(f)} | t.IsTableFrame(f) :: t.Walk(f).Hit? && t.Walk(f).frame == f
  }

  // Every cached translation, the ones of page p apart, is the one the tables give.
  ghost predicate CoherentBut(t: Tables, tlb: set<Cached>, p: Page)
    requires t.Shape()
  {
    forall c | c in tlb && c.page != p :: Agrees(t, c)
  }

  // What holds of the tables and the TLB between calls, with paging on.
  ghost predicate SettledOn(t: Tables, tlb: set<Cached>) {
    Inv(t) && SelfMapped(t) && TablesInPlace(t) && Coherent(t, tlb)
  }

  // The same while the entry of page p is being updated: what is cached for p may be stale,
  // but not if p holds one of the tables.
  ghost predicate UpdatingOn(t: Tables, tlb: set<Cached>, p: Page) {
    && Inv(t) && SelfMapped(t) && TablesInPlace(t) && CoherentBut(t, tlb, p)
    && p < WINDOW && TableIdxIsImplemented(p / ENTRIES) && t.dir[p / ENTRIES].present
    && (t.IsTableFrame(p) ==> forall c | c in tlb && c.page == p :: c.frame == p)
  }

  // The hardware drops any cached translations and caches any the tables now give.
  ghost predicate MayBecome(t: Tables, before: set<Cached>, after: set<Cached>)
    requires t.Shape()
  {
    forall c | c in after :: c in before || Agrees(t, c)
  }

  /** Whatever cached translations are dropped, and whatever valid ones are cached. */
  lemma AnyMayBecome(t: Tables, before: set<Cached>, dropped: set<Cached>, added: set<Cached>)
    requires t.Shape() && forall c | c in added :: t.Walk(c.page) == Hit(c.frame, c.write)
    ensures MayBecome(t, before, before - dropped + added)
  {
  }

  class Machine {
    const dirFrame: Frame
    const ptFrame: Frame
    const dir: array<Entry>
    const tables: array<Entry>
    const ram: array<u8>
    var pagingOn: bool
    ghost var tlb: set<Cached>

    constructor (dirFrame: Frame, ptFrame: Frame)
      requires 0 < ptFrame && 4096 * (ptFrame + NUM_PAGE_TABLES) <= PADDR_MAX && 4096 * (dirFrame + 1) <= PADDR_MAX
      requires !(ptFrame <= dirFrame < ptFrame + NUM_PAGE_TABLES)
      ensures Valid() && !pagingOn && tlb == {}
      ensures this.dirFrame == dirFrame && this.ptFrame == ptFrame
      ensures fresh(dir) && fresh(tables) && fresh(ram)
    {
      this.dirFrame, this.ptFrame := dirFrame, ptFrame;
      dir := new Entry[ENTRIES](_ => CLEAR_ENTRY);
      tables := new Entry[NUM_PAGE_TABLES * ENTRIES](_ => CLEAR_ENTRY);
      ram := new u8[PADDR_MAX + 1](_ => 0);
      pagingOn := false;
      tlb := {};
    }

    function View(): (t: Tables)
      reads this, dir, tables
    {
      Tables(dirFrame, ptFrame, dir[..], tables[..])
    }

    ghost predicate Valid()
      reads this, dir, tables
    {
      dir != tables && ram.Length == PADDR_MAX + 1 && View().Shape() && (!pagingOn ==> tlb == {})
    }

    /** What holds between calls. */
    ghost predicate Settled()
      reads this, dir, tables
    {
      Valid() && if pagingOn then SettledOn(View(), tlb) else Inv(View())
    }

    // Whatever translation the hardware picks, an access to the linked address lands in the frame.
    ghost predicate Reaches(frame: Frame)
      requires Valid()
      reads this, dir, tables
    {
      pagingOn ==>
        && View().Walk(frame).Hit? && View().Walk(frame).frame == frame
        && forall c | c in tlb && c.page == frame :: c.frame == frame
    }

    ghost method Fill()
      requires Valid()
      modifies this`tlb
      ensures Valid() && MayBecome(View(), old(tlb), tlb)
    {
      if pagingOn {
        assert MayBecome(View(), tlb, tlb);
        var s: set<Cached> :| MayBecome(View(), tlb, s);
        tlb := s;
      }
    }

    // movl %cr3, %eax; movl %eax, %cr3
    ghost method ReloadCr3()
      requires Valid()
      modifies this`tlb
      ensures Valid() && Coherent(View(), tlb)
    {
      tlb := {};
      Fill();
    }

    method StoreDir(i: nat, e: Entry)
      requires Valid() && i < ENTRIES && Reaches(dirFrame)
      modifies dir, this`tlb
      ensures Valid() && View() == old(View()).(dir := old(View()).dir[i := e])
      ensures MayBecome(View(), old(tlb), tlb)
    {
      dir[i] := e;
      Fill();
    }

    method StoreTable(a: nat, j: nat, e: Entry)
      requires Valid() && a < NUM_PAGE_TABLES && j < ENTRIES && Reaches(ptFrame + a)
      modifies tables, this`tlb
      ensures Valid() && View() == old(View()).(pt := old(View()).pt[ENTRIES * a + j := e])
      ensures MayBecome(View(), old(tlb), tlb)
    {
      tables[ENTRIES * a + j] := e;
      Fill();
    }

    method LoadDir(i: nat) returns (e: Entry)
      requires Valid() && i < ENTRIES && Reaches(dirFrame)
      ensures e == View().dir[i]
    {
      e := dir[i];
    }

    method LoadTable(a: nat, j: nat) returns (e: Entry)
      requires Valid() && a < NUM_PAGE_TABLES && j < ENTRIES && Reaches(ptFrame + a)
      ensures e == View().pt[ENTRIES * a + j]
    {
      e := tables[ENTRIES * a + j];
    }

    // A byte access lands where the walk says; a cached translation says the same.
    ghost predicate Lands(v: u32)
      requires Settled()
      reads this, dir, tables
    {
      && pagingOn && View().Translate(v).Some? && View().Translate(v).value <= PADDR_MAX
      && !View().IsTableFrame(View().Translate(v).value / PAGE_SIZE)
    }

    method LoadByte(v: u32) returns (b: u8)
      requires Settled() && Lands(v)
      ensures forall c | c in tlb && c.page == v / PAGE_SIZE ::
        PAGE_SIZE * c.frame + v % PAGE_SIZE == View().Translate(v).value
      ensures b == ram[View().Translate(v).value]
    {
      b := ram[View().Translate(v).value];
    }

    // Word idx of a page, by whatever translation the hardware picks: the walk or a cached one.
    ghost predicate MayLoad(page: Page, idx: nat, w: u32)
      requires Valid() && idx < ENTRIES
      reads this, dir, tables
    {
      || View().WordOf(page, idx) == Some(w)
      || exists c :: c in tlb && c.page == page && View().PhysWord(c.frame, idx) == Some(w)
    }

    /** With coherent cached translations the word loaded is the one the walk leads to. */
    lemma LoadIsWalk(page: Page, idx: nat, w: u32)
      requires Settled() && pagingOn && idx < ENTRIES && MayLoad(page, idx, w)
      ensures View().WordOf(page, idx) == Some(w)
    {
      assert forall c | c in tlb :: Agrees(View(), c);
    }

    method LoadWord(page: Page, idx: nat) returns (w: u32)
      requires Settled() && pagingOn && idx < ENTRIES && View().WordOf(page, idx).Some?
      ensures MayLoad(page, idx, w)
    {
      w := View().WordOf(page, idx).value;
    }

    method StoreByte(v: u32, b: u8)
      requires Settled() && Lands(v)
      modifies ram
      ensures Settled()
      ensures forall c | c in tlb && c.page == v / PAGE_SIZE ::
        PAGE_SIZE * c.frame + v % PAGE_SIZE == View().Translate(v).value
      ensures ram[..] == old(ram[..])[View().Translate(v).value := b]
    {
      ram[View().Translate(v).value] := b;
    }
  }

  lemma InstallKeepsSettled(t: Tables, tlb: set<Cached>, i: nat, e: Entry, t': Tables, tlb': set<Cached>)
    requires SettledOn(t, tlb) && i < ENTRIES && !t.dir[i].present
    requires e.present ==> TableIdxIsImplemented(i) && e == DirEntry(TablesGetPaddr(t, i))
    requires t' == t.(dir := t.dir[i := e]) && MayBecome(t', tlb, tlb')
    ensures SettledOn(t', tlb')
  {
    InstallKeepsHits(t, i, e, 0);
    forall f: Frame | t'.IsTableFrame(f) ensures t'.Walk(f).Hit? && t'.Walk(f).frame == f {
      InstallKeepsHits(t, i, e, f);
    }
    forall c | c in tlb' ensures Agrees(t', c) {
      if c in tlb { InstallKeepsHits(t, i, e, c.page); }
    }
  }

  lemma TableStoreKeepsUpdating(t: Tables, tlb: set<Cached>, p: Page, e: Entry, t': Tables, tlb': set<Cached>)
    requires UpdatingOn(t, tlb, p)
    requires t.IsTableFrame(p) ==> e.present && e.frame == p
    requires t' == t.(pt := t.pt[Slot(p) := e]) && MayBecome(t', tlb, tlb')
    ensures UpdatingOn(t', tlb', p)
  {
    TableStoreChangesOnePage(t, p, e, p);
    forall f: Frame | t'.IsTableFrame(f) ensures t'.Walk(f).Hit? && t'.Walk(f).frame == f {
      TableStoreChangesOnePage(t, p, e, f);
    }
    forall c | c in tlb' && c.page != p ensures Agrees(t', c) {
      if c in tlb { TableStoreChangesOnePage(t, p, e, c.page); }
    }
    if t'.IsTableFrame(p) {
      forall c | c in tlb' && c.page == p ensures c.frame == p {
        if c !in tlb { assert Agrees(t', c); }
      }
    }
  }
}
