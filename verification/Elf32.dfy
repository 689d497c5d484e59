/** lib/elf32.c: the loader copies each PT_LOAD segment byte by byte to its virtual
    address, mapping a page whenever the destination pointer enters one. */
module Elf32 {
  import opened Words
  import opened Arith
  import opened MmCommon
  import opened Mmu
  import opened PagingModel
  import opened Hardware
  import Paging

  const PT_LOAD: u32 := 1

  datatype Ehdr = Ehdr(ident: seq<u8>, etype: u16, machine: u16, entry: u32, phentsize: u16, shentsize: u16)
  datatype Phdr = Phdr(ptype: u32, offset: u32, vaddr: u32, paddr: u32, filesz: u32, memsz: u32, flags: u32)

  predicate IsSupported(h: Ehdr)
    requires |h.ident| == 16
  {
    && h.ident[0] == 0x7f && h.ident[1] == 'E' as int && h.ident[2] == 'L' as int && h.ident[3] == 'F' as int
    && h.phentsize == 32 && h.shentsize == 40
    && h.ident[4] == 1 && h.ident[5] == 1 && h.machine == 3 && h.etype == 2
  }

  predicate Loadable(s: Phdr) { s.ptype == PT_LOAD }

  predicate Writable(s: Phdr) { s.flags / 2 % 2 == 1 }

  // The sums are made in 32 bits.
  predicate ValidProgseg(s: Phdr) {
    && AddrIsPageAligned(s.paddr) && AddrIsPageAligned(s.vaddr)
    && (s.paddr + s.memsz) % TWO32 <= KERNEL_PADDR_MAX
    && (s.vaddr + s.memsz) % TWO32 <= KERNEL_VADDR_MAX
  }

  /** The headers that are supported: 32-bit little-endian executables for the 80386, with header
      entries of the standard sizes. */
  lemma SupportedIff(h: Ehdr)
    requires |h.ident| == 16
    ensures IsSupported(h) <==>
            && h.ident[..6] == [0x7f, 0x45, 0x4c, 0x46, 1, 1] && h.etype == 2 && h.machine == 3
            && h.phentsize == 32 && h.shentsize == 40
  {
    assert h.ident[..6] == [h.ident[0], h.ident[1], h.ident[2], h.ident[3], h.ident[4], h.ident[5]];
  }

  /** Segments of type 1 are loaded; flag bit 1 makes their pages writable. */
  lemma SegmentFlags(s: Phdr, low: nat, bit: nat, high: nat)
    requires low <= 1 && bit <= 1 && s.flags == low + 2 * bit + 4 * high
    ensures Loadable(s) <==> s.ptype == 1
    ensures Writable(s) <==> bit == 1
  {
  }

  /** The header's own limits: the sums below 15 MiB and below the last 4 MiB. */
  lemma HeaderLimits(s: Phdr)
    requires s.vaddr + s.memsz < 0x1_0000_0000 && s.paddr + s.memsz < 0x1_0000_0000
    ensures ValidProgseg(s) <==>
            && s.paddr % 1024 == 0 && s.vaddr % 1024 == 0
            && s.paddr + s.memsz < 0xf0_0000 && s.vaddr + s.memsz < 0xffc0_0000
  {
  }

  /** The header check refuses nothing that map takes, but for a segment that ends exactly at 15 MiB. */
  lemma HeaderCheckIff(s: Phdr)
    requires s.vaddr % 4096 == 0 && s.paddr % 4096 == 0 && 0 < s.memsz
    requires s.vaddr + s.memsz <= TWO32 && s.paddr + s.memsz < TWO32 && PagesAccepted(s)
    ensures ValidProgseg(s) <==> s.paddr + s.memsz != 0xf0_0000
  {
    EndsBelow(s);
    Aligned(s.vaddr);
    Aligned(s.paddr);
    WithinLimits(s);
  }

  lemma Aligned(n: nat)
    requires n % 4096 == 0
    ensures n % 1024 == 0
  {
    var q := n / 4096;
    assert n == 4096 * q;
    Remainder(n, 1024, 4 * q);
  }

  lemma WithinLimits(s: Phdr)
    requires s.vaddr % 1024 == 0 && s.paddr % 1024 == 0
    requires s.paddr + s.memsz <= 0xf0_0000 && s.vaddr + s.memsz <= 0xc040_0000
    ensures ValidProgseg(s) <==> s.paddr + s.memsz != 0xf0_0000
  {
    HeaderLimits(s);
  }

  lemma EndsBelow(s: Phdr)
    requires s.vaddr % 4096 == 0 && s.paddr % 4096 == 0 && 0 < s.memsz
    requires s.vaddr + s.memsz <= TWO32 && s.paddr + s.memsz < TWO32 && PagesAccepted(s)
    ensures s.paddr + s.memsz <= 0xf0_0000 && s.vaddr + s.memsz <= 0xc040_0000
  {
    LastPage(s);
    var last: Page := (s.vaddr + s.memsz - 1) / 4096;
    assert PageAccepted(s, last);
    AcceptedIff(4096 * last, s.paddr + (4096 * last - s.vaddr));
    PageEnd(s.vaddr, s.paddr, s.memsz, last);
  }

  lemma PageEnd(v: nat, p: nat, n: nat, last: nat)
    requires v % 4096 == 0 && p % 4096 == 0 && 0 < n && last == (v + n - 1) / 4096 && v <= 4096 * last
    ensures v + n <= 4096 * last + 4096 && p + n <= p + (4096 * last - v) + 4096
    ensures (p + (4096 * last - v)) % 4096 == 0
  {
  }

  lemma LastPage(s: Phdr)
    requires s.vaddr % 4096 == 0 && 0 < s.memsz && s.vaddr + s.memsz <= TWO32
    ensures var last := (s.vaddr + s.memsz - 1) / 4096; 0 <= last < 0x10_0000 && Enters(s, last)
  {
  }

  // ---- What a segment claims

  // The pages the segment's bytes lie in, and those among them that the copy loop maps.
  predicate Touches(s: Phdr, page: int) {
    PAGE_SIZE * page < s.vaddr + s.memsz && s.vaddr < PAGE_SIZE * (page + 1)
  }

  predicate Enters(s: Phdr, page: int) {
    s.vaddr <= PAGE_SIZE * page < s.vaddr + s.memsz
  }

  predicate Holds(s: Phdr, addr: int) {
    s.paddr <= addr < s.paddr + s.memsz
  }

  // Translation by the partial map that the tables stand for.
  function Trans(m: Space, v: int): Option<int> {
    if 0 <= v < PAGE_SIZE * WINDOW && v / PAGE_SIZE in m
    then Some(PAGE_SIZE * m[v / PAGE_SIZE].frame + v % PAGE_SIZE) else None
  }

  lemma TransIsTranslate(t: Tables, m: Space, v: u32)
    requires t.Shape() && Represents(t, m) && v / PAGE_SIZE < WINDOW
    ensures t.Translate(v) == Trans(m, v)
  {
    assert Lookup(t, v / PAGE_SIZE) == Get(m, v / PAGE_SIZE);
  }

  /** The loader asks for 1 KiB alignment only. A segment's bytes end up where its header
      says exactly when both addresses are page aligned, or the first page, which the
      loop does not map, already leads to the right place. */
  predicate Aims(m: Space, s: Phdr) {
    if s.vaddr % PAGE_SIZE == 0 then s.paddr % PAGE_SIZE == 0 else Trans(m, s.vaddr) == Some(s.paddr)
  }

  // The same, and a first page mapped beforehand lies in available memory.
  predicate StartsRight(m: Space, s: Phdr) {
    s.memsz == 0 || (Aims(m, s) && (s.vaddr % PAGE_SIZE == 0 || PAGE_SIZE * (s.paddr / PAGE_SIZE + 1) <= PADDR_MAX + 1))
  }

  // The segment is not laid over the tables, in virtual or in physical memory.
  ghost predicate OffTables(t: Tables, s: Phdr) {
    && (forall page: Page | t.IsTableFrame(page) :: !Enters(s, page))
    && (forall a | Holds(s, a) :: !t.IsTableFrame(a / PAGE_SIZE))
  }

  // The len bytes at src are mapped, to ordinary memory.
  ghost predicate Readable(t: Tables, m: Space, src: int, len: int) {
    forall a | src <= a < src + len ::
      Trans(m, a).Some? && Trans(m, a).value <= PADDR_MAX && !t.IsTableFrame(Trans(m, a).value / PAGE_SIZE)
  }

  // Segment s is laid over none of the len bytes at src.
  ghost predicate Clear(m: Space, s: Phdr, src: int, len: int) {
    forall a | src <= a < src + len :: !Enters(s, a / PAGE_SIZE) && (Trans(m, a).Some? ==> !Holds(s, Trans(m, a).value))
  }

  // Byte k of the segment: from the file, then zeros.
  function SegByte(m: Space, ram: seq<u8>, s: Phdr, src: int, k: int): u8 {
    if k < s.filesz && Trans(m, src + k).Some? && Trans(m, src + k).value < |ram|
    then ram[Trans(m, src + k).value] else 0
  }

  /** The segment reads back: through the translation, at the physical address of its
      header, its file bytes followed by zeros. The pages entered have its permission. */
  ghost predicate Loaded(m: Space, ram: seq<u8>, s: Phdr, m0: Space, ram0: seq<u8>, src: int) {
    && Permitted(m, s)
    && forall k | 0 <= k < s.memsz :: Placed(m, s, k) && ByteAt(ram, s.paddr + k, SegByte(m0, ram0, s, src, k))
  }

  ghost predicate Permitted(m: Space, s: Phdr) {
    forall page: Page | Enters(s, page) :: Get(m, page).Some? && Get(m, page).value.write == Writable(s)
  }

  predicate Placed(m: Space, s: Phdr, k: int) {
    Trans(m, s.vaddr + k) == Some(s.paddr + k)
  }

  predicate AllPlaced(m: Space, s: Phdr) {
    forall k | 0 <= k < s.memsz :: Placed(m, s, k)
  }

  predicate ByteAt(ram: seq<u8>, addr: int, b: u8) {
    0 <= addr < |ram| && ram[addr] == b
  }

  // The loop's map request for a page it enters, and whether map accepts it.
  predicate PageAccepted(s: Phdr, page: Page) {
    var paddr := s.paddr + (PAGE_SIZE * page - s.vaddr);
    0 <= paddr < TWO32 && Accepted(PAGE_SIZE * page, paddr)
  }

  ghost predicate PagesAccepted(s: Phdr) {
    forall page: Page | Enters(s, page) :: PageAccepted(s, page)
  }

  // The lockstep invariant, on the map: the pages of the first k bytes lead to the segment.
  ghost predicate MapAt(m: Space, s: Phdr, m0: Space, k: int) {
    forall page: Page ::
      if Enters(s, page) && PAGE_SIZE * page < s.vaddr + k
      then PageAccepted(s, page) &&
        Get(m, page) == Some(Mapping((s.paddr + (PAGE_SIZE * page - s.vaddr)) / PAGE_SIZE, Writable(s)))
      else Get(m, page) == Get(m0, page)
  }

  // The lockstep invariant, on memory: k bytes are in place and nothing else has changed.
  ghost predicate RamAt(ram: seq<u8>, s: Phdr, m0: Space, ram0: seq<u8>, src: int, k: int) {
    && |ram| == |ram0|
    && forall a | 0 <= a < |ram| ::
      ram[a] == if s.paddr <= a < s.paddr + k then SegByte(m0, ram0, s, src, a - s.paddr) else ram0[a]
  }

  // Entering a page: the request made there moves the invariant on by one byte.
  lemma EnterPage(m: Space, s: Phdr, m0: Space, k: int, m': Space)
    requires MapAt(m, s, m0, k) && 0 <= k < s.memsz && s.vaddr + k < TWO32 && s.paddr + k < TWO32
    requires (s.vaddr + k) % PAGE_SIZE == 0 && PageAccepted(s, (s.vaddr + k) / PAGE_SIZE)
    requires m' == SpecApply(m, Op.Map(s.vaddr + k, s.paddr + k, Writable(s)))
    ensures MapAt(m', s, m0, k + 1)
  {
    forall page: Page
      ensures Enters(s, page) && PAGE_SIZE * page < s.vaddr + k + 1 <==>
              page == (s.vaddr + k) / PAGE_SIZE || (Enters(s, page) && PAGE_SIZE * page < s.vaddr + k)
    {
    }
  }

  lemma StayInPage(m: Space, s: Phdr, m0: Space, k: int)
    requires MapAt(m, s, m0, k) && (s.vaddr + k) % PAGE_SIZE != 0
    ensures MapAt(m, s, m0, k + 1)
  {
    forall page: Page ensures PAGE_SIZE * page < s.vaddr + k + 1 <==> PAGE_SIZE * page < s.vaddr + k {
      PageStarts(page);
    }
  }

  lemma PageStarts(page: nat)
    ensures PAGE_SIZE * page % PAGE_SIZE == 0
  {
    Remainder(PAGE_SIZE * page, PAGE_SIZE, page);
  }

  // Congruent addresses keep their distance from page to page.
  lemma Lockstep(v: nat, p: nat, j: nat)
    requires v % PAGE_SIZE == p % PAGE_SIZE && v <= PAGE_SIZE * ((v + j) / PAGE_SIZE)
    ensures PAGE_SIZE * ((p + (PAGE_SIZE * ((v + j) / PAGE_SIZE) - v)) / PAGE_SIZE) + (v + j) % PAGE_SIZE == p + j
  {
  }

  lemma SamePage(v: nat, j: nat)
    requires PAGE_SIZE * ((v + j) / PAGE_SIZE) < v
    ensures (v + j) / PAGE_SIZE == v / PAGE_SIZE && (v + j) % PAGE_SIZE == v % PAGE_SIZE + j && v % PAGE_SIZE != 0
  {
  }

  /** Once the page of byte j has been passed, byte j translates to its place. */
  lemma ByteTranslates(m: Space, s: Phdr, m0: Space, k: int, j: int)
    requires MapAt(m, s, m0, k) && Aims(m0, s) && 0 <= j < s.memsz
    requires PAGE_SIZE * ((s.vaddr + j) / PAGE_SIZE) < s.vaddr + k
    requires s.vaddr + j < TWO32
    ensures Trans(m, s.vaddr + j) == Some(s.paddr + j)
    ensures StartsRight(m0, s) ==> s.paddr + j <= PADDR_MAX
  {
    var page: Page := (s.vaddr + j) / PAGE_SIZE;
    if Enters(s, page) {
      StartsCongruent(m0, s);
      AcceptedBelowWindow(s, page);
      Lockstep(s.vaddr, s.paddr, j);
    } else {
      SamePage(s.vaddr, j);
      assert Get(m, page) == Get(m0, page);
    }
  }

  // The map after the requests made for the first k bytes of the segment.
  ghost function Requested(m0: Space, s: Phdr, k: nat): Space
    requires s.vaddr + k <= TWO32 && s.paddr + k <= TWO32
  {
    if k == 0 then m0 else
      var m, v: int, p: int := Requested(m0, s, k - 1), s.vaddr + k - 1, s.paddr + k - 1;
      if v % PAGE_SIZE == 0 then SpecApply(m, Op.Map(v, p, Writable(s))) else m
  }

  /** Whatever the segment's addresses, when all requests are accepted its pages lead where the
      requests say, and no other page has changed. */
  lemma {:induction false} RequestedPages(m0: Space, s: Phdr, k: nat)
    requires s.vaddr + k <= TWO32 && s.paddr + k <= TWO32 && k <= s.memsz && PagesAccepted(s)
    ensures MapAt(Requested(m0, s, k), s, m0, k)
  {
    if k == 0 {
      assert forall page: Page | Enters(s, page) :: !(PAGE_SIZE * page < s.vaddr);
    } else {
      RequestedPages(m0, s, k - 1);
      var m := Requested(m0, s, k - 1);
      if (s.vaddr + k - 1) % PAGE_SIZE == 0 {
        RequestOfPage(s, k - 1);
        EnterPage(m, s, m0, k - 1, Requested(m0, s, k));
      } else {
        StayInPage(m, s, m0, k - 1);
      }
    }
  }

  /** After the requests of a segment, all accepted: every byte translates to its place if and only
      if the segment aims right. */
  lemma PlacedIffAims(m0: Space, s: Phdr)
    requires 0 < s.memsz && s.vaddr + s.memsz <= TWO32 && s.paddr + s.memsz <= TWO32 && PagesAccepted(s)
    ensures AllPlaced(Requested(m0, s, s.memsz), s) <==> Aims(m0, s)
  {
    RequestedPages(m0, s, s.memsz);
    MappedIffAims(Requested(m0, s, s.memsz), s, m0);
  }

  lemma MappedIffAims(m: Space, s: Phdr, m0: Space)
    requires MapAt(m, s, m0, s.memsz) && 0 < s.memsz && s.vaddr + s.memsz <= TWO32
    ensures AllPlaced(m, s) <==> Aims(m0, s)
  {
    if Aims(m0, s) {
      forall k | 0 <= k < s.memsz ensures Placed(m, s, k) {
        ByteTranslates(m, s, m0, s.memsz, k);
      }
    } else {
      var page: Page := s.vaddr / PAGE_SIZE;
      if s.vaddr % PAGE_SIZE == 0 {
        assert PageAccepted(s, page);
      } else {
        assert Get(m, page) == Get(m0, page);
      }
      assert !Placed(m, s, 0);
    }
  }

  // The checks let a segment through whose bytes land 1 KiB below their addresses.
  lemma MisaimedIsAccepted()
    ensures var s := Phdr(PT_LOAD, 0, 0x40_0000, 0x20_0400, 16, 16, 0);
            ValidProgseg(s) && PagesAccepted(s) && forall m :: !Aims(m, s)
  {
  }

  lemma StartsCongruent(m: Space, s: Phdr)
    requires Aims(m, s)
    ensures s.paddr % PAGE_SIZE == s.vaddr % PAGE_SIZE
  {
  }

  lemma AcceptedBelowWindow(s: Phdr, page: Page)
    requires PageAccepted(s, page) && s.paddr % PAGE_SIZE == s.vaddr % PAGE_SIZE
    ensures page < WINDOW && s.paddr + (PAGE_SIZE * page - s.vaddr) + PAGE_SIZE - 1 <= PADDR_MAX
  {
  }

  // ---- The copy loops

  /** What a call of the segment loader may assume: the machine is settled and stands for
      the map, and the segment is laid over neither the tables nor its own file bytes. */
  ghost predicate Ready(m: Machine, space: Space, s: Phdr, src: int)
    reads m, m.dir, m.tables
  {
    && m.Settled() && m.pagingOn && Represents(m.View(), space)
    && s.filesz <= s.memsz && StartsRight(space, s) && OffTables(m.View(), s)
    && 0 <= src && Readable(m.View(), space, src, s.filesz) && Clear(space, s, src, s.filesz)
  }

  // The state between two bytes.
  ghost predicate At(m: Machine, space: Space, s: Phdr, space0: Space, ram0: seq<u8>, src: int, kMap: int, kRam: int)
    reads m, m.dir, m.tables, m.ram
  {
    && m.Settled() && m.pagingOn && Represents(m.View(), space)
    && MapAt(space, s, space0, kMap) && RamAt(m.ram[..], s, space0, ram0, src, kRam)
  }

  // paging_map, on the map.
  method MapPage(m: Machine, vaddr: u32, paddr: u32, writable: bool, ghost space: Space, ghost space': Space)
    returns (code: int)
    requires space' == SpecApply(space, Op.Map(vaddr, paddr, writable))
    requires m.Settled() && m.pagingOn && Represents(m.View(), space) && !m.View().IsTableFrame(vaddr / PAGE_SIZE)
    modifies m.dir, m.tables, m`tlb
    ensures m.Settled() && Represents(m.View(), space')
    ensures code == 0 <==> Accepted(vaddr, paddr)
    ensures m.View().dirFrame == old(m.View()).dirFrame && m.View().ptFrame == old(m.View()).ptFrame
  {
    ApplyRefines(m.View(), space, Op.Map(vaddr, paddr, writable));
    code := Paging.Map(m, vaddr, paddr, writable);
  }

  // The request for the page that byte k starts.
  lemma RequestOfPage(s: Phdr, k: nat)
    requires k < s.memsz && s.vaddr + k < TWO32 && s.paddr + k < TWO32 && (s.vaddr + k) % PAGE_SIZE == 0
    ensures var page: Page := (s.vaddr + k) / PAGE_SIZE;
      && PAGE_SIZE * page == s.vaddr + k && Enters(s, page)
      && (PageAccepted(s, page) <==> Accepted(s.vaddr + k, s.paddr + k))
      && (PagesAccepted(s) ==> PageAccepted(s, page))
  {
  }

  // if (!(dst % PAGE_SIZE)) paging_map(...)
  method MapOnEntry(m: Machine, s: Phdr, k: nat, ghost space: Space, ghost space0: Space, ghost ram0: seq<u8>,
                    ghost src: int)
    returns (code: int, ghost space': Space)
    requires k < s.memsz && s.vaddr + k < TWO32 && s.paddr + k < TWO32
    requires At(m, space, s, space0, ram0, src, k, k) && OffTables(m.View(), s)
    modifies m.dir, m.tables, m`tlb
    ensures code == 0 ==> At(m, space', s, space0, ram0, src, k + 1, k)
    ensures code != 0 ==> !PagesAccepted(s) && m.Settled()
    ensures m.View().dirFrame == old(m.View()).dirFrame && m.View().ptFrame == old(m.View()).ptFrame
  {
    if (s.vaddr + k) % PAGE_SIZE == 0 {
      code, space' := RequestPage(m, s, k, space, space0);
    } else {
      StayInPage(space, s, space0, k);
      space', code := space, 0;
    }
  }

  method RequestPage(m: Machine, s: Phdr, k: nat, ghost space: Space, ghost space0: Space)
    returns (code: int, ghost space': Space)
    requires k < s.memsz && s.vaddr + k < TWO32 && s.paddr + k < TWO32 && (s.vaddr + k) % PAGE_SIZE == 0
    requires m.Settled() && m.pagingOn && Represents(m.View(), space) && MapAt(space, s, space0, k)
    requires OffTables(m.View(), s)
    modifies m.dir, m.tables, m`tlb
    ensures m.Settled() && Represents(m.View(), space')
    ensures if code == 0 then MapAt(space', s, space0, k + 1) else !PagesAccepted(s)
    ensures m.View().dirFrame == old(m.View()).dirFrame && m.View().ptFrame == old(m.View()).ptFrame
  {
    RequestOfPage(s, k);
    space' := SpecApply(space, Op.Map(s.vaddr + k, s.paddr + k, Writable(s)));
    code := MapPage(m, s.vaddr + k, s.paddr + k, Writable(s), space, space');
    if code == 0 { EnterPage(space, s, space0, k, space'); }
  }

  // *dst++ = byte
  method PutByte(m: Machine, s: Phdr, k: nat, b: u8, ghost space: Space, ghost space0: Space, ghost ram0: seq<u8>,
                 ghost src: int)
    requires k < s.memsz && s.vaddr + k < TWO32
    requires At(m, space, s, space0, ram0, src, k + 1, k) && OffTables(m.View(), s) && StartsRight(space0, s)
    requires b == SegByte(space0, ram0, s, src, k)
    modifies m.ram
    ensures At(m, space, s, space0, ram0, src, k + 1, k + 1)
    ensures s.vaddr + k + 1 < TWO32 && s.paddr + k + 1 < TWO32
  {
    ByteTranslates(space, s, space0, k + 1, k);
    TransIsTranslate(m.View(), space, s.vaddr + k);
    assert Holds(s, s.paddr + k);
    ghost var ram := m.ram[..];
    m.StoreByte(s.vaddr + k, b);
    RamGrows(ram, m.ram[..], s, space0, ram0, src, k, b);
  }

  lemma RamGrows(ram: seq<u8>, ram': seq<u8>, s: Phdr, m0: Space, ram0: seq<u8>, src: int, k: nat, b: u8)
    requires RamAt(ram, s, m0, ram0, src, k) && s.paddr + k < |ram| && b == SegByte(m0, ram0, s, src, k)
    requires ram' == ram[s.paddr + k := b]
    ensures RamAt(ram', s, m0, ram0, src, k + 1)
  {
  }

  // *src++
  method GetByte(m: Machine, s: Phdr, k: nat, ghost space: Space, ghost space0: Space, ghost ram0: seq<u8>,
                 src: int) returns (b: u8)
    requires k < s.filesz <= s.memsz && 0 <= src
    requires At(m, space, s, space0, ram0, src, k + 1, k)
    requires Readable(m.View(), space0, src, s.filesz) && Clear(space0, s, src, s.filesz)
    ensures b == SegByte(space0, ram0, s, src, k)
  {
    ghost var ram := m.ram[..];
    SourceByte(m.View(), space, s, k, space0, src, ram, ram0);
    b := LoadAt(m, src + k, space, Trans(space0, src + k).value);
  }

  // A load from an address that the map leads to ordinary memory.
  method LoadAt(m: Machine, v: u32, ghost space: Space, ghost p: int) returns (b: u8)
    requires m.Settled() && m.pagingOn && Represents(m.View(), space) && v < PAGE_SIZE * WINDOW
    requires Trans(space, v) == Some(p) && 0 <= p <= PADDR_MAX && !m.View().IsTableFrame(p / PAGE_SIZE)
    ensures b == m.ram[..][p]
  {
    TransIsTranslate(m.View(), space, v);
    b := m.LoadByte(v);
  }

  // Byte k of the file is where it was, and what it was.
  lemma SourceByte(t: Tables, space: Space, s: Phdr, k: nat, space0: Space, src: int, ram: seq<u8>, ram0: seq<u8>)
    requires k < s.filesz <= s.memsz && 0 <= src && |ram| == PADDR_MAX + 1
    requires MapAt(space, s, space0, k + 1) && RamAt(ram, s, space0, ram0, src, k)
    requires Readable(t, space0, src, s.filesz) && Clear(space0, s, src, s.filesz)
    ensures 0 <= src + k < PAGE_SIZE * WINDOW && Trans(space, src + k) == Trans(space0, src + k)
    ensures var p := Trans(space0, src + k);
      && p.Some? && 0 <= p.value < |ram| && !t.IsTableFrame(p.value / PAGE_SIZE)
      && ram[p.value] == SegByte(space0, ram0, s, src, k)
  {
    assert src <= src + k < src + s.filesz;
    assert Trans(space0, src + k).Some?;
    assert Get(space, (src + k) / PAGE_SIZE) == Get(space0, (src + k) / PAGE_SIZE);
    assert !Holds(s, Trans(space0, src + k).value);
  }

  lemma AllInPlace(m: Space, ram: seq<u8>, s: Phdr, m0: Space, ram0: seq<u8>, src: int)
    requires MapAt(m, s, m0, s.memsz) && RamAt(ram, s, m0, ram0, src, s.memsz) && StartsRight(m0, s)
    requires |ram| == PADDR_MAX + 1
    requires s.vaddr + s.memsz <= TWO32
    ensures Loaded(m, ram, s, m0, ram0, src) && PagesAccepted(s)
    ensures forall page: Page | !Enters(s, page) :: Get(m, page) == Get(m0, page)
    ensures forall a | 0 <= a < |ram| && !Holds(s, a) :: ram[a] == ram0[a]
  {
    forall k | 0 <= k < s.memsz
      ensures Placed(m, s, k) && ByteAt(ram, s.paddr + k, SegByte(m0, ram0, s, src, k))
    {
      ByteTranslates(m, s, m0, s.memsz, k);
    }
  }

  // One round of the first loop, for byte k of the file.
  method CopyByte(m: Machine, s: Phdr, k: nat, ghost space: Space, ghost space0: Space, ghost ram0: seq<u8>, src: int)
    returns (code: int, ghost space': Space)
    requires k < s.filesz <= s.memsz && s.vaddr + k < TWO32 && s.paddr + k < TWO32 && 0 <= src
    requires At(m, space, s, space0, ram0, src, k, k) && OffTables(m.View(), s) && StartsRight(space0, s)
    requires Readable(m.View(), space0, src, s.filesz) && Clear(space0, s, src, s.filesz)
    modifies m.dir, m.tables, m.ram, m`tlb
    ensures m.View().dirFrame == old(m.View()).dirFrame && m.View().ptFrame == old(m.View()).ptFrame
    ensures code == 0 ==>
      At(m, space', s, space0, ram0, src, k + 1, k + 1) && s.vaddr + k + 1 < TWO32 && s.paddr + k + 1 < TWO32
    ensures code != 0 ==> !PagesAccepted(s) && m.Settled()
  {
    code, space' := MapOnEntry(m, s, k, space, space0, ram0, src);
    if code == 0 {
      var b := GetByte(m, s, k, space', space0, ram0, src);
      PutByte(m, s, k, b, space', space0, ram0, src);
    }
  }

  // First loop: the bytes present in the file.
  method CopyLoop(m: Machine, s: Phdr, ghost space: Space, src0: int) returns (code: int, ghost space': Space)
    requires Ready(m, space, s, src0)
    modifies m.dir, m.tables, m.ram, m`tlb
    ensures m.View().dirFrame == old(m.View()).dirFrame && m.View().ptFrame == old(m.View()).ptFrame
    ensures code == 0 ==> At(m, space', s, space, old(m.ram[..]), src0, s.filesz, s.filesz)
    ensures code == 0 ==> s.vaddr + s.filesz < TWO32 && s.paddr + s.filesz < TWO32
    ensures code != 0 ==> !PagesAccepted(s) && m.Settled()
  {
    space' := space;
    ghost var t0, ram0 := m.View(), m.ram[..];
    var paddr, dst, src := s.paddr, s.vaddr, src0;
    var filesz, memsz := s.filesz, s.memsz;
    while filesz != 0
      invariant 0 <= filesz <= s.filesz && memsz == filesz + (s.memsz - s.filesz)
      invariant paddr == s.paddr + (s.filesz - filesz) < TWO32 && dst == s.vaddr + (s.filesz - filesz) < TWO32
      invariant src == src0 + (s.filesz - filesz)
      invariant At(m, space', s, space, ram0, src0, s.filesz - filesz, s.filesz - filesz)
      invariant m.View().dirFrame == t0.dirFrame && m.View().ptFrame == t0.ptFrame
    {
      code, space' := CopyByte(m, s, dst - s.vaddr, space', space, ram0, src0);
      if code != 0 { return; }
      filesz, memsz, paddr, dst, src := filesz - 1, memsz - 1, paddr + 1, dst + 1, src + 1;
    }
    code := 0;
  }

  // Second loop: the bytes not present in the file are zeroed.
  method ZeroLoop(m: Machine, s: Phdr, ghost space0: Space, ghost space: Space, ghost ram0: seq<u8>, ghost src0: int)
    returns (code: int, ghost space': Space)
    requires s.filesz <= s.memsz && s.vaddr + s.filesz < TWO32 && s.paddr + s.filesz < TWO32
    requires At(m, space, s, space0, ram0, src0, s.filesz, s.filesz) && OffTables(m.View(), s) && StartsRight(space0, s)
    modifies m.dir, m.tables, m.ram, m`tlb
    ensures m.View().dirFrame == old(m.View()).dirFrame && m.View().ptFrame == old(m.View()).ptFrame
    ensures code == 0 ==> At(m, space', s, space0, ram0, src0, s.memsz, s.memsz) && s.vaddr + s.memsz < TWO32
    ensures code != 0 ==> !PagesAccepted(s) && m.Settled()
  {
    space' := space;
    var paddr, dst, memsz := s.paddr + s.filesz, s.vaddr + s.filesz, s.memsz - s.filesz;
    while memsz != 0
      invariant 0 <= memsz <= s.memsz - s.filesz
      invariant paddr == s.paddr + (s.memsz - memsz) < TWO32 && dst == s.vaddr + (s.memsz - memsz) < TWO32
      invariant At(m, space', s, space0, ram0, src0, s.memsz - memsz, s.memsz - memsz)
      invariant m.View().dirFrame == old(m.View()).dirFrame && m.View().ptFrame == old(m.View()).ptFrame
    {
      code, space' := MapOnEntry(m, s, dst - s.vaddr, space', space0, ram0, src0);
      if code != 0 { return; }
      PutByte(m, s, dst - s.vaddr, 0, space', space0, ram0, src0);
      memsz, paddr, dst := memsz - 1, paddr + 1, dst + 1;
    }
    code := 0;
  }

  /** One segment. It is accepted exactly when its header passes the checks and map
      accepts every page it enters; then all its bytes are in place, and no other page
      and no other byte has changed. */
  method MapProgseg(m: Machine, ehdrAddr: u32, s: Phdr, ghost space: Space) returns (code: int, ghost space': Space)
    requires ehdrAddr + s.offset < TWO32
    requires Ready(m, space, s, ehdrAddr + s.offset)
    modifies m.dir, m.tables, m.ram, m`tlb
    ensures m.Settled() && m.View().dirFrame == old(m.View()).dirFrame && m.View().ptFrame == old(m.View()).ptFrame
    ensures code == 0 <==> ValidProgseg(s) && PagesAccepted(s)
    ensures code == 0 ==>
              && Represents(m.View(), space')
              && Loaded(space', m.ram[..], s, space, old(m.ram[..]), ehdrAddr + s.offset)
              && (forall page: Page | !Enters(s, page) :: Get(space', page) == Get(space, page))
              && (forall a | 0 <= a < m.ram.Length && !Holds(s, a) :: m.ram[a] == old(m.ram[a]))
  {
    space' := space;
    ghost var ram0 := m.ram[..];
    var src := ehdrAddr + s.offset;
    if !ValidProgseg(s) { return 1, space; }
    code, space' := CopyLoop(m, s, space, src);
    if code != 0 { return; }
    code, space' := ZeroLoop(m, s, space, space', ram0, src);
    if code != 0 { return; }
    AllInPlace(space', m.ram[..], s, space, ram0, src);
  }

  /** The hardware walk agrees: byte k of a loaded segment is at its physical address. */
  lemma LoadedTranslates(t: Tables, m: Space, ram: seq<u8>, s: Phdr, m0: Space, ram0: seq<u8>, src: int, k: nat)
    requires t.Shape() && Represents(t, m) && Loaded(m, ram, s, m0, ram0, src) && k < s.memsz && s.vaddr + k < TWO32
    ensures t.Translate(s.vaddr + k) == Some(s.paddr + k) && ByteAt(ram, s.paddr + k, SegByte(m0, ram0, s, src, k))
  {
    assert Placed(m, s, k);
    TransIsTranslate(t, m, s.vaddr + k);
  }

  /** In bytes of memory, when memory was mapped to itself: the file's bytes, then zeros. */
  lemma LoadedFromMemory(m: Space, ram: seq<u8>, s: Phdr, ram0: seq<u8>, src: nat, k: nat)
    requires |ram0| == 0xf0_0000 && src + s.filesz <= 0xf0_0000 && k < s.memsz
    requires Loaded(m, ram, s, Paging.Identity(0xf00), ram0, src)
    ensures s.paddr + k < |ram| && ram[s.paddr + k] == if k < s.filesz then ram0[src + k] else 0
  {
    assert ByteAt(ram, s.paddr + k, SegByte(Paging.Identity(0xf00), ram0, s, src, k));
    if k < s.filesz { Paging.IdentityIs(src + k); }
  }

  /** And its pages may be written exactly if bit 1 of the segment's flags says so. */
  lemma LoadedIsPermitted(t: Tables, m: Space, ram: seq<u8>, s: Phdr, m0: Space, ram0: seq<u8>, src: int, page: Page)
    requires t.Shape() && Represents(t, m) && Loaded(m, ram, s, m0, ram0, src)
    requires s.vaddr <= 4096 * page < s.vaddr + s.memsz
    ensures Lookup(t, page).Some? && (Lookup(t, page).value.write <==> s.flags / 2 % 2 == 1)
  {
    assert Enters(s, page);
    assert Placed(m, s, 4096 * page - s.vaddr);
    assert Lookup(t, page) == Get(m, page);
  }

  // ---- The whole image

  // Memory size of the loadable ones among the first n segments.
  function TotalMemsz(phdrs: seq<Phdr>, n: nat): nat
    requires n <= |phdrs|
  {
    if n == 0 then 0 else TotalMemsz(phdrs, n - 1) + if Loadable(phdrs[n - 1]) then phdrs[n - 1].memsz else 0
  }

  // _progsegs_get_memsz: a 32-bit sum.
  method ProgsegsGetMemsz(phdrs: seq<Phdr>) returns (sum: u32)
    ensures sum == TotalMemsz(phdrs, |phdrs|) % TWO32
  {
    sum := 0;
    for i := 0 to |phdrs|
      invariant sum == TotalMemsz(phdrs, i) % TWO32
    {
      if Loadable(phdrs[i]) { sum := (sum + phdrs[i].memsz) % TWO32; }
    }
  }

  /** The segments are laid over neither the tables, nor each other, nor the image bytes. */
  ghost predicate LaidOut(t: Tables, m: Space, base: int, phdrs: seq<Phdr>) {
    && (forall i | 0 <= i < |phdrs| && Loadable(phdrs[i]) ::
          var s := phdrs[i];
          && s.filesz <= s.memsz && base + s.offset < TWO32
          && StartsRight(m, s) && OffTables(t, s) && Readable(t, m, base + s.offset, s.filesz))
    && (forall i, j | 0 <= i < |phdrs| && Loadable(phdrs[i]) && 0 <= j < |phdrs| && Loadable(phdrs[j]) ::
          && Clear(m, phdrs[j], base + phdrs[i].offset, phdrs[i].filesz)
          && (i != j ==> Disjoint(phdrs[i], phdrs[j])))
  }

  // No page of a is entered by b, and no physical byte belongs to both.
  ghost predicate Disjoint(a: Phdr, b: Phdr) {
    (forall page :: !(Touches(a, page) && Enters(b, page))) && (forall addr :: !(Holds(a, addr) && Holds(b, addr)))
  }

  // Segment j is one of the first n and is to be loaded.
  predicate Among(phdrs: seq<Phdr>, n: nat, j: int) {
    0 <= j < n <= |phdrs| && Loadable(phdrs[j])
  }

  // What is outside the first n segments is as it was.
  ghost predicate RestKept(m: Space, ram: seq<u8>, m0: Space, ram0: seq<u8>, phdrs: seq<Phdr>, n: nat) {
    && |ram| == |ram0|
    && (forall page: Page | (forall j | Among(phdrs, n, j) :: !Enters(phdrs[j], page)) :: Get(m, page) == Get(m0, page))
    && (forall a | 0 <= a < |ram| && (forall j | Among(phdrs, n, j) :: !Holds(phdrs[j], a)) :: ram[a] == ram0[a])
  }

  ghost predicate AllLoaded(m: Space, ram: seq<u8>, m0: Space, ram0: seq<u8>, base: int, phdrs: seq<Phdr>, n: nat) {
    forall j | Among(phdrs, n, j) :: Loaded(m, ram, phdrs[j], m0, ram0, base + phdrs[j].offset)
  }

  // Segment i of a laid-out image finds the machine ready, whatever the segments before it did.
  lemma ReadyNext(t0: Tables, m0: Space, ram0: seq<u8>, base: int, phdrs: seq<Phdr>, i: nat, m: Space, ram: seq<u8>)
    requires LaidOut(t0, m0, base, phdrs) && i < |phdrs| && Loadable(phdrs[i])
    requires RestKept(m, ram, m0, ram0, phdrs, i)
    ensures var s := phdrs[i];
      StartsRight(m, s) && Readable(t0, m, base + s.offset, s.filesz) && Clear(m, s, base + s.offset, s.filesz)
  {
    var s := phdrs[i];
    var src := base + s.offset;
    forall a | src <= a < src + s.filesz ensures Trans(m, a) == Trans(m0, a) {
      if 0 <= a < PAGE_SIZE * WINDOW {
        assert Get(m, a / PAGE_SIZE) == Get(m0, a / PAGE_SIZE);
      }
    }
    if s.vaddr % PAGE_SIZE != 0 && 0 < s.memsz {
      assert Touches(s, s.vaddr / PAGE_SIZE);
      assert Get(m, s.vaddr / PAGE_SIZE) == Get(m0, s.vaddr / PAGE_SIZE);
    }
  }

  // What segment i is copied from is still what the image held at the start.
  lemma SourceKept(t0: Tables, m0: Space, ram0: seq<u8>, base: int, phdrs: seq<Phdr>, i: nat, m: Space,
                   ram: seq<u8>, k: nat)
    requires LaidOut(t0, m0, base, phdrs) && i < |phdrs| && Loadable(phdrs[i])
    requires RestKept(m, ram, m0, ram0, phdrs, i) && |ram| == PADDR_MAX + 1
    ensures SegByte(m, ram, phdrs[i], base + phdrs[i].offset, k) ==
      SegByte(m0, ram0, phdrs[i], base + phdrs[i].offset, k)
  {
    var a := base + phdrs[i].offset + k;
    if k < phdrs[i].filesz {
      assert Trans(m0, a).Some?;
      assert Get(m, a / PAGE_SIZE) == Get(m0, a / PAGE_SIZE);
      var p := Trans(m0, a).value;
      assert ram[p] == ram0[p];
    }
  }

  /** Image bytes that no segment is laid over, such as the program headers themselves, read as
      they did at the start. */
  lemma ImageBytesKept(t0: Tables, m0: Space, ram0: seq<u8>, phdrs: seq<Phdr>, n: nat, m: Space, ram: seq<u8>,
                       src: int, len: int, a: int)
    requires RestKept(m, ram, m0, ram0, phdrs, n) && |ram| == PADDR_MAX + 1 && src <= a < src + len
    requires Readable(t0, m0, src, len) && forall j | Among(phdrs, n, j) :: Clear(m0, phdrs[j], src, len)
    ensures Trans(m, a) == Trans(m0, a) && Trans(m, a).Some? && ram[Trans(m, a).value] == ram0[Trans(m, a).value]
  {
    assert Trans(m0, a).Some?;
    assert forall j | Among(phdrs, n, j) :: !Enters(phdrs[j], a / PAGE_SIZE) && !Holds(phdrs[j], Trans(m0, a).value);
    assert Get(m, a / PAGE_SIZE) == Get(m0, a / PAGE_SIZE);
  }

  /** A segment that is loaded stays loaded when a disjoint one is laid beside it. */
  lemma StaysLoaded(s: Phdr, m0: Space, ram0: seq<u8>, src: int, m: Space, ram: seq<u8>, b: Phdr, m': Space,
                    ram': seq<u8>)
    requires Loaded(m, ram, s, m0, ram0, src) && Disjoint(s, b)
    requires forall page: Page | !Enters(b, page) :: Get(m', page) == Get(m, page)
    requires |ram'| == |ram| && forall a | 0 <= a < |ram| && !Holds(b, a) :: ram'[a] == ram[a]
    ensures Loaded(m', ram', s, m0, ram0, src)
  {
    assert forall page | Enters(s, page) :: Touches(s, page);
    forall k | 0 <= k < s.memsz ensures Placed(m', s, k) && ByteAt(ram', s.paddr + k, SegByte(m0, ram0, s, src, k)) {
      assert Placed(m, s, k) && ByteAt(ram, s.paddr + k, SegByte(m0, ram0, s, src, k));
      var page := (s.vaddr + k) / PAGE_SIZE;
      assert Touches(s, page);
      assert Get(m', page) == Get(m, page);
      assert Holds(s, s.paddr + k);
    }
  }

  // One more segment: the invariant of the loop over the program headers.
  lemma NextSegment(t0: Tables, m0: Space, ram0: seq<u8>, base: int, phdrs: seq<Phdr>, i: nat,
                    m: Space, ram: seq<u8>, m': Space, ram': seq<u8>)
    requires LaidOut(t0, m0, base, phdrs) && i < |phdrs| && Loadable(phdrs[i]) && |ram| == |ram'| == PADDR_MAX + 1
    requires RestKept(m, ram, m0, ram0, phdrs, i) && AllLoaded(m, ram, m0, ram0, base, phdrs, i)
    requires Loaded(m', ram', phdrs[i], m, ram, base + phdrs[i].offset)
    requires forall page: Page | !Enters(phdrs[i], page) :: Get(m', page) == Get(m, page)
    requires forall a | 0 <= a < |ram| && !Holds(phdrs[i], a) :: ram'[a] == ram[a]
    ensures RestKept(m', ram', m0, ram0, phdrs, i + 1) && AllLoaded(m', ram', m0, ram0, base, phdrs, i + 1)
  {
    var s := phdrs[i];
    assert Among(phdrs, i + 1, i);
    assert forall j | Among(phdrs, i, j) :: Among(phdrs, i + 1, j);
    forall j | Among(phdrs, i + 1, j) ensures Loaded(m', ram', phdrs[j], m0, ram0, base + phdrs[j].offset) {
      if j < i {
        assert Among(phdrs, i, j);
        StaysLoaded(phdrs[j], m0, ram0, base + phdrs[j].offset, m, ram, s, m', ram');
      } else {
        ReloadedFromImage(t0, m0, ram0, base, phdrs, i, m, ram, m', ram');
      }
    }
  }

  lemma ReloadedFromImage(t0: Tables, m0: Space, ram0: seq<u8>, base: int, phdrs: seq<Phdr>, i: nat,
                          m: Space, ram: seq<u8>, m': Space, ram': seq<u8>)
    requires LaidOut(t0, m0, base, phdrs) && i < |phdrs| && Loadable(phdrs[i]) && |ram| == PADDR_MAX + 1
    requires RestKept(m, ram, m0, ram0, phdrs, i)
    requires Loaded(m', ram', phdrs[i], m, ram, base + phdrs[i].offset)
    ensures Loaded(m', ram', phdrs[i], m0, ram0, base + phdrs[i].offset)
  {
    var s, src := phdrs[i], base + phdrs[i].offset;
    forall k | 0 <= k < s.memsz ensures Placed(m', s, k) && ByteAt(ram', s.paddr + k, SegByte(m0, ram0, s, src, k)) {
      assert Placed(m', s, k) && ByteAt(ram', s.paddr + k, SegByte(m, ram, s, src, k));
      SourceKept(t0, m0, ram0, base, phdrs, i, m, ram, k);
    }
  }

  ghost predicate Acceptable(h: Ehdr, phdrs: seq<Phdr>)
    requires |h.ident| == 16
  {
    && IsSupported(h) && TotalMemsz(phdrs, |phdrs|) <= KERNEL_MEMSZ_MAX
    && forall j | Among(phdrs, |phdrs|, j) :: ValidProgseg(phdrs[j]) && PagesAccepted(phdrs[j])
  }

  /** An image with one segment, to be put from 1 MiB on at 3 GiB: it is accepted if and only if it
      is supported and the segment takes up 1 MiB at most. */
  lemma OneSegmentIff(h: Ehdr, s: Phdr)
    requires |h.ident| == 16 && s.ptype == 1 && s.vaddr == 0xc000_0000 && s.paddr == 0x10_0000
    ensures Acceptable(h, [s]) <==> IsSupported(h) && s.memsz <= 0x10_0000
  {
    assert TotalMemsz([s], 1) == TotalMemsz([s], 0) + s.memsz;
    if s.memsz <= 0x10_0000 { OneSegmentPages(s); }
  }

  lemma OneSegmentPages(s: Phdr)
    requires s.vaddr == 0xc000_0000 && s.paddr == 0x10_0000 && s.memsz <= 0x10_0000
    ensures ValidProgseg(s) && PagesAccepted(s)
  {
    forall page: Page | Enters(s, page) ensures PageAccepted(s, page) { AcceptedAtStart(page); }
  }

  lemma AcceptedAtStart(page: nat)
    requires 0xc000_0000 <= 4096 * page < 0xc010_0000
    ensures Accepted(4096 * page, 4096 * page - 0xbff0_0000)
  {
    AcceptedIff(4096 * page, 4096 * page - 0xbff0_0000);
  }

  /** The images that Map is about: for one, such a segment copied from above 2 MiB, when memory is
      mapped to itself and the tables are out of the way. */
  lemma OneSegmentIsLaidOut(t: Tables, base: int, s: Phdr)
    requires t.Shape() && s.ptype == 1 && s.vaddr == 0xc000_0000 && s.paddr == 0x10_0000
    requires s.filesz <= s.memsz <= 0x10_0000 && 0x20_0000 <= base && base + s.offset + s.filesz <= 0xf0_0000
    requires forall f | 0x100 <= f < 0x200 || 0xc_0000 <= f < 0xc_0100 :: !t.IsTableFrame(f)
    requires forall a | base + s.offset <= a < base + s.offset + s.filesz :: !t.IsTableFrame(a / 4096)
    ensures LaidOut(t, Paging.Identity(0xf00), base, [s])
  {
    var m, src := Paging.Identity(0xf00), base + s.offset;
    forall a | src <= a < src + s.filesz
      ensures Trans(m, a) == Some(a) && !Enters(s, a / PAGE_SIZE) && !Holds(s, a)
    {
      Paging.IdentityIs(a);
    }
    assert Readable(t, m, src, s.filesz) && Clear(m, s, src, s.filesz);
    assert StartsRight(m, s) && OffTables(t, s);
  }

  // The loop over the program headers.
  method MapAll(m: Machine, ehdrAddr: u32, phdrs: seq<Phdr>, ghost space: Space)
    returns (code: int, ghost space': Space)
    requires m.Settled() && m.pagingOn && Represents(m.View(), space)
    requires LaidOut(m.View(), space, ehdrAddr, phdrs)
    modifies m.dir, m.tables, m.ram, m`tlb
    ensures m.Settled()
    ensures code == 0 <==> forall j | Among(phdrs, |phdrs|, j) :: ValidProgseg(phdrs[j]) && PagesAccepted(phdrs[j])
    ensures code == 0 ==>
              && Represents(m.View(), space')
              && AllLoaded(space', m.ram[..], space, old(m.ram[..]), ehdrAddr, phdrs, |phdrs|)
              && RestKept(space', m.ram[..], space, old(m.ram[..]), phdrs, |phdrs|)
  {
    space' := space;
    ghost var t0, ram0 := m.View(), m.ram[..];
    for i := 0 to |phdrs|
      invariant m.Settled() && m.pagingOn && Represents(m.View(), space')
      invariant m.View().dirFrame == t0.dirFrame && m.View().ptFrame == t0.ptFrame
      invariant RestKept(space', m.ram[..], space, ram0, phdrs, i)
      invariant AllLoaded(space', m.ram[..], space, ram0, ehdrAddr, phdrs, i)
      invariant forall j | Among(phdrs, i, j) :: ValidProgseg(phdrs[j]) && PagesAccepted(phdrs[j])
    {
      if Loadable(phdrs[i]) {
        ReadyNext(t0, space, ram0, ehdrAddr, phdrs, i, space', m.ram[..]);
        ghost var m1, ram1 := space', m.ram[..];
        code, space' := MapProgseg(m, ehdrAddr, phdrs[i], space');
        if code != 0 {
          assert Among(phdrs, |phdrs|, i);
          return;
        }
        NextSegment(t0, space, ram0, ehdrAddr, phdrs, i, m1, ram1, space', m.ram[..]);
      } else {
        assert forall j :: Among(phdrs, i + 1, j) == Among(phdrs, i, j);
      }
    }
    code := 0;
  }

  /** elf32_map. It returns the entry point exactly when the image is supported, its
      segments together are at most 1 MiB, and every loadable segment is acceptable. Then
      every segment reads back, and nothing outside the segments has changed. */
  method Map(m: Machine, ehdrAddr: u32, h: Ehdr, phdrs: seq<Phdr>, ghost space: Space)
    returns (entry: u32, ghost space': Space)
    requires |h.ident| == 16 && m.Settled() && m.pagingOn && Represents(m.View(), space)
    requires TotalMemsz(phdrs, |phdrs|) < TWO32 && LaidOut(m.View(), space, ehdrAddr, phdrs)
    modifies m.dir, m.tables, m.ram, m`tlb
    ensures m.Settled()
    ensures entry == if Acceptable(h, phdrs) then h.entry else 0
    ensures Acceptable(h, phdrs) ==>
              && Represents(m.View(), space')
              && AllLoaded(space', m.ram[..], space, old(m.ram[..]), ehdrAddr, phdrs, |phdrs|)
              && RestKept(space', m.ram[..], space, old(m.ram[..]), phdrs, |phdrs|)
  {
    if !IsSupported(h) { return 0, space; }
    var total := ProgsegsGetMemsz(phdrs);
    if total > KERNEL_MEMSZ_MAX { return 0, space; }
    var code;
    code, space' := MapAll(m, ehdrAddr, phdrs, space);
    if code != 0 { return 0, space'; }
    entry := h.entry;
  }
}
