/** The virtual-to-physical page table of the DMA buffer: how it is built from
    the kernel's pagemap entries, and the two address translations over it. */
module PageMap {
  import opened Bits

  /** 2^12: the source's shifts by `PAGE_SHIFT` are written here as products and
      quotients by this constant. */
  const PAGE_SIZE: nat := 4096
  /** The VideoCore bus alias the driver ORs into every physical page address. */
  const BUS_ALIAS: nat := 0x4000_0000
  const WORD_RANGE: nat := 0x1_0000_0000
  const ENTRY_RANGE: nat := 0x1_0000_0000_0000_0000
  /** Bit 55 of a pagemap entry, the one the present test looks at. */
  const BIT55: nat := 0x80_0000_0000_0000

  /** The ways a fatal() can end the program in the code modelled here. */
  datatype Fault =
    | NotPageAligned
    | ReadFailed(page: nat)
    | PageNotPresent(page: nat)
    | ReverseMapFailed(phys: nat)

  datatype Result<T> = Ok(value: T) | Fatal(fault: Fault)

  /** One page of the locked buffer: its virtual and its bus address. */
  datatype PageMapEntry = PageMapEntry(virtaddr: nat, physaddr: uint32)

  /** virtbase and page_map: page `i` starts at `virtbase + i * PAGE_SIZE`. */
  datatype PageMap = PageMap(virtbase: nat, entries: seq<PageMapEntry>)

  /** The "page not present" test as the compiler reads it: `!=` binds tighter
      than `&`, so the mask is `0xfbf != 0x10c`, that is 1, and the test fires
      exactly when bit 55 of the entry is set. */
  function PresentTestFires(pfn: nat): (fires: bool)
    requires pfn < ENTRY_RANGE
    ensures fires <==> pfn % (2 * BIT55) >= BIT55
  {
    var mask := if 0xfbf != 0x10c then 1 else 0;
    ((pfn / BIT55) % 2) * mask != 0
  }

  /** The test ignores the present flag (bit 63): an all-zero entry, which the
      kernel reports for a page that is not present, passes it, and a present
      page whose bit 55 is set is rejected. */
  lemma PresentFlagIgnored()
    ensures !PresentTestFires(0)
    ensures PresentTestFires(0x8000_0000_0000_0000 + BIT55 + 0x1234)
  {
  }

  /** The page entry's physical address: the frame number truncated to
      `unsigned int`, shifted by PAGE_SHIFT in 32 bits, with the bus alias ORed in.
      The result is page aligned, has the alias bit set and keeps the low
      18 bits of the frame number. */
  function PhysAddrOf(pfn: nat): (phys: uint32)
    ensures phys % PAGE_SIZE == 0
    ensures (phys / BUS_ALIAS) % 2 == 1
    ensures (phys / PAGE_SIZE) % 0x4_0000 == pfn % 0x4_0000
  {
    var low := pfn % WORD_RANGE;
    var shifted := (low * PAGE_SIZE) % WORD_RANGE;
    FrameShift(pfn);
    var phys := if (shifted / BUS_ALIAS) % 2 == 1 then shifted else shifted + BUS_ALIAS;
    AliasBit(pfn % 0x10_0000, shifted, phys);
    phys
  }

  /** ORing the alias bit into the shifted frame number `s`, written as an
      addition when the bit is clear. */
  lemma AliasBit(f: nat, s: nat, r: int)
    requires f < 0x10_0000 && s == f * PAGE_SIZE
    requires r == if (s / BUS_ALIAS) % 2 == 1 then s else s + BUS_ALIAS
    ensures 0 <= r < WORD_RANGE && r % PAGE_SIZE == 0 && (r / BUS_ALIAS) % 2 == 1
    ensures (r / PAGE_SIZE) % 0x4_0000 == f % 0x4_0000
  {
    var g, h := f % 0x4_0000, f / 0x4_0000;
    assert f == h * 0x4_0000 + g;
    assert s == h * BUS_ALIAS + g * PAGE_SIZE;
    assert s / BUS_ALIAS == h;
    assert s / PAGE_SIZE == f;
    if h % 2 == 0 {
      assert r == (h + 1) * BUS_ALIAS + g * PAGE_SIZE;
      assert r / BUS_ALIAS == h + 1;
      assert r / PAGE_SIZE == (h + 1) * 0x4_0000 + g;
    }
  }

  lemma FrameShift(pfn: nat)
    ensures ((pfn % WORD_RANGE) * PAGE_SIZE) % WORD_RANGE == (pfn % 0x10_0000) * PAGE_SIZE
    ensures (pfn % 0x10_0000) % 0x4_0000 == pfn % 0x4_0000
  {
    var q := pfn % WORD_RANGE;
    assert q % 0x10_0000 == pfn % 0x10_0000;
    assert q * PAGE_SIZE == (q / 0x10_0000) * WORD_RANGE + (q % 0x10_0000) * PAGE_SIZE;
  }

  /** The page table built for a buffer of `numPages` pages at `virtbase`
      from the pagemap entries `pfns`, when no fatal path is taken. */
  ghost predicate BuiltFrom(pm: PageMap, virtbase: nat, pfns: seq<nat>, numPages: nat)
    requires numPages <= |pfns|
    requires forall i :: 0 <= i < |pfns| ==> pfns[i] < ENTRY_RANGE
  {
    pm.virtbase == virtbase && |pm.entries| == numPages &&
    forall i :: 0 <= i < numPages ==>
      pm.entries[i] == PageMapEntry(virtbase + i * PAGE_SIZE, PhysAddrOf(pfns[i]))
  }

  /** Every physical address in the table starts a page. */
  ghost predicate Aligned(pm: PageMap) {
    forall i :: 0 <= i < |pm.entries| ==> pm.entries[i].physaddr % PAGE_SIZE == 0
  }

  /** No two pages of the table share a physical address. */
  ghost predicate Distinct(pm: PageMap) {
    forall i, j :: 0 <= i < j < |pm.entries| ==> pm.entries[i].physaddr != pm.entries[j].physaddr
  }

  /** The mapped region lies in the 32-bit address space. */
  predicate Fits(pm: PageMap) {
    pm.virtbase + |pm.entries| * PAGE_SIZE <= WORD_RANGE
  }

  /** The page-table part of the buffer setup: the alignment check on
      virtbase, then for each page a read of its pagemap entry (`pfns` holds
      the entries the read returns; a shorter sequence is a short read), the
      present test and the entry construction. */
  method BuildPageMap(virtbase: nat, pfns: seq<nat>, numPages: nat) returns (r: Result<PageMap>)
    requires forall i :: 0 <= i < |pfns| ==> pfns[i] < ENTRY_RANGE
    ensures r == Fatal(NotPageAligned) <==> virtbase % PAGE_SIZE != 0
    ensures r.Ok? <==>
      virtbase % PAGE_SIZE == 0 && numPages <= |pfns| &&
      forall i :: 0 <= i < numPages ==> !PresentTestFires(pfns[i])
    ensures r.Ok? ==> BuiltFrom(r.value, virtbase, pfns, numPages) && Aligned(r.value)
    ensures r.Fatal? && r.fault.ReadFailed? ==>
      r.fault.page == |pfns| < numPages && forall i :: 0 <= i < |pfns| ==> !PresentTestFires(pfns[i])
    ensures r.Fatal? && r.fault.PageNotPresent? ==>
      r.fault.page < numPages && r.fault.page < |pfns| && PresentTestFires(pfns[r.fault.page]) &&
      forall i :: 0 <= i < r.fault.page ==> !PresentTestFires(pfns[i])
    ensures !(r.Fatal? && r.fault.ReverseMapFailed?)
  {
    if virtbase % PAGE_SIZE != 0 {
      return Fatal(NotPageAligned);
    }
    var entries: seq<PageMapEntry> := [];
    var i := 0;
    while i < numPages
      invariant 0 <= i <= numPages && |entries| == i
      invariant i <= |pfns|
      invariant forall k :: 0 <= k < i ==> !PresentTestFires(pfns[k])
      invariant forall k :: 0 <= k < i ==>
        entries[k] == PageMapEntry(virtbase + k * PAGE_SIZE, PhysAddrOf(pfns[k]))
    {
      if i >= |pfns| {
        return Fatal(ReadFailed(i));
      }
      var pfn := pfns[i];
      if PresentTestFires(pfn) {
        return Fatal(PageNotPresent(i));
      }
      entries := entries + [PageMapEntry(virtbase + i * PAGE_SIZE, PhysAddrOf(pfn))];
      i := i + 1;
    }
    r := Ok(PageMap(virtbase, entries));
  }

  /** mem_virt_to_phys: the physical address of page `offset / PAGE_SIZE`
      plus the offset within the page, in `unsigned int` arithmetic. */
  function VirtToPhys(pm: PageMap, virt: nat): (phys: uint32)
    requires pm.virtbase <= virt < pm.virtbase + |pm.entries| * PAGE_SIZE
    ensures Aligned(pm) ==>
      phys % PAGE_SIZE == (virt - pm.virtbase) % PAGE_SIZE &&
      phys - phys % PAGE_SIZE == pm.entries[((virt - pm.virtbase) % WORD_RANGE) / PAGE_SIZE].physaddr
  {
    var offset := (virt - pm.virtbase) % WORD_RANGE;
    OffsetWrap(virt - pm.virtbase);
    PageIndexInRange(offset, |pm.entries|);
    var page := pm.entries[offset / PAGE_SIZE].physaddr;
    AlignedSum(page, offset % PAGE_SIZE);
    (page + offset % PAGE_SIZE) % WORD_RANGE
  }

  /** The source keeps the offset in an `unsigned int`; reducing it modulo 2^32
      never moves it up and keeps its position inside the page. */
  lemma OffsetWrap(d: nat)
    ensures d % WORD_RANGE <= d
    ensures (d % WORD_RANGE) % PAGE_SIZE == d % PAGE_SIZE
  {
    var q, r := d / WORD_RANGE, d % WORD_RANGE;
    var m := q * 0x10_0000;
    assert d == m * PAGE_SIZE + r;
    WholePages(m, r);
  }

  /** Adding whole pages leaves the offset inside the page unchanged. */
  lemma {:induction false} WholePages(m: nat, r: nat)
    ensures (m * PAGE_SIZE + r) % PAGE_SIZE == r % PAGE_SIZE
  {
    if m > 0 {
      WholePages(m - 1, r);
      assert m * PAGE_SIZE + r == ((m - 1) * PAGE_SIZE + r) + PAGE_SIZE;
    }
  }

  /** Page `k` at in-page offset `off` splits back into `k` and `off`. */
  lemma PageSplit(k: nat, off: nat)
    requires off < PAGE_SIZE
    ensures (k * PAGE_SIZE + off) / PAGE_SIZE == k
    ensures (k * PAGE_SIZE + off) % PAGE_SIZE == off
  {
  }

  lemma PageIndexInRange(offset: nat, n: nat)
    requires offset < n * PAGE_SIZE
    ensures offset / PAGE_SIZE < n
  {
  }

  /** A page-aligned 32-bit address plus an in-page offset neither wraps nor
      leaves the page. */
  lemma AlignedSum(page: uint32, off: nat)
    requires off < PAGE_SIZE
    ensures page % PAGE_SIZE == 0 ==>
      page + off < WORD_RANGE && (page + off) % PAGE_SIZE == off
  {
    if page % PAGE_SIZE == 0 {
      assert page <= WORD_RANGE - PAGE_SIZE;
    }
  }

  /** The first page at or after `from` whose physical address is `pgAddr`. */
  function FindPage(entries: seq<PageMapEntry>, pgAddr: nat, from: nat): (found: Option)
    requires from <= |entries|
    ensures found.Some? ==>
      from <= found.index < |entries| && entries[found.index].physaddr == pgAddr &&
      forall k :: from <= k < found.index ==> entries[k].physaddr != pgAddr
    ensures found.None? ==> forall k :: from <= k < |entries| ==> entries[k].physaddr != pgAddr
    decreases |entries| - from
  {
    if from == |entries| then None
    else if entries[from].physaddr == pgAddr then Some(from)
    else FindPage(entries, pgAddr, from + 1)
  }

  datatype Option = None | Some(index: nat)

  /** mem_phys_to_virt: splits `phys` into page address and in-page offset,
      searches the table in order for the page, and returns the virtual address
      at the same offset in the first matching page; fatal when no page matches. */
  function PhysToVirt(pm: PageMap, phys: uint32): (r: Result<nat>)
    ensures r.Fatal? <==>
      forall k :: 0 <= k < |pm.entries| ==> pm.entries[k].physaddr != phys - phys % PAGE_SIZE
    ensures r.Fatal? ==> r.fault == ReverseMapFailed(phys)
    ensures r.Ok? ==> exists k: nat :: FirstMatchAt(pm.entries, PageBase(phys), k)
    ensures r.Ok? ==> forall k: nat :: FirstMatchAt(pm.entries, PageBase(phys), k) ==>
      r.value == (pm.virtbase + k * PAGE_SIZE + phys % PAGE_SIZE) % WORD_RANGE
  {
    var pgOffset := phys % PAGE_SIZE;
    var pgAddr := PageBase(phys);
    match FindPage(pm.entries, pgAddr, 0)
    case None => Fatal(ReverseMapFailed(phys))
    case Some(i) =>
      assert FirstMatchAt(pm.entries, pgAddr, i);
      FirstMatchUnique(pm.entries, pgAddr, i);
      Ok((pm.virtbase + i * PAGE_SIZE + pgOffset) % WORD_RANGE)
  }

  /** The start of the page holding address `a`. */
  function PageBase(a: nat): nat
  {
    a - a % PAGE_SIZE
  }

  /** Entry `k` is the first entry of the table that holds page `pgAddr`. */
  predicate FirstMatchAt(entries: seq<PageMapEntry>, pgAddr: nat, k: nat)
  {
    k < |entries| && entries[k].physaddr == pgAddr &&
    forall m :: 0 <= m < k ==> entries[m].physaddr != pgAddr
  }

  lemma FirstMatchUnique(entries: seq<PageMapEntry>, pgAddr: nat, i: nat)
    requires FirstMatchAt(entries, pgAddr, i)
    ensures forall k: nat :: FirstMatchAt(entries, pgAddr, k) ==> k == i
  {
  }

  lemma RegionFits(pm: PageMap, i: nat, off: nat)
    requires i < |pm.entries| && off < PAGE_SIZE
    ensures Fits(pm) ==> pm.virtbase + i * PAGE_SIZE + off < WORD_RANGE
  {
    if Fits(pm) {
      assert (i + 1) * PAGE_SIZE <= |pm.entries| * PAGE_SIZE;
    }
  }

  /** Translating a mapped virtual address to physical and back gives it back,
      provided the table's physical pages are aligned and distinct. */
  lemma VirtPhysRoundTrip(pm: PageMap, virt: nat)
    requires Aligned(pm) && Distinct(pm) && Fits(pm)
    requires pm.virtbase <= virt < pm.virtbase + |pm.entries| * PAGE_SIZE
    ensures PhysToVirt(pm, VirtToPhys(pm, virt)) == Ok(virt)
  {
    var offset := virt - pm.virtbase;
    var p := offset / PAGE_SIZE;
    RegionFits(pm, p, offset % PAGE_SIZE);
    assert offset == p * PAGE_SIZE + offset % PAGE_SIZE;
    assert offset % WORD_RANGE == offset;
    var phys := VirtToPhys(pm, virt);
    var pgAddr := PageBase(phys);
    assert pm.entries[p].physaddr == pgAddr;
    assert FirstMatchAt(pm.entries, pgAddr, p);
    var r := PhysToVirt(pm, phys);
    assert r.value == (pm.virtbase + p * PAGE_SIZE + offset % PAGE_SIZE) % WORD_RANGE;
  }

  /** A successful reverse translation lands in the mapped region, and
      translating forward again gives the physical address back. */
  lemma PhysVirtRoundTrip(pm: PageMap, phys: uint32)
    requires Fits(pm)
    requires PhysToVirt(pm, phys).Ok?
    ensures var v := PhysToVirt(pm, phys).value;
      pm.virtbase <= v < pm.virtbase + |pm.entries| * PAGE_SIZE && VirtToPhys(pm, v) == phys
  {
    var off := phys % PAGE_SIZE;
    var found := FindPage(pm.entries, PageBase(phys), 0);
    var k := found.index;
    assert FirstMatchAt(pm.entries, PageBase(phys), k);
    var v := PhysToVirt(pm, phys).value;
    RegionFits(pm, k, off);
    assert v == pm.virtbase + k * PAGE_SIZE + off;
    PageSplit(k, off);
    assert (v - pm.virtbase) % WORD_RANGE == k * PAGE_SIZE + off;
  }

  /** A table built from frame numbers whose low 18 bits differ has distinct
      physical pages; frames that agree in those bits collide after the
      32-bit truncation. */
  lemma BuiltTableDistinct(pm: PageMap, virtbase: nat, pfns: seq<nat>, numPages: nat)
    requires numPages <= |pfns|
    requires forall i :: 0 <= i < |pfns| ==> pfns[i] < ENTRY_RANGE
    requires BuiltFrom(pm, virtbase, pfns, numPages)
    requires forall i, j :: 0 <= i < j < numPages ==> pfns[i] % 0x4_0000 != pfns[j] % 0x4_0000
    ensures Distinct(pm)
  {
    forall i, j | 0 <= i < j < |pm.entries|
      ensures pm.entries[i].physaddr != pm.entries[j].physaddr
    {
      var a, b := PhysAddrOf(pfns[i]), PhysAddrOf(pfns[j]);
      assert (a / PAGE_SIZE) % 0x4_0000 != (b / PAGE_SIZE) % 0x4_0000;
    }
  }

  /** Only the low 20 bits of a frame number survive the 32-bit shift: frames
      that agree there are mapped to the same physical page. */
  lemma TruncationCollides(a: nat, b: nat)
    requires a % 0x10_0000 == b % 0x10_0000
    ensures PhysAddrOf(a) == PhysAddrOf(b)
  {
    FrameShift(a);
    FrameShift(b);
  }

  /** The bus alias then hides bit 18 of the frame number as well, so the
      18-bit hypothesis of BuiltTableDistinct cannot be widened. */
  lemma AliasHidesFrameBit18()
    ensures PhysAddrOf(0) == PhysAddrOf(0x4_0000)
  {
    FrameShift(0);
    FrameShift(0x4_0000);
  }
}
