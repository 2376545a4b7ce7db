/** The region bookkeeping of an address space: page alignment of a new
    region, and the temporary write permission used while a program image
    is loaded. The linked list of regions is a sequence, head first. */
module AddrSpace {
  import opened Bits
  import opened Wrappers

  /** log2 of PAGE_SIZE; PAGE_SIZE itself must fit in a 32-bit word. */
  type PageShift = k: nat | k < 32

  function PageSize(shift: PageShift): (r: nat)
    ensures 1 <= r < WORD
  {
    Pow2Word(shift);
    Pow2Monotone(shift, 31);
    Pow2Add(31, 1);
    Pow2Is32();
    Pow2(shift)
  }

  /** PAGE_FRAME = ~(PAGE_SIZE - 1): every bit above the page offset. */
  function PageFrame(shift: PageShift): Word
  {
    Not32(PageSize(shift) - 1)
  }

  /** Permission flags are C `int`s: zero is "not permitted", anything else is. */
  datatype Region = Region(
    vbase: Word,
    size: Word,
    readable: int,
    writeable: int,
    executable: int,
    origWriteable: int)

  datatype AddrSpace = AddrSpace(regions: seq<Region>)

  datatype Error =
    | OutOfMemory
      /** Linking a region into a non-empty list; that branch of the source does not compile. */
    | InsertionNotModelled

  /** The page-aligned base, the rounded-up size and the page count of a new region. */
  datatype Extent = Extent(vbase: Word, size: Word, npages: nat)

  /** `as_create`; `memAvailable` is whether the allocation of the structure succeeds. */
  function Create(memAvailable: bool): (r: Option<AddrSpace>)
    ensures r.Some? <==> memAvailable
    ensures r.Some? ==> |r.value.regions| == 0
  {
    if memAvailable then Some(AddrSpace([])) else None
  }

  /** Masking with PAGE_FRAME rounds a word down to a page boundary. */
  lemma FrameMask(x: Word, shift: PageShift)
    ensures BitAnd(x, PageFrame(shift)) == x - x % PageSize(shift)
    ensures (x - x % PageSize(shift)) % PageSize(shift) == 0
  {
    assert PageFrame(shift) == Not32(Ones(shift));
    AndNotOnes(x, shift);
    RoundDownMultiple(x, PageSize(shift));
  }

  /** Masking with ~PAGE_FRAME keeps the offset within the page. */
  lemma OffsetMask(x: Word, shift: PageShift)
    ensures BitAnd(x, Not32(PageFrame(shift))) == x % PageSize(shift)
  {
    assert Not32(PageFrame(shift)) == Ones(shift);
    BitAndOnes(x, shift);
  }

  /** The alignment arithmetic at the head of `as_define_region`, on 32-bit words. */
  function PageExtent(vaddr: Word, memsize: Word, shift: PageShift): (e: Extent)
    ensures e.vbase % PageSize(shift) == 0
    ensures e.vbase <= vaddr < e.vbase + PageSize(shift)
    ensures e.size % PageSize(shift) == 0
    ensures e.npages * PageSize(shift) == e.size
  {
    var padded := Wrap(memsize + BitAnd(vaddr, Not32(PageFrame(shift))));
    var rounded := Wrap(padded + PageSize(shift) - 1);
    var base := BitAnd(vaddr, PageFrame(shift));
    var size := BitAnd(rounded, PageFrame(shift));
    FrameMask(vaddr, shift);
    FrameMask(rounded, shift);
    PageCount(size, PageSize(shift));
    Extent(base, size, size / PageSize(shift))
  }

  lemma PageCount(size: nat, p: nat)
    requires p >= 1 && size % p == 0
    ensures (size / p) * p == size
  {
  }

  /** The C code adds the offset and the rounding slack in 32 bits; the
      covering properties need those sums not to wrap. */
  predicate NoWrap(vaddr: Word, memsize: Word, shift: PageShift)
  {
    vaddr % PageSize(shift) + memsize + PageSize(shift) - 1 < WORD
  }

  /** Without wrap-around the aligned region covers the request and is the
      smallest page multiple that does. */
  lemma ExtentCovers(vaddr: Word, memsize: Word, shift: PageShift)
    requires NoWrap(vaddr, memsize, shift)
    ensures var e := PageExtent(vaddr, memsize, shift);
      && e.vbase + e.size >= vaddr + memsize
      && e.size < (vaddr - e.vbase) + memsize + PageSize(shift)
  {
    var p := PageSize(shift);
    var off := vaddr % p;
    OffsetMask(vaddr, shift);
    FrameMask(vaddr, shift);
    var padded := memsize + off;
    assert Wrap(memsize + BitAnd(vaddr, Not32(PageFrame(shift)))) == padded;
    var x := padded + p - 1;
    assert Wrap(padded + p - 1) == x;
    FrameMask(x, shift);
    var e := PageExtent(vaddr, memsize, shift);
    assert e.size == x - x % p;
    assert e.vbase == vaddr - off;
    assert 0 <= x % p < p;
  }

  /** Example of the wrap-around `NoWrap` excludes: with 4 KiB pages, a
      request of 2^32 - 1 bytes at address 0 is rounded to size 0. */
  lemma ExtentWrapsToZero()
    ensures PageSize(12) == 4096
    ensures PageExtent(0, WORD - 1, 12).size == 0
  {
    PageSize4K();
    var padded := Wrap(WORD - 1 + BitAnd(0, Not32(PageFrame(12))));
    assert padded == WORD - 1;
    var rounded := Wrap(padded + PageSize(12) - 1);
    assert rounded == Wrap(WORD + 4094) == 4094;
    FrameMask(4094, 12);
    assert 4094 % PageSize(12) == 4094;
    assert BitAnd(rounded, PageFrame(12)) == 0;
  }

  lemma PageSize4K()
    ensures PageSize(12) == 4096
  {
    assert Pow2(4) == 16;
    Pow2Add(4, 4);
    Pow2Add(8, 4);
  }

  /** The region `as_define_region` builds: aligned, flags recorded, and the
      original write permission saved for `as_complete_load`. */
  function NewRegion(vaddr: Word, memsize: Word, shift: PageShift,
                     readable: int, writeable: int, executable: int): (reg: Region)
    ensures reg.vbase % PageSize(shift) == 0 && reg.vbase <= vaddr
    ensures reg.size % PageSize(shift) == 0
    ensures reg.readable == readable && reg.writeable == writeable && reg.executable == executable
    ensures LoadedConsistently(reg)
  {
    var e := PageExtent(vaddr, memsize, shift);
    Region(e.vbase, e.size, readable, writeable, executable, writeable)
  }

  /** A region whose current write permission is the one it was defined with. */
  predicate LoadedConsistently(reg: Region)
  {
    reg.writeable == reg.origWriteable
  }

  predicate AllLoadedConsistently(a: AddrSpace)
  {
    forall i :: 0 <= i < |a.regions| ==> LoadedConsistently(a.regions[i])
  }

  /** `as_define_region`: the new region becomes the head of an empty list.
      `memAvailable` is whether allocating the region succeeds. */
  function DefineRegion(a: AddrSpace, vaddr: Word, memsize: Word, shift: PageShift,
                        readable: int, writeable: int, executable: int,
                        memAvailable: bool): (r: Result<AddrSpace, Error>)
    ensures !memAvailable ==> r == Failure(OutOfMemory)
    ensures memAvailable && |a.regions| == 0 ==>
      r.Success? && |r.value.regions| == 1
      && r.value.regions[0] == NewRegion(vaddr, memsize, shift, readable, writeable, executable)
    ensures r.Success? ==> AllLoadedConsistently(r.value)
  {
    if !memAvailable then Failure(OutOfMemory)
    else if |a.regions| == 0 then
      Success(AddrSpace([NewRegion(vaddr, memsize, shift, readable, writeable, executable)]))
    else Failure(InsertionNotModelled)
  }

  /** Two regions that agree on everything except, possibly, the current write permission. */
  predicate SameButWrite(r1: Region, r2: Region)
  {
    r1.vbase == r2.vbase && r1.size == r2.size && r1.readable == r2.readable
    && r1.executable == r2.executable && r1.origWriteable == r2.origWriteable
  }

  /** `as_prepare_load`: every region made writable, in list order. */
  function PrepareRegions(rs: seq<Region>): (out: seq<Region>)
    ensures |out| == |rs|
    ensures forall i :: 0 <= i < |rs| ==> out[i].writeable == 1 && SameButWrite(out[i], rs[i])
  {
    if |rs| == 0 then []
    else [rs[0].(writeable := 1)] + PrepareRegions(rs[1..])
  }

  /** `as_complete_load`: every region's write permission restored from its record. */
  function CompleteRegions(rs: seq<Region>): (out: seq<Region>)
    ensures |out| == |rs|
    ensures forall i :: 0 <= i < |rs| ==> LoadedConsistently(out[i]) && SameButWrite(out[i], rs[i])
  {
    if |rs| == 0 then []
    else [rs[0].(writeable := rs[0].origWriteable)] + CompleteRegions(rs[1..])
  }

  function PrepareLoad(a: AddrSpace): (r: AddrSpace)
    ensures |r.regions| == |a.regions|
    ensures forall i :: 0 <= i < |a.regions| ==>
      r.regions[i].writeable == 1 && SameButWrite(r.regions[i], a.regions[i])
  {
    AddrSpace(PrepareRegions(a.regions))
  }

  function CompleteLoad(a: AddrSpace): (r: AddrSpace)
    ensures |r.regions| == |a.regions|
    ensures AllLoadedConsistently(r)
    ensures forall i :: 0 <= i < |a.regions| ==> SameButWrite(r.regions[i], a.regions[i])
  {
    AddrSpace(CompleteRegions(a.regions))
  }

  /** Whatever `as_prepare_load` did, `as_complete_load` leaves the same result. */
  lemma CompleteAfterPrepare(a: AddrSpace)
    ensures CompleteLoad(PrepareLoad(a)) == CompleteLoad(a)
  {
  }

  /** A load bracketed by prepare and complete gives every consistently
      defined region back exactly as it was. */
  lemma LoadRoundTrip(a: AddrSpace)
    requires AllLoadedConsistently(a)
    ensures CompleteLoad(PrepareLoad(a)) == a
  {
  }

  /** A freshly defined region regains its defined write flag after a load. */
  lemma DefineThenLoad(vaddr: Word, memsize: Word, shift: PageShift,
                       readable: int, writeable: int, executable: int)
    ensures var a := DefineRegion(AddrSpace([]), vaddr, memsize, shift, readable, writeable, executable, true);
      && a.Success?
      && PrepareLoad(a.value).regions[0].writeable == 1
      && CompleteLoad(PrepareLoad(a.value)).regions[0].writeable == writeable
  {
    LoadRoundTrip(DefineRegion(AddrSpace([]), vaddr, memsize, shift, readable, writeable, executable, true).value);
  }
}
