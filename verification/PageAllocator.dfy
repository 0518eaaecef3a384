/** The page allocator: one heap of 4096 pages, placed lazily in the first region of the memory map
    that is large enough, and a first-fit table of used pages. */
module PageAllocator {
  import opened Words
  import opened MemoryMap

  const PAGE_SIZE: nat := 4096
  const PAGE_TABLE_SIZE: nat := 4096
  const TOTAL_HEAP_SIZE: nat := 0x100_0000

  /** What a request for a page leads to: a page, or one of the two panics, after which the kernel
      does not go on. */
  datatype Outcome = Page(address: u64) | NoRegion | HeapFull

  /** The number of the first region that holds the whole heap, or 16. */
  function FirstFit(regions: seq<Region>): (k: nat)
    ensures k <= |regions|
    ensures forall i :: 0 <= i < k ==> regions[i].length < TOTAL_HEAP_SIZE
    ensures k < |regions| ==> regions[k].length >= TOTAL_HEAP_SIZE
  {
    if regions == [] || regions[0].length >= TOTAL_HEAP_SIZE then 0 else 1 + FirstFit(regions[1..])
  }

  function FirstFree(pages: seq<bool>): (k: nat)
    ensures k <= |pages|
    ensures forall i :: 0 <= i < k ==> pages[i]
    ensures k < |pages| ==> !pages[k]
  {
    if pages == [] || !pages[0] then 0 else 1 + FirstFree(pages[1..])
  }

  lemma FirstFitFrom(regions: seq<Region>, i: nat)
    requires i < |regions|
    ensures FirstFit(regions[i..]) ==
            if regions[i].length >= TOTAL_HEAP_SIZE then 0 else 1 + FirstFit(regions[i + 1..])
    ensures FirstFit(regions[|regions|..]) == 0
  {
    assert regions[i..][1..] == regions[i + 1..];
  }

  lemma FirstFreeFrom(pages: seq<bool>, i: nat)
    requires i < |pages|
    ensures FirstFree(pages[i..]) == if !pages[i] then 0 else 1 + FirstFree(pages[i + 1..])
    ensures FirstFree(pages[|pages|..]) == 0
  {
    assert pages[i..][1..] == pages[i + 1..];
  }

  /** What the allocator reads but never changes. */
  datatype Boot = Boot(regions: seq<Region>, hhdm: u64, kernelBase: u64)

  /** The heap base, the page table, and the offsets from the start of the table at which frees have
      cleared a byte outside it, oldest first. */
  datatype State = State(base: u64, pages: seq<bool>, strays: seq<nat>)

  ghost predicate WellSized(s: State) { |s.pages| == PAGE_TABLE_SIZE }

  function Initial(): State { State(0, seq(PAGE_TABLE_SIZE, _ => false), []) }

  /** Where the heap goes; 0 if nowhere. */
  function HeapBase(b: Boot): u64 {
    var k := FirstFit(b.regions);
    if k < |b.regions| then Wrap(b.regions[k].start + b.hhdm) else 0
  }

  lemma HeapBaseIs(b: Boot)
    ensures var k := FirstFit(b.regions);
            HeapBase(b) == if k < |b.regions| then Wrap(b.regions[k].start + b.hhdm) else 0
  {}

  function PageAt(base: u64, i: nat): u64 { Wrap(base + PAGE_SIZE * i) }

  function Get(b: Boot, s: State): (r: (Outcome, State)) {
    var base := if s.base == 0 then HeapBase(b) else s.base;
    if base == 0 then (NoRegion, s.(base := 0)) else
    var i := FirstFree(s.pages);
    if i < |s.pages| then (Page(PageAt(base, i)), s.(base := base, pages := s.pages[i := true]))
    else (HeapFull, s.(base := base))
  }

  /** The entry of the page table that freeing `page` clears. */
  function FreeIndex(b: Boot, base: u64, page: u64): nat {
    Wrap(Wrap(page + b.kernelBase) - base) / PAGE_SIZE
  }

  function Free(b: Boot, s: State, page: u64): State {
    var i := FreeIndex(b, s.base, page);
    if i < |s.pages| then s.(pages := s.pages[i := false]) else s.(strays := s.strays + [i])
  }

  class Allocator {
    const regionMap: array<Region>
    const hhdm: u64
    const kernelBase: u64
    const pages: array<bool>
    var baseOfHeap: u64
    /** Where bytes outside the page table have been cleared; what they belong to is not modelled. */
    var strays: seq<nat>

    constructor (regionMap: array<Region>, hhdm: u64, kernelBase: u64)
      ensures this.regionMap == regionMap && this.hhdm == hhdm && this.kernelBase == kernelBase
      ensures fresh(pages) && Contents() == Initial()
    {
      this.regionMap, this.hhdm, this.kernelBase := regionMap, hhdm, kernelBase;
      pages := new bool[PAGE_TABLE_SIZE](_ => false);
      baseOfHeap := 0;
      strays := [];
    }

    function Environment(): Boot
      reads regionMap
    {
      Boot(regionMap[..], hhdm, kernelBase)
    }

    function Contents(): State
      reads this, pages
    {
      State(baseOfHeap, pages[..], strays)
    }

    method GetFreePage() returns (r: Outcome)
      requires regionMap.Length == MAX_MEMORY_REGIONS && pages.Length == PAGE_TABLE_SIZE
      modifies this`baseOfHeap, pages
      ensures (r, Contents()) == Get(Environment(), old(Contents()))
    {
      hide PageAt, Wrap, FirstFit, FirstFree, HeapBase;
      ghost var b, regions, before := Environment(), regionMap[..], pages[..];
      assert regions[0..] == regions && before[0..] == before;
      HeapBaseIs(b);
      if baseOfHeap == 0 {
        FirstFitFrom(regions, 0);
        for i := 0 to MAX_MEMORY_REGIONS
          invariant baseOfHeap == 0 && regionMap[..] == regions && pages[..] == before
          invariant FirstFit(regions) == i + FirstFit(regions[i..])
        {
          FirstFitFrom(regions, i);
          if regionMap[i].length >= TOTAL_HEAP_SIZE {
            baseOfHeap := Wrap(regionMap[i].start + hhdm);
            break;
          }
        }
        assert baseOfHeap == HeapBase(b);
        if baseOfHeap == 0 {
          return NoRegion;
        }
      }
      ghost var base := baseOfHeap;
      FirstFreeFrom(before, 0);
      for i := 0 to PAGE_TABLE_SIZE
        invariant baseOfHeap == base && pages[..] == before
        invariant FirstFree(before) == i + FirstFree(before[i..])
      {
        FirstFreeFrom(before, i);
        if !pages[i] {
          pages[i] := true;
          assert pages[..] == before[i := true];
          return Page(PageAt(baseOfHeap, i));
        }
      }
      return HeapFull;
    }

    /** Freeing writes to the page table without a bounds check. */
    method FreePage(page: u64)
      requires pages.Length == PAGE_TABLE_SIZE
      modifies this`strays, pages
      ensures Contents() == Free(Environment(), old(Contents()), page)
    {
      var virtual := Wrap(page + kernelBase);
      var i := Wrap(virtual - baseOfHeap) / PAGE_SIZE;
      if i < PAGE_TABLE_SIZE {
        pages[i] := false;
      } else {
        strays := strays + [i];
      }
    }
  }
}
