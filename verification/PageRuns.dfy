/** The allocator over whole runs: where its pages come from, exactly when freeing a page undoes getting
    it, and exactly when runs of gets and frees are sound. */
module PageRuns {
  import opened Words
  import opened MemoryMap
  import opened PageAllocator

  // ----- runs

  datatype Op = Take | Release(page: u64)

  /** One operation. A request that panics ends the run; a free that misses the page table goes on. */
  ghost predicate Step(b: Boot, s: State, op: Op, s': State) {
    match op
    case Take => Get(b, s).0.Page? && s' == Get(b, s).1
    case Release(page) => s' == Free(b, s, page)
  }

  ghost predicate Run(b: Boot, ops: seq<Op>, trace: seq<State>) {
    && |trace| == |ops| + 1
    && trace[0] == Initial()
    && forall i :: 0 <= i < |ops| ==> Step(b, trace[i], ops[i], trace[i + 1])
  }

  /** The map was built once from the bootloader's entries. */
  ghost predicate BootedFrom(b: Boot, entries: seq<Entry>) {
    b.regions == Built(entries, EmptyMap())
  }

  // ----- where pages come from

  /** Region `k` of the bootloader's usable ones is the first that can hold the heap, and it is one of
      the first sixteen. */
  ghost predicate HeapRegion(entries: seq<Entry>, k: nat) {
    && k < |Usable(entries)| && k < MAX_MEMORY_REGIONS
    && Usable(entries)[k].length >= TOTAL_HEAP_SIZE
    && forall j :: 0 <= j < k ==> Usable(entries)[j].length < TOTAL_HEAP_SIZE
  }

  lemma FirstFitIsHeapRegion(b: Boot, entries: seq<Entry>)
    requires BootedFrom(b, entries)
    ensures var k := FirstFit(b.regions);
            if k < |b.regions| then HeapRegion(entries, k) && b.regions[k] == Usable(entries)[k]
            else forall j: nat :: !HeapRegion(entries, j)
  {
    var k := FirstFit(b.regions);
    BuiltAgrees(entries);
    forall j: nat | HeapRegion(entries, j) ensures k < |b.regions| {
      assert b.regions[j] == Usable(entries)[j];
    }
  }

  /** The built map starts with the usable entries and is zero after them. */
  lemma BuiltAgrees(entries: seq<Entry>)
    ensures var m := Built(entries, EmptyMap());
            forall k :: 0 <= k < MAX_MEMORY_REGIONS ==>
              m[k] == if k < |Usable(entries)| then Usable(entries)[k] else Region(0, 0)
  {}

  lemma HeapRegionIsUnique(entries: seq<Entry>, j: nat, k: nat)
    requires HeapRegion(entries, j) && HeapRegion(entries, k)
    ensures j == k
  {}

  lemma {:induction false} BaseIsFixed(b: Boot, ops: seq<Op>, trace: seq<State>, i: nat)
    requires Run(b, ops, trace) && i <= |ops|
    ensures |trace[i].pages| == PAGE_TABLE_SIZE
    ensures trace[i].base == 0 || trace[i].base == HeapBase(b)
  {
    if i > 0 {
      BaseIsFixed(b, ops, trace, i - 1);
      assert Step(b, trace[i - 1], ops[i - 1], trace[i]);
    }
  }

  /** Once set, the heap base never changes. */
  lemma {:induction false} BaseNeverChanges(b: Boot, ops: seq<Op>, trace: seq<State>, i: nat, j: nat)
    requires Run(b, ops, trace) && i <= j <= |ops| && trace[i].base != 0
    ensures trace[j].base == trace[i].base
  {
    if i < j {
      BaseNeverChanges(b, ops, trace, i, j - 1);
      assert Step(b, trace[j - 1], ops[j - 1], trace[j]);
    }
  }

  /** A page of a region: page `i` of the heap lies wholly inside it, as the kernel maps it. */
  ghost predicate PageOf(r: Region, hhdm: u64, page: u64, i: nat) {
    && page == Wrap(r.start + hhdm + PAGE_SIZE * i)
    && PAGE_SIZE * i + PAGE_SIZE <= r.length
  }

  /** The page is number `i` of the heap in the region of bootloader entry `e`, which is usable, and that
      region is the first that can hold the heap. */
  ghost predicate LiesIn(b: Boot, entries: seq<Entry>, page: u64, e: nat, i: nat) {
    && e < |entries| && entries[e].kind == LIMINE_MEMMAP_USABLE
    && i < PAGE_TABLE_SIZE && PageOf(Region(entries[e].base, entries[e].length), b.hhdm, page, i)
    && exists k: nat :: HeapRegion(entries, k) && Usable(entries)[k] == Region(entries[e].base, entries[e].length)
  }

  /** Every page handed out in any run lies wholly inside one entry that the bootloader reported as
      usable, namely the first of at least 16 MiB among the first sixteen usable ones. */
  lemma PagesAreUsableMemory(b: Boot, entries: seq<Entry>, ops: seq<Op>, trace: seq<State>, n: nat, page: u64)
    requires BootedFrom(b, entries) && Run(b, ops, trace) && n <= |ops| && Get(b, trace[n]).0 == Page(page)
    ensures exists e: nat, i: nat :: LiesIn(b, entries, page, e, i)
  {
    BaseIsFixed(b, ops, trace, n);
    FirstFitIsHeapRegion(b, entries);
    var k := FirstFit(b.regions);
    UsableIsReported(entries, k);
    var e: nat :| e < |entries| && entries[e].kind == LIMINE_MEMMAP_USABLE
                  && Usable(entries)[k] == Region(entries[e].base, entries[e].length);
    var i := FirstFree(trace[n].pages);
    WrapOfWrap(Usable(entries)[k].start + b.hhdm, PAGE_SIZE * i);
    assert HeapRegion(entries, k);
    assert LiesIn(b, entries, page, e, i);
  }

  /** A request panics for want of a region exactly when no page has been handed out before and none
      of the first sixteen usable entries is large enough, however many follow, or the one that is
      would be mapped at address 0. */
  lemma NoRegionIff(b: Boot, entries: seq<Entry>, s: State)
    requires BootedFrom(b, entries)
    ensures Get(b, s).0.NoRegion? <==>
            s.base == 0 &&
            forall k: nat :: HeapRegion(entries, k) ==> Wrap(Usable(entries)[k].start + b.hhdm) == 0
  {
    NoRegionMeans(b, s);
    HeapBaseOf(b, entries);
    hide Get, HeapBase, BootedFrom, Wrap, FirstFit;
  }

  lemma NoRegionMeans(b: Boot, s: State)
    ensures Get(b, s).0.NoRegion? <==> s.base == 0 && HeapBase(b) == 0
  {
    hide HeapBase, PageAt, FirstFree;
  }

  lemma HeapBaseOf(b: Boot, entries: seq<Entry>)
    requires BootedFrom(b, entries)
    ensures HeapBase(b) == 0 <==>
            forall k: nat :: HeapRegion(entries, k) ==> Wrap(Usable(entries)[k].start + b.hhdm) == 0
  {
    hide *;
    FirstFitIsHeapRegion(b, entries);
    HeapBaseIs(b);
    RegionsInRange(entries);
    var f := FirstFit(b.regions);
    if f < |b.regions| {
      forall k: nat | HeapRegion(entries, k) ensures k == f {
        HeapRegionIsUnique(entries, k, f);
      }
      assert b.regions[f] == Usable(entries)[f];
    } else {
      assert HeapBase(b) == 0;
    }
  }

  lemma RegionsInRange(entries: seq<Entry>)
    ensures forall k: nat :: HeapRegion(entries, k) ==> k < |Usable(entries)|
  {
    hide Usable;
  }

  /** The heap goes into the first of sixteen regions that has 16 MiB, at the address of that region as the
      kernel maps it. */
  lemma HeapRegionIs(b: Boot, entries: seq<Entry>, k: nat)
    requires BootedFrom(b, entries)
    ensures HeapRegion(entries, k) <==>
            && k < |Usable(entries)| && k < 16 && Usable(entries)[k].length >= 16 * 1024 * 1024
            && forall j :: 0 <= j < k ==> Usable(entries)[j].length < 16 * 1024 * 1024
    ensures HeapRegion(entries, k) ==>
              HeapBase(b) == (Usable(entries)[k].start + b.hhdm) % 0x1_0000_0000_0000_0000
  {
    if HeapRegion(entries, k) {
      FirstFitIsHeapRegion(b, entries);
      HeapBaseIs(b);
      HeapRegionIsUnique(entries, k, FirstFit(b.regions));
    }
  }

  /** The heap is where it was put, or is put there now. */
  function BaseOf(b: Boot, s: State): u64 { if s.base != 0 then s.base else HeapBase(b) }

  /** A request panics for want of a page exactly if there is a heap and all 4096 entries are marked. */
  lemma HeapFullIff(b: Boot, s: State)
    requires WellSized(s)
    ensures Get(b, s).0.HeapFull? <==> BaseOf(b, s) != 0 && forall i :: 0 <= i < 4096 ==> s.pages[i]
  {
    hide HeapBase, PageAt;
  }

  /** A request is given page `i` of the heap exactly if there is one, entry `i` is free and no entry before
      it is. Then only that entry, and the heap base, change. */
  lemma GetsPageIff(b: Boot, s: State, i: nat)
    requires WellSized(s) && i < 4096
    ensures Get(b, s) == (Page((BaseOf(b, s) + 4096 * i) % 0x1_0000_0000_0000_0000),
                          State(BaseOf(b, s), s.pages[i := true], s.strays))
            <==> BaseOf(b, s) != 0 && !s.pages[i] && forall j :: 0 <= j < i ==> s.pages[j]
  {
    hide HeapBase, FirstFree;
    FirstFreeIs(s.pages);
    if BaseOf(b, s) != 0 && !s.pages[i] && forall j :: 0 <= j < i ==> s.pages[j] {
      assert FirstFree(s.pages) == i;
    } else if BaseOf(b, s) != 0 && FirstFree(s.pages) < 4096 {
      var f := FirstFree(s.pages);
      assert f != i;
      assert s.pages[f := true][f] && !s.pages[f];
      assert s.pages[i := true][f] == s.pages[f];
    }
  }

  lemma FirstFreeIs(pages: seq<bool>)
    ensures FirstFree(pages) <= |pages|
    ensures forall i :: 0 <= i < FirstFree(pages) ==> pages[i]
    ensures FirstFree(pages) < |pages| ==> !pages[FirstFree(pages)]
  {}

  // ----- freeing

  /** Freeing any address clears the entry that is as many whole pages beyond the heap base as the address
      plus the kernel's base is. */
  lemma FreeIndexIs(b: Boot, base: u64, page: u64, q: nat, r: nat)
    requires r < 4096 && q < 0x10_0000_0000_0000
    requires page == (base + 4096 * q + r - b.kernelBase) % 0x1_0000_0000_0000_0000
    ensures FreeIndex(b, base, page) == q
  {
    hide Wrap;
    var x := base + 4096 * q + r - b.kernelBase;
    WrapIsModulo(x);
    WrapOfWrap(x, b.kernelBase);
    assert x + b.kernelBase == base + 4096 * q + r;
    WrapOfWrap(base + 4096 * q + r, -(base as int));
    assert base + 4096 * q + r + (-(base as int)) == 4096 * q + r;
    WrapIsIdentity(4096 * q + r);
  }

  /** Freeing clears that entry, or writes that far from the start of the table, and nothing else. */
  lemma FreeChanges(b: Boot, s: State, page: u64)
    ensures var i, s' := FreeIndex(b, s.base, page), Free(b, s, page);
            && s'.base == s.base && |s'.pages| == |s.pages|
            && (forall j :: 0 <= j < |s.pages| ==> s'.pages[j] == (s.pages[j] && j != i))
            && s'.strays == if i < |s.pages| then s.strays else s.strays + [i]
  {
    hide FreeIndex;
  }

  lemma WrapIsModulo(x: int)
    ensures Wrap(x) == x % 0x1_0000_0000_0000_0000
  {}

  lemma FreeIndexOfPage(b: Boot, base: u64, i: nat)
    requires i < PAGE_TABLE_SIZE
    ensures FreeIndex(b, base, PageAt(base, i)) == Wrap(PAGE_SIZE * i + b.kernelBase) / PAGE_SIZE
  {
    hide Wrap;
    WrapOfWrap(base + PAGE_SIZE * i, b.kernelBase);
    WrapOfWrap(base + PAGE_SIZE * i + b.kernelBase, -(base as int));
    assert base + PAGE_SIZE * i + b.kernelBase + (-(base as int)) == PAGE_SIZE * i + b.kernelBase;
  }

  lemma PageOfWrap(i: nat, q: nat, r: nat)
    requires r < PAGE_SIZE && i < PAGE_TABLE_SIZE && q < 0x10_0000_0000_0000
    ensures Wrap(PAGE_SIZE * i + (PAGE_SIZE * q + r)) / PAGE_SIZE == (i + q) % 0x10_0000_0000_0000
  {
    var x := PAGE_SIZE * (i + q) + r;
    if x < W64 {
      assert Wrap(x) == x;
    } else {
      assert Wrap(x) == x - W64;
    }
  }

  /** Freeing the page that was handed out for table entry `i` clears entry i + base/4096, modulo the
      pages of the address space: its own entry exactly when the kernel's physical base is below the
      page size, and otherwise a different one. */
  lemma FreeHitsItsEntryIff(b: Boot, base: u64, i: nat)
    requires i < PAGE_TABLE_SIZE
    ensures FreeIndex(b, base, PageAt(base, i)) == (i + b.kernelBase / PAGE_SIZE) % 0x10_0000_0000_0000
    ensures FreeIndex(b, base, PageAt(base, i)) == i <==> b.kernelBase < PAGE_SIZE
  {
    hide FreeIndex, PageAt, Wrap;
    FreeIndexOfPage(b, base, i);
    PageOfWrap(i, b.kernelBase / PAGE_SIZE, b.kernelBase % PAGE_SIZE);
  }

  /** That entry is in the page table exactly when the sum of the page's offset and the kernel's base
      is an offset into the heap. */
  lemma FreeStaysInTableIff(b: Boot, base: u64, i: nat)
    requires i < PAGE_TABLE_SIZE
    ensures FreeIndex(b, base, PageAt(base, i)) < PAGE_TABLE_SIZE <==>
            Wrap(PAGE_SIZE * i + b.kernelBase) < TOTAL_HEAP_SIZE
  {
    FreeIndexOfPage(b, base, i);
  }

  /** Free undoes get, as a law on the state, exactly under that condition. Only the heap base, which the
      first get sets, stays set. */
  lemma FreeUndoesGetIff(b: Boot, s: State)
    requires WellSized(s) && Get(b, s).0.Page?
    ensures var (r, s1) := Get(b, s);
            Free(b, s1, r.address) == s.(base := s1.base) <==> b.kernelBase < PAGE_SIZE
  {
    hide HeapBase, PageAt, FreeIndex;
    var (r, s1) := Get(b, s);
    var i := FirstFree(s.pages);
    var k := FreeIndex(b, s1.base, r.address);
    FreeHitsItsEntryIff(b, s1.base, i);
    if k == i {
      assert s.pages[i := true][i := false] == s.pages;
    } else {
      assert Free(b, s1, r.address).pages[i];
      assert !s.pages[i];
    }
  }

  // ----- every interleaving

  /** The pages handed out and not yet freed. */
  ghost predicate LedgerStep(b: Boot, s: State, op: Op, live: set<u64>, live': set<u64>) {
    match op
    case Take => Get(b, s).0.Page? && live' == live + {Get(b, s).0.address}
    case Release(page) => page in live && live' == live - {page}
  }

  /** A run in which only live pages are freed. */
  ghost predicate LedgerRun(b: Boot, ops: seq<Op>, trace: seq<State>, live: seq<set<u64>>) {
    && Run(b, ops, trace)
    && |live| == |ops| + 1
    && live[0] == {}
    && forall i :: 0 <= i < |ops| ==> LedgerStep(b, trace[i], ops[i], live[i], live[i + 1])
  }

  ghost function UsedEntries(s: State): set<nat> { set j: nat | j < |s.pages| && s.pages[j] }

  ghost function UsedPages(s: State): set<u64> { set j: nat | j < |s.pages| && s.pages[j] :: PageAt(s.base, j) }

  lemma OffsetOfPage(base: u64, i: nat)
    requires i < PAGE_TABLE_SIZE
    ensures Plus(PageAt(base, i), -(base as int)) == PAGE_SIZE * i
  {
    WrapOfWrap(base + PAGE_SIZE * i, -(base as int));
    assert base + PAGE_SIZE * i + (-(base as int)) == PAGE_SIZE * i;
    WrapIsIdentity(PAGE_SIZE * i);
  }

  lemma PageAtInjective(base: u64, i: nat, j: nat)
    requires i < PAGE_TABLE_SIZE && j < PAGE_TABLE_SIZE && PageAt(base, i) == PageAt(base, j)
    ensures i == j
  {
    hide Plus, PageAt;
    OffsetOfPage(base, i);
    OffsetOfPage(base, j);
  }

  /** Marking entry `i` adds its page. */
  lemma MarkedPages(s: State, i: nat)
    requires WellSized(s) && i < |s.pages| && !s.pages[i]
    ensures var s' := s.(pages := s.pages[i := true]);
            && UsedPages(s') == UsedPages(s) + {PageAt(s.base, i)}
            && UsedEntries(s') == UsedEntries(s) + {i} && i !in UsedEntries(s)
            && PageAt(s.base, i) !in UsedPages(s)
  {
    hide PageAt;
    var s' := s.(pages := s.pages[i := true]);
    forall p ensures p in UsedPages(s') <==> p in UsedPages(s) + {PageAt(s.base, i)} {
      if p in UsedPages(s) {
        var j: nat :| j < |s.pages| && s.pages[j] && p == PageAt(s.base, j);
        assert s'.pages[j];
      }
      assert s'.pages[i];
    }
    if PageAt(s.base, i) in UsedPages(s) {
      var j: nat :| j < |s.pages| && s.pages[j] && PageAt(s.base, i) == PageAt(s.base, j);
      PageAtInjective(s.base, i, j);
    }
  }

  lemma RebasedWhenEmpty(s: State, base: u64)
    requires s.base == base || UsedEntries(s) == {}
    ensures UsedPages(s.(base := base)) == UsedPages(s) && UsedEntries(s.(base := base)) == UsedEntries(s)
  {
    if s.base != base {
      forall j: nat | j < |s.pages| ensures !s.pages[j] {
        assert j !in UsedEntries(s);
      }
    }
  }

  /** A page handed out is the one of the lowest free entry, and nobody holds it. */
  lemma TakeIsFresh(b: Boot, s: State)
    requires WellSized(s) && Get(b, s).0.Page?
    requires s.base == 0 ==> UsedEntries(s) == {}
    ensures var (r, s') := Get(b, s);
            && r.address == PageAt(s'.base, FirstFree(s.pages))
            && r.address !in UsedPages(s)
            && UsedPages(s') == UsedPages(s) + {r.address}
            && |UsedEntries(s')| == |UsedEntries(s)| + 1
  {
    hide PageAt, HeapBase, UsedPages, UsedEntries;
    var (r, s') := Get(b, s);
    var i := FirstFree(s.pages);
    RebasedWhenEmpty(s, s'.base);
    MarkedPages(s.(base := s'.base), i);
    assert s' == s.(base := s'.base).(pages := s.pages[i := true]);
  }

  lemma ReleaseForgets(b: Boot, s: State, page: u64)
    requires WellSized(s) && b.kernelBase < PAGE_SIZE && page in UsedPages(s)
    ensures UsedPages(Free(b, s, page)) == UsedPages(s) - {page} && Free(b, s, page).strays == s.strays
    ensures |UsedEntries(Free(b, s, page))| == |UsedEntries(s)| - 1
  {
    var i: nat :| i < |s.pages| && s.pages[i] && page == PageAt(s.base, i);
    FreeHitsItsEntryIff(b, s.base, i);
    var s' := Free(b, s, page);
    assert UsedEntries(s') == UsedEntries(s) - {i} && i in UsedEntries(s);
    forall j: nat | j < |s.pages| && j != i ensures PageAt(s.base, j) != page {
      if PageAt(s.base, j) == page {
        PageAtInjective(s.base, i, j);
      }
    }
    forall p ensures p in UsedPages(s') <==> p in UsedPages(s) - {page} {
      if p in UsedPages(s) && p != page {
        var j: nat :| j < |s.pages| && s.pages[j] && p == PageAt(s.base, j);
        assert s'.pages[j];
      }
    }
  }

  function Takes(ops: seq<Op>): nat {
    if ops == [] then 0 else Takes(ops[..|ops| - 1]) + (if ops[|ops| - 1].Take? then 1 else 0)
  }

  function Releases(ops: seq<Op>): nat {
    if ops == [] then 0 else Releases(ops[..|ops| - 1]) + (if ops[|ops| - 1].Take? then 0 else 1)
  }

  /** With the kernel's base below a page, in every interleaving of gets and frees the page table marks
      exactly the live pages, their number is gets minus frees, and no free misses the table. */
  lemma {:induction false} LedgerIsExact(b: Boot, ops: seq<Op>, trace: seq<State>, live: seq<set<u64>>, n: nat)
    requires LedgerRun(b, ops, trace, live) && b.kernelBase < PAGE_SIZE && n <= |ops|
    ensures WellSized(trace[n]) && UsedPages(trace[n]) == live[n]
    ensures trace[n].strays == [] && (trace[n].base == 0 ==> UsedEntries(trace[n]) == {})
    ensures |live[n]| == |UsedEntries(trace[n])| == Takes(ops[..n]) - Releases(ops[..n])
  {
    hide HeapBase, PageAt, FreeIndex, UsedPages, UsedEntries, Takes, Releases;
    BaseIsFixed(b, ops, trace, n);
    CountsOfNext(ops, n);
    if n == 0 {
      NothingUsed();
    } else {
      LedgerIsExact(b, ops, trace, live, n - 1);
      var s, op := trace[n - 1], ops[n - 1];
      assert Step(b, s, op, trace[n]) && LedgerStep(b, s, op, live[n - 1], live[n]);
      match op {
        case Take =>
          TakeIsFresh(b, s);
        case Release(page) =>
          ReleaseForgets(b, s, page);
      }
    }
  }

  lemma NothingUsed()
    ensures UsedPages(Initial()) == {} && UsedEntries(Initial()) == {}
  {}

  lemma CountsOfNext(ops: seq<Op>, n: nat)
    requires n <= |ops|
    ensures if n == 0 then Takes(ops[..n]) == Releases(ops[..n]) == 0
            else Takes(ops[..n]) == Takes(ops[..n - 1]) + (if ops[n - 1].Take? then 1 else 0) &&
                 Releases(ops[..n]) == Releases(ops[..n - 1]) + (if ops[n - 1].Take? then 0 else 1)
  {
    if n > 0 {
      assert ops[..n][..n - 1] == ops[..n - 1];
    }
  }

  /** In such runs a request panics for want of a page exactly when gets minus frees is 4096. */
  lemma HeapFullOverRuns(b: Boot, ops: seq<Op>, trace: seq<State>, live: seq<set<u64>>, n: nat)
    requires LedgerRun(b, ops, trace, live) && b.kernelBase < 4096 && n <= |ops|
    ensures Get(b, trace[n]).0.HeapFull? <==> Takes(ops[..n]) - Releases(ops[..n]) == 4096
  {
    hide HeapBase, PageAt, FreeIndex, UsedPages, UsedEntries, Takes, Releases, Step, LedgerStep;
    LedgerIsExact(b, ops, trace, live, n);
    HeapFullIff(b, trace[n]);
    AllMarkedIff(trace[n]);
  }

  lemma AllMarkedIff(s: State)
    requires WellSized(s)
    ensures |UsedEntries(s)| == 4096 <==> forall i :: 0 <= i < 4096 ==> s.pages[i]
  {
    var all := Numbers(4096);
    NumbersBelow(4096);
    assert UsedEntries(s) <= all;
    if i: nat :| i < 4096 && !s.pages[i] {
      assert UsedEntries(s) <= all - {i};
      SubsetIsSmaller(UsedEntries(s), all - {i});
    } else {
      assert UsedEntries(s) == all;
    }
  }

  ghost function Numbers(n: nat): set<nat> { if n == 0 then {} else Numbers(n - 1) + {n - 1} }

  lemma {:induction false} NumbersBelow(n: nat)
    ensures |Numbers(n)| == n && forall j: nat :: j in Numbers(n) <==> j < n
  {
    if n > 0 {
      NumbersBelow(n - 1);
    }
  }

  lemma {:induction false} SubsetIsSmaller(a: set<nat>, c: set<nat>)
    requires a <= c
    ensures |a| <= |c|
  {
    if x :| x in a {
      SubsetIsSmaller(a - {x}, c - {x});
    }
  }

  /** The next request would be given a page that is live. */
  ghost predicate SharesAPage(b: Boot, s: State, live: set<u64>) {
    Get(b, s).0.Page? && Get(b, s).0.address in live
  }

  /** The page table marks exactly the live pages, none of them is about to be handed out again, and no
      free has written outside the table. */
  ghost predicate Sound(b: Boot, s: State, live: set<u64>) {
    UsedPages(s) == live && !SharesAPage(b, s, live) && s.strays == []
  }

  /** Every run in which only live pages are freed is sound throughout. */
  ghost predicate FreesAreSound(b: Boot) {
    forall ops, trace, live, n ::
      LedgerRun(b, ops, trace, live) && 0 <= n <= |ops| ==> Sound(b, trace[n], live[n])
  }

  lemma {:induction false} LedgerRunExtends(b: Boot, ops: seq<Op>, trace: seq<State>, live: seq<set<u64>>,
                                            op: Op, s: State, l: set<u64>)
    requires LedgerRun(b, ops, trace, live)
    requires Step(b, trace[|ops|], op, s) && LedgerStep(b, trace[|ops|], op, live[|ops|], l)
    ensures LedgerRun(b, ops + [op], trace + [s], live + [l])
  {
    hide Step, LedgerStep;
  }

  /** The state in which the first `n` pages of a fresh heap are taken. */
  ghost function FirstTaken(b: Boot, n: nat): State {
    State(if n == 0 then 0 else HeapBase(b), seq(PAGE_TABLE_SIZE, j => 0 <= j < n), [])
  }

  lemma TakeNext(b: Boot, n: nat)
    requires HeapBase(b) != 0 && n < PAGE_TABLE_SIZE
    ensures FirstFree(FirstTaken(b, n).pages) == n
    ensures Get(b, FirstTaken(b, n)) == (Page(PageAt(HeapBase(b), n)), FirstTaken(b, n + 1))
  {
    hide HeapBase, PageAt;
    var pages := FirstTaken(b, n).pages;
    assert !pages[n] && pages[n := true] == FirstTaken(b, n + 1).pages;
  }

  lemma NoneTaken(b: Boot)
    ensures UsedEntries(FirstTaken(b, 0)) == {} && UsedPages(FirstTaken(b, 0)) == {} && FirstTaken(b, 0) == Initial()
  {
    assert Initial().pages == FirstTaken(b, 0).pages;
  }

  /** The next page that is taken joins the live ones. */
  lemma TakeOneMore(b: Boot, n: nat)
    requires HeapBase(b) != 0 && n < PAGE_TABLE_SIZE
    ensures var s, s' := FirstTaken(b, n), FirstTaken(b, n + 1);
            Step(b, s, Take, s') && LedgerStep(b, s, Take, UsedPages(s), UsedPages(s'))
  {
    TakeNext(b, n);
    NoneTaken(b);
    hide HeapBase, PageAt, UsedPages, UsedEntries;
    TakeIsFresh(b, FirstTaken(b, n));
  }

  lemma {:induction false} TakeMany(b: Boot, n: nat)
      returns (ops: seq<Op>, trace: seq<State>, live: seq<set<u64>>)
    requires HeapBase(b) != 0 && n <= PAGE_TABLE_SIZE
    ensures LedgerRun(b, ops, trace, live) && |ops| == n
    ensures trace[n] == FirstTaken(b, n) && live[n] == UsedPages(trace[n])
  {
    NoneTaken(b);
    hide HeapBase, UsedPages, FirstTaken, Step, LedgerStep;
    if n == 0 {
      ops, trace, live := [], [Initial()], [{}];
    } else {
      ops, trace, live := TakeMany(b, n - 1);
      var s' := FirstTaken(b, n);
      TakeOneMore(b, n - 1);
      LedgerRunExtends(b, ops, trace, live, Take, s', UsedPages(s'));
      ops, trace, live := ops + [Take], trace + [s'], live + [UsedPages(s')];
    }
  }

  /** Once the first pages are taken, among them those of entries `f` and `c`, freeing the page of `f`
      by clearing `c` makes the allocator hand out the page of `c` again. */
  lemma FreedByMistake(b: Boot, n: nat, f: nat, c: nat)
    requires HeapBase(b) != 0 && f < n <= PAGE_TABLE_SIZE && c < n && f != c
    requires FreeIndex(b, HeapBase(b), PageAt(HeapBase(b), f)) == c
    ensures var s, page := FirstTaken(b, n), PageAt(HeapBase(b), f);
            && page in UsedPages(s)
            && Step(b, s, Release(page), Free(b, s, page))
            && Get(b, Free(b, s, page)).0 == Page(PageAt(HeapBase(b), c))
            && PageAt(HeapBase(b), c) in UsedPages(s) - {page}
  {
    hide HeapBase, PageAt, FreeIndex;
    var s, page := FirstTaken(b, n), PageAt(HeapBase(b), f);
    assert s.pages[f] && s.pages[c];
    var pages := Free(b, s, page).pages;
    assert pages == s.pages[c := false];
    assert FirstFree(pages) == c by {
      assert !pages[c] && forall j :: 0 <= j < c ==> pages[j];
    }
    if PageAt(HeapBase(b), c) == page {
      PageAtInjective(HeapBase(b), f, c);
    }
  }

  lemma NothingToDo(b: Boot, op: Op, l: set<u64>)
    requires HeapBase(b) == 0
    ensures !LedgerStep(b, Initial(), op, {}, l)
  {}

  /** Without a heap no page is ever taken, so none can be freed. */
  lemma {:induction false} NoHeapNoPages(b: Boot, ops: seq<Op>, trace: seq<State>, live: seq<set<u64>>, n: nat)
    requires LedgerRun(b, ops, trace, live) && HeapBase(b) == 0 && n <= |ops|
    ensures trace[n] == Initial() && live[n] == {}
  {
    hide HeapBase, FreeIndex;
    if n > 0 {
      NoHeapNoPages(b, ops, trace, live, n - 1);
      NothingToDo(b, ops[n - 1], live[n]);
    }
  }

  lemma SoundRuns(b: Boot, ops: seq<Op>, trace: seq<State>, live: seq<set<u64>>, n: nat)
    requires LedgerRun(b, ops, trace, live) && n <= |ops| && (b.kernelBase < PAGE_SIZE || HeapBase(b) == 0)
    ensures Sound(b, trace[n], live[n])
  {
    if HeapBase(b) == 0 {
      NoHeapNoPages(b, ops, trace, live, n);
      NoneTaken(b);
    } else {
      hide HeapBase, PageAt, FreeIndex, UsedPages, UsedEntries, LedgerStep, Step;
      LedgerIsExact(b, ops, trace, live, n);
      if Get(b, trace[n]).0.Page? {
        TakeIsFresh(b, trace[n]);
      }
    }
  }

  /** One get and one free: the page is no longer live, but its entry is still marked. */
  lemma FreedInVain(b: Boot) returns (ops: seq<Op>, trace: seq<State>, live: seq<set<u64>>)
    requires b.kernelBase >= PAGE_SIZE && HeapBase(b) != 0
    ensures LedgerRun(b, ops, trace, live) && live[|ops|] == {} && trace[|ops|].pages != [] && trace[|ops|].pages[0]
  {
    hide HeapBase, PageAt, FreeIndex;
    ops, trace, live := TakeMany(b, 1);
    var page := PageAt(HeapBase(b), 0);
    OnePage(b);
    FreeHitsItsEntryIff(b, HeapBase(b), 0);
    var s' := Free(b, trace[1], page);
    LedgerRunExtends(b, ops, trace, live, Release(page), s', {});
    ops, trace, live := ops + [Release(page)], trace + [s'], live + [{}];
  }

  lemma OnePage(b: Boot)
    ensures UsedPages(FirstTaken(b, 1)) == {PageAt(HeapBase(b), 0)}
  {
    var s := FirstTaken(b, 1);
    assert s.pages[0];
  }

  /** Runs of gets and frees are sound exactly if the kernel's base is below a page, or there is no heap. */
  lemma FreesAreSoundIff(b: Boot)
    ensures FreesAreSound(b) <==> b.kernelBase < PAGE_SIZE || HeapBase(b) == 0
  {
    hide HeapBase, Sound, Step, LedgerStep;
    if b.kernelBase < PAGE_SIZE || HeapBase(b) == 0 {
      forall ops, trace, live, n | LedgerRun(b, ops, trace, live) && 0 <= n <= |ops|
        ensures Sound(b, trace[n], live[n])
      {
        SoundRuns(b, ops, trace, live, n);
      }
    } else {
      var ops, trace, live := FreedInVain(b);
      MarkedIsUnsound(b, trace[|ops|]);
    }
  }

  lemma MarkedIsUnsound(b: Boot, s: State)
    requires s.pages != [] && s.pages[0]
    ensures !Sound(b, s, {})
  {
    assert PageAt(s.base, 0) in UsedPages(s);
  }

  // ----- which unsound runs hand out a live page

  /** No free of a heap page clears the entry of another one. */
  predicate ClearsNoOther(b: Boot) {
    b.kernelBase < PAGE_SIZE || TOTAL_HEAP_SIZE <= b.kernelBase < W64 - TOTAL_HEAP_SIZE + PAGE_SIZE
  }

  lemma ClearsOwnOrMisses(b: Boot, base: u64, i: nat)
    requires ClearsNoOther(b) && i < PAGE_TABLE_SIZE
    ensures FreeIndex(b, base, PageAt(base, i)) == i || FreeIndex(b, base, PageAt(base, i)) >= PAGE_TABLE_SIZE
  {
    FreeIndexOfPage(b, base, i);
  }

  /** Otherwise the page of some entry `f` is freed by clearing another entry `c`. */
  lemma ClearsAnother(b: Boot, base: u64) returns (f: nat, c: nat)
    requires !ClearsNoOther(b)
    ensures f < PAGE_TABLE_SIZE && c < PAGE_TABLE_SIZE && f != c
    ensures FreeIndex(b, base, PageAt(base, f)) == c
  {
    f := if b.kernelBase < TOTAL_HEAP_SIZE then 0 else PAGE_TABLE_SIZE - 1;
    FreeIndexOfPage(b, base, f);
    c := FreeIndex(b, base, PageAt(base, f));
  }

  /** No free of a live page, whether it finds its entry or misses the table, unmarks another one. */
  lemma ReleaseKeepsOthers(b: Boot, s: State, page: u64, live: set<u64>)
    requires WellSized(s) && ClearsNoOther(b) && live <= UsedPages(s) && page in live
    ensures live - {page} <= UsedPages(Free(b, s, page))
  {
    hide PageAt, FreeIndex, ClearsNoOther;
    var i: nat :| i < |s.pages| && s.pages[i] && page == PageAt(s.base, i);
    ClearsOwnOrMisses(b, s.base, i);
    var s' := Free(b, s, page);
    forall p | p in live - {page} ensures p in UsedPages(s') {
      var j: nat :| j < |s.pages| && s.pages[j] && p == PageAt(s.base, j);
      assert s'.pages[j];
    }
  }

  /** So live pages stay marked in every run. */
  lemma {:induction false} LivePagesStayMarked(b: Boot, ops: seq<Op>, trace: seq<State>, live: seq<set<u64>>, n: nat)
    requires LedgerRun(b, ops, trace, live) && ClearsNoOther(b) && n <= |ops|
    ensures WellSized(trace[n]) && live[n] <= UsedPages(trace[n])
    ensures trace[n].base == 0 ==> UsedEntries(trace[n]) == {} && live[n] == {}
  {
    hide HeapBase, PageAt, FreeIndex, ClearsNoOther, UsedPages, UsedEntries;
    if n == 0 {
      NoneTaken(b);
    } else {
      LivePagesStayMarked(b, ops, trace, live, n - 1);
      var s, op := trace[n - 1], ops[n - 1];
      assert Step(b, s, op, trace[n]) && LedgerStep(b, s, op, live[n - 1], live[n]);
      match op {
        case Take => TakeIsFresh(b, s);
        case Release(page) => ReleaseKeepsOthers(b, s, page, live[n - 1]);
      }
    }
  }

  /** No run in which only live pages are freed hands out a live page. */
  ghost predicate LivePagesAreDistinct(b: Boot) {
    forall ops, trace, live, n ::
      LedgerRun(b, ops, trace, live) && 0 <= n <= |ops| ==> !SharesAPage(b, trace[n], live[n])
  }

  lemma NothingShared(b: Boot, ops: seq<Op>, trace: seq<State>, live: seq<set<u64>>, n: nat)
    requires LedgerRun(b, ops, trace, live) && n <= |ops| && (ClearsNoOther(b) || HeapBase(b) == 0)
    ensures !SharesAPage(b, trace[n], live[n])
  {
    hide HeapBase, PageAt, FreeIndex, UsedPages, UsedEntries, ClearsNoOther, LedgerStep, Step;
    if HeapBase(b) == 0 {
      NoHeapNoPages(b, ops, trace, live, n);
    } else if Get(b, trace[n]).0.Page? {
      LivePagesStayMarked(b, ops, trace, live, n);
      TakeIsFresh(b, trace[n]);
    }
  }

  lemma SomethingShared(b: Boot) returns (ops: seq<Op>, trace: seq<State>, live: seq<set<u64>>)
    requires !ClearsNoOther(b) && HeapBase(b) != 0
    ensures LedgerRun(b, ops, trace, live) && SharesAPage(b, trace[|ops|], live[|ops|])
  {
    hide HeapBase, PageAt, FreeIndex, UsedPages, UsedEntries, ClearsNoOther, Step, Get;
    var f, c := ClearsAnother(b, HeapBase(b));
    var n, page := (if f < c then c else f) + 1, PageAt(HeapBase(b), f);
    ops, trace, live := TakeMany(b, n);
    FreedByMistake(b, n, f, c);
    var s', l := Free(b, trace[n], page), live[n] - {page};
    LedgerRunExtends(b, ops, trace, live, Release(page), s', l);
    ops, trace, live := ops + [Release(page)], trace + [s'], live + [l];
  }

  /** Some run hands out a live page exactly for the bases for which one page's free clears the entry of
      another. That a base is not one of them does not make its runs sound. */
  lemma LivePagesDistinctIff(b: Boot)
    ensures LivePagesAreDistinct(b) <==> ClearsNoOther(b) || HeapBase(b) == 0
  {
    hide HeapBase, ClearsNoOther, SharesAPage, Step, LedgerStep;
    if ClearsNoOther(b) || HeapBase(b) == 0 {
      forall ops, trace, live, n | LedgerRun(b, ops, trace, live) && 0 <= n <= |ops|
        ensures !SharesAPage(b, trace[n], live[n])
      {
        NothingShared(b, ops, trace, live, n);
      }
    } else {
      var ops, trace, live := SomethingShared(b);
    }
  }
}
