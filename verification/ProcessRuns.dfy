/** Any run of process creations and namings, with other users of the page allocator in between. */
module ProcessRuns {
  import opened Words
  import opened PageAllocator
  import opened PageRuns
  import opened Processes

  /** A process is created or named, or someone else takes a page, frees one that it holds, or stores a
      byte in one. */
  datatype Event =
    | Spawn(start: u64, args: u64)
    | Rename(slot: nat, at: nat)
    | Other(op: Op)
    | Write(page: u64, offset: nat, value: byte)

  function Booted(m: seq<byte>): Kernel { Kernel(Initial(), seq(NR_PROC, _ => NoProc()), 0, m) }

  /** One event; a panic ends the run. `held` are the pages that the others hold. */
  ghost predicate KernelStep(b: Boot, entry: u64, k: Kernel, e: Event, k': Kernel, held: set<u64>, held': set<u64>) {
    WellFormed(k) && HeapMapped(b, k.heap) &&
    match e
    case Spawn(start, args) =>
      Create(b, k, start, args, entry).0.Slot? && k' == Create(b, k, start, args, entry).1 && held' == held
    case Other(op) =>
      Step(b, k.heap, op, k'.heap) && LedgerStep(b, k.heap, op, held, held') && k' == k.(heap := k'.heap)
    case Rename(slot, at) =>
      && slot < NR_PROC && at + NAME_LENGTH <= W64
      && k' == k.(procs := Named(k.procs, k.mem, slot, at)) && held' == held
    case Write(page, offset, value) =>
      && page in held && offset < PAGE_SIZE
      && k' == k.(mem := k.mem[Addr(page, offset) := value]) && held' == held
  }

  ghost predicate KernelRun(b: Boot, entry: u64, m: seq<byte>, events: seq<Event>, trace: seq<Kernel>,
                            held: seq<set<u64>>) {
    && |m| == W64
    && HeapBase(b) + TOTAL_HEAP_SIZE <= W64
    && |trace| == |held| == |events| + 1
    && trace[0] == Booted(m) && held[0] == {}
    && forall i :: 0 <= i < |events| ==> KernelStep(b, entry, trace[i], events[i], trace[i + 1], held[i], held[i + 1])
  }

  /** The arguments of the creations among the events. */
  function Spawns(events: seq<Event>): seq<(u64, u64)> {
    if events == [] then []
    else
      var e := events[|events| - 1];
      Spawns(events[..|events| - 1]) + (if e.Spawn? then [(e.start, e.args)] else [])
  }

  lemma SpawnsOfNext(events: seq<Event>, n: nat)
    requires n < |events|
    ensures Spawns(events[..n + 1])
         == Spawns(events[..n]) + (if events[n].Spawn? then [(events[n].start, events[n].args)] else [])
    ensures Spawns(events[..0]) == []
  {
    assert events[..n + 1][..n] == events[..n];
  }

  /** The slot of the process created as number `i`: 1 to 31 in order, and slot 0 last. */
  function SlotOf(i: nat): (s: nat)
    requires i < NR_PROC
    ensures s < NR_PROC
  {
    if i < NR_PROC - 1 then i + 1 else 0
  }

  lemma SlotsAreDistinct(i: nat, j: nat)
    requires i < NR_PROC && j < NR_PROC && i != j
    ensures SlotOf(i) != SlotOf(j)
  {}

  // ----- the table

  /** What holds of the table and the heap after `n` creations, however pages are freed. */
  ghost predicate TableHolds(b: Boot, k: Kernel, held: set<u64>, n: nat) {
    && WellFormed(k)
    && k.procNumber == n <= NR_PROC
    && (k.heap.base == 0 || k.heap.base == HeapBase(b))
    && (k.heap.base == 0 ==> UsedEntries(k.heap) == {} && held == {} && n == 0)
    && forall i :: 0 <= i < NR_PROC ==>
         k.procs[SlotOf(i)].state == (if i < n then RUNNABLE else FREE) && k.procs[SlotOf(i)].parent == 0
  }

  /** The search finds the slots in the order 1 to 31, then 0. */
  lemma {:induction false} NextSlotIs(k: Kernel, n: nat, i: nat)
    requires WellFormed(k) && 1 <= i <= NR_PROC && n < NR_PROC && i <= n + 1
    requires forall j :: 0 <= j < NR_PROC ==> (k.procs[SlotOf(j)].state.FREE? <==> j >= n)
    ensures NextSlot(k.procs, i) == SlotOf(n)
    decreases NR_PROC - i
  {
    if i < NR_PROC {
      assert SlotOf(i - 1) == i;
      if !k.procs[i].state.FREE? {
        NextSlotIs(k, n, i + 1);
      }
    }
  }

  /** The page that a request leads to. */
  lemma PageFrom(b: Boot, s: State)
    requires WellSized(s) && HeapMapped(b, s) && Get(b, s).0.Page?
    requires s.base == 0 || s.base == HeapBase(b)
    ensures var (r, s') := Get(b, s);
            var i := FirstFree(s.pages);
            && s'.base == HeapBase(b) != 0 && HeapBase(b) + TOTAL_HEAP_SIZE <= W64
            && i < PAGE_TABLE_SIZE && !s.pages[i] && s' == State(HeapBase(b), s.pages[i := true], s.strays)
            && r.address == PageAt(HeapBase(b), i) && r.address + PAGE_SIZE <= W64
  {
    PageFits(b, s);
  }

  /** A creation panics exactly after thirty-two or when the allocator does. Otherwise it takes the next
      slot and puts a fresh page, laid out as a context, there. */
  lemma CreateIs(b: Boot, entry: u64, k: Kernel, held: set<u64>, n: nat, start: u64, args: u64)
    requires TableHolds(b, k, held, n) && HeapMapped(b, k.heap)
    ensures var (r, k') := Create(b, k, start, args, entry);
            && (r.Panic? <==> n == NR_PROC || !Get(b, k.heap).0.Page?)
            && (n == NR_PROC ==> k' == k)
            && (!r.Panic? ==>
                  var page := Get(b, k.heap).0.address;
                  && page + PAGE_SIZE <= W64
                  && r == Slot(SlotOf(n)) && k'.heap == Get(b, k.heap).1 && k'.procNumber == n + 1
                  && k'.procs == k.procs[SlotOf(n) := Proc(NoName(), 0, page, RUNNABLE)]
                  && k'.mem == LaidOut(k.mem, page, start, args, entry))
  {
    hide LaidOut, HeapBase, PageAt, UsedEntries;
    if n < NR_PROC {
      NextSlotIs(k, n, 1);
      if Get(b, k.heap).0.Page? {
        PageFrom(b, k.heap);
      }
    } else {
      assert SlotOf(NR_PROC - 1) == 0;
    }
  }

  lemma StepKeepsTable(b: Boot, entry: u64, k: Kernel, e: Event, k': Kernel, held: set<u64>, held': set<u64>, n: nat)
    requires TableHolds(b, k, held, n) && KernelStep(b, entry, k, e, k', held, held')
    ensures TableHolds(b, k', held', if e.Spawn? then n + 1 else n)
  {
    hide LaidOut, HeapBase, PageAt, FreeIndex, UsedEntries;
    match e {
      case Spawn(start, args) =>
        CreateIs(b, entry, k, held, n, start, args);
        PageFrom(b, k.heap);
        forall i: nat | i < NR_PROC && i != n ensures SlotOf(i) != SlotOf(n) {
          SlotsAreDistinct(i, n);
        }
      case Other(op) =>
        if op.Take? {
          PageFrom(b, k.heap);
        }
      case Rename(slot, at) =>
      case Write(page, offset, value) =>
    }
  }

  lemma {:induction false} RunKeepsTable(b: Boot, entry: u64, m: seq<byte>, events: seq<Event>, trace: seq<Kernel>,
                                         held: seq<set<u64>>, n: nat)
    requires KernelRun(b, entry, m, events, trace, held) && n <= |events|
    ensures TableHolds(b, trace[n], held[n], |Spawns(events[..n])|)
  {
    hide KernelStep, HeapBase;
    if n == 0 {
    } else {
      RunKeepsTable(b, entry, m, events, trace, held, n - 1);
      SpawnsOfNext(events, n - 1);
      hide TableHolds;
      StepKeepsTable(b, entry, trace[n - 1], events[n - 1], trace[n], held[n - 1], held[n], |Spawns(events[..n - 1])|);
    }
  }

  /** The number of occupied slots among the first `n`. */
  function Occupied(procs: seq<Proc>, n: nat): nat
    requires n <= |procs|
  {
    if n == 0 then 0 else Occupied(procs, n - 1) + (if procs[n - 1].state.FREE? then 0 else 1)
  }

  lemma {:induction false} OccupiedIs(procs: seq<Proc>, calls: nat, n: nat)
    requires |procs| == NR_PROC && calls <= NR_PROC && n <= NR_PROC
    requires forall i :: 0 <= i < NR_PROC ==> (procs[SlotOf(i)].state.FREE? <==> i >= calls)
    ensures Occupied(procs, n) == if n == 0 then 0
                                  else (if calls == NR_PROC then 1 else 0) + (if n - 1 <= calls then n - 1 else calls)
  {
    if n == 1 {
      assert SlotOf(NR_PROC - 1) == 0;
      assert Occupied(procs, 0) == 0;
    } else if n > 1 {
      OccupiedIs(procs, calls, n - 1);
      assert SlotOf(n - 2) == n - 1;
    }
  }

  /** In every run the counter equals the number of occupied slots, and the process created as number
      `i` is in slot i + 1, or, for the thirty-second, in slot 0. */
  lemma TableOverRuns(b: Boot, entry: u64, m: seq<byte>, events: seq<Event>, trace: seq<Kernel>, held: seq<set<u64>>,
                      n: nat)
    requires KernelRun(b, entry, m, events, trace, held) && n <= |events|
    ensures WellFormed(trace[n])
    ensures trace[n].procNumber == Occupied(trace[n].procs, 32) == |Spawns(events[..n])| <= 32 == |trace[n].procs|
    ensures forall s :: 1 <= s < 32 ==> (trace[n].procs[s].state.FREE? <==> |Spawns(events[..n])| < s)
    ensures trace[n].procs[0].state.FREE? <==> |Spawns(events[..n])| < 32
    ensures forall s :: 0 <= s < 32 ==> trace[n].procs[s].state in {FREE, RUNNABLE} && trace[n].procs[s].parent == 0
  {
    RunKeepsTable(b, entry, m, events, trace, held, n);
    OccupiedIs(trace[n].procs, |Spawns(events[..n])|, NR_PROC);
    forall s | 1 <= s < 32 ensures trace[n].procs[s].state.FREE? <==> |Spawns(events[..n])| < s {
      assert SlotOf(s - 1) == s;
    }
    assert SlotOf(31) == 0;
    forall s | 0 <= s < 32 ensures trace[n].procs[s].state in {FREE, RUNNABLE} && trace[n].procs[s].parent == 0 {
      assert SlotOf(if s == 0 then 31 else s - 1) == s;
    }
  }

  /** After thirty-two creations the next one panics and changes nothing; before that, a creation
      panics only if the allocator does. */
  lemma CreationPanicsIff(b: Boot, entry: u64, m: seq<byte>, events: seq<Event>, trace: seq<Kernel>,
                          held: seq<set<u64>>, start: u64, args: u64)
    requires KernelRun(b, entry, m, events, trace, held) && HeapMapped(b, trace[|events|].heap)
    requires WellFormed(trace[|events|])
    ensures var (r, k') := Create(b, trace[|events|], start, args, entry);
            && (r.Panic? <==> |Spawns(events)| == 32 || !Get(b, trace[|events|].heap).0.Page?)
            && (!r.Panic? ==> r == Slot(if |Spawns(events)| < 31 then |Spawns(events)| + 1 else 0))
            && (|Spawns(events)| == 32 ==> k' == trace[|events|])
  {
    hide LaidOut, HeapBase, Create;
    RunKeepsTable(b, entry, m, events, trace, held, |events|);
    assert events[..|events|] == events;
    CreateIs(b, entry, trace[|events|], held[|events|], |Spawns(events)|, start, args);
  }

  // ----- names

  /** Event `j` names process number `i`, which exists by then. */
  ghost predicate Names(events: seq<Event>, i: nat, j: nat) {
    && j < |events| && events[j].Rename? && i < NR_PROC && events[j].slot == SlotOf(i)
    && i < |Spawns(events[..j])|
  }

  /** Event `j` is the last one that names the process. */
  ghost predicate NamedLast(events: seq<Event>, i: nat, j: nat) {
    Names(events, i, j) && forall l: nat :: j < l < |events| ==> !Names(events, i, l)
  }

  ghost predicate NeverNamed(events: seq<Event>, i: nat) { forall j: nat :: j < |events| ==> !Names(events, i, j) }

  lemma NamesOfPrefix(events: seq<Event>, n: nat, i: nat, j: nat)
    requires j < n <= |events|
    ensures Names(events[..n], i, j) <==> Names(events, i, j)
  {
    assert events[..n][..j] == events[..j];
  }

  /** What one event does to the name of a process that exists. */
  lemma NameAfterStep(b: Boot, entry: u64, k: Kernel, e: Event, k': Kernel, held: set<u64>, held': set<u64>,
                      n: nat, i: nat)
    requires TableHolds(b, k, held, n) && KernelStep(b, entry, k, e, k', held, held')
    requires i < NR_PROC && i < (if e.Spawn? then n + 1 else n)
    ensures |k.procs| == |k'.procs| == NR_PROC && |k.mem| == W64
    ensures e.Rename? ==> e.at + NAME_LENGTH <= W64
    ensures k'.procs[SlotOf(i)].name ==
            if e.Rename? && e.slot == SlotOf(i) then NameIn(k.mem, e.at)
            else if i == n then NoName()
            else k.procs[SlotOf(i)].name
  {
    hide LaidOut, HeapBase, PageAt, FreeIndex, UsedEntries, NameIn, Create;
    match e {
      case Spawn(start, args) =>
        CreateIs(b, entry, k, held, n, start, args);
        if i != n {
          SlotsAreDistinct(i, n);
        }
      case Other(op) =>
      case Rename(slot, at) =>
      case Write(page, offset, value) =>
    }
  }

  /** In every run the name of a process is the sixteen bytes that the last call naming it found in
      memory, or zeros if none has since its creation. A call before the creation is lost. */
  lemma {:induction false} NamesOverRuns(b: Boot, entry: u64, m: seq<byte>, events: seq<Event>, trace: seq<Kernel>,
                                         held: seq<set<u64>>, n: nat, i: nat)
    requires KernelRun(b, entry, m, events, trace, held) && n <= |events| && i < |Spawns(events[..n])|
    ensures i < NR_PROC && |trace[n].procs| == NR_PROC
    ensures NeverNamed(events[..n], i) ==> forall k :: 0 <= k < 16 ==> trace[n].procs[SlotOf(i)].name[k] == 0
    ensures forall j: nat | NamedLast(events[..n], i, j) ::
              && |trace[j].mem| == W64 && events[j].at + 16 <= W64
              && trace[n].procs[SlotOf(i)].name == trace[j].mem[events[j].at..events[j].at + 16]
  {
    hide KernelStep, HeapBase, NextSlot, TableHolds;
    TableSize(b, entry, m, events, trace, held, n);
    if n == 0 {
      SpawnsOfNone(events);
    } else {
      SpawnsOfNext(events, n - 1);
      RunKeepsTable(b, entry, m, events, trace, held, n - 1);
      var calls := |Spawns(events[..n - 1])|;
      var k, e := trace[n - 1], events[n - 1];
      NameAfterStep(b, entry, k, e, trace[n], held[n - 1], held[n], calls, i);
      if i < calls {
        NamesOverRuns(b, entry, m, events, trace, held, n - 1, i);
      }
      LastNaming(events, n, i);
    }
  }

  lemma SpawnsOfNone(events: seq<Event>)
    ensures Spawns(events[..0]) == []
  {}

  lemma TableSize(b: Boot, entry: u64, m: seq<byte>, events: seq<Event>, trace: seq<Kernel>, held: seq<set<u64>>,
                  n: nat)
    requires KernelRun(b, entry, m, events, trace, held) && n <= |events|
    ensures |Spawns(events[..n])| <= NR_PROC && |trace[n].procs| == NR_PROC && |trace[n].mem| == W64
  {
    hide KernelStep, HeapBase;
    RunKeepsTable(b, entry, m, events, trace, held, n);
  }

  lemma {:induction false} SpawnsGrow(events: seq<Event>, j: nat, n: nat)
    requires j <= n <= |events|
    ensures |Spawns(events[..j])| <= |Spawns(events[..n])|
  {
    if j < n {
      SpawnsGrow(events, j, n - 1);
      SpawnsOfNext(events, n - 1);
    }
  }

  /** How the last naming of a process moves with one more event. */
  lemma LastNaming(events: seq<Event>, n: nat, i: nat)
    requires 0 < n <= |events|
    ensures NeverNamed(events[..n], i) <==> NeverNamed(events[..n - 1], i) && !Names(events, i, n - 1)
    ensures forall j: nat :: NamedLast(events[..n], i, j) <==>
              if Names(events, i, n - 1) then j == n - 1 else NamedLast(events[..n - 1], i, j)
    ensures i >= |Spawns(events[..n - 1])| ==> NeverNamed(events[..n], i)
  {
    hide Names, Spawns;
    var xs, ys := events[..n], events[..n - 1];
    forall j: nat ensures Names(xs, i, j) <==> j < n && Names(events, i, j) {
      NamesInRange(xs, i, j);
      if j < n { NamesOfPrefix(events, n, i, j); }
    }
    forall j: nat ensures Names(ys, i, j) <==> j < n - 1 && Names(events, i, j) {
      NamesInRange(ys, i, j);
      if j < n - 1 { NamesOfPrefix(events, n - 1, i, j); }
    }
    if i >= |Spawns(ys)| {
      forall j: nat | j < n ensures !Names(events, i, j) {
        SpawnsGrow(events, j, n - 1);
        NamesNeedsProcess(events, i, j);
      }
    }
  }

  lemma NamesNeedsProcess(events: seq<Event>, i: nat, j: nat)
    requires j <= |events|
    ensures Names(events, i, j) ==> i < |Spawns(events[..j])|
  {}

  lemma NamesInRange(events: seq<Event>, i: nat, j: nat)
    ensures Names(events, i, j) ==> j < |events|
  {}

  // ----- contexts

  function ContextOf(k: Kernel, i: nat): u64
    requires WellFormed(k) && i < NR_PROC
  {
    k.procs[SlotOf(i)].context
  }

  /** The context of process `i` is the used heap page `page`, laid out for these arguments, and nobody
      else holds it. */
  ghost predicate HasContext(entry: u64, k: Kernel, i: nat, call: (u64, u64), page: nat, held: set<u64>)
    requires WellFormed(k) && i < NR_PROC
  {
    && page < PAGE_TABLE_SIZE && k.heap.pages[page]
    && ContextOf(k, i) == PageAt(k.heap.base, page)
    && PageAt(k.heap.base, page) !in held
    && HoldsContext(k.mem, PageAt(k.heap.base, page), call.0, call.1, entry)
  }

  /** `at[i]` is the heap page of the process created as number `i`; what the others hold is in use too. */
  ghost predicate ContextsHold(entry: u64, k: Kernel, held: set<u64>, calls: seq<(u64, u64)>, at: seq<nat>)
    requires WellFormed(k) && |calls| <= NR_PROC
  {
    && |at| == |calls|
    && held <= UsedPages(k.heap)
    && (forall i :: 0 <= i < |calls| ==> HasContext(entry, k, i, calls[i], at[i], held))
    && (forall i, j :: 0 <= i < j < |calls| ==> at[i] != at[j])
  }

  lemma PagesApart(base: u64, i: nat, j: nat)
    requires i < PAGE_TABLE_SIZE && j < PAGE_TABLE_SIZE && i != j && base + TOTAL_HEAP_SIZE <= W64
    ensures PageAt(base, i) + PAGE_SIZE <= PageAt(base, j) || PageAt(base, j) + PAGE_SIZE <= PageAt(base, i)
  {
    WrapIsIdentity(base + PAGE_SIZE * i);
    WrapIsIdentity(base + PAGE_SIZE * j);
  }

  /** Laying out a new context leaves the contexts in other pages alone. */
  lemma OtherContextKept(m: seq<byte>, base: u64, i: nat, j: nat, start: u64, args: u64, call: (u64, u64), entry: u64)
    requires |m| == W64 && i < PAGE_TABLE_SIZE && j < PAGE_TABLE_SIZE && i != j && base + TOTAL_HEAP_SIZE <= W64
    requires HoldsContext(m, PageAt(base, i), call.0, call.1, entry) && PageAt(base, j) + PAGE_SIZE <= W64
    ensures HoldsContext(LaidOut(m, PageAt(base, j), start, args, entry), PageAt(base, i), call.0, call.1, entry)
  {
    hide LaidOut, ContextByte, PageAt;
    PagesApart(base, i, j);
    var p := PageAt(base, i);
    forall k: nat | k < PAGE_SIZE
      ensures LaidOut(m, PageAt(base, j), start, args, entry)[p + k] == ContextByte(p, call.0, call.1, entry, k)
    {
      LaidOutByte(m, PageAt(base, j), start, args, entry, p + k);
    }
  }

  lemma NewContextHolds(m: seq<byte>, page: u64, start: u64, args: u64, entry: u64)
    requires |m| == W64 && page + PAGE_SIZE <= W64
    ensures HoldsContext(LaidOut(m, page, start, args, entry), page, start, args, entry)
  {
    hide LaidOut, ContextByte;
    forall k: nat | k < PAGE_SIZE
      ensures LaidOut(m, page, start, args, entry)[page + k] == ContextByte(page, start, args, entry, k)
    {
      LaidOutByte(m, page, start, args, entry, page + k);
    }
  }

  lemma SpawnKeepsContexts(b: Boot, entry: u64, k: Kernel, held: set<u64>, calls: seq<(u64, u64)>, at: seq<nat>,
                           start: u64, args: u64)
      returns (at': seq<nat>)
    requires TableHolds(b, k, held, |calls|) && ContextsHold(entry, k, held, calls, at) && HeapMapped(b, k.heap)
    requires Create(b, k, start, args, entry).0.Slot?
    ensures |calls| < NR_PROC
    ensures ContextsHold(entry, Create(b, k, start, args, entry).1, held, calls + [(start, args)], at')
  {
    hide LaidOut, HoldsContext, PageAt, HeapBase, UsedPages, UsedEntries, Create;
    var n, page := |calls|, FirstFree(k.heap.pages);
    at' := at + [page];
    CreateIs(b, entry, k, held, n, start, args);
    PageFrom(b, k.heap);
    TakeIsFresh(b, k.heap);
    var k' := Create(b, k, start, args, entry).1;
    var address := PageAt(HeapBase(b), page);
    NewContextHolds(k.mem, address, start, args, entry);
    forall i | 0 <= i < n ensures HasContext(entry, k', i, calls[i], at[i], held) {
      assert HasContext(entry, k, i, calls[i], at[i], held);
      OtherContextKept(k.mem, HeapBase(b), at[i], page, start, args, calls[i], entry);
      SlotsAreDistinct(i, n);
    }
    assert HasContext(entry, k', n, (start, args), page, held);
  }

  /** The others take a page that is nobody's, and if no free clears the entry of another page, they free
      only their own. */
  lemma OthersKeepContexts(b: Boot, entry: u64, k: Kernel, op: Op, k': Kernel, held: set<u64>, held': set<u64>,
                           calls: seq<(u64, u64)>, at: seq<nat>)
    requires TableHolds(b, k, held, |calls|) && ContextsHold(entry, k, held, calls, at)
    requires KernelStep(b, entry, k, Other(op), k', held, held') && (ClearsNoOther(b) || HeapBase(b) == 0)
    ensures ContextsHold(entry, k', held', calls, at)
  {
    hide HoldsContext, PageAt, HeapBase, UsedPages, UsedEntries, FreeIndex, ClearsNoOther;
    match op {
      case Take =>
        PageFrom(b, k.heap);
        TakeIsFresh(b, k.heap);
        var i := FirstFree(k.heap.pages);
        forall j | 0 <= j < |calls| ensures HasContext(entry, k', j, calls[j], at[j], held') {
          assert HasContext(entry, k, j, calls[j], at[j], held);
          if PageAt(HeapBase(b), at[j]) == PageAt(HeapBase(b), i) {
            PageAtInjective(HeapBase(b), at[j], i);
          }
        }
      case Release(page) =>
        ReleaseKeepsOthers(b, k.heap, page, held);
        var i := ReleasedEntry(b, k.heap, page);
        forall j | 0 <= j < |calls| ensures HasContext(entry, k', j, calls[j], at[j], held') {
          assert HasContext(entry, k, j, calls[j], at[j], held);
        }
    }
  }

  /** Freeing a used page leaves all entries but its own marked. */
  lemma ReleasedEntry(b: Boot, s: State, page: u64) returns (i: nat)
    requires WellSized(s) && ClearsNoOther(b) && page in UsedPages(s)
    ensures i < PAGE_TABLE_SIZE && page == PageAt(s.base, i) && Free(b, s, page).base == s.base
    ensures Free(b, s, page).pages in {s.pages, s.pages[i := false]}
  {
    hide PageAt, ClearsNoOther, FreeIndex;
    i :| i < |s.pages| && s.pages[i] && page == PageAt(s.base, i);
    ClearsOwnOrMisses(b, s.base, i);
  }

  /** A byte stored in a page that someone else holds is in no context. */
  lemma WriteKeepsContexts(b: Boot, entry: u64, k: Kernel, page: u64, offset: nat, value: byte, held: set<u64>,
                           calls: seq<(u64, u64)>, at: seq<nat>)
    requires TableHolds(b, k, held, |calls|) && ContextsHold(entry, k, held, calls, at)
    requires page in held && offset < PAGE_SIZE && HeapBase(b) + TOTAL_HEAP_SIZE <= W64
    ensures ContextsHold(entry, k.(mem := k.mem[Addr(page, offset) := value]), held, calls, at)
  {
    hide PageAt, HeapBase, UsedEntries, ContextByte;
    var k' := k.(mem := k.mem[Addr(page, offset) := value]);
    var j: nat :| j < |k.heap.pages| && k.heap.pages[j] && page == PageAt(k.heap.base, j);
    PageInHeap(k.heap.base, j);
    forall i | 0 <= i < |calls| ensures HasContext(entry, k', i, calls[i], at[i], held) {
      assert HasContext(entry, k, i, calls[i], at[i], held);
      PagesApart(k.heap.base, at[i], j);
    }
  }

  lemma PageInHeap(base: u64, i: nat)
    requires i < PAGE_TABLE_SIZE && base + TOTAL_HEAP_SIZE <= W64
    ensures PageAt(base, i) + PAGE_SIZE <= W64
  {
    WrapIsIdentity(base + PAGE_SIZE * i);
  }

  lemma RenameKeepsContexts(entry: u64, k: Kernel, slot: nat, at: nat, held: set<u64>,
                            calls: seq<(u64, u64)>, pages: seq<nat>)
    requires WellFormed(k) && |calls| <= NR_PROC && slot < NR_PROC && at + NAME_LENGTH <= W64
    requires ContextsHold(entry, k, held, calls, pages)
    ensures ContextsHold(entry, k.(procs := Named(k.procs, k.mem, slot, at)), held, calls, pages)
  {
    hide HoldsContext, PageAt, UsedPages, NameIn;
    var k' := k.(procs := Named(k.procs, k.mem, slot, at));
    forall j | 0 <= j < |calls| ensures HasContext(entry, k', j, calls[j], pages[j], held) {
      assert HasContext(entry, k, j, calls[j], pages[j], held);
    }
  }

  lemma {:induction false} RunKeepsContexts(b: Boot, entry: u64, m: seq<byte>, events: seq<Event>, trace: seq<Kernel>,
                                            held: seq<set<u64>>, n: nat)
      returns (at: seq<nat>)
    requires KernelRun(b, entry, m, events, trace, held) && n <= |events| && (ClearsNoOther(b) || HeapBase(b) == 0)
    ensures TableHolds(b, trace[n], held[n], |Spawns(events[..n])|)
    ensures ContextsHold(entry, trace[n], held[n], Spawns(events[..n]), at)
  {
    hide HeapBase, ClearsNoOther, UsedPages, UsedEntries, HasContext, FreeIndex, PageAt, Create;
    RunKeepsTable(b, entry, m, events, trace, held, n);
    if n == 0 {
      SpawnsOfNone(events);
      at := [];
    } else {
      at := RunKeepsContexts(b, entry, m, events, trace, held, n - 1);
      hide TableHolds, ContextsHold;
      SpawnsOfNext(events, n - 1);
      var calls := Spawns(events[..n - 1]);
      var k, e, k' := trace[n - 1], events[n - 1], trace[n];
      assert KernelStep(b, entry, k, e, k', held[n - 1], held[n]);
      match e {
        case Spawn(start, args) =>
          at := SpawnKeepsContexts(b, entry, k, held[n - 1], calls, at, start, args);
        case Other(op) =>
          OthersKeepContexts(b, entry, k, op, k', held[n - 1], held[n], calls, at);
          assert calls + [] == calls;
        case Rename(slot, name) =>
          RenameKeepsContexts(entry, k, slot, name, held[n - 1], calls, at);
          assert calls + [] == calls;
        case Write(page, offset, value) =>
          WriteKeepsContexts(b, entry, k, page, offset, value, held[n - 1], calls, at);
          assert calls + [] == calls;
      }
    }
  }

  /** The contexts of distinct processes lie in used heap pages that do not overlap, each still exactly
      as it was laid out. */
  ghost predicate ContextsIntact(entry: u64, k: Kernel, calls: seq<(u64, u64)>) {
    && WellFormed(k) && |calls| <= NR_PROC
    && (forall i :: 0 <= i < |calls| ==>
          ContextOf(k, i) in UsedPages(k.heap) && HoldsContext(k.mem, ContextOf(k, i), calls[i].0, calls[i].1, entry))
    && (forall i, j :: 0 <= i < |calls| && 0 <= j < |calls| && i != j ==>
          ContextOf(k, i) + PAGE_SIZE <= ContextOf(k, j) || ContextOf(k, j) + PAGE_SIZE <= ContextOf(k, i))
  }

  lemma HoldingIsIntact(b: Boot, entry: u64, k: Kernel, held: set<u64>, calls: seq<(u64, u64)>, at: seq<nat>)
    requires TableHolds(b, k, held, |calls|) && ContextsHold(entry, k, held, calls, at)
    requires HeapBase(b) + TOTAL_HEAP_SIZE <= W64
    ensures ContextsIntact(entry, k, calls)
  {
    hide HoldsContext, PageAt, HeapBase;
    forall i | 0 <= i < |calls|
      ensures ContextOf(k, i) in UsedPages(k.heap)
      ensures HoldsContext(k.mem, ContextOf(k, i), calls[i].0, calls[i].1, entry)
      ensures ContextOf(k, i) == PageAt(k.heap.base, at[i]) && at[i] < PAGE_TABLE_SIZE
    {
      assert HasContext(entry, k, i, calls[i], at[i], held);
    }
    forall i, j | 0 <= i < |calls| && 0 <= j < |calls| && i != j
      ensures ContextOf(k, i) + PAGE_SIZE <= ContextOf(k, j) || ContextOf(k, j) + PAGE_SIZE <= ContextOf(k, i)
    {
      assert at[i] != at[j];
      PagesApart(k.heap.base, at[i], at[j]);
    }
  }

  /** If no free clears the entry of another page, contexts stay intact in every run in which the other
      users of the heap free, and write to, only pages that they hold. */
  lemma IntactOverRuns(b: Boot, entry: u64, m: seq<byte>, events: seq<Event>, trace: seq<Kernel>,
                       held: seq<set<u64>>, n: nat)
    requires KernelRun(b, entry, m, events, trace, held) && n <= |events| && (ClearsNoOther(b) || HeapBase(b) == 0)
    ensures ContextsIntact(entry, trace[n], Spawns(events[..n]))
  {
    hide ClearsNoOther, ContextsIntact, TableHolds, ContextsHold, HeapBase;
    var at := RunKeepsContexts(b, entry, m, events, trace, held, n);
    HoldingIsIntact(b, entry, trace[n], held[n], Spawns(events[..n]), at);
  }

  /** What the others free is marked, so its free finds its entry if the kernel's base is below a page. */
  lemma {:induction false} NothingStrays(b: Boot, entry: u64, m: seq<byte>, events: seq<Event>, trace: seq<Kernel>,
                                         held: seq<set<u64>>, n: nat)
    requires KernelRun(b, entry, m, events, trace, held) && n <= |events|
    requires b.kernelBase < PAGE_SIZE || HeapBase(b) == 0
    ensures trace[n].heap.strays == []
  {
    if n > 0 {
      NothingStrays(b, entry, m, events, trace, held, n - 1);
      var at := RunKeepsContexts(b, entry, m, events, trace, held, n - 1);
      var k, e := trace[n - 1], events[n - 1];
      assert KernelStep(b, entry, k, e, trace[n], held[n - 1], held[n]);
      hide HeapBase, HasContext, PageAt, FreeIndex, UsedPages, UsedEntries, LaidOut;
      if e.Spawn? {
        CreateIs(b, entry, k, held[n - 1], |Spawns(events[..n - 1])|, e.start, e.args);
      } else if e.Other? && e.op.Release? {
        ReleaseForgets(b, k.heap, e.op.page);
      }
    }
  }

  /** With the kernel's base below a page, contexts stay intact in every run in which the other users of
      the heap free, and write to, only pages that they hold, and no free writes outside the page table. */
  lemma ContextsOverRuns(b: Boot, entry: u64, m: seq<byte>, events: seq<Event>, trace: seq<Kernel>,
                         held: seq<set<u64>>, n: nat)
    requires KernelRun(b, entry, m, events, trace, held) && n <= |events|
    requires b.kernelBase < PAGE_SIZE || HeapBase(b) == 0
    ensures ContextsIntact(entry, trace[n], Spawns(events[..n])) && trace[n].heap.strays == []
  {
    hide ContextsIntact, HeapBase, KernelRun;
    IntactOverRuns(b, entry, m, events, trace, held, n);
    NothingStrays(b, entry, m, events, trace, held, n);
  }

  // ----- and otherwise

  /** In every run contexts stay intact and no free writes outside the page table. */
  ghost predicate RunsAreSound(b: Boot) {
    forall entry, m, events, trace: seq<Kernel>, held, n ::
      KernelRun(b, entry, m, events, trace, held) && 0 <= n <= |events|
      ==> ContextsIntact(entry, trace[n], Spawns(events[..n])) && trace[n].heap.strays == []
  }

  /** In every run contexts stay intact, as far as writes outside the page table leave them alone. */
  ghost predicate AlwaysIntact(b: Boot) {
    forall entry, m, events, trace, held, n ::
      KernelRun(b, entry, m, events, trace, held) && 0 <= n <= |events|
      ==> ContextsIntact(entry, trace[n], Spawns(events[..n]))
  }

  lemma KernelRunExtends(b: Boot, entry: u64, m: seq<byte>, events: seq<Event>, trace: seq<Kernel>, held: seq<set<u64>>,
                         e: Event, k: Kernel, h: set<u64>)
    requires KernelRun(b, entry, m, events, trace, held)
    requires KernelStep(b, entry, trace[|events|], e, k, held[|events|], h)
    ensures KernelRun(b, entry, m, events + [e], trace + [k], held + [h])
    ensures Spawns(events + [e]) == Spawns(events) + (if e.Spawn? then [(e.start, e.args)] else [])
  {
    hide KernelStep, HeapBase;
    assert (events + [e])[..|events|] == events;
  }

  /** After `n` pages have been taken from a fresh heap: the one of entry `c`, if it is among them, is
      the context of the only process, and the others are held by someone else. */
  ghost predicate OneContextAt(b: Boot, k: Kernel, held: set<u64>, spawns: nat, n: nat, c: nat) {
    && WellFormed(k) && k.heap == FirstTaken(b, n)
    && spawns == (if c < n then 1 else 0)
    && (c < n ==> ContextOf(k, 0) == PageAt(HeapBase(b), c))
    && forall j: nat :: j < n && j != c ==> PageAt(HeapBase(b), j) in held
  }

  lemma MappedFromStart(b: Boot, n: nat)
    requires HeapBase(b) + TOTAL_HEAP_SIZE <= W64
    ensures HeapMapped(b, FirstTaken(b, n))
  {
    hide HeapBase;
  }

  /** The page of entry `n` is taken, for a process if `n` is `c`. */
  lemma TakeForProcess(b: Boot, k: Kernel, h: set<u64>, spawns: nat, n: nat, c: nat)
      returns (e: Event, k': Kernel, h': set<u64>)
    requires TableHolds(b, k, h, spawns) && OneContextAt(b, k, h, spawns, n, c)
    requires HeapBase(b) != 0 && HeapBase(b) + TOTAL_HEAP_SIZE <= W64 && n < PAGE_TABLE_SIZE
    ensures KernelStep(b, 0, k, e, k', h, h')
    ensures OneContextAt(b, k', h', if e.Spawn? then spawns + 1 else spawns, n + 1, c)
  {
    hide HeapBase, PageAt, UsedPages, UsedEntries, LaidOut, Create, HeapMapped, Get;
    TakeNext(b, n);
    MappedFromStart(b, n);
    if n == c {
      CreateIs(b, 0, k, h, spawns, 0, 0);
      e, k', h' := Spawn(0, 0), Create(b, k, 0, 0, 0).1, h;
    } else {
      e, k', h' := Other(Take), k.(heap := FirstTaken(b, n + 1)), h + {PageAt(HeapBase(b), n)};
    }
  }

  /** Runs that take pages in order, the one of entry `c` for a process. */
  lemma {:induction false} SpawnAmongTakes(b: Boot, m: seq<byte>, c: nat, n: nat)
      returns (events: seq<Event>, trace: seq<Kernel>, held: seq<set<u64>>)
    requires HeapBase(b) != 0 && HeapBase(b) + TOTAL_HEAP_SIZE <= W64 && n <= PAGE_TABLE_SIZE && |m| == W64
    ensures KernelRun(b, 0, m, events, trace, held) && |events| == n
    ensures OneContextAt(b, trace[n], held[n], |Spawns(events)|, n, c)
  {
    NoneTaken(b);
    if n == 0 {
      events, trace, held := [], [Booted(m)], [{}];
    } else {
      hide HeapBase, KernelStep, OneContextAt, TableHolds;
      events, trace, held := SpawnAmongTakes(b, m, c, n - 1);
      assert events[..n - 1] == events;
      RunKeepsTable(b, 0, m, events, trace, held, n - 1);
      var e, k', h' := TakeForProcess(b, trace[n - 1], held[n - 1], |Spawns(events)|, n - 1, c);
      KernelRunExtends(b, 0, m, events, trace, held, e, k', h');
      events, trace, held := events + [e], trace + [k'], held + [h'];
    }
  }

  /** If freeing page `f` clears the entry of a context, the next process is given that context. */
  lemma SharedContext(b: Boot, k: Kernel, held: set<u64>, n: nat, f: nat, c: nat)
    requires TableHolds(b, k, held, 1) && OneContextAt(b, k, held, 1, n, c)
    requires HeapBase(b) != 0 && HeapBase(b) + TOTAL_HEAP_SIZE <= W64 && f < n <= PAGE_TABLE_SIZE && c < n && f != c
    requires FreeIndex(b, HeapBase(b), PageAt(HeapBase(b), f)) == c
    ensures var page := PageAt(HeapBase(b), f);
            && var k1 := k.(heap := Free(b, k.heap, page));
            && KernelStep(b, 0, k, Other(Release(page)), k1, held, held - {page})
            && WellFormed(k1) && HeapMapped(b, k1.heap)
            && var k2 := Create(b, k1, 0, 0, 0).1;
            && KernelStep(b, 0, k1, Spawn(0, 0), k2, held - {page}, held - {page})
            && WellFormed(k2) && ContextOf(k2, 0) == ContextOf(k2, 1)
  {
    hide HeapBase, PageAt, FreeIndex, UsedPages, UsedEntries, LaidOut, Create;
    FreedByMistake(b, n, f, c);
    MappedFromStart(b, n);
    var page := PageAt(HeapBase(b), f);
    var k1 := k.(heap := Free(b, k.heap, page));
    assert KernelStep(b, 0, k, Other(Release(page)), k1, held, held - {page});
    StepKeepsTable(b, 0, k, Other(Release(page)), k1, held, held - {page}, 1);
    CreateIs(b, 0, k1, held - {page}, 1, 0, 0);
    SlotsAreDistinct(0, 1);
  }

  lemma SomeRunSharesContext(b: Boot)
      returns (m: seq<byte>, events: seq<Event>, trace: seq<Kernel>, held: seq<set<u64>>)
    requires !ClearsNoOther(b) && HeapBase(b) != 0 && HeapBase(b) + TOTAL_HEAP_SIZE <= W64
    ensures KernelRun(b, 0, m, events, trace, held)
    ensures !ContextsIntact(0, trace[|events|], Spawns(events[..|events|]))
  {
    hide HeapBase, PageAt, FreeIndex, ClearsNoOther, Create, HeapMapped, KernelStep, KernelRun, TableHolds,
         OneContextAt, ContextsIntact, Spawns, Free, Get;
    m := seq(W64, _ => 0);
    var f, c := ClearsAnother(b, HeapBase(b));
    var n, page := (if f < c then c else f) + 1, PageAt(HeapBase(b), f);
    events, trace, held := SpawnAmongTakes(b, m, c, n);
    RunLengths(b, 0, m, events, trace, held);
    var k, h, calls := trace[n], held[n], Spawns(events);
    assert events[..n] == events;
    RunKeepsTable(b, 0, m, events, trace, held, n);
    OneContextMeans(b, k, h, |calls|, n, c);
    SharedContext(b, k, h, n, f, c);
    var k1 := k.(heap := Free(b, k.heap, page));
    var k2 := Create(b, k1, 0, 0, 0).1;
    KernelRunExtends(b, 0, m, events, trace, held, Other(Release(page)), k1, h - {page});
    events, trace, held := events + [Other(Release(page))], trace + [k1], held + [h - {page}];
    KernelRunExtends(b, 0, m, events, trace, held, Spawn(0, 0), k2, h - {page});
    events, trace, held := events + [Spawn(0, 0)], trace + [k2], held + [h - {page}];
    assert events[..|events|] == events && trace[|events|] == k2;
    SharedIsNotIntact(k2, Spawns(events));
  }

  lemma SharedIsNotIntact(k: Kernel, calls: seq<(u64, u64)>)
    requires |calls| == 2 && WellFormed(k) && ContextOf(k, 0) == ContextOf(k, 1)
    ensures !ContextsIntact(0, k, calls)
  {
    hide HoldsContext;
  }

  lemma RunLengths(b: Boot, entry: u64, m: seq<byte>, events: seq<Event>, trace: seq<Kernel>, held: seq<set<u64>>)
    requires KernelRun(b, entry, m, events, trace, held)
    ensures |trace| == |held| == |events| + 1
  {}

  lemma OneContextMeans(b: Boot, k: Kernel, held: set<u64>, spawns: nat, n: nat, c: nat)
    requires OneContextAt(b, k, held, spawns, n, c) && c < n
    ensures spawns == 1 && WellFormed(k) && k.heap == FirstTaken(b, n)
  {}

  /** Contexts stay intact in every such run exactly if no free clears the entry of another page, or there
      is no heap. */
  lemma ContextsIntactIff(b: Boot)
    requires HeapBase(b) + TOTAL_HEAP_SIZE <= W64
    ensures AlwaysIntact(b) <==> ClearsNoOther(b) || HeapBase(b) == 0
  {
    hide HeapBase, ClearsNoOther, KernelStep, ContextsIntact;
    if ClearsNoOther(b) || HeapBase(b) == 0 {
      forall entry, m, events, trace, held, n | KernelRun(b, entry, m, events, trace, held) && 0 <= n <= |events|
        ensures ContextsIntact(entry, trace[n], Spawns(events[..n]))
      {
        IntactOverRuns(b, entry, m, events, trace, held, n);
      }
    } else {
      var m, events, trace, held := SomeRunSharesContext(b);
    }
  }

  /** If frees clear no other entry and the base is a page or more, the first free misses the table. */
  lemma SomeRunStrays(b: Boot)
      returns (m: seq<byte>, events: seq<Event>, trace: seq<Kernel>, held: seq<set<u64>>)
    requires ClearsNoOther(b) && b.kernelBase >= PAGE_SIZE
    requires HeapBase(b) != 0 && HeapBase(b) + TOTAL_HEAP_SIZE <= W64
    ensures KernelRun(b, 0, m, events, trace, held) && |trace| == |events| + 1 && trace[|events|].heap.strays != []
  {
    hide HeapBase, PageAt, FreeIndex, KernelStep, KernelRun, TableHolds, HoldsContext;
    m := seq(W64, _ => 0);
    events, trace, held := SpawnAmongTakes(b, m, 1, 1);
    RunLengths(b, 0, m, events, trace, held);
    var k, h, page := trace[1], held[1], PageAt(HeapBase(b), 0);
    var k1 := k.(heap := Free(b, k.heap, page));
    StrayFree(b, k, h, k1);
    KernelRunExtends(b, 0, m, events, trace, held, Other(Release(page)), k1, h - {page});
    events, trace, held := events + [Other(Release(page))], trace + [k1], held + [h - {page}];
  }

  lemma StrayFree(b: Boot, k: Kernel, held: set<u64>, k1: Kernel)
    requires ClearsNoOther(b) && b.kernelBase >= PAGE_SIZE
    requires HeapBase(b) != 0 && HeapBase(b) + TOTAL_HEAP_SIZE <= W64
    requires OneContextAt(b, k, held, 0, 1, 1) && k1 == k.(heap := Free(b, k.heap, PageAt(HeapBase(b), 0)))
    ensures var page := PageAt(HeapBase(b), 0);
            KernelStep(b, 0, k, Other(Release(page)), k1, held, held - {page})
    ensures k1.heap.strays != []
  {
    hide HeapBase, PageAt, FreeIndex;
    MappedFromStart(b, 1);
    ClearsOwnOrMisses(b, HeapBase(b), 0);
    FreeHitsItsEntryIff(b, HeapBase(b), 0);
  }

  /** Runs are sound exactly if the kernel's base is below a page, or there is no heap. */
  lemma RunsAreSoundIff(b: Boot)
    requires HeapBase(b) + TOTAL_HEAP_SIZE <= W64
    ensures RunsAreSound(b) <==> b.kernelBase < PAGE_SIZE || HeapBase(b) == 0
  {
    hide HeapBase, ClearsNoOther, KernelStep, ContextsIntact;
    if b.kernelBase < PAGE_SIZE || HeapBase(b) == 0 {
      forall entry, m, events, trace: seq<Kernel>, held, n
        | KernelRun(b, entry, m, events, trace, held) && 0 <= n <= |events|
        ensures ContextsIntact(entry, trace[n], Spawns(events[..n])) && trace[n].heap.strays == []
      {
        ContextsOverRuns(b, entry, m, events, trace, held, n);
      }
    } else if ClearsNoOther(b) {
      var m, events, trace, held := SomeRunStrays(b);
    } else {
      var m, events, trace, held := SomeRunSharesContext(b);
    }
  }
}
