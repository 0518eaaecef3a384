/** The process table: slot search, creation of a process with its context in a fresh heap page, and
    what the table and the contexts look like after any sequence of creations. */
module Processes {
  import opened Words
  import opened CString
  import opened PageAllocator

  const NR_PROC: nat := 32
  const NAME_LENGTH: nat := 16

  datatype ProcState = FREE | RUNNING | RUNNABLE | SLEEP | ZOMBIE

  type Name = s: seq<byte> | |s| == NAME_LENGTH witness seq(NAME_LENGTH, _ => 0)

  /** A table entry; `context` is the address of the process context, 0 if there is none. */
  datatype Proc = Proc(name: Name, parent: int, context: u64, state: ProcState)

  function NoName(): Name { seq(NAME_LENGTH, _ => 0) }

  /** The content of zeroed static storage. */
  function NoProc(): Proc { Proc(NoName(), 0, 0, FREE) }

  // ----- contexts

  /** Offsets of the fields of a process context that creation sets: fifteen general registers in the
      order r15 to rax come first, then the interrupt frame. */
  const RSI: nat := 64
  const RDI: nat := 72
  const RIP: nat := 136
  const RSP: nat := 160

  /** Memory after a context has been laid out in the page at `page`. */
  ghost function LaidOut(m: seq<byte>, page: u64, start: u64, args: u64, entry: u64): (m': seq<byte>)
    requires |m| == W64 && page + PAGE_SIZE <= W64
    ensures |m'| == W64
  {
    var m1 := Filled(m, page, 0, PAGE_SIZE);
    var m2 := Store(m1, page + RIP, entry);
    var m3 := Store(m2, page + RDI, start);
    var m4 := Store(m3, page + RSI, args);
    Store(m4, page + RSP, Wrap(page + PAGE_SIZE))
  }

  /** Byte `k` of the page of a new context. */
  function ContextByte(page: u64, start: u64, args: u64, entry: u64, k: nat): byte {
    if RSI <= k < RSI + 8 then WordBytes(args)[k - RSI]
    else if RDI <= k < RDI + 8 then WordBytes(start)[k - RDI]
    else if RIP <= k < RIP + 8 then WordBytes(entry)[k - RIP]
    else if RSP <= k < RSP + 8 then WordBytes(Wrap(page + PAGE_SIZE))[k - RSP]
    else 0
  }

  /** The page at `page` holds a new context: its entry point, its two arguments, a stack pointer to
      the end of the page itself, and zeros. */
  ghost predicate HoldsContext(m: seq<byte>, page: u64, start: u64, args: u64, entry: u64)
    requires |m| == W64
  {
    page + PAGE_SIZE <= W64 &&
    forall k: nat :: k < PAGE_SIZE ==> m[page + k] == ContextByte(page, start, args, entry, k)
  }

  lemma StoredByte(m: seq<byte>, page: u64, f: nat, w: u64, i: u64)
    requires |m| == W64 && page + PAGE_SIZE <= W64 && f + 8 <= PAGE_SIZE
    ensures Store(m, page + f, w)[i] == if page + f <= i < page + f + 8 then WordBytes(w)[i - (page + f)] else m[i]
  {}

  /** Every byte of the page has the value the layout gives it, and no other byte changes. */
  lemma LaidOutByte(m: seq<byte>, page: u64, start: u64, args: u64, entry: u64, i: u64)
    requires |m| == W64 && page + PAGE_SIZE <= W64
    ensures LaidOut(m, page, start, args, entry)[i] ==
            if page <= i < page + PAGE_SIZE then ContextByte(page, start, args, entry, i - page) else m[i]
  {
    hide WordBytes, Store, Wrap;
    var m1 := Filled(m, page, 0, PAGE_SIZE);
    var m2 := Store(m1, page + RIP, entry);
    var m3 := Store(m2, page + RDI, start);
    var m4 := Store(m3, page + RSI, args);
    StoredByte(m1, page, RIP, entry, i);
    StoredByte(m2, page, RDI, start, i);
    StoredByte(m3, page, RSI, args, i);
    StoredByte(m4, page, RSP, Wrap(page + PAGE_SIZE), i);
  }

  /** Address `i` belongs to one of the four words that creation sets. */
  predicate InContextWord(page: u64, i: u64) {
    page + 64 <= i < page + 80 || page + 136 <= i < page + 144 || page + 160 <= i < page + 168
  }

  /** In numbers: the argument is the word at byte 64 of the page (rsi), the start address the one at 72
      (rdi), the entry point the one at 136 (rip) and the end of the page the one at 160 (rsp). All other
      bytes of its 4096 are 0. */
  lemma ContextInNumbers(m: seq<byte>, page: u64, start: u64, args: u64, entry: u64)
    requires |m| == W64 && page + 4096 <= W64
    ensures var m' := LaidOut(m, page, start, args, entry);
            && Load(m', page + 64) == args && Load(m', page + 72) == start && Load(m', page + 136) == entry
            && Load(m', page + 160) == (page + 4096) % 0x1_0000_0000_0000_0000
            && (forall i: u64 :: page <= i < page + 4096 && !InContextWord(page, i) ==> m'[i] == 0)
  {
    var m' := LaidOut(m, page, start, args, entry);
    assert Wrap(page + 4096) == (page + 4096) % 0x1_0000_0000_0000_0000;
    hide LaidOut, ContextByte, Wrap;
    forall k: nat | k < 4096 ensures m'[page + k] == ContextByte(page, start, args, entry, k) {
      LaidOutByte(m, page, start, args, entry, page + k);
    }
    WordOfContext(m', page, start, args, entry, 64, args);
    WordOfContext(m', page, start, args, entry, 72, start);
    WordOfContext(m', page, start, args, entry, 136, entry);
    WordOfContext(m', page, start, args, entry, 160, Wrap(page + 4096));
    forall i: u64 | page <= i < page + 4096 && !InContextWord(page, i) ensures m'[i] == 0 {
      ElsewhereZero(page, start, args, entry, i - page);
      assert m'[page + (i - page)] == ContextByte(page, start, args, entry, i - page);
    }
  }

  lemma ElsewhereZero(page: u64, start: u64, args: u64, entry: u64, k: nat)
    requires !(64 <= k < 80) && !(136 <= k < 144) && !(160 <= k < 168)
    ensures ContextByte(page, start, args, entry, k) == 0
  {}

  lemma WordOfContext(m: seq<byte>, page: u64, start: u64, args: u64, entry: u64, f: nat, w: u64)
    requires |m| == W64 && page + 4096 <= W64 && f + 8 <= 4096
    requires forall k: nat :: k < 4096 ==> m[page + k] == ContextByte(page, start, args, entry, k)
    requires (f, w) in {(64, args), (72, start), (136, entry), (160, Wrap(page + 4096))}
    ensures Load(m, page + f) == w
  {
    hide Wrap;
    forall k: nat | k < 8 ensures m[Addr(page + f, k)] == WordBytes(w)[k] {
      assert Addr(page + f, k) == page + (f + k);
      assert m[page + (f + k)] == ContextByte(page, start, args, entry, f + k);
    }
    hide WordBytes, ContextByte;
    LoadOfBytes(m, page + f, w);
  }

  lemma LoadOfBytes(m: seq<byte>, a: u64, w: u64)
    requires |m| == W64 && forall k: nat :: k < 8 ==> m[Addr(a, k)] == WordBytes(w)[k]
    ensures Load(m, a) == w
  {
    assert seq(8, k requires 0 <= k < 8 => m[Addr(a, k)]) == WordBytes(w);
    Pow256Of8();
    FromToBytes(w, 8);
  }

  // ----- the kernel state that creation changes

  datatype Kernel = Kernel(heap: State, procs: seq<Proc>, procNumber: nat, mem: seq<byte>)

  ghost predicate WellFormed(k: Kernel) {
    WellSized(k.heap) && |k.procs| == NR_PROC && |k.mem| == W64
  }

  /** The heap, once placed, does not run past the end of the address space. */
  ghost predicate HeapMapped(b: Boot, s: State) {
    (if s.base == 0 then HeapBase(b) else s.base) + TOTAL_HEAP_SIZE <= W64
  }

  /** The slot that the search settles on: the first free one from slot 1 on, else slot 0. */
  function NextSlot(procs: seq<Proc>, i: nat): (slot: nat)
    requires i <= |procs|
    ensures slot == 0 || (i <= slot < |procs| && procs[slot].state.FREE?)
    ensures forall j :: i <= j < (if slot == 0 then |procs| else slot) && j != 0 ==> !procs[j].state.FREE?
    decreases |procs| - i
  {
    if i == |procs| then 0
    else if i != 0 && procs[i].state.FREE? then i
    else NextSlot(procs, i + 1)
  }

  /** What creation leads to: a process in a slot, or a panic. */
  datatype Created = Slot(slot: nat) | Panic

  lemma PageFits(b: Boot, s: State)
    requires WellSized(s) && HeapMapped(b, s) && Get(b, s).0.Page?
    ensures Get(b, s).0.address == Get(b, s).1.base + PAGE_SIZE * FirstFree(s.pages)
    ensures Get(b, s).0.address + PAGE_SIZE <= W64
  {}

  ghost function Create(b: Boot, k: Kernel, start: u64, args: u64, entry: u64): (r: (Created, Kernel))
    requires WellFormed(k) && HeapMapped(b, k.heap)
    ensures WellFormed(r.1)
  {
    var slot := NextSlot(k.procs, 1);
    if k.procNumber >= NR_PROC || (slot == 0 && !k.procs[0].state.FREE?) then (Panic, k) else
    var (page, heap) := Get(b, k.heap);
    if !page.Page? then (Panic, k.(heap := heap)) else
    PageFits(b, k.heap);
    (Slot(slot), Kernel(heap, k.procs[slot := Proc(NoName(), 0, page.address, RUNNABLE)], k.procNumber + 1,
                        LaidOut(k.mem, page.address, start, args, entry)))
  }

  /** The sixteen bytes at `at`. */
  function NameIn(m: seq<byte>, at: nat): Name
    requires at + NAME_LENGTH <= |m|
  {
    m[at..at + NAME_LENGTH]
  }

  /** The table once the process in the slot, if there is one, has been named. */
  function Named(procs: seq<Proc>, m: seq<byte>, slot: nat, at: nat): (procs': seq<Proc>)
    requires slot < |procs| && at + NAME_LENGTH <= |m|
    ensures |procs'| == |procs|
  {
    if procs[slot].state.FREE? then procs else procs[slot := procs[slot].(name := NameIn(m, at))]
  }

  /** A name of which the first `n` bytes have been copied from `at`. */
  function PartlyNamed(name: Name, m: seq<byte>, at: nat, n: nat): Name
    requires at + n <= |m|
  {
    seq(NAME_LENGTH, k requires 0 <= k < NAME_LENGTH => if k < n then m[at + k] else name[k])
  }

  lemma NamedByteByByte(name: Name, m: seq<byte>, at: nat, n: nat)
    requires at + NAME_LENGTH <= |m| && n < NAME_LENGTH
    ensures PartlyNamed(name, m, at, n)[n := m[at + n]] == PartlyNamed(name, m, at, n + 1)
    ensures PartlyNamed(name, m, at, 0) == name && PartlyNamed(name, m, at, NAME_LENGTH) == NameIn(m, at)
  {}

  class ProcessTable {
    const table: array<Proc>
    var procNumber: nat
    const heap: Allocator
    const mem: array<byte>
    /** The address of the routine every new process starts in. */
    const entry: u64

    ghost predicate Valid()
      reads this, heap
    {
      && table.Length == NR_PROC && mem.Length == W64
      && heap.regionMap.Length == 16 && heap.pages.Length == PAGE_TABLE_SIZE
      && heap.pages as object != table && heap.pages as object != mem && table as object != mem
      && heap.regionMap as object !in {heap.pages as object, table, mem}
    }

    ghost function Contents(): Kernel
      reads this, table, heap, heap.pages, mem
    {
      Kernel(heap.Contents(), table[..], procNumber, mem[..])
    }

    constructor (heap: Allocator, mem: array<byte>, entry: u64)
      ensures this.heap == heap && this.mem == mem && this.entry == entry
      ensures fresh(table) && table.Length == NR_PROC
      ensures procNumber == 0 && forall i :: 0 <= i < NR_PROC ==> table[i] == NoProc()
    {
      this.heap, this.mem, this.entry := heap, mem, entry;
      table := new Proc[NR_PROC](_ => NoProc());
      procNumber := 0;
    }

    /** A page with a new context in it. */
    method CreateNewProcContext(start: u64, args: u64) returns (r: Outcome)
      requires Valid() && HeapMapped(heap.Environment(), heap.Contents())
      modifies heap, heap.pages, mem
      ensures heap.regionMap[..] == old(heap.regionMap[..])
      ensures (r, heap.Contents()) == Get(heap.Environment(), old(heap.Contents()))
      ensures r.Page? ==> r.address + PAGE_SIZE <= W64
      ensures mem[..] == if r.Page? then LaidOut(old(mem[..]), r.address, start, args, entry) else old(mem[..])
    {
      hide Store, Filled, Get, HeapMapped, Wrap;
      if Get(heap.Environment(), heap.Contents()).0.Page? { PageFits(heap.Environment(), heap.Contents()); }
      r := heap.GetFreePage();
      if r.Page? {
        var page := r.address;
        MemSet(mem, page, 0, PAGE_SIZE);
        StoreWord(mem, page + RIP, entry);
        StoreWord(mem, page + RDI, start);
        StoreWord(mem, page + RSI, args);
        StoreWord(mem, page + RSP, Wrap(page + PAGE_SIZE));
      }
    }

    method CreateProcess(start: u64, args: u64) returns (r: Created)
      requires Valid() && HeapMapped(heap.Environment(), heap.Contents())
      modifies this`procNumber, table, heap, heap.pages, mem
      ensures (r, Contents()) == Create(old(heap.Environment()), old(Contents()), start, args, entry)
    {
      hide LaidOut, Get, HeapMapped;
      if procNumber >= NR_PROC {
        return Panic;
      }
      var nextSlot := 0;
      for i := 1 to NR_PROC
        invariant nextSlot == 0
        invariant NextSlot(table[..], 1) == NextSlot(table[..], i)
      {
        if table[i].state.FREE? {
          nextSlot := i;
          break;
        }
      }
      if nextSlot == 0 && !table[0].state.FREE? {
        return Panic;
      }
      var context := CreateNewProcContext(start, args);
      if !context.Page? {
        return Panic;
      }
      table[nextSlot] := Proc(NoName(), 0, context.address, RUNNABLE);
      procNumber := procNumber + 1;
      return Slot(nextSlot);
    }

    /** Copies sixteen bytes of memory into the name of a process, if there is one in the slot. */
    method NameProcess(slot: nat, at: nat)
      requires Valid() && slot < NR_PROC && at + NAME_LENGTH <= W64
      modifies table
      ensures table[..] == Named(old(table[..]), mem[..], slot, at)
    {
      if !table[slot].state.FREE? {
        hide PartlyNamed, NameIn;
        ghost var procs, m := table[..], mem[..];
        ghost var p := procs[slot];
        NamedByteByByte(p.name, m, at, 0);
        for i := 0 to NAME_LENGTH
          invariant table[..] == procs[slot := p.(name := PartlyNamed(p.name, m, at, i))]
        {
          NamedByteByByte(p.name, m, at, i);
          table[slot] := table[slot].(name := table[slot].name[i := mem[at + i]]);
        }
      }
    }
  }
}
