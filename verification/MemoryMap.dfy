/** The kernel's copy of the boot memory map: the first sixteen usable entries. */
module MemoryMap {
  import opened Words

  const MAX_MEMORY_REGIONS: nat := 16
  const LIMINE_MEMMAP_USABLE: nat := 0

  /** An entry of the bootloader's map. */
  datatype Entry = Entry(base: u64, length: u64, kind: u64)

  datatype Region = Region(start: u64, length: u64)

  /** All usable entries, in order. */
  function Usable(entries: seq<Entry>): (r: seq<Region>)
    ensures |r| <= |entries|
  {
    if entries == [] then []
    else
      var e := entries[|entries| - 1];
      Usable(entries[..|entries| - 1]) + (if e.kind == LIMINE_MEMMAP_USABLE then [Region(e.base, e.length)] else [])
  }

  /** What the map holds after it has been built over `old` contents. */
  function Built(entries: seq<Entry>, previous: seq<Region>): (r: seq<Region>)
    requires |previous| == MAX_MEMORY_REGIONS
    ensures |r| == MAX_MEMORY_REGIONS
  {
    var usable := Usable(entries);
    if |usable| <= MAX_MEMORY_REGIONS then usable + previous[|usable|..] else usable[..MAX_MEMORY_REGIONS]
  }

  /** The map before it is built: zero, as static storage is. */
  function EmptyMap(): seq<Region> { seq(MAX_MEMORY_REGIONS, _ => Region(0, 0)) }

  /** Every usable region was reported as usable by the bootloader. */
  lemma {:induction false} UsableIsReported(entries: seq<Entry>, k: nat)
    requires k < |Usable(entries)|
    ensures exists i :: 0 <= i < |entries| && entries[i].kind == LIMINE_MEMMAP_USABLE
                     && Usable(entries)[k] == Region(entries[i].base, entries[i].length)
  {
    var n := |entries| - 1;
    var before := entries[..n];
    if k < |Usable(before)| {
      UsableIsReported(before, k);
      var i :| 0 <= i < n && before[i].kind == LIMINE_MEMMAP_USABLE
               && Usable(before)[k] == Region(before[i].base, before[i].length);
      assert entries[i] == before[i];
    } else {
      assert entries[n].kind == LIMINE_MEMMAP_USABLE;
    }
  }

  /** Which of the first `n` entries have kind 0, and how many. */
  function KindZero(entries: seq<Entry>, n: nat): set<nat>
    requires n <= |entries|
  {
    set j: nat | j < n && entries[j].kind == 0
  }

  function UsableBefore(entries: seq<Entry>, n: nat): nat
    requires n <= |entries|
  {
    |KindZero(entries, n)|
  }

  /** The usable regions are exactly the entries of kind 0, in order: entry `i`, if it is one, comes after
      as many regions as there are such entries before it. */
  lemma {:induction false} UsableIs(entries: seq<Entry>, n: nat)
    requires n <= |entries|
    ensures |Usable(entries[..n])| == UsableBefore(entries, n)
    ensures forall i :: 0 <= i < n && entries[i].kind == 0 ==>
              && UsableBefore(entries, i) < |Usable(entries[..n])|
              && Usable(entries[..n])[UsableBefore(entries, i)] == Region(entries[i].base, entries[i].length)
  {
    if n == 0 {
      assert KindZero(entries, 0) == {};
    } else {
      UsableIs(entries, n - 1);
      assert entries[..n][..n - 1] == entries[..n - 1];
      UsableBeforeNext(entries, n - 1);
    }
  }

  lemma UsableBeforeNext(entries: seq<Entry>, n: nat)
    requires n < |entries|
    ensures UsableBefore(entries, n + 1) == UsableBefore(entries, n) + (if entries[n].kind == 0 then 1 else 0)
  {
    assert KindZero(entries, n + 1) == KindZero(entries, n) + (if entries[n].kind == 0 then {n} else {});
  }

  /** The map has sixteen regions: the usable entries, as far as they go, and then what it held before. */
  lemma BuiltIs(entries: seq<Entry>, previous: seq<Region>)
    requires |previous| == 16
    ensures |Built(entries, previous)| == 16
    ensures forall k :: 0 <= k < 16 ==>
              Built(entries, previous)[k] == if k < |Usable(entries)| then Usable(entries)[k] else previous[k]
  {}

  /** One more entry, if it is usable and there is room, is one more region. */
  lemma BuiltNext(entries: seq<Entry>, previous: seq<Region>, n: nat)
    requires |previous| == MAX_MEMORY_REGIONS && n < |entries|
    ensures var e, k := entries[n], |Usable(entries[..n])|;
            && |Usable(entries[..n + 1])| == (if e.kind == LIMINE_MEMMAP_USABLE then k + 1 else k)
            && Built(entries[..n + 1], previous) ==
               if e.kind == LIMINE_MEMMAP_USABLE && k < MAX_MEMORY_REGIONS
               then Built(entries[..n], previous)[k := Region(e.base, e.length)]
               else Built(entries[..n], previous)
  {
    assert entries[..n + 1][..n] == entries[..n];
  }

  lemma BuiltNothing(entries: seq<Entry>, previous: seq<Region>)
    requires |previous| == MAX_MEMORY_REGIONS
    ensures Built(entries[..0], previous) == previous && |Usable(entries[..0])| == 0
  {}

  method Build(regions: array<Region>, entries: seq<Entry>)
    requires regions.Length == MAX_MEMORY_REGIONS
    modifies regions
    ensures regions[..] == Built(entries, old(regions[..]))
  {
    hide Usable, Built;
    ghost var previous := regions[..];
    var regionCounter := 0;
    BuiltNothing(entries, previous);
    for i := 0 to |entries|
      invariant regionCounter ==
                if |Usable(entries[..i])| <= MAX_MEMORY_REGIONS then |Usable(entries[..i])| else MAX_MEMORY_REGIONS
      invariant regions[..] == Built(entries[..i], previous)
    {
      var entry := entries[i];
      BuiltNext(entries, previous, i);
      if entry.kind == LIMINE_MEMMAP_USABLE {
        if regionCounter < MAX_MEMORY_REGIONS {
          regions[regionCounter] := Region(entry.base, entry.length);
          regionCounter := regionCounter + 1;
        }
      }
    }
    assert entries[..|entries|] == entries;
  }
}
