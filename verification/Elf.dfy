/** The tables of an ELF64 object as the loader sees them, symbol resolution, and the effect of one
    relocation entry.

    The section header table, the symbol tables and the relocation tables are typed: reading past
    the end of the section header table yields whatever lies there (`stray`), and a symbol or
    relocation table is found by the file offset its section header carries. Everything that is
    byte arithmetic on the loaded image is done modulo 2^64. */
module Elf {
  import opened Words

  const SHN_UNDEF: nat := 0
  const SHN_ABS: nat := 0xfff1
  const SHT_NOBITS: nat := 8
  const SHT_REL: nat := 9
  const R_X86_64_NONE: nat := 0
  const R_X86_64_PC32: nat := 2
  const R_X86_64_32: nat := 10
  const R_X86_64_PC64: nat := 24

  /** ELF_RELOC_ERR, the int -1, as the size_t that the lookup and relocation functions return. */
  const RELOC_ERR: u64 := 0xffff_ffff_ffff_ffff

  datatype Section = Section(kind: u32, flags: u64, offset: u64, size: u64, link: u32, info: u32, entsize: u64)
  {
    /** sh_flags & SHF_ALLOC */
    predicate Alloc() { flags / 2 % 2 == 1 }
  }

  datatype Symbol = Symbol(shndx: u16, value: u64)

  datatype Rel = Rel(offset: u64, info: u64) {
    function SymbolIndex(): nat { info / 0x1_0000_0000 }
    function Type(): nat { info % 0x1_0000_0000 }
  }

  datatype Image = Image(
    base: u64,
    sections: seq<Section>,
    stray: nat -> Section,
    symbolAt: (u64, nat) -> Symbol,
    relAt: (u64, nat) -> Rel)
  {
    function SectionAt(i: nat): Section {
      if i < |sections| then sections[i] else stray(i)
    }
  }

  /** What a table lookup does: yield a value, or divide by a zero sh_entsize and trap. */
  datatype Lookup = Value(v: u64) | DivideError

  /** The value of symbol `idx`, as seen through a relocation section whose sh_link is `table`.
      The section that is searched is number `idx`, whatever `table` says. Looking up an external
      name never finds anything, and an unfound name resolves to 0, weak or not. */
  function SymbolValue(img: Image, table: u32, idx: nat): Lookup {
    if table == SHN_UNDEF || idx == SHN_UNDEF then Value(0) else
    var symtab := img.SectionAt(idx);
    if symtab.entsize == 0 then DivideError else
    if idx >= symtab.size / symtab.entsize then Value(RELOC_ERR) else
    var symbol := img.symbolAt(symtab.offset, idx);
    if symbol.shndx == SHN_UNDEF then Value(0)
    else if symbol.shndx == SHN_ABS then Value(symbol.value)
    else Value(Wrap(img.base + symbol.value + img.SectionAt(symbol.shndx).offset))
  }

  /** One piece of work of the pass: a relocation entry with the fields of its section that it
      uses, or the division by zero that a relocation section with a zero sh_entsize causes. */
  datatype Item = Entry(rel: Rel, link: u32, target: u32) | DivisionByZero

  /** The place an entry patches, relative to the start of the image. */
  function PlaceOffset(img: Image, e: Item): u64
    requires e.Entry?
  {
    Wrap(img.SectionAt(e.target).offset + e.rel.offset)
  }

  function Place(img: Image, e: Item): u64
    requires e.Entry?
  {
    Addr(img.base, PlaceOffset(img, e))
  }

  /** What one item does, apart from where: trap, return a result and leave memory alone, or add
      `addend` to the word at its place and return a result. */
  datatype Verdict = Traps | Leaves(result: u64) | Patches(addend: u64, result: u64)

  function Judge(img: Image, e: Item): Verdict {
    if e.DivisionByZero? then Traps else
    match if e.rel.SymbolIndex() != SHN_UNDEF then SymbolValue(img, e.link, e.rel.SymbolIndex()) else Value(0)
    case DivideError => Traps
    case Value(s) =>
      if s == RELOC_ERR then Leaves(RELOC_ERR)
      else if e.rel.Type() == R_X86_64_NONE then Leaves(s)
      else if e.rel.Type() == R_X86_64_32 then Patches(s, s)
      else if e.rel.Type() == R_X86_64_PC32 || e.rel.Type() == R_X86_64_PC64 then
        Patches(Wrap(s - Place(img, e)), s)
      else Leaves(RELOC_ERR)
  }

  /** The pass stores the 64-bit result of an entry in an int and compares that with -1. */
  predicate Rejected(result: u64) { result % 0x1_0000_0000 == 0xffff_ffff }

  /** The pass stops at this item. */
  predicate Stops(img: Image, e: Item) {
    var v := Judge(img, e);
    v.Traps? || Rejected(v.result)
  }

  /** What one item adds to its place; 0 if it does not patch. */
  function Addend(img: Image, e: Item): u64 {
    match Judge(img, e)
    case Patches(a, _) => a
    case _ => 0
  }

  /** Memory after one item. */
  function Effect(img: Image, m: seq<byte>, e: Item): (m': seq<byte>)
    requires |m| == W64
    ensures |m'| == W64
  {
    match Judge(img, e)
    case Patches(a, _) => Store(m, Place(img, e), Plus(Load(m, Place(img, e)), a))
    case _ => m
  }

  // ----- the work list of the pass

  function RelItems(img: Image, s: Section, n: nat): (items: seq<Item>)
    ensures |items| == n
  {
    seq(n, k requires 0 <= k < n => Entry(img.relAt(s.offset, k), s.link, s.info))
  }

  /** The items that section `s` contributes. */
  function SectionItems(img: Image, s: Section): seq<Item> {
    if s.kind != SHT_REL then []
    else if s.entsize == 0 then [DivisionByZero]
    else RelItems(img, s, s.size / s.entsize)
  }

  function ItemsFrom(img: Image, i: nat): seq<Item>
    requires i <= |img.sections|
    decreases |img.sections| - i
  {
    if i == |img.sections| then [] else SectionItems(img, img.sections[i]) + ItemsFrom(img, i + 1)
  }

  /** Every item of the pass, in the order in which the two nested loops reach it. */
  function Items(img: Image): seq<Item> { ItemsFrom(img, 0) }

  // ----- the pass

  /** Memory after all of the items, none of which stops the pass. */
  function ApplyAll(img: Image, items: seq<Item>, m: seq<byte>): (m': seq<byte>)
    requires |m| == W64
    ensures |m'| == W64
  {
    if items == [] then m else ApplyAll(img, items[1..], Effect(img, m, items[0]))
  }

  datatype Outcome = Done | Failed | Trapped

  /** The pass over a work list: its outcome and the memory it leaves. */
  function Pass(img: Image, items: seq<Item>, m: seq<byte>): (r: (Outcome, seq<byte>))
    requires |m| == W64
    ensures |r.1| == W64
  {
    if items == [] then (Done, m) else
    match Judge(img, items[0])
    case Traps => (Trapped, m)
    case v =>
      if Rejected(v.result) then (Failed, Effect(img, m, items[0]))
      else Pass(img, items[1..], Effect(img, m, items[0]))
  }
}
