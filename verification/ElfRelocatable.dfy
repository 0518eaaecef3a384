/** How the result of a whole load depends on the address of the image: two loads of one image at
    different addresses, with the same answers from the allocator, leave words that differ by a known
    multiple of the difference of the addresses. */
module ElfRelocatable {
  import opened Arith
  import opened Words
  import opened Elf
  import opened ElfPass
  import opened ElfLoader

  // ----- multiples of the way from one address to another

  /** `n` times the way from one base to another. */
  function Shift(n: int, a: u64, b: u64): int { n * (b - a) }

  lemma ShiftAdds(k: int, n: int, a: u64, b: u64)
    ensures Shift(k + n, a, b) == Shift(k, a, b) + Shift(n, a, b)
    ensures Shift(k - n, a, b) == Shift(k, a, b) - Shift(n, a, b)
  {
    MulDistributes(k, n, b - a);
  }

  lemma SmallShifts(a: u64, b: u64)
    ensures Shift(-1, a, b) == a - b && Shift(0, a, b) == 0 && Shift(1, a, b) == b - a
  {}

  lemma NoShift(x: u64, a: u64, b: u64)
    ensures Plus(x, Shift(0, a, b)) == x
  {
    SmallShifts(a, b);
    WrapIsIdentity(x);
  }

  lemma BaseShifts(a: u64, b: u64, fixed: int)
    ensures Wrap(b + fixed) == Plus(Wrap(a + fixed), Shift(1, a, b))
  {
    SmallShifts(a, b);
    WrapOfWrap(a + fixed, b - a);
  }

  lemma AddrShifts(a: u64, b: u64, o: u64)
    ensures Addr(b, o) == Plus(Addr(a, o), Shift(1, a, b))
  {
    AddrIsWrap(a, o);
    AddrIsWrap(b, o);
    BaseShifts(a, b, o);
  }

  /** Shifting by the same amount keeps different words different. */
  lemma ShiftInjective(x: u64, y: u64, s: int)
    ensures Plus(x, s) == Plus(y, s) <==> x == y
  {
    PlusAssociates(x, s, -s, 0);
    PlusAssociates(y, s, -s, 0);
    WrapIsIdentity(x);
    WrapIsIdentity(y);
  }

  lemma PcAddendShifts(s: u64, s': u64, k: int, p: u64, p': u64, n: int, a: u64, b: u64)
    requires s' == Plus(s, Shift(k, a, b)) && p' == Plus(p, Shift(n, a, b))
    ensures Wrap(s' - p') == Plus(Wrap(s - p), Shift(k - n, a, b))
  {
    hide Shift, Wrap;
    var x, y := s + Shift(k, a, b), p + Shift(n, a, b);
    WrapTwice(x);
    WrapTwice(y);
    WrapCongruence(s', x, p', y);
    ShiftAdds(k, n, a, b);
    assert x - y == s - p + Shift(k - n, a, b);
    WrapOfWrap(s - p, Shift(k - n, a, b));
  }

  lemma SumShifts(x: int, x': int, k: int, y: int, y': int, n: int, xy: int, xy': int, kn: int, a: u64, b: u64)
    requires x' == Plus(x, Shift(k, a, b)) && Wrap(y') == Plus(y, Shift(n, a, b))
    requires xy == x + y && xy' == x' + y' && kn == k + n
    ensures Wrap(xy') == Plus(xy, Shift(kn, a, b))
  {
    hide Shift, Wrap;
    WrapTwice(x + Shift(k, a, b));
    WrapCongruence(x', x + Shift(k, a, b), y', y + Shift(n, a, b));
    ShiftAdds(k, n, a, b);
    assert x + Shift(k, a, b) + (y + Shift(n, a, b)) == xy + Shift(kn, a, b);
  }

  lemma ShiftOfSums(x: int, sum: int, sum': int, shift: int)
    requires Wrap(sum') == Plus(sum, shift)
    ensures Plus(x, sum') == Plus(Plus(x, sum), shift)
  {
    WrapCongruence(x, x, sum', sum + shift);
    assert x + (sum + shift) == x + sum + shift;
    WrapOfWrap(x + sum, shift);
  }

  // ----- one entry in two passes

  predicate PcRelative(e: Item) {
    e.Entry? && e.rel.Type() in {R_X86_64_PC32, R_X86_64_PC64}
  }

  /** How often the difference of the bases enters the value of an entry's symbol, and its place. */
  datatype Motion = Motion(symbol: int, place: int)

  /** How often it enters what the entry adds. */
  function Drift(e: Item, motion: Motion): int {
    motion.symbol - (if PcRelative(e) then motion.place else 0)
  }

  /** From the pass over `img` to that over `img'`, the entry moves like this. */
  ghost predicate MovesBy(img: Image, img': Image, e: Item, motion: Motion) {
    e.Entry? ==>
      && Place(img', e) == Plus(Place(img, e), Shift(motion.place, img.base, img'.base))
      && (if e.rel.SymbolIndex() == SHN_UNDEF then motion.symbol == 0
          else
            var v, v' := SymbolValue(img, e.link, e.rel.SymbolIndex()), SymbolValue(img', e.link, e.rel.SymbolIndex());
            v.Value? && v'.Value? ==> v'.v == Plus(v.v, Shift(motion.symbol, img.base, img'.base)))
  }

  /** The verdict on an entry that does not stop the pass, in terms of the value of its symbol. */
  lemma VerdictOfValue(img: Image, e: Item)
    requires !Stops(img, e)
    ensures e.Entry?
    ensures e.rel.SymbolIndex() != 0 ==> SymbolValue(img, e.link, e.rel.SymbolIndex()).Value?
    ensures var s := if e.rel.SymbolIndex() != 0 then SymbolValue(img, e.link, e.rel.SymbolIndex()).v else 0;
            Judge(img, e) == if e.rel.Type() == R_X86_64_NONE then Leaves(s)
                             else Patches(if PcRelative(e) then Wrap(s - Place(img, e)) else s, s)
  {}

  lemma ResultMoves(img: Image, img': Image, e: Item, motion: Motion)
    requires !Stops(img, e) && !Stops(img', e) && MovesBy(img, img', e, motion)
    ensures e.Entry? && (Judge(img', e).Patches? <==> Judge(img, e).Patches?)
    ensures Judge(img', e).result == Plus(Judge(img, e).result, Shift(motion.symbol, img.base, img'.base))
    ensures Place(img', e) == Plus(Place(img, e), Shift(motion.place, img.base, img'.base))
  {
    VerdictOfValue(img, e);
    VerdictOfValue(img', e);
    hide SymbolValue, Judge, Stops, Place, Shift, Plus;
    NoShift(0, img.base, img'.base);
  }

  lemma AddendOfResult(img: Image, e: Item)
    requires !Stops(img, e)
    ensures e.Entry?
    ensures Addend(img, e) == if !Judge(img, e).Patches? then 0
                              else if PcRelative(e) then Wrap(Judge(img, e).result - Place(img, e))
                              else Judge(img, e).result
  {
    VerdictOfValue(img, e);
  }

  lemma DriftIs(e: Item, motion: Motion)
    ensures Drift(e, motion) == if PcRelative(e) then motion.symbol - motion.place else motion.symbol
  {}

  /** What one entry adds in the second pass differs from the first by its drift. */
  lemma AddendDrifts(img: Image, img': Image, e: Item, motion: Motion)
    requires !Stops(img, e) && !Stops(img', e) && MovesBy(img, img', e, motion)
    ensures Judge(img', e).Patches? <==> Judge(img, e).Patches?
    ensures Judge(img, e).Patches? ==>
              Addend(img', e) == Plus(Addend(img, e), Shift(Drift(e, motion), img.base, img'.base))
  {
    hide *;
    ResultMoves(img, img', e, motion);
    AddendOfResult(img, e);
    AddendOfResult(img', e);
    DriftIs(e, motion);
    if PcRelative(e) && Judge(img, e).Patches? {
      PcAddendShifts(Judge(img, e).result, Judge(img', e).result, motion.symbol,
                     Place(img, e), Place(img', e), motion.place, img.base, img'.base);
    }
  }

  // ----- one word in two passes

  function DriftOf(img: Image, motions: Item -> Motion, e: Item, t: u64): int {
    if PatchesAt(img, e, t) then Drift(e, motions(e)) else 0
  }

  /** How often the difference of the bases enters the word at `t`. */
  function DriftAt(img: Image, motions: Item -> Motion, items: seq<Item>, t: u64): int {
    if items == [] then 0
    else DriftOf(img, motions, items[0], t) + DriftAt(img, motions, items[1..], t)
  }

  /** No entry stops either pass, all move as told, and the entries that patch `t` in the first pass
      are those that patch `t'` in the second. */
  ghost predicate InStep(img: Image, img': Image, motions: Item -> Motion, items: seq<Item>, t: u64, t': u64) {
    forall e :: e in items ==> EntryInStep(img, img', motions(e), e, t, t')
  }

  ghost predicate EntryInStep(img: Image, img': Image, motion: Motion, e: Item, t: u64, t': u64) {
    && !Stops(img, e) && !Stops(img', e) && MovesBy(img, img', e, motion)
    && (Judge(img, e).Patches? ==> (Place(img, e) == t <==> Place(img', e) == t'))
  }

  lemma InStepTail(img: Image, img': Image, motions: Item -> Motion, items: seq<Item>, t: u64, t': u64)
    requires InStep(img, img', motions, items, t, t') && items != []
    ensures EntryInStep(img, img', motions(items[0]), items[0], t, t')
    ensures InStep(img, img', motions, items[1..], t, t')
  {
    assert items[0] in items && forall x :: x in items[1..] ==> x in items;
  }

  lemma InStepMeans(img: Image, img': Image, motion: Motion, e: Item, t: u64, t': u64)
    requires EntryInStep(img, img', motion, e, t, t')
    ensures !Stops(img, e) && !Stops(img', e) && MovesBy(img, img', e, motion) && e.Entry?
    ensures Judge(img, e).Patches? ==> (Place(img, e) == t <==> Place(img', e) == t')
  {
    VerdictOfValue(img, e);
  }

  lemma AddendAtIs(img: Image, e: Item, t: u64)
    requires e.Entry?
    ensures AddendAt(img, e, t) == if Judge(img, e).Patches? && Place(img, e) == t then Addend(img, e) else 0
    ensures PatchesAt(img, e, t) <==> Judge(img, e).Patches? && Place(img, e) == t
  {}

  lemma DriftOfIs(img: Image, motions: Item -> Motion, e: Item, t: u64)
    ensures DriftOf(img, motions, e, t) == if PatchesAt(img, e, t) then Drift(e, motions(e)) else 0
  {}

  lemma AddendAtDrifts(img: Image, img': Image, motions: Item -> Motion, e: Item, t: u64, t': u64)
    requires EntryInStep(img, img', motions(e), e, t, t')
    ensures AddendAt(img', e, t') == Plus(AddendAt(img, e, t), Shift(DriftOf(img, motions, e, t), img.base, img'.base))
  {
    hide *;
    InStepMeans(img, img', motions(e), e, t, t');
    AddendDrifts(img, img', e, motions(e));
    NoShift(0, img.base, img'.base);
    AddendAtIs(img, e, t);
    AddendAtIs(img', e, t');
    DriftOfIs(img, motions, e, t);
  }

  lemma UnfoldSum(img: Image, items: seq<Item>, t: u64)
    ensures items == [] ==> SumAt(img, items, t) == 0
    ensures items != [] ==> SumAt(img, items, t) == AddendAt(img, items[0], t) + SumAt(img, items[1..], t)
  {}

  lemma UnfoldDrift(img: Image, motions: Item -> Motion, items: seq<Item>, t: u64)
    ensures items == [] ==> DriftAt(img, motions, items, t) == 0
    ensures items != [] ==>
              DriftAt(img, motions, items, t)
              == DriftOf(img, motions, items[0], t) + DriftAt(img, motions, items[1..], t)
  {}

  lemma {:induction false} SumDrifts(img: Image, img': Image, motions: Item -> Motion, items: seq<Item>,
                                     t: u64, t': u64)
    requires InStep(img, img', motions, items, t, t')
    ensures Wrap(SumAt(img', items, t'))
         == Plus(SumAt(img, items, t), Shift(DriftAt(img, motions, items, t), img.base, img'.base))
  {
    hide *;
    UnfoldSum(img, items, t);
    UnfoldSum(img', items, t');
    UnfoldDrift(img, motions, items, t);
    if items == [] {
      NoShift(0, img.base, img'.base);
      WrapIsIdentity(0);
    } else {
      InStepTail(img, img', motions, items, t, t');
      SumDrifts(img, img', motions, items[1..], t, t');
      AddendAtDrifts(img, img', motions, items[0], t, t');
      SumShifts(AddendAt(img, items[0], t), AddendAt(img', items[0], t'), DriftOf(img, motions, items[0], t),
                SumAt(img, items[1..], t), SumAt(img', items[1..], t'), DriftAt(img, motions, items[1..], t),
                SumAt(img, items, t), SumAt(img', items, t'), DriftAt(img, motions, items, t), img.base, img'.base);
    }
  }

  /** The word at `t` in the first pass and the word at `t'` in the second, which were the same before,
      end up apart by their drift times the difference of the bases. */
  lemma WordDrifts(img: Image, img': Image, motions: Item -> Motion, items: seq<Item>, m: seq<byte>, m': seq<byte>,
                   t: u64, t': u64)
    requires |m| == W64 && |m'| == W64 && Load(m', t') == Load(m, t)
    requires InStep(img, img', motions, items, t, t') && Apart(img, items, t) && Apart(img', items, t')
    ensures Load(ApplyAll(img', items, m'), t')
         == Plus(Load(ApplyAll(img, items, m), t), Shift(DriftAt(img, motions, items, t), img.base, img'.base))
  {
    hide *;
    RelocationAdds(img, items, m, t);
    RelocationAdds(img', items, m', t');
    SumDrifts(img, img', motions, items, t, t');
    ShiftOfSums(Load(m, t), SumAt(img, items, t), SumAt(img', items, t'),
                Shift(DriftAt(img, motions, items, t), img.base, img'.base));
  }

  // ----- two loads

  /** The same image at another base. */
  function Rebased(img: Image, base: u64): Image { img.(base := base) }

  /** Stage 1 gives section `i` a block of its own. */
  predicate IsPlaced(img: Image, i: nat) { i < |img.sections| && NeedsMemory(img.sections[i]) }

  /** The entry names a symbol in a section that stays in the image, so that its value moves with the
      base. */
  predicate SymbolMoves(img: Image, e: Item) {
    e.Entry? &&
    var idx := e.rel.SymbolIndex();
    var symtab := img.SectionAt(idx);
    && idx != SHN_UNDEF
    && e.link != SHN_UNDEF
    && symtab.entsize != 0
    && idx < symtab.size / symtab.entsize
    && var j := img.symbolAt(symtab.offset, idx).shndx;
       j !in {SHN_UNDEF, SHN_ABS} && !IsPlaced(img, j)
  }

  /** The entry patches a word of the image rather than of a block. */
  predicate PatchesImage(img: Image, e: Item) { e.Entry? && !IsPlaced(img, e.target) }

  function LoadMotion(img: Image, e: Item): Motion {
    Motion(if SymbolMoves(img, e) then 1 else 0, if PatchesImage(img, e) then 1 else 0)
  }

  function LoadMotions(img: Image): Item -> Motion { e => LoadMotion(img, e) }

  /** The symbol lookup does not read a table in a section that stage 1 moves. */
  predicate TableStays(img: Image, e: Item) {
    e.Entry? && e.rel.SymbolIndex() != SHN_UNDEF && e.link != SHN_UNDEF ==>
      var symtab := img.SectionAt(e.rel.SymbolIndex());
      !IsPlaced(img, e.rel.SymbolIndex()) || symtab.entsize == 0 || e.rel.SymbolIndex() >= symtab.size / symtab.entsize
  }

  lemma {:induction false} ItemsFromAreFixed(img: Image, base: u64, malloc: nat -> u64, i: nat)
    requires i <= |img.sections|
    ensures ItemsFrom(AfterStage1(Rebased(img, base), malloc), i) == ItemsFrom(img, i)
    decreases |img.sections| - i
  {
    if i < |img.sections| {
      ItemsFromAreFixed(img, base, malloc, i + 1);
      var s := AfterStage1(Rebased(img, base), malloc).sections[i];
      assert NeedsMemory(img.sections[i]) ==> s.kind == SHT_NOBITS;
    }
  }

  /** Every load has the same relocation work to do. */
  lemma ItemsAreFixed(img: Image, base: u64, malloc: nat -> u64)
    ensures Items(AfterStage1(Rebased(img, base), malloc)) == Items(img)
    ensures Items(AfterStage1(img, malloc)) == Items(img)
  {
    ItemsFromAreFixed(img, base, malloc, 0);
    ItemsFromAreFixed(img, img.base, malloc, 0);
    assert Rebased(img, img.base) == img;
  }

  lemma SectionAfterStage1(img: Image, malloc: nat -> u64, i: nat)
    ensures var s, s1 := img.SectionAt(i), AfterStage1(img, malloc).SectionAt(i);
            && s1.entsize == s.entsize && s1.size == s.size
            && s1.offset == if IsPlaced(img, i) then Wrap(Block(img.sections, malloc, i) - img.base) else s.offset
  {}

  /** Where an entry's place is: in the image, at an offset that does not depend on the base, or in a
      block. */
  lemma PlaceAfterStage1(img: Image, malloc: nat -> u64, e: Item)
    requires e.Entry?
    ensures Place(AfterStage1(img, malloc), e) ==
            if IsPlaced(img, e.target) then Wrap(Block(img.sections, malloc, e.target) + e.rel.offset)
            else Addr(img.base, PlaceOffset(img, e))
  {
    hide Block, NeedsMemory;
    SectionAfterStage1(img, malloc, e.target);
    if IsPlaced(img, e.target) {
      var block := Block(img.sections, malloc, e.target);
      var o := PlaceOffset(AfterStage1(img, malloc), e);
      AddrIsWrap(img.base, o);
      PlaceInBlock(img.base, block, e.rel.offset);
    }
  }

  lemma PlaceInBlock(base: u64, block: u64, r: u64)
    ensures Wrap(base + Wrap(Wrap(block - base) + r)) == Wrap(block + r)
  {
    hide Wrap;
    WrapOfWrap(block - base, r);
    WrapOfWrap(block - base + r, base);
    assert block - base + r + base == block + r;
  }

  lemma PlaceMoves(img: Image, base: u64, malloc: nat -> u64, e: Item)
    requires e.Entry?
    ensures Place(AfterStage1(Rebased(img, base), malloc), e)
         == Plus(Place(AfterStage1(img, malloc), e), Shift(LoadMotion(img, e).place, img.base, base))
  {
    hide Place, Shift, Plus, Addr, Block, NeedsMemory, AfterStage1, Wrap;
    PlaceAfterStage1(img, malloc, e);
    PlaceAfterStage1(Rebased(img, base), malloc, e);
    NoShift(Place(AfterStage1(img, malloc), e), img.base, base);
    AddrShifts(img.base, base, PlaceOffset(img, e));
  }

  /** The value of a symbol after stage 1, as the sum of what moves and what does not. */
  lemma ValueAfterStage1(img: Image, malloc: nat -> u64, e: Item)
    requires e.Entry? && TableStays(img, e) && e.rel.SymbolIndex() != SHN_UNDEF
    requires SymbolValue(AfterStage1(img, malloc), e.link, e.rel.SymbolIndex()).Value?
    ensures var v := SymbolValue(AfterStage1(img, malloc), e.link, e.rel.SymbolIndex()).v;
            v == if SymbolMoves(img, e) then Wrap(img.base + MovingPart(img, e)) else FixedValue(img, malloc, e)
  {
    hide Block, NeedsMemory, Wrap;
    var idx := e.rel.SymbolIndex();
    SectionAfterStage1(img, malloc, idx);
    if e.link != SHN_UNDEF {
      var symtab := img.SectionAt(idx);
      var symbol := img.symbolAt(symtab.offset, idx);
      SectionAfterStage1(img, malloc, symbol.shndx);
      if SymbolMoves(img, e) {
        assert img.base + symbol.value + img.SectionAt(symbol.shndx).offset == img.base + MovingPart(img, e);
      } else if IsPlaced(img, symbol.shndx) {
        PlacedAddress(img.base, Block(img.sections, malloc, symbol.shndx), symbol.value);
      }
    }
  }

  /** Where in the image the symbol of an entry lies. */
  function MovingPart(img: Image, e: Item): int
    requires SymbolMoves(img, e)
  {
    var symbol := img.symbolAt(img.SectionAt(e.rel.SymbolIndex()).offset, e.rel.SymbolIndex());
    symbol.value + img.SectionAt(symbol.shndx).offset
  }

  /** The value of a symbol that does not move. */
  function FixedValue(img: Image, malloc: nat -> u64, e: Item): u64
    requires e.Entry?
  {
    var idx := e.rel.SymbolIndex();
    var symtab := img.SectionAt(idx);
    if e.link == SHN_UNDEF || idx == SHN_UNDEF then 0
    else if symtab.entsize == 0 || idx >= symtab.size / symtab.entsize then RELOC_ERR
    else
      var symbol := img.symbolAt(symtab.offset, idx);
      if symbol.shndx == SHN_UNDEF then 0
      else if symbol.shndx == SHN_ABS then symbol.value
      else if symbol.shndx < |img.sections| then Wrap(Block(img.sections, malloc, symbol.shndx) + symbol.value)
      else 0
  }

  lemma SameParts(img: Image, base: u64, malloc: nat -> u64, e: Item)
    requires e.Entry?
    ensures SymbolMoves(Rebased(img, base), e) <==> SymbolMoves(img, e)
    ensures SymbolMoves(img, e) ==> MovingPart(Rebased(img, base), e) == MovingPart(img, e)
    ensures FixedValue(Rebased(img, base), malloc, e) == FixedValue(img, malloc, e)
    ensures TableStays(Rebased(img, base), e) <==> TableStays(img, e)
  {}

  /** Between two loads an entry's symbol moves with the base if its section stays in the image, and its
      place if the patched section does. */
  lemma LoadsMove(img: Image, base: u64, malloc: nat -> u64, e: Item)
    requires TableStays(img, e)
    ensures MovesBy(AfterStage1(img, malloc), AfterStage1(Rebased(img, base), malloc), e, LoadMotion(img, e))
  {
    hide Place, SymbolValue, Shift, Plus, FixedValue, MovingPart, Wrap, SymbolMoves, TableStays;
    var img1, img1' := AfterStage1(img, malloc), AfterStage1(Rebased(img, base), malloc);
    if e.Entry? {
      PlaceMoves(img, base, malloc, e);
      SymbolMovesNames(img, e);
      var v, v' := SymbolValue(img1, e.link, e.rel.SymbolIndex()), SymbolValue(img1', e.link, e.rel.SymbolIndex());
      if e.rel.SymbolIndex() != SHN_UNDEF && v.Value? && v'.Value? {
        SameParts(img, base, malloc, e);
        ValueAfterStage1(img, malloc, e);
        ValueAfterStage1(Rebased(img, base), malloc, e);
        if SymbolMoves(img, e) {
          BaseShifts(img.base, base, MovingPart(img, e));
        } else {
          NoShift(v.v, img.base, base);
        }
      }
    }
  }

  lemma SymbolMovesNames(img: Image, e: Item)
    ensures SymbolMoves(img, e) ==> e.Entry? && e.rel.SymbolIndex() != SHN_UNDEF
  {}

  // ----- one word in two loads

  /** A word that is to be compared: of the image, or of the block of a placed section. */
  datatype Site = ImageWord(offset: u64) | BlockWord(section: nat, offset: u64)

  predicate IsSite(img: Image, site: Site) { site.BlockWord? ==> IsPlaced(img, site.section) }

  function AddressOf(img: Image, malloc: nat -> u64, site: Site): u64
    requires IsSite(img, site)
  {
    match site
    case ImageWord(o) => Addr(img.base, o)
    case BlockWord(i, o) => Wrap(Block(img.sections, malloc, i) + o)
  }

  /** The site that an entry patches. */
  function SiteOf(img: Image, e: Item): Site
    requires e.Entry?
  {
    if IsPlaced(img, e.target) then BlockWord(e.target, e.rel.offset) else ImageWord(PlaceOffset(img, e))
  }

  lemma PlaceIsSite(img: Image, malloc: nat -> u64, e: Item)
    requires e.Entry?
    ensures IsSite(img, SiteOf(img, e)) && Place(AfterStage1(img, malloc), e) == AddressOf(img, malloc, SiteOf(img, e))
  {
    PlaceAfterStage1(img, malloc, e);
  }

  /** In this load every entry patches the word of the site, and the site and the patched section are
      both in the image or both in blocks, or it patches a word that shares no byte with it. */
  ghost predicate Clear(img: Image, malloc: nat -> u64, site: Site)
    requires IsSite(img, site)
  {
    forall e :: e in Items(img) && Judge(AfterStage1(img, malloc), e).Patches? ==>
      var p, t := Place(AfterStage1(img, malloc), e), AddressOf(img, malloc, site);
      (p == t && (PatchesImage(img, e) <==> site.ImageWord?)) || Disjoint(p, t)
  }

  ghost predicate TablesStay(img: Image) { forall e :: e in Items(img) ==> TableStays(img, e) }

  /** Memory between the two stages. */
  ghost function Between(img: Image, malloc: nat -> u64, m: seq<byte>): (m': seq<byte>)
    requires |m| == W64 && BlocksFit(img.sections, malloc)
    ensures |m'| == W64
  {
    Zeroed(m, img.sections, malloc, |img.sections|)
  }

  /** Both stages. */
  ghost function Loaded(img: Image, malloc: nat -> u64, m: seq<byte>): (r: (Outcome, seq<byte>))
    requires |m| == W64 && BlocksFit(img.sections, malloc)
    ensures |r.1| == W64
  {
    Pass(AfterStage1(img, malloc), Items(AfterStage1(img, malloc)), Between(img, malloc, m))
  }

  lemma LoadedIs(img: Image, base: u64, malloc: nat -> u64, m: seq<byte>)
    requires |m| == W64 && BlocksFit(img.sections, malloc) && Loaded(Rebased(img, base), malloc, m).0.Done?
    ensures forall e :: e in Items(img) ==> !Stops(AfterStage1(Rebased(img, base), malloc), e)
    ensures Loaded(Rebased(img, base), malloc, m).1
         == ApplyAll(AfterStage1(Rebased(img, base), malloc), Items(img), Between(Rebased(img, base), malloc, m))
  {
    var img1, m1 := AfterStage1(Rebased(img, base), malloc), Between(Rebased(img, base), malloc, m);
    ItemsAreFixed(img, base, malloc);
    OutcomeIff(img1, Items(img), m1);
    PassExact(img1, Items(img), m1);
  }

  lemma SiteMoves(img: Image, base: u64, malloc: nat -> u64, site: Site)
    requires IsSite(img, site)
    ensures AddressOf(Rebased(img, base), malloc, site)
         == Plus(AddressOf(img, malloc, site), Shift(if site.ImageWord? then 1 else 0, img.base, base))
  {
    hide Plus, Shift, Wrap, Addr, Block;
    match site {
      case ImageWord(o) => AddrShifts(img.base, base, o);
      case BlockWord(i, o) => NoShift(Wrap(Block(img.sections, malloc, i) + o), img.base, base);
    }
  }

  lemma NotApartFromItself(a: u64)
    ensures !Disjoint(a, a)
  {}

  lemma ClearAt(img: Image, malloc: nat -> u64, site: Site, e: Item)
    requires IsSite(img, site) && Clear(img, malloc, site) && e in Items(img)
    requires Judge(AfterStage1(img, malloc), e).Patches?
    ensures var p, t := Place(AfterStage1(img, malloc), e), AddressOf(img, malloc, site);
            (p == t && (PatchesImage(img, e) <==> site.ImageWord?)) || Disjoint(p, t)
  {}

  lemma ClearIsApart(img: Image, malloc: nat -> u64, site: Site)
    requires IsSite(img, site) && Clear(img, malloc, site)
    ensures Apart(AfterStage1(img, malloc), Items(img), AddressOf(img, malloc, site))
  {
    hide Judge, Place, Disjoint, AfterStage1, AddressOf;
  }

  lemma LoadMotionPlace(img: Image, e: Item)
    ensures LoadMotion(img, e).place == if PatchesImage(img, e) then 1 else 0
    ensures LoadMotions(img)(e) == LoadMotion(img, e)
  {}

  lemma SameShape(img: Image, base: u64, e: Item)
    ensures PatchesImage(Rebased(img, base), e) <==> PatchesImage(img, e)
  {}

  lemma EntryKeepsStep(img: Image, base: u64, malloc: nat -> u64, site: Site, e: Item)
    requires IsSite(img, site) && Clear(img, malloc, site)
    requires IsSite(Rebased(img, base), site) && Clear(Rebased(img, base), malloc, site)
    requires TableStays(img, e) && e in Items(img) && e in Items(Rebased(img, base))
    requires !Stops(AfterStage1(img, malloc), e) && !Stops(AfterStage1(Rebased(img, base), malloc), e)
    ensures EntryInStep(AfterStage1(img, malloc), AfterStage1(Rebased(img, base), malloc), LoadMotion(img, e), e,
                        AddressOf(img, malloc, site), AddressOf(Rebased(img, base), malloc, site))
  {
    var img1, img1' := AfterStage1(img, malloc), AfterStage1(Rebased(img, base), malloc);
    assert img1.base == img.base && img1'.base == base;
    LoadsMove(img, base, malloc, e);
    hide Judge, Place, Disjoint, AfterStage1, AddressOf, Clear, LoadMotion, PatchesImage, MovesBy, Stops, Plus, Shift;
    ResultMoves(img1, img1', e, LoadMotion(img, e));
    if Judge(img1, e).Patches? {
      ClearAt(img, malloc, site, e);
      ClearAt(Rebased(img, base), malloc, site, e);
      SameShape(img, base, e);
      SiteMoves(img, base, malloc, site);
      LoadMotionPlace(img, e);
      var t, t' := AddressOf(img, malloc, site), AddressOf(Rebased(img, base), malloc, site);
      NotApartFromItself(t);
      NotApartFromItself(t');
      ShiftInjective(Place(img1, e), t, Shift(LoadMotion(img, e).place, img.base, base));
    }
  }

  lemma SameWork(img: Image, base: u64)
    ensures Items(Rebased(img, base)) == Items(img)
  {
    ItemsAreFixed(Rebased(img, base), img.base, _ => 0);
    ItemsAreFixed(img, img.base, _ => 0);
    assert Rebased(Rebased(img, base), img.base) == img == Rebased(img, img.base);
  }

  lemma LoadsKeepStep(img: Image, base: u64, malloc: nat -> u64, site: Site)
    requires IsSite(img, site) && Clear(img, malloc, site) && TablesStay(img)
    requires IsSite(Rebased(img, base), site) && Clear(Rebased(img, base), malloc, site)
    requires forall e :: e in Items(img) ==> !Stops(AfterStage1(img, malloc), e)
    requires forall e :: e in Items(img) ==> !Stops(AfterStage1(Rebased(img, base), malloc), e)
    ensures InStep(AfterStage1(img, malloc), AfterStage1(Rebased(img, base), malloc), LoadMotions(img), Items(img),
                   AddressOf(img, malloc, site), AddressOf(Rebased(img, base), malloc, site))
  {
    SameWork(img, base);
    hide Stops, AfterStage1, AddressOf, Clear, EntryInStep, LoadMotion, Items, LoadMotions;
    forall e | e in Items(img)
      ensures EntryInStep(AfterStage1(img, malloc), AfterStage1(Rebased(img, base), malloc), LoadMotions(img)(e), e,
                          AddressOf(img, malloc, site), AddressOf(Rebased(img, base), malloc, site))
    {
      EntryKeepsStep(img, base, malloc, site, e);
      LoadMotionPlace(img, e);
    }
  }

  /** What two loads of one image at two bases are compared under: both return 0 and the entries keep
      clear of the site in both. */
  ghost predicate Comparable(img: Image, base: u64, malloc: nat -> u64, m: seq<byte>, m': seq<byte>, site: Site) {
    && |m| == W64 && |m'| == W64 && BlocksFit(img.sections, malloc) && IsSite(img, site) && TablesStay(img)
    && Loaded(img, malloc, m).0.Done? && Loaded(Rebased(img, base), malloc, m').0.Done?
    && Clear(img, malloc, site) && Clear(Rebased(img, base), malloc, site)
  }

  /** Two successful loads at two bases, with the same blocks: a word of the image or of a block that held
      the same value between the stages ends up shifted by its drift times the difference of the bases. */
  lemma Relocatable(img: Image, base: u64, malloc: nat -> u64, m: seq<byte>, m': seq<byte>, site: Site)
    requires Comparable(img, base, malloc, m, m', site)
    requires var t, t' := AddressOf(img, malloc, site), AddressOf(Rebased(img, base), malloc, site);
             Load(Between(Rebased(img, base), malloc, m'), t') == Load(Between(img, malloc, m), t)
    ensures var t, t' := AddressOf(img, malloc, site), AddressOf(Rebased(img, base), malloc, site);
            Load(Loaded(Rebased(img, base), malloc, m').1, t') ==
            Plus(Load(Loaded(img, malloc, m).1, t),
                 Shift(DriftAt(AfterStage1(img, malloc), LoadMotions(img), Items(img), t), img.base, base))
  {
    var img1, img1' := AfterStage1(img, malloc), AfterStage1(Rebased(img, base), malloc);
    assert img1.base == img.base && img1'.base == base && Rebased(img, img.base) == img;
    hide Load, Loaded, Between, AfterStage1, AddressOf, Clear, Items, LoadMotions, DriftAt, Shift, Plus, ApplyAll,
         InStep, Apart, Stops, TablesStay, BlocksFit;
    LoadedIs(img, img.base, malloc, m);
    LoadedIs(img, base, malloc, m');
    LoadsKeepStep(img, base, malloc, site);
    ClearIsApart(img, malloc, site);
    ClearIsApart(Rebased(img, base), malloc, site);
    SameWork(img, base);
    WordDrifts(img1, img1', LoadMotions(img), Items(img),
               Between(img, malloc, m), Between(Rebased(img, base), malloc, m'),
               AddressOf(img, malloc, site), AddressOf(Rebased(img, base), malloc, site));
  }

  // ----- what a word holds between the stages

  /** No byte of the word at `t` belongs to a block. */
  ghost predicate OutsideBlocks(img: Image, malloc: nat -> u64, t: u64) {
    forall i: nat, k: nat :: i < |img.sections| && k < 8 ==> !InBlock(img.sections, malloc, i, Addr(t, k))
  }

  /** A word of the image that no block overlaps is as it was before stage 1; a word of a block is 0. */
  lemma WordBetween(img: Image, malloc: nat -> u64, m: seq<byte>, site: Site)
    requires |m| == W64 && BlocksFit(img.sections, malloc) && IsSite(img, site)
    ensures var t := AddressOf(img, malloc, site);
            && (site.ImageWord? && OutsideBlocks(img, malloc, t) ==> Load(Between(img, malloc, m), t) == Load(m, t))
            && (site.BlockWord? && site.offset + 8 <= img.sections[site.section].size ==>
                  Load(Between(img, malloc, m), t) == 0)
  {
    hide Zeroed, Block;
    var t, m1 := AddressOf(img, malloc, site), Between(img, malloc, m);
    if site.ImageWord? && OutsideBlocks(img, malloc, t) {
      forall k: nat | k < 8 ensures m1[Addr(t, k)] == m[Addr(t, k)] {
        ZeroedBlocks(m, img.sections, malloc, |img.sections|, Addr(t, k));
      }
      assert seq(8, k requires 0 <= k < 8 => m1[Addr(t, k)]) == seq(8, k requires 0 <= k < 8 => m[Addr(t, k)]);
    } else if site.BlockWord? && site.offset + 8 <= img.sections[site.section].size {
      forall k: nat | k < 8 ensures m1[Addr(t, k)] == 0 {
        ZeroedBlocks(m, img.sections, malloc, |img.sections|, Addr(t, k));
        assert InBlock(img.sections, malloc, site.section, Addr(t, k));
      }
      ZeroWord(m1, t);
    }
  }

  lemma ZeroWord(m: seq<byte>, t: u64)
    requires |m| == W64 && forall k: nat :: k < 8 ==> m[Addr(t, k)] == 0
    ensures Load(m, t) == 0
  {
    var s := seq(8, k requires 0 <= k < 8 => m[Addr(t, k)]);
    ZeroBytes(s);
  }

  lemma {:induction false} ZeroBytes(s: seq<byte>)
    requires forall k :: 0 <= k < |s| ==> s[k] == 0
    ensures FromBytes(s) == 0
  {
    if s != [] {
      ZeroBytes(s[1..]);
    }
  }

  // ----- the cases that the formulas S - P and S are for

  /** How many entries patch the word at `t`. */
  function PatchCount(img: Image, items: seq<Item>, t: u64): nat {
    if items == [] then 0
    else (if PatchesAt(img, items[0], t) then 1 else 0) + PatchCount(img, items[1..], t)
  }

  /** All entries that patch the word drift by `k`. */
  ghost predicate AllDriftBy(img: Image, motions: Item -> Motion, items: seq<Item>, t: u64, k: int) {
    forall e :: e in items && PatchesAt(img, e, t) ==> Drift(e, motions(e)) == k
  }

  lemma {:induction false} UniformDrift(img: Image, motions: Item -> Motion, items: seq<Item>, t: u64, k: int)
    requires k in {-1, 0, 1} && AllDriftBy(img, motions, items, t, k)
    ensures DriftAt(img, motions, items, t)
         == if k == 0 then 0 else if k == 1 then PatchCount(img, items, t) else -(PatchCount(img, items, t) as int)
  {
    hide PatchesAt, Drift;
    if items != [] {
      assert items[0] in items && forall x :: x in items[1..] ==> x in items;
      UniformDrift(img, motions, items[1..], t, k);
    }
  }

  /** Every entry that patches the site is pc-relative, and its symbol and its place are both in the image
      or both not. */
  ghost predicate OnlyPcRelative(img: Image, malloc: nat -> u64, site: Site)
    requires IsSite(img, site)
  {
    forall e :: e in Items(img) && PatchesAt(AfterStage1(img, malloc), e, AddressOf(img, malloc, site)) ==>
      PcRelative(e) && (SymbolMoves(img, e) <==> PatchesImage(img, e))
  }

  /** Every entry that patches the site is absolute, against a symbol that moves or that does not. */
  ghost predicate OnlyAbsolute(img: Image, malloc: nat -> u64, site: Site, moves: bool)
    requires IsSite(img, site)
  {
    forall e :: e in Items(img) && PatchesAt(AfterStage1(img, malloc), e, AddressOf(img, malloc, site)) ==>
      e.Entry? && e.rel.Type() == R_X86_64_32 && SymbolMoves(img, e) == moves
  }

  lemma OnlyPcRelativeDrift(img: Image, malloc: nat -> u64, site: Site)
    requires IsSite(img, site) && OnlyPcRelative(img, malloc, site)
    ensures AllDriftBy(AfterStage1(img, malloc), LoadMotions(img), Items(img), AddressOf(img, malloc, site), 0)
  {
    hide PatchesAt, SymbolMoves, PatchesImage, AfterStage1, AddressOf, Items;
  }

  lemma OnlyAbsoluteDrift(img: Image, malloc: nat -> u64, site: Site, moves: bool)
    requires IsSite(img, site) && OnlyAbsolute(img, malloc, site, moves)
    ensures AllDriftBy(AfterStage1(img, malloc), LoadMotions(img), Items(img), AddressOf(img, malloc, site),
                       if moves then 1 else 0)
  {
    hide PatchesAt, SymbolMoves, PatchesImage, AfterStage1, AddressOf, Items;
  }

  /** A word that is patched only pc-relatively, against symbols that move along with it, comes out the
      same in both loads. */
  lemma PcRelativeWordsAreFixed(img: Image, base: u64, malloc: nat -> u64, m: seq<byte>, m': seq<byte>, site: Site)
    requires Comparable(img, base, malloc, m, m', site) && OnlyPcRelative(img, malloc, site)
    requires var t, t' := AddressOf(img, malloc, site), AddressOf(Rebased(img, base), malloc, site);
             Load(Between(Rebased(img, base), malloc, m'), t') == Load(Between(img, malloc, m), t)
    ensures var t, t' := AddressOf(img, malloc, site), AddressOf(Rebased(img, base), malloc, site);
            Load(Loaded(Rebased(img, base), malloc, m').1, t') == Load(Loaded(img, malloc, m).1, t)
  {
    ComparableMeans(img, base, malloc, m, m', site);
    hide *;
    Relocatable(img, base, malloc, m, m', site);
    OnlyPcRelativeDrift(img, malloc, site);
    UniformDrift(AfterStage1(img, malloc), LoadMotions(img), Items(img), AddressOf(img, malloc, site), 0);
    NoShift(Load(Loaded(img, malloc, m).1, AddressOf(img, malloc, site)), img.base, base);
  }

  lemma ComparableMeans(img: Image, base: u64, malloc: nat -> u64, m: seq<byte>, m': seq<byte>, site: Site)
    requires Comparable(img, base, malloc, m, m', site)
    ensures |m| == W64 && |m'| == W64 && IsSite(img, site) && IsSite(Rebased(img, base), site)
    ensures BlocksFit(img.sections, malloc) && BlocksFit(Rebased(img, base).sections, malloc)
  {}

  /** A word that is patched only by absolute entries moves by the difference of the bases once for each
      of them if their symbols are in the image, and not at all if they are in blocks or absolute. */
  lemma AbsoluteWordsMove(img: Image, base: u64, malloc: nat -> u64, m: seq<byte>, m': seq<byte>, site: Site,
                          moves: bool)
    requires Comparable(img, base, malloc, m, m', site) && OnlyAbsolute(img, malloc, site, moves)
    requires var t, t' := AddressOf(img, malloc, site), AddressOf(Rebased(img, base), malloc, site);
             Load(Between(Rebased(img, base), malloc, m'), t') == Load(Between(img, malloc, m), t)
    ensures var t, t' := AddressOf(img, malloc, site), AddressOf(Rebased(img, base), malloc, site);
            Load(Loaded(Rebased(img, base), malloc, m').1, t') ==
            Plus(Load(Loaded(img, malloc, m).1, t),
                 Shift(if moves then PatchCount(AfterStage1(img, malloc), Items(img), t) else 0, img.base, base))
  {
    ComparableMeans(img, base, malloc, m, m', site);
    hide *;
    Relocatable(img, base, malloc, m, m', site);
    OnlyAbsoluteDrift(img, malloc, site, moves);
    UniformDrift(AfterStage1(img, malloc), LoadMotions(img), Items(img), AddressOf(img, malloc, site),
                 if moves then 1 else 0);
  }

  /** In this load no entry covers the byte. */
  ghost predicate Uncovered(img: Image, malloc: nat -> u64, a: u64) {
    forall e :: e in Items(img) && Judge(AfterStage1(img, malloc), e).Patches? ==>
      Dist(Place(AfterStage1(img, malloc), e), a) >= 8
  }

  /** Whatever the outcome of a load, a byte that no block and no entry covers is as it was, and a byte
      of a block that no entry covers is 0. */
  lemma UncoveredBytes(img: Image, malloc: nat -> u64, m: seq<byte>, a: u64)
    requires |m| == W64 && BlocksFit(img.sections, malloc) && Uncovered(img, malloc, a)
    ensures Loaded(img, malloc, m).1[a] ==
            if exists i :: 0 <= i < |img.sections| && InBlock(img.sections, malloc, i, a) then 0 else m[a]
  {
    ItemsAreFixed(img, img.base, malloc);
    ZeroedBlocks(m, img.sections, malloc, |img.sections|, a);
    hide Judge, Place, AfterStage1, Items, Zeroed, InBlock;
    PassFrame(AfterStage1(img, malloc), Items(img), Between(img, malloc, m), a);
  }

  lemma DistShifts(a: u64, b: u64, o: u64, x: u64)
    ensures Dist(Addr(b, o), Addr(b, x)) == Dist(Addr(a, o), Addr(a, x))
  {}

  /** An entry that patches the image keeps its distance from a byte of the image. */
  lemma KeepsDistance(img: Image, base: u64, malloc: nat -> u64, e: Item, o: u64)
    requires PatchesImage(img, e)
    ensures Dist(Place(AfterStage1(Rebased(img, base), malloc), e), Addr(base, o))
         == Dist(Place(AfterStage1(img, malloc), e), Addr(img.base, o))
  {
    hide Place, Dist, Addr, AfterStage1, NeedsMemory;
    PlaceAfterStage1(img, malloc, e);
    PlaceAfterStage1(Rebased(img, base), malloc, e);
    DistShifts(img.base, base, PlaceOffset(img, e), o);
    SameOffset(img, base, e);
  }

  lemma SameOffset(img: Image, base: u64, e: Item)
    requires e.Entry?
    ensures PlaceOffset(Rebased(img, base), e) == PlaceOffset(img, e)
  {}

  lemma PatchesAlike(img: Image, base: u64, malloc: nat -> u64, e: Item)
    requires TableStays(img, e)
    requires !Stops(AfterStage1(img, malloc), e) && !Stops(AfterStage1(Rebased(img, base), malloc), e)
    ensures Judge(AfterStage1(img, malloc), e).Patches? <==> Judge(AfterStage1(Rebased(img, base), malloc), e).Patches?
  {
    LoadsMove(img, base, malloc, e);
    hide *;
    ResultMoves(AfterStage1(img, malloc), AfterStage1(Rebased(img, base), malloc), e, LoadMotion(img, e));
  }

  /** In the load at `base` no entry that patches a block covers the byte. */
  ghost predicate BlocksMiss(img: Image, base: u64, malloc: nat -> u64, a: u64) {
    var img1 := AfterStage1(Rebased(img, base), malloc);
    forall e :: e in Items(img) && !PatchesImage(img, e) && Judge(img1, e).Patches? ==> Dist(Place(img1, e), a) >= 8
  }

  lemma UncoveredInBoth(img: Image, base: u64, malloc: nat -> u64, o: u64)
    requires TablesStay(img)
    requires Uncovered(img, malloc, Addr(img.base, o)) && BlocksMiss(img, base, malloc, Addr(base, o))
    requires forall e :: e in Items(img) ==> !Stops(AfterStage1(img, malloc), e)
    requires forall e :: e in Items(img) ==> !Stops(AfterStage1(Rebased(img, base), malloc), e)
    ensures Uncovered(Rebased(img, base), malloc, Addr(base, o))
  {
    SameWork(img, base);
    hide Judge, Place, Dist, Addr, AfterStage1, Items, Stops, TableStays;
    forall e | e in Items(img) && PatchesImage(img, e) && Judge(AfterStage1(Rebased(img, base), malloc), e).Patches?
      ensures Dist(Place(AfterStage1(Rebased(img, base), malloc), e), Addr(base, o)) >= 8
    {
      PatchesAlike(img, base, malloc, e);
      KeepsDistance(img, base, malloc, e, o);
    }
  }

  /** A byte of the image that no block and no entry covers is the same after two successful loads. */
  lemma UnpatchedBytesAreFixed(img: Image, base: u64, malloc: nat -> u64, m: seq<byte>, m': seq<byte>, o: u64)
    requires |m| == W64 && |m'| == W64 && BlocksFit(img.sections, malloc) && TablesStay(img)
    requires Loaded(img, malloc, m).0.Done? && Loaded(Rebased(img, base), malloc, m').0.Done?
    requires Uncovered(img, malloc, Addr(img.base, o)) && BlocksMiss(img, base, malloc, Addr(base, o))
    requires forall i :: 0 <= i < |img.sections| ==> !InBlock(img.sections, malloc, i, Addr(img.base, o))
    requires forall i :: 0 <= i < |img.sections| ==> !InBlock(img.sections, malloc, i, Addr(base, o))
    requires m'[Addr(base, o)] == m[Addr(img.base, o)]
    ensures Loaded(Rebased(img, base), malloc, m').1[Addr(base, o)] == Loaded(img, malloc, m).1[Addr(img.base, o)]
  {
    hide Loaded, Uncovered, BlocksMiss, Addr, AfterStage1, InBlock, Items, Stops, TablesStay, BlocksFit;
    assert Rebased(img, img.base) == img;
    LoadedIs(img, img.base, malloc, m);
    LoadedIs(img, base, malloc, m');
    UncoveredInBoth(img, base, malloc, o);
    UncoveredBytes(img, malloc, m, Addr(img.base, o));
    UncoveredBytes(Rebased(img, base), malloc, m', Addr(base, o));
  }
}
