/** The two loading stages, in place: stage 1 gives memory to the sections that take none in the
    file, stage 2 is the relocation pass. Both are proved against functions of the image, and what
    the stages achieve together is proved about those functions. */
module ElfLoader {
  import opened Words
  import opened CString
  import opened Elf

  // ----- stage 1 as a function

  /** A section that occupies memory when the program runs but has no bytes in the file. */
  predicate NeedsMemory(s: Section) {
    s.kind == SHT_NOBITS && s.size != 0 && s.Alloc()
  }

  /** How many of the first `n` sections need memory. */
  function Needy(sections: seq<Section>, n: nat): (k: nat)
    requires n <= |sections|
  {
    if n == 0 then 0 else Needy(sections, n - 1) + (if NeedsMemory(sections[n - 1]) then 1 else 0)
  }

  /** The block that section `i` gets: the answer to the allocation request made for it, requests
      being made in section order. */
  function Block(sections: seq<Section>, malloc: nat -> u64, i: nat): u64
    requires i <= |sections|
  {
    malloc(Needy(sections, i))
  }

  /** The allocator hands out objects that do not run past the end of the address space. */
  ghost predicate BlocksFit(sections: seq<Section>, malloc: nat -> u64) {
    forall i :: 0 <= i < |sections| && NeedsMemory(sections[i]) ==>
      Block(sections, malloc, i) + sections[i].size <= W64
  }

  /** The section headers once stage 1 has dealt with the first `n` of them. */
  function Placed(sections: seq<Section>, base: u64, malloc: nat -> u64, n: nat): (r: seq<Section>)
    requires n <= |sections|
    ensures |r| == |sections|
  {
    seq(|sections|, i requires 0 <= i < |sections| =>
      if i < n && NeedsMemory(sections[i])
      then sections[i].(offset := Wrap(Block(sections, malloc, i) - base)) else sections[i])
  }

  /** Memory once the blocks of the first `n` sections have been zeroed, in order. */
  ghost function Zeroed(m: seq<byte>, sections: seq<Section>, malloc: nat -> u64, n: nat): (m': seq<byte>)
    requires |m| == W64 && n <= |sections| && BlocksFit(sections, malloc)
    ensures |m'| == W64
  {
    if n == 0 then m
    else if NeedsMemory(sections[n - 1]) then
      Filled(Zeroed(m, sections, malloc, n - 1), Block(sections, malloc, n - 1), 0, sections[n - 1].size)
    else Zeroed(m, sections, malloc, n - 1)
  }

  predicate InBlock(sections: seq<Section>, malloc: nat -> u64, i: nat, a: u64)
    requires i < |sections|
  {
    NeedsMemory(sections[i]) && Block(sections, malloc, i) <= a < Block(sections, malloc, i) + sections[i].size
  }

  /** Every byte of every block is zero in the end, and no other byte changes. */
  lemma {:induction false} ZeroedBlocks(m: seq<byte>, sections: seq<Section>, malloc: nat -> u64, n: nat, a: u64)
    requires |m| == W64 && n <= |sections| && BlocksFit(sections, malloc)
    ensures Zeroed(m, sections, malloc, n)[a] ==
            if exists i :: 0 <= i < n && InBlock(sections, malloc, i, a) then 0 else m[a]
  {
    if n > 0 {
      ZeroedBlocks(m, sections, malloc, n - 1, a);
      assert (exists i :: 0 <= i < n && InBlock(sections, malloc, i, a))
        <==> (InBlock(sections, malloc, n - 1, a) || exists i :: 0 <= i < n - 1 && InBlock(sections, malloc, i, a));
    }
  }

  // ----- what the two stages achieve together

  /** The image after stage 1. */
  function AfterStage1(img: Image, malloc: nat -> u64): Image {
    img.(sections := Placed(img.sections, img.base, malloc, |img.sections|))
  }

  /** Adding the loaded offset of a placed section to the address of the image gives its block,
      wherever the image lies. */
  lemma PlacedAddress(base: u64, block: u64, x: int)
    ensures Wrap(base + x + Wrap(block - base)) == Wrap(block + x)
  {
    WrapOfWrap(block - base, base + x);
  }

  /** In stage 2 a symbol defined in a section that stage 1 placed resolves to its offset within
      that section's block. */
  lemma PlacedSymbolResolves(img: Image, malloc: nat -> u64, table: u32, idx: nat)
    requires table != SHN_UNDEF && idx != SHN_UNDEF
    requires var symtab := AfterStage1(img, malloc).SectionAt(idx);
             symtab.entsize != 0 && idx < symtab.size / symtab.entsize
    requires var j := img.symbolAt(AfterStage1(img, malloc).SectionAt(idx).offset, idx).shndx;
             j !in {SHN_UNDEF, SHN_ABS} && j < |img.sections| && NeedsMemory(img.sections[j])
    ensures var symbol := img.symbolAt(AfterStage1(img, malloc).SectionAt(idx).offset, idx);
            SymbolValue(AfterStage1(img, malloc), table, idx) ==
            Value(Wrap(Block(img.sections, malloc, symbol.shndx) + symbol.value))
  {
    var symbol := img.symbolAt(AfterStage1(img, malloc).SectionAt(idx).offset, idx);
    var block := Block(img.sections, malloc, symbol.shndx);
    assert AfterStage1(img, malloc).SectionAt(symbol.shndx).offset == Wrap(block - img.base);
    PlacedAddress(img.base, block, symbol.value);
  }

  lemma AbsoluteSum(s: u64, word: u64)
    ensures Wrap(s + word) == Plus(word, s)
  {}

  lemma EffectOfVerdict(img: Image, m: seq<byte>, e: Item)
    requires |m| == W64
    ensures Effect(img, m, e) ==
            match Judge(img, e)
            case Patches(addend, _) => Store(m, Place(img, e), Plus(Load(m, Place(img, e)), addend))
            case _ => m
  {}

  lemma PcSum(s: u64, word: u64, ref: u64)
    ensures Wrap(s + word - ref) == Plus(word, Wrap(s - ref))
  {
    WrapOfWrap(s - ref, word);
  }

  lemma PassStep(img: Image, e: Item, rest: seq<Item>, m: seq<byte>)
    requires |m| == W64
    ensures Judge(img, DivisionByZero).Traps?
    ensures Judge(img, e).Traps? ==> Pass(img, [e] + rest, m) == (Trapped, m) && Effect(img, m, e) == m
    ensures !Judge(img, e).Traps? ==>
              Pass(img, [e] + rest, m) ==
              if Rejected(Judge(img, e).result) then (Failed, Effect(img, m, e)) else Pass(img, rest, Effect(img, m, e))
  {
    assert ([e] + rest)[1..] == rest;
  }

  lemma HeadOfWork(items: seq<Item>, rest: seq<Item>, i: nat)
    requires i < |items|
    ensures items[i..] + rest == [items[i]] + (items[i + 1..] + rest)
  {}

  lemma PassDone(img: Image, m: seq<byte>)
    requires |m| == W64
    ensures Pass(img, ItemsFrom(img, |img.sections|), m) == (Done, m)
  {}

  lemma WorkList(img: Image)
    ensures Items(img) == ItemsFrom(img, 0)
  {}

  lemma SectionWork(img: Image, i: nat)
    requires i < |img.sections|
    ensures var s, rest := img.sections[i], ItemsFrom(img, i + 1);
            if s.kind != SHT_REL then ItemsFrom(img, i) == rest
            else if s.entsize == 0 then ItemsFrom(img, i) == [DivisionByZero] + rest
            else
              && |SectionItems(img, s)| == s.size / s.entsize
              && (forall k :: 0 <= k < s.size / s.entsize ==>
                    SectionItems(img, s)[k] == Entry(img.relAt(s.offset, k), s.link, s.info))
              && ItemsFrom(img, i) == SectionItems(img, s)[0..] + rest
  {
    assert [] + ItemsFrom(img, i + 1) == ItemsFrom(img, i + 1);
  }

  // ----- the loader itself

  class Loader {
    /** The address of the ELF header, and the tables that the loader only reads. */
    const base: u64
    const stray: nat -> Section
    const symbolAt: (u64, nat) -> Symbol
    const relAt: (u64, nat) -> Rel
    /** The section header table; stage 1 rewrites file offsets in it. */
    var sections: seq<Section>
    const mem: array<byte>

    constructor (base: u64, sections: seq<Section>, stray: nat -> Section,
                 symbolAt: (u64, nat) -> Symbol, relAt: (u64, nat) -> Rel, mem: array<byte>)
      ensures Header() == Image(base, sections, stray, symbolAt, relAt) && this.mem == mem
    {
      this.base, this.sections, this.stray := base, sections, stray;
      this.symbolAt, this.relAt, this.mem := symbolAt, relAt, mem;
    }

    function Header(): Image
      reads this
    {
      Image(base, sections, stray, symbolAt, relAt)
    }

    method LoadStage1(malloc: nat -> u64)
      requires mem.Length == W64 && BlocksFit(sections, malloc)
      modifies mem, this`sections
      ensures Header() == AfterStage1(old(Header()), malloc)
      ensures mem[..] == Zeroed(old(mem[..]), old(sections), malloc, |old(sections)|)
    {
      ghost var before := sections;
      var calls := 0;
      for i := 0 to |sections|
        invariant |sections| == |before| && calls == Needy(before, i)
        invariant sections == Placed(before, base, malloc, i)
        invariant mem[..] == Zeroed(old(mem[..]), before, malloc, i)
      {
        var section := sections[i];
        if section.kind == SHT_NOBITS && section.size != 0 {
          if section.Alloc() {
            var block := malloc(calls);
            calls := calls + 1;
            MemSet(mem, block, 0, section.size);
            sections := sections[i := section.(offset := Wrap(block - base))];
          }
        }
      }
    }

    /** One entry of the relocation section whose header is `reltab`. */
    method DoReloc(rel: Rel, reltab: Section) returns (r: Lookup)
      requires mem.Length == W64
      modifies mem
      ensures var e := Entry(rel, reltab.link, reltab.info);
              && mem[..] == Effect(Header(), old(mem[..]), e)
              && r == (if Judge(Header(), e).Traps? then DivideError else Value(Judge(Header(), e).result))
    {
      hide Effect, Load, Store;
      ghost var img, e := Header(), Entry(rel, reltab.link, reltab.info);
      EffectOfVerdict(img, mem[..], e);
      var target := Header().SectionAt(reltab.info);
      var ref := Addr(base, Wrap(target.offset + rel.offset));
      assert ref == Place(img, e);
      var symval: u64 := 0;
      if rel.SymbolIndex() != SHN_UNDEF {
        var lookup := SymbolValue(Header(), reltab.link, rel.SymbolIndex());
        if lookup.DivideError? {
          return DivideError;
        }
        symval := lookup.v;
        if symval == RELOC_ERR {
          return Value(RELOC_ERR);
        }
      }
      var t := rel.Type();
      if t == R_X86_64_NONE {
      } else if t == R_X86_64_32 {
        assert Judge(img, e) == Patches(symval, symval);
        var word := LoadWord(mem, ref);
        AbsoluteSum(symval, word);
        StoreWord(mem, ref, Wrap(symval + word));
      } else if t == R_X86_64_PC32 || t == R_X86_64_PC64 {
        assert Judge(img, e) == Patches(Wrap(symval - ref), symval);
        var word := LoadWord(mem, ref);
        PcSum(symval, word, ref);
        StoreWord(mem, ref, Wrap(symval + word - ref));
      } else {
        return Value(RELOC_ERR);
      }
      return Value(symval);
    }

    method LoadStage2() returns (r: Outcome)
      requires mem.Length == W64
      modifies mem
      ensures (r, mem[..]) == Pass(Header(), Items(Header()), old(mem[..]))
    {
      ghost var img, all := Header(), Pass(Header(), Items(Header()), mem[..]);
      assert img.sections == sections && img.relAt == relAt;
      hide *;
      WorkList(img);
      for i := 0 to |sections|
        invariant Header() == img
        invariant Pass(img, ItemsFrom(img, i), mem[..]) == all
      {
        var section := sections[i];
        SectionWork(img, i);
        ghost var rest := ItemsFrom(img, i + 1);
        if section.kind == SHT_REL {
          if section.entsize == 0 {
            PassStep(img, DivisionByZero, rest, mem[..]);
            return Trapped;
          }
          ghost var items := SectionItems(img, section);
          for idx := 0 to section.size / section.entsize
            invariant Header() == img
            invariant Pass(img, items[idx..] + rest, mem[..]) == all
          {
            HeadOfWork(items, rest, idx);
            PassStep(img, items[idx], items[idx + 1..] + rest, mem[..]);
            var result := DoReloc(relAt(section.offset, idx), section);
            if result.DivideError? {
              return Trapped;
            }
            if Rejected(result.v) {
              return Failed;
            }
          }
          assert items[section.size / section.entsize..] + rest == rest;
        }
      }
      PassDone(img, mem[..]);
      return Done;
    }
  }
}
