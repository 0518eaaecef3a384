/** What the fields of section headers, symbols and relocation entries mean, in numbers: which bits of an
    entry name its symbol and its type, what a symbol resolves to, which entries the pass goes through,
    and which sections stage 1 places. */
module ElfEntries {
  import opened Arith
  import opened Words
  import opened Elf
  import opened ElfPass
  import opened ElfLoader

  // ----- one relocation entry

  /** The symbol is in the upper half of r_info, the type in the lower. */
  lemma InfoHalves(rel: Rel, idx: u32, t: u32)
    requires rel.info == idx * 0x1_0000_0000 + t
    ensures rel.SymbolIndex() == idx && rel.Type() == t
  {
    DivModUnique(rel.info, idx, t, 0x1_0000_0000);
  }

  /** Symbol `idx` has the value `s`. Without a symbol or a linked table that is 0. Otherwise the symbol is
      record `idx` of the table in section `idx`, which must hold that many, and `s` is 0 for an external
      symbol, its value for an absolute one, and its address in the image for any other. */
  ghost predicate ResolvesTo(img: Image, link: u32, idx: u32, s: u64) {
    if idx == 0 || link == 0 then s == 0
    else
      var table := img.SectionAt(idx);
      var symbol := img.symbolAt(table.offset, idx);
      && table.entsize > 0 && (idx + 1) * table.entsize <= table.size
      && (symbol.shndx == 0 ==> s == 0)
      && (symbol.shndx == 0xfff1 ==> s == symbol.value)
      && (symbol.shndx != 0 && symbol.shndx != 0xfff1 ==>
            s == (img.base + symbol.value + img.SectionAt(symbol.shndx).offset) % 0x1_0000_0000_0000_0000)
  }

  /** Record `i` of a table is whole exactly if the number of whole records is larger. */
  lemma RecordFits(size: u64, entsize: u64, i: nat)
    requires entsize > 0
    ensures i < size / entsize <==> (i + 1) * entsize <= size
  {
    DivBelow(size, i + 1, entsize);
  }

  lemma ValueOfSymbol(img: Image, link: u32, idx: u32, s: u64)
    requires ResolvesTo(img, link, idx, s)
    ensures SymbolValue(img, link, idx) == Value(s)
  {
    if idx != 0 && link != 0 {
      RecordFits(img.SectionAt(idx).size, img.SectionAt(idx).entsize, idx);
    }
  }

  /** Where the word lies that an entry patches. */
  lemma PlaceIs(img: Image, e: Item)
    requires e.Entry?
    ensures Place(img, e) == (img.base + img.SectionAt(e.target).offset + e.rel.offset) % 0x1_0000_0000_0000_0000
  {
    hide Wrap;
    var o := img.SectionAt(e.target).offset + e.rel.offset;
    AddrIsWrap(img.base, Wrap(o));
    WrapOfWrap(o, img.base);
    assert o + img.base == img.base + img.SectionAt(e.target).offset + e.rel.offset;
    WrapMeans(img.base + img.SectionAt(e.target).offset + e.rel.offset);
  }

  lemma WrapMeans(x: int)
    ensures Wrap(x) == x % 0x1_0000_0000_0000_0000
  {}

  /** What an entry does whose symbol resolves: type 10 leaves S + A at its place and types 2 and 24 leave
      S + A - P, type 0 nothing, and any other type is refused. It stops the pass exactly if it is
      refused or the low half of S is all ones. */
  lemma EntryInNumbers(img: Image, e: Item, m: seq<byte>, idx: u32, t: u32, s: u64)
    requires e.Entry? && |m| == W64 && e.rel.info == idx * 0x1_0000_0000 + t
    requires ResolvesTo(img, e.link, idx, s) && s != 0xffff_ffff_ffff_ffff
    ensures var p := (img.base + img.SectionAt(e.target).offset + e.rel.offset) % 0x1_0000_0000_0000_0000;
            var a := Load(m, p);
            && (t == 10 ==> Load(Effect(img, m, e), p) == (s + a) % 0x1_0000_0000_0000_0000)
            && (t == 2 || t == 24 ==> Load(Effect(img, m, e), p) == (s + a - p) % 0x1_0000_0000_0000_0000)
            && (t != 10 && t != 2 && t != 24 ==> Effect(img, m, e) == m)
            && (Stops(img, e) <==> t !in {0, 2, 10, 24} || s % 0x1_0000_0000 == 0xffff_ffff)
            && !Judge(img, e).Traps?
  {
    InfoHalves(e.rel, idx, t);
    ValueOfSymbol(img, e.link, idx, s);
    PlaceIs(img, e);
    StopReasons(img, e, m);
    assert idx == 0 ==> s == 0;
    if t == 10 || t == 2 || t == 24 {
      EntryFollowsFormula(img, e, m, s);
      WrapMeans(if t == 10 then s + Load(m, Place(img, e)) else s + Load(m, Place(img, e)) - Place(img, e));
    } else {
      NothingPatched(img, e, m, s);
    }
    ResolvedStops(img, e, s);
  }

  lemma ResolvedJudge(img: Image, e: Item, s: u64)
    requires e.Entry? && s != 0xffff_ffff_ffff_ffff
    requires if e.rel.SymbolIndex() == 0 then s == 0 else SymbolValue(img, e.link, e.rel.SymbolIndex()) == Value(s)
    ensures Judge(img, e) ==
            if e.rel.Type() == 0 then Leaves(s)
            else if e.rel.Type() == 10 then Patches(s, s)
            else if e.rel.Type() == 2 || e.rel.Type() == 24 then Patches(Wrap(s - Place(img, e)), s)
            else Leaves(0xffff_ffff_ffff_ffff)
  {}

  lemma ResolvedStops(img: Image, e: Item, s: u64)
    requires e.Entry? && s != 0xffff_ffff_ffff_ffff
    requires if e.rel.SymbolIndex() == 0 then s == 0 else SymbolValue(img, e.link, e.rel.SymbolIndex()) == Value(s)
    ensures !Judge(img, e).Traps?
    ensures Stops(img, e) <==> e.rel.Type() !in {0, 2, 10, 24} || s % 0x1_0000_0000 == 0xffff_ffff
  {
    ResolvedJudge(img, e, s);
    hide SymbolValue, Judge, Place, Wrap;
  }

  lemma NothingPatched(img: Image, e: Item, m: seq<byte>, s: u64)
    requires e.Entry? && |m| == W64 && s != 0xffff_ffff_ffff_ffff
    requires if e.rel.SymbolIndex() == 0 then s == 0 else SymbolValue(img, e.link, e.rel.SymbolIndex()) == Value(s)
    requires e.rel.Type() !in {2, 10, 24}
    ensures Effect(img, m, e) == m
  {
    ResolvedJudge(img, e, s);
    hide SymbolValue, Judge, Place, Wrap, Store, Load;
  }

  /** What an entry does whose symbol does not resolve, or resolves to 2^64 - 1: it divides by zero if the
      section searched has records of size 0, and is refused otherwise. Memory stays as it is. */
  lemma UnresolvedEntry(img: Image, e: Item, m: seq<byte>, idx: u32, t: u32)
    requires e.Entry? && |m| == W64 && e.rel.info == idx * 0x1_0000_0000 + t
    requires forall s: u64 :: ResolvesTo(img, e.link, idx, s) ==> s == 0xffff_ffff_ffff_ffff
    ensures Effect(img, m, e) == m && Stops(img, e)
    ensures Judge(img, e).Traps? <==> img.SectionAt(idx).entsize == 0
  {
    InfoHalves(e.rel, idx, t);
    assert !ResolvesTo(img, e.link, idx, 0);
    var table := img.SectionAt(idx);
    if table.entsize > 0 {
      RecordFits(table.size, table.entsize, idx);
      if idx < table.size / table.entsize {
        var symbol := img.symbolAt(table.offset, idx);
        var v := if symbol.shndx == 0 then 0 else if symbol.shndx == 0xfff1 then symbol.value
                 else (img.base + symbol.value + img.SectionAt(symbol.shndx).offset) % 0x1_0000_0000_0000_0000;
        assert ResolvesTo(img, e.link, idx, v);
        ValueOfSymbol(img, e.link, idx, v);
      }
    }
    assert RELOC_ERR == 0xffff_ffff_ffff_ffff && Rejected(RELOC_ERR);
  }

  // ----- the work list

  /** How many items section `s` contributes: one for each whole record of a section of type 9, or a
      division by zero if records have size 0. */
  function ItemCount(s: Section): nat {
    if s.kind != 9 then 0 else if s.entsize == 0 then 1 else s.size / s.entsize
  }

  /** How many items come from the first `n` sections. */
  function ItemsBefore(sections: seq<Section>, n: nat): nat
    requires n <= |sections|
  {
    if n == 0 then 0 else ItemsBefore(sections, n - 1) + ItemCount(sections[n - 1])
  }

  lemma {:induction false} ItemsSplit(img: Image, i: nat)
    requires i <= |img.sections|
    ensures |Items(img)| == ItemsBefore(img.sections, i) + |ItemsFrom(img, i)|
    ensures Items(img)[ItemsBefore(img.sections, i)..] == ItemsFrom(img, i)
  {
    hide SectionItems;
    if i > 0 {
      ItemsSplit(img, i - 1);
      SectionItemCount(img, img.sections[i - 1]);
      var n, k := ItemsBefore(img.sections, i - 1), ItemCount(img.sections[i - 1]);
      assert ItemsFrom(img, i - 1)[k..] == ItemsFrom(img, i);
      assert Items(img)[n..][k..] == Items(img)[n + k..];
    }
  }

  lemma SectionItemCount(img: Image, s: Section)
    ensures |SectionItems(img, s)| == ItemCount(s)
  {}

  /** The pass goes through the sections in order, and through the records of each in order. */
  lemma ItemIs(img: Image, i: nat, k: nat)
    requires i < |img.sections| && img.sections[i].kind == 9
    requires var s := img.sections[i]; s.entsize == 0 ==> k == 0
    requires var s := img.sections[i]; s.entsize > 0 ==> (k + 1) * s.entsize <= s.size
    ensures var s := img.sections[i];
            var n := ItemsBefore(img.sections, i) + k;
            && n < |Items(img)|
            && Items(img)[n] == if s.entsize == 0 then DivisionByZero else Entry(img.relAt(s.offset, k), s.link, s.info)
    ensures |Items(img)| == ItemsBefore(img.sections, |img.sections|)
  {
    var s := img.sections[i];
    ItemsSplit(img, i);
    ItemsSplit(img, |img.sections|);
    FirstItems(img, i);
    if s.entsize > 0 {
      RecordFits(s.size, s.entsize, k);
    }
    hide SectionItems, Items, ItemsFrom, ItemsBefore;
    assert Items(img)[ItemsBefore(img.sections, i)..][k] == SectionItems(img, s)[k];
  }

  lemma FirstItems(img: Image, i: nat)
    requires i < |img.sections| && img.sections[i].kind == 9
    ensures var s := img.sections[i];
            && |SectionItems(img, s)| == ItemCount(s)
            && ItemsFrom(img, i) == SectionItems(img, s) + ItemsFrom(img, i + 1)
            && (s.entsize == 0 ==> SectionItems(img, s) == [DivisionByZero])
            && (s.entsize > 0 ==> forall k :: 0 <= k < s.size / s.entsize ==>
                  SectionItems(img, s)[k] == Entry(img.relAt(s.offset, k), s.link, s.info))
    ensures |ItemsFrom(img, |img.sections|)| == 0
  {}

  // ----- stage 1

  /** A section is placed exactly if its type is 8, its size is not 0, and bit 1 of its flags is set: with
      the flags written as 4 q + r, if r is 2 or 3. */
  lemma NeedsMemoryIff(s: Section, q: nat, r: nat)
    requires s.flags == 4 * q + r && r < 4
    ensures NeedsMemory(s) <==> s.kind == 8 && s.size > 0 && (r == 2 || r == 3)
  {
    assert s.flags / 2 == 2 * q + r / 2;
  }

  /** Stage 1 makes the offset of a placed section lead from the image to its block, and changes no other
      field of any header. */
  lemma HeadersAfterStage1(img: Image, malloc: nat -> u64, i: nat)
    requires i < |img.sections|
    ensures var s, s' := img.sections[i], AfterStage1(img, malloc).sections[i];
            && s'.kind == s.kind && s'.flags == s.flags && s'.size == s.size
            && s'.link == s.link && s'.info == s.info && s'.entsize == s.entsize
            && (!NeedsMemory(s) ==> s'.offset == s.offset)
            && (NeedsMemory(s) ==>
                  (img.base + s'.offset) % 0x1_0000_0000_0000_0000 == Block(img.sections, malloc, i))
    ensures |AfterStage1(img, malloc).sections| == |img.sections|
  {
    hide NeedsMemory;
    var block := Block(img.sections, malloc, i);
    PlacedAddress(img.base, block, 0);
    WrapMeans(img.base + 0 + Wrap(block - img.base));
    WrapIsIdentity(block);
  }

  /** Blocks go to the sections that are placed, in order. */
  lemma {:induction false} BlockIs(sections: seq<Section>, malloc: nat -> u64, i: nat)
    requires i <= |sections|
    ensures Block(sections, malloc, i) == malloc(|set j: nat | j < i && NeedsMemory(sections[j])|)
  {
    NeedyIs(sections, i);
  }

  lemma {:induction false} NeedyIs(sections: seq<Section>, n: nat)
    requires n <= |sections|
    ensures Needy(sections, n) == |set j: nat | j < n && NeedsMemory(sections[j])|
  {
    hide NeedsMemory;
    var placed := set j: nat | j < n && NeedsMemory(sections[j]);
    if n == 0 {
      assert placed == {};
    } else {
      NeedyIs(sections, n - 1);
      var before := set j: nat | j < n - 1 && NeedsMemory(sections[j]);
      assert placed == before + (if NeedsMemory(sections[n - 1]) then {n - 1} else {});
    }
  }
}
