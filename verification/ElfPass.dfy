/** What the relocation pass as a whole does: when it stops and what it has done by then, and that
    entries only ever add to the word they patch and so may run in any order. */
module ElfPass {
  import opened Words
  import opened Elf

  // ----- where the pass stops

  /** How many items come before the first that stops the pass. */
  function FirstStop(img: Image, items: seq<Item>): (k: nat)
    ensures k <= |items|
    ensures forall i :: 0 <= i < k ==> !Stops(img, items[i])
    ensures k < |items| ==> Stops(img, items[k])
  {
    if items == [] || Stops(img, items[0]) then 0 else 1 + FirstStop(img, items[1..])
  }

  /** The exact outcome: everything before the first stopping item is applied in full, that item
      itself is applied unless it trapped, and nothing after it is applied. */
  lemma {:induction false} PassExact(img: Image, items: seq<Item>, m: seq<byte>)
    requires |m| == W64
    ensures var k := FirstStop(img, items);
            Pass(img, items, m) ==
            if k == |items| then (Done, ApplyAll(img, items, m))
            else if Judge(img, items[k]).Traps? then (Trapped, ApplyAll(img, items[..k], m))
            else (Failed, Effect(img, ApplyAll(img, items[..k], m), items[k]))
  {
    hide Effect;
    if items != [] && !Stops(img, items[0]) {
      var m' := Effect(img, m, items[0]);
      PassExact(img, items[1..], m');
      var k := FirstStop(img, items);
      if k < |items| {
        assert items[..k][1..] == items[1..][..k - 1];
      }
    }
  }

  /** The pass returns 0 iff no item stops it, and -1 iff some item's result has its low 32 bits all
      ones and no division by zero comes first. */
  lemma OutcomeIff(img: Image, items: seq<Item>, m: seq<byte>)
    requires |m| == W64
    ensures Pass(img, items, m).0.Done? <==> forall i :: 0 <= i < |items| ==> !Stops(img, items[i])
    ensures Pass(img, items, m).0.Failed? <==>
            exists k :: 0 <= k < |items| && !Judge(img, items[k]).Traps? && Rejected(Judge(img, items[k]).result)
                     && forall i :: 0 <= i < k ==> !Judge(img, items[i]).Traps?
  {
    PassExact(img, items, m);
  }

  predicate Supported(t: nat) {
    t in {R_X86_64_NONE, R_X86_64_32, R_X86_64_PC32, R_X86_64_PC64}
  }

  /** Why an entry stops the pass. An index out of range and an unsupported type always do, and
      leave memory alone. A resolved, supported entry does exactly when the value of its symbol
      ends in 32 one bits, and then it has patched its place all the same, unless that value is
      2^64 - 1, which is taken for a failed lookup. */
  lemma StopReasons(img: Image, e: Item, m: seq<byte>)
    requires e.Entry? && |m| == W64
    ensures var idx := e.rel.SymbolIndex();
            var searched := idx != 0 && e.link != 0;
            var sec := img.SectionAt(idx);
            var traps := searched && sec.entsize == 0;
            var outOfRange := searched && sec.entsize != 0 && idx >= sec.size / sec.entsize;
            && (Judge(img, e).Traps? <==> traps)
            && (!traps && (outOfRange || !Supported(e.rel.Type())) ==>
                  Stops(img, e) && Effect(img, m, e) == m)
            && (!traps && !outOfRange && Supported(e.rel.Type()) ==>
                  var s := if idx == 0 then 0 else SymbolValue(img, e.link, idx).v;
                  && (Stops(img, e) <==> s % W32 == W32 - 1)
                  && (Judge(img, e).Patches? <==> s != W64 - 1 && e.rel.Type() != R_X86_64_NONE))
  {}

  /** The formulas of section 4.4 of the System V AMD64 psABI, with the addend A taken from the place P
      itself: an absolute entry leaves S + A there, a pc-relative one S + A - P. */
  lemma EntryFollowsFormula(img: Image, e: Item, m: seq<byte>, s: u64)
    requires e.Entry? && |m| == W64
    requires if e.rel.SymbolIndex() == 0 then s == 0 else SymbolValue(img, e.link, e.rel.SymbolIndex()) == Value(s)
    requires s != RELOC_ERR && e.rel.Type() in {R_X86_64_32, R_X86_64_PC32, R_X86_64_PC64}
    ensures var p := Place(img, e);
            var a := Load(m, p);
            Load(Effect(img, m, e), p) == Wrap(if e.rel.Type() == R_X86_64_32 then s + a else s + a - p)
  {
    hide *;
    var p := Place(img, e);
    var a := Load(m, p);
    var addend := if e.rel.Type() == R_X86_64_32 then s else Wrap(s - p);
    VerdictOnFormula(img, e, m, s, addend);
    LoadAfterStore(m, p, Plus(a, addend));
    FormulaSum(s, a, p);
  }

  lemma VerdictOnFormula(img: Image, e: Item, m: seq<byte>, s: u64, addend: u64)
    requires e.Entry? && |m| == W64
    requires if e.rel.SymbolIndex() == 0 then s == 0 else SymbolValue(img, e.link, e.rel.SymbolIndex()) == Value(s)
    requires s != RELOC_ERR && e.rel.Type() in {R_X86_64_32, R_X86_64_PC32, R_X86_64_PC64}
    requires addend == if e.rel.Type() == R_X86_64_32 then s else Wrap(s - Place(img, e))
    ensures Effect(img, m, e) == Store(m, Place(img, e), Plus(Load(m, Place(img, e)), addend))
  {
    assert Judge(img, e) == Patches(addend, s);
  }

  lemma FormulaSum(s: u64, a: u64, p: u64)
    ensures Plus(a, s) == Wrap(s + a)
    ensures Plus(a, Wrap(s - p)) == Wrap(s + a - p)
  {
    WrapOfWrap(s - p, a);
  }

  // ----- relocation is addition

  predicate PatchesAt(img: Image, e: Item, t: u64) {
    Judge(img, e).Patches? && Place(img, e) == t
  }

  /** Every item patches the word at `t` or a word that shares no byte with it. */
  ghost predicate Apart(img: Image, items: seq<Item>, t: u64) {
    forall e :: e in items && Judge(img, e).Patches? ==> Place(img, e) == t || Disjoint(Place(img, e), t)
  }

  /** Patched words are pairwise equal or disjoint. */
  ghost predicate AllApart(img: Image, items: seq<Item>) {
    forall e :: e in items && Judge(img, e).Patches? ==> Apart(img, items, Place(img, e))
  }

  function AddendAt(img: Image, e: Item, t: u64): u64 {
    if PatchesAt(img, e, t) then Addend(img, e) else 0
  }

  /** The sum of what the items add at `t`. */
  function SumAt(img: Image, items: seq<Item>, t: u64): int {
    if items == [] then 0
    else AddendAt(img, items[0], t) + SumAt(img, items[1..], t)
  }

  lemma EffectAdds(img: Image, m: seq<byte>, e: Item, t: u64)
    requires |m| == W64
    requires Judge(img, e).Patches? ==> Place(img, e) == t || Disjoint(Place(img, e), t)
    ensures Load(Effect(img, m, e), t) == Plus(Load(m, t), AddendAt(img, e, t))
  {
    if Judge(img, e).Patches? {
      var p := Place(img, e);
      var w := Plus(Load(m, p), Addend(img, e));
      if p == t {
        LoadAfterStore(m, t, w);
      } else {
        LoadApartFromStore(m, p, w, t);
        WrapIsIdentity(Load(m, t));
      }
    } else {
      WrapIsIdentity(Load(m, t));
    }
  }

  lemma ApartTail(img: Image, items: seq<Item>, t: u64)
    requires Apart(img, items, t) && items != []
    ensures Judge(img, items[0]).Patches? ==> Place(img, items[0]) == t || Disjoint(Place(img, items[0]), t)
    ensures Apart(img, items[1..], t)
  {
    assert items[0] in items && forall x :: x in items[1..] ==> x in items;
  }

  lemma NothingAdds(img: Image, m: seq<byte>, t: u64)
    requires |m| == W64
    ensures Load(ApplyAll(img, [], m), t) == Plus(Load(m, t), SumAt(img, [], t))
  {
    WrapIsIdentity(Load(m, t));
  }

  /** A patched word ends as its old value plus the sum of its entries' contributions. */
  lemma {:induction false} RelocationAdds(img: Image, items: seq<Item>, m: seq<byte>, t: u64)
    requires |m| == W64 && Apart(img, items, t)
    ensures Load(ApplyAll(img, items, m), t) == Plus(Load(m, t), SumAt(img, items, t))
  {
    hide *;
    if items == [] {
      NothingAdds(img, m, t);
    } else {
      ApartTail(img, items, t);
      EffectAdds(img, m, items[0], t);
      RelocationAdds(img, items[1..], Effect(img, m, items[0]), t);
      RelocationAddsStep(img, items, m, t);
    }
  }

  lemma UnfoldPass(img: Image, items: seq<Item>, m: seq<byte>, t: u64)
    requires |m| == W64 && items != []
    ensures ApplyAll(img, items, m) == ApplyAll(img, items[1..], Effect(img, m, items[0]))
    ensures SumAt(img, items, t) == AddendAt(img, items[0], t) + SumAt(img, items[1..], t)
  {}

  lemma RelocationAddsStep(img: Image, items: seq<Item>, m: seq<byte>, t: u64)
    requires |m| == W64 && items != []
    requires Load(Effect(img, m, items[0]), t) == Plus(Load(m, t), AddendAt(img, items[0], t))
    requires var m' := Effect(img, m, items[0]);
             Load(ApplyAll(img, items[1..], m'), t) == Plus(Load(m', t), SumAt(img, items[1..], t))
    ensures Load(ApplyAll(img, items, m), t) == Plus(Load(m, t), SumAt(img, items, t))
  {
    hide *;
    UnfoldPass(img, items, m, t);
    PlusAssociates(Load(m, t), AddendAt(img, items[0], t), SumAt(img, items[1..], t), SumAt(img, items, t));
  }

  /** A byte that belongs to no patched word keeps its value. */
  lemma {:induction false} RelocationFrame(img: Image, items: seq<Item>, m: seq<byte>, i: u64)
    requires |m| == W64
    requires forall e :: e in items && Judge(img, e).Patches? ==> Dist(Place(img, e), i) >= 8
    ensures ApplyAll(img, items, m)[i] == m[i]
  {
    if items != [] {
      assert items[0] in items && forall x :: x in items[1..] ==> x in items;
      RelocationFrame(img, items[1..], Effect(img, m, items[0]), i);
    }
  }

  /** That is so whatever the outcome of the pass. */
  lemma {:induction false} PassFrame(img: Image, items: seq<Item>, m: seq<byte>, i: u64)
    requires |m| == W64
    requires forall e :: e in items && Judge(img, e).Patches? ==> Dist(Place(img, e), i) >= 8
    ensures Pass(img, items, m).1[i] == m[i]
  {
    if items != [] {
      assert items[0] in items && forall x :: x in items[1..] ==> x in items;
      hide Judge, Place, Dist;
      EffectFrame(img, m, items[0], i);
      PassFrame(img, items[1..], Effect(img, m, items[0]), i);
    }
  }

  lemma EffectFrame(img: Image, m: seq<byte>, e: Item, i: u64)
    requires |m| == W64 && (Judge(img, e).Patches? ==> Dist(Place(img, e), i) >= 8)
    ensures Effect(img, m, e)[i] == m[i]
  {}

  /** What a successful pass leaves: every patched word holds its old value plus what its entries add,
      and every byte of no patched word is as before. */
  lemma SuccessfulPass(img: Image, items: seq<Item>, m: seq<byte>)
    requires |m| == W64 && AllApart(img, items) && Pass(img, items, m).0.Done?
    ensures var m' := Pass(img, items, m).1;
            && (forall e :: e in items && Judge(img, e).Patches? ==>
                  Load(m', Place(img, e)) == Plus(Load(m, Place(img, e)), SumAt(img, items, Place(img, e))))
            && (forall i: u64 :: (forall e :: e in items && Judge(img, e).Patches? ==> Dist(Place(img, e), i) >= 8) ==>
                  m'[i] == m[i])
  {
    OutcomeIff(img, items, m);
    PassExact(img, items, m);
    hide Load, Judge, Place, ApplyAll, Pass, SumAt, Plus;
    forall e | e in items && Judge(img, e).Patches?
      ensures Load(ApplyAll(img, items, m), Place(img, e)) ==
              Plus(Load(m, Place(img, e)), SumAt(img, items, Place(img, e)))
    {
      RelocationAdds(img, items, m, Place(img, e));
    }
    forall i: u64 | forall e :: e in items && Judge(img, e).Patches? ==> Dist(Place(img, e), i) >= 8
      ensures ApplyAll(img, items, m)[i] == m[i]
    {
      RelocationFrame(img, items, m, i);
    }
  }

  // ----- order does not matter

  lemma {:induction false} SumOfConcat(img: Image, a: seq<Item>, b: seq<Item>, t: u64)
    ensures SumAt(img, a + b, t) == SumAt(img, a, t) + SumAt(img, b, t)
  {
    if a == [] {
      assert a + b == b;
    } else {
      assert (a + b)[1..] == a[1..] + b;
      SumOfConcat(img, a[1..], b, t);
    }
  }

  function Without(s: seq<Item>, j: nat): seq<Item>
    requires j < |s|
  {
    s[..j] + s[j + 1..]
  }

  lemma SumOfWithout(img: Image, s: seq<Item>, j: nat, t: u64)
    requires j < |s|
    ensures SumAt(img, s, t) == AddendAt(img, s[j], t) + SumAt(img, Without(s, j), t)
  {
    assert s == s[..j] + s[j..] && s[j..][0] == s[j] && s[j..][1..] == s[j + 1..];
    SumOfConcat(img, s[..j], s[j..], t);
    SumOfConcat(img, s[..j], s[j + 1..], t);
  }

  lemma MultisetOfWithout(s: seq<Item>, j: nat)
    requires j < |s|
    ensures multiset(Without(s, j)) == multiset(s) - multiset{s[j]}
  {
    assert s == s[..j] + ([s[j]] + s[j + 1..]);
  }

  lemma {:induction false} SumPermutes(img: Image, a: seq<Item>, b: seq<Item>, t: u64)
    requires multiset(a) == multiset(b)
    ensures SumAt(img, a, t) == SumAt(img, b, t)
  {
    if a == [] {
      assert |b| == |multiset(b)| == 0;
    } else {
      assert a[0] in multiset(b);
      var j :| 0 <= j < |b| && b[j] == a[0];
      MultisetOfWithout(a, 0);
      MultisetOfWithout(b, j);
      assert Without(a, 0) == a[1..];
      SumPermutes(img, a[1..], Without(b, j), t);
      SumOfWithout(img, b, j, t);
    }
  }

  lemma SameMembers(a: seq<Item>, b: seq<Item>)
    requires multiset(a) == multiset(b)
    ensures forall e :: e in a <==> e in b
  {
    assert forall e :: e in a <==> e in multiset(a);
    assert forall e :: e in b <==> e in multiset(b);
  }

  /** A patched word depends only on which entries there are. */
  lemma PermutedWord(img: Image, a: seq<Item>, b: seq<Item>, m: seq<byte>, t: u64)
    requires |m| == W64 && Apart(img, a, t) && Apart(img, b, t) && multiset(a) == multiset(b)
    ensures Load(ApplyAll(img, a, m), t) == Load(ApplyAll(img, b, m), t)
  {
    hide *;
    RelocationAdds(img, a, m, t);
    RelocationAdds(img, b, m, t);
    SumPermutes(img, a, b, t);
  }

  lemma PermutedByte(img: Image, a: seq<Item>, b: seq<Item>, m: seq<byte>, i: u64)
    requires |m| == W64 && AllApart(img, a) && multiset(a) == multiset(b)
    ensures ApplyAll(img, a, m)[i] == ApplyAll(img, b, m)[i]
  {
    SameMembers(a, b);
    if e :| e in a && Judge(img, e).Patches? && Dist(Place(img, e), i) < 8 {
      var t := Place(img, e);
      assert Apart(img, a, t);
      PermutedWord(img, a, b, m, t);
      SameWordSameBytes(ApplyAll(img, a, m), ApplyAll(img, b, m), t, Dist(t, i));
      assert Addr(t, Dist(t, i)) == i;
    } else {
      RelocationFrame(img, a, m, i);
      RelocationFrame(img, b, m, i);
    }
  }

  /** Any permutation of the entries leaves the same memory, and succeeds when one of them does. */
  lemma OrderIsIrrelevant(img: Image, a: seq<Item>, b: seq<Item>, m: seq<byte>)
    requires |m| == W64 && AllApart(img, a) && multiset(a) == multiset(b)
    requires Pass(img, a, m).0.Done?
    ensures Pass(img, b, m) == Pass(img, a, m)
  {
    SameMembers(a, b);
    OutcomeIff(img, a, m);
    PassExact(img, a, m);
    forall i | 0 <= i < |b| ensures !Stops(img, b[i]) {
      assert b[i] in b;
    }
    OutcomeIff(img, b, m);
    PassExact(img, b, m);
    forall i: u64 ensures ApplyAll(img, a, m)[i] == ApplyAll(img, b, m)[i] {
      PermutedByte(img, a, b, m, i);
    }
    assert ApplyAll(img, a, m) == ApplyAll(img, b, m);
  }

  /** Every order of the entries gives the same outcome. */
  ghost predicate OutcomeIsFixed(img: Image, a: seq<Item>, m: seq<byte>)
    requires |m| == W64
  {
    forall b: seq<Item> :: multiset(b) == multiset(a) ==> Pass(img, b, m).0 == Pass(img, a, m).0
  }

  lemma ToFront(a: seq<Item>, j: nat)
    requires j < |a|
    ensures multiset([a[j]] + Without(a, j)) == multiset(a)
  {
    MultisetOfWithout(a, j);
  }

  lemma FirstDecides(img: Image, items: seq<Item>, m: seq<byte>)
    requires |m| == W64 && items != []
    ensures Judge(img, items[0]).Traps? ==> Pass(img, items, m).0 == Trapped
    ensures !Judge(img, items[0]).Traps? && Rejected(Judge(img, items[0]).result) ==> Pass(img, items, m).0 == Failed
  {}

  /** The outcome, in terms of which entries there are, if none or all of the stopping ones trap. */
  lemma UnmixedOutcome(img: Image, items: seq<Item>, m: seq<byte>)
    requires |m| == W64
    requires forall e, f :: e in items && f in items && Judge(img, e).Traps? && !Judge(img, f).Traps? ==>
               !Rejected(Judge(img, f).result)
    ensures Pass(img, items, m).0 ==
            if exists e :: e in items && Judge(img, e).Traps? then Trapped
            else if exists e :: e in items && Rejected(Judge(img, e).result) then Failed else Done
  {
    PassExact(img, items, m);
    hide Judge, Rejected;
    if e :| e in items && Stops(img, e) {
      var i :| 0 <= i < |items| && items[i] == e;
    }
  }

  /** The outcome is the same in every order unless some entry traps and another is refused, when the
      first of them decides. */
  lemma OutcomeIsFixedIff(img: Image, a: seq<Item>, m: seq<byte>)
    requires |m| == W64
    ensures OutcomeIsFixed(img, a, m) <==>
            !exists e, f :: e in a && f in a && Judge(img, e).Traps? &&
                            !Judge(img, f).Traps? && Rejected(Judge(img, f).result)
  {
    hide Judge, Rejected, Pass;
    if e, f :| e in a && f in a && Judge(img, e).Traps? && !Judge(img, f).Traps? && Rejected(Judge(img, f).result) {
      var i :| 0 <= i < |a| && a[i] == e;
      var j :| 0 <= j < |a| && a[j] == f;
      ToFront(a, i);
      ToFront(a, j);
      FirstDecides(img, [e] + Without(a, i), m);
      FirstDecides(img, [f] + Without(a, j), m);
    } else {
      forall b: seq<Item> | multiset(b) == multiset(a) ensures Pass(img, b, m).0 == Pass(img, a, m).0 {
        SameMembers(a, b);
        UnmixedOutcome(img, a, m);
        UnmixedOutcome(img, b, m);
      }
    }
  }
}
