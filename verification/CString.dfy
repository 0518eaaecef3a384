/** The memory functions of the C library, working in place on one shared byte memory in which
    the objects they are given may overlap. */
module CString {
  import opened Arith
  import opened Words

  /** The bytes at `src` delivered to `dest`, all read before any is written. */
  function Moved(m: seq<byte>, dest: nat, src: nat, n: nat): (m': seq<byte>)
    requires dest + n <= |m| && src + n <= |m|
    ensures |m'| == |m|
  {
    seq(|m|, k requires 0 <= k < |m| => if dest <= k < dest + n then m[src + (k - dest)] else m[k])
  }

  function Filled(m: seq<byte>, dest: nat, b: byte, n: nat): (m': seq<byte>)
    requires dest + n <= |m|
    ensures |m'| == |m|
  {
    seq(|m|, k requires 0 <= k < |m| => if dest <= k < dest + n then b else m[k])
  }

  /** Where a forward byte-by-byte copy takes the byte it delivers at `dest + i` from. When the
      destination starts inside the source, the copy reads back its own output. */
  function ForwardSource(dest: nat, src: nat, i: nat): (k: nat)
    ensures k <= i
  {
    if src < dest && dest - src <= i then ForwardSource(dest, src, i - (dest - src)) else i
  }

  /** An overlapping forward copy repeats the first `dest - src` bytes of its source. */
  lemma {:induction false} ForwardSourceRepeats(dest: nat, src: nat, i: nat)
    requires src < dest
    ensures ForwardSource(dest, src, i) == i % (dest - src)
  {
    if dest - src <= i {
      ForwardSourceRepeats(dest, src, i - (dest - src));
      ModStep(i, dest - src);
    }
  }

  /** The memory once a forward copy has delivered `n` bytes. */
  function CopiedForward(m: seq<byte>, dest: nat, src: nat, n: nat): (m': seq<byte>)
    requires dest + n <= |m| && src + n <= |m|
    ensures |m'| == |m|
  {
    seq(|m|, k requires 0 <= k < |m| =>
      if dest <= k < dest + n then m[src + ForwardSource(dest, src, k - dest)] else m[k])
  }

  lemma ForwardStep(m: seq<byte>, dest: nat, src: nat, i: nat)
    requires dest + i < |m| && src + i < |m|
    ensures CopiedForward(m, dest, src, i)[dest + i := CopiedForward(m, dest, src, i)[src + i]]
         == CopiedForward(m, dest, src, i + 1)
  {
    assert CopiedForward(m, dest, src, i)[src + i] == m[src + ForwardSource(dest, src, i)];
  }

  method MemCpy(mem: array<byte>, dest: nat, src: nat, n: nat)
    requires dest + n <= mem.Length && src + n <= mem.Length
    modifies mem
    ensures mem[..] == CopiedForward(old(mem[..]), dest, src, n)
  {
    ghost var m := mem[..];
    for i := 0 to n
      invariant mem[..] == CopiedForward(m, dest, src, i)
    {
      ghost var before := mem[..];
      ForwardStep(m, dest, src, i);
      mem[dest + i] := mem[src + i];
      assert mem[..] == before[dest + i := before[src + i]];
    }
  }

  method MemSet(mem: array<byte>, dest: nat, c: int, n: nat)
    requires dest + n <= mem.Length
    modifies mem
    ensures mem[..] == Filled(old(mem[..]), dest, c % 0x100, n)
  {
    for i := 0 to n
      invariant mem[..] == Filled(old(mem[..]), dest, c % 0x100, i)
    {
      mem[dest + i] := c % 0x100;
    }
  }

  /** One step of the copy upwards from the low end, for a destination below the source. */
  lemma UpStep(m: seq<byte>, dest: nat, src: nat, i: nat)
    requires dest < src && src + i < |m|
    ensures Moved(m, dest, src, i)[dest + i := Moved(m, dest, src, i)[src + i]] == Moved(m, dest, src, i + 1)
  {}

  /** One step of the copy downwards from the high end, for a destination above the source. */
  lemma DownStep(m: seq<byte>, dest: nat, src: nat, i: nat, n: nat)
    requires src < dest && i < n && dest + n <= |m|
    ensures var m1 := Moved(m, dest + (i + 1), src + (i + 1), n - (i + 1));
            m1[dest + i := m1[src + i]] == Moved(m, dest + i, src + i, n - i)
  {}

  method MemMove(mem: array<byte>, dest: nat, src: nat, n: nat)
    requires dest + n <= mem.Length && src + n <= mem.Length
    modifies mem
    ensures mem[..] == Moved(old(mem[..]), dest, src, n)
  {
    ghost var m := mem[..];
    if src > dest {
      assert Moved(m, dest, src, 0) == m;
      for i := 0 to n
        invariant mem[..] == Moved(m, dest, src, i)
      {
        ghost var before := mem[..];
        UpStep(m, dest, src, i);
        mem[dest + i] := mem[src + i];
        assert mem[..] == before[dest + i := before[src + i]];
      }
    } else if src < dest {
      assert Moved(m, dest + n, src + n, 0) == m;
      for i := n downto 0
        invariant mem[..] == Moved(m, dest + i, src + i, n - i)
      {
        ghost var before := mem[..];
        DownStep(m, dest, src, i, n);
        mem[dest + i] := mem[src + i];
        assert mem[..] == before[dest + i := before[src + i]];
      }
    } else {
      assert Moved(m, dest, src, n) == m;
    }
  }

  /** memcpy delivers what memmove delivers, in every memory, exactly when the destination does
      not start strictly inside the source. */
  lemma MemCpyIsMemMoveIff(size: nat, dest: nat, src: nat, n: nat)
    requires dest + n <= size && src + n <= size
    ensures (forall m: seq<byte> :: |m| == size ==> CopiedForward(m, dest, src, n) == Moved(m, dest, src, n))
       <==> !(src < dest < src + n)
  {
    if src < dest < src + n {
      var d := dest - src;
      var m: seq<byte> := seq(size, i => if i == src then 1 else 0);
      assert ForwardSource(dest, src, d) == ForwardSource(dest, src, 0) == 0;
      assert CopiedForward(m, dest, src, n)[dest + d] == m[src];
      assert Moved(m, dest, src, n)[dest + d] == m[src + d];
    } else {
      forall m: seq<byte> | |m| == size
        ensures CopiedForward(m, dest, src, n) == Moved(m, dest, src, n)
      {
        forall k | 0 <= k < size ensures CopiedForward(m, dest, src, n)[k] == Moved(m, dest, src, n)[k] {
          assert dest <= k < dest + n ==> ForwardSource(dest, src, k - dest) == k - dest;
        }
      }
    }
  }

  // ----- comparison

  /** Lexicographic order of two byte strings of equal length: -1, 0 or 1. */
  function Compare(a: seq<byte>, b: seq<byte>): int
    requires |a| == |b|
  {
    if a == [] then 0
    else if a[0] != b[0] then (if a[0] < b[0] then -1 else 1)
    else Compare(a[1..], b[1..])
  }

  method MemCmp(mem: array<byte>, s1: nat, s2: nat, n: nat) returns (r: int)
    requires s1 + n <= mem.Length && s2 + n <= mem.Length
    ensures r == Compare(mem[s1..s1 + n], mem[s2..s2 + n])
  {
    for i := 0 to n
      invariant Compare(mem[s1..s1 + n], mem[s2..s2 + n]) == Compare(mem[s1 + i..s1 + n], mem[s2 + i..s2 + n])
    {
      if mem[s1 + i] != mem[s2 + i] {
        return if mem[s1 + i] < mem[s2 + i] then -1 else 1;
      }
      assert mem[s1 + i..s1 + n][1..] == mem[s1 + i + 1..s1 + n];
      assert mem[s2 + i..s2 + n][1..] == mem[s2 + i + 1..s2 + n];
    }
    return 0;
  }

  /** memcmp is a total order on byte strings of one length. */
  lemma {:induction false} CompareIsTotalOrder(a: seq<byte>, b: seq<byte>, c: seq<byte>)
    requires |a| == |b| == |c|
    ensures Compare(a, b) == 0 <==> a == b
    ensures Compare(a, b) == -Compare(b, a)
    ensures Compare(a, b) <= 0 && Compare(b, c) <= 0 ==> Compare(a, c) <= 0
  {
    if a != [] {
      CompareIsTotalOrder(a[1..], b[1..], c[1..]);
      assert a == [a[0]] + a[1..] && b == [b[0]] + b[1..];
    }
  }

  /** It is the lexicographic one: a negative result means a first difference that goes down. */
  lemma {:induction false} CompareIsLexicographic(a: seq<byte>, b: seq<byte>)
    requires |a| == |b|
    ensures Compare(a, b) in {-1, 0, 1}
    ensures Compare(a, b) < 0 <==> exists k :: 0 <= k < |a| && a[..k] == b[..k] && a[k] < b[k]
  {
    if a != [] && a[0] == b[0] {
      CompareIsLexicographic(a[1..], b[1..]);
      if Compare(a, b) < 0 {
        var k :| 0 <= k < |a| - 1 && a[1..][..k] == b[1..][..k] && a[1..][k] < b[1..][k];
        assert a[..k + 1] == [a[0]] + a[1..][..k] && b[..k + 1] == [b[0]] + b[1..][..k];
      }
      forall k | 0 <= k < |a| && a[..k] == b[..k] && a[k] < b[k]
        ensures Compare(a, b) < 0
      {
        assert a[1..][..k - 1] == a[..k][1..] && b[1..][..k - 1] == b[..k][1..];
      }
    } else if a != [] && a[0] < b[0] {
      assert a[..0] == b[..0];
    } else if a != [] {
      assert forall k {:trigger a[..k]} :: 0 < k < |a| ==> a[..k][0] == a[0] && b[..k][0] == b[0];
    }
  }
}
