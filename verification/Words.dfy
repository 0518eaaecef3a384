/** Machine words and the byte-addressed 64-bit address space that the ELF loader, the process
    contexts and the C string functions all work on.

    The address space is a sequence of 2^64 bytes; addresses wrap around modulo 2^64, as
    unsigned 64-bit pointer arithmetic does. Words are stored little-endian. */
module Words {
  const W32: nat := 0x1_0000_0000
  const W64: nat := 0x1_0000_0000_0000_0000

  type byte = x: int | 0 <= x < 0x100
  type u16 = x: int | 0 <= x < 0x1_0000
  type u32 = x: int | 0 <= x < 0x1_0000_0000
  type u64 = x: int | 0 <= x < 0x1_0000_0000_0000_0000

  // ----- arithmetic modulo 2^64

  function Wrap(x: int): u64 { x % 0x1_0000_0000_0000_0000 }

  lemma WrapShift(x: int, q: int)
    ensures Wrap(x + 0x1_0000_0000_0000_0000 * q) == Wrap(x)
  {}

  lemma WrapOfWrap(x: int, y: int)
    ensures Wrap(Wrap(x) + y) == Wrap(x + y)
    ensures Wrap(y - Wrap(x)) == Wrap(y - x)
  {
    var q := x / 0x1_0000_0000_0000_0000;
    assert Wrap(x) + y == x + y + 0x1_0000_0000_0000_0000 * (-q);
    WrapShift(x + y, -q);
    assert y - Wrap(x) == y - x + 0x1_0000_0000_0000_0000 * q;
    WrapShift(y - x, q);
  }

  /** Addition modulo 2^64. */
  function Plus(x: int, y: int): u64 { Wrap(x + y) }

  lemma PlusAssociates(x: int, y: int, z: int, yz: int)
    requires yz == y + z
    ensures Plus(Plus(x, y), z) == Plus(x, yz)
  {
    WrapOfWrap(x + y, z);
    assert x + y + z == x + yz;
  }

  /** Addition and subtraction respect equality modulo 2^64. */
  lemma WrapCongruence(x: int, x': int, y: int, y': int)
    requires Wrap(x) == Wrap(x') && Wrap(y) == Wrap(y')
    ensures Wrap(x + y) == Wrap(x' + y')
    ensures Wrap(x - y) == Wrap(x' - y')
  {
    var p := x' / 0x1_0000_0000_0000_0000 - x / 0x1_0000_0000_0000_0000;
    var q := y' / 0x1_0000_0000_0000_0000 - y / 0x1_0000_0000_0000_0000;
    assert x' == x + 0x1_0000_0000_0000_0000 * p && y' == y + 0x1_0000_0000_0000_0000 * q;
    WrapShift(x + y, p + q);
    WrapShift(x - y, p - q);
  }

  lemma WrapIsIdentity(x: u64)
    ensures Wrap(x) == x
  {}

  lemma WrapTwice(x: int)
    ensures Wrap(Wrap(x)) == Wrap(x)
  {}

  /** The address `k` bytes beyond `a`. */
  function Addr(a: u64, k: u64): u64 {
    if a + k < W64 then a + k else a + k - W64
  }

  /** How far address `i` lies beyond address `a`, going upwards. */
  function Dist(a: u64, i: u64): u64 {
    if a <= i then i - a else i - a + W64
  }

  lemma AddrIsWrap(a: u64, k: u64)
    ensures Addr(a, k) == Wrap(a + k)
    ensures Dist(a, k) == Wrap(k - a)
  {}

  // ----- little-endian words

  function Pow256(n: nat): nat
    ensures Pow256(n) > 0
  {
    if n == 0 then 1 else 256 * Pow256(n - 1)
  }

  lemma Pow256Of8()
    ensures Pow256(8) == W64
  {
    assert Pow256(4) == W32;
    assert Pow256(6) == 256 * 256 * Pow256(4);
  }

  function ToBytes(x: nat, n: nat): (s: seq<byte>)
    ensures |s| == n
  {
    if n == 0 then [] else [x % 256] + ToBytes(x / 256, n - 1)
  }

  function FromBytes(s: seq<byte>): nat {
    if s == [] then 0 else s[0] + 256 * FromBytes(s[1..])
  }

  lemma {:induction false} FromToBytes(x: nat, n: nat)
    requires x < Pow256(n)
    ensures FromBytes(ToBytes(x, n)) == x
  {
    if n > 0 {
      FromToBytes(x / 256, n - 1);
    }
  }

  lemma {:induction false} ToFromBytes(s: seq<byte>)
    ensures FromBytes(s) < Pow256(|s|)
    ensures ToBytes(FromBytes(s), |s|) == s
  {
    if s != [] {
      ToFromBytes(s[1..]);
      FirstByte(s[0], FromBytes(s[1..]));
    }
  }

  lemma FirstByte(b: byte, d: nat)
    ensures (b + 256 * d) % 256 == b && (b + 256 * d) / 256 == d
  {}

  // ----- the address space

  function WordBytes(w: u64): (s: seq<byte>)
    ensures |s| == 8
  {
    ToBytes(w, 8)
  }

  /** The eight bytes at `a`, read as one word. */
  function Load(m: seq<byte>, a: u64): (w: u64)
    requires |m| == W64
  {
    var s := seq(8, k requires 0 <= k < 8 => m[Addr(a, k)]);
    ToFromBytes(s);
    Pow256Of8();
    FromBytes(s)
  }

  /** `m` with the eight bytes at `a` replaced by the word `w`. */
  function Store(m: seq<byte>, a: u64, w: u64): (m': seq<byte>)
    requires |m| == W64
    ensures |m'| == W64
  {
    seq(W64, i requires 0 <= i < W64 => if Dist(a, i) < 8 then WordBytes(w)[Dist(a, i)] else m[i])
  }

  /** The words at `a` and `b` share no byte. */
  predicate Disjoint(a: u64, b: u64) { Dist(a, b) >= 8 && Dist(b, a) >= 8 }

  lemma LoadIsWordBytes(m: seq<byte>, a: u64, k: nat)
    requires |m| == W64 && k < 8
    ensures m[Addr(a, k)] == WordBytes(Load(m, a))[k]
  {
    ToFromBytes(seq(8, j requires 0 <= j < 8 => m[Addr(a, j)]));
  }

  lemma SameWordSameBytes(m: seq<byte>, m': seq<byte>, a: u64, k: nat)
    requires |m| == |m'| == W64 && k < 8 && Load(m, a) == Load(m', a)
    ensures m[Addr(a, k)] == m'[Addr(a, k)]
  {
    LoadIsWordBytes(m, a, k);
    LoadIsWordBytes(m', a, k);
  }

  lemma LoadAfterStore(m: seq<byte>, a: u64, w: u64)
    requires |m| == W64
    ensures Load(Store(m, a, w), a) == w
  {
    var s := seq(8, k requires 0 <= k < 8 => Store(m, a, w)[Addr(a, k)]);
    forall k | 0 <= k < 8 ensures s[k] == WordBytes(w)[k] {}
    assert s == WordBytes(w);
    Pow256Of8();
    FromToBytes(w, 8);
  }

  lemma DisjointBytes(a: u64, b: u64, k: nat)
    requires Disjoint(a, b) && k < 8
    ensures Dist(a, Addr(b, k)) >= 8
  {}

  lemma LoadApartFromStore(m: seq<byte>, a: u64, w: u64, b: u64)
    requires |m| == W64 && Disjoint(a, b)
    ensures Load(Store(m, a, w), b) == Load(m, b)
  {
    forall k: nat | k < 8 ensures Store(m, a, w)[Addr(b, k)] == m[Addr(b, k)] {
      DisjointBytes(a, b, k);
    }
    assert seq(8, k requires 0 <= k < 8 => Store(m, a, w)[Addr(b, k)])
        == seq(8, k requires 0 <= k < 8 => m[Addr(b, k)]);
  }

  lemma FromBytesAt(s: seq<byte>, i: nat)
    requires i <= |s|
    ensures FromBytes(s[i..]) == if i == |s| then 0 else s[i] + 0x100 * FromBytes(s[i + 1..])
  {
    assert i < |s| ==> s[i..][1..] == s[i + 1..];
  }

  /** The byte `k` places beyond `a`. */
  function ByteAt(m: seq<byte>, a: u64, k: u64): int
    requires |m| == W64
  {
    m[(a + k) % 0x1_0000_0000_0000_0000]
  }

  /** The byte at the lowest address counts least, and addresses wrap around. */
  lemma LoadIsLittleEndian(m: seq<byte>, a: u64)
    requires |m| == W64
    ensures Load(m, a)
         == ByteAt(m, a, 0) + 0x100 * (ByteAt(m, a, 1) + 0x100 * (ByteAt(m, a, 2) + 0x100 * (ByteAt(m, a, 3)
          + 0x100 * (ByteAt(m, a, 4) + 0x100 * (ByteAt(m, a, 5) + 0x100 * (ByteAt(m, a, 6)
          + 0x100 * ByteAt(m, a, 7)))))))
  {
    var s := seq(8, k requires 0 <= k < 8 => m[Addr(a, k)]);
    assert Load(m, a) == FromBytes(s);
    forall k: u64 | k < 8 ensures s[k] == ByteAt(m, a, k) {}
    hide FromBytes, ByteAt, Addr, Load;
    for i := 0 to 9
      invariant forall k :: 0 <= k < i && k < 8 ==> FromBytes(s[k..]) == s[k] + 0x100 * FromBytes(s[k + 1..])
      invariant i == 9 ==> FromBytes(s[8..]) == 0
    {
      FromBytesAt(s, i);
    }
    assert s[0..] == s;
    EightBytes(s);
  }

  lemma EightBytes(s: seq<byte>)
    requires |s| == 8 && FromBytes(s[8..]) == 0
    requires forall k :: 0 <= k < 8 ==> FromBytes(s[k..]) == s[k] + 0x100 * FromBytes(s[k + 1..])
    ensures FromBytes(s[0..])
         == (s[0] as int) + 0x100 * ((s[1] as int) + 0x100 * ((s[2] as int) + 0x100 * ((s[3] as int)
          + 0x100 * ((s[4] as int) + 0x100 * ((s[5] as int) + 0x100 * ((s[6] as int) + 0x100 * (s[7] as int)))))))
  {
    hide FromBytes;
    assert FromBytes(s[7..]) == (s[7] as int) + 0x100 * FromBytes(s[8..]);
    assert FromBytes(s[6..]) == (s[6] as int) + 0x100 * FromBytes(s[7..]);
    assert FromBytes(s[5..]) == (s[5] as int) + 0x100 * FromBytes(s[6..]);
    assert FromBytes(s[4..]) == (s[4] as int) + 0x100 * FromBytes(s[5..]);
    assert FromBytes(s[3..]) == (s[3] as int) + 0x100 * FromBytes(s[4..]);
    assert FromBytes(s[2..]) == (s[2] as int) + 0x100 * FromBytes(s[3..]);
    assert FromBytes(s[1..]) == (s[1] as int) + 0x100 * FromBytes(s[2..]);
  }

  /** Writes one word into the address space. */
  method StoreWord(mem: array<byte>, a: u64, w: u64)
    requires mem.Length == W64
    modifies mem
    ensures mem[..] == Store(old(mem[..]), a, w)
  {
    forall k | 0 <= k < 8 ensures Dist(a, Addr(a, k)) == k {}
    forall k | 0 <= k < 8 {
      mem[Addr(a, k)] := WordBytes(w)[k];
    }
    forall i: u64 | Dist(a, i) < 8 ensures mem[i] == WordBytes(w)[Dist(a, i)] {}
  }

  method LoadWord(mem: array<byte>, a: u64) returns (w: u64)
    requires mem.Length == W64
    ensures w == Load(mem[..], a)
  {
    w := Load(mem[..], a);
  }
}
