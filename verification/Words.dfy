/** Fixed-width words as the C++ code uses them on a little-endian host. */
module Words {

  const U32: int := 0x1_0000_0000
  const U64: int := 0x1_0000_0000_0000_0000
  const INT_MAX: int := 0x7FFF_FFFF

  type u8 = x: int | 0 <= x < 0x100
  type u16 = x: int | 0 <= x < 0x1_0000
  type u32 = x: int | 0 <= x < 0x1_0000_0000
  type u64 = x: int | 0 <= x < 0x1_0000_0000_0000_0000

  /** A 32-bit `int` holding `n`, wrapped around. */
  function AsInt(n: int): int {
    (n + INT_MAX + 1) % U32 - INT_MAX - 1
  }

  lemma AsIntSuccessor(n: int)
    ensures AsInt(AsInt(n) + 1) == AsInt(n + 1)
    ensures -INT_MAX - 1 <= AsInt(n) <= INT_MAX
  {
  }

  /** What makes it a 32-bit `int`: every value it has is itself, and 2^32 further on it starts again. */
  lemma AsIntPeriod(n: int)
    ensures -0x8000_0000 <= n <= 0x7FFF_FFFF ==> AsInt(n) == n
    ensures AsInt(n + 0x1_0000_0000) == AsInt(n)
  {
    var q, r := (n + INT_MAX + 1) / U32, (n + INT_MAX + 1) % U32;
    assert n + U32 + INT_MAX + 1 == U32 * (q + 1) + r;
  }

  /** `ntohs` on a little-endian host. */
  function Swap16(x: u16): u16 {
    x / 0x100 + 0x100 * (x % 0x100)
  }

  /** Byte `k` of a word in memory order: `(x >> 8 * k) & 0xFF`. */
  function Octet(x: u32, k: nat): u8
    requires k < 4
  {
    if k == 0 then x % 0x100 else Octet(x / 0x100, k - 1)
  }

  function FromOctets(a: u8, b: u8, c: u8, d: u8): u32 {
    a + 0x100 * (b + 0x100 * (c + 0x100 * d))
  }

  /** `ntohl` on a little-endian host: the four bytes in reverse order. */
  function Swap32(x: u32): u32 {
    FromOctets(Octet(x, 3), Octet(x, 2), Octet(x, 1), Octet(x, 0))
  }

  lemma LowByte(low: u8, high: nat)
    ensures (low + 0x100 * high) % 0x100 == low && (low + 0x100 * high) / 0x100 == high
  {
  }

  lemma OctetsInverse(a: u8, b: u8, c: u8, d: u8)
    ensures var x := FromOctets(a, b, c, d);
            Octet(x, 0) == a && Octet(x, 1) == b && Octet(x, 2) == c && Octet(x, 3) == d
  {
    LowByte(a, b + 0x100 * (c + 0x100 * d));
    LowByte(b, c + 0x100 * d);
    LowByte(c, d);
    var x := FromOctets(a, b, c, d);
    assert Octet(x, 1) == Octet(x / 0x100, 0);
    assert Octet(x, 2) == Octet(x / 0x100, 1) == Octet(x / 0x100 / 0x100, 0);
    assert Octet(x, 3) == Octet(x / 0x100, 2) == Octet(x / 0x100 / 0x100, 1) == Octet(x / 0x100 / 0x100 / 0x100, 0);
  }

  lemma OctetsDetermine(x: u32)
    ensures FromOctets(Octet(x, 0), Octet(x, 1), Octet(x, 2), Octet(x, 3)) == x
  {
    var x1 := x / 0x100;
    var x2 := x1 / 0x100;
    var x3 := x2 / 0x100;
    assert x == Octet(x, 0) + 0x100 * x1;
    assert x1 == Octet(x1, 0) + 0x100 * x2 && Octet(x, 1) == Octet(x1, 0);
    assert x2 == Octet(x2, 0) + 0x100 * x3 && Octet(x, 2) == Octet(x1, 1) == Octet(x2, 0);
    assert x3 < 0x100 && Octet(x, 3) == Octet(x1, 2) == Octet(x2, 1) == Octet(x3, 0) == x3;
  }

  lemma Swap16Involution(x: u16)
    ensures Swap16(Swap16(x)) == x
  {
    LowByte(x / 0x100, x % 0x100);
  }

  /** `ntohl` reverses the order of the four bytes. */
  lemma Swap32Reverses(x: u32)
    ensures Octet(Swap32(x), 3) == Octet(x, 0)
    ensures Octet(Swap32(x), 2) == Octet(x, 1)
    ensures Octet(Swap32(x), 1) == Octet(x, 2)
    ensures Octet(Swap32(x), 0) == Octet(x, 3)
  {
    OctetsInverse(Octet(x, 3), Octet(x, 2), Octet(x, 1), Octet(x, 0));
  }

  /** Bitwise or of two naturals, bit by bit. */
  function BitOr(a: nat, b: nat): nat
    decreases a + b
  {
    if a == 0 && b == 0 then 0
    else 2 * BitOr(a / 2, b / 2) + (if a % 2 == 1 || b % 2 == 1 then 1 else 0)
  }

  /** Bit `k` of a natural. */
  predicate Bit(a: nat, k: nat) {
    if k == 0 then a % 2 == 1 else Bit(a / 2, k - 1)
  }

  lemma {:induction false} BitOrBits(a: nat, b: nat, k: nat)
    ensures Bit(BitOr(a, b), k) <==> Bit(a, k) || Bit(b, k)
    decreases k
  {
    if k > 0 {
      BitOrBits(a / 2, b / 2, k - 1);
    } else {
      assert BitOr(a, b) % 2 == if a % 2 == 1 || b % 2 == 1 then 1 else 0;
    }
  }

  function Pow2(k: nat): nat {
    if k == 0 then 1 else 2 * Pow2(k - 1)
  }

  lemma {:induction false} Pow2Sum(a: nat, b: nat)
    ensures Pow2(a + b) == Pow2(a) * Pow2(b)
  {
    if a > 0 {
      Pow2Sum(a - 1, b);
    }
  }

  lemma Pow2Bytes()
    ensures Pow2(8) == 0x100 && Pow2(16) == 0x1_0000 && Pow2(24) == 0x100_0000 && Pow2(32) == U32
  {
    hide Pow2;
    Pow2Nibble();
    Pow2Sum(4, 4);
    Pow2Sum(8, 8);
    Pow2Sum(16, 8);
    Pow2Sum(16, 16);
  }

  lemma Pow2Nibble()
    ensures Pow2(4) == 16
  {
  }

  /** Or-ing a value shifted past every bit of `low` is addition. */
  lemma {:induction false} BitOrDisjoint(high: nat, low: nat, k: nat)
    requires low < Pow2(k)
    ensures BitOr(high * Pow2(k), low) == high * Pow2(k) + low
    decreases k, high
  {
    if k == 0 {
      BitOrZero(high);
    } else {
      var p := Pow2(k - 1);
      assert high * Pow2(k) == 2 * (high * p);
      BitOrDisjoint(high, low / 2, k - 1);
    }
  }

  lemma {:induction false} BitOrZero(a: nat)
    ensures BitOr(a, 0) == a
  {
    if a > 0 {
      BitOrZero(a / 2);
    }
  }
}
