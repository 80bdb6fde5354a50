/** Bit primitives over 64-bit unsigned words (bit.c).

    A word is a natural number below 2^64. Bit positions are numbered from
    the least significant bit (position 0) upwards, as in the C code.
    `c >> p` is modelled by `Shr`, p successive halvings, and `& 1` by `% 2`;
    `c | mask` and `c & ~mask` with the one-bit mask `pow2(p)` are written as
    adding or subtracting 2^p when bit p is respectively clear or set.
 */
module Bit {

  /** 2^64, one more than the largest unsigned long. */
  const WordLimit: nat := 0x1_0000_0000_0000_0000

  /** An unsigned long. */
  type Word = x: nat | x < WordLimit

  /** The mathematical power 2^n. */
  function Pow(n: nat): (r: nat)
    ensures r >= 1
  {
    if n == 0 then 1 else 2 * Pow(n - 1)
  }

  /** `c >> p` on an unsigned value: p halvings. */
  function Shr(c: nat, p: nat): nat
  {
    if p == 0 then c else Shr(c / 2, p - 1)
  }

  /** nb_bits_utile: the number of significant bits of `v` (0 for 0). */
  function NbBitsUtile(v: Word): (r: nat)
    ensures r == 0 <==> v == 0
  {
    if v == 0 then 0 else 1 + NbBitsUtile(v / 2)
  }

  /** A positive value has n significant bits exactly when it lies in
      [2^(n-1), 2^n); a word has at most 64. */
  lemma {:induction false} NbBitsUtileBounds(v: Word)
    ensures NbBitsUtile(v) <= 64
    ensures v > 0 ==> Pow(NbBitsUtile(v) - 1) <= v < Pow(NbBitsUtile(v))
  {
    if v > 0 {
      NbBitsUtileBounds(v / 2);
      var r := NbBitsUtile(v);
      PowMonotone(r - 1, 64);
      Pow64();
    }
  }

  /** pow2: the word holding a single 1 bit, at `position`. */
  function Pow2(position: nat): Word
    requires position < 64
  {
    PowMonotone(position, 64);
    Pow64();
    Pow(position)
  }

  /** pow2(position) has bit `position` set and every other bit clear. */
  lemma Pow2SingleBit(position: nat)
    requires position < 64
    ensures PrendBit(Pow2(position), position) == 1
    ensures forall q | 0 <= q < 64 && q != position :: PrendBit(Pow2(position), q) == 0
  {
    PowBits(position);
  }

  /** prend_bit: bit `position` of `c`, as 0 or 1. */
  function PrendBit(c: Word, position: nat): (r: nat)
    requires position < 64
    ensures r <= 1
    ensures r == (c / Pow(position)) % 2
  {
    ShrIsDiv(c, position);
    Shr(c, position) % 2
  }

  /** pose_bit: `c` with bit `position` set to 0 when `bit` is 0 and to 1
      for every other value of `bit`, negative ones included. */
  function PoseBit(c: Word, position: nat, bit: int): (r: Word)
    requires position < 64
    ensures PrendBit(r, position) == (if bit == 0 then 0 else 1)
    ensures forall q | 0 <= q < 64 && q != position :: PrendBit(r, q) == PrendBit(c, q)
  {
    var mask := Pow2(position);
    if bit == 0 then
      if PrendBit(c, position) == 1 then
        ClearBit(c, position);
        c - mask
      else c
    else
      if PrendBit(c, position) == 1 then c
      else
        SetBit(c, position);
        Pow64();
        SetBitBelow(c, position, 64);
        c + mask
  }

  /** Setting or clearing bit `position` keeps a value below 2^n when the
      position is below n: the byte buffer of a bit stream stays a byte. */
  lemma PoseBitBelow(c: Word, position: nat, bit: int, n: nat)
    requires position < n <= 64
    requires c < Pow(n)
    ensures PoseBit(c, position, bit) < Pow(n)
  {
    if bit != 0 && PrendBit(c, position) == 0 {
      SetBitBelow(c, position, n);
    }
  }

  /** The test of bit_tst.c rebuilding a word from its bits: starting from 0,
      `s |= pow2(k)` for every k below `k` where `prend_bit(c, k)` holds. */
  function Reassemble(c: Word, k: nat): Word
    requires k <= 64
  {
    if k == 0 then 0
    else
      var s := Reassemble(c, k - 1);
      if PrendBit(c, k - 1) == 1 then PoseBit(s, k - 1, 1) else s
  }

  /** The test of bit_tst.c copying `j` into `s` one bit at a time:
      `s = pose_bit(s, k, prend_bit(j, k))` for every k below `k`. */
  function CopyBits(s: Word, j: Word, k: nat): Word
    requires k <= 64
  {
    if k == 0 then s
    else PoseBit(CopyBits(s, j, k - 1), k - 1, PrendBit(j, k - 1))
  }

  /** After k steps of the rebuild, bits below k are those of `c`, the rest 0. */
  lemma {:induction false} ReassembleBits(c: Word, k: nat)
    requires k <= 64
    ensures forall q | 0 <= q < 64 ::
      PrendBit(Reassemble(c, k), q) == if q < k then PrendBit(c, q) else 0
  {
    if k == 0 {
      forall q | 0 <= q < 64
        ensures PrendBit(0, q) == 0
      {
        ShrOfZero(q);
      }
    } else {
      ReassembleBits(c, k - 1);
    }
  }

  /** Re-assembling all 64 bits returned by prend_bit gives back the word. */
  lemma ReassembleAllBits(c: Word)
    ensures Reassemble(c, 64) == c
  {
    ReassembleBits(c, 64);
    Pow64();
    var s := Reassemble(c, 64);
    assert forall q | 0 <= q < 64 :: Shr(s, q) % 2 == PrendBit(s, q) == PrendBit(c, q) == Shr(c, q) % 2;
    BitsDetermine(s, c, 64);
  }

  /** After k steps of the copy, bits below k are those of `j`, the rest those of `s`. */
  lemma {:induction false} CopyBitsBits(s: Word, j: Word, k: nat)
    requires k <= 64
    ensures forall q | 0 <= q < 64 ::
      PrendBit(CopyBits(s, j, k), q) == if q < k then PrendBit(j, q) else PrendBit(s, q)
  {
    if k > 0 {
      CopyBitsBits(s, j, k - 1);
    }
  }

  /** Copying all 64 bits of `j` into any `s` makes `s` equal to `j`. */
  lemma CopyAllBits(s: Word, j: Word)
    ensures CopyBits(s, j, 64) == j
  {
    CopyBitsBits(s, j, 64);
    Pow64();
    var r := CopyBits(s, j, 64);
    assert forall q | 0 <= q < 64 :: Shr(r, q) % 2 == PrendBit(r, q) == PrendBit(j, q) == Shr(j, q) % 2;
    BitsDetermine(r, j, 64);
  }

  /** The worked examples of nb_bits_utile on 0 .. 8. */
  lemma NbBitsUtileExamples()
    ensures NbBitsUtile(0) == 0 && NbBitsUtile(1) == 1 && NbBitsUtile(2) == 2
    ensures NbBitsUtile(3) == 2 && NbBitsUtile(4) == 3
    ensures NbBitsUtile(5) == 3 && NbBitsUtile(6) == 3 && NbBitsUtile(7) == 3
    ensures NbBitsUtile(8) == 4
  {
    assert NbBitsUtile(0) == 0;
    assert NbBitsUtile(1) == 1 + NbBitsUtile(0);
    assert NbBitsUtile(2) == 1 + NbBitsUtile(1);
    assert NbBitsUtile(3) == 1 + NbBitsUtile(1);
    assert NbBitsUtile(4) == 1 + NbBitsUtile(2);
    assert NbBitsUtile(5) == 1 + NbBitsUtile(2);
    assert NbBitsUtile(6) == 1 + NbBitsUtile(3);
    assert NbBitsUtile(7) == 1 + NbBitsUtile(3);
    assert NbBitsUtile(8) == 1 + NbBitsUtile(4);
  }

  /** pose_bit treats every non-zero bit as 1, negative ones included:
      setting bit 0 to 2 or to -2 gives 1 from 0 and from 1. */
  lemma PoseBitExamples()
    ensures PoseBit(0, 0, 2) == 1
    ensures PoseBit(1, 0, 2) == 1
    ensures PoseBit(1, 0, -2) == 1
  {
  }

  /** 1 << 31 has 32 significant bits and 1 << 63 has 64. */
  lemma NbBitsUtileTopBits()
    ensures NbBitsUtile(0x8000_0000) == 32
    ensures NbBitsUtile(0x8000_0000_0000_0000) == 64
  {
    Pow31And63();
    assert Pow2(31) == 0x8000_0000;
    assert Pow2(63) == 0x8000_0000_0000_0000;
    NbBitsOfPow(31);
    NbBitsOfPow(63);
  }

  lemma Pow31And63()
    ensures Pow(31) == 0x8000_0000
    ensures Pow(63) == 0x8000_0000_0000_0000
  {
    Pow64();
    assert Pow(32) == 2 * Pow(31);
    assert Pow(64) == 2 * Pow(63);
  }

  /** The single significant bit of 2^p is bit p. */
  lemma NbBitsOfPow(p: nat)
    requires p < 64
    ensures NbBitsUtile(Pow2(p)) == p + 1
  {
    var v := Pow2(p);
    assert v == Pow(p);
    var r := NbBitsUtile(v);
    NbBitsUtileBounds(v);
    assert Pow(r - 1) <= Pow(p) < Pow(r);
    if r < p + 1 {
      PowMonotone(r, p);
    } else if r > p + 1 {
      PowMonotone(p + 1, r - 1);
    }
  }

  /** pow2(0) is 1 and each further position doubles it. */
  lemma Pow2Doubles(i: nat)
    requires i < 63
    ensures Pow2(0) == 1
    ensures Pow2(i + 1) == 2 * Pow2(i)
  {
  }

  // ---------------------------------------------------------------------
  // Arithmetic facts behind the bit operations.

  lemma Pow8()
    ensures Pow(8) == 256
  {
    assert Pow(2) == 4;
    assert Pow(4) == 16;
    assert Pow(6) == 64;
  }

  lemma Pow32()
    ensures Pow(32) == 0x1_0000_0000
  {
    Pow16();
    PowAdd(16, 16);
  }

  lemma Pow16()
    ensures Pow(16) == 0x1_0000
  {
    Pow8();
    PowAdd(8, 8);
  }

  lemma Pow64()
    ensures Pow(32) == 0x1_0000_0000
    ensures Pow(64) == WordLimit
  {
    Pow32();
    PowAdd(32, 32);
  }

  lemma {:induction false} PowAdd(a: nat, b: nat)
    ensures Pow(a + b) == Pow(a) * Pow(b)
  {
    if a > 0 {
      PowAdd(a - 1, b);
      assert Pow(a + b) == 2 * Pow(a - 1 + b);
      assert Pow(a) == 2 * Pow(a - 1);
      MulTwice(Pow(a - 1), Pow(b));
    }
  }

  lemma {:induction false} PowMonotone(a: nat, b: nat)
    requires a <= b
    ensures Pow(a) <= Pow(b)
    ensures a < b ==> Pow(a) < Pow(b)
  {
    if a < b {
      PowMonotone(a, b - 1);
    }
  }

  /** 2^p has bit p set and every other bit clear. */
  lemma PowBits(p: nat)
    ensures Shr(Pow(p), p) % 2 == 1
    ensures forall q: nat :: q != p ==> Shr(Pow(p), q) % 2 == 0
  {
    ShrOfZero(p);
    SetBit(0, p);
    forall q: nat
      ensures Shr(0, q) == 0
    {
      ShrOfZero(q);
    }
  }

  lemma {:induction false} ShrOfZero(p: nat)
    ensures Shr(0, p) == 0
  {
    if p > 0 {
      ShrOfZero(p - 1);
    }
  }

  lemma {:induction false} ShrShr(c: nat, a: nat, b: nat)
    ensures Shr(Shr(c, a), b) == Shr(c, a + b)
  {
    if a > 0 {
      ShrShr(c / 2, a - 1, b);
    }
  }

  lemma {:induction false} ShrZeroIff(c: nat, n: nat)
    ensures Shr(c, n) == 0 <==> c < Pow(n)
  {
    if n > 0 {
      ShrZeroIff(c / 2, n - 1);
    }
  }

  /** Adding 2^p shifts to adding 2^(p-q) after q <= p halvings. */
  lemma {:induction false} ShrAddPow(c: nat, p: nat, q: nat)
    requires q <= p
    ensures Shr(c + Pow(p), q) == Shr(c, q) + Pow(p - q)
  {
    if q > 0 {
      assert (c + Pow(p)) / 2 == c / 2 + Pow(p - 1);
      ShrAddPow(c / 2, p - 1, q - 1);
    }
  }

  /** Above a clear bit p, adding 2^p changes no higher-order halving. */
  lemma ShrAbove(c: nat, p: nat, q: nat)
    requires p < q
    requires Shr(c, p) % 2 == 0
    ensures Shr(c + Pow(p), q) == Shr(c, q)
  {
    ShrAddPow(c, p, p);
    ShrShr(c + Pow(p), p, 1);
    ShrShr(c, p, 1);
    assert Shr(c + Pow(p), p + 1) == Shr(c, p + 1);
    ShrShr(c + Pow(p), p + 1, q - p - 1);
    ShrShr(c, p + 1, q - p - 1);
  }

  /** Adding 2^p to a value whose bit p is clear sets bit p and nothing else. */
  lemma SetBit(c: nat, p: nat)
    requires Shr(c, p) % 2 == 0
    ensures Shr(c + Pow(p), p) % 2 == 1
    ensures forall q: nat :: q != p ==> Shr(c + Pow(p), q) % 2 == Shr(c, q) % 2
  {
    ShrAddPow(c, p, p);
    forall q: nat | q != p
      ensures Shr(c + Pow(p), q) % 2 == Shr(c, q) % 2
    {
      if q < p {
        ShrAddPow(c, p, q);
        assert Pow(p - q) == 2 * Pow(p - q - 1);
      } else {
        ShrAbove(c, p, q);
      }
    }
  }

  /** A value whose bit p is set is at least 2^p. */
  lemma {:induction false} ShrPositive(c: nat, p: nat)
    requires Shr(c, p) >= 1
    ensures c >= Pow(p)
  {
    if p > 0 {
      ShrPositive(c / 2, p - 1);
    }
  }

  /** Subtracting 2^p from a value whose bit p is set clears bit p and nothing else. */
  lemma ClearBit(c: nat, p: nat)
    requires Shr(c, p) % 2 == 1
    ensures c >= Pow(p)
    ensures Shr(c - Pow(p), p) % 2 == 0
    ensures forall q: nat :: q != p ==> Shr(c - Pow(p), q) % 2 == Shr(c, q) % 2
  {
    ShrPositive(c, p);
    var c0 := c - Pow(p);
    ShrAddPow(c0, p, p);
    SetBit(c0, p);
  }

  /** Setting a clear bit below n keeps a value below 2^n. */
  lemma SetBitBelow(c: nat, p: nat, n: nat)
    requires p < n
    requires c < Pow(n)
    requires Shr(c, p) % 2 == 0
    ensures c + Pow(p) < Pow(n)
  {
    ShrZeroIff(c, n);
    ShrAbove(c, p, n);
    ShrZeroIff(c + Pow(p), n);
  }

  /** Two values below 2^n with the same n low bits are equal. */
  lemma {:induction false} BitsDetermine(a: nat, b: nat, n: nat)
    requires a < Pow(n) && b < Pow(n)
    requires forall q | 0 <= q < n :: Shr(a, q) % 2 == Shr(b, q) % 2
    ensures a == b
  {
    if n > 0 {
      assert Shr(a, 0) % 2 == Shr(b, 0) % 2;
      forall q | 0 <= q < n - 1
        ensures Shr(a / 2, q) % 2 == Shr(b / 2, q) % 2
      {
        assert Shr(a, q + 1) % 2 == Shr(b, q + 1) % 2;
      }
      BitsDetermine(a / 2, b / 2, n - 1);
    }
  }

  lemma MulTwice(x: int, y: int)
    ensures 2 * (x * y) == (2 * x) * y
  {
  }

  lemma {:induction false} MulAtLeast(k: int, d: int)
    requires k >= 1 && d >= 0
    ensures k * d >= d
  {
    if k > 1 {
      MulAtLeast(k - 1, d);
      assert k * d == (k - 1) * d + d;
    }
  }

  lemma DivModUnique(c: int, d: int, q: int, r: int)
    requires d > 0 && 0 <= r < d && c == q * d + r
    ensures c / d == q && c % d == r
  {
    var q0, r0 := c / d, c % d;
    assert c == q0 * d + r0;
    if q0 > q {
      MulAtLeast(q0 - q, d);
      assert false;
    } else if q0 < q {
      MulAtLeast(q - q0, d);
      assert false;
    }
  }

  /** p halvings divide by 2^p. */
  lemma {:induction false} ShrIsDiv(c: nat, p: nat)
    ensures Shr(c, p) == c / Pow(p)
  {
    if p > 0 {
      ShrIsDiv(c / 2, p - 1);
      HalveThenDivide(c, Pow(p - 1));
    }
  }

  /** Halving then dividing by d divides by 2d. */
  lemma HalveThenDivide(c: nat, d: nat)
    requires d >= 1
    ensures (c / 2) / d == c / (2 * d)
  {
    var h := c / 2;
    var q, r := h / d, h % d;
    assert h == q * d + r;
    assert c == 2 * h + c % 2;
    MulTwice(q, d);
    assert c == q * (2 * d) + (2 * r + c % 2);
    DivModUnique(c, 2 * d, q, 2 * r + c % 2);
  }
}
