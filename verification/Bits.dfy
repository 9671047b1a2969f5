/** Bitwise operations on 32-bit words, defined on the integers the words denote. */
module Bits {
  import opened LittleEndian

  const WORD_BITS := 32

  function Pow2(n: nat): (p: nat)
    ensures p > 0
  {
    if n == 0 then 1 else 2 * Pow2(n - 1)
  }

  lemma WordSize()
    ensures Pow2(WORD_BITS) == 0x1_0000_0000
  {
    assert Pow2(8) == 0x100;
    assert Pow2(16) == 0x1_0000;
    assert Pow2(24) == 0x100_0000;
  }

  predicate Bit(w: nat, k: nat) {
    if k == 0 then w % 2 == 1 else Bit(w / 2, k - 1)
  }

  /** Apply a boolean operation to the low `n` bits of two numbers, bit by bit. */
  function Bitwise(f: (bool, bool) -> bool, x: nat, y: nat, n: nat): (r: nat)
    ensures r < Pow2(n)
  {
    if n == 0 then 0
    else (if f(x % 2 == 1, y % 2 == 1) then 1 else 0) + 2 * Bitwise(f, x / 2, y / 2, n - 1)
  }

  lemma {:induction false} BitwiseBit(f: (bool, bool) -> bool, x: nat, y: nat, n: nat, k: nat)
    requires k < n
    ensures Bit(Bitwise(f, x, y, n), k) == f(Bit(x, k), Bit(y, k))
  {
    if k > 0 {
      BitwiseBit(f, x / 2, y / 2, n - 1, k - 1);
    }
  }

  function And(x: Word, y: Word): (r: Word)
    ensures forall k :: 0 <= k < WORD_BITS ==> (Bit(r, k) <==> (Bit(x, k) && Bit(y, k)))
  {
    WordSize();
    forall k | 0 <= k < WORD_BITS
      ensures Bit(Bitwise((a, b) => a && b, x, y, WORD_BITS), k) <==> (Bit(x, k) && Bit(y, k))
    {
      BitwiseBit((a, b) => a && b, x, y, WORD_BITS, k);
    }
    Bitwise((a, b) => a && b, x, y, WORD_BITS)
  }

  function Or(x: Word, y: Word): (r: Word)
    ensures forall k :: 0 <= k < WORD_BITS ==> (Bit(r, k) <==> (Bit(x, k) || Bit(y, k)))
  {
    WordSize();
    forall k | 0 <= k < WORD_BITS
      ensures Bit(Bitwise((a, b) => a || b, x, y, WORD_BITS), k) <==> (Bit(x, k) || Bit(y, k))
    {
      BitwiseBit((a, b) => a || b, x, y, WORD_BITS, k);
    }
    Bitwise((a, b) => a || b, x, y, WORD_BITS)
  }

  function Xor(x: Word, y: Word): (r: Word)
    ensures forall k :: 0 <= k < WORD_BITS ==> (Bit(r, k) <==> (Bit(x, k) != Bit(y, k)))
  {
    WordSize();
    forall k | 0 <= k < WORD_BITS
      ensures Bit(Bitwise((a, b) => a != b, x, y, WORD_BITS), k) <==> (Bit(x, k) != Bit(y, k))
    {
      BitwiseBit((a, b) => a != b, x, y, WORD_BITS, k);
    }
    Bitwise((a, b) => a != b, x, y, WORD_BITS)
  }

  function Not(x: Word): (r: Word)
    ensures forall k :: 0 <= k < WORD_BITS ==> (Bit(r, k) <==> !Bit(x, k))
  {
    WordSize();
    forall k | 0 <= k < WORD_BITS
      ensures Bit(Pow2(WORD_BITS) - 1 - x, k) <==> !Bit(x, k)
    {
      ComplementBit(x, WORD_BITS, k);
    }
    0xffff_ffff - x
  }

  lemma {:induction false} ComplementBit(x: nat, n: nat, k: nat)
    requires x < Pow2(n) && k < n
    ensures Bit(Pow2(n) - 1 - x, k) <==> !Bit(x, k)
  {
    var y := Pow2(n) - 1 - x;
    SplitBit(y, 1 - x % 2, Pow2(n - 1) - 1 - x / 2);
    if k > 0 {
      ComplementBit(x / 2, n - 1, k - 1);
    }
  }

  /** `x << k`, the bits shifted out at the top being lost. */
  function Shl(x: Word, k: nat): (r: Word) {
    x * Pow2(k) % 0x1_0000_0000
  }

  /** `x >> k` of an unsigned word: halving, `k` times. */
  function Shr(x: Word, k: nat): (r: Word)
    ensures forall j: nat :: Bit(r, j) <==> Bit(x, j + k)
  {
    if k == 0 then x else Shr(x / 2, k - 1)
  }

  /** `1 << k`. */
  lemma OneBit(k: nat)
    requires k < WORD_BITS
    ensures Shl(1, k) == Pow2(k)
    ensures forall j :: 0 <= j < WORD_BITS ==> (Bit(Shl(1, k), j) <==> j == k)
  {
    WordSize();
    PowMonotone(k, WORD_BITS);
    forall j | 0 <= j < WORD_BITS
      ensures Bit(Pow2(k), j) <==> j == k
    {
      PowerBit(k, j);
    }
  }

  lemma {:induction false} PowMonotone(k: nat, n: nat)
    requires k < n
    ensures Pow2(k) < Pow2(n)
  {
    if k + 1 < n {
      PowMonotone(k, n - 1);
    }
  }

  lemma {:induction false} PowerBit(k: nat, j: nat)
    ensures Bit(Pow2(k), j) <==> j == k
  {
    if k > 0 && j > 0 {
      PowerBit(k - 1, j - 1);
    } else if k == 0 && j > 0 {
      ZeroBit(j - 1);
    }
  }

  lemma {:induction false} ZeroBit(j: nat)
    ensures !Bit(0, j)
  {
    if j > 0 {
      ZeroBit(j - 1);
    }
  }

  lemma {:induction false} SameBits(x: nat, y: nat, n: nat)
    requires x < Pow2(n) && y < Pow2(n)
    requires forall k :: 0 <= k < n ==> Bit(x, k) == Bit(y, k)
    ensures x == y
  {
    if n > 0 {
      forall k | 0 <= k < n - 1
        ensures Bit(x / 2, k) == Bit(y / 2, k)
      {
        assert Bit(x, k + 1) == Bit(y, k + 1);
      }
      SameBits(x / 2, y / 2, n - 1);
      assert Bit(x, 0) == Bit(y, 0);
    }
  }

  /** Testing one bit with a mask. */
  lemma SingleBit(w: Word, k: nat)
    requires k < WORD_BITS
    ensures And(w, Shl(1, k)) != 0 <==> Bit(w, k)
  {
    var r := And(w, Shl(1, k));
    OneBit(k);
    WordSize();
    ZeroBit(k);
    if !Bit(w, k) {
      forall j | 0 <= j < WORD_BITS
        ensures Bit(r, j) == Bit(0, j)
      {
        ZeroBit(j);
      }
      SameBits(r, 0, WORD_BITS);
    }
  }

  // Reading bits off the value

  lemma {:induction false} TopBitOf(w: nat, k: nat)
    requires w < Pow2(k + 1)
    ensures Bit(w, k) <==> w >= Pow2(k)
  {
    if k > 0 {
      TopBitOf(w / 2, k - 1);
    }
  }

  /** The sign test: (x ^ y) & SIGN_BIT says whether the signs differ. */
  lemma SignTest(x: Word, y: Word)
    ensures And(Xor(x, y), 0x8000_0000) != 0 <==> (x >= 0x8000_0000) != (y >= 0x8000_0000)
  {
    WordSize();
    OneBit(31);
    SingleBit(Xor(x, y), 31);
    TopBitOf(x, 31);
    TopBitOf(y, 31);
  }

  function AndBits(x: nat, y: nat, n: nat): (r: nat) {
    Bitwise((a, b) => a && b, x, y, n)
  }

  function OrBits(x: nat, y: nat, n: nat): (r: nat) {
    Bitwise((a, b) => a || b, x, y, n)
  }

  lemma {:induction false} AndZero(x: nat, n: nat)
    ensures AndBits(x, 0, n) == 0
  {
    if n > 0 {
      AndZero(x / 2, n - 1);
    }
  }

  lemma {:induction false} LowBits(x: nat, k: nat, n: nat)
    requires k <= n
    ensures AndBits(x, Pow2(k) - 1, n) == x % Pow2(k)
  {
    if k == 0 {
      AndZero(x, n);
    } else {
      LowBits(x / 2, k - 1, n - 1);
      assert (Pow2(k) - 1) / 2 == Pow2(k - 1) - 1;
      HalfMod(x, Pow2(k - 1));
    }
  }

  lemma HalfMod(x: nat, p: nat)
    requires p > 0
    ensures x % (2 * p) == x % 2 + 2 * (x / 2 % p)
  {
    var h := x / 2;
    assert x == 2 * h + x % 2 && h == p * (h / p) + h % p;
    assert x == (2 * p) * (h / p) + (2 * (h % p) + x % 2) by {
      assert 2 * (p * (h / p)) == (2 * p) * (h / p);
    }
    ModUnique(x, 2 * p, h / p, 2 * (h % p) + x % 2);
  }

  lemma ModUnique(x: nat, m: nat, q: nat, r: nat)
    requires m > 0 && r < m && x == m * q + r
    ensures x % m == r
  {
    var d := x / m;
    assert m * (q - d) == m * q - m * d;
    WholeMultiple(m, q - d);
  }

  lemma WholeMultiple(m: nat, t: int)
    ensures t >= 1 ==> m * t >= m
    ensures t <= -1 ==> m * t + m <= 0
  {
  }

  lemma {:induction false} HighBits(x: nat, mask: nat, k: nat, n: nat)
    requires k <= n && x < Pow2(n) && mask + Pow2(k) == Pow2(n)
    ensures AndBits(x, mask, n) == x - x % Pow2(k)
  {
    if k == 0 {
      LowBits(x, n, n);
      FullMod(x, Pow2(n));
    } else {
      assert mask % 2 == 0 && mask / 2 + Pow2(k - 1) == Pow2(n - 1);
      HighBits(x / 2, mask / 2, k - 1, n - 1);
      HalfMod(x, Pow2(k - 1));
    }
  }

  lemma FullMod(x: nat, m: nat)
    requires x < m
    ensures x % m == x
  {
  }

  /** Or of two numbers with no bit in common is their sum. */
  lemma {:induction false} OrApart(x: nat, y: nat, k: nat, n: nat)
    requires x < Pow2(k) && y < Pow2(n) && y % Pow2(k) == 0 && k <= n
    ensures OrBits(x, y, n) == x + y
    ensures OrBits(y, x, n) == x + y
  {
    if k == 0 {
      OrZero(y, n);
    } else {
      HalfMod(y, Pow2(k - 1));
      OrApart(x / 2, y / 2, k - 1, n - 1);
    }
  }

  lemma {:induction false} OrZero(y: nat, n: nat)
    requires y < Pow2(n)
    ensures OrBits(0, y, n) == y && OrBits(y, 0, n) == y
  {
    if n > 0 {
      OrZero(y / 2, n - 1);
    }
  }

  // Shifts, bit by bit

  lemma {:induction false} NoHighBit(x: nat, n: nat, j: nat)
    requires x < Pow2(n) && n <= j
    ensures !Bit(x, j)
  {
    if n == 0 {
      ZeroBit(j);
    } else {
      NoHighBit(x / 2, n - 1, j - 1);
    }
  }

  lemma {:induction false} BitOfMod(y: nat, n: nat, j: nat)
    requires j < n
    ensures Bit(y % Pow2(n), j) == Bit(y, j)
  {
    HalfMod(y, Pow2(n - 1));
    SplitBit(y % Pow2(n), y % 2, y / 2 % Pow2(n - 1));
    if j > 0 {
      BitOfMod(y / 2, n - 1, j - 1);
    }
  }

  lemma SplitBit(z: nat, b: nat, h: nat)
    requires b < 2 && z == b + 2 * h
    ensures z % 2 == b && z / 2 == h
  {
  }

  lemma {:induction false} BitOfProduct(x: nat, k: nat, j: nat)
    ensures Bit(x * Pow2(k), j) <==> j >= k && Bit(x, j - k)
  {
    if k > 0 {
      assert x * Pow2(k) == 2 * (x * Pow2(k - 1));
      if j > 0 {
        BitOfProduct(x, k - 1, j - 1);
      }
    }
  }

  /** A left shift moves bits up and fills with zeros. */
  lemma ShlBit(x: Word, k: nat, j: nat)
    requires j < WORD_BITS
    ensures Bit(Shl(x, k), j) <==> j >= k && Bit(x, j - k)
  {
    WordSize();
    BitOfMod(x * Pow2(k), WORD_BITS, j);
    BitOfProduct(x, k, j);
  }

  lemma DivUnique(x: int, m: nat, q: int, r: nat)
    requires m > 0 && r < m && x == m * q + r
    ensures x / m == q
  {
    var d := x / m;
    assert x == m * d + x % m;
    assert m * (q - d) == m * q - m * d;
    WholeMultiple(m, q - d);
  }

  /** A right shift divides. */
  lemma ShrDivides(x: Word, k: nat)
    ensures Shr(x, k) == x / Pow2(k)
  {
    var r := ShrSplit(x, k);
    DivUnique(x, Pow2(k), Shr(x, k), r);
  }

  lemma {:induction false} ShrSplit(x: Word, k: nat) returns (r: nat)
    ensures x == Pow2(k) * Shr(x, k) + r && r < Pow2(k)
  {
    if k == 0 {
      r := 0;
    } else {
      var h := ShrSplit(x / 2, k - 1);
      DoubleProduct(Pow2(k - 1), Shr(x, k));
      r := 2 * h + x % 2;
    }
  }

  lemma DoubleProduct(p: nat, q: nat)
    ensures (2 * p) * q == 2 * (p * q)
  {
  }
}
