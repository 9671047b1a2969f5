/** The simulated multiply: 32 rounds of shift and add on 32-bit halves. */
module Multiply {
  import opened LittleEndian
  import opened Bits

  const TWO32 := 0x1_0000_0000
  const TWO64 := 0x1_0000_0000_0000_0000

  function Double(hi: Word, lo: Word): (x: nat)
    ensures x < TWO64
  {
    hi * TWO32 + lo
  }

  /** Add two double words held in halves, as the loop does. */
  method AddHalves(hi: Word, lo: Word, bHi: Word, bLo: Word) returns (hi': Word, lo': Word)
    requires Double(hi, lo) + Double(bHi, bLo) < TWO64
    ensures Double(hi', lo') == Double(hi, lo) + Double(bHi, bLo)
  {
    lo' := (lo + bLo) % TWO32;
    hi' := hi;
    if lo' < bLo {   // carry out of the low bits
      hi' := (hi' + 1) % TWO32;
    }
    hi' := (hi' + bHi) % TWO32;
  }

  /** Shift a double word held in halves left by one. */
  method ShiftHalves(bHi: Word, bLo: Word) returns (bHi': Word, bLo': Word)
    ensures Double(bHi', bLo') == 2 * Double(bHi, bLo) % TWO64
  {
    bHi' := bHi * 2 % TWO32;
    if bLo >= 0x8000_0000 {
      bHi' := bHi' + 1;   // the shift left the low bit clear
    }
    bLo' := bLo * 2 % TWO32;
    assert 2 * Double(bHi, bLo) == bHi * 2 / TWO32 * TWO64 + Double(bHi', bLo');
  }

  method NegateHalves(hi: Word, lo: Word) returns (hi': Word, lo': Word)
    ensures Double(hi', lo') == (TWO64 - Double(hi, lo)) % TWO64
  {
    hi' := 0xffff_ffff - hi;
    lo' := 0xffff_ffff - lo;
    lo' := (lo' + 1) % TWO32;
    if lo' == 0 {
      hi' := (hi' + 1) % TWO32;
    }
  }

  /** The product as repeated addition. */
  function Times(x: int, y: nat): (z: int) {
    if y == 0 then 0 else x + Times(x, y - 1)
  }

  lemma {:induction false} TimesIs(x: int, y: nat)
    ensures Times(x, y) == x * y
  {
    if y > 0 {
      TimesIs(x, y - 1);
      assert x * y == x + x * (y - 1);
    }
  }

  /** One round: `r` is the part of the multiplier already used, `p` the weight of its next bit. */
  lemma Round(s: int, a: int, p: nat, r: nat, b: nat)
    requires s == Times(a, p) + r && r < p && p > 0
    ensures s == Times(a / 2, 2 * p) + (if a % 2 == 1 then r + p else r)
    ensures Times(b, r + p) == Times(b, r) + Times(b, p) && Times(b, 2 * p) == 2 * Times(b, p)
    ensures (if a % 2 == 1 then r + p else r) < 2 * p
  {
    TimesIs(a, p);
    TimesIs(a / 2, 2 * p);
    HalvedProduct(a, p);
    TimesIs(b, r + p);
    TimesIs(b, r);
    TimesIs(b, p);
    TimesIs(b, 2 * p);
  }

  lemma HalvedProduct(a: int, p: nat)
    ensures a * p == a / 2 * (2 * p) + if a % 2 == 1 then p else 0
  {
    assert a == 2 * (a / 2) + a % 2;
    calc {
      a * p;
      (2 * (a / 2) + a % 2) * p;
      a / 2 * (2 * p) + a % 2 * p;
    }
  }

  lemma ProductBound(x: nat, y: nat, m: nat, n: nat)
    requires x <= m && y <= n
    ensures x * y <= m * n
  {
    calc {
      x * y;
      <= x * n;
      <= m * n;
    }
  }

  /** The shift-and-add loop.  `a` is shifted arithmetically, so for a negative multiplier the bits
      that come in on the left are ones; the low 32 bits are seen all the same. */
  method ShiftAdd(multiplier: int, b: Word) returns (hi: Word, lo: Word)
    requires -0x8000_0000 <= multiplier < 0x8000_0000 && multiplier != 0
    ensures Double(hi, lo) == Unsigned(multiplier) * b
  {
    var a := multiplier;
    var bLo: Word, bHi: Word := b, 0;
    lo, hi := 0, 0;
    ghost var p: nat, r: nat := 1, 0;
    WordSize();
    for i := 0 to 32
      invariant p == Pow2(i) && r < p && multiplier == Times(a, p) + r
      invariant Double(hi, lo) == Times(b, r)
      invariant i < 32 ==> Double(bHi, bLo) == Times(b, p)
    {
      Round(multiplier, a, p, r, b);
      Fits(i, p, r, b);
      if a % 2 == 1 {
        hi, lo := AddHalves(hi, lo, bHi, bLo);
        r := r + p;
        if a == 0 || a == 1 {
          LastRound(multiplier, 2 * p, r, b);
          return;
        }
      }
      bHi, bLo := ShiftHalves(bHi, bLo);
      a := a / 2;
      p := 2 * p;
    }
    RemainderIsUnsigned(multiplier, a, r, b);
  }

  lemma LastRound(s: int, p: nat, r: nat, b: Word)
    requires s == Times(0, p) + r && s < 0x8000_0000
    ensures Times(b, r) == Unsigned(s) * b
  {
    TimesIs(0, p);
    TimesIs(b, r);
  }

  lemma WeightBound(i: nat)
    requires i < 32
    ensures Pow2(i) <= 0x8000_0000
  {
    WordSize();
    if i < 31 {
      PowMonotone(i, 31);
    }
  }

  /** Neither the sum nor, before the last round, the shifted operand overflows 64 bits. */
  lemma Fits(i: nat, p: nat, r: nat, b: Word)
    requires i < 32 && p == Pow2(i) && r < p
    ensures 0 <= Times(b, r) && 0 <= Times(b, p)
    ensures Times(b, r) + Times(b, p) < TWO64
    ensures i < 31 ==> 2 * Times(b, p) < TWO64
  {
    TimesIs(b, r);
    TimesIs(b, p);
    WeightBound(i);
    ProductBound(r, b, 0x8000_0000, TWO32 - 1);
    ProductBound(p, b, 0x8000_0000, TWO32 - 1);
    if i < 31 {
      WeightBound(i + 1);
      ProductBound(2 * p, b, 0x8000_0000, TWO32 - 1);
    }
  }

  lemma RemainderIsUnsigned(s: int, a: int, r: nat, b: Word)
    requires s == Times(a, TWO32) + r && r < TWO32
    ensures Times(b, r) == Unsigned(s) * b
  {
    TimesIs(a, TWO32);
    TimesIs(b, r);
  }

  /** What MULT and MULTU promise: the exact double-length product. */
  method Mult(a: int, b: int, signedArith: bool) returns (hi: Word, lo: Word)
    requires -0x8000_0000 <= a < 0x8000_0000 && -0x8000_0000 <= b < 0x8000_0000
    ensures signedArith ==> Double(hi, lo) == a * b % TWO64
    ensures !signedArith ==> Double(hi, lo) == Unsigned(a) * Unsigned(b)
  {
    if a == 0 || b == 0 {
      return 0, 0;
    }
    if signedArith {
      var x := Magnitude(a);
      var y := Magnitude(b);
      hi, lo := ShiftAdd(x, Unsigned(y));
      Magnitudes(a, b, Unsigned(x), Unsigned(y), Double(hi, lo));
      if (a < 0) != (b < 0) {
        hi, lo := NegateHalves(hi, lo);
      }
    } else {
      hi, lo := ShiftAdd(a, Unsigned(b));
    }
  }

  /** Negation in place: -2^31 negates to itself, and its bits are then read as unsigned. */
  method Magnitude(a: int) returns (x: int)
    requires -0x8000_0000 <= a < 0x8000_0000
    ensures -0x8000_0000 <= x < 0x8000_0000 && Unsigned(x) == if a < 0 then -a else a
    ensures a != 0 ==> x != 0
  {
    x := if a < 0 then Signed(Unsigned(-a)) else a;
  }

  lemma Magnitudes(a: int, b: int, x: nat, y: nat, product: nat)
    requires a != 0 && b != 0 && product == x * y && product < TWO64
    requires x == (if a < 0 then -a else a) && y == if b < 0 then -b else b
    ensures (a < 0) == (b < 0) ==> a * b == product && a * b % TWO64 == product
    ensures (a < 0) != (b < 0) ==> a * b + product == 0 && a * b % TWO64 == (TWO64 - product) % TWO64
  {
    if a < 0 && b < 0 {
      assert a * b == (-a) * (-b);
    } else if a < 0 {
      assert a * b == -((-a) * b);
    } else if b < 0 {
      assert a * b == -(a * (-b));
    }
    if (a < 0) != (b < 0) {
      assert a * b % TWO64 == (a * b + TWO64) % TWO64;
    }
  }
}
