/** What the simulator's C bit tests and masks compute. */
module Idioms {
  import opened LittleEndian
  import opened Bits
  import opened Unaligned
  import opened Isa

  const SIGN_BIT: Word := 0x8000_0000

  lemma {:induction false} BitOf(x: nat, k: nat)
    ensures Bit(x, k) <==> x % Pow2(k + 1) >= Pow2(k)
  {
    HalfMod(x, Pow2(k));
    if k > 0 {
      BitOf(x / 2, k - 1);
    }
  }

  /** Setting all the bits from `k` up. */
  lemma {:induction false} OrHigh(x: nat, mask: nat, k: nat, n: nat)
    requires k <= n && mask + Pow2(k) == Pow2(n)
    ensures OrBits(x, mask, n) == x % Pow2(k) + mask
  {
    if k == 0 {
      OrOnes(x, n);
    } else {
      assert mask % 2 == 0 && mask / 2 + Pow2(k - 1) == Pow2(n - 1);
      OrHigh(x / 2, mask / 2, k - 1, n - 1);
      HalfMod(x, Pow2(k - 1));
    }
  }

  lemma {:induction false} OrOnes(x: nat, n: nat)
    ensures OrBits(x, Pow2(n) - 1, n) == Pow2(n) - 1
  {
    if n > 0 {
      assert (Pow2(n) - 1) / 2 == Pow2(n - 1) - 1 && (Pow2(n) - 1) % 2 == 1;
      OrOnes(x / 2, n - 1);
    }
  }

  lemma SignOf(x: Word)
    ensures And(x, SIGN_BIT) != 0 <==> Signed(x) < 0
  {
    WordSize();
    OneBit(31);
    SingleBit(x, 31);
    TopBitOf(x, 31);
  }

  /** x & 0x1f, x & 0xffff. */
  lemma LowMasks(x: Word)
    ensures And(x, 0x1f) == x % 32
    ensures And(x, 0xffff) == x % 0x1_0000
  {
    Powers();
    assert Pow2(5) == 32;
    LowBits(x, 5, 32);
    LowBits(x, 16, 32);
  }

  /** The alignment tests and the rounding down to a word. */
  lemma AlignmentMasks(a: Word)
    ensures And(a, 1) == a % 2 && And(a, 3) == a % 4 && And(a, 0xffff_fffc) == Aligned(a)
  {
    Powers();
    assert Pow2(1) == 2 && Pow2(2) == 4;
    LowBits(a, 1, 32);
    LowBits(a, 2, 32);
    HighBits(a, 0xffff_fffc, 2, 32);
  }

  /** Sign extension of a byte: test bit 7, then fill or mask. */
  lemma ByteMasks(x: Word)
    ensures And(x, 0x80) != 0 <==> x % 0x100 >= 0x80
    ensures And(x, 0xff) == x % 0x100
    ensures Or(x, 0xffff_ff00) == x % 0x100 + 0xffff_ff00
  {
    Powers();
    assert Pow2(7) == 0x80;
    OneBit(7);
    SingleBit(x, 7);
    BitOf(x, 7);
    LowBits(x, 8, 32);
    OrHigh(x, 0xffff_ff00, 8, 32);
  }

  lemma HalfMasks(x: Word)
    ensures And(x, 0x8000) != 0 <==> x % 0x1_0000 >= 0x8000
    ensures And(x, 0xffff) == x % 0x1_0000
    ensures Or(x, 0xffff_0000) == x % 0x1_0000 + 0xffff_0000
  {
    Powers();
    assert Pow2(15) == 0x8000;
    OneBit(15);
    SingleBit(x, 15);
    BitOf(x, 15);
    LowBits(x, 16, 32);
    OrHigh(x, 0xffff_0000, 16, 32);
  }

  /** A jump keeps the top four bits of the program counter. */
  lemma JumpMask(next: Word, extra: Word)
    requires extra < 0x400_0000
    ensures Or(And(next, 0xf000_0000), Shl(extra, 2)) == InRegion(next, extra)
  {
    Powers();
    assert Pow2(2) == 4;
    RegionBits(next, 4 * extra);
  }

  lemma RegionBits(next: Word, low: Word)
    requires low < 0x1000_0000
    ensures OrBits(AndBits(next, 0xf000_0000, 32), low, 32) == next / 0x1000_0000 * 0x1000_0000 + low
  {
    Powers();
    assert Pow2(28) == 0x1000_0000;
    HighBits(next, 0xf000_0000, 28, 32);
    CutLow(next, 0x1000_0000);
    OrApart(low, next - next % 0x1000_0000, 28, 32);
  }

  lemma UpperImmediate(extra: Word)
    ensures Shl(extra, 16) == extra % 0x1_0000 * 0x1_0000
  {
    Powers();
    ShiftLosesTop(extra, 0x1_0000, 0x1_0000);
  }

  /** The sign of a wrapped sum. */
  lemma SignOfSum(s: Word, t: Word)
    ensures IsInt(Signed(s) + Signed(t)) ==> Plus(s, t) == Unsigned(Signed(s) + Signed(t))
    ensures IsInt(Signed(s) + Signed(t)) <==>
              !((s >= SIGN_BIT) == (t >= SIGN_BIT) && (s >= SIGN_BIT) != (Plus(s, t) >= SIGN_BIT))
  {
  }

  /** Addition overflows exactly when the operands agree in sign and the wrapped sum does not. */
  lemma AddOverflow(s: Word, t: Word)
    ensures var sum := Plus(s, t);
            && (IsInt(Signed(s) + Signed(t)) ==> sum == Unsigned(Signed(s) + Signed(t)))
            && (IsInt(Signed(s) + Signed(t)) <==> !(And(Xor(s, t), SIGN_BIT) == 0 && And(Xor(s, sum), SIGN_BIT) != 0))
            && (IsInt(Signed(s) + Signed(t)) <==> !(And(Xor(s, t), SIGN_BIT) == 0 && And(Xor(t, sum), SIGN_BIT) != 0))
  {
    SignOfSum(s, t);
    SignTest(s, t);
    SignTest(s, Plus(s, t));
    SignTest(t, Plus(s, t));
  }

  lemma SubOverflow(s: Word, t: Word)
    ensures var diff := Unsigned(s as int - t as int);
            && (IsInt(Signed(s) - Signed(t)) ==> diff == Unsigned(Signed(s) - Signed(t)))
            && (IsInt(Signed(s) - Signed(t)) <==> !(And(Xor(s, t), SIGN_BIT) != 0 && And(Xor(s, diff), SIGN_BIT) != 0))
  {
    SignTest(s, t);
    SignTest(s, Unsigned(s as int - t as int));
  }

  // The tests as the simulator makes them

  method SumOverflows(s: Word, t: Word, sum: Word, other: Word) returns (yes: bool)
    requires sum == Plus(s, t) && (other == s || other == t)
    ensures yes <==> !IsInt(Signed(s) + Signed(t))
    ensures !yes ==> sum == Unsigned(Signed(s) + Signed(t))
  {
    AddOverflow(s, t);
    yes := And(Xor(s, t), SIGN_BIT) == 0 && And(Xor(other, sum), SIGN_BIT) != 0;
  }

  method DifferenceOverflows(s: Word, t: Word, diff: Word) returns (yes: bool)
    requires diff == Unsigned(s as int - t as int)
    ensures yes <==> !IsInt(Signed(s) - Signed(t))
    ensures !yes ==> diff == Unsigned(Signed(s) - Signed(t))
  {
    SubOverflow(s, t);
    yes := And(Xor(s, t), SIGN_BIT) != 0 && And(Xor(s, diff), SIGN_BIT) != 0;
  }

  method ShiftAmount(s: Word) returns (k: Word)
    ensures k == s % 32
  {
    LowMasks(s);
    k := And(s, 0x1f);
  }

  method Immediate(extra: Word) returns (k: Word)
    ensures k == extra % 0x1_0000
  {
    LowMasks(extra);
    k := And(extra, 0xffff);
  }

  method IsNegative(s: Word) returns (yes: bool)
    ensures yes <==> Signed(s) < 0
  {
    SignOf(s);
    yes := And(s, SIGN_BIT) != 0;
  }

  method JumpTarget(pcAfter: Word, extra: Word) returns (target: Word)
    requires extra < 0x400_0000
    ensures target == InRegion(pcAfter, extra)
  {
    JumpMask(pcAfter, extra);
    target := Or(And(pcAfter, 0xf000_0000), Shl(extra, 2));
  }

  method WordOffset(a: Word) returns (base: Word, k: Word)
    ensures base == Aligned(a) && k == a % 4
  {
    AlignmentMasks(a);
    base, k := And(a, 0xffff_fffc), And(a, 3);
  }

  method Misaligned(a: Word, size: nat) returns (yes: bool)
    requires size == 2 || size == 4
    ensures yes <==> a % size != 0
  {
    AlignmentMasks(a);
    yes := if size == 4 then And(a, 3) != 0 else And(a, 1) != 0;
  }

  /** LB, LBU: a byte as ReadMem delivers it, extended. */
  method ExtendByte(value: Word, signed: bool) returns (w: Word)
    ensures w == if signed then Extended(value % 0x100, 0x80, 0x100) else value % 0x100
  {
    ByteMasks(value);
    if And(value, 0x80) != 0 && signed {
      w := Or(value, 0xffff_ff00);
    } else {
      w := And(value, 0xff);
    }
  }

  method ExtendHalf(value: Word, signed: bool) returns (w: Word)
    ensures w == if signed then Extended(value % 0x1_0000, 0x8000, 0x1_0000) else value % 0x1_0000
  {
    HalfMasks(value);
    if And(value, 0x8000) != 0 && signed {
      w := Or(value, 0xffff_0000);
    } else {
      w := And(value, 0xffff);
    }
  }
}
