/** The byte merging of the unaligned store and load instructions. */
module Unaligned {
  import opened LittleEndian
  import opened Bits

  /** Arithmetic shift right of a C `int`. */
  function Sar(x: Word, k: nat): (r: Word) {
    Unsigned(Signed(x) / Pow2(k))
  }

  /** An arithmetic shift moves bits down and fills with the sign. */
  lemma SarBit(x: Word, k: nat, j: nat)
    requires j < WORD_BITS
    ensures Bit(Sar(x, k), j) <==> Bit(x, if j + k < WORD_BITS then j + k else WORD_BITS - 1)
  {
    WordSize();
    TopBitOf(x, 31);
    if x < 0x8000_0000 {
      ShrDivides(x, k);
      SarOfPositive(x, k);
      if j + k >= WORD_BITS {
        NoHighBit(x, WORD_BITS, j + k);
      }
    } else {
      var c := 0xffff_ffff - x;
      assert c == Not(x);
      ShrDivides(c, k);
      SarOfNegative(x, k);
      if j + k >= WORD_BITS {
        NoHighBit(c, WORD_BITS, j + k);
      }
    }
  }

  lemma SarOfPositive(x: Word, k: nat)
    requires x < 0x8000_0000
    ensures Sar(x, k) == Shr(x, k)
  {
    ShrDivides(x, k);
  }

  lemma SarOfNegative(x: Word, k: nat)
    requires x >= 0x8000_0000
    ensures Sar(x, k) == Not(Shr(0xffff_ffff - x, k))
  {
    var c, p := 0xffff_ffff - x, Pow2(k);
    ShrDivides(c, k);
    var q, r := c / p, c % p;
    assert c == p * q + r;
    assert p * (-1 - q) == -p - p * q;
    DivUnique(-1 - c, p, -1 - q, p - 1 - r);
  }

  /** SWR at offset `k` of a word: the low bytes of `rt` go to the top of the word. */
  function MergeRight(value: Word, rt: Word, k: nat): (r: Word)
    requires k < 4
  {
    match k
    case 0 => rt
    case 1 => Or(And(value, 0xff), Shl(rt, 8))
    case 2 => Or(And(value, 0xffff), Shl(rt, 16))
    case 3 => Or(And(value, 0xff_ffff), Shl(rt, 24))
  }

  /** SWL at offset `k` of a word: the high bytes of `rt` go to the bottom of the word. */
  function MergeLeft(value: Word, rt: Word, k: nat): (r: Word)
    requires k < 4
  {
    match k
    case 0 => Or(And(value, 0xffff_ff00), And(Sar(rt, 24), 0xff))
    case 1 => Or(And(value, 0xffff_0000), And(Sar(rt, 16), 0xffff))
    case 2 => Or(And(value, 0xff00_0000), And(Sar(rt, 8), 0xff_ffff))
    case 3 => rt
  }

  lemma Powers()
    ensures Pow2(8) == 0x100 && Pow2(16) == 0x1_0000 && Pow2(24) == 0x100_0000 && Pow2(32) == 0x1_0000_0000
  {
    WordSize();
    assert Pow2(8) == 0x100;
    assert Pow2(16) == 0x1_0000;
    assert Pow2(24) == 0x100_0000;
  }

  /** Keep the low 8k bits of one word and put another above them. */
  lemma BelowShifted(value: Word, rt: Word, bits: nat, p: nat)
    requires bits <= 32 && p == Pow2(bits)
    ensures AndBits(value, p - 1, 32) == value % p
    ensures 0x1_0000_0000 % p == 0 ==>
              OrBits(value % p, rt * p % 0x1_0000_0000, 32) == value % p + rt * p % 0x1_0000_0000
  {
    Powers();
    LowBits(value, bits, 32);
    if 0x1_0000_0000 % p == 0 {
      ShiftedMod(rt, p);
      OrApart(value % p, rt * p % 0x1_0000_0000, bits, 32);
    }
  }

  lemma ShiftedMod(rt: nat, p: nat)
    requires p > 0 && 0x1_0000_0000 % p == 0
    ensures rt * p % 0x1_0000_0000 % p == 0
  {
    var q, k := rt * p / 0x1_0000_0000, 0x1_0000_0000 / p;
    var r := rt * p % 0x1_0000_0000;
    assert r == rt * p - q * 0x1_0000_0000;
    assert q * 0x1_0000_0000 == q * k * p;
    assert r == (rt - q * k) * p;
    assert rt - q * k >= 0;
    ModUnique(r, p, rt - q * k, 0);
  }

  /** A word cut at a byte boundary. */
  lemma Cuts(w: Word)
    ensures var b := WordBytes(w);
            && w % 0x100 == b[0] && w / 0x100 == b[1] as int + 0x100 * b[2] as int + 0x1_0000 * b[3] as int
            && w % 0x1_0000 == b[0] as int + 0x100 * b[1] as int && w / 0x1_0000 == b[2] as int + 0x100 * b[3] as int
            && w % 0x100_0000 == b[0] as int + 0x100 * b[1] as int + 0x1_0000 * b[2] as int && w / 0x100_0000 == b[3]
  {
    BytesOfWord(w);
    var b := WordBytes(w);
    SplitByte(b[0], b[1] as int + 0x100 * b[2] as int + 0x1_0000 * b[3] as int);
  }

  lemma ShiftLosesTop(w: nat, p: nat, q: nat)
    requires p > 0 && q > 0 && p * q == 0x1_0000_0000
    ensures w * p % 0x1_0000_0000 == p * (w % q)
  {
    var h, l := w / q, w % q;
    calc {
      w * p;
      (q * h + l) * p;
      p * q * h + p * l;
    }
    assert p * l <= p * (q - 1);
    ModUnique(w * p, 0x1_0000_0000, h, p * l);
  }

  lemma RightSum(value: Word, rt: Word, k: nat)
    requires k < 4
    ensures MergeRight(value, rt, k) ==
              if k == 0 then rt
              else if k == 1 then value % 0x100 + 0x100 * (rt % 0x100_0000)
              else if k == 2 then value % 0x1_0000 + 0x1_0000 * (rt % 0x1_0000)
              else value % 0x100_0000 + 0x100_0000 * (rt % 0x100)
  {
    Powers();
    match k {
      case 0 =>
      case 1 =>
        BelowShifted(value, rt, 8, 0x100);
        ShiftLosesTop(rt, 0x100, 0x100_0000);
      case 2 =>
        BelowShifted(value, rt, 16, 0x1_0000);
        ShiftLosesTop(rt, 0x1_0000, 0x1_0000);
      case 3 =>
        BelowShifted(value, rt, 24, 0x100_0000);
        ShiftLosesTop(rt, 0x100_0000, 0x100);
    }
  }

  lemma RightValue(value: Word, rt: Word, k: nat)
    requires k < 4
    ensures var v, r := WordBytes(value), WordBytes(rt);
            MergeRight(value, rt, k) == BytesWord(v[..k] + r[..4 - k])
  {
    RightSum(value, rt, k);
    Cuts(value);
    Cuts(rt);
    var v, r := WordBytes(value), WordBytes(rt);
    BytesOfWord(rt);
    if k == 0 {
      assert v[..0] + r[..4] == r;
    }
  }

  /** SWR changes exactly the bytes from offset `k` up, to the low bytes of `rt`. */
  lemma MergeRightBytes(value: Word, rt: Word, k: nat)
    requires k < 4
    ensures WordBytes(MergeRight(value, rt, k)) == WordBytes(value)[..k] + WordBytes(rt)[..4 - k]
  {
    RightValue(value, rt, k);
    WordOfBytes(WordBytes(value)[..k] + WordBytes(rt)[..4 - k]);
  }

  /** The sign bits an arithmetic shift brings in are masked off again. */
  lemma SarLow(rt: Word)
    ensures Sar(rt, 24) % 0x100 == rt / 0x100_0000
    ensures Sar(rt, 16) % 0x1_0000 == rt / 0x1_0000
    ensures Sar(rt, 8) % 0x100_0000 == rt / 0x100
  {
    Powers();
    SarByByte3(rt);
    SarByByte2(rt);
    SarByByte1(rt);
  }

  lemma SarByByte3(rt: Word)
    ensures Unsigned(Signed(rt) / 0x100_0000) % 0x100 == rt / 0x100_0000
  {
    assert (rt - 0x1_0000_0000) / 0x100_0000 == rt / 0x100_0000 - 0x100;
  }

  lemma SarByByte2(rt: Word)
    ensures Unsigned(Signed(rt) / 0x1_0000) % 0x1_0000 == rt / 0x1_0000
  {
    assert (rt - 0x1_0000_0000) / 0x1_0000 == rt / 0x1_0000 - 0x1_0000;
  }

  lemma SarByByte1(rt: Word)
    ensures Unsigned(Signed(rt) / 0x100) % 0x100_0000 == rt / 0x100
  {
    assert (rt - 0x1_0000_0000) / 0x100 == rt / 0x100 - 0x100_0000;
  }

  lemma CutLow(value: nat, p: nat)
    requires p > 0
    ensures (value - value % p) % p == 0
  {
    assert value - value % p == p * (value / p) + 0;
    ModUnique(value - value % p, p, value / p, 0);
  }

  /** Keep the high bits of one word and put the high bits of another below them. */
  lemma AboveShifted(value: Word, rt: Word, mask: Word, bits: nat, p: nat, q: nat)
    requires bits <= 32 && p == Pow2(bits) && q == Pow2(32 - bits) && mask + p == 0x1_0000_0000
    requires bits == 8 || bits == 16 || bits == 24
    ensures AndBits(value, mask, 32) == value - value % p
    ensures AndBits(Sar(rt, 32 - bits), p - 1, 32) == rt / q
    ensures OrBits(value - value % p, rt / q, 32) == value - value % p + rt / q
  {
    Powers();
    HighBits(value, mask, bits, 32);
    LowBits(Sar(rt, 32 - bits), bits, 32);
    SarLow(rt);
    CutLow(value, p);
    OrApart(rt / q, value - value % p, bits, 32);
  }

  lemma LeftSum(value: Word, rt: Word, k: nat)
    requires k < 4
    ensures MergeLeft(value, rt, k) ==
              if k == 0 then value - value % 0x100 + rt / 0x100_0000
              else if k == 1 then value - value % 0x1_0000 + rt / 0x1_0000
              else if k == 2 then value - value % 0x100_0000 + rt / 0x100
              else rt
  {
    Powers();
    match k {
      case 0 => AboveShifted(value, rt, 0xffff_ff00, 8, 0x100, 0x100_0000);
      case 1 => AboveShifted(value, rt, 0xffff_0000, 16, 0x1_0000, 0x1_0000);
      case 2 => AboveShifted(value, rt, 0xff00_0000, 24, 0x100_0000, 0x100);
      case 3 =>
    }
  }

  lemma LeftValue(value: Word, rt: Word, k: nat)
    requires k < 4
    ensures var v, r := WordBytes(value), WordBytes(rt);
            MergeLeft(value, rt, k) == BytesWord(r[3 - k..] + v[k + 1..])
  {
    LeftSum(value, rt, k);
    Cuts(value);
    Cuts(rt);
    var v, r := WordBytes(value), WordBytes(rt);
    BytesOfWord(rt);
    BytesOfWord(value);
    if k == 3 {
      assert r[0..] + v[4..] == r;
    }
  }

  /** SWL changes exactly the bytes up to offset `k`, to the high bytes of `rt`. */
  lemma MergeLeftBytes(value: Word, rt: Word, k: nat)
    requires k < 4
    ensures WordBytes(MergeLeft(value, rt, k)) == WordBytes(rt)[3 - k..] + WordBytes(value)[k + 1..]
  {
    LeftValue(value, rt, k);
    WordOfBytes(WordBytes(rt)[3 - k..] + WordBytes(value)[k + 1..]);
  }

  // Unaligned loads

  /** LWR at offset `k`: the top bytes of the word go to the bottom of the register. */
  function LoadRight(value: Word, next: Word, k: nat): (r: Word)
    requires k < 4
  {
    match k
    case 0 => value
    case 1 => Or(And(next, 0xff00_0000), And(Sar(value, 8), 0xff_ffff))
    case 2 => Or(And(next, 0xffff_0000), And(Sar(value, 16), 0xffff))
    case 3 => Or(And(next, 0xffff_ff00), And(Sar(value, 24), 0xff))
  }

  /** LWL at offset `k`, as the simulator has it. */
  function LoadLeft(value: Word, next: Word, k: nat): (r: Word)
    requires k < 4
  {
    match k
    case 0 => Or(And(next, 0xff), Shl(value, 8))
    case 1 => Or(And(next, 0xffff), Shl(value, 16))
    case 2 => Or(And(next, 0xff_ffff), Shl(value, 24))
    case 3 => value
  }

  /** The same merges on the bytes. */
  function RightBytes(v: seq<Byte>, n: seq<Byte>, k: nat): (r: seq<Byte>)
    requires |v| == 4 && |n| == 4 && k < 4
    ensures |r| == 4
  {
    v[k..] + n[4 - k..]
  }

  function LeftBytes(v: seq<Byte>, n: seq<Byte>, k: nat): (r: seq<Byte>)
    requires |v| == 4 && |n| == 4 && k < 4
    ensures |r| == 4
  {
    if k == 3 then v else n[..k + 1] + v[..3 - k]
  }

  lemma LoadRightBytes(value: Word, next: Word, k: nat)
    requires k < 4
    ensures WordBytes(LoadRight(value, next, k)) == RightBytes(WordBytes(value), WordBytes(next), k)
  {
    assert LoadRight(value, next, k) == MergeLeft(next, value, 3 - k);
    MergeLeftBytes(next, value, 3 - k);
  }

  lemma LoadLeftBytes(value: Word, next: Word, k: nat)
    requires k < 4
    ensures WordBytes(LoadLeft(value, next, k)) == LeftBytes(WordBytes(value), WordBytes(next), k)
  {
    if k < 3 {
      assert LoadLeft(value, next, k) == MergeRight(next, value, k + 1);
      MergeRightBytes(next, value, k + 1);
    }
  }

  /** LWR at A then LWL at A + 3, on bytes: A is `k` past a word boundary, `low` and `high` are the
      words at that boundary and at the next, and `n` is what the register held. */
  function LoadPair(low: seq<Byte>, high: seq<Byte>, n: seq<Byte>, k: nat): (r: seq<Byte>)
    requires |low| == 4 && |high| == 4 && |n| == 4 && k < 4
  {
    var r := RightBytes(low, n, k);
    if k == 0 then LeftBytes(low, r, 3) else LeftBytes(high, r, k - 1)
  }

  /** The unaligned load pair loads the four bytes at A, whatever memory and the register hold,
      exactly when A is even: the LWL merges for offsets 0 and 2 are exchanged. */
  lemma LoadPairExactlyAtEven(k: nat)
    requires k < 4
    ensures (forall low: seq<Byte>, high: seq<Byte>, n: seq<Byte> :: |low| == 4 && |high| == 4 && |n| == 4 ==>
               LoadPair(low, high, n, k) == (low + high)[k..k + 4]) <==> k % 2 == 0
  {
    if k % 2 == 1 {
      var low: seq<Byte>, high: seq<Byte> := [0, 0, 0, 0], [1, 0, 0, 0];
      OddPair(low, high, low, k);
    } else {
      forall low: seq<Byte>, high: seq<Byte>, n: seq<Byte> | |low| == 4 && |high| == 4 && |n| == 4
        ensures LoadPair(low, high, n, k) == (low + high)[k..k + 4]
      {
        EvenPair(low, high, n, k);
      }
    }
  }

  /** For one memory and one register: the pair loads the four bytes at A exactly when A is even or
      the bytes that the exchanged cases put in the wrong place happen to agree. */
  lemma LoadPairExactly(low: seq<Byte>, high: seq<Byte>, n: seq<Byte>, k: nat)
    requires |low| == 4 && |high| == 4 && |n| == 4 && k < 4
    ensures LoadPair(low, high, n, k) == (low + high)[k..k + 4] <==>
            match k
            case 1 => low[2] == high[0] && low[3] == high[1] && high[0] == high[2]
            case 3 => n[1] == high[0] && n[2] == high[1] && high[0] == high[2]
            case _ => true
  {
    var wanted := (low + high)[k..k + 4];
    if k % 2 == 0 {
      EvenPair(low, high, n, k);
    } else if k == 1 {
      assert LoadPair(low, high, n, k) == [low[1], high[0], high[1], high[2]];
      assert wanted == [low[1], low[2], low[3], high[0]];
    } else {
      assert LoadPair(low, high, n, k) == [low[3], n[1], n[2], high[0]];
      assert wanted == [low[3], high[0], high[1], high[2]];
    }
  }

  lemma EvenPair(low: seq<Byte>, high: seq<Byte>, n: seq<Byte>, k: nat)
    requires |low| == 4 && |high| == 4 && |n| == 4 && (k == 0 || k == 2)
    ensures LoadPair(low, high, n, k) == (low + high)[k..k + 4]
  {
  }

  /** The concrete failure: memory holds 0 and then 1, the register holds 0. */
  lemma OddPair(low: seq<Byte>, high: seq<Byte>, n: seq<Byte>, k: nat)
    requires low == [0, 0, 0, 0] && high == [1, 0, 0, 0] && n == low && (k == 1 || k == 3)
    ensures LoadPair(low, high, n, k) != (low + high)[k..k + 4]
  {
    assert (low + high)[k..k + 4][4 - k] == 1;
    assert LoadPair(low, high, n, k)[k] == 1;
  }
}
