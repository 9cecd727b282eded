/** Machine words: the bit reversal behind the scan cursor of dict.c, and masking with a size
    that is a power of two. Words are natural numbers; the shift loop of the C function is
    checked on 64-bit vectors at the end. */
module Word {
  import opened DictSpec

  const BITS: nat := 64
  const WORD: nat := 0x1_0000_0000_0000_0000

  // ---------------------------------------------------------------- shifts

  function Shl(x: nat, j: nat): nat {
    if j == 0 then x else 2 * Shl(x, j - 1)
  }

  function Low(v: nat, k: nat): (r: nat)
    ensures r < Pow(k)
  {
    if k == 0 then 0 else v % 2 + 2 * Low(v / 2, k - 1)
  }

  function High(v: nat, k: nat): nat {
    if k == 0 then v else High(v / 2, k - 1)
  }

  /** The low `w` bits of `v` in reverse order. */
  function Rev(v: nat, w: nat): (r: nat)
    ensures r < Pow(w)
  {
    if w == 0 then 0 else (if v % 2 == 1 then Pow(w - 1) else 0) + Rev(v / 2, w - 1)
  }

  lemma {:induction false} ShlAdd(x: nat, y: nat, j: nat)
    ensures Shl(x + y, j) == Shl(x, j) + Shl(y, j)
  {
    if j > 0 { ShlAdd(x, y, j - 1); }
  }

  lemma {:induction false} ShlPow(k: nat, j: nat)
    ensures Shl(Pow(k), j) == Pow(k + j)
    ensures Shl(0, j) == 0
    ensures Shl(1, j) == Pow(j)
  {
    if j > 0 { ShlPow(k, j - 1); }
  }

  /** Shifted blocks of length 2^j do not overlap. */
  lemma {:induction false} ShlOrder(x: nat, y: nat, j: nat)
    requires x < y
    ensures Shl(x, j) + Pow(j) <= Shl(y, j)
  {
    if j > 0 { ShlOrder(x, y, j - 1); }
  }

  lemma {:induction false} PowMonotonic(i: nat, j: nat)
    requires i <= j
    ensures Pow(i) <= Pow(j)
    decreases j - i
  {
    if i < j { PowMonotonic(i + 1, j); }
  }

  lemma PowBits()
    ensures Pow(BITS) == WORD
  {
    assert Pow(8) == 256;
    assert Pow(16) == 256 * Pow(8);
    assert Pow(24) == 256 * Pow(16);
    assert Pow(32) == 256 * Pow(24);
    assert Pow(40) == 256 * Pow(32);
    assert Pow(48) == 256 * Pow(40);
    assert Pow(56) == 256 * Pow(48);
    assert Pow(64) == 256 * Pow(56);
  }

  lemma {:induction false} LowHigh(v: nat, k: nat)
    ensures v == Low(v, k) + Shl(High(v, k), k)
  {
    if k > 0 {
      LowHigh(v / 2, k - 1);
    }
  }

  lemma {:induction false} LowHighOf(a: nat, b: nat, k: nat)
    requires a < Pow(k)
    ensures Low(a + Shl(b, k), k) == a && High(a + Shl(b, k), k) == b
  {
    if k > 0 {
      var v := a + Shl(b, k);
      assert v % 2 == a % 2 && v / 2 == a / 2 + Shl(b, k - 1);
      LowHighOf(a / 2, b, k - 1);
    }
  }

  /** `v & (size - 1)` keeps the low bits. */
  lemma {:induction false} SlotIsLow(v: nat, k: nat)
    ensures Slot(v, Pow(k)) == Low(v, k)
  {
    if k > 0 {
      assert Pow(k) / 2 == Pow(k - 1);
      SlotIsLow(v / 2, k - 1);
    }
  }

  // ---------------------------------------------------------------- reversal

  lemma Unfold(v: nat, w: nat)
    requires w > 0
    ensures Rev(v, w) == (if v % 2 == 1 then Pow(w - 1) else 0) + Rev(v / 2, w - 1)
    ensures Low(v, w) % 2 == v % 2 && Low(v, w) / 2 == Low(v / 2, w - 1)
    ensures High(v, w) == High(v / 2, w - 1)
  {
  }

  lemma UnfoldZero(v: nat, j: nat)
    ensures Low(v, 0) == 0 && High(v, 0) == v && Rev(v, 0) == 0
    ensures Shl(v, 0) == v && Shl(v, j + 1) == 2 * Shl(v, j)
  {
  }

  lemma {:induction false} LowLow(v: nat, k: nat, n: nat)
    requires k <= n
    ensures Low(Low(v, n), k) == Low(v, k)
    ensures High(Low(v, n), k) == Low(High(v, k), n - k)
  {
    hide Low, High;
    if k == 0 {
      UnfoldZero(v, 0);
      UnfoldZero(Low(v, n), 0);
    } else {
      Unfold(v, n);
      Unfold(v, k);
      Unfold(Low(v, n), k);
      LowLow(v / 2, k - 1, n - 1);
    }
  }

  /** Reversing the bits of a word reverses its low and high parts and swaps them. */
  lemma {:induction false} RevSplit(v: nat, k: nat, j: nat)
    ensures Rev(v, k + j) == Shl(Rev(Low(v, k), k), j) + Rev(High(v, k), j)
  {
    hide Shl, Low, High, Rev, Pow;
    ShlPow(0, j);
    if k == 0 {
      UnfoldZero(v, j);
      UnfoldZero(Low(v, 0), j);
    } else {
      RevSplit(v / 2, k - 1, j);
      Unfold(v, k + j);
      Unfold(v, k);
      Unfold(Low(v, k), k);
      ShlAdd(if v % 2 == 1 then Pow(k - 1) else 0, Rev(Low(v / 2, k - 1), k - 1), j);
      ShlPow(k - 1, j);
    }
  }

  /** The lowest bit becomes the highest. */
  lemma RevHead(t: nat, i: nat)
    ensures Rev(t, i + 1) == Shl(t % 2, i) + Rev(t / 2, i)
  {
    hide Shl, Low, High, Rev, Pow;
    ShlPow(0, i);
    Unfold(t, i + 1);
  }

  /** The highest bit becomes the lowest. */
  lemma RevLast(v: nat, i: nat)
    requires v < Pow(i + 1)
    ensures High(v, i) <= 1
    ensures Rev(v, i + 1) == 2 * Rev(Low(v, i), i) + High(v, i)
  {
    hide Shl, Low, High, Rev, Pow;
    var t := High(v, i);
    LowHigh(v, i);
    ShlPow(0, i);
    PowTwice(i);
    if t >= 2 { ShlOrder(1, t, i); }
    RevSplit(v, i, 1);
    RevHead(t, 0);
    UnfoldZero(Rev(Low(v, i), i), 0);
    UnfoldZero(t % 2, 0);
    UnfoldZero(t / 2, 0);
  }

  lemma PowTwice(i: nat)
    ensures Pow(i + 1) == 2 * Pow(i) && Pow(0) == 1
  {
  }

  lemma {:induction false} RevRev(v: nat, w: nat)
    requires v < Pow(w)
    ensures Rev(Rev(v, w), w) == v
    decreases w
  {
    hide Shl, Low, High, Rev, Pow;
    if w == 0 {
      PowTwice(0);
      UnfoldZero(Rev(v, 0), 0);
    } else {
      var r, hi := Rev(Low(v, w - 1), w - 1), High(v, w - 1);
      RevLast(v, w - 1);
      Halves(r, hi);
      RevRev(Low(v, w - 1), w - 1);
      RevHead(Rev(v, w), w - 1);
      LowHigh(v, w - 1);
    }
  }

  lemma Halves(r: nat, b: nat)
    requires b <= 1
    ensures (2 * r + b) % 2 == b && (2 * r + b) / 2 == r
  {
  }

  lemma {:induction false} RevOnes(w: nat)
    ensures Rev(Pow(w) - 1, w) == Pow(w) - 1
  {
    if w > 0 {
      assert (Pow(w) - 1) / 2 == Pow(w - 1) - 1 && (Pow(w) - 1) % 2 == 1;
      RevOnes(w - 1);
    }
  }

  lemma RevInjective(v: nat, h: nat, w: nat)
    requires v < Pow(w) && h < Pow(w) && Rev(v, w) == Rev(h, w)
    ensures v == h
  {
    RevRev(v, w);
    RevRev(h, w);
  }

  /** Bit `i` of the reversal is bit `w-1-i` of the word. */
  lemma RevBit(v: nat, i: nat, w: nat)
    requires i < w
    ensures High(Rev(v, w), i) % 2 == High(v, w - 1 - i) % 2
  {
    hide Shl, Rev, Low, High, Pow;
    var k := w - 1 - i;
    RevSplit(v, k, i + 1);
    var top, t := Rev(Low(v, k), k), High(v, k);
    RevHead(t, i);
    ShlAdd(2 * top, t % 2, i);
    ShlDouble(top, i);
    LowHighOf(Rev(t / 2, i), 2 * top + t % 2, i);
  }

  lemma {:induction false} ShlDouble(x: nat, i: nat)
    ensures Shl(2 * x, i) == Shl(x, i + 1)
  {
    if i > 0 { ShlDouble(x, i - 1); }
  }

  // ---------------------------------------------------------------- the loop of `rev`

  function Swap(v: bv64, s: bv7, mask: bv64): bv64
    requires s <= 64
  {
    ((v >> s) & mask) | ((v << s) & !mask)
  }

  function Swap32(v: bv64): bv64 { Swap(v, 32, 0x0000_0000_FFFF_FFFF) }
  function Swap16(v: bv64): bv64 { Swap(Swap32(v), 16, 0x0000_FFFF_0000_FFFF) }
  function Swap8(v: bv64): bv64 { Swap(Swap16(v), 8, 0x00FF_00FF_00FF_00FF) }
  function Swap4(v: bv64): bv64 { Swap(Swap8(v), 4, 0x0F0F_0F0F_0F0F_0F0F) }
  function Swap2(v: bv64): bv64 { Swap(Swap4(v), 2, 0x3333_3333_3333_3333) }
  function Swap1(v: bv64): bv64 { Swap(Swap2(v), 1, 0x5555_5555_5555_5555) }

  // ---------------------------------------------------------------- words and numbers

  predicate Odd(v: bv64) { v & 1 == 1 }

  function Half(v: bv64): bv64 { v >> 1 }

  /** Bit `i` of a machine word. */
  function Bit(v: bv64, i: nat): nat {
    if i == 0 then (if Odd(v) then 1 else 0) else Bit(Half(v), i - 1)
  }

  /** The number in the low `w` bits of a machine word. */
  function Number(v: bv64, w: nat): (n: nat)
    ensures n < Pow(w)
  {
    if w == 0 then 0 else Bit(v, 0) + 2 * Number(Half(v), w - 1)
  }

  lemma {:induction false} NumberBit(v: bv64, i: nat, w: nat)
    requires i < w
    ensures High(Number(v, w), i) % 2 == Bit(v, i)
  {
    if i > 0 {
      assert Number(v, w) / 2 == Number(Half(v), w - 1);
      NumberBit(Half(v), i - 1, w - 1);
    }
  }

  lemma {:induction false} SameBits(x: nat, y: nat, w: nat)
    requires x < Pow(w) && y < Pow(w)
    requires forall i :: 0 <= i < w ==> High(x, i) % 2 == High(y, i) % 2
    ensures x == y
  {
    if w > 0 {
      assert High(x, 0) == x && High(y, 0) == y;
      forall i | 0 <= i < w - 1 ensures High(x / 2, i) % 2 == High(y / 2, i) % 2 {
        assert High(x, i + 1) % 2 == High(y, i + 1) % 2;
      }
      SameBits(x / 2, y / 2, w - 1);
    }
  }

  predicate At(v: bv64, k: bv7)
    requires k < 64
  {
    Odd(v >> k)
  }

  lemma AtHalf(v: bv64, k: bv7)
    requires k < 64
    ensures if k == 0 then At(v, k) == Odd(v) else At(v, k) == At(Half(v), k - 1)
  {
  }

  /** Swapping neighbouring blocks of `s` bits inverts one bit of every position. */
  lemma SwapAt(v: bv64, s: bv7, mask: bv64, k: bv7)
    requires k < 64
    requires || (s == 32 && mask == 0x0000_0000_FFFF_FFFF) || (s == 16 && mask == 0x0000_FFFF_0000_FFFF)
             || (s == 8 && mask == 0x00FF_00FF_00FF_00FF) || (s == 4 && mask == 0x0F0F_0F0F_0F0F_0F0F)
             || (s == 2 && mask == 0x3333_3333_3333_3333) || (s == 1 && mask == 0x5555_5555_5555_5555)
    ensures k ^ s < 64 && At(Swap(v, s, mask), k) == At(v, k ^ s)
  {
  }

  /** Swapping halves, quarters, ... and single bits puts bit 63-i at position i. */
  lemma SwapsReverse(v: bv64, k: bv7)
    requires k < 64
    ensures At(Swap1(v), k) == At(v, 63 - k)
  {
    hide At, Swap;
    SwapAt(Swap2(v), 1, 0x5555_5555_5555_5555, k);
    SwapAt(Swap4(v), 2, 0x3333_3333_3333_3333, k ^ 1);
    SwapAt(Swap8(v), 4, 0x0F0F_0F0F_0F0F_0F0F, k ^ 1 ^ 2);
    SwapAt(Swap16(v), 8, 0x00FF_00FF_00FF_00FF, k ^ 1 ^ 2 ^ 4);
    SwapAt(Swap32(v), 16, 0x0000_FFFF_0000_FFFF, k ^ 1 ^ 2 ^ 4 ^ 8);
    SwapAt(v, 32, 0x0000_0000_FFFF_FFFF, k ^ 1 ^ 2 ^ 4 ^ 8 ^ 16);
    AllInverted(k);
  }

  lemma AllInverted(k: bv7)
    requires k < 64
    ensures k ^ 1 ^ 2 ^ 4 ^ 8 ^ 16 ^ 32 == 63 - k
  {
  }

  /** Shift counts as numbers. */
  lemma ShiftCount(k: bv7)
    requires k < 64
    ensures (63 - k) as nat == 63 - k as nat
    ensures k > 0 ==> (k - 1) as nat == k as nat - 1
  {
  }

  lemma {:induction false} ShiftFor(i: nat) returns (k: bv7)
    requires i < 64
    ensures k < 64 && k as nat == i
  {
    if i == 0 {
      k := 0;
    } else {
      var before := ShiftFor(i - 1);
      ShiftCount(before);
      assert before != 63;
      k := before + 1;
      ShiftCount(k);
    }
  }

  lemma {:induction false} BitIsShift(v: bv64, k: bv7)
    requires k < 64
    ensures Bit(v, k as nat) == if At(v, k) then 1 else 0
    decreases k as nat
  {
    hide Odd, At, Half;
    ShiftCount(k);
    AtHalf(v, k);
    if k != 0 { BitIsShift(Half(v), k - 1); }
  }

  /** The swaps reverse the number of the word. */
  lemma SwapsAreRev(v: bv64)
    ensures Number(Swap1(v), BITS) == Rev(Number(v, BITS), BITS)
  {
    hide Swap1, Number, Rev, High, Bit, Odd, Pow;
    forall i | 0 <= i < BITS
      ensures High(Number(Swap1(v), BITS), i) % 2 == High(Rev(Number(v, BITS), BITS), i) % 2
    {
      NumberBit(Swap1(v), i, BITS);
      NumberBit(v, BITS - 1 - i, BITS);
      RevBit(Number(v, BITS), i, BITS);
      BitsSwapped(v, i);
    }
    SameBits(Number(Swap1(v), BITS), Rev(Number(v, BITS), BITS), BITS);
  }

  lemma BitsSwapped(v: bv64, i: nat)
    requires i < 64
    ensures Bit(Swap1(v), i) == Bit(v, 63 - i)
  {
    hide Swap1, Bit, At;
    var k := ShiftFor(i);
    ShiftCount(k);
    BitIsShift(Swap1(v), k);
    BitIsShift(v, 63 - k);
    SwapsReverse(v, k);
  }

  datatype Round = Round(v: bv64, s: bv7, mask: bv64)

  function NextRound(r: Round): Round
    requires r.s <= 64
  {
    var mask := r.mask ^ (r.mask << r.s);
    Round(Swap(r.v, r.s, mask), r.s >> 1, mask)
  }

  function After(word: bv64, s: bv7): Round {
    if s == 32 then Round(word, 32, 0xFFFF_FFFF_FFFF_FFFF)
    else if s == 16 then Round(Swap32(word), 16, 0x0000_0000_FFFF_FFFF)
    else if s == 8 then Round(Swap16(word), 8, 0x0000_FFFF_0000_FFFF)
    else if s == 4 then Round(Swap8(word), 4, 0x00FF_00FF_00FF_00FF)
    else if s == 2 then Round(Swap4(word), 2, 0x0F0F_0F0F_0F0F_0F0F)
    else if s == 1 then Round(Swap2(word), 1, 0x3333_3333_3333_3333)
    else Round(Swap1(word), 0, 0x5555_5555_5555_5555)
  }

  predicate RoundShift(s: bv7) {
    s == 32 || s == 16 || s == 8 || s == 4 || s == 2 || s == 1
  }

  lemma RoundAdvances(word: bv64, s: bv7)
    requires RoundShift(s)
    ensures NextRound(After(word, s)) == After(word, s >> 1)
    ensures s >> 1 < s && (RoundShift(s >> 1) || s >> 1 == 0)
  {
  }

  /** The loop of `rev` reverses the bits of the word's number. */
  method RevLoop(word: bv64) returns (v: bv64)
    ensures Number(v, BITS) == Rev(Number(word, BITS), BITS)
  {
    hide NextRound, After, Swap1, Number, Rev;
    StartAndEnd(word);
    SwapsAreRev(word);
    var r := Round(word, 32, 0xFFFF_FFFF_FFFF_FFFF);
    while r.s > 0
      invariant RoundShift(r.s) || r.s == 0
      invariant r == After(word, r.s)
      decreases r.s
    {
      RoundAdvances(word, r.s);
      r := NextRound(r);
    }
    v := r.v;
  }

  lemma StartAndEnd(word: bv64)
    ensures After(word, 32) == Round(word, 32, 0xFFFF_FFFF_FFFF_FFFF)
    ensures After(word, 0).v == Swap1(word)
    ensures forall s: bv7 :: RoundShift(s) || s == 0 ==> After(word, s).s == s
  {
  }
}
