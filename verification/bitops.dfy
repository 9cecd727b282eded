/** `bitops.c`: counting and finding bits word by word, and the bitwise operations on strings.
    The first bit of a string is the highest one of its first byte. */
module Bitops {

  // ---------------------------------------------------------------- bits, one by one

  function Mask(k: nat): bv8
    requires k < 8
  {
    if k == 0 then 0x80 else if k == 1 then 0x40 else if k == 2 then 0x20 else if k == 3 then 0x10
    else if k == 4 then 0x08 else if k == 5 then 0x04 else if k == 6 then 0x02 else 0x01
  }

  predicate Bit(s: seq<bv8>, i: nat)
    requires i < 8 * |s|
  {
    s[i / 8] & Mask(i % 8) != 0
  }

  /** How many of the first `n` bits are set. */
  function CountBits(s: seq<bv8>, n: nat): nat
    requires n <= 8 * |s|
  {
    if n == 0 then 0 else CountBits(s, n - 1) + if Bit(s, n - 1) then 1 else 0
  }

  /** The ones of a byte; the table `bitsinbyte` holds these numbers. */
  function Ones(b: bv8): (n: bv8)
  {
    (b & 1) + ((b >> 1) & 1) + ((b >> 2) & 1) + ((b >> 3) & 1)
    + ((b >> 4) & 1) + ((b >> 5) & 1) + ((b >> 6) & 1) + ((b >> 7) & 1)
  }

  function One(b: bv8, k: nat): nat
    requires k < 8
  {
    if b & Mask(k) != 0 then 1 else 0
  }

  lemma OnesIsSum(b: bv8)
    ensures Ones(b) <= 8
    ensures Ones(b) as nat == One(b, 0) + One(b, 1) + One(b, 2) + One(b, 3) + One(b, 4) + One(b, 5)
                           + One(b, 6) + One(b, 7)
  {
  }

  lemma BitOfByte(s: seq<bv8>, i: nat, k: nat)
    requires i < |s| && k < 8
    ensures CountBits(s, 8 * i + k + 1) == CountBits(s, 8 * i + k) + One(s[i], k)
  {
    assert (8 * i + k) / 8 == i && (8 * i + k) % 8 == k;
  }

  lemma CountByte(s: seq<bv8>, i: nat)
    requires i < |s|
    ensures CountBits(s, 8 * (i + 1)) == CountBits(s, 8 * i) + Ones(s[i]) as nat
  {
    hide CountBits, One, Ones;
    OnesIsSum(s[i]);
    BitOfByte(s, i, 0);
    BitOfByte(s, i, 1);
    BitOfByte(s, i, 2);
    BitOfByte(s, i, 3);
    BitOfByte(s, i, 4);
    BitOfByte(s, i, 5);
    BitOfByte(s, i, 6);
    BitOfByte(s, i, 7);
  }

  // ---------------------------------------------------------------- counting in parallel

  function Word32(b0: bv8, b1: bv8, b2: bv8, b3: bv8): bv32 {
    (b0 as bv32) | ((b1 as bv32) << 8) | ((b2 as bv32) << 16) | ((b3 as bv32) << 24)
  }

  /** Three steps on the bytes of a word: pairs, nibbles, bytes. */
  function Pairs(b: bv8): bv8 { (b & 0x55) + ((b >> 1) & 0x55) }
  function Nibbles(b: bv8): bv8 { (b & 0x33) + ((b >> 2) & 0x33) }
  function Total(b: bv8): bv8 { (b + (b >> 4)) & 0x0F }

  predicate SmallNibbles(b: bv8) { b & 0x0F <= 4 && b >> 4 <= 4 }

  /** The steps of `redisPopcount` on a word. */
  function PairsStep(a: bv32): bv32 { a - ((a >> 1) & 0x55555555) }
  function NibblesStep(a: bv32): bv32 { (a & 0x33333333) + ((a >> 2) & 0x33333333) }
  function TotalStep(a: bv32): bv32 { (a + (a >> 4)) & 0x0F0F0F0F }
  function SumStep(a: bv32): bv32 { (a * 0x01010101) >> 24 }

  function InParallel(aux: bv32): bv32 { SumStep(TotalStep(NibblesStep(PairsStep(aux)))) }

  /** Subtracting the high bit of every pair adds its two bits. */
  lemma PairsAdd(a: bv32)
    ensures PairsStep(a) == (a & 0x55555555) + ((a >> 1) & 0x55555555)
  {
    var m := (a >> 1) & 0x55555555;
    assert a == (a & 0x55555555) + (a & 0xAAAAAAAA);
    assert a & 0xAAAAAAAA == m + m;
  }

  lemma PairsInWord(b0: bv8, b1: bv8, b2: bv8, b3: bv8)
    ensures PairsStep(Word32(b0, b1, b2, b3)) == Word32(Pairs(b0), Pairs(b1), Pairs(b2), Pairs(b3))
  {
    hide PairsStep;
    PairsAdd(Word32(b0, b1, b2, b3));
  }

  lemma NibblesInWord(b0: bv8, b1: bv8, b2: bv8, b3: bv8)
    ensures NibblesStep(Word32(b0, b1, b2, b3)) == Word32(Nibbles(b0), Nibbles(b1), Nibbles(b2), Nibbles(b3))
  {
  }

  lemma TotalInWord(b0: bv8, b1: bv8, b2: bv8, b3: bv8)
    requires SmallNibbles(b0) && SmallNibbles(b1) && SmallNibbles(b2) && SmallNibbles(b3)
    ensures TotalStep(Word32(b0, b1, b2, b3)) == Word32(Total(b0), Total(b1), Total(b2), Total(b3))
  {
  }

  function Plus(a: bv8, b: bv8): bv8 { a + b }

  function Sum4(a: bv8, b: bv8, c: bv8, d: bv8): bv8 { Plus(Plus(Plus(a, b), c), d) }

  lemma SumInWord(b0: bv8, b1: bv8, b2: bv8, b3: bv8)
    requires b0 <= 8 && b1 <= 8 && b2 <= 8 && b3 <= 8
    ensures SumStep(Word32(b0, b1, b2, b3)) == Sum4(b0, b1, b2, b3) as bv32
  {
  }

  lemma OnesInSteps(b: bv8)
    ensures SmallNibbles(Nibbles(Pairs(b))) && Total(Nibbles(Pairs(b))) == Ones(b) <= 8
  {
  }

  /** The steps count the ones of the four bytes. */
  lemma ParallelCounts(b0: bv8, b1: bv8, b2: bv8, b3: bv8)
    ensures InParallel(Word32(b0, b1, b2, b3)) == Sum4(Ones(b0), Ones(b1), Ones(b2), Ones(b3)) as bv32
    ensures Ones(b0) <= 8 && Ones(b1) <= 8 && Ones(b2) <= 8 && Ones(b3) <= 8
  {
    hide Word32, Ones, Pairs, Nibbles, Total, SmallNibbles, PairsStep, NibblesStep, TotalStep, SumStep, Sum4;
    PairsInWord(b0, b1, b2, b3);
    NibblesInWord(Pairs(b0), Pairs(b1), Pairs(b2), Pairs(b3));
    OnesInSteps(b0);
    OnesInSteps(b1);
    OnesInSteps(b2);
    OnesInSteps(b3);
    TotalInWord(Nibbles(Pairs(b0)), Nibbles(Pairs(b1)), Nibbles(Pairs(b2)), Nibbles(Pairs(b3)));
    SumInWord(Ones(b0), Ones(b1), Ones(b2), Ones(b3));
  }

  lemma SmallSum(a: bv8, b: bv8, n: bv8)
    requires a <= n <= 24 && b <= 8
    ensures Plus(a, b) as nat == a as nat + b as nat && Plus(a, b) <= n + 8
  {
  }

  lemma SumOfFour(a: bv8, b: bv8, c: bv8, d: bv8)
    requires a <= 8 && b <= 8 && c <= 8 && d <= 8
    ensures Sum4(a, b, c, d) as nat == a as nat + b as nat + c as nat + d as nat
  {
    hide Plus;
    SmallSum(a, b, 8);
    SmallSum(Plus(a, b), c, 16);
    SmallSum(Plus(Plus(a, b), c), d, 24);
  }

  lemma WideAndBack(b: bv8)
    ensures b as bv32 <= 255 && (b as bv32) as bv8 == b
  {
  }

  lemma CountFour(s: seq<bv8>, p: nat)
    requires p + 4 <= |s|
    ensures CountBits(s, 8 * (p + 4))
      == CountBits(s, 8 * p) + Sum4(Ones(s[p]), Ones(s[p + 1]), Ones(s[p + 2]), Ones(s[p + 3])) as nat
  {
    hide CountBits, Ones, Sum4;
    OnesIsSum(s[p]);
    OnesIsSum(s[p + 1]);
    OnesIsSum(s[p + 2]);
    OnesIsSum(s[p + 3]);
    SumOfFour(Ones(s[p]), Ones(s[p + 1]), Ones(s[p + 2]), Ones(s[p + 3]));
    CountByte(s, p);
    CountByte(s, p + 1);
    CountByte(s, p + 2);
    CountByte(s, p + 3);
  }

  /** One word of the string. */
  method WordOnes(s: seq<bv8>, p: nat) returns (n: nat)
    requires p + 4 <= |s|
    ensures CountBits(s, 8 * (p + 4)) == CountBits(s, 8 * p) + n
  {
    hide CountBits, Ones, InParallel, Word32, Sum4;
    ParallelCounts(s[p], s[p + 1], s[p + 2], s[p + 3]);
    WideAndBack(Sum4(Ones(s[p]), Ones(s[p + 1]), Ones(s[p + 2]), Ones(s[p + 3])));
    CountFour(s, p);
    var aux := InParallel(Word32(s[p], s[p + 1], s[p + 2], s[p + 3]));
    n := (aux as bv8) as nat;
  }

  /** `redisPopcount`, for a string at an address that is `align` modulo 8. */
  method Popcount(s: seq<bv8>, align: nat) returns (bits: nat)
    ensures bits == CountBits(s, 8 * |s|)
  {
    hide CountBits, Ones;
    var p, count: int := 0, |s|;
    bits := 0;
    assert CountBits(s, 0) == 0 by { CountNone(s); }
    while (align + p) % 4 != 0 && count > 0
      invariant 0 <= p && count >= 0 && p + count == |s| && bits == CountBits(s, 8 * p)
      decreases count
    {
      CountByte(s, p);
      bits := bits + Ones(s[p]) as nat;
      p := p + 1;
      count := count - 1;
    }
    while count >= 16
      invariant 0 <= p && count >= 0 && p + count == |s| && bits == CountBits(s, 8 * p)
    {
      var aux1 := WordOnes(s, p);
      var aux2 := WordOnes(s, p + 4);
      var aux3 := WordOnes(s, p + 8);
      var aux4 := WordOnes(s, p + 12);
      count := count - 16;
      p := p + 16;
      bits := bits + (aux1 + aux2 + aux3 + aux4);
    }
    while count > 0
      invariant 0 <= p && count >= 0 && p + count == |s| && bits == CountBits(s, 8 * p)
    {
      CountByte(s, p);
      bits := bits + Ones(s[p]) as nat;
      p := p + 1;
      count := count - 1;
    }
  }

  lemma CountNone(s: seq<bv8>)
    ensures CountBits(s, 0) == 0
  {
  }

  // ---------------------------------------------------------------- words of eight bytes

  /** Eight bytes as they are loaded on a little-endian machine. */
  function Load(b0: bv8, b1: bv8, b2: bv8, b3: bv8, b4: bv8, b5: bv8, b6: bv8, b7: bv8): bv64 {
    (b0 as bv64) | ((b1 as bv64) << 8) | ((b2 as bv64) << 16) | ((b3 as bv64) << 24)
    | ((b4 as bv64) << 32) | ((b5 as bv64) << 40) | ((b6 as bv64) << 48) | ((b7 as bv64) << 56)
  }

  function LoadAt(s: seq<bv8>, p: nat): bv64
    requires p + 8 <= |s|
  {
    Load(s[p], s[p + 1], s[p + 2], s[p + 3], s[p + 4], s[p + 5], s[p + 6], s[p + 7])
  }

  const ALL_ONES: bv64 := 0xFFFF_FFFF_FFFF_FFFF

  lemma UniformLoad(b0: bv8, b1: bv8, b2: bv8, b3: bv8, b4: bv8, b5: bv8, b6: bv8, b7: bv8)
    ensures Load(b0, b1, b2, b3, b4, b5, b6, b7) == 0
      <==> b0 == 0 && b1 == 0 && b2 == 0 && b3 == 0 && b4 == 0 && b5 == 0 && b6 == 0 && b7 == 0
    ensures Load(b0, b1, b2, b3, b4, b5, b6, b7) == ALL_ONES
      <==> b0 == 0xFF && b1 == 0xFF && b2 == 0xFF && b3 == 0xFF && b4 == 0xFF && b5 == 0xFF && b6 == 0xFF && b7 == 0xFF
  {
  }

  /** A word of zeros, or of ones, is eight such bytes. */
  lemma UniformWord(s: seq<bv8>, p: nat, ones: bool)
    requires p + 8 <= |s|
    ensures LoadAt(s, p) == (if ones then ALL_ONES else 0)
       <==> forall k :: p <= k < p + 8 ==> s[k] == if ones then 0xFF else 0
  {
    hide Load;
    UniformLoad(s[p], s[p + 1], s[p + 2], s[p + 3], s[p + 4], s[p + 5], s[p + 6], s[p + 7]);
  }

  // ---------------------------------------------------------------- the first bit of a kind

  /** The string continued with zeros. */
  function ByteAt(s: seq<bv8>, i: nat): bv8 { if i < |s| then s[i] else 0 }

  predicate BitAt(s: seq<bv8>, i: nat) { ByteAt(s, i / 8) & Mask(i % 8) != 0 }

  lemma BitAtIsBit(s: seq<bv8>, i: nat)
    ensures BitAt(s, i) == (i < 8 * |s| && Bit(s, i))
  {
  }

  /** No bit of this kind among the first `n`. */
  ghost predicate NoneBefore(s: seq<bv8>, bit: bool, n: nat) {
    forall i :: 0 <= i < n ==> BitAt(s, i) != bit
  }

  lemma ByteSkipped(s: seq<bv8>, bit: bool, i: nat)
    requires NoneBefore(s, bit, 8 * i) && ByteAt(s, i) == if bit then 0 else 0xFF
    ensures NoneBefore(s, bit, 8 * (i + 1))
  {
    forall k | 0 <= k < 8 * (i + 1) ensures BitAt(s, k) != bit {
      if k >= 8 * i { MaskIsBit(k % 8); }
    }
  }

  lemma MaskIsBit(k: nat)
    requires k < 8
    ensures 0 & Mask(k) == 0 && 0xFF & Mask(k) != 0
  {
  }

  lemma WordSkipped(s: seq<bv8>, bit: bool, i: nat)
    requires i + 8 <= |s| && NoneBefore(s, bit, 8 * i) && LoadAt(s, i) == if bit then 0 else ALL_ONES
    ensures NoneBefore(s, bit, 8 * (i + 8))
  {
    hide NoneBefore, LoadAt;
    UniformWord(s, i, !bit);
    var k := 0;
    while k < 8
      invariant k <= 8 && NoneBefore(s, bit, 8 * (i + k))
    {
      assert s[i + k] == if bit then 0 else 0xFF;
      ByteSkipped(s, bit, i + k);
      k := k + 1;
    }
  }

  /** One more byte from the right. */
  function Shl8(w: bv64): bv64 { w << 8 }
  function Or8(w: bv64, b: bv8): bv64 { w | (b as bv64) }
  function Push(w: bv64, b: bv8): bv64 { Or8(Shl8(w), b) }

  /** The word that the loading loop has after `j` bytes. */
  function Loaded(s: seq<bv8>, p: nat, j: nat): bv64 {
    if j == 0 then 0 else Push(Loaded(s, p, j - 1), ByteAt(s, p + j - 1))
  }

  function Big(b0: bv8, b1: bv8, b2: bv8, b3: bv8, b4: bv8, b5: bv8, b6: bv8, b7: bv8): bv64 {
    ((b0 as bv64) << 56) | ((b1 as bv64) << 48) | ((b2 as bv64) << 40) | ((b3 as bv64) << 32)
    | ((b4 as bv64) << 24) | ((b5 as bv64) << 16) | ((b6 as bv64) << 8) | (b7 as bv64)
  }

  lemma PushedIsBig(b0: bv8, b1: bv8, b2: bv8, b3: bv8, b4: bv8, b5: bv8, b6: bv8, b7: bv8)
    ensures Push(Push(Push(Push(Push(Push(Push(Push(0, b0), b1), b2), b3), b4), b5), b6), b7)
         == Big(b0, b1, b2, b3, b4, b5, b6, b7)
  {
  }

  function BigAt(s: seq<bv8>, p: nat): bv64 {
    Big(ByteAt(s, p), ByteAt(s, p + 1), ByteAt(s, p + 2), ByteAt(s, p + 3),
        ByteAt(s, p + 4), ByteAt(s, p + 5), ByteAt(s, p + 6), ByteAt(s, p + 7))
  }

  lemma LoadedIsBig(s: seq<bv8>, p: nat)
    ensures Loaded(s, p, 8) == BigAt(s, p)
  {
    hide ByteAt, Big, Push;
    assert Loaded(s, p, 0) == 0;
    assert Loaded(s, p, 2) == Push(Push(0, ByteAt(s, p)), ByteAt(s, p + 1));
    assert Loaded(s, p, 4) == Push(Push(Loaded(s, p, 2), ByteAt(s, p + 2)), ByteAt(s, p + 3));
    assert Loaded(s, p, 6) == Push(Push(Loaded(s, p, 4), ByteAt(s, p + 4)), ByteAt(s, p + 5));
    PushedIsBig(ByteAt(s, p), ByteAt(s, p + 1), ByteAt(s, p + 2), ByteAt(s, p + 3),
                ByteAt(s, p + 4), ByteAt(s, p + 5), ByteAt(s, p + 6), ByteAt(s, p + 7));
  }

  /** A mask moved to byte `j` of a word, from the left. */
  function Moved(m: bv8, j: nat): bv64
    requires j < 8
  {
    var w := m as bv64;
    if j == 0 then w << 56 else if j == 1 then w << 48 else if j == 2 then w << 40 else if j == 3 then w << 32
    else if j == 4 then w << 24 else if j == 5 then w << 16 else if j == 6 then w << 8 else w
  }

  /** A single one at place `i` of a word, from the left. */
  function OneAt(i: nat): bv64
    requires i < 64
  {
    Moved(Mask(i % 8), i / 8)
  }

  function Half(w: bv64): bv64 { w >> 1 }

  lemma MovedMoves(k: nat, j: nat)
    requires k < 8 && j < 8
    ensures k < 7 ==> Half(Moved(Mask(k), j)) == Moved(Mask(k + 1), j)
  {
  }

  lemma MovedCrosses(j: nat)
    requires j < 8
    ensures Half(Moved(Mask(7), j)) == if j < 7 then Moved(Mask(0), j + 1) else 0
  {
  }

  lemma MovedNonzero(k: nat, j: nat)
    requires k < 8 && j < 8
    ensures Moved(Mask(k), j) != 0
  {
  }

  lemma OneMoves(i: nat)
    requires i < 64
    ensures OneAt(i) != 0 && Half(OneAt(i)) == if i < 63 then OneAt(i + 1) else 0
  {
    hide Mask, Moved, Half;
    var j, k := i / 8, i % 8;
    MovedNonzero(k, j);
    MovedMoves(k, j);
    MovedCrosses(j);
    if k < 7 {
      assert (i + 1) / 8 == j && (i + 1) % 8 == k + 1;
    } else {
      assert i < 63 ==> (i + 1) / 8 == j + 1 && (i + 1) % 8 == 0;
    }
  }

  predicate Meet(a: bv64, b: bv64) { a & b != 0 }

  predicate Has(b: bv8, m: bv8) { b & m != 0 }

  /** The mask of the next byte meets a word where this one meets it shifted. */
  lemma MovedRight(m: bv8, j: nat)
    requires j < 7
    ensures Moved(m, j + 1) == Moved(m, j) >> 8 && Moved(m, j) & 0xFF == 0
  {
  }

  lemma MeetShifted(t: bv64, w: bv64)
    requires t & 0xFF == 0
    ensures Meet(t >> 8, w) <==> Meet(t, Shl8(w))
  {
  }

  lemma FirstByte(b0: bv8, b1: bv8, b2: bv8, b3: bv8, b4: bv8, b5: bv8, b6: bv8, b7: bv8, m: bv8)
    ensures Meet(Moved(m, 0), Big(b0, b1, b2, b3, b4, b5, b6, b7)) <==> Has(b0, m)
  {
  }

  lemma ShiftedOut(b0: bv8, b1: bv8, b2: bv8, b3: bv8, b4: bv8, b5: bv8, b6: bv8, b7: bv8)
    ensures Shl8(Big(b0, b1, b2, b3, b4, b5, b6, b7)) == Big(b1, b2, b3, b4, b5, b6, b7, 0)
  {
  }

  lemma MovedMeets(m: bv8, j: nat, w: bv64)
    requires j < 7
    ensures Meet(Moved(m, j + 1), w) <==> Meet(Moved(m, j), Shl8(w))
  {
    MovedRight(m, j);
    hide Moved, Meet, Shl8;
    MeetShifted(Moved(m, j), w);
  }

  lemma {:induction false} BytesMeet(b0: bv8, b1: bv8, b2: bv8, b3: bv8, b4: bv8, b5: bv8, b6: bv8, b7: bv8, m: bv8,
                                     j: nat)
    requires j < 8
    ensures Meet(Moved(m, j), Big(b0, b1, b2, b3, b4, b5, b6, b7)) <==> Has([b0, b1, b2, b3, b4, b5, b6, b7][j], m)
    decreases j
  {
    hide Moved, Meet, Shl8, Big, Has;
    if j == 0 {
      FirstByte(b0, b1, b2, b3, b4, b5, b6, b7, m);
    } else {
      MovedMeets(m, j - 1, Big(b0, b1, b2, b3, b4, b5, b6, b7));
      ShiftedOut(b0, b1, b2, b3, b4, b5, b6, b7);
      BytesMeet(b1, b2, b3, b4, b5, b6, b7, 0, m, j - 1);
    }
  }

  lemma BigMeets(s: seq<bv8>, p: nat, m: bv8, j: nat)
    requires j < 8
    ensures Meet(Moved(m, j), BigAt(s, p)) <==> Has(ByteAt(s, p + j), m)
  {
    hide Big, Meet, ByteAt, Moved, Has;
    BytesMeet(ByteAt(s, p), ByteAt(s, p + 1), ByteAt(s, p + 2), ByteAt(s, p + 3),
              ByteAt(s, p + 4), ByteAt(s, p + 5), ByteAt(s, p + 6), ByteAt(s, p + 7), m, j);
  }

  lemma BitIsHas(s: seq<bv8>, j: nat, k: nat)
    requires k < 8
    ensures BitAt(s, 8 * j + k) == Has(ByteAt(s, j), Mask(k))
  {
    hide ByteAt, Mask;
    assert (8 * j + k) / 8 == j && (8 * j + k) % 8 == k;
  }

  /** Bit `i` of the loaded word is bit `i` of the string from that byte on. */
  lemma WordBit(s: seq<bv8>, p: nat, i: nat)
    requires i < 64
    ensures Meet(OneAt(i), BigAt(s, p)) <==> BitAt(s, 8 * p + i)
  {
    hide Meet, Moved, BigAt, ByteAt, Mask, Has;
    BitIsHas(s, p + i / 8, i % 8);
    BigMeets(s, p, Mask(i % 8), i / 8);
    assert 8 * (p + i / 8) + i % 8 == 8 * p + i;
  }

  /** A word without bits is zero, a word with all bits is made of bytes 0xFF. */
  lemma AllBits(s: seq<bv8>, p: nat, ones: bool)
    requires forall i :: 8 * p <= i < 8 * p + 64 ==> BitAt(s, i) == ones
    ensures forall k :: p <= k < p + 8 ==> ByteAt(s, k) == if ones then 0xFF else 0
  {
    hide ByteAt, BitAt;
    forall k | p <= k < p + 8 ensures ByteAt(s, k) == if ones then 0xFF else 0 {
      AllBitsOfByte(s, k, ones);
    }
  }

  lemma AllBitsOfByte(s: seq<bv8>, k: nat, ones: bool)
    requires forall i :: 8 * k <= i < 8 * k + 8 ==> BitAt(s, i) == ones
    ensures ByteAt(s, k) == if ones then 0xFF else 0
  {
    hide ByteAt;
    forall j | 0 <= j < 8 ensures (ByteAt(s, k) & Mask(j) != 0) == ones {
      assert (8 * k + j) / 8 == k && (8 * k + j) % 8 == j;
      assert BitAt(s, 8 * k + j) == ones;
    }
    UniformByte(ByteAt(s, k), ones);
  }

  lemma UniformByte(b: bv8, ones: bool)
    requires forall j: nat :: j < 8 ==> (b & Mask(j) != 0) == ones
    ensures b == if ones then 0xFF else 0
  {
    assert (b & Mask(0) != 0) == ones && (b & Mask(1) != 0) == ones;
    assert (b & Mask(2) != 0) == ones && (b & Mask(3) != 0) == ones;
    assert (b & Mask(4) != 0) == ones && (b & Mask(5) != 0) == ones;
    assert (b & Mask(6) != 0) == ones && (b & Mask(7) != 0) == ones;
  }

  lemma NotZeroWord(s: seq<bv8>, p: nat)
    requires forall k :: p <= k < p + 8 ==> ByteAt(s, k) == 0
    ensures BigAt(s, p) == 0
  {
    hide ByteAt;
    assert ByteAt(s, p) == 0 && ByteAt(s, p + 1) == 0 && ByteAt(s, p + 2) == 0 && ByteAt(s, p + 3) == 0;
    assert ByteAt(s, p + 4) == 0 && ByteAt(s, p + 5) == 0 && ByteAt(s, p + 6) == 0 && ByteAt(s, p + 7) == 0;
  }

  // ---------------------------------------------------------------- redisBitpos

  /** The answer: the first bit of the kind; without one, -1 for ones, the length in bits for zeros. */
  ghost predicate IsBitpos(s: seq<bv8>, bit: bool, pos: int) {
    if 0 <= pos < 8 * |s| then Bit(s, pos) == bit && forall i :: 0 <= i < pos ==> Bit(s, i) != bit
    else pos == (if bit then -1 else 8 * |s|) && forall i :: 0 <= i < 8 * |s| ==> Bit(s, i) != bit
  }

  /** The scan of the last word found the bit, perhaps among the zeros behind the string. */
  lemma FoundAt(s: seq<bv8>, bit: bool, pos: nat)
    requires NoneBefore(s, bit, pos) && BitAt(s, pos) == bit
    ensures IsBitpos(s, bit, pos)
  {
    BitAtIsBit(s, pos);
    forall i: nat | i < 8 * |s| ensures BitAt(s, i) == Bit(s, i) { BitAtIsBit(s, i); }
    if pos >= 8 * |s| {
      if pos > 8 * |s| { BitAtIsBit(s, 8 * |s|); }
    }
  }

  lemma NoOneLeft(s: seq<bv8>, p: nat)
    requires NoneBefore(s, true, 8 * p) && p <= |s| < p + 8 && BigAt(s, p) == 0
    ensures IsBitpos(s, true, -1)
  {
    hide BigAt, BitAt, NoneBefore;
    forall i: nat | i < 8 * |s| ensures Bit(s, i) != true {
      BitAtIsBit(s, i);
      if i >= 8 * p {
        WordBit(s, p, i - 8 * p);
        ZeroMeetsNothing(OneAt(i - 8 * p));
      } else {
        NoneAt(s, true, 8 * p, i);
      }
    }
  }

  lemma ZeroMeetsNothing(a: bv64)
    ensures !Meet(a, 0)
  {
  }

  lemma NoneAt(s: seq<bv8>, bit: bool, n: nat, i: nat)
    requires NoneBefore(s, bit, n) && i < n
    ensures BitAt(s, i) != bit
  {
  }

  /** The loading of the last word: what is left of the string, continued with zeros. */
  method LoadBig(s: seq<bv8>, p: nat) returns (word: bv64)
    requires p <= |s|
    ensures word == BigAt(s, p)
  {
    hide BigAt, Shl8, Or8;
    word := 0;
    var c, count, j := p, |s| - p, 0;
    while j < 8
      invariant j <= 8 && 0 <= count && word == Loaded(s, p, j)
      invariant if count > 0 then c == p + j && c + count == |s| else |s| <= p + j
    {
      word := Shl8(word);
      OrZero(word);
      if count > 0 {
        word := Or8(word, s[c]);
        c := c + 1;
        count := count - 1;
      }
      j := j + 1;
    }
    LoadedIsBig(s, p);
  }

  lemma OrZero(w: bv64)
    ensures Or8(w, 0) == w
  {
  }

  /** The scan of the last word. */
  method ScanWord(s: seq<bv8>, p: nat, bit: bool, word: bv64) returns (pos: int)
    requires p <= |s| && NoneBefore(s, bit, 8 * p) && word == BigAt(s, p)
    requires exists i :: 8 * p <= i < 8 * p + 64 && BitAt(s, i) == bit
    ensures IsBitpos(s, bit, pos)
  {
    hide BigAt, Meet, OneAt, BitAt, Half;
    var one := OneAt(0);
    pos := 8 * p;
    ghost var i: nat := 0;
    while one != 0
      invariant i <= 64 && pos == 8 * p + i && one == if i < 64 then OneAt(i) else 0
      invariant NoneBefore(s, bit, 8 * p + i)
      decreases 64 - i
    {
      if i == 64 { assert false; }
      WordBit(s, p, i);
      if Meet(one, word) == bit {
        FoundAt(s, bit, pos);
        return;
      }
      OneMoves(i);
      pos := pos + 1;
      one := Half(one);
      i := i + 1;
    }
    if i < 64 { OneMoves(i); }
    assert false;
  }

  /** `redisBitpos`. */
  method Bitpos(s: seq<bv8>, align: nat, bit: bool) returns (pos: int)
    ensures IsBitpos(s, bit, pos)
  {
    hide NoneBefore, LoadAt, BigAt, IsBitpos;
    var skipval: bv8 := if bit then 0 else 0xFF;
    var c, count: int := 0, |s|;
    NoBitsYet(s, bit);
    while (align + c) % 8 != 0 && count > 0
      invariant 0 <= c && 0 <= count && c + count == |s| && NoneBefore(s, bit, 8 * c)
      decreases count
    {
      if s[c] != skipval { break; }
      ByteSkipped(s, bit, c);
      c := c + 1;
      count := count - 1;
    }
    var skipword := if bit then 0 else ALL_ONES;
    while count >= 8
      invariant 0 <= c && 0 <= count && c + count == |s| && NoneBefore(s, bit, 8 * c)
    {
      if LoadAt(s, c) != skipword { break; }
      WordSkipped(s, bit, c);
      c := c + 8;
      count := count - 8;
    }
    var word := LoadBig(s, c);
    if bit && word == 0 {
      ZeroWordMeans(s, c, bit);
      pos := -1;
      return;
    }
    BitIsThere(s, c, bit);
    pos := ScanWord(s, c, bit, word);
  }

  lemma NoBitsYet(s: seq<bv8>, bit: bool)
    ensures NoneBefore(s, bit, 0)
  {
  }

  /** The two ways of loading eight bytes agree on which words are zero. */
  lemma ZeroBothWays(s: seq<bv8>, p: nat)
    requires p + 8 <= |s| && BigAt(s, p) == 0
    ensures LoadAt(s, p) == 0
  {
    hide LoadAt, BitAt;
    forall i | 8 * p <= i < 8 * p + 64 ensures !BitAt(s, i) {
      hide BigAt;
      WordBit(s, p, i - 8 * p);
      ZeroMeetsNothing(OneAt(i - 8 * p));
    }
    AllBits(s, p, false);
    UniformWord(s, p, false);
    assert forall k :: p <= k < p + 8 ==> s[k] == ByteAt(s, k);
  }

  lemma OnesAreLoaded(s: seq<bv8>, p: nat)
    requires p + 8 <= |s| && forall k :: p <= k < p + 8 ==> ByteAt(s, k) == 0xFF
    ensures LoadAt(s, p) == ALL_ONES
  {
    hide LoadAt;
    UniformWord(s, p, true);
    assert forall k :: p <= k < p + 8 ==> s[k] == ByteAt(s, k);
  }

  /** The word is zero only when fewer than eight bytes are left: the whole words were skipped. */
  lemma ZeroWordMeans(s: seq<bv8>, p: nat, bit: bool)
    requires bit && p <= |s| && NoneBefore(s, bit, 8 * p) && BigAt(s, p) == 0
    requires p + 8 <= |s| ==> LoadAt(s, p) != 0
    ensures IsBitpos(s, bit, -1)
  {
    hide LoadAt, NoneBefore, IsBitpos, BigAt;
    if p + 8 <= |s| {
      ZeroBothWays(s, p);
    } else {
      NoOneLeft(s, p);
    }
  }

  /** The last word has a bit of the kind: else it would have been skipped, or it is zero. */
  lemma BitIsThere(s: seq<bv8>, p: nat, bit: bool)
    requires p <= |s| && (p + 8 <= |s| ==> LoadAt(s, p) != if bit then 0 else ALL_ONES)
    requires bit ==> BigAt(s, p) != 0
    ensures exists i :: 8 * p <= i < 8 * p + 64 && BitAt(s, i) == bit
  {
    hide LoadAt, BitAt, BigAt;
    if forall i :: 8 * p <= i < 8 * p + 64 ==> BitAt(s, i) == !bit {
      AllBits(s, p, !bit);
      if bit {
        NotZeroWord(s, p);
      } else {
        assert ByteAt(s, p + 7) == 0xFF;
        OnesAreLoaded(s, p);
      }
    }
  }
}
