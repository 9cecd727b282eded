/** `rand.c`: the linear congruential generator of drand48, computed on three 16-bit limbs. */
module Rand {

  const MASK: nat := 0xFFFF
  const A0: nat := 0xE66D
  const A1: nat := 0xDEEC
  const A2: nat := 0x5
  const C: nat := 0xB
  const X0: nat := 0x330E
  const X1: nat := 0xABCD
  const X2: nat := 0x1234

  /** The multiplier, the modulus, and the inverse of the multiplier. */
  const A: nat := 0x5DEECE66D
  const M: nat := 0x1_0000_0000_0000
  const INVERSE: nat := 0xdfe05bcb1365

  // ---------------------------------------------------------------- machine arithmetic

  /** Conversion to `int32_t` and to `uint32_t`. */
  function Int32(v: int): (r: int)
    ensures -0x8000_0000 <= r < 0x8000_0000
  {
    var u := v % 0x1_0000_0000;
    if u < 0x8000_0000 then u else u - 0x1_0000_0000
  }

  function Uint32(v: int): (r: nat)
    ensures r < 0x1_0000_0000
  {
    v % 0x1_0000_0000
  }

  /** The macros LOW and HIGH; the shift of a signed number rounds down. */
  function LOW(v: int): (r: nat)
    ensures r <= MASK
  {
    Uint32(v) % 0x1_0000
  }

  function HIGH(v: int): (r: nat)
    ensures r <= MASK
  {
    LOW(v / 0x1_0000)
  }

  /** The macro MUL keeps both halves of the product, although it goes through a signed number. */
  function MUL(x: int, y: int): (nat, nat) {
    var l := Int32(x * y);
    (LOW(l), HIGH(l))
  }

  lemma LowIsMod(v: int)
    ensures LOW(v) == v % 0x1_0000
  {
    var q := v / 0x1_0000_0000;
    assert v == 0x1_0000 * (0x1_0000 * q) + Uint32(v);
  }

  lemma LowHigh(v: nat)
    requires v < 0x1_0000_0000
    ensures LOW(Int32(v)) == v % 0x1_0000 && HIGH(Int32(v)) == v / 0x1_0000
    ensures LOW(v) == v % 0x1_0000
  {
    hide LOW;
    LowIsMod(v);
    LowIsMod(Int32(v));
    LowIsMod(Int32(v) / 0x1_0000);
    if v >= 0x8000_0000 {
      assert Int32(v) == v - 0x1_0000_0000;
      assert Int32(v) / 0x1_0000 == v / 0x1_0000 - 0x1_0000;
    }
  }

  function CARRY(x: int, y: int): (r: nat)
    ensures r <= 1
  {
    if Int32(x) + y > MASK then 1 else 0
  }

  // ---------------------------------------------------------------- states

  predicate Limbs(x: seq<nat>) { |x| == 3 && forall i :: 0 <= i < 3 ==> x[i] <= MASK }

  /** The 48-bit number in three limbs. */
  function Value(x: seq<nat>): (v: nat)
    requires Limbs(x)
    ensures v < M
  {
    x[0] + 0x1_0000 * x[1] + 0x1_0000_0000 * x[2]
  }

  lemma LowDigit(x: nat, y: nat, q: nat, r: nat)
    requires x <= MASK && y <= MASK && x + 0x1_0000 * q == y + 0x1_0000 * r
    ensures x == y && q == r
  {
  }

  lemma ValueIsInjective(x: seq<nat>, y: seq<nat>)
    requires Limbs(x) && Limbs(y) && Value(x) == Value(y)
    ensures x == y
  {
    LowDigit(x[0], y[0], x[1] + 0x1_0000 * x[2], y[1] + 0x1_0000 * y[2]);
    LowDigit(x[1], y[1], x[2], y[2]);
    assert x == [x[0], x[1], x[2]] && y == [y[0], y[1], y[2]];
  }

  /** The specification of drand48 in POSIX.1-2008, System Interfaces. */
  function Step(v: nat): (r: nat)
    ensures r < M
  {
    (A * v + C) % M
  }

  // ---------------------------------------------------------------- the arithmetic

  /** What the statements of `next` leave in the limbs. */
  function Limb0(y0: nat): (r: nat)
    ensures r <= MASK
  {
    LOW(LOW(MUL(A0, y0).0 + C))
  }

  function Mid(y0: nat, y1: nat): nat {
    var (p0, p1) := MUL(A0, y0);
    LOW(LOW(p1 + CARRY(p0, C)) + MUL(A0, y1).0)
  }

  function Limb1(y0: nat, y1: nat): (r: nat)
    ensures r <= MASK
  {
    LOW(Mid(y0, y1) + MUL(A1, y0).0)
  }

  function Limb2(y0: nat, y1: nat, y2: nat): (r: nat)
    ensures r <= MASK
  {
    var (p0, p1) := MUL(A0, y0);
    var carry0 := CARRY(p0, C);
    var carry1 := CARRY(p1, carry0);
    var (q0, q1) := MUL(A0, y1);
    var (r0, r1) := MUL(A1, y0);
    LOW(CARRY(LOW(p1 + carry0), q0) + carry1 + CARRY(Mid(y0, y1), r0) + q1 + r1 + A0 * y2 + A1 * y1 + A2 * y0)
  }

  /** The three limbs after `next`. */
  function NextLimbs(y: seq<nat>): (r: seq<nat>)
    requires Limbs(y)
    ensures Limbs(r)
  {
    [Limb0(y[0]), Limb1(y[0], y[1]), Limb2(y[0], y[1], y[2])]
  }

  lemma MulHalves(a: nat, x: nat)
    requires a <= MASK && x <= MASK
    ensures a * x < 0x1_0000_0000
    ensures MUL(a, x).0 + 0x1_0000 * MUL(a, x).1 == a * x
    ensures MUL(a, x).0 <= MASK && MUL(a, x).1 <= MASK
  {
    hide LOW, HIGH, Int32;
    assert a * x <= MASK * MASK by { ProductBound(a, x); }
    LowHigh(a * x);
  }

  lemma ProductBound(a: nat, x: nat)
    requires a <= MASK && x <= MASK
    ensures a * x <= MASK * MASK
  {
    assert a * (MASK - x) >= 0;
    assert a * MASK <= MASK * MASK;
  }

  lemma TopBits(x0: nat, x1: nat, x2: nat)
    requires x0 <= MASK && x1 <= MASK && x2 <= MASK
    ensures Int32(Uint32(Int32(x2) * 0x8000 + x1 / 2)) == (x0 + 0x1_0000 * x1 + 0x1_0000_0000 * x2) / 0x2_0000
    ensures 0 <= Int32(Uint32(Int32(x2) * 0x8000 + x1 / 2)) < 0x8000_0000
  {
    var t := x2 * 0x8000 + x1 / 2;
    assert t < 0x8000_0000;
    assert x0 + 0x1_0000 * x1 + 0x1_0000_0000 * x2 == 0x2_0000 * t + (x1 % 2) * 0x1_0000 + x0;
  }

  lemma SeedHalves(v: int)
    requires -0x8000_0000 <= v < 0x8000_0000
    ensures LOW(v) + 0x1_0000 * HIGH(v) == Uint32(v)
  {
    hide LOW, HIGH;
    assert Int32(Uint32(v)) == v;
    LowHigh(Uint32(v));
  }

  /** A sum of two limbs is a limb and a carry. */
  lemma SumHalves(x: nat, y: nat)
    requires x <= MASK && y <= MASK
    ensures LOW(x + y) + 0x1_0000 * CARRY(x, y) == x + y && LOW(x) == x
  {
  }

  lemma LowTwice(v: int)
    ensures LOW(LOW(v)) == LOW(v)
  {
  }

  lemma LowOfSum(s: nat) returns (k: nat)
    ensures LOW(s) + 0x1_0000 * k == s
  {
    k := s / 0x1_0000;
  }

  lemma ModIs(t: int, v: nat, k: int)
    requires v < M && t == v + M * k
    ensures t % M == v
  {
  }

  lemma Column0(y0: nat)
    requires y0 <= MASK
    ensures var (p0, p1) := MUL(A0, y0);
      p0 + 0x1_0000 * p1 == A0 * y0 && Limb0(y0) + 0x1_0000 * CARRY(p0, C) == p0 + C
  {
    hide LOW, HIGH, MUL, CARRY, Int32, Uint32;
    MulHalves(A0, y0);
    SumHalves(MUL(A0, y0).0, C);
    LowTwice(MUL(A0, y0).0 + C);
  }

  lemma Column1(y0: nat, y1: nat)
    requires y0 <= MASK && y1 <= MASK
    ensures var (p0, p1) := MUL(A0, y0);
      var (q0, q1) := MUL(A0, y1);
      var (r0, r1) := MUL(A1, y0);
      var carry0 := CARRY(p0, C);
      var p1' := LOW(p1 + carry0);
      && q0 + 0x1_0000 * q1 == A0 * y1 && r0 + 0x1_0000 * r1 == A1 * y0
      && p1' + 0x1_0000 * CARRY(p1, carry0) == p1 + carry0
      && Mid(y0, y1) + 0x1_0000 * CARRY(p1', q0) == p1' + q0
      && Limb1(y0, y1) + 0x1_0000 * CARRY(Mid(y0, y1), r0) == Mid(y0, y1) + r0
  {
    hide LOW, HIGH, MUL, CARRY, Int32, Uint32;
    MulHalves(A0, y0);
    MulHalves(A0, y1);
    MulHalves(A1, y0);
    var p1, carry0 := MUL(A0, y0).1, CARRY(MUL(A0, y0).0, C);
    SumHalves(p1, carry0);
    SumHalves(LOW(p1 + carry0), MUL(A0, y1).0);
    SumHalves(Mid(y0, y1), MUL(A1, y0).0);
  }

  /** No carry is lost: the three limbs are the whole result modulo 2^48. */
  lemma NoLostCarry(y0: nat, y1: nat, y2: nat)
    requires y0 <= MASK && y1 <= MASK && y2 <= MASK
    ensures Limb0(y0) + 0x1_0000 * Limb1(y0, y1) + 0x1_0000_0000 * Limb2(y0, y1, y2)
         == Step(y0 + 0x1_0000 * y1 + 0x1_0000_0000 * y2)
  {
    hide LOW, HIGH, MUL, CARRY, Int32, Uint32, Step, Limb0, Mid, Limb1;
    Column0(y0);
    Column1(y0, y1);
    var (p0, p1) := MUL(A0, y0);
    var (q0, q1) := MUL(A0, y1);
    var (r0, r1) := MUL(A1, y0);
    var carry0 := CARRY(p0, C);
    var p1' := LOW(p1 + carry0);
    var carry1, carry2, carry3 := CARRY(p1, carry0), CARRY(p1', q0), CARRY(Mid(y0, y1), r0);
    var k := LowOfSum(carry2 + carry1 + carry3 + q1 + r1 + A0 * y2 + A1 * y1 + A2 * y0);
    Assemble(y0, y1, y2, p0, p1, q0, q1, r0, r1, carry0, carry1, carry2, carry3, p1', Mid(y0, y1),
             Limb0(y0), Limb1(y0, y1), Limb2(y0, y1, y2), k);
  }

  /** The sum of the partial products, column by column. */
  lemma Assemble(y0: nat, y1: nat, y2: nat, p0: nat, p1: nat, q0: nat, q1: nat, r0: nat, r1: nat,
                 carry0: nat, carry1: nat, carry2: nat, carry3: nat, p1': nat, mid: nat,
                 x0: nat, x1: nat, x2: nat, k: nat)
    requires p0 + 0x1_0000 * p1 == A0 * y0 && q0 + 0x1_0000 * q1 == A0 * y1 && r0 + 0x1_0000 * r1 == A1 * y0
    requires x0 + 0x1_0000 * carry0 == p0 + C && p1' + 0x1_0000 * carry1 == p1 + carry0
    requires mid + 0x1_0000 * carry2 == p1' + q0 && x1 + 0x1_0000 * carry3 == mid + r0
    requires x2 + 0x1_0000 * k == carry2 + carry1 + carry3 + q1 + r1 + A0 * y2 + A1 * y1 + A2 * y0
    requires x0 <= MASK && x1 <= MASK && x2 <= MASK
    ensures x0 + 0x1_0000 * x1 + 0x1_0000_0000 * x2 == Step(y0 + 0x1_0000 * y1 + 0x1_0000_0000 * y2)
  {
    ModIs(A * (y0 + 0x1_0000 * y1 + 0x1_0000_0000 * y2) + C, x0 + 0x1_0000 * x1 + 0x1_0000_0000 * x2,
          k + A1 * y2 + A2 * y1 + 0x1_0000 * A2 * y2);
  }

  // ---------------------------------------------------------------- the generator

  class Generator {
    var x: array<nat>
    const a: seq<nat> := [A0, A1, A2]
    const c: nat := C

    ghost predicate Ok()
      reads this, x
    {
      x.Length == 3 && Limbs(x[..])
    }

    constructor ()
      ensures Ok() && fresh(x) && Value(x[..]) == 0x1234ABCD330E
    {
      x := new nat[3][X0, X1, X2];
    }

    /** `next`, statement by statement. */
    method Next()
      requires Ok()
      modifies x
      ensures Ok() && x[..] == NextLimbs(old(x[..])) && Value(x[..]) == Step(old(Value(x[..])))
    {
      hide LOW, HIGH, MUL, CARRY, Int32, Uint32, Step;
      ghost var y0, y1, y2 := x[0], x[1], x[2];
      assert x[..] == [y0, y1, y2];
      var (p0, p1) := MUL(a[0], x[0]);
      var carry0 := CARRY(p0, c);
      p0 := LOW(p0 + c);
      var carry1 := CARRY(p1, carry0);
      p1 := LOW(p1 + carry0);
      var (q0, q1) := MUL(a[0], x[1]);
      carry0 := CARRY(p1, q0);
      p1 := LOW(p1 + q0);
      var (r0, r1) := MUL(a[1], x[0]);
      x[2] := LOW(carry0 + carry1 + CARRY(p1, r0) + q1 + r1 + a[0] * x[2] + a[1] * x[1] + a[2] * x[0]);
      x[1] := LOW(p1 + r0);
      x[0] := LOW(p0);
      assert x[..] == [x[0], x[1], x[2]];
      NoLostCarry(y0, y1, y2);
    }

    /** `redisLrand48`. */
    method Lrand48() returns (r: int)
      requires Ok()
      modifies x
      ensures Ok() && Value(x[..]) == Step(old(Value(x[..])))
      ensures r == Value(x[..]) / 0x2_0000 && 0 <= r < 0x8000_0000
    {
      hide Step, Int32, Uint32;
      Next();
      TopBits(x[0], x[1], x[2]);
      r := Int32(Uint32(Int32(x[2]) * 0x8000 + x[1] / 2));
    }

    /** `redisSrand48`: the seed gives the high 32 bits of the state. */
    method Srand48(seedval: int)
      requires -0x8000_0000 <= seedval < 0x8000_0000
      requires x.Length == 3
      modifies x
      ensures Ok() && Value(x[..]) == X0 + 0x1_0000 * Uint32(seedval)
    {
      hide LOW, HIGH, Uint32;
      x[0], x[1], x[2] := X0, LOW(seedval), HIGH(seedval);
      assert x[..] == [X0, LOW(seedval), HIGH(seedval)];
      SeedHalves(seedval);
    }
  }

  // ---------------------------------------------------------------- the sequence of states

  /** The state before. */
  function Back(v: nat): (r: nat)
    ensures r < M
  {
    INVERSE * (v - C) % M
  }

  /** Every state has exactly one predecessor: the generator permutes the 48-bit numbers. */
  lemma StepIsInvertible(v: nat)
    requires v < M
    ensures Back(Step(v)) == v && Step(Back(v)) == v
  {
    var k := (A * v + C) / M;
    assert Step(v) == A * v + C - M * k;
    assert INVERSE * A == 1 + M * 22050866921;
    ModIs(INVERSE * (Step(v) - C), v, 22050866921 * v - INVERSE * k);
    var j := INVERSE * (v - C) / M;
    assert Back(v) == INVERSE * (v - C) - M * j;
    ModIs(A * Back(v) + C, v, 22050866921 * (v - C) - A * j);
  }

  lemma StepIsInjective(v: nat, w: nat)
    requires v < M && w < M && Step(v) == Step(w)
    ensures v == w
  {
    hide Step, Back;
    StepIsInvertible(v);
    StepIsInvertible(w);
  }

  /** On the limbs themselves: `next` takes different states to different states. */
  lemma NextIsInjective(x: seq<nat>, y: seq<nat>)
    requires Limbs(x) && Limbs(y) && NextLimbs(x) == NextLimbs(y)
    ensures x == y
  {
    hide Step, Limb0, Limb1, Limb2;
    NoLostCarry(x[0], x[1], x[2]);
    NoLostCarry(y[0], y[1], y[2]);
    StepIsInjective(Value(x), Value(y));
    ValueIsInjective(x, y);
  }
}
