/** The dense HyperLogLog representation: 16384 six-bit registers packed into bytes. */
module HllDense {

  const REGISTERS: nat := 16384
  /** 12288 bytes of registers and the terminator of the string. */
  const DENSE_BYTES: nat := 12289

  // ---------------------------------------------------------------- the access macros

  function ByteOf(reg: nat): nat { reg * 6 / 8 }

  function ShiftOf(reg: nat): (fb: bv4)
    ensures fb <= 6
  {
    if reg * 6 % 8 == 0 then 0 else if reg * 6 % 8 == 2 then 2 else if reg * 6 % 8 == 4 then 4 else 6
  }

  /** HLL_DENSE_GET_REGISTER on the two bytes that hold a register. */
  function Get2(b0: bv8, b1: bv8, fb: bv4): bv8
    requires fb <= 6
  {
    ((b0 >> fb) | (b1 << (8 - fb))) & 63
  }

  /** HLL_DENSE_SET_REGISTER, first byte. */
  function SetLow(b0: bv8, fb: bv4, v: bv8): bv8
    requires fb <= 6
  {
    (b0 & !(63 << fb)) | (v << fb)
  }

  /** HLL_DENSE_SET_REGISTER, second byte. */
  function SetHigh(b1: bv8, fb: bv4, v: bv8): bv8
    requires fb <= 6
  {
    (b1 & !(63 >> (8 - fb))) | (v >> (8 - fb))
  }

  function Get(d: seq<bv8>, reg: nat): bv8
    requires |d| == DENSE_BYTES && reg < REGISTERS
  {
    Get2(d[ByteOf(reg)], d[ByteOf(reg) + 1], ShiftOf(reg))
  }

  function Set(d: seq<bv8>, reg: nat, v: bv8): (r: seq<bv8>)
    requires |d| == DENSE_BYTES && reg < REGISTERS
    ensures |r| == DENSE_BYTES
  {
    var b := ByteOf(reg);
    d[b := SetLow(d[b], ShiftOf(reg), v)][b + 1 := SetHigh(d[b + 1], ShiftOf(reg), v)]
  }

  // ---------------------------------------------------------------- four registers in three bytes

  /** Register `k` of the four that share bytes x, y, z, as the unrolled loop reads it. */
  function GroupGet(x: bv8, y: bv8, z: bv8, k: nat): bv8
    requires k < 4
  {
    if k == 0 then x & 63
    else if k == 1 then ((x >> 6) | (y << 2)) & 63
    else if k == 2 then ((y >> 4) | (z << 4)) & 63
    else (z >> 2) & 63
  }

  lemma Position(g: nat, k: nat)
    requires k < 4
    ensures ByteOf(4 * g + k) == 3 * g + (if k == 0 then 0 else k - 1)
    ensures ShiftOf(4 * g + k) == (if k == 0 then 0 else if k == 1 then 6 else if k == 2 then 4 else 2)
  {
  }

  /** The generic getter and the unrolled one read the same register. */
  lemma GetIsGroupGet(d: seq<bv8>, g: nat, k: nat)
    requires |d| == DENSE_BYTES && k < 4 && 4 * g + k < REGISTERS
    ensures Get(d, 4 * g + k) == GroupGet(d[3 * g], d[3 * g + 1], d[3 * g + 2], k)
  {
    hide ByteOf, ShiftOf;
    Position(g, k);
    if k == 0 {
      GroupZero(d[3 * g], d[3 * g + 1]);
    } else if k == 3 {
      GroupThree(d[3 * g + 2], d[3 * g + 3]);
    }
  }

  lemma GroupZero(x: bv8, y: bv8)
    ensures Get2(x, y, 0) == x & 63
  {
  }

  lemma GroupThree(z: bv8, w: bv8)
    ensures Get2(z, w, 2) == (z >> 2) & 63
  {
  }

  // Writing one of the four registers: it holds the value, those sharing a byte with it keep theirs.

  lemma GroupSet0(x: bv8, y: bv8, z: bv8, v: bv8)
    requires v < 64
    ensures GroupGet(SetLow(x, 0, v), y, z, 0) == v && GroupGet(SetLow(x, 0, v), y, z, 1) == GroupGet(x, y, z, 1)
  {
  }

  lemma GroupSet1(x: bv8, y: bv8, z: bv8, v: bv8)
    requires v < 64
    ensures GroupGet(SetLow(x, 6, v), SetHigh(y, 6, v), z, 1) == v
    ensures GroupGet(SetLow(x, 6, v), SetHigh(y, 6, v), z, 0) == GroupGet(x, y, z, 0)
    ensures GroupGet(SetLow(x, 6, v), SetHigh(y, 6, v), z, 2) == GroupGet(x, y, z, 2)
  {
  }

  lemma GroupSet2(x: bv8, y: bv8, z: bv8, v: bv8)
    requires v < 64
    ensures GroupGet(x, SetLow(y, 4, v), SetHigh(z, 4, v), 2) == v
    ensures GroupGet(x, SetLow(y, 4, v), SetHigh(z, 4, v), 1) == GroupGet(x, y, z, 1)
    ensures GroupGet(x, SetLow(y, 4, v), SetHigh(z, 4, v), 3) == GroupGet(x, y, z, 3)
  {
  }

  lemma GroupSet3(x: bv8, y: bv8, z: bv8, v: bv8)
    requires v < 64
    ensures GroupGet(x, y, SetLow(z, 2, v), 3) == v && GroupGet(x, y, SetLow(z, 2, v), 2) == GroupGet(x, y, z, 2)
  {
  }

  /** Writing one register changes that register and no other. */
  lemma SetGet(d: seq<bv8>, reg: nat, v: bv8, other: nat)
    requires |d| == DENSE_BYTES && reg < REGISTERS && other < REGISTERS && v < 64
    ensures Get(Set(d, reg, v), other) == if other == reg then v else Get(d, other)
  {
    hide Get, Set, ByteOf, ShiftOf, Get2, SetLow, SetHigh, GroupGet;
    var g, k, h, l := reg / 4, reg % 4, other / 4, other % 4;
    var r := Set(d, reg, v);
    SetBytes(d, g, k, v);
    GetIsGroupGet(d, h, l);
    GetIsGroupGet(r, h, l);
    if h == g {
      GroupSet0(d[3 * g], d[3 * g + 1], d[3 * g + 2], v);
      GroupSet1(d[3 * g], d[3 * g + 1], d[3 * g + 2], v);
      GroupSet2(d[3 * g], d[3 * g + 1], d[3 * g + 2], v);
      GroupSet3(d[3 * g], d[3 * g + 1], d[3 * g + 2], v);
      GroupUnused(d, r, g, k, l);
    }
  }

  /** The bytes a write touches. */
  lemma SetBytes(d: seq<bv8>, g: nat, k: nat, v: bv8)
    requires |d| == DENSE_BYTES && k < 4 && 4 * g + k < REGISTERS && v < 64
    ensures var r := Set(d, 4 * g + k, v);
      && (forall i :: 0 <= i < |d| && !(3 * g <= i < 3 * g + 3) ==> r[i] == d[i])
      && r[3 * g] == (if k == 0 then SetLow(d[3 * g], 0, v) else if k == 1 then SetLow(d[3 * g], 6, v) else d[3 * g])
      && r[3 * g + 1] == (if k == 1 then SetHigh(d[3 * g + 1], 6, v)
                          else if k == 2 then SetLow(d[3 * g + 1], 4, v) else d[3 * g + 1])
      && r[3 * g + 2] == (if k == 2 then SetHigh(d[3 * g + 2], 4, v)
                          else if k == 3 then SetLow(d[3 * g + 2], 2, v) else d[3 * g + 2])
  {
    hide ByteOf, ShiftOf, SetLow, SetHigh;
    Position(g, k);
    NoSecondByte(d[3 * g + 1], d[3 * g + 3], v);
  }

  lemma NoSecondByte(y: bv8, w: bv8, v: bv8)
    requires v < 64
    ensures SetHigh(y, 0, v) == y && SetHigh(w, 2, v) == w
  {
  }

  /** Registers that do not share a byte with the one written. */
  lemma GroupUnused(d: seq<bv8>, r: seq<bv8>, g: nat, k: nat, l: nat)
    requires |d| == |r| == DENSE_BYTES && k < 4 && l < 4 && 3 * g + 3 < DENSE_BYTES
    requires k != 0 && k != 1 ==> r[3 * g] == d[3 * g]
    requires k == 0 || k == 3 ==> r[3 * g + 1] == d[3 * g + 1]
    requires k == 0 || k == 1 ==> r[3 * g + 2] == d[3 * g + 2]
    ensures (k == 0 && l >= 2) || (k == 1 && l == 3) || (k == 2 && l == 0) || (k == 3 && l <= 1) ==>
      GroupGet(r[3 * g], r[3 * g + 1], r[3 * g + 2], l) == GroupGet(d[3 * g], d[3 * g + 1], d[3 * g + 2], l)
  {
  }
}
