/** The BITOP command of `bitops.c`: a fast path that takes four words at a time, and a byte-wise loop
    for the rest. */
module Bitop {
  import opened Bitops

  datatype Op = And | Or | Xor | Not

  function AndByte(a: bv8, b: bv8): bv8 { a & b }
  function OrByte(a: bv8, b: bv8): bv8 { a | b }
  function XorByte(a: bv8, b: bv8): bv8 { a ^ b }
  function NotByte(a: bv8): bv8 { !a }

  function AndWord(a: bv64, b: bv64): bv64 { a & b }
  function OrWord(a: bv64, b: bv64): bv64 { a | b }
  function XorWord(a: bv64, b: bv64): bv64 { a ^ b }
  function NotWord(a: bv64): bv64 { !a }

  function Apply(op: Op, a: bv8, b: bv8): bv8 {
    match op
    case And => AndByte(a, b)
    case Or => OrByte(a, b)
    case Xor => XorByte(a, b)
    case Not => a
  }

  function ApplyWord(op: Op, a: bv64, b: bv64): bv64 {
    match op
    case And => AndWord(a, b)
    case Or => OrWord(a, b)
    case Xor => XorWord(a, b)
    case Not => a
  }

  /** Byte `j` of the result after the first `n` strings, each continued with zeros. */
  function Combined(op: Op, srcs: seq<seq<bv8>>, j: nat, n: nat): bv8
    requires 1 <= n <= |srcs|
  {
    if n == 1 then (if op.Not? then NotByte(ByteAt(srcs[0], j)) else ByteAt(srcs[0], j))
    else Apply(op, Combined(op, srcs, j, n - 1), ByteAt(srcs[n - 1], j))
  }

  /** Every bit of the result is the operation on the bits of the strings. */
  lemma {:induction false} CombinedBits(op: Op, srcs: seq<seq<bv8>>, j: nat, n: nat, k: nat)
    requires 1 <= n <= |srcs| && k < 8
    ensures var bit := Has(Combined(op, srcs, j, n), Mask(k));
      match op
      case And => bit <==> forall i :: 0 <= i < n ==> BitAt(srcs[i], 8 * j + k)
      case Or => bit <==> exists i :: 0 <= i < n && BitAt(srcs[i], 8 * j + k)
      case Xor => bit <==> Parity(srcs, 8 * j + k, n)
      case Not => n == 1 ==> (bit <==> !BitAt(srcs[0], 8 * j + k))
  {
    hide ByteAt, Mask, Apply, Has, NotByte;
    forall i: nat | i < n ensures BitAt(srcs[i], 8 * j + k) == Has(ByteAt(srcs[i], j), Mask(k)) {
      BitIsHas(srcs[i], j, k);
    }
    if n == 1 {
      NotBit(ByteAt(srcs[0], j), k);
    } else {
      CombinedBits(op, srcs, j, n - 1, k);
      ApplyBit(op, Combined(op, srcs, j, n - 1), ByteAt(srcs[n - 1], j), k);
    }
  }

  /** An odd number of the first `n` strings have the bit. */
  ghost predicate Parity(srcs: seq<seq<bv8>>, i: nat, n: nat)
    requires n <= |srcs|
  {
    if n == 0 then false else Parity(srcs, i, n - 1) != BitAt(srcs[n - 1], i)
  }

  lemma NotBit(a: bv8, k: nat)
    requires k < 8
    ensures Has(NotByte(a), Mask(k)) == !Has(a, Mask(k))
  {
  }

  lemma ApplyBit(op: Op, a: bv8, b: bv8, k: nat)
    requires k < 8
    ensures var x, y, z := Has(a, Mask(k)), Has(b, Mask(k)), Has(Apply(op, a, b), Mask(k));
      match op
      case And => z == (x && y)
      case Or => z == (x || y)
      case Xor => z == (x != y)
      case Not => z == x
  {
  }

  // ---------------------------------------------------------------- words in memory

  function Shr8(w: bv64): bv64 { w >> 8 }

  function LowByte(w: bv64): bv8 { (w & 0xFF) as bv8 }

  /** Byte `k` of a word in memory. */
  function GetByte(w: bv64, k: nat): bv8 {
    if k == 0 then LowByte(w) else GetByte(Shr8(w), k - 1)
  }

  lemma LoadShifts(b0: bv8, b1: bv8, b2: bv8, b3: bv8, b4: bv8, b5: bv8, b6: bv8, b7: bv8)
    ensures LowByte(Load(b0, b1, b2, b3, b4, b5, b6, b7)) == b0
    ensures Shr8(Load(b0, b1, b2, b3, b4, b5, b6, b7)) == Load(b1, b2, b3, b4, b5, b6, b7, 0)
  {
  }

  lemma {:induction false} LoadedByte(b0: bv8, b1: bv8, b2: bv8, b3: bv8, b4: bv8, b5: bv8, b6: bv8, b7: bv8, k: nat)
    requires k < 8
    ensures GetByte(Load(b0, b1, b2, b3, b4, b5, b6, b7), k) == [b0, b1, b2, b3, b4, b5, b6, b7][k]
    decreases k
  {
    hide Load, Shr8, LowByte;
    LoadShifts(b0, b1, b2, b3, b4, b5, b6, b7);
    if k > 0 {
      LoadedByte(b1, b2, b3, b4, b5, b6, b7, 0, k - 1);
    }
  }

  lemma LoadGet(s: seq<bv8>, p: nat, k: nat)
    requires p + 8 <= |s| && k < 8
    ensures GetByte(LoadAt(s, p), k) == s[p + k]
  {
    hide Load, GetByte;
    LoadedByte(s[p], s[p + 1], s[p + 2], s[p + 3], s[p + 4], s[p + 5], s[p + 6], s[p + 7], k);
  }

  lemma AndShifts(a: bv64, b: bv64)
    ensures LowByte(AndWord(a, b)) == AndByte(LowByte(a), LowByte(b))
      && Shr8(AndWord(a, b)) == AndWord(Shr8(a), Shr8(b))
  {
  }

  lemma OrShifts(a: bv64, b: bv64)
    ensures LowByte(OrWord(a, b)) == OrByte(LowByte(a), LowByte(b)) && Shr8(OrWord(a, b)) == OrWord(Shr8(a), Shr8(b))
  {
  }

  lemma XorShifts(a: bv64, b: bv64)
    ensures LowByte(XorWord(a, b)) == XorByte(LowByte(a), LowByte(b))
      && Shr8(XorWord(a, b)) == XorWord(Shr8(a), Shr8(b))
  {
  }

  /** An operation on words is the operation on their bytes. */
  lemma {:induction false} ApplyGet(op: Op, a: bv64, b: bv64, k: nat)
    requires !op.Not?
    ensures GetByte(ApplyWord(op, a, b), k) == Apply(op, GetByte(a, k), GetByte(b, k))
    decreases k
  {
    hide Shr8, LowByte, AndByte, OrByte, XorByte, AndWord, OrWord, XorWord;
    match op {
      case And => AndShifts(a, b);
      case Or => OrShifts(a, b);
      case Xor => XorShifts(a, b);
    }
    if k > 0 { ApplyGet(op, Shr8(a), Shr8(b), k - 1); }
  }

  lemma NotIsXor(a: bv64, b: bv8)
    ensures NotWord(a) == XorWord(a, ALL_ONES) && NotByte(b) == XorByte(b, 0xFF)
    ensures ALL_ONES == Load(0xFF, 0xFF, 0xFF, 0xFF, 0xFF, 0xFF, 0xFF, 0xFF)
  {
  }

  lemma NotGet(a: bv64, k: nat)
    requires k < 8
    ensures GetByte(NotWord(a), k) == NotByte(GetByte(a, k))
  {
    hide Load, GetByte, NotWord, NotByte, XorWord, XorByte;
    NotIsXor(a, GetByte(a, k));
    ApplyGet(Xor, a, ALL_ONES, k);
    LoadedByte(0xFF, 0xFF, 0xFF, 0xFF, 0xFF, 0xFF, 0xFF, 0xFF, k);
    var ones: seq<bv8> := [0xFF, 0xFF, 0xFF, 0xFF, 0xFF, 0xFF, 0xFF, 0xFF];
    assert k == 0 || k == 1 || k == 2 || k == 3 || k == 4 || k == 5 || k == 6 || k == 7;
    assert ones[k] == 0xFF;
  }

  /** A word is stored at `at`. */
  method StoreWord(res: array<bv8>, at: nat, w: bv64)
    requires at + 8 <= res.Length
    modifies res
    ensures forall k :: at <= k < at + 8 ==> res[k] == GetByte(w, k - at)
    ensures forall k :: 0 <= k < res.Length && !(at <= k < at + 8) ==> res[k] == old(res[k])
  {
    hide GetByte;
    var k := 0;
    while k < 8
      invariant k <= 8
      invariant forall i :: at <= i < at + k ==> res[i] == GetByte(w, i - at)
      invariant forall i :: 0 <= i < res.Length && !(at <= i < at + k) ==> res[i] == old(res[i])
    {
      res[at + k] := GetByte(w, k);
      k := k + 1;
    }
  }

  /** One word of the fast path, for AND, OR and XOR. */
  method CombineWord(op: Op, res: array<bv8>, at: nat, src: seq<bv8>, from: nat)
    requires at + 8 <= res.Length && from + 8 <= |src| && !op.Not?
    modifies res
    ensures forall k :: at <= k < at + 8 ==> res[k] == Apply(op, old(res[k]), src[k - at + from])
    ensures forall k :: 0 <= k < res.Length && !(at <= k < at + 8) ==> res[k] == old(res[k])
  {
    hide LoadAt, GetByte, ApplyWord, Apply;
    ghost var s := res[..];
    var a, b := LoadAt(res[..], at), LoadAt(src, from);
    StoreWord(res, at, ApplyWord(op, a, b));
    forall k | at <= k < at + 8 ensures res[k] == Apply(op, s[k], src[k - at + from]) {
      LoadGet(s, at, k - at);
      LoadGet(src, from, k - at);
      ApplyGet(op, a, b, k - at);
    }
  }

  /** One word of the fast path, for NOT. */
  method NegateWord(res: array<bv8>, at: nat)
    requires at + 8 <= res.Length
    modifies res
    ensures forall k :: at <= k < at + 8 ==> res[k] == NotByte(old(res[k]))
    ensures forall k :: 0 <= k < res.Length && !(at <= k < at + 8) ==> res[k] == old(res[k])
  {
    hide LoadAt, GetByte, NotWord, NotByte;
    ghost var s := res[..];
    var a := LoadAt(res[..], at);
    StoreWord(res, at, NotWord(a));
    forall k | at <= k < at + 8 ensures res[k] == NotByte(s[k]) {
      LoadGet(s, at, k - at);
      NotGet(a, k - at);
    }
  }

  // ---------------------------------------------------------------- the command

  /** The longest and the shortest length. */
  method Lengths(srcs: seq<seq<bv8>>) returns (maxlen: nat, minlen: nat)
    requires srcs != []
    ensures forall i :: 0 <= i < |srcs| ==> minlen <= |srcs[i]| <= maxlen
    ensures exists i :: 0 <= i < |srcs| && |srcs[i]| == maxlen
    ensures exists i :: 0 <= i < |srcs| && |srcs[i]| == minlen
  {
    maxlen, minlen := 0, 0;
    var j := 0;
    while j < |srcs|
      invariant j <= |srcs|
      invariant forall i :: 0 <= i < j ==> minlen <= |srcs[i]| <= maxlen
      invariant if j == 0 then maxlen == 0 else exists i :: 0 <= i < j && |srcs[i]| == maxlen
      invariant j > 0 ==> exists i :: 0 <= i < j && |srcs[i]| == minlen
    {
      if |srcs[j]| > maxlen { maxlen := |srcs[j]|; }
      if j == 0 || |srcs[j]| < minlen { minlen := |srcs[j]|; }
      j := j + 1;
    }
  }

  /** Four words of one more string. */
  method CombineFour(op: Op, res: array<bv8>, at: nat, src: seq<bv8>, from: nat)
    requires at + 32 <= res.Length && from + 32 <= |src| && !op.Not?
    modifies res
    ensures forall k :: at <= k < at + 32 ==> res[k] == Apply(op, old(res[k]), src[k - at + from])
    ensures forall k :: 0 <= k < res.Length && !(at <= k < at + 32) ==> res[k] == old(res[k])
  {
    hide Apply;
    CombineWord(op, res, at, src, from);
    CombineWord(op, res, at + 8, src, from + 8);
    CombineWord(op, res, at + 16, src, from + 16);
    CombineWord(op, res, at + 24, src, from + 24);
  }

  method NegateFour(res: array<bv8>, at: nat)
    requires at + 32 <= res.Length
    modifies res
    ensures forall k :: at <= k < at + 32 ==> res[k] == NotByte(old(res[k]))
    ensures forall k :: 0 <= k < res.Length && !(at <= k < at + 32) ==> res[k] == old(res[k])
  {
    hide NotByte;
    NegateWord(res, at);
    NegateWord(res, at + 8);
    NegateWord(res, at + 16);
    NegateWord(res, at + 24);
  }

  /** One round of the fast path: 32 bytes, all strings. `lp` are the positions in the strings. */
  method FastRound(op: Op, srcs: seq<seq<bv8>>, res: array<bv8>, j: nat, lp: array<nat>)
    requires srcs != [] && (op.Not? ==> |srcs| == 1) && j + 32 <= res.Length && lp.Length == |srcs|
    requires {res as object} !! {lp as object}
    requires forall i :: 0 <= i < |srcs| ==> j + 32 <= |srcs[i]|
    requires forall i :: 0 < i < |srcs| ==> lp[i] == j
    requires forall k :: j <= k < j + 32 ==> res[k] == srcs[0][k]
    modifies res, lp
    ensures forall i :: 0 < i < |srcs| ==> lp[i] == j + 32
    ensures forall k :: j <= k < j + 32 ==> res[k] == Combined(op, srcs, k, |srcs|)
    ensures forall k :: 0 <= k < res.Length && !(j <= k < j + 32) ==> res[k] == old(res[k])
  {
    if op.Not? {
      NegateFour(res, j);
      return;
    }
    hide Apply;
    var i := 1;
    while i < |srcs|
      invariant 1 <= i <= |srcs|
      invariant forall m :: 0 < m < |srcs| ==> lp[m] == if m < i then j + 32 else j
      invariant forall k :: j <= k < j + 32 ==> res[k] == Combined(op, srcs, k, i)
      invariant forall k :: 0 <= k < res.Length && !(j <= k < j + 32) ==> res[k] == old(res[k])
    {
      CombineFour(op, res, j, srcs[i], lp[i]);
      lp[i] := lp[i] + 32;
      i := i + 1;
    }
  }

  /** The fast path: while 32 bytes of every string are left. */
  method FastPath(op: Op, srcs: seq<seq<bv8>>, res: array<bv8>, minlen: nat) returns (j: nat)
    requires srcs != [] && (op.Not? ==> |srcs| == 1) && minlen <= res.Length
    requires forall i :: 0 <= i < |srcs| ==> minlen <= |srcs[i]|
    modifies res
    ensures j <= minlen && forall k :: 0 <= k < j ==> res[k] == Combined(op, srcs, k, |srcs|)
  {
    hide Combined;
    var lp := new nat[|srcs|](_ => 0);
    j := 0;
    while j < minlen
      invariant j <= minlen
      invariant forall i :: 0 < i < |srcs| ==> lp[i] == 0
      invariant forall k :: 0 <= k < j ==> res[k] == srcs[0][k]
    {
      res[j] := srcs[0][j];
      j := j + 1;
    }
    j := 0;
    var left := minlen;
    while left >= 32
      invariant j + left == minlen
      invariant forall i :: 0 < i < |srcs| ==> lp[i] == j
      invariant forall k :: 0 <= k < j ==> res[k] == Combined(op, srcs, k, |srcs|)
      invariant forall k :: j <= k < minlen ==> res[k] == srcs[0][k]
    {
      FastRound(op, srcs, res, j, lp);
      j := j + 32;
      left := left - 32;
    }
  }

  /** One byte of the slow path. */
  method SlowByte(op: Op, srcs: seq<seq<bv8>>, j: nat) returns (output: bv8)
    requires srcs != [] && (op.Not? ==> |srcs| == 1)
    ensures output == Combined(op, srcs, j, |srcs|)
  {
    output := if |srcs[0]| <= j then 0 else srcs[0][j];
    if op.Not? { output := NotByte(output); }
    var i := 1;
    while i < |srcs|
      invariant 1 <= i <= |srcs| && output == Combined(op, srcs, j, i)
    {
      var byte: bv8 := if |srcs[i]| <= j then 0 else srcs[i][j];
      output := Apply(op, output, byte);
      i := i + 1;
    }
  }

  /** `bitopCommand` on the strings of its keys, an absent key being an empty string. */
  method Perform(op: Op, srcs: seq<seq<bv8>>) returns (res: array<bv8>)
    requires srcs != [] && (op.Not? ==> |srcs| == 1)
    ensures fresh(res)
    ensures (forall i :: 0 <= i < |srcs| ==> |srcs[i]| <= res.Length)
         && exists i :: 0 <= i < |srcs| && |srcs[i]| == res.Length
    ensures forall j :: 0 <= j < res.Length ==> res[j] == Combined(op, srcs, j, |srcs|)
  {
    hide Combined;
    var maxlen, minlen := Lengths(srcs);
    res := new bv8[maxlen](_ => 0);
    var j := 0;
    if minlen > 0 && |srcs| <= 16 {
      j := FastPath(op, srcs, res, minlen);
    }
    while j < maxlen
      invariant j <= maxlen
      invariant forall k :: 0 <= k < j ==> res[k] == Combined(op, srcs, k, |srcs|)
    {
      res[j] := SlowByte(op, srcs, j);
      j := j + 1;
    }
  }
}
