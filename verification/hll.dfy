/** The HyperLogLog object of hyperloglog.c: a vector of 16384 counters in one of two encodings.
    Hashing is left to the caller, who passes a register index and a pattern length. */
module Hll {
  import opened HllDense
  import opened HllSparse

  const HDR_SIZE: nat := 16

  /** The counters a dense string holds. */
  ghost function DenseRegs(d: seq<bv8>): (r: seq<nat>)
    requires |d| == DENSE_BYTES
    ensures |r| == REGISTERS
  {
    seq(REGISTERS, i requires 0 <= i < REGISTERS => Get(d, i) as nat)
  }

  lemma DenseSmall(d: seq<bv8>)
    requires |d| == DENSE_BYTES
    ensures forall k :: 0 <= k < REGISTERS ==> DenseRegs(d)[k] < 64
  {
    forall k | 0 <= k < REGISTERS ensures DenseRegs(d)[k] < 64 { GetSmall(d[ByteOf(k)], d[ByteOf(k) + 1], ShiftOf(k)); }
  }

  lemma {:induction false} SparseSmall(b: Bytes)
    requires Valid(b)
    ensures forall k :: 0 <= k < |Regs(b)| ==> Regs(b)[k] < 64
    decreases |b|
  {
    hide OpLen;
    if b != [] {
      SparseSmall(b[OpLen(b[0])..]);
      OpRegsSmall(b);
    }
  }

  lemma OpRegsSmall(b: Bytes)
    requires b != [] && OpLen(b[0]) <= |b|
    ensures forall k :: 0 <= k < |OpRegs(b)| ==> OpRegs(b)[k] < 64
  {
  }

  function Max(a: nat, b: nat): nat { if a > b then a else b }

  /** The vector after an element with this pattern length has been added. */
  function Raise(r: seq<nat>, index: nat, count: nat): (s: seq<nat>)
    requires index < |r|
    ensures |s| == |r|
  {
    r[index := Max(r[index], count)]
  }

  lemma SetDenseRegs(d: seq<bv8>, reg: nat, n: nat)
    requires |d| == DENSE_BYTES && reg < REGISTERS && n < 64
    ensures DenseRegs(Set(d, reg, n as bv8)) == DenseRegs(d)[reg := n]
  {
    hide Get, Set;
    ByteOfNat(n);
    var after, before := DenseRegs(Set(d, reg, n as bv8)), DenseRegs(d)[reg := n];
    forall i | 0 <= i < REGISTERS ensures after[i] == before[i] {
      SetGet(d, reg, n as bv8, i);
    }
  }

  lemma EmptyDense(d: seq<bv8>)
    requires |d| == DENSE_BYTES && forall i :: 0 <= i < |d| ==> d[i] == 0
    ensures DenseRegs(d) == Repeat(0, REGISTERS)
  {
    forall i | 0 <= i < REGISTERS ensures DenseRegs(d)[i] == 0 {
      ZeroGet(ShiftOf(i));
    }
  }

  lemma ZeroGet(fb: bv4)
    requires fb <= 6
    ensures Get2(0, 0, fb) as nat == 0
  {
  }

  /** HLL_DENSE_SET_REGISTER. */
  method SetRegister(p: array<bv8>, reg: nat, val: nat)
    requires p.Length == DENSE_BYTES && reg < REGISTERS && val < 64
    modifies p
    ensures DenseRegs(p[..]) == DenseRegs(old(p[..]))[reg := val]
  {
    hide ByteOf, ShiftOf, SetLow, SetHigh, DenseRegs;
    ghost var d := p[..];
    Position(reg / 4, reg % 4);
    var b, fb, v := ByteOf(reg), ShiftOf(reg), val as bv8;
    p[b] := SetLow(p[b], fb, v);
    p[b + 1] := SetHigh(p[b + 1], fb, v);
    assert p[..] == Set(d, reg, v);
    SetDenseRegs(d, reg, val);
  }

  method GetRegister(p: array<bv8>, reg: nat) returns (val: nat)
    requires p.Length == DENSE_BYTES && reg < REGISTERS
    ensures val == DenseRegs(p[..])[reg] && val < 64
  {
    hide ByteOf, ShiftOf, Get2;
    Position(reg / 4, reg % 4);
    var v := Get2(p[ByteOf(reg)], p[ByteOf(reg) + 1], ShiftOf(reg));
    GetSmall(p[ByteOf(reg)], p[ByteOf(reg) + 1], ShiftOf(reg));
    assert v == Get(p[..], reg);
    val := v as nat;
  }

  lemma GetSmall(a: bv8, b: bv8, fb: bv4)
    requires fb <= 6
    ensures Get2(a, b, fb) as nat < 64
  {
  }

  function PointwiseMax(a: seq<nat>, b: seq<nat>): (r: seq<nat>)
    requires |a| == |b|
    ensures |r| == |a|
  {
    seq(|a|, i requires 0 <= i < |a| => Max(a[i], b[i]))
  }

  /** The vector while the first `n` entries are merged. */
  ghost function MergedUpTo(a: seq<nat>, b: seq<nat>, n: nat): (r: seq<nat>)
    requires |a| == |b| && n <= |a|
    ensures |r| == |a|
    ensures n == |a| ==> r == PointwiseMax(a, b)
    ensures n == 0 ==> r == a
  {
    seq(|a|, i requires 0 <= i < |a| => if i < n then Max(a[i], b[i]) else a[i])
  }

  lemma SkipRun(a: seq<nat>, b: seq<nat>, i: nat, n: nat)
    requires |a| == |b| && i + n <= |a|
    requires forall k :: i <= k < i + n ==> b[k] == 0
    ensures MergedUpTo(a, b, i) == MergedUpTo(a, b, i + n)
  {
  }

  lemma RunOf(front: seq<nat>, v: nat, n: nat, back: seq<nat>)
    ensures var r := front + Repeat(v, n) + back;
      forall k :: |front| <= k < |front| + n ==> r[k] == v
  {
  }

  lemma XzeroTight(b: bv8, c: bv8)
    requires IsXzero(b)
    ensures Valid([b, c]) && Tight([b, c])
  {
    OneKind(b);
    assert [b, c][2..] == [];
  }

  lemma NoOpcodes()
    ensures Valid([]) && Regs([]) == []
    ensures Regs([]) + Repeat(0, REGISTERS) == Repeat(0, REGISTERS)
  {
  }

  lemma NothingAfter(r: seq<nat>)
    ensures r + Repeat(0, 0) == r
  {
  }

  lemma RepeatSplit(before: seq<nat>, m: nat, n: nat)
    ensures before + Repeat(0, m + n) == before + Repeat(0, m) + Repeat(0, n)
  {
  }

  datatype Encoding = Sparse | Dense

  class Hll {
    /** `server.hll_sparse_max_bytes`, header included. */
    const maxBytes: nat
    var encoding: Encoding
    var sparse: Bytes
    var dense: array<bv8>

    ghost predicate Ok()
      reads this
    {
      if encoding == Sparse then Valid(sparse) && |Regs(sparse)| == REGISTERS
      else dense.Length == DENSE_BYTES
    }

    ghost function Registers(): (r: seq<nat>)
      requires Ok()
      reads this, dense
      ensures |r| == REGISTERS
    {
      if encoding == Sparse then Regs(sparse) else DenseRegs(dense[..])
    }

    /** Every register fits six bits, in either encoding. */
    lemma RegistersSmall()
      requires Ok()
      ensures forall k :: 0 <= k < REGISTERS ==> Registers()[k] < 64
    {
      if encoding == Sparse { SparseSmall(sparse); } else { DenseSmall(dense[..]); }
    }

    /** A sparse string has no two opcodes that could be one, and is no longer than the limit. */
    ghost predicate Compact()
      reads this
    {
      encoding == Sparse ==>
        && Valid(sparse) && Tight(sparse)
        && HDR_SIZE + |sparse| <= Max(maxBytes, HDR_SIZE + 2)
    }

    /** `createHLLObject`. */
    constructor (maxBytes: nat)
      ensures Ok() && fresh(dense) && this.maxBytes == maxBytes
      ensures encoding == Sparse && Registers() == Repeat(0, REGISTERS)
      ensures |sparse| == 2 && Compact()
    {
      this.maxBytes := maxBytes;
      encoding := Sparse;
      dense := new bv8[0];
      var s := ZeroString();
      sparse := s;
    }

    /** The loop of `createHLLObject`. */
    static method ZeroString() returns (s: Bytes)
      ensures Valid(s) && Regs(s) == Repeat(0, REGISTERS) && |s| == 2 && Tight(s)
    {
      hide XzeroSet, XzeroLen, IsXzero, Valid, Regs, Repeat, Tight;
      s := [];
      var aux: nat := REGISTERS;
      NoOpcodes();
      while aux > 0
        invariant aux <= REGISTERS && Valid(s) && Regs(s) == Repeat(0, REGISTERS - aux)
        invariant if aux == 0 then |s| == 2 && Tight(s) else aux == REGISTERS && s == []
      {
        var xzero := XZERO_MAX_LEN;
        if xzero > aux { xzero := aux; }
        var (b, c) := XzeroSet(xzero);
        XzeroSetIs(xzero);
        XzeroOp(b, c);
        Concat(s, [b, c]);
        RepeatSplit([], REGISTERS - aux, xzero);
        assert [] + Repeat(0, REGISTERS - aux) == Repeat(0, REGISTERS - aux);
        s := s + [b, c];
        XzeroTight(b, c);
        assert s == [b, c];
        aux := aux - xzero;
        assert [] + Repeat(0, REGISTERS - aux) == Repeat(0, REGISTERS - aux);
      }
    }

    /** `hllSparseToDense` on a valid string. */
    method SparseToDense()
      requires Ok()
      modifies this`encoding, this`dense
      ensures Ok() && encoding == Dense && Registers() == old(Registers())
      ensures old(encoding) == Sparse ==> fresh(dense)
      ensures old(encoding) == Dense ==> dense == old(dense)
    {
      if encoding == Dense { return; }
      hide DenseRegs, Valid, Regs, Repeat;
      var d := new bv8[DENSE_BYTES](_ => 0);
      EmptyDense(d[..]);
      var idx := Unpack(sparse, d);
      assert idx == REGISTERS;
      encoding := Dense;
      dense := d;
    }

    /** The unpacking loop: every run is written to the registers it covers. */
    static method Unpack(s: Bytes, d: array<bv8>) returns (idx: nat)
      requires Valid(s) && |Regs(s)| == REGISTERS
      requires d.Length == DENSE_BYTES && DenseRegs(d[..]) == Repeat(0, REGISTERS)
      modifies d
      ensures idx == REGISTERS && DenseRegs(d[..]) == Regs(s)
    {
      hide DenseRegs, OpLen, OpRegs, Valid, Regs, Repeat, IsVal;
      NoOpcodes();
      var p: nat := 0;
      idx := 0;
      assert s[..0] == [] && s[0..] == s;
      while p < |s|
        invariant p <= |s| && Valid(s[..p]) && Valid(s[p..])
        invariant idx == |Regs(s[..p])| && idx + |Regs(s[p..])| == REGISTERS
        invariant DenseRegs(d[..]) == Regs(s[..p]) + Repeat(0, REGISTERS - idx)
        decreases |s| - p
      {
        StepOver(s, p);
        ghost var before := Regs(s[..p]);
        var oplen, runlen, regval := OpAt(s, p);
        if IsVal(s[p]) {
          WriteRun(d, idx, runlen, regval, before);
        } else {
          RepeatSplit(before, runlen, REGISTERS - idx - runlen);
        }
        idx := idx + runlen;
        p := p + oplen;
      }
      assert s[..p] == s && s[p..] == [];
      NothingAfter(Regs(s));
    }

    /** Decoding the opcode at `p`: its length, its run, and the value of the run. */
    static method OpAt(s: Bytes, p: nat) returns (oplen: nat, runlen: nat, regval: nat)
      requires p < |s| && Valid(s[p..])
      ensures oplen == OpLen(s[p]) && p + oplen <= |s|
      ensures OpRegs(s[p..]) == Repeat(regval, runlen)
      ensures IsVal(s[p]) ==> regval == ValValue(s[p]) <= VAL_MAX_VALUE && runlen == ValLen(s[p])
      ensures !IsVal(s[p]) ==> regval == 0
    {
      OneKind(s[p]);
      if IsZero(s[p]) {
        oplen, runlen, regval := 1, ZeroLen(s[p]), 0;
      } else if IsXzero(s[p]) {
        oplen, runlen, regval := 2, XzeroLen(s[p], s[p + 1]), 0;
      } else {
        oplen, runlen, regval := 1, ValLen(s[p]), ValValue(s[p]);
      }
    }

    static method WriteRun(d: array<bv8>, idx: nat, runlen: nat, regval: nat, ghost before: seq<nat>)
      requires d.Length == DENSE_BYTES && idx + runlen <= REGISTERS && regval < 64 && |before| == idx
      requires DenseRegs(d[..]) == before + Repeat(0, REGISTERS - idx)
      modifies d
      ensures DenseRegs(d[..]) == before + Repeat(regval, runlen) + Repeat(0, REGISTERS - idx - runlen)
    {
      hide DenseRegs;
      var i := 0;
      while i < runlen
        invariant i <= runlen
        invariant DenseRegs(d[..]) == before + Repeat(regval, i) + Repeat(0, REGISTERS - idx - i)
      {
        SetRegister(d, idx + i, regval);
        assert (before + Repeat(regval, i) + Repeat(0, REGISTERS - idx - i))[idx + i := regval]
            == before + Repeat(regval, i + 1) + Repeat(0, REGISTERS - idx - (i + 1));
        i := i + 1;
      }
    }

    /** `hllDenseAdd`: 1 exactly when the register grew. */
    method DenseAdd(index: nat, count: nat) returns (r: int)
      requires Ok() && encoding == Dense && index < REGISTERS && count < 64
      modifies dense
      ensures Ok() && Registers() == Raise(old(Registers()), index, count)
      ensures r == if count > old(Registers())[index] then 1 else 0
    {
      hide DenseRegs;
      var oldcount := GetRegister(dense, index);
      if count > oldcount {
        SetRegister(dense, index, count);
        return 1;
      }
      return 0;
    }

    /** Step 1 of `hllSparseAdd`: the opcode that covers the register, and the one before it. */
    static method Locate(s: Bytes, index: nat) returns (p: nat, first: nat, span: nat, prev: int)
      requires Valid(s) && index < |Regs(s)|
      ensures p < |s| && Valid(s[..p]) && Valid(s[p..])
      ensures first == |Regs(s[..p])| && span == |OpRegs(s[p..])| && first <= index < first + span <= |Regs(s)|
      ensures prev == -1 ==> p == 0
      ensures prev != -1 ==>
                0 <= prev < p && prev + OpLen(s[prev]) == p && Valid(s[..prev]) && Valid(s[prev..])
    {
      hide OpLen, OpRegs, Valid, Regs, Repeat;
      NoOpcodes();
      p, first, span, prev := 0, 0, 0, -1;
      assert s[..0] == [] && s[0..] == s && s[|s|..] == [];
      while p < |s|
        invariant p <= |s| && Valid(s[..p]) && Valid(s[p..])
        invariant first == |Regs(s[..p])| && first <= index < first + |Regs(s[p..])| == |Regs(s)|
        invariant prev == -1 ==> p == 0
        invariant prev != -1 ==>
                    0 <= prev < p && prev + OpLen(s[prev]) == p && Valid(s[..prev]) && Valid(s[prev..])
        decreases |s| - p
      {
        StepOver(s, p);
        var oplen, runlen, regval := OpAt(s, p);
        span := runlen;
        if index < first + span { return; }
        prev := p;
        p := p + oplen;
        first := first + span;
      }
      assert false;
    }

    /** The opcodes that replace the one at `p`: a split, or a single new one. */
    static method SplitOp(s: Bytes, p: nat, off: nat, span: nat, count: nat) returns (n: Bytes)
      requires p < |s| && Valid(s[p..]) && span == |OpRegs(s[p..])| <= REGISTERS && off < span
      requires 1 <= count <= VAL_MAX_VALUE
      ensures Valid(n) && Regs(n) == OpRegs(s[p..])[off := count] && Opcodes(n) <= 3
      ensures |n| == RunSize(s[p], off) + 1 + RunSize(s[p], span - 1 - off)
      ensures span == 1 ==> n == [ValSet(count, 1)]
    {
      hide Regs, Valid, ValSet, ZeroRun, ValRun, Repeat, Opcodes, RunSize;
      OneKind(s[p]);
      var oplen, runlen, regval := OpAt(s, p);
      var after := span - 1 - off;
      RunShape(s[p..], regval, runlen);
      if IsVal(s[p]) {
        ValRunRegs(regval, off);
        ValRunRegs(regval, after);
        SplitRegs(ValRun(regval, off), count, ValRun(regval, after), regval, off, after);
        n := ValRun(regval, off) + [ValSet(count, 1)] + ValRun(regval, after);
        EmptyRuns(regval);
        ValRunSize(s[p], regval, off);
        ValRunSize(s[p], regval, after);
        ThreeOpcodes(ValRun(regval, off), count, ValRun(regval, after));
      } else {
        ZeroRunRegs(off);
        ZeroRunRegs(after);
        SplitRegs(ZeroRun(off), count, ZeroRun(after), 0, off, after);
        n := ZeroRun(off) + [ValSet(count, 1)] + ZeroRun(after);
        EmptyRuns(1);
        ZeroRunSize(s[p], off);
        ZeroRunSize(s[p], after);
        ThreeOpcodes(ZeroRun(off), count, ZeroRun(after));
      }
      if span == 1 { assert n == [] + [ValSet(count, 1)] + []; }
    }

    /** Step 4: a scan over five opcodes that merges adjacent runs of equal value. */
    method MergeAdjacent(start: nat)
      requires start <= |sparse| && Valid(sparse) && Valid(sparse[..start]) && Valid(sparse[start..])
      modifies this`sparse
      ensures sparse == old(sparse)[..start] + Merge(old(sparse)[start..], 5)
      ensures Valid(sparse) && Regs(sparse) == Regs(old(sparse)) && |sparse| <= |old(sparse)|
    {
      hide Valid, Regs, Merge;
      var p: nat, scanlen := start, 5;
      ghost var target := sparse[..start] + Merge(sparse[start..], 5);
      MergedFrom(sparse, start);
      while p < |sparse| && scanlen > 0
        invariant p <= |sparse| && Valid(sparse[p..])
        invariant target == sparse[..p] + Merge(sparse[p..], scanlen)
        decreases scanlen
      {
        scanlen := scanlen - 1;
        p := MergeRound(p, scanlen);
      }
      assert Merge(sparse[p..], scanlen) == sparse[p..] by { NothingToScan(sparse[p..], scanlen); }
      assert sparse == sparse[..p] + sparse[p..];
    }

    /** One round of that scan; `n` are the rounds left after it. */
    method MergeRound(p: nat, ghost n: nat) returns (q: nat)
      requires p < |sparse| && Valid(sparse[p..])
      modifies this`sparse
      ensures q <= |sparse| && Valid(sparse[q..])
      ensures sparse[..q] + Merge(sparse[q..], n) == old(sparse)[..p] + Merge(old(sparse)[p..], n + 1)
    {
      hide OpLen, OpRegs, Valid, Regs, Both, ValValue, ValLen, IsVal, IsXzero, IsZero, Merge;
      OneKind(sparse[p]);
      KindLen(sparse[p]);
      TailValid(sparse, p);
      if IsXzero(sparse[p]) {
        SteppedOver(sparse, p, 2, n);
        return p + 2;
      } else if IsZero(sparse[p]) {
        SteppedOver(sparse, p, 1, n);
        return p + 1;
      } else if p + 1 < |sparse| && IsVal(sparse[p + 1])
             && ValValue(sparse[p]) == ValValue(sparse[p + 1])
             && ValLen(sparse[p]) + ValLen(sparse[p + 1]) <= VAL_MAX_LEN {
        JoinedAt(sparse, p, n);
        sparse := sparse[..p] + [Both(sparse[p], sparse[p + 1])] + sparse[p + 2..];
        return p;
      } else {
        SteppedOver(sparse, p, 1, n);
        return p + 1;
      }
    }

    /** The string with the opcodes `n` in the place of the `oplen` bytes at `p`. */
    static function Spliced(s: Bytes, p: nat, oplen: nat, n: Bytes): Bytes
      requires p + oplen <= |s|
    {
      s[..p] + n + s[p + oplen..]
    }

    /** Merging from `start` on makes the string tight. */
    static ghost predicate StaysTight(t: Bytes, start: nat)
      requires start <= |t|
    {
      && Valid(t[start..]) && Valid(t[..start] + Merge(t[start..], 5))
      && Tight(t[..start] + Merge(t[start..], 5))
    }

    /** The first steps of `hllSparseAdd`: whether the register grows, and if so the opcodes that
        take the place of the one that covers it; `start` is where merging begins. */
    static method NewOpcodes(s: Bytes, index: nat, count: nat)
      returns (grows: bool, start: nat, p: nat, oplen: nat, n: Bytes)
      requires Valid(s) && |Regs(s)| == REGISTERS && index < REGISTERS && 1 <= count <= VAL_MAX_VALUE
      ensures grows <==> count > Regs(s)[index]
      ensures p + oplen <= |s| && start <= p
      ensures grows ==> |n| - oplen == Growth(s, index)
      ensures grows && Tight(s) ==> StaysTight(Spliced(s, p, oplen, n), start)
      ensures grows ==>
                var t := Spliced(s, p, oplen, n);
                && Valid(t) && Regs(t) == Regs(s)[index := count]
                && Valid(t[..start]) && Valid(t[start..])
    {
      hide OpLen, OpRegs, Valid, Regs, ValSet, ValValue, ValLen, IsVal, Repeat;
      hide StaysTight, Tight, RunSize, Growth, Opcodes, Spliced;
      var first, span, prev, runlen, oldcount;
      p, first, span, prev := Locate(s, index);
      StepOver(s, p);
      oplen, runlen, oldcount := OpAt(s, p);
      start, n := if prev >= 0 then prev else 0, [];
      ghost var pre, op, post := s[..p], s[p..p + oplen], s[p + oplen..];
      assert s == pre + op + post;
      OldValue(pre, op, post, index, oldcount, runlen);
      grows := oldcount < count;
      if !grows { return; }
      n := SplitOp(s, p, index - first, span, count);
      SpliceRegs(s, p, oplen, n, index - first, count, start);
      GrowthHere(s, p, index);
      if Tight(s) { SpliceTight(s, start, p, oplen, n); }
    }

    /** The register does not grow, or the opcodes can hold it within the size limit. */
    static ghost predicate StaysSparse(s: Bytes, index: nat, count: nat, maxBytes: nat)
      requires Valid(s) && index < |Regs(s)|
    {
      || count <= Regs(s)[index]
      || (count <= VAL_MAX_VALUE && (Growth(s, index) <= 0 || HDR_SIZE + |s| + Growth(s, index) <= maxBytes))
    }

    /** `hllSparseAdd`. A promotion to the dense encoding is made when the count does not fit the
        opcode or the string would grow beyond the limit. */
    method SparseAdd(index: nat, count: nat) returns (r: int)
      requires Ok() && encoding == Sparse && index < REGISTERS && 1 <= count < 64
      modifies this`encoding, this`sparse, this`dense
      ensures Ok() && Registers() == Raise(old(Registers()), index, count)
      ensures r == if count > old(Registers())[index] then 1 else 0
      ensures if encoding == Dense then fresh(dense) else dense == old(dense)
      ensures encoding == Sparse <==> StaysSparse(old(sparse), index, count, maxBytes)
      ensures count <= VAL_MAX_VALUE && HDR_SIZE + |old(sparse)| + 3 <= maxBytes ==> encoding == Sparse
      ensures count > VAL_MAX_VALUE ==> encoding == Dense
      ensures r == 0 ==> sparse == old(sparse)
      ensures encoding == Sparse ==> HDR_SIZE + |sparse| <= Max(maxBytes, HDR_SIZE + |old(sparse)|)
      ensures encoding == Sparse && Tight(old(sparse)) ==> Tight(sparse)
    {
      hide OpLen, OpRegs, Valid, Regs, Repeat, DenseRegs, Tight, Growth, Merge;
      GrowthIsSmall(sparse, index);
      if count > VAL_MAX_VALUE {
        SmallValues(sparse);
        r := Promote(index, count);
        return;
      }
      var grows, start, p, oplen, n := NewOpcodes(sparse, index, count);
      if !grows { return 0; }
      if |n| > oplen && HDR_SIZE + |sparse| + |n| - oplen > maxBytes {
        r := Promote(index, count);
        return;
      }
      sparse := Spliced(sparse, p, oplen, n);
      MergeAdjacent(start);
      return 1;
    }

    /** `hllAdd`, in either encoding: 1 exactly when the register grew. */
    method Add(index: nat, count: nat) returns (r: int)
      requires Ok() && index < REGISTERS && 1 <= count < 64
      modifies this`encoding, this`sparse, this`dense, dense
      ensures Ok() && Registers() == Raise(old(Registers()), index, count)
      ensures r == if count > old(Registers())[index] then 1 else 0
      ensures fresh({dense} - {old(dense)})
      ensures old(encoding) == Dense ==> encoding == Dense
      ensures old(Compact()) ==> Compact()
    {
      hide Registers, Tight;
      if encoding == Dense {
        r := DenseAdd(index, count);
      } else {
        r := SparseAdd(index, count);
      }
    }

    /** `hllMerge`: raises the entries of `max` to this object's registers. */
    method MergeInto(max: array<nat>)
      requires Ok() && max.Length == REGISTERS
      modifies max
      ensures max[..] == PointwiseMax(old(max[..]), Registers())
    {
      hide DenseRegs, OpLen, OpRegs, Valid, Regs, Repeat, IsVal;
      if encoding == Dense {
        ghost var before, regs := max[..], DenseRegs(dense[..]);
        var i := 0;
        while i < REGISTERS
          invariant i <= REGISTERS
          invariant max[..] == MergedUpTo(before, regs, i)
        {
          var val := GetRegister(dense, i);
          if val > max[i] { max[i] := val; }
          i := i + 1;
        }
      } else {
        MergeSparse(sparse, max);
      }
    }

    static method MergeSparse(s: Bytes, max: array<nat>)
      requires Valid(s) && |Regs(s)| == REGISTERS && max.Length == REGISTERS
      modifies max
      ensures max[..] == PointwiseMax(old(max[..]), Regs(s))
    {
      hide OpLen, OpRegs, Valid, Regs, IsVal;
      NoOpcodes();
      ghost var before, regs := max[..], Regs(s);
      var p: nat, i: nat := 0, 0;
      assert s[..0] == [] && s[0..] == s;
      while p < |s|
        invariant p <= |s| && Valid(s[..p]) && Valid(s[p..])
        invariant i == |Regs(s[..p])| && regs == Regs(s[..p]) + Regs(s[p..])
        invariant max[..] == MergedUpTo(before, regs, i)
        decreases |s| - p
      {
        StepOver(s, p);
        var oplen, runlen, regval := OpAt(s, p);
        ghost var rest := Regs(s[p + oplen..]);
        assert regs == Regs(s[..p]) + Repeat(regval, runlen) + rest;
        RunOf(Regs(s[..p]), regval, runlen, rest);
        if IsVal(s[p]) {
          MergeRun(max, i, runlen, regval, before, regs);
        } else {
          SkipRun(before, regs, i, runlen);
        }
        i := i + runlen;
        p := p + oplen;
      }
      assert s[p..] == [];
      assert regs == Regs(s[..p]) + [];
    }

    static method MergeRun(max: array<nat>, i: nat, runlen: nat, regval: nat, ghost before: seq<nat>,
                           ghost regs: seq<nat>)
      requires max.Length == REGISTERS == |before| == |regs| && i + runlen <= REGISTERS
      requires forall k :: i <= k < i + runlen ==> regs[k] == regval
      requires max[..] == MergedUpTo(before, regs, i)
      modifies max
      ensures max[..] == MergedUpTo(before, regs, i + runlen)
    {
      var k := i;
      while k < i + runlen
        invariant i <= k <= i + runlen
        invariant max[..] == MergedUpTo(before, regs, k)
      {
        assert max[k] == MergedUpTo(before, regs, k)[k];
        if regval > max[k] { max[k] := regval; }
        k := k + 1;
      }
    }

    /** The promotion: the register must grow, so the dense add reports a change. */
    method Promote(index: nat, count: nat) returns (r: int)
      requires Ok() && encoding == Sparse && index < REGISTERS && count < 64
      requires Registers()[index] < count
      modifies this`encoding, this`dense
      ensures Ok() && encoding == Dense && fresh(dense)
      ensures Registers() == Raise(old(Registers()), index, count) && r == 1
    {
      SparseToDense();
      var denseRetval := DenseAdd(index, count);
      assert denseRetval == 1;
      r := denseRetval;
    }
  }

  // ---------------------------------------------------------------- the union law

  /** An added element: a register index and a pattern length. */
  type Element = (nat, nat)

  ghost predicate Elements(es: seq<Element>) {
    forall e :: e in es ==> e.0 < REGISTERS
  }

  /** The registers after a sequence of adds. */
  ghost function AddAll(r: seq<nat>, es: seq<Element>): (s: seq<nat>)
    requires |r| == REGISTERS && Elements(es)
    ensures |s| == REGISTERS
    decreases |es|
  {
    if es == [] then r else AddAll(Raise(r, es[0].0, es[0].1), es[1..])
  }

  /** `v` is the largest pattern length among the elements of register `i`, 0 if there is none. */
  ghost predicate IsMaximum(es: seq<Element>, i: nat, v: nat) {
    && (forall e :: e in es && e.0 == i ==> e.1 <= v)
    && (v == 0 || (i, v) in es)
  }

  ghost predicate IsMaximumWith(base: nat, es: seq<Element>, i: nat, v: nat) {
    && base <= v
    && (forall e :: e in es && e.0 == i ==> e.1 <= v)
    && (v == base || (i, v) in es)
  }

  lemma {:induction false} AddAllMaximum(r: seq<nat>, es: seq<Element>, i: nat)
    requires |r| == REGISTERS && Elements(es) && i < REGISTERS
    ensures IsMaximumWith(r[i], es, i, AddAll(r, es)[i])
    decreases |es|
  {
    if es != [] {
      var r' := Raise(r, es[0].0, es[0].1);
      AddAllMaximum(r', es[1..], i);
      var v := AddAll(r, es)[i];
      assert es == [es[0]] + es[1..];
      if v == r'[i] && r'[i] != r[i] { assert (i, v) == es[0]; }
    }
  }

  /** Whatever the order and however often: register `i` is the maximum over the elements. */
  lemma AddsAreMaxima(es: seq<Element>, i: nat)
    requires Elements(es) && i < REGISTERS
    ensures IsMaximum(es, i, AddAll(Repeat(0, REGISTERS), es)[i])
  {
    AddAllMaximum(Repeat(0, REGISTERS), es, i);
  }

  lemma MaximumUnique(es: seq<Element>, fs: seq<Element>, i: nat, v: nat, w: nat)
    requires forall e :: e in es <==> e in fs
    requires IsMaximum(es, i, v) && IsMaximum(fs, i, w)
    ensures v == w
  {
    if v != 0 { assert (i, v) in fs; }
    if w != 0 { assert (i, w) in es; }
  }

  /** The registers depend on the set of elements only. */
  lemma OrderIrrelevant(es: seq<Element>, fs: seq<Element>)
    requires Elements(es) && Elements(fs) && forall e :: e in es <==> e in fs
    ensures AddAll(Repeat(0, REGISTERS), es) == AddAll(Repeat(0, REGISTERS), fs)
  {
    var a, b := AddAll(Repeat(0, REGISTERS), es), AddAll(Repeat(0, REGISTERS), fs);
    forall i | 0 <= i < REGISTERS ensures a[i] == b[i] {
      AddsAreMaxima(es, i);
      AddsAreMaxima(fs, i);
      MaximumUnique(es, fs, i, a[i], b[i]);
    }
  }

  /** Merging the registers of A and of B gives the registers of the union of A and B. */
  lemma UnionLaw(es: seq<Element>, fs: seq<Element>)
    requires Elements(es) && Elements(fs)
    ensures Elements(es + fs)
    ensures PointwiseMax(AddAll(Repeat(0, REGISTERS), es), AddAll(Repeat(0, REGISTERS), fs))
         == AddAll(Repeat(0, REGISTERS), es + fs)
  {
    var a, b := AddAll(Repeat(0, REGISTERS), es), AddAll(Repeat(0, REGISTERS), fs);
    var c := AddAll(Repeat(0, REGISTERS), es + fs);
    var m := PointwiseMax(a, b);
    forall i | 0 <= i < REGISTERS ensures m[i] == c[i] {
      AddsAreMaxima(es, i);
      AddsAreMaxima(fs, i);
      AddsAreMaxima(es + fs, i);
      if c[i] != 0 { assert (i, c[i]) in es || (i, c[i]) in fs; }
      if a[i] != 0 { assert (i, a[i]) in es + fs; }
      if b[i] != 0 { assert (i, b[i]) in es + fs; }
    }
  }

  /** Adding a stream of elements to an object leaves it holding their maxima, in whatever encoding
      it ends up. */
  method AddStream(h: Hll, es: seq<Element>)
    requires h.Ok() && Elements(es) && forall e :: e in es ==> 1 <= e.1 < 64
    modifies h`encoding, h`sparse, h`dense, h.dense
    ensures h.Ok() && h.Registers() == AddAll(old(h.Registers()), es)
    ensures old(h.Compact()) ==> h.Compact()
  {
    hide Hll.Registers, Hll.Ok, Hll.Compact;
    var i := 0;
    assert es[0..] == es;
    while i < |es|
      invariant i <= |es| && h.Ok() && fresh({h.dense} - {old(h.dense)})
      invariant old(h.Compact()) ==> h.Compact()
      invariant Elements(es[i..])
      invariant AddAll(h.Registers(), es[i..]) == AddAll(old(h.Registers()), es)
    {
      assert es[i..][0] == es[i] && es[i..][1..] == es[i + 1..];
      var r := h.Add(es[i].0, es[i].1);
      i := i + 1;
    }
  }

  // ---------------------------------------------------------------- PFMERGE and PFCOUNT

  /** The maxima over several objects, starting from `r`. */
  ghost function MergeAll(r: seq<nat>, hs: seq<seq<nat>>): (s: seq<nat>)
    requires |r| == REGISTERS && forall h :: h in hs ==> |h| == REGISTERS
    ensures |s| == REGISTERS
    decreases |hs|
  {
    if hs == [] then r else MergeAll(PointwiseMax(r, hs[0]), hs[1..])
  }

  /** `views` are the registers of `hs`. */
  ghost predicate AreViews(hs: seq<Hll>, views: seq<seq<nat>>)
    reads set h | h in hs, set h | h in hs :: h.dense
  {
    |views| == |hs| && forall i :: 0 <= i < |hs| ==> hs[i].Ok() && views[i] == hs[i].Registers()
  }

  /** The objects `pfmergeCommand` looks at: its first argument is the destination, which may not
      exist. */
  function Merged(dest: Hll?, sources: seq<Hll>): seq<Hll> {
    (if dest == null then [] else [dest]) + sources
  }

  /** The merging loop of `pfmergeCommand`. */
  method MergeSources(sources: seq<Hll>, ghost views: seq<seq<nat>>) returns (max: array<nat>)
    requires AreViews(sources, views)
    ensures fresh(max) && max.Length == REGISTERS
    ensures forall h :: h in views ==> |h| == REGISTERS
    ensures max[..] == MergeAll(Repeat(0, REGISTERS), views)
    ensures forall k :: 0 <= k < REGISTERS ==> max[k] < 64
  {
    hide Hll.Registers, Hll.Ok, Repeat;
    max := new nat[REGISTERS](_ => 0);
    assert max[..] == Repeat(0, REGISTERS) by { ZeroArray(max); }
    var j := 0;
    assert views[0..] == views;
    while j < |sources|
      invariant j <= |sources| && fresh(max) && max.Length == REGISTERS
      invariant forall h :: h in views ==> |h| == REGISTERS
      invariant MergeAll(max[..], views[j..]) == MergeAll(Repeat(0, REGISTERS), views)
      invariant forall k :: 0 <= k < REGISTERS ==> max[k] < 64
    {
      assert views[j..][0] == views[j] && views[j..][1..] == views[j + 1..];
      ghost var before := max[..];
      sources[j].RegistersSmall();
      sources[j].MergeInto(max);
      forall k | 0 <= k < REGISTERS ensures max[k] < 64 { assert max[k] == max[..][k] == Max(before[k], views[j][k]); }
      j := j + 1;
    }
    assert views[j..] == [];
  }

  lemma ZeroArray(max: array<nat>)
    requires max.Length == REGISTERS && forall k :: 0 <= k < REGISTERS ==> max[k] == 0
    ensures max[..] == Repeat(0, REGISTERS)
  {
  }

  method WriteAll(dest: Hll, max: array<nat>)
    requires dest.Ok() && dest.encoding == Dense && max.Length == REGISTERS
    requires forall k :: 0 <= k < REGISTERS ==> max[k] < 64
    modifies dest.dense
    ensures dest.Ok() && dest.Registers() == max[..]
  {
    hide DenseRegs;
    var j := 0;
    while j < REGISTERS
      invariant j <= REGISTERS
      invariant DenseRegs(dest.dense[..])[..j] == max[..j]
    {
      ghost var before := DenseRegs(dest.dense[..]);
      SetRegister(dest.dense, j, max[j]);
      assert before[j := max[j]][..j + 1] == before[..j] + [max[j]];
      assert max[..j + 1] == max[..j] + [max[j]];
      j := j + 1;
    }
    assert DenseRegs(dest.dense[..])[..REGISTERS] == DenseRegs(dest.dense[..]);
    assert max[..REGISTERS] == max[..];
  }

  /** `pfmergeCommand`: all objects, the destination among them if it exists, are merged into an
      array, which then is written to the destination in dense form. `views` are the registers. */
  method PfMerge(dest: Hll?, sources: seq<Hll>, maxBytes: nat, ghost views: seq<seq<nat>>) returns (d: Hll)
    requires AreViews(Merged(dest, sources), views)
    modifies if dest == null then {} else {dest, dest.dense}
    ensures if dest == null then fresh(d) else d == dest
    ensures d.Ok() && d.encoding == Dense
    ensures forall h :: h in views ==> |h| == REGISTERS
    ensures d.Registers() == MergeAll(Repeat(0, REGISTERS), views)
  {
    hide Hll.Registers, Hll.Ok, Repeat;
    var max := MergeSources(Merged(dest, sources), views);
    if dest == null {
      d := new Hll(maxBytes);
    } else {
      d := dest;
      assert Merged(dest, sources)[0] == dest;
    }
    d.SparseToDense();
    WriteAll(d, max);
  }

  function Flatten(streams: seq<seq<Element>>): seq<Element> {
    if streams == [] then [] else streams[0] + Flatten(streams[1..])
  }

  /** Merging objects that hold the maxima of their streams gives the maxima of all streams. */
  lemma {:induction false} MergeIsUnion(done: seq<Element>, views: seq<seq<nat>>, streams: seq<seq<Element>>)
    requires Elements(done) && |views| == |streams|
    requires forall i :: 0 <= i < |streams| ==>
               Elements(streams[i]) && views[i] == AddAll(Repeat(0, REGISTERS), streams[i])
    ensures Elements(done + Flatten(streams)) && forall v :: v in views ==> |v| == REGISTERS
    ensures MergeAll(AddAll(Repeat(0, REGISTERS), done), views)
         == AddAll(Repeat(0, REGISTERS), done + Flatten(streams))
    decreases |views|
  {
    hide Repeat, AddAll, PointwiseMax;
    if views == [] {
      assert done + Flatten(streams) == done;
    } else {
      UnionLaw(done, streams[0]);
      MergeIsUnion(done + streams[0], views[1..], streams[1..]);
      assert done + Flatten(streams) == (done + streams[0]) + Flatten(streams[1..]);
    }
  }

  /** PFADD of one stream to a new key, of another to a second one, and PFMERGE of the two: the
      result holds the maxima of the union, in whatever encodings the keys were. */
  method AddAndMerge(es: seq<Element>, fs: seq<Element>, maxBytes: nat) returns (d: Hll)
    requires Elements(es) && Elements(fs) && forall e :: e in es + fs ==> 1 <= e.1 < 64
    ensures d.Ok() && Elements(es + fs) && d.Registers() == AddAll(Repeat(0, REGISTERS), es + fs)
  {
    hide Hll.Registers, Hll.Ok, Repeat, AddAll;
    assert forall e :: e in es || e in fs ==> e in es + fs;
    var g := new Hll(maxBytes);
    AddStream(g, es);
    var h := new Hll(maxBytes);
    AddStream(h, fs);
    ghost var views := [g.Registers(), h.Registers()];
    assert Merged(null, [g, h]) == [g, h];
    d := PfMerge(null, [g, h], maxBytes, views);
    MergeTwo(es, fs);
  }

  lemma MergeTwo(es: seq<Element>, fs: seq<Element>)
    requires Elements(es) && Elements(fs)
    ensures var zeros := Repeat(0, REGISTERS);
      Elements(es + fs) && MergeAll(zeros, [AddAll(zeros, es), AddAll(zeros, fs)]) == AddAll(zeros, es + fs)
  {
    hide Repeat, PointwiseMax;
    var zeros := Repeat(0, REGISTERS);
    assert AddAll(zeros, []) == zeros;
    MergeIsUnion([], [AddAll(zeros, es), AddAll(zeros, fs)], [es, fs]);
    assert [es, fs][1..] == [fs] && [fs][1..] == [];
    assert [] + Flatten([es, fs]) == es + fs by { assert Flatten([fs]) == fs + [] == fs; }
  }

  /** The unrolled reading loop of `hllDenseSum` (four registers in three bytes, four times per
      round) sees every register once and in order, and counts the zero ones. */
  method UnrolledRegisters(d: array<bv8>) returns (regs: seq<nat>, ez: nat)
    requires d.Length == DENSE_BYTES
    ensures regs == DenseRegs(d[..])
    ensures ez == Zeros(regs)
  {
    hide DenseRegs, GroupGet;
    regs, ez := [], 0;
    var g := 0;
    while g < REGISTERS / 4
      invariant g <= REGISTERS / 4
      invariant regs == DenseRegs(d[..])[..4 * g] && ez == Zeros(regs)
    {
      var x, y, z := d[3 * g], d[3 * g + 1], d[3 * g + 2];
      var k := 0;
      while k < 4
        invariant k <= 4
        invariant regs == DenseRegs(d[..])[..4 * g + k] && ez == Zeros(regs)
      {
        var r := GroupGet(x, y, z, k) as nat;
        ReadGroup(d[..], g, k);
        if r == 0 { ez := ez + 1; }
        ZerosSnoc(regs, r);
        regs := regs + [r];
        k := k + 1;
      }
      g := g + 1;
    }
  }

  ghost function Zeros(s: seq<nat>): nat {
    if s == [] then 0 else Zeros(s[..|s| - 1]) + if s[|s| - 1] == 0 then 1 else 0
  }

  lemma ZerosSnoc(s: seq<nat>, v: nat)
    ensures Zeros(s + [v]) == Zeros(s) + if v == 0 then 1 else 0
  {
    assert (s + [v])[..|s|] == s;
  }

  lemma ReadGroup(d: seq<bv8>, g: nat, k: nat)
    requires |d| == DENSE_BYTES && g < REGISTERS / 4 && k < 4
    ensures DenseRegs(d)[..4 * g + k + 1]
      == DenseRegs(d)[..4 * g + k] + [GroupGet(d[3 * g], d[3 * g + 1], d[3 * g + 2], k) as nat]
  {
    hide GroupGet, Get;
    GetIsGroupGet(d, g, k);
  }

  /** Merging from an opcode boundary on changes no register. */
  lemma MergedFrom(s: Bytes, start: nat)
    requires start <= |s| && Valid(s) && Valid(s[..start]) && Valid(s[start..])
    ensures var r := s[..start] + Merge(s[start..], 5); Valid(r) && Regs(r) == Regs(s) && |r| <= |s|
  {
    hide Valid, Regs, Merge;
    MergeKeeps(s[start..], 5);
    Concat(s[..start], s[start..]);
    Concat(s[..start], Merge(s[start..], 5));
    assert s == s[..start] + s[start..];
  }

  lemma TailValid(s: Bytes, p: nat)
    requires p < |s| && Valid(s[p..])
    ensures p + OpLen(s[p]) <= |s| && Valid(s[p + OpLen(s[p])..])
  {
    hide OpLen;
    assert s[p..][OpLen(s[p])..] == s[p + OpLen(s[p])..];
  }

  lemma NothingToScan(s: Bytes, n: nat)
    requires Valid(s) && (s == [] || n == 0)
    ensures Merge(s, n) == s
  {
  }

  /** Two opcodes that the scan makes one. */
  lemma JoinedAt(s: Bytes, p: nat, n: nat)
    requires p + 1 < |s| && Valid(s[p..]) && Mergeable(s[p..])
    ensures var r := s[..p] + [Both(s[p], s[p + 1])] + s[p + 2..];
      && Valid(r[p..]) && r[..p] == s[..p] && Merge(r[p..], n) == Merge(s[p..], n + 1)
  {
    hide OpLen, Valid, Regs, Both, IsVal, ValLen, ValValue;
    JoinedIs(s[p..]);
    var r := s[..p] + [Both(s[p], s[p + 1])] + s[p + 2..];
    assert r[p..] == Joined(s[p..]);
  }

  /** One opcode that the scan steps over. */
  lemma SteppedOver(s: Bytes, p: nat, k: nat, n: nat)
    requires p + k <= |s| && k > 0 && OpLen(s[p]) == k && Valid(s[p..]) && Valid(s[p + k..])
    requires !Mergeable(s[p..])
    ensures s[..p] + Merge(s[p..], n + 1) == s[..p + k] + Merge(s[p + k..], n)
  {
    hide OpLen, Mergeable, Valid;
    assert s[p..][..k] == s[p..p + k] && s[p..][k..] == s[p + k..];
    assert s[..p + k] == s[..p] + s[p..p + k];
  }

  lemma RunShape(op: Bytes, v: nat, n: nat)
    requires op != [] && OpLen(op[0]) <= |op| && OpRegs(op) == Repeat(v, n)
    ensures n == |OpRegs(op)|
  {
  }

  lemma ValRunSize(b: bv8, v: nat, len: nat)
    requires 1 <= v <= VAL_MAX_VALUE && len <= VAL_MAX_LEN && IsVal(b)
    ensures Valid(ValRun(v, len)) && |ValRun(v, len)| == RunSize(b, len) && Opcodes(ValRun(v, len)) <= 1
  {
    hide ValSet, Regs, IsVal, OpLen;
    ValRunRegs(v, len);
    if len > 0 { ValSetIs(v, len); }
  }

  lemma ZeroRunSize(b: bv8, len: nat)
    requires len <= XZERO_MAX_LEN && !IsVal(b)
    ensures Valid(ZeroRun(len)) && |ZeroRun(len)| == RunSize(b, len) && Opcodes(ZeroRun(len)) <= 1
  {
    hide ZeroSet, XzeroSet, Regs, IsVal, IsXzero;
    ZeroRunRegs(len);
    if len > ZERO_MAX_LEN { XzeroSetIs(len); }
  }

  lemma ThreeOpcodes(a: Bytes, count: nat, b: Bytes)
    requires Valid(a) && Valid(b) && Opcodes(a) <= 1 && Opcodes(b) <= 1 && 1 <= count <= VAL_MAX_VALUE
    ensures Valid(a + [ValSet(count, 1)] + b) && Opcodes(a + [ValSet(count, 1)] + b) <= 3
  {
    hide ValSet, Valid, Regs;
    ValOp(count, 1);
    OpcodesAdd(a, [ValSet(count, 1)]);
    OpcodesAdd(a + [ValSet(count, 1)], b);
    OneOpcode([ValSet(count, 1)]);
  }

  lemma OneOpcode(s: Bytes)
    requires |s| == 1 && Valid(s)
    ensures Opcodes(s) == 1
  {
  }

  /** The growth is that of the opcode that covers the register. */
  lemma GrowthHere(s: Bytes, p: nat, index: nat)
    requires p < |s| && Valid(s) && Valid(s[..p]) && Valid(s[p..])
    requires |Regs(s[..p])| <= index < |Regs(s[..p])| + |OpRegs(s[p..])|
    ensures index < |Regs(s)|
    ensures var off := index - |Regs(s[..p])|;
      Growth(s, index) == RunSize(s[p], off) + 1 + RunSize(s[p], |OpRegs(s[p..])| - 1 - off) - OpLen(s[p])
  {
    hide OpLen, OpRegs, RunSize, Valid;
    StepOver(s, p);
    assert s == s[..p] + s[p..];
    GrowthAt(s[..p], s[p..], index);
  }

  /** New opcodes for the one at `p` change the register they are for. */
  lemma SpliceRegs(s: Bytes, p: nat, oplen: nat, n: Bytes, off: nat, count: nat, start: nat)
    requires start <= p && p + oplen <= |s| && Valid(s) && Valid(s[..start]) && Valid(s[..p])
    requires Valid(s[p..p + oplen]) && Valid(s[p + oplen..]) && Valid(n)
    requires off < |Regs(s[p..p + oplen])| && Regs(n) == Regs(s[p..p + oplen])[off := count]
    ensures var t, index := Hll.Spliced(s, p, oplen, n), |Regs(s[..p])| + off;
      && Valid(t) && Valid(t[..start]) && Valid(t[start..])
      && index < |Regs(s)| && Regs(t) == Regs(s)[index := count]
  {
    hide Valid, Regs;
    assert s == s[..p] + s[p..p + oplen] + s[p + oplen..];
    Replace(s[..p], s[p..p + oplen], s[p + oplen..], n, |Regs(s[..p])|, off, count);
    PrefixKept(s, Hll.Spliced(s, p, oplen, n), p, start);
  }

  lemma SpliceTight(s: Bytes, start: nat, p: nat, oplen: nat, n: Bytes)
    requires start <= p < |s| && oplen == OpLen(s[p]) && p + oplen <= |s|
    requires Valid(s) && Valid(s[..start]) && Valid(s[..p]) && Valid(s[p + oplen..]) && Valid(n) && Opcodes(n) <= 3
    requires if start < p then start + OpLen(s[start]) == p else start == 0
    requires Tight(s) && Valid(s[p..p + oplen])
    ensures Hll.StaysTight(Hll.Spliced(s, p, oplen, n), start)
  {
    hide OpLen, OpRegs, Valid, Regs, Tight, Merge, Opcodes;
    var pre, prev, op, post := s[..start], s[start..p], s[p..p + oplen], s[p + oplen..];
    FourParts(s, start, p, p + oplen);
    PrevOpcode(s, start, p);
    UpdateTight(pre, prev, op, n, post);
    SplicedParts(s, start, p, oplen, n);
  }

  lemma FourParts(s: Bytes, i: nat, j: nat, k: nat)
    requires i <= j <= k <= |s|
    ensures s == s[..i] + s[i..j] + s[j..k] + s[k..]
  {
  }

  lemma SplicedParts(s: Bytes, start: nat, p: nat, oplen: nat, n: Bytes)
    requires start <= p && p + oplen <= |s|
    ensures var t := Hll.Spliced(s, p, oplen, n);
      t[..start] == s[..start] && t[start..] == s[start..p] + n + s[p + oplen..]
  {
  }

  lemma PrevOpcode(s: Bytes, start: nat, p: nat)
    requires start <= p <= |s| && Valid(s[..start]) && Valid(s[..p])
    requires start < p ==> start + OpLen(s[start]) == p
    ensures Valid(s[start..p]) && Opcodes(s[start..p]) <= 1
  {
    hide OpLen;
    assert s[..p] == s[..start] + s[start..p];
    SplitValid(s[..start], s[start..p]);
    if start < p { assert s[start..p][OpLen(s[start])..] == []; }
  }

  lemma EmptyRuns(v: nat)
    requires 1 <= v <= VAL_MAX_VALUE
    ensures ZeroRun(0) == [] && ValRun(v, 0) == []
  {
  }

  /** No sparse register exceeds 32. */
  lemma {:induction false} SmallValues(b: Bytes)
    requires Valid(b)
    ensures forall i :: 0 <= i < |Regs(b)| ==> Regs(b)[i] <= VAL_MAX_VALUE
    decreases |b|
  {
    if b != [] {
      hide ValValue, ValLen, ZeroLen, XzeroLen;
      OneKind(b[0]);
      SmallValues(b[OpLen(b[0])..]);
    }
  }

  lemma OldValue(pre: Bytes, op: Bytes, post: Bytes, index: nat, v: nat, n: nat)
    requires Valid(pre) && Valid(op) && Valid(post) && Regs(op) == Repeat(v, n)
    requires |Regs(pre)| <= index < |Regs(pre)| + n
    ensures Valid(pre + op + post) && index < |Regs(pre + op + post)| && Regs(pre + op + post)[index] == v
  {
    hide Valid, Regs;
    Concat(pre, op);
    Concat(pre + op, post);
  }

  /** An opcode boundary before the change is one after it. */
  lemma PrefixKept(before: Bytes, after: Bytes, p: nat, start: nat)
    requires start <= p <= |before| && p <= |after| && before[..p] == after[..p]
    requires Valid(before[..start]) && Valid(before) && Valid(after)
    ensures Valid(after[..start]) && Valid(after[start..])
    ensures after == after[..start] + after[start..]
  {
    assert after[..start] == before[..p][..start] == before[..start];
    assert after == after[..start] + after[start..];
    SplitValid(after[..start], after[start..]);
  }
}
