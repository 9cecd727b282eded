/** The sparse HyperLogLog representation: a string of run-length opcodes. */
module HllSparse {

  type Bytes = seq<bv8>

  const VAL_MAX_VALUE: nat := 32
  const VAL_MAX_LEN: nat := 4
  const ZERO_MAX_LEN: nat := 64
  const XZERO_MAX_LEN: nat := 16384

  // ---------------------------------------------------------------- the opcode macros

  predicate IsZero(b: bv8) { b & 0xc0 == 0 }
  predicate IsXzero(b: bv8) { b & 0xc0 == 0x40 }
  predicate IsVal(b: bv8) { b & 0x80 != 0 }

  function ZeroLen(b: bv8): (n: nat)
    ensures n > 0
  {
    (b & 0x3f) as nat + 1
  }

  function XzeroLen(b: bv8, c: bv8): (n: nat)
    ensures n > 0
  {
    (b & 0x3f) as nat * 256 + c as nat + 1
  }

  function ValValue(b: bv8): (v: nat)
    ensures v > 0
  {
    ((b >> 2) & 0x1f) as nat + 1
  }

  function ValLen(b: bv8): (n: nat)
    ensures n > 0
  {
    (b & 0x3) as nat + 1
  }

  function ValSet(val: nat, len: nat): bv8
    requires 1 <= val <= VAL_MAX_VALUE && 1 <= len <= VAL_MAX_LEN
  {
    (((val - 1) as bv8 << 2) | (len - 1) as bv8) | 0x80
  }

  function ZeroSet(len: nat): bv8
    requires 1 <= len <= ZERO_MAX_LEN
  {
    (len - 1) as bv8
  }

  function XzeroSet(len: nat): (bv8, bv8)
    requires 1 <= len <= XZERO_MAX_LEN
  {
    (((len - 1) / 256) as bv8 | 0x40, ((len - 1) % 256) as bv8)
  }

  lemma OneKind(b: bv8)
    ensures IsZero(b) ==> !IsXzero(b) && !IsVal(b)
    ensures IsXzero(b) ==> !IsVal(b)
    ensures IsZero(b) || IsXzero(b) || IsVal(b)
    ensures ValValue(b) <= VAL_MAX_VALUE && ValLen(b) <= VAL_MAX_LEN && ZeroLen(b) <= ZERO_MAX_LEN
  {
  }

  lemma ValBits(a: bv8, b: bv8)
    requires a < 32 && b < 4
    ensures var w := ((a << 2) | b) | 0x80; (w >> 2) & 0x1f == a && w & 0x3 == b && w & 0x80 != 0
  {
  }

  lemma ValSetIs(val: nat, len: nat)
    requires 1 <= val <= VAL_MAX_VALUE && 1 <= len <= VAL_MAX_LEN
    ensures IsVal(ValSet(val, len)) && ValValue(ValSet(val, len)) == val && ValLen(ValSet(val, len)) == len
  {
    ValBits((val - 1) as bv8, (len - 1) as bv8);
  }

  lemma ZeroSetIs(len: nat)
    requires 1 <= len <= ZERO_MAX_LEN
    ensures IsZero(ZeroSet(len)) && ZeroLen(ZeroSet(len)) == len
  {
    hide ZeroLen, IsZero;
    ByteOfNat(len - 1);
    ZeroOf((len - 1) as bv8, len);
  }

  lemma ZeroOf(a: bv8, len: nat)
    requires a < 64 && a as nat + 1 == len
    ensures IsZero(a) && ZeroLen(a) == len
  {
    SmallBits(a);
  }

  lemma SmallBits(a: bv8)
    requires a < 64
    ensures a & 0xc0 == 0 && a & 0x3f == a && (a | 0x40) & 0xc0 == 0x40 && (a | 0x40) & 0x3f == a
  {
  }

  lemma ByteOfNat(x: nat)
    requires x < 256
    ensures (x as bv8) as nat == x
    ensures x < 64 ==> x as bv8 < 64
  {
  }

  lemma XzeroSetIs(len: nat)
    requires 1 <= len <= XZERO_MAX_LEN
    ensures IsXzero(XzeroSet(len).0) && XzeroLen(XzeroSet(len).0, XzeroSet(len).1) == len
  {
    var hi: nat, lo: nat := (len - 1) / 256, (len - 1) % 256;
    ByteOfNat(hi);
    ByteOfNat(lo);
    SmallBits(hi as bv8);
    XzeroParts(hi as bv8, lo as bv8, hi, lo);
  }

  lemma XzeroParts(h: bv8, l: bv8, hi: nat, lo: nat)
    requires h as nat == hi && l as nat == lo && (h | 0x40) & 0x3f == h
    ensures XzeroLen(h | 0x40, l) == hi * 256 + lo + 1
  {
  }

  // ---------------------------------------------------------------- strings of opcodes

  function OpLen(b: bv8): (n: nat)
    ensures n == 1 || n == 2
  {
    if IsXzero(b) then 2 else 1
  }

  function Repeat(v: nat, n: nat): (r: seq<nat>)
    ensures |r| == n && forall i :: 0 <= i < n ==> r[i] == v
  {
    seq(n, _ => v)
  }

  /** The registers an opcode stands for. */
  function OpRegs(b: Bytes): (r: seq<nat>)
    requires b != [] && OpLen(b[0]) <= |b|
    ensures |r| > 0
  {
    if IsZero(b[0]) then Repeat(0, ZeroLen(b[0]))
    else if IsXzero(b[0]) then Repeat(0, XzeroLen(b[0], b[1]))
    else Repeat(ValValue(b[0]), ValLen(b[0]))
  }

  /** A string of complete opcodes. */
  predicate Valid(b: Bytes) {
    b == [] || (OpLen(b[0]) <= |b| && Valid(b[OpLen(b[0])..]))
  }

  function Regs(b: Bytes): seq<nat>
    requires Valid(b)
  {
    if b == [] then [] else OpRegs(b) + Regs(b[OpLen(b[0])..])
  }

  lemma {:induction false} Concat(a: Bytes, b: Bytes)
    requires Valid(a) && Valid(b)
    ensures Valid(a + b) && Regs(a + b) == Regs(a) + Regs(b)
    decreases |a|
  {
    hide OpLen, OpRegs;
    if a == [] {
      assert a + b == b;
    } else {
      var n := OpLen(a[0]);
      assert (a + b)[n..] == a[n..] + b;
      Concat(a[n..], b);
      SameHead(a + b, a);
    }
  }

  /** The registers of an opcode depend on its own bytes only. */
  lemma SameHead(s: Bytes, t: Bytes)
    requires s != [] && t != [] && s[0] == t[0] && OpLen(s[0]) <= |t| && OpLen(s[0]) <= |s|
    requires OpLen(s[0]) == 2 ==> s[1] == t[1]
    ensures OpRegs(s) == OpRegs(t)
  {
  }

  lemma {:induction false} SplitValid(a: Bytes, b: Bytes)
    requires Valid(a) && Valid(a + b)
    ensures Valid(b)
    decreases |a|
  {
    if a == [] {
      assert a + b == b;
    } else {
      var n := OpLen(a[0]);
      assert (a + b)[n..] == a[n..] + b;
      SplitValid(a[n..], b);
    }
  }

  /** Stepping over one opcode of a string cut at an opcode boundary. */
  lemma StepOver(s: Bytes, p: nat)
    requires p < |s| && Valid(s[..p]) && Valid(s[p..])
    ensures var n := OpLen(s[p]);
      && p + n <= |s| && Valid(s[p..p + n]) && Valid(s[..p + n]) && Valid(s[p + n..])
      && Regs(s[p..p + n]) == OpRegs(s[p..]) && Regs(s[..p + n]) == Regs(s[..p]) + OpRegs(s[p..])
      && Regs(s[p..]) == OpRegs(s[p..]) + Regs(s[p + n..])
  {
    hide OpLen, OpRegs;
    var n := OpLen(s[p]);
    var op := s[p..p + n];
    assert s[p..][n..] == s[p + n..];
    assert op[0] == s[p] && op[n..] == [];
    assert Valid([]) && Regs([]) == [];
    SameHead(s[p..], op);
    assert Regs(op) == OpRegs(op) + [];
    assert s[..p + n] == s[..p] + op;
    Concat(s[..p], op);
  }

  lemma ValidSingle(b: bv8)
    requires !IsXzero(b)
    ensures Valid([b]) && Regs([b]) == OpRegs([b])
  {
    assert [b][1..] == [];
    assert OpRegs([b]) + [] == OpRegs([b]);
  }

  lemma ValOp(val: nat, len: nat)
    requires 1 <= val <= VAL_MAX_VALUE && 1 <= len <= VAL_MAX_LEN
    ensures Valid([ValSet(val, len)]) && Regs([ValSet(val, len)]) == Repeat(val, len)
  {
    ValSetIs(val, len);
    OneKind(ValSet(val, len));
    ValidSingle(ValSet(val, len));
  }

  // ---------------------------------------------------------------- splitting an opcode

  /** A run of zero registers, written the way the split writes it. */
  function ZeroRun(len: nat): Bytes
    requires len <= XZERO_MAX_LEN
  {
    if len == 0 then []
    else if len > ZERO_MAX_LEN then [XzeroSet(len).0, XzeroSet(len).1]
    else [ZeroSet(len)]
  }

  lemma ZeroRunRegs(len: nat)
    requires len <= XZERO_MAX_LEN
    ensures Valid(ZeroRun(len)) && Regs(ZeroRun(len)) == Repeat(0, len)
  {
    if len > ZERO_MAX_LEN {
      XzeroSetIs(len);
      OneKind(XzeroSet(len).0);
      XzeroOp(XzeroSet(len).0, XzeroSet(len).1);
    } else if len > 0 {
      ZeroSetIs(len);
      OneKind(ZeroSet(len));
      ValidSingle(ZeroSet(len));
    }
  }

  lemma XzeroOp(b: bv8, c: bv8)
    requires IsXzero(b)
    ensures Valid([b, c]) && Regs([b, c]) == Repeat(0, XzeroLen(b, c))
  {
    OneKind(b);
    assert [b, c][2..] == [];
    assert OpRegs([b, c]) + [] == OpRegs([b, c]);
  }

  function ValRun(val: nat, len: nat): Bytes
    requires 1 <= val <= VAL_MAX_VALUE && len <= VAL_MAX_LEN
  {
    if len == 0 then [] else [ValSet(val, len)]
  }

  lemma ValRunRegs(val: nat, len: nat)
    requires 1 <= val <= VAL_MAX_VALUE && len <= VAL_MAX_LEN
    ensures Valid(ValRun(val, len)) && Regs(ValRun(val, len)) == Repeat(val, len)
  {
    if len > 0 { ValOp(val, len); }
  }

  /** One register in the middle of a run gets its own opcode. */
  lemma SplitRegs(before: Bytes, count: nat, after: Bytes, v: nat, m: nat, n: nat)
    requires Valid(before) && Regs(before) == Repeat(v, m) && Valid(after) && Regs(after) == Repeat(v, n)
    requires 1 <= count <= VAL_MAX_VALUE
    ensures var s := before + [ValSet(count, 1)] + after;
      Valid(s) && Regs(s) == Repeat(v, m + 1 + n)[m := count]
  {
    hide ValSet, Regs, Valid;
    ValOp(count, 1);
    Concat(before, [ValSet(count, 1)]);
    Concat(before + [ValSet(count, 1)], after);
  }

  /** Replacing one opcode of a string replaces its registers. */
  lemma Replace(pre: Bytes, op: Bytes, post: Bytes, s: Bytes, first: nat, off: nat, count: nat)
    requires Valid(pre) && Valid(op) && Valid(post) && Valid(s)
    requires |Regs(pre)| == first && off < |Regs(op)| && Regs(s) == Regs(op)[off := count]
    ensures Valid(pre + op + post) && Valid(pre + s + post) && first + off < |Regs(pre + op + post)|
    ensures Regs(pre + s + post) == Regs(pre + op + post)[first + off := count]
  {
    hide Valid, Regs;
    Concat(pre, op);
    Concat(pre + op, post);
    Concat(pre, s);
    Concat(pre + s, post);
  }

  // ---------------------------------------------------------------- merging runs

  /** How many opcodes a string has. */
  ghost function Opcodes(b: Bytes): nat
    requires Valid(b)
  {
    if b == [] then 0 else 1 + Opcodes(b[OpLen(b[0])..])
  }

  /** The first two opcodes are runs of one value, short enough together for one opcode. */
  predicate Mergeable(s: Bytes)
    requires s != []
  {
    && IsVal(s[0]) && |s| > 1 && IsVal(s[1])
    && ValValue(s[0]) == ValValue(s[1]) && ValLen(s[0]) + ValLen(s[1]) <= VAL_MAX_LEN
  }

  /** No two adjacent opcodes of the string could be one. */
  ghost predicate Tight(s: Bytes)
    requires Valid(s)
  {
    s != [] ==> !Mergeable(s) && Tight(s[OpLen(s[0])..])
  }

  /** One opcode for the runs of two. */
  function Both(a: bv8, b: bv8): bv8
    requires ValLen(a) + ValLen(b) <= VAL_MAX_LEN
  {
    OneKind(a);
    ValSet(ValValue(a), ValLen(a) + ValLen(b))
  }

  /** The string with the first two runs as one. */
  function Joined(s: Bytes): (r: Bytes)
    requires s != [] && Mergeable(s)
    ensures |r| == |s| - 1 > 0
  {
    [Both(s[0], s[1])] + s[2..]
  }

  lemma JoinedHead(s: Bytes)
    requires s != [] && Mergeable(s)
    ensures var m := Joined(s)[0];
      && IsVal(m) && OpLen(m) == 1 && ValValue(m) == ValValue(s[0]) && ValLen(m) == ValLen(s[0]) + ValLen(s[1])
    ensures OpLen(s[0]) == OpLen(s[1]) == 1
  {
    hide ValSet, ValValue, ValLen, IsVal, IsXzero, IsZero;
    OneKind(s[0]);
    OneKind(s[1]);
    KindLen(s[0]);
    KindLen(s[1]);
    ValSetIs(ValValue(s[0]), ValLen(s[0]) + ValLen(s[1]));
    OneKind(Joined(s)[0]);
    KindLen(Joined(s)[0]);
  }

  lemma JoinedIs(s: Bytes)
    requires Valid(s) && s != [] && Mergeable(s)
    ensures OpLen(s[0]) == OpLen(s[1]) == 1 && Valid(s[1..]) && Valid(s[2..])
    ensures Valid(Joined(s)) && Regs(Joined(s)) == Regs(s) && Joined(s)[1..] == s[2..]
    ensures IsVal(Joined(s)[0]) && OpLen(Joined(s)[0]) == 1
    ensures ValValue(Joined(s)[0]) == ValValue(s[0]) && ValLen(Joined(s)[0]) > ValLen(s[0])
    ensures ValLen(Joined(s)[0]) > ValLen(s[1])
  {
    hide ValSet, Regs, OpRegs, OpLen, ValValue, ValLen, IsVal, IsXzero, IsZero;
    JoinedHead(s);
    assert s[1..][1..] == s[2..];
    JoinedRegs(s);
  }

  lemma JoinedRegs(s: Bytes)
    requires s != [] && Mergeable(s) && |s| > 1 && Valid(s[2..])
    ensures Valid(s) && Valid(Joined(s)) && Regs(Joined(s)) == Regs(s)
  {
    hide Both, Regs, Valid, ValValue, ValLen, IsVal;
    MergeRegs(s[0], s[1], s[2..]);
    assert [s[0], s[1]] + s[2..] == s;
  }

  lemma KindLen(b: bv8)
    ensures OpLen(b) == if IsXzero(b) then 2 else 1
  {
  }

  /** The scan over `n` opcodes that steps over an opcode or merges it with the next one. */
  function Merge(s: Bytes, n: nat): Bytes
    requires Valid(s)
    decreases n
  {
    if n == 0 || s == [] then s
    else if Mergeable(s) then
      JoinedIs(s);
      Merge(Joined(s), n - 1)
    else s[..OpLen(s[0])] + Merge(s[OpLen(s[0])..], n - 1)
  }

  /** Merging changes no register. */
  lemma {:induction false} MergeKeeps(s: Bytes, n: nat)
    requires Valid(s)
    ensures Valid(Merge(s, n)) && Regs(Merge(s, n)) == Regs(s) && |Merge(s, n)| <= |s|
    decreases n
  {
    hide Regs, OpRegs, OpLen, Mergeable, Joined;
    if n == 0 || s == [] {
    } else if Mergeable(s) {
      JoinedIs(s);
      MergeKeeps(Joined(s), n - 1);
    } else {
      var k := OpLen(s[0]);
      MergeKeeps(s[k..], n - 1);
      NoOpcode();
      assert s[..0] == [] && s[0..] == s;
      StepOver(s, 0);
      assert s[0..k] == s[..k];
      Concat(s[..k], Merge(s[k..], n - 1));
      Concat(s[..k], s[k..]);
      assert s == s[..k] + s[k..];
    }
  }

  lemma NoOpcode()
    ensures Valid([]) && Regs([]) == []
  {
  }

  /** A tight string is left alone. */
  lemma {:induction false} MergeTight(s: Bytes, n: nat)
    requires Valid(s) && Tight(s)
    ensures Merge(s, n) == s
    decreases n
  {
    if n > 0 && s != [] {
      MergeTight(s[OpLen(s[0])..], n - 1);
      assert s == s[..OpLen(s[0])] + s[OpLen(s[0])..];
    }
  }

  predicate LongerRun(a: bv8, b: bv8) {
    IsVal(a) && IsVal(b) && ValValue(a) == ValValue(b) && ValLen(a) <= ValLen(b)
  }

  /** `t` starts with what `s` starts with, but for a longer run. */
  ghost predicate Longer(s: Bytes, t: Bytes) {
    && (s == [] <==> t == [])
    && (s != [] ==> t[0] == s[0] || LongerRun(s[0], t[0]))
  }

  lemma {:induction false} MergeHead(s: Bytes, n: nat)
    requires Valid(s)
    ensures Longer(s, Merge(s, n))
    decreases n
  {
    hide LongerRun, OpLen, Joined, Mergeable, Regs;
    if n > 0 && s != [] && Mergeable(s) {
      JoinedIs(s);
      LongerJoined(s);
      MergeHead(Joined(s), n - 1);
      LongerStill(s[0], Joined(s)[0], Merge(Joined(s), n - 1)[0]);
    }
  }

  lemma LongerJoined(s: Bytes)
    requires s != [] && Mergeable(s)
    ensures LongerRun(s[0], Joined(s)[0])
  {
    hide ValValue, ValLen, IsVal, Joined;
    JoinedHead(s);
  }

  lemma LongerStill(a: bv8, b: bv8, c: bv8)
    requires LongerRun(a, b) && (c == b || LongerRun(b, c))
    ensures LongerRun(a, c)
  {
    hide ValValue, ValLen, IsVal;
  }

  /** An opcode before a longer run is no more mergeable than it was. */
  lemma NotMergeable(op: Bytes, s: Bytes, t: Bytes)
    requires op != [] && OpLen(op[0]) == |op| && Longer(s, t) && !Mergeable(op + s)
    ensures !Mergeable(op + t)
  {
    hide ValValue, ValLen, IsVal, IsXzero, IsZero;
    OneKind(op[0]);
    KindLen(op[0]);
    if IsVal(op[0]) && t != [] {
      assert (op + t)[1] == t[0] && (op + s)[1] == s[0];
    }
  }

  /** What follows the opcodes that the scan looks at being tight, all is tight after the scan. */
  lemma {:induction false} MergeIsTight(w: Bytes, b: Bytes, n: nat)
    requires Valid(w) && Valid(b) && Valid(w + b) && Tight(b) && Opcodes(w) <= n
    ensures Valid(Merge(w + b, n)) && Tight(Merge(w + b, n))
    decreases n
  {
    hide Mergeable, Joined, Merge, OpLen, LongerRun, Regs, OpRegs, Tight;
    var s := w + b;
    if w == [] {
      assert s == b;
      MergeTight(b, n);
    } else if Mergeable(s) {
      JoinTight(w, b, n);
    } else {
      var k := OpLen(w[0]);
      assert s[k..] == w[k..] + b;
      MergeIsTight(w[k..], b, n - 1);
      StepTight(s, n);
    }
  }

  lemma StepTight(s: Bytes, n: nat)
    requires n > 0 && s != [] && Valid(s) && !Mergeable(s)
    requires var rest := Merge(s[OpLen(s[0])..], n - 1); Valid(rest) && Tight(rest)
    ensures Valid(Merge(s, n)) && Tight(Merge(s, n))
  {
    hide Mergeable, LongerRun;
    var k := OpLen(s[0]);
    var rest := Merge(s[k..], n - 1);
    MergeHead(s[k..], n - 1);
    assert s == s[..k] + s[k..];
    NotMergeable(s[..k], s[k..], rest);
    assert Merge(s, n)[k..] == rest;
  }

  /** A run that takes in the first one of a tight string leaves the string tight. */
  lemma TightJoin(s: Bytes)
    requires Valid(s) && s != [] && Mergeable(s) && Valid(s[1..]) && Tight(s[1..])
    ensures Valid(Joined(s)) && Tight(Joined(s))
  {
    hide IsVal, ValValue, ValLen, IsXzero, Joined, Regs, OpLen;
    JoinedIs(s);
    assert s[1..][1..] == s[2..];
  }

  lemma OneOpcodeLess(w: Bytes, m: Bytes)
    requires Valid(w) && |w| > 1 && |m| == 1 && OpLen(m[0]) == OpLen(w[0]) == OpLen(w[1]) == 1
    ensures Valid(m + w[2..]) && Opcodes(w) == 1 + Opcodes(m + w[2..])
  {
    hide OpLen;
    assert w[1..][1..] == w[2..] && (m + w[2..])[1..] == w[2..];
  }

  lemma JoinedFront(w: Bytes, b: Bytes)
    requires Valid(w) && |w| > 1 && Valid(w + b) && Mergeable(w + b)
    ensures var v := Joined(w + b)[..1] + w[2..];
      Valid(v) && Opcodes(w) == 1 + Opcodes(v) && Valid(v + b) && Joined(w + b) == v + b
  {
    hide IsVal, ValValue, ValLen, Joined, Regs, OpLen, Mergeable, Opcodes;
    var s := w + b;
    JoinedIs(s);
    assert s[0] == w[0] && s[1] == w[1] && s[2..] == w[2..] + b;
    OneOpcodeLess(w, Joined(s)[..1]);
    assert Joined(s) == Joined(s)[..1] + w[2..] + b;
  }

  lemma {:induction false} JoinTight(w: Bytes, b: Bytes, n: nat)
    requires Valid(w) && Valid(b) && Valid(w + b) && Tight(b) && w != []
    requires 0 < n && Opcodes(w) <= n && Mergeable(w + b)
    ensures Valid(Merge(w + b, n)) && Tight(Merge(w + b, n))
    decreases n, 0
  {
    hide IsVal, ValValue, ValLen, Joined, Regs, OpRegs, OpLen, Mergeable, Opcodes, Tight;
    var s := w + b;
    JoinedIs(s);
    if |w| > 1 {
      JoinedFront(w, b);
      MergeIsTight(Joined(s)[..1] + w[2..], b, n - 1);
    } else {
      assert s[1..] == b;
      TightJoin(s);
      MergeTight(Joined(s), n - 1);
    }
  }

  lemma {:induction false} OpcodesAdd(a: Bytes, b: Bytes)
    requires Valid(a) && Valid(b)
    ensures Valid(a + b) && Opcodes(a + b) == Opcodes(a) + Opcodes(b)
    decreases |a|
  {
    hide OpLen;
    if a == [] {
      assert a + b == b;
    } else {
      assert (a + b)[OpLen(a[0])..] == a[OpLen(a[0])..] + b;
      OpcodesAdd(a[OpLen(a[0])..], b);
    }
  }

  lemma {:induction false} TightSuffix(a: Bytes, b: Bytes)
    requires Valid(a) && Valid(b) && Valid(a + b) && Tight(a + b)
    ensures Tight(b)
    decreases |a|
  {
    hide OpLen, Mergeable;
    if a == [] {
      assert a + b == b;
    } else {
      assert (a + b)[OpLen(a[0])..] == a[OpLen(a[0])..] + b;
      TightSuffix(a[OpLen(a[0])..], b);
    }
  }

  /** What stands before a run stays tight when the run gets longer. */
  lemma {:induction false} TightFront(a: Bytes, x: Bytes, y: Bytes)
    requires Valid(a) && Valid(a + x) && Tight(a + x) && Longer(x, y) && Valid(y) && Tight(y)
    ensures Valid(a + y) && Tight(a + y)
    decreases |a|
  {
    hide OpLen, Mergeable, Longer, Tight;
    if a == [] {
      assert a + x == x && a + y == y;
    } else {
      var k := OpLen(a[0]);
      var u, v := a[k..] + x, a[k..] + y;
      assert (a + x)[k..] == u && a + x == a[..k] + u && a + y == a[..k] + v;
      TightTail(a[..k], u);
      LongerAfter(a[k..], x, y);
      TightFront(a[k..], x, y);
      TightStep(a[..k], u, v);
    }
  }

  lemma LongerAfter(a: Bytes, x: Bytes, y: Bytes)
    requires Longer(x, y)
    ensures Longer(a + x, a + y)
  {
    hide LongerRun;
    if a == [] { assert a + x == x && a + y == y; }
  }

  lemma TightTail(op: Bytes, u: Bytes)
    requires op != [] && OpLen(op[0]) == |op| && Valid(op + u) && Tight(op + u)
    ensures Valid(u) && Tight(u)
  {
    hide OpLen, Mergeable;
    assert (op + u)[|op|..] == u;
  }

  lemma TightStep(op: Bytes, u: Bytes, v: Bytes)
    requires op != [] && OpLen(op[0]) == |op| && Valid(op + u) && Tight(op + u)
    requires Longer(u, v) && Valid(v) && Tight(v)
    ensures Valid(op + v) && Tight(op + v)
  {
    hide OpLen, Mergeable, Longer;
    assert (op + v)[|op|..] == v;
    NotMergeable(op, u, v);
  }

  /** Replacing one opcode of a tight string by up to three and scanning five opcodes from the one
      before it on, if there is one, gives a tight string. */
  lemma UpdateTight(pre: Bytes, prev: Bytes, op: Bytes, n: Bytes, post: Bytes)
    requires Valid(pre) && Valid(prev) && Valid(op) && Valid(n) && Valid(post)
    requires Valid(pre + prev + op + post) && Tight(pre + prev + op + post)
    requires Opcodes(prev) <= 1 && Opcodes(n) <= 3 && (prev == [] ==> pre == [])
    ensures Valid(prev + n + post) && Valid(Merge(prev + n + post, 5)) && Valid(pre + Merge(prev + n + post, 5))
    ensures Tight(pre + Merge(prev + n + post, 5))
  {
    hide Valid, Regs, Tight, Opcodes, Merge, LongerRun;
    Concat(pre, prev);
    Concat(pre + prev, op);
    TightSuffix(pre + prev + op, post);
    OpcodesAdd(prev, n);
    Concat(prev + n, post);
    MergeIsTight(prev + n, post, 5);
    var r := Merge(prev + n + post, 5);
    Concat(pre, r);
    if prev == [] {
      assert pre + r == r;
    } else {
      MergeHead(prev + n + post, 5);
      assert pre + (prev + op + post) == pre + prev + op + post;
      TightFront(pre, prev + op + post, r);
    }
  }

  /** Bytes that a run takes in the kind of opcode `b`. */
  function RunSize(b: bv8, len: nat): nat {
    if len == 0 then 0 else if !IsVal(b) && len > ZERO_MAX_LEN then 2 else 1
  }

  /** By how many bytes a string grows when a register gets an opcode of its own. */
  ghost function Growth(s: Bytes, index: nat): (g: int)
    requires Valid(s) && index < |Regs(s)|
  {
    var span := |OpRegs(s)|;
    if index < span then RunSize(s[0], index) + 1 + RunSize(s[0], span - 1 - index) - OpLen(s[0])
    else Growth(s[OpLen(s[0])..], index - span)
  }

  /** Three bytes are always enough. */
  lemma {:induction false} GrowthIsSmall(s: Bytes, index: nat)
    requires Valid(s) && index < |Regs(s)|
    ensures -1 <= Growth(s, index) <= 3
    decreases |s|
  {
    hide ValLen, ZeroLen, XzeroLen, ValValue, IsVal, IsZero, IsXzero;
    OneKind(s[0]);
    KindLen(s[0]);
    if index >= |OpRegs(s)| { GrowthIsSmall(s[OpLen(s[0])..], index - |OpRegs(s)|); }
  }

  lemma {:induction false} GrowthAt(pre: Bytes, b: Bytes, index: nat)
    requires Valid(pre) && Valid(b) && |Regs(pre)| <= index < |Regs(pre)| + |Regs(b)|
    ensures Valid(pre + b) && index < |Regs(pre + b)|
    ensures Growth(pre + b, index) == Growth(b, index - |Regs(pre)|)
    decreases |pre|
  {
    hide OpLen, OpRegs, RunSize;
    Concat(pre, b);
    if pre == [] {
      assert pre + b == b;
    } else {
      var k := OpLen(pre[0]);
      assert (pre + b)[k..] == pre[k..] + b;
      SameHead(pre + b, pre);
      GrowthAt(pre[k..], b, index - |OpRegs(pre)|);
    }
  }

  /** Two adjacent runs of the same value merge into one. */
  lemma MergeRegs(a: bv8, b: bv8, post: Bytes)
    requires Valid(post) && IsVal(a) && IsVal(b)
    requires ValValue(a) == ValValue(b) && ValLen(a) + ValLen(b) <= VAL_MAX_LEN
    ensures Valid([a, b] + post)
    ensures var m := [Both(a, b)] + post; Valid(m) && Regs(m) == Regs([a, b] + post)
  {
    hide Valid, Regs, ValSet;
    OneKind(a);
    OneKind(b);
    OneVal(a);
    OneVal(b);
    Concat([a], [b]);
    assert [a] + [b] == [a, b];
    var v := Both(a, b);
    ValOp(ValValue(a), ValLen(a) + ValLen(b));
    assert Regs([v]) == Regs([a, b]);
    Concat([a, b], post);
    Concat([v], post);
  }

  lemma OneVal(a: bv8)
    requires IsVal(a)
    ensures Valid([a]) && Regs([a]) == Repeat(ValValue(a), ValLen(a))
  {
    OneKind(a);
    ValidSingle(a);
  }
}
