/** What the compressor of lzf_c.c does with its input: at each position a literal or the longest
    match at the place its table remembers, and what that comes to in bytes. */
module LzfPlan {
  import opened LzfFormat

  const HSIZE: nat := 65536
  const U32: nat := 0x1_0000_0000
  const U64: nat := 0x1_0000_0000_0000_0000

  // ---------------------------------------------------------------- the table

  function First(a: Byte, b: Byte): nat { a * 256 + b }

  function Next(h: nat, c: Byte): nat { (h * 256 + c) % U32 }

  /** The VERY_FAST hash; it only chooses a slot. */
  function Slot(h: nat): (i: nat)
    ensures i < HSIZE
  {
    (h / 256 - h * 5) % HSIZE
  }

  /** Hash table entries are addresses relative to the input; any bit pattern may be there at
      first, including addresses outside it. */
  predicate Address(a: int) {
    -(U64 / 2) <= a < U64 / 2
  }

  /** Two positions of a match are entered into the table. */
  function Remembered(data: seq<Byte>, at: nat, table: seq<int>): (r: (nat, seq<int>))
    requires at + 3 < |data| && |table| == HSIZE
    ensures |r.1| == HSIZE
  {
    var h0 := Next(First(data[at], data[at + 1]), data[at + 2]);
    var h1 := Next(h0, data[at + 3]);
    (h1, table[Slot(h0) := at][Slot(h1) := at + 1])
  }

  // ---------------------------------------------------------------- matches

  /** An entry counts when it points back into the input, not too far, at three equal bytes. */
  predicate Usable(data: seq<Byte>, ip: nat, ref: int) {
    && 0 < ref < ip && ip - ref - 1 < MAX_OFF && ip + 4 < |data|
    && data[ref] == data[ip] && data[ref + 1] == data[ip + 1] && data[ref + 2] == data[ip + 2]
  }

  /** How long a match may get: two bytes are left over, except that the unrolled comparison goes to
      nineteen once it is entered. */
  function Limit(n: nat, ip: nat): (m: nat)
    requires ip + 4 < n
    ensures 3 <= m <= MAX_REF && ip + m <= n
  {
    var maxlen := if n - ip - 2 > MAX_REF then MAX_REF else n - ip - 2;
    if 16 < maxlen < 19 then 19 else maxlen
  }

  predicate EqualAt(data: seq<Byte>, ref: nat, ip: nat, k: nat)
    requires ref < ip && ip + k < |data|
  {
    data[ref + k] == data[ip + k]
  }

  /** The length up to which the data repeat, from a length up to which they do. */
  function Longest(data: seq<Byte>, ref: nat, ip: nat, from: nat, limit: nat): (len: nat)
    requires ref < ip && from <= limit && ip + limit <= |data|
    ensures from <= len <= limit
    ensures len < limit ==> !EqualAt(data, ref, ip, len)
    ensures forall k: nat :: from <= k < len ==> EqualAt(data, ref, ip, k)
    decreases limit - from
  {
    if from == limit || !EqualAt(data, ref, ip, from) then from else Longest(data, ref, ip, from + 1, limit)
  }

  /** No other length is the longest. */
  lemma {:induction false} LongestIs(data: seq<Byte>, ref: nat, ip: nat, from: nat, limit: nat, len: nat)
    requires ref < ip && from <= len <= limit && ip + limit <= |data|
    requires len < limit ==> !EqualAt(data, ref, ip, len)
    requires forall k: nat :: from <= k < len ==> EqualAt(data, ref, ip, k)
    ensures Longest(data, ref, ip, from, limit) == len
    decreases limit - from
  {
    if from < len { LongestIs(data, ref, ip, from + 1, limit, len); }
  }

  datatype Choice = One | Match(ref: nat, len: nat)

  /** The choices from position `ip` on, up to the last two bytes. */
  function Plan(data: seq<Byte>, ip: nat, hval: nat, table: seq<int>): seq<Choice>
    requires |table| == HSIZE
    decreases |data| - ip
  {
    if ip + 2 >= |data| then []
    else
      var h := Next(hval, data[ip + 2]);
      var ref, t := table[Slot(h)], table[Slot(h) := ip];
      if !Usable(data, ip, ref) then [One] + Plan(data, ip + 1, h, t)
      else
        var len := Longest(data, ref, ip, 3, Limit(|data|, ip));
        if ip + len + 2 >= |data| then [Match(ref, len)]
        else
          var (h', t') := Remembered(data, ip + len - 2, t);
          [Match(ref, len)] + Plan(data, ip + len, h', t')
  }

  // ---------------------------------------------------------------- sizes

  /** After one more literal: the bytes written, and the literals in the open run. */
  function PlusLiteral(op: nat, lit: nat): (nat, nat) {
    if lit + 1 == MAX_LIT then (op + 2, 0) else (op + 1, lit + 1)
  }

  /** After a match the byte kept for an empty run before it has been taken back, and one is kept
      for the next run. */
  function PlusMatch(op: nat, lit: nat, len: nat): nat
    requires op > 0 && len >= 3
  {
    (if lit == 0 then op - 1 else op) + (if len - 2 < 7 then 2 else 3) + 1
  }

  /** The size after `left` more literals and the end of the last run. */
  function Literals(op: nat, lit: nat, left: nat): nat
    requires op > 0
    decreases left
  {
    if left == 0 then if lit == 0 then op - 1 else op
    else
      var (op', lit') := PlusLiteral(op, lit);
      Literals(op', lit', left - 1)
  }

  /** The size after the choices `cs` and literals for what is left of `left` bytes. */
  function Finish(op: nat, lit: nat, cs: seq<Choice>, left: nat): nat
    requires op > 0
    decreases |cs|
  {
    if cs == [] then Literals(op, lit, left)
    else
      match cs[0]
      case One =>
        var (op', lit') := PlusLiteral(op, lit);
        Finish(op', lit', cs[1..], if left == 0 then 0 else left - 1)
      case Match(_, len) =>
        if len < 3 || left < len then 0 else Finish(PlusMatch(op, lit, len), 0, cs[1..], left - len)
  }

  /** The size of the compressed data. */
  function PackedSize(data: seq<Byte>, table: seq<int>): nat
    requires |data| >= 2 && |table| == HSIZE
  {
    Finish(1, 0, Plan(data, 0, First(data[0], data[1]), table), |data|)
  }

  lemma {:induction false} LiteralsLower(op: nat, lit: nat, left: nat)
    requires op > 0
    ensures Literals(op, lit, left) >= if lit == 0 then op - 1 else op
    decreases left
  {
    if left > 0 {
      var (op', lit') := PlusLiteral(op, lit);
      LiteralsLower(op', lit', left - 1);
    }
  }

  lemma PlanLiteral(data: seq<Byte>, ip: nat, hval: nat, table: seq<int>)
    requires |table| == HSIZE && ip + 2 < |data|
    requires !Usable(data, ip, table[Slot(Next(hval, data[ip + 2]))])
    ensures var h := Next(hval, data[ip + 2]);
      var rest := Plan(data, ip + 1, h, table[Slot(h) := ip]);
      Plan(data, ip, hval, table) == [One] + rest && ([One] + rest)[1..] == rest
  {
    hide Slot, Usable, Longest, Remembered, Next;
  }

  lemma PlanMatch(data: seq<Byte>, ip: nat, hval: nat, table: seq<int>)
    requires |table| == HSIZE && ip + 2 < |data|
    requires Usable(data, ip, table[Slot(Next(hval, data[ip + 2]))])
    ensures ip + 4 < |data| && 0 < table[Slot(Next(hval, data[ip + 2]))] < ip
    ensures var h := Next(hval, data[ip + 2]);
      var ref, t := table[Slot(h)], table[Slot(h) := ip];
      var len := Longest(data, ref, ip, 3, Limit(|data|, ip));
      if ip + len + 2 >= |data| then Plan(data, ip, hval, table) == [Match(ref, len)]
      else
        var (h', t') := Remembered(data, ip + len - 2, t);
        var rest := Plan(data, ip + len, h', t');
        Plan(data, ip, hval, table) == [Match(ref, len)] + rest && ([Match(ref, len)] + rest)[1..] == rest
  {
    hide Slot, Longest, Remembered, Next;
  }

  lemma PlanEnd(data: seq<Byte>, ip: nat, hval: nat, table: seq<int>)
    requires |table| == HSIZE && ip + 2 >= |data|
    ensures Plan(data, ip, hval, table) == []
  {
  }

  /** Hash and table after a match of length `len`. */
  function AfterMatch(data: seq<Byte>, ip: nat, len: nat, h: nat, t: seq<int>): (r: (nat, seq<int>))
    requires |t| == HSIZE && ip + len <= |data| && len >= 3
    ensures |r.1| == HSIZE
  {
    if ip + len + 2 >= |data| then (h, t) else Remembered(data, ip + len - 2, t)
  }

  lemma StepLiteral(data: seq<Byte>, ip: nat, hval: nat, table: seq<int>, op: nat, lit: nat)
    requires op > 0 && |table| == HSIZE && ip + 2 < |data|
    requires !Usable(data, ip, table[Slot(Next(hval, data[ip + 2]))])
    ensures var h := Next(hval, data[ip + 2]);
      var (op', lit') := PlusLiteral(op, lit);
      Finish(op, lit, Plan(data, ip, hval, table), |data| - ip)
      == Finish(op', lit', Plan(data, ip + 1, h, table[Slot(h) := ip]), |data| - ip - 1)
  {
    hide Slot, Usable, Next, Plan;
    PlanLiteral(data, ip, hval, table);
  }

  lemma StepMatch(data: seq<Byte>, ip: nat, hval: nat, table: seq<int>, op: nat, lit: nat)
    requires op > 0 && |table| == HSIZE && ip + 2 < |data|
    requires Usable(data, ip, table[Slot(Next(hval, data[ip + 2]))])
    ensures ip + 4 < |data| && 0 < table[Slot(Next(hval, data[ip + 2]))] < ip
    ensures var h := Next(hval, data[ip + 2]);
      var ref, t := table[Slot(h)], table[Slot(h) := ip];
      var len := Longest(data, ref, ip, 3, Limit(|data|, ip));
      var (h', t') := AfterMatch(data, ip, len, h, t);
      Finish(op, lit, Plan(data, ip, hval, table), |data| - ip)
      == Finish(PlusMatch(op, lit, len), 0, Plan(data, ip + len, h', t'), |data| - ip - len)
  {
    hide Slot, Next, Plan, Longest, Remembered, Limit, PlusMatch;
    PlanMatch(data, ip, hval, table);
    var h := Next(hval, data[ip + 2]);
    var ref, t := table[Slot(h)], table[Slot(h) := ip];
    var len := Longest(data, ref, ip, 3, Limit(|data|, ip));
    var r := AfterMatch(data, ip, len, h, t);
    if ip + len + 2 >= |data| { PlanEnd(data, ip + len, r.0, r.1); }
    FinishMatch(op, lit, ref, len, Plan(data, ip + len, r.0, r.1), |data| - ip);
    assert [Match(ref, len)] + [] == [Match(ref, len)];
  }

  lemma FinishMatch(op: nat, lit: nat, ref: nat, len: nat, rest: seq<Choice>, left: nat)
    requires op > 0 && 3 <= len <= left
    ensures Finish(op, lit, [Match(ref, len)] + rest, left) == Finish(PlusMatch(op, lit, len), 0, rest, left - len)
  {
    hide PlusMatch;
    assert ([Match(ref, len)] + rest)[1..] == rest;
  }

  /** What is written stays written. */
  lemma {:induction false} FinishLower(data: seq<Byte>, ip: nat, hval: nat, table: seq<int>, op: nat, lit: nat)
    requires op > 0 && |table| == HSIZE && ip <= |data|
    ensures Finish(op, lit, Plan(data, ip, hval, table), |data| - ip) >= if lit == 0 then op - 1 else op
    decreases |data| - ip
  {
    hide Slot, Usable, Longest, Remembered, Next, Plan, Finish, Limit, AfterMatch;
    if ip + 2 >= |data| {
      PlanEnd(data, ip, hval, table);
      NoChoices(op, lit, |data| - ip);
      LiteralsLower(op, lit, |data| - ip);
    } else {
      var h := Next(hval, data[ip + 2]);
      var ref, t := table[Slot(h)], table[Slot(h) := ip];
      if !Usable(data, ip, ref) {
        StepLiteral(data, ip, hval, table, op, lit);
        var (op', lit') := PlusLiteral(op, lit);
        FinishLower(data, ip + 1, h, t, op', lit');
      } else {
        StepMatch(data, ip, hval, table, op, lit);
        var len := Longest(data, ref, ip, 3, Limit(|data|, ip));
        var r := AfterMatch(data, ip, len, h, t);
        FinishLower(data, ip + len, r.0, r.1, PlusMatch(op, lit, len), 0);
      }
    }
  }

  lemma NoChoices(op: nat, lit: nat, left: nat)
    requires op > 0
    ensures Finish(op, lit, [], left) == Literals(op, lit, left)
  {
  }

  /** A match needs two bytes at least. */
  lemma MatchNeedsRoom(data: seq<Byte>, ip: nat, hval: nat, table: seq<int>, op: nat, lit: nat)
    requires op > 0 && |table| == HSIZE && ip + 2 < |data|
    requires Usable(data, ip, table[Slot(Next(hval, data[ip + 2]))])
    ensures Finish(op, lit, Plan(data, ip, hval, table), |data| - ip) >= (if lit == 0 then op - 1 else op) + 2
  {
    hide Slot, Usable, Longest, Remembered, Next, Plan, Finish, Limit, AfterMatch;
    StepMatch(data, ip, hval, table, op, lit);
    var h := Next(hval, data[ip + 2]);
    var ref, t := table[Slot(h)], table[Slot(h) := ip];
    var len := Longest(data, ref, ip, 3, Limit(|data|, ip));
    var r := AfterMatch(data, ip, len, h, t);
    FinishLower(data, ip + len, r.0, r.1, PlusMatch(op, lit, len), 0);
  }

  // ---------------------------------------------------------------- repetition is compressed

  ghost predicate AllEqual(data: seq<Byte>, b: Byte) {
    forall i :: 0 <= i < |data| ==> data[i] == b
  }

  /** The slot of three equal bytes. */
  function RunSlot(b: Byte): (i: nat)
    ensures i < HSIZE
  {
    Slot(b * 0x1_0101)
  }

  /** Only the last three bytes hashed matter. */
  lemma SlotOfThree(h: nat, g: nat)
    requires g < 0x100_0000 && h % 0x100_0000 == g
    ensures Slot(h) == Slot(g)
  {
    var k := h / 0x100_0000;
    assert h == 0x100_0000 * k + g;
    assert h / 256 == 0x1_0000 * k + g / 256;
    assert h / 256 - h * 5 == g / 256 - g * 5 + 0x1_0000 * (k - 0x500 * k);
    SameRemainder(g / 256 - g * 5, k - 0x500 * k);
  }

  lemma SameRemainder(x: int, k: int)
    ensures (x + 0x1_0000 * k) % 0x1_0000 == x % 0x1_0000
  {
  }

  /** The last two bytes hashed are `b`. */
  predicate EndsInRun(h: nat, b: Byte) { h % 0x1_0000 == b * 0x101 }

  lemma NextInRun(h: nat, b: Byte)
    requires EndsInRun(h, b)
    ensures EndsInRun(Next(h, b), b) && Slot(Next(h, b)) == RunSlot(b)
  {
    hide Slot;
    var q := h / 0x1_0000;
    var full := h * 256 + b;
    assert full == 0x100_0000 * q + b * 0x1_0101;
    var k := full / U32;
    assert Next(h, b) == full - 0x100_0000 * (256 * k);
    LowThree(q - 256 * k, b * 0x1_0101, Next(h, b));
    LowTwo(256 * (q - 256 * k) + b, b * 0x101, Next(h, b));
    SlotOfThree(Next(h, b), b * 0x1_0101);
  }

  lemma LowThree(q: int, r: nat, h: nat)
    requires h == 0x100_0000 * q + r && r < 0x100_0000
    ensures h % 0x100_0000 == r
  {
  }

  lemma LowTwo(q: int, r: nat, h: nat)
    requires h == 0x1_0000 * q + r && r < 0x1_0000
    ensures h % 0x1_0000 == r
  {
  }

  /** Positions too near to the end are literals. */
  lemma {:induction false} TailIsLiteral(data: seq<Byte>, ip: nat, hval: nat, table: seq<int>, op: nat, lit: nat)
    requires op > 0 && |table| == HSIZE && |data| <= ip + 4 && ip <= |data|
    ensures Finish(op, lit, Plan(data, ip, hval, table), |data| - ip) == Literals(op, lit, |data| - ip)
    decreases |data| - ip
  {
    hide Slot, Next, Plan, Finish;
    if ip + 2 >= |data| {
      PlanEnd(data, ip, hval, table);
      NoChoices(op, lit, |data| - ip);
    } else {
      StepLiteral(data, ip, hval, table, op, lit);
      var h := Next(hval, data[ip + 2]);
      var (op', lit') := PlusLiteral(op, lit);
      TailIsLiteral(data, ip + 1, h, table[Slot(h) := ip], op', lit');
    }
  }

  lemma FewLiterals(op: nat, lit: nat, left: nat)
    requires op > 0 && lit + left < MAX_LIT
    ensures Literals(op, lit, left) <= op + left
    decreases left
  {
    if left > 0 { FewLiterals(op + 1, lit + 1, left - 1); }
  }

  /** In a run the longest match is as long as may be. */
  lemma RunMatch(data: seq<Byte>, b: Byte, ip: nat)
    requires AllEqual(data, b) && 2 <= ip && ip + 4 < |data|
    ensures Usable(data, ip, ip - 1) && Longest(data, ip - 1, ip, 3, Limit(|data|, ip)) == Limit(|data|, ip)
  {
    hide Longest, Limit;
    LongestIs(data, ip - 1, ip, 3, Limit(|data|, ip), Limit(|data|, ip));
  }

  lemma RunRemembered(data: seq<Byte>, b: Byte, ip: nat, table: seq<int>)
    requires AllEqual(data, b) && 2 <= ip && ip + 2 < |data| && |table| == HSIZE
    ensures var (h, t) := Remembered(data, ip - 2, table); EndsInRun(h, b) && t[RunSlot(b)] == ip - 1
  {
    hide Slot, Next;
    var h0 := Next(First(b, b), b);
    NextInRun(First(b, b), b);
    NextInRun(h0, b);
  }

  /** What one round does inside a run, when the place before is in the table. */
  lemma RunRound(data: seq<Byte>, b: Byte, ip: nat, hval: nat, table: seq<int>, op: nat, lit: nat)
    returns (h: nat, t: seq<int>)
    requires op > 0 && |table| == HSIZE && AllEqual(data, b) && 2 <= ip && ip + 4 < |data|
    requires EndsInRun(hval, b) && table[RunSlot(b)] == ip - 1
    ensures var m := Limit(|data|, ip);
      && |t| == HSIZE && ip + m <= |data|
      && Finish(op, lit, Plan(data, ip, hval, table), |data| - ip)
         == Finish(PlusMatch(op, lit, m), 0, Plan(data, ip + m, h, t), |data| - (ip + m))
      && (ip + m + 2 < |data| ==> EndsInRun(h, b) && t[RunSlot(b)] == ip + m - 1)
  {
    hide Slot, Longest, Remembered, Next, Plan, Finish, Limit, EndsInRun, RunSlot, PlusMatch;
    NextInRun(hval, b);
    RunMatch(data, b, ip);
    StepMatch(data, ip, hval, table, op, lit);
    var m := Limit(|data|, ip);
    h := Next(hval, data[ip + 2]);
    t := table[Slot(h) := ip];
    if ip + m + 2 < |data| { RunRemembered(data, b, ip + m, t); }
    var r := AfterMatch(data, ip, m, h, t);
    h, t := r.0, r.1;
  }

  /** After the first match of a run, three bytes stand for each further 264. */
  lemma {:induction false} RunRest(data: seq<Byte>, b: Byte, ip: nat, hval: nat, table: seq<int>, op: nat)
    requires op > 0 && |table| == HSIZE && AllEqual(data, b) && 2 <= ip <= |data|
    requires ip + 2 < |data| ==> EndsInRun(hval, b) && table[RunSlot(b)] == ip - 1
    ensures Finish(op, 0, Plan(data, ip, hval, table), |data| - ip) <= op + 3 * ((|data| - ip) / MAX_REF) + 5
    decreases |data| - ip
  {
    hide Plan, Finish, EndsInRun, RunSlot;
    if |data| <= ip + 4 {
      TailIsLiteral(data, ip, hval, table, op, 0);
      FewLiterals(op, 0, |data| - ip);
    } else {
      var h, t := RunRound(data, b, ip, hval, table, op, 0);
      var m := Limit(|data|, ip);
      if m == MAX_REF {
        RunRest(data, b, ip + m, h, t, PlusMatch(op, 0, m));
        assert (|data| - ip) / MAX_REF == (|data| - ip - MAX_REF) / MAX_REF + 1;
      } else {
        TailIsLiteral(data, ip + m, h, t, PlusMatch(op, 0, m), 0);
        FewLiterals(PlusMatch(op, 0, m), 0, |data| - ip - m);
      }
    }
  }

  /** Repetition is compressed: equal bytes, whatever the table held, take two literals, three bytes
      for each match of 264, and what is left over. */
  lemma EqualBytes(data: seq<Byte>, b: Byte, table: seq<int>)
    requires |data| >= 2 && AllEqual(data, b) && |table| == HSIZE
    ensures PackedSize(data, table) <= 9 + 3 * (|data| / MAX_REF)
  {
    hide Plan, Finish, Slot, Next, RunSlot;
    var n := |data|;
    var h0 := First(b, b);
    if n <= 4 {
      TailIsLiteral(data, 0, h0, table, 1, 0);
      FewLiterals(1, 0, n);
    } else {
      NextInRun(h0, b);
      var h1, t1 := Next(h0, b), table[Slot(Next(h0, b)) := 0];
      OneLiteral(data, 0, h0, table, 1, 0);
      NextInRun(h1, b);
      OneLiteral(data, 1, h1, t1, 2, 1);
      var h2, t2 := Next(h1, b), t1[Slot(Next(h1, b)) := 1];
      assert t2[RunSlot(b)] == 1;
      if n <= 6 {
        TailIsLiteral(data, 2, h2, t2, 3, 2);
        FewLiterals(3, 2, n - 2);
      } else {
        FirstMatch(data, b, h2, t2);
      }
    }
  }

  lemma OneLiteral(data: seq<Byte>, ip: nat, hval: nat, table: seq<int>, op: nat, lit: nat)
    requires op > 0 && |table| == HSIZE && ip < 2 && ip + 2 < |data| && lit + 1 < MAX_LIT
    ensures var h := Next(hval, data[ip + 2]);
      Finish(op, lit, Plan(data, ip, hval, table), |data| - ip)
      == Finish(op + 1, lit + 1, Plan(data, ip + 1, h, table[Slot(h) := ip]), |data| - (ip + 1))
  {
    hide Slot, Next, Plan, Finish;
    StepLiteral(data, ip, hval, table, op, lit);
  }

  lemma FirstMatch(data: seq<Byte>, b: Byte, hval: nat, table: seq<int>)
    requires |table| == HSIZE && AllEqual(data, b) && |data| >= 7
    requires EndsInRun(hval, b) && table[RunSlot(b)] == 1
    ensures Finish(3, 2, Plan(data, 2, hval, table), |data| - 2) <= 9 + 3 * (|data| / MAX_REF)
  {
    hide Plan, Finish, EndsInRun, RunSlot;
    var h, t := RunRound(data, b, 2, hval, table, 3, 2);
    var m := Limit(|data|, 2);
    if m == MAX_REF {
      RunRest(data, b, 2 + m, h, t, PlusMatch(3, 2, m));
      assert (|data| - 2 - MAX_REF) / MAX_REF <= |data| / MAX_REF - 1;
    } else {
      TailIsLiteral(data, 2 + m, h, t, PlusMatch(3, 2, m), 0);
      FewLiterals(PlusMatch(3, 2, m), 0, |data| - 2 - m);
    }
  }
}
