/** dictScan: a cursor kept by the caller, incremented from its high bits down. Reading cursors
    and hashes with their bits reversed turns a scan into a walk through [0, 2^64) from left to
    right, whatever the sizes of the tables are at each call. */
module DictScan {
  import opened DictSpec
  import opened DictRefinement
  import opened Word
  import Dict

  // ---------------------------------------------------------------- one call, on values

  /** The buckets of the larger table whose index extends `i` above the smaller mask, from `i` up. */
  function Expansions<K, V>(b: Buckets<K, V>, i: nat, n0: nat): Chain<K, V>
    requires n0 > 0
    decreases |b| - i
  {
    if i >= |b| then [] else b[i] + Expansions(b, i + n0, n0)
  }

  function Small<K, V>(s: State<K, V>): Buckets<K, V> {
    if Rehashing(s) && |s.h0.buckets| > |s.h1.buckets| then s.h1.buckets else s.h0.buckets
  }

  function Large<K, V>(s: State<K, V>): Buckets<K, V> {
    if Rehashing(s) && |s.h0.buckets| > |s.h1.buckets| then s.h0.buckets else s.h1.buckets
  }

  /** The nodes passed to the callback. */
  function Emitted<K, V>(s: State<K, V>, v: nat): Chain<K, V> {
    if s.h0.used + s.h1.used == 0 || Small(s) == [] then []
    else
      Small(s)[Slot(v, |Small(s)|)]
      + if Rehashing(s) then Expansions(Large(s), Slot(v, |Large(s)|), |Small(s)|) else []
  }

  /** `v |= ~m0`, then an increment of the reversed word. */
  function AdvanceCursor(v: nat, n0: nat): nat
    requires n0 <= WORD
  {
    Rev((Rev(Slot(v, n0) + (WORD - n0), BITS) + 1) % WORD, BITS)
  }

  function NextCursor<K, V>(s: State<K, V>, v: nat): nat
    requires |Small(s)| <= WORD
  {
    if s.h0.used + s.h1.used == 0 then 0 else AdvanceCursor(v, |Small(s)|)
  }

  /** While two tables exist: the cursor bits above the smaller mask and below the larger one
      are a run of ones starting at the smaller mask (none set, in particular). */
  ghost predicate SafeCursor(v: nat, n0: nat, n1: nat) {
    PowerOfTwo(Slot(v, n1) - Slot(v, n0) + n0)
  }

  ghost predicate SafeCall<K, V>(s: State<K, V>, v: nat) {
    Rehashing(s) ==> SafeCursor(v, |Small(s)|, |Large(s)|)
  }

  // ---------------------------------------------------------------- reversed positions

  /** In reversed order the next cursor is the start of the next block of length 2^(64-k). */
  lemma AdvanceIsNextBlock(v: nat, k: nat)
    requires k < BITS
    ensures Pow(k) <= WORD
    ensures Shl(Rev(Low(v, k), k) + 1, BITS - k) <= WORD
    ensures Rev(AdvanceCursor(v, Pow(k)), BITS) == Shl(Rev(Low(v, k), k) + 1, BITS - k) % WORD
  {
    hide Shl, Rev, Low, High, Pow, Slot;
    var j := BITS - k;
    var x := Rev(Low(v, k), k);
    PowBits();
    PowMonotonic(k, BITS);
    SlotIsLow(v, k);
    ShlPow(j, k);
    ShlPow(k, j);
    ShlAdd(Pow(j) - 1, 1, k);
    ShlPow(0, k);
    var w := Low(v, k) + (WORD - Pow(k));
    assert WORD - Pow(k) == Shl(Pow(j) - 1, k);
    LowHighOf(Low(v, k), Pow(j) - 1, k);
    RevSplit(w, k, j);
    RevOnes(j);
    ShlAdd(x, 1, j);
    ShlPow(0, j);
    assert Rev(w, BITS) + 1 == Shl(x + 1, j);
    if x + 1 < Pow(k) { ShlOrder(x + 1, Pow(k), j); }
    RevRev((Rev(w, BITS) + 1) % WORD, BITS);
  }

  lemma PowZero()
    ensures Pow(0) == 1
  {
  }

  lemma PowPositive(k: nat)
    ensures Pow(k) > 0
  {
  }

  lemma {:induction false} LowSmall(c: nat, d: nat)
    requires c < Pow(d)
    ensures Low(c, d) == c
  {
    if d > 0 { LowSmall(c / 2, d - 1); }
  }

  lemma PositionBound(h: nat)
    ensures Rev(h, BITS) < WORD
  {
    PowBits();
  }

  lemma {:induction false} RevZeroOf(w: nat)
    ensures Rev(0, w) == 0
  {
    if w > 0 { RevZeroOf(w - 1); }
  }

  lemma RevZero()
    ensures Rev(0, BITS) == 0
  {
    RevZeroOf(BITS);
  }

  lemma AdvanceBound(v: nat, n0: nat)
    requires n0 <= WORD
    ensures AdvanceCursor(v, n0) < WORD
  {
    hide Rev;
    PositionBound((Rev(Slot(v, n0) + (WORD - n0), BITS) + 1) % WORD);
  }

  /** A cursor of `k` bits reversed. */
  lemma SmallCursor(v: nat, k: nat)
    requires v < Pow(k) && k <= BITS
    ensures Low(v, k) == v && Rev(v, BITS) == Shl(Rev(v, k), BITS - k)
  {
    hide Shl, Rev;
    LowSmall(v, k);
    LowHigh(v, k);
    HighSmall(v, k);
    RevSplit(v, k, BITS - k);
    RevZeroOf(BITS - k);
  }

  lemma {:induction false} HighSmall(v: nat, k: nat)
    requires v < Pow(k)
    ensures High(v, k) == 0
  {
    if k > 0 { HighSmall(v / 2, k - 1); }
  }

  /** What a call returns is an index of the smaller table. */
  lemma AdvanceIsIndex(v: nat, k: nat)
    requires k < BITS
    ensures Pow(k) <= WORD && AdvanceCursor(v, Pow(k)) < Pow(k)
  {
    hide Shl, Rev, Low, High, Pow, AdvanceCursor;
    var j, x := BITS - k, Rev(Low(v, k), k) + 1;
    AdvanceIsNextBlock(v, k);
    AdvanceBound(v, Pow(k));
    PowBits();
    PowMonotonic(k, BITS);
    ShlPow(k, j);
    PowPositive(k);
    var y := if x == Pow(k) then 0 else x;
    if y == x { ShlOrder(x, Pow(k), j); PowPositive(j); }
    assert Shl(x, j) % WORD == Shl(y, j);
    RevRev(y, k);
    SmallCursor(Rev(y, k), k);
    RevInjective(AdvanceCursor(v, Pow(k)), Rev(y, k), BITS);
  }

  /** A word starts in the block of its low bits, and ends before the next block. */
  lemma InBlock(v: nat, k: nat)
    requires k <= BITS
    ensures Rev(v, BITS) == Shl(Rev(Low(v, k), k), BITS - k) + Rev(High(v, k), BITS - k)
    ensures Rev(v, BITS) < Shl(Rev(Low(v, k), k) + 1, BITS - k)
  {
    hide Shl, Rev, Low, High, Pow;
    RevSplit(v, k, BITS - k);
    ShlAdd(Rev(Low(v, k), k), 1, BITS - k);
    ShlPow(0, BITS - k);
  }

  /** The positions from the cursor to the end of its block belong to words with the same low bits. */
  lemma SameLowBits(v: nat, h: nat, k: nat)
    requires k <= BITS
    requires Rev(v, BITS) <= Rev(h, BITS) < Shl(Rev(Low(v, k), k) + 1, BITS - k)
    ensures Low(h, k) == Low(v, k)
  {
    hide Shl, Rev, Low, High, Pow;
    InBlock(v, k);
    InBlock(h, k);
    var x, y := Rev(Low(v, k), k), Rev(Low(h, k), k);
    if x < y { ShlStep(x + 1, y, BITS - k); }
    if y < x { ShlStep(y + 1, x, BITS - k); }
    RevInjective(Low(v, k), Low(h, k), k);
  }

  lemma ShlStep(x: nat, y: nat, j: nat)
    requires x <= y
    ensures Shl(x, j) <= Shl(y, j)
  {
    if x < y { ShlOrder(x, y, j); }
  }

  // ---------------------------------------------------------------- runs of ones

  /** Among d-bit words: no word above `b` in reversed order is numerically below it, exactly
      when `b` is a run of ones from bit 0. */
  lemma {:induction false} OnesAreFirst(t: nat, c: nat, d: nat)
    requires Pow(t) - 1 < Pow(d) && c < Pow(d)
    requires Rev(c, d) >= Rev(Pow(t) - 1, d)
    ensures c >= Pow(t) - 1
  {
    if t > 0 {
      var b := Pow(t) - 1;
      assert b % 2 == 1 && b / 2 == Pow(t - 1) - 1;
      assert d > 0 by { assert Pow(0) == 1; }
      assert c % 2 == 1;
      OnesAreFirst(t - 1, c / 2, d - 1);
    }
  }

  function Skipped(b: nat): nat
    requires b > 0
  {
    if b % 2 == 0 then b - 1 else if b == 1 then 0 else 2 * Skipped(b / 2) + 1
  }

  lemma {:induction false} SkippedIsAhead(b: nat, d: nat)
    requires 0 < b < Pow(d)
    requires forall t: nat :: b + 1 != Pow(t)
    ensures Skipped(b) < b && Rev(Skipped(b), d) > Rev(b, d)
  {
    assert d > 0 by { assert Pow(0) == 1; }
    if b % 2 == 1 {
      assert b != 1 by { assert Pow(1) == 2 * Pow(0); }
      forall t: nat ensures b / 2 + 1 != Pow(t) {
        if b / 2 + 1 == Pow(t) { assert b + 1 == Pow(t + 1); }
      }
      SkippedIsAhead(b / 2, d - 1);
      var c := Skipped(b);
      assert c % 2 == 1 && c / 2 == Skipped(b / 2);
    } else {
      assert (b - 1) % 2 == 1;
    }
  }

  /** The largest size, read off the expansions: what the loop over the larger table visits. */
  lemma {:induction false} ExpansionsAre<K, V>(b: Buckets<K, V>, i: nat, k0: nat, e: Entry<K, V>)
    ensures e in Expansions(b, i, Pow(k0))
       <==> exists c :: i <= c < |b| && Low(c, k0) == Low(i, k0) && e in b[c]
    decreases |b| - i
  {
    hide Low, Shl, Pow;
    if i < |b| {
      var n0 := Pow(k0);
      ExpansionsAre(b, i + n0, k0, e);
      LowPlus(i, k0);
      forall c | i <= c < |b| && Low(c, k0) == Low(i, k0) ensures c == i || i + n0 <= c {
        NextInClass(i, c, k0);
      }
      assert Expansions(b, i, n0) == b[i] + Expansions(b, i + n0, n0);
    }
  }

  lemma LowPlus(i: nat, k: nat)
    ensures Low(i + Pow(k), k) == Low(i, k)
  {
    hide Low, Shl, Pow, High;
    LowHigh(i, k);
    ShlAdd(High(i, k), 1, k);
    ShlPow(0, k);
    LowHighOf(Low(i, k), High(i, k) + 1, k);
  }

  lemma NextInClass(i: nat, c: nat, k: nat)
    requires i <= c && Low(c, k) == Low(i, k)
    ensures c == i || i + Pow(k) <= c
  {
    hide Low, Shl, Pow, High;
    LowHigh(i, k);
    LowHigh(c, k);
    if High(i, k) < High(c, k) {
      ShlOrder(High(i, k), High(c, k), k);
    } else if High(c, k) < High(i, k) {
      ShlOrder(High(c, k), High(i, k), k);
    }
  }

  // ---------------------------------------------------------------- which cursors are safe

  /** A larger-table index splits into the smaller index and the bits above it. */
  lemma SplitIndex(h: nat, k0: nat, k1: nat)
    requires k0 <= k1
    ensures Low(h, k1) == Low(h, k0) + Shl(Low(High(h, k0), k1 - k0), k0)
  {
    LowHigh(Low(h, k1), k0);
    LowLow(h, k0, k1);
  }

  lemma OnesAreSafe(v: nat, k0: nat, k1: nat, t: nat)
    requires k0 <= k1 < BITS && Low(High(v, k0), k1 - k0) + 1 == Pow(t)
    ensures SafeCursor(v, Pow(k0), Pow(k1))
  {
    hide Low, High, Shl, Rev, Pow, Slot;
    AboveSmaller(v, k0, k1);
    ShlPow(t, k0);
    if t > k1 - k0 { PowStrict(k1 - k0, t); }
  }

  lemma SafeIsOnes(v: nat, k0: nat, k1: nat) returns (t: nat)
    requires k0 <= k1 < BITS && SafeCursor(v, Pow(k0), Pow(k1))
    ensures Low(High(v, k0), k1 - k0) + 1 == Pow(t)
  {
    hide Low, High, Shl, Rev, Pow, Slot;
    AboveSmaller(v, k0, k1);
    var b := Low(High(v, k0), k1 - k0);
    var u: nat :| u < 64 && Shl(b + 1, k0) == Pow(u);
    PowAtLeast(b + 1, k0, u);
    t := u - k0;
  }

  lemma AboveSmaller(v: nat, k0: nat, k1: nat)
    requires k0 <= k1
    ensures Slot(v, Pow(k1)) - Slot(v, Pow(k0)) + Pow(k0) == Shl(Low(High(v, k0), k1 - k0) + 1, k0)
  {
    hide Low, High, Shl, Rev, Pow, Slot;
    SlotIsLow(v, k0);
    SlotIsLow(v, k1);
    SplitIndex(v, k0, k1);
    ShlAdd(Low(High(v, k0), k1 - k0), 1, k0);
    ShlPow(0, k0);
  }

  lemma PowStrict(i: nat, j: nat)
    requires i < j
    ensures Pow(i) < Pow(j)
  {
    PowMonotonic(i + 1, j);
  }

  lemma {:induction false} PowAtLeast(x: nat, k: nat, u: nat)
    requires x > 0 && Shl(x, k) == Pow(u)
    ensures u >= k && x == Pow(u - k)
  {
    if k > 0 {
      assert u > 0 by { assert Pow(0) == 1; }
      PowAtLeast(x, k - 1, u - 1);
    }
  }

  /** Positions compare like the reversed bits above the smaller mask, first those the larger
      table uses. */
  lemma PositionOrder(v: nat, h: nat, k0: nat, k1: nat)
    requires k0 <= k1 < BITS && Low(v, k0) == Low(h, k0)
    ensures var (b, c) := (Low(High(v, k0), k1 - k0), Low(High(h, k0), k1 - k0));
      && (Rev(h, BITS) >= Rev(v, BITS) ==> Rev(c, k1 - k0) >= Rev(b, k1 - k0))
      && (Rev(c, k1 - k0) > Rev(b, k1 - k0) ==> Rev(h, BITS) > Rev(v, BITS))
  {
    hide Low, High, Shl, Rev, Pow;
    var d := k1 - k0;
    var hv, hh := High(v, k0), High(h, k0);
    InBlock(v, k0);
    InBlock(h, k0);
    RevSplit(hv, d, BITS - k1);
    RevSplit(hh, d, BITS - k1);
    var b, c := Rev(Low(hv, d), d), Rev(Low(hh, d), d);
    if b < c { ShlOrder(b, c, BITS - k1); }
    if c < b { ShlOrder(c, b, BITS - k1); }
  }

  /** The larger-table indices that a call visits are those from the cursor's own upward. They
      include the index of every hash in the rest of the cursor's block exactly when the cursor
      is safe. */
  lemma SafeIndicesExact(v: nat, k0: nat, k1: nat)
    requires k0 <= k1 < BITS
    ensures SafeCursor(v, Pow(k0), Pow(k1)) <==>
      forall h: nat :: Rev(v, BITS) <= Rev(h, BITS) < Shl(Rev(Low(v, k0), k0) + 1, BITS - k0)
                  ==> Low(h, k0) == Low(v, k0) && Low(h, k1) >= Low(v, k1)
  {
    hide Low, High, Shl, Rev, Pow, SafeCursor;
    var d := k1 - k0;
    if SafeCursor(v, Pow(k0), Pow(k1)) {
      forall h: nat | Rev(v, BITS) <= Rev(h, BITS) < Shl(Rev(Low(v, k0), k0) + 1, BITS - k0)
        ensures Low(h, k0) == Low(v, k0) && Low(h, k1) >= Low(v, k1)
      {
        SafeCovers(v, h, k0, k1);
      }
    } else {
      var missed := UnsafeMisses(v, k0, k1);
    }
  }

  lemma SafeCovers(v: nat, h: nat, k0: nat, k1: nat)
    requires k0 <= k1 < BITS && SafeCursor(v, Pow(k0), Pow(k1))
    requires Rev(v, BITS) <= Rev(h, BITS) < Shl(Rev(Low(v, k0), k0) + 1, BITS - k0)
    ensures Low(h, k0) == Low(v, k0) && Low(h, k1) >= Low(v, k1)
  {
    hide Low, High, Shl, Rev, Pow, SafeCursor;
    var d := k1 - k0;
    var b, c := Low(High(v, k0), d), Low(High(h, k0), d);
    var t := SafeIsOnes(v, k0, k1);
    SameLowBits(v, h, k0);
    PositionOrder(v, h, k0, k1);
    OnesAreFirst(t, c, d);
    HigherIndex(v, h, k0, k1);
  }

  lemma HigherIndex(v: nat, h: nat, k0: nat, k1: nat)
    requires k0 <= k1 && Low(h, k0) == Low(v, k0)
    requires Low(High(v, k0), k1 - k0) <= Low(High(h, k0), k1 - k0)
    ensures Low(h, k1) >= Low(v, k1)
  {
    hide Low, High, Shl;
    ShlStep(Low(High(v, k0), k1 - k0), Low(High(h, k0), k1 - k0), k0);
    SplitIndex(v, k0, k1);
    SplitIndex(h, k0, k1);
  }

  /** The hash an unsafe cursor skips: in the rest of the block, but in an earlier expansion. */
  lemma UnsafeMisses(v: nat, k0: nat, k1: nat) returns (h: nat)
    requires k0 <= k1 < BITS && !SafeCursor(v, Pow(k0), Pow(k1))
    ensures Rev(v, BITS) < Rev(h, BITS) < Shl(Rev(Low(v, k0), k0) + 1, BITS - k0)
    ensures Low(h, k0) == Low(v, k0) && Low(h, k1) < Low(v, k1) && h < Pow(k1)
  {
    hide Low, High, Shl, Rev, Pow, SafeCursor, Skipped;
    var d := k1 - k0;
    var b := Low(High(v, k0), d);
    forall t: nat ensures b + 1 != Pow(t) {
      if b + 1 == Pow(t) { OnesAreSafe(v, k0, k1, t); }
    }
    assert b + 1 != Pow(0);
    PowZero();
    SkippedIsAhead(b, d);
    var c := Skipped(b);
    h := Low(v, k0) + Shl(c, k0);
    LowHighOf(Low(v, k0), c, k0);
    LowSmall(c, d);
    PositionOrder(v, h, k0, k1);
    InBlock(h, k0);
    SplitIndex(v, k0, k1);
    SplitIndex(h, k0, k1);
    ShlOrder(c, b, k0);
    ShlOrder(c, Pow(d), k0);
    ShlPow(d, k0);
    PowPositive(k0);
  }

  // ---------------------------------------------------------------- one call emits its block

  lemma FindInChain<K, V>(b: Buckets<K, V>, hash: K -> nat, key: K)
    requires LookupIn(b, hash, key).Some?
    ensures LookupIn(b, hash, key).value in b[Slot(hash(key), |b|)]
  {
  }

  /** Sizes as exponents, the smaller first. */
  lemma Exponents<K(!new), V>(s: State<K, V>) returns (k0: nat, k1: nat)
    requires Shape(s) && s.h0.buckets != []
    ensures k0 < BITS && |Small(s)| == Pow(k0)
    ensures Rehashing(s) ==> k0 <= k1 < BITS && |Large(s)| == Pow(k1)
  {
    hide Pow;
    k0 :| k0 < 64 && |Small(s)| == Pow(k0);
    k1 := k0;
    if Rehashing(s) {
      k1 :| k1 < 64 && |Large(s)| == Pow(k1);
      assert |Small(s)| <= |Large(s)|;
      if k1 < k0 { PowStrict(k1, k0); assert false; }
    }
  }

  lemma PresentMeansUsed<K(!new), V>(s: State<K, V>, hash: K -> nat, key: K)
    requires Wf(s, hash) && Lookup(s, hash, key).Some?
    ensures s.h0.used + s.h1.used > 0 && s.h0.buckets != []
  {
    AllEmptyCount(s.h0.buckets);
    AllEmptyCount(s.h1.buckets);
  }

  /** A call with a safe cursor emits the node of every present key whose position lies between
      the cursor and the end of its block, in whichever table the node is. */
  lemma CallEmits<K(!new), V>(s: State<K, V>, v: nat, hash: K -> nat, key: K, k0: nat)
    requires Wf(s, hash) && Lookup(s, hash, key).Some? && SafeCall(s, v)
    requires s.h0.used + s.h1.used > 0
    requires k0 < BITS && |Small(s)| == Pow(k0)
    requires Rev(v, BITS) <= Rev(hash(key), BITS) < Shl(Rev(Low(v, k0), k0) + 1, BITS - k0)
    ensures Lookup(s, hash, key).value in Emitted(s, v)
  {
    hide Low, High, Shl, Rev, Pow, SafeCursor, Slot, WellFormed, Apart, Count;
    var h := hash(key);
    var e := Lookup(s, hash, key).value;
    if LookupIn(Small(s), hash, key) == Some(e) {
      SameLowBits(v, h, k0);
      SlotIsLow(v, k0);
      SlotIsLow(h, k0);
      FindInChain(Small(s), hash, key);
      assert e in Small(s)[Slot(v, |Small(s)|)];
      assert e in Emitted(s, v);
    } else {
      assert LookupIn(Large(s), hash, key) == Some(e);
      var k, k1 := Exponents(s);
      PowInjective(k0, k);
      LargeEmits(Large(s), v, hash, key, k0, k1);
      assert Emitted(s, v) == Small(s)[Slot(v, |Small(s)|)] + Expansions(Large(s), Slot(v, |Large(s)|), |Small(s)|);
    }
  }

  lemma LargeEmits<K, V>(b: Buckets<K, V>, v: nat, hash: K -> nat, key: K, k0: nat, k1: nat)
    requires k0 <= k1 < BITS && |b| == Pow(k1) && SafeCursor(v, Pow(k0), Pow(k1))
    requires Rev(v, BITS) <= Rev(hash(key), BITS) < Shl(Rev(Low(v, k0), k0) + 1, BITS - k0)
    requires LookupIn(b, hash, key).Some?
    ensures LookupIn(b, hash, key).value in Expansions(b, Slot(v, |b|), Pow(k0))
  {
    hide Low, High, Shl, Rev, Pow, SafeCursor, Slot;
    var h := hash(key);
    var e := LookupIn(b, hash, key).value;
    FindInChain(b, hash, key);
    SlotIsLow(v, k1);
    SlotIsLow(h, k1);
    SafeCovers(v, h, k0, k1);
    LowLow(h, k0, k1);
    LowLow(v, k0, k1);
    ExpansionsAre(b, Slot(v, |b|), k0, e);
    var c := Slot(h, |b|);
    assert Low(c, k0) == Low(Slot(v, |b|), k0) && e in b[c];
  }

  lemma PowInjective(i: nat, j: nat)
    requires Pow(i) == Pow(j)
    ensures i == j
  {
    if i < j { PowStrict(i, j); }
    if j < i { PowStrict(j, i); }
  }

  // ---------------------------------------------------------------- no weaker condition will do

  function Identity(): nat -> nat { (x: nat) => x }

  /** A shrink that has just begun: one node, at the hash that an unsafe cursor skips. */
  function Lone(h: nat): Entry<nat, nat> { Entry(0, h, 0) }

  function LoneState(h: nat, k0: nat, k1: nat): State<nat, nat> {
    State(Table(Push(EmptyBuckets<nat, nat>(Pow(k1)), Identity(), Lone(h)), 1),
          Table(EmptyBuckets<nat, nat>(Pow(k0)), 0), 0, 0)
  }

  lemma LoneIsWellFormed(h: nat, k0: nat, k1: nat)
    requires k0 < k1 < BITS
    ensures Wf(LoneState(h, k0, k1), Identity())
    ensures Lookup(LoneState(h, k0, k1), Identity(), h) == Some(Lone(h))
    ensures |Small(LoneState(h, k0, k1))| == Pow(k0) && |Large(LoneState(h, k0, k1))| == Pow(k1)
  {
    hide Slot, Pow, WellFormed, LookupIn, Count;
    EmptyLookup<nat, nat>(Pow(k0), Identity());
    EmptyLookup<nat, nat>(Pow(k1), Identity());
    PushLookup(EmptyBuckets<nat, nat>(Pow(k1)), Identity(), Lone(h));
    PowStrict(k0, k1);
  }

  lemma LoneIsNotEmitted(v: nat, h: nat, k0: nat, k1: nat)
    requires k0 < k1 < BITS && Low(h, k1) < Low(v, k1)
    ensures Lone(h) !in Emitted(LoneState(h, k0, k1), v)
  {
    hide Low, Pow, Slot;
    PowStrict(k0, k1);
    var b := LoneState(h, k0, k1).h0.buckets;
    SlotIsLow(h, k1);
    SlotIsLow(v, k1);
    ExpansionsAre(b, Slot(v, |b|), k0, Lone(h));
  }

  /** Whether a call with cursor `v` emits the node of a key in the rest of the cursor's block. */
  ghost predicate EmitsKey(s: State<nat, nat>, v: nat, k0: nat, k1: nat, key: nat) {
    && Wf(s, Identity()) && Rehashing(s) && Lookup(s, Identity(), key).Some?
    && |Small(s)| == Pow(k0) && |Large(s)| == Pow(k1) && k0 <= BITS
    && Rev(v, BITS) <= Rev(key, BITS) < Shl(Rev(Low(v, k0), k0) + 1, BITS - k0)
    ==> Lookup(s, Identity(), key).value in Emitted(s, v)
  }

  /** In the middle of a migration, a call emits every key in the rest of its block, in every
      dictionary with tables of these sizes, exactly when the cursor is safe. */
  lemma SafeCursorExact(v: nat, k0: nat, k1: nat)
    requires k0 <= k1 < BITS
    ensures SafeCursor(v, Pow(k0), Pow(k1)) <==> forall s, key: nat :: EmitsKey(s, v, k0, k1, key)
  {
    hide Low, Shl, Rev, Pow, SafeCursor, Wf, Emitted;
    if SafeCursor(v, Pow(k0), Pow(k1)) {
      forall s: State<nat, nat>, key: nat ensures EmitsKey(s, v, k0, k1, key) {
        if Wf(s, Identity()) && Lookup(s, Identity(), key).Some? {
          PresentMeansUsed(s, Identity(), key);
          if |Small(s)| == Pow(k0) && |Large(s)| == Pow(k1)
             && Rev(v, BITS) <= Rev(key, BITS) < Shl(Rev(Low(v, k0), k0) + 1, BITS - k0) {
            CallEmits(s, v, Identity(), key, k0);
          }
        }
      }
    } else {
      var h := UnsafeMisses(v, k0, k1);
      if k0 == k1 { assert false; }
      LoneIsWellFormed(h, k0, k1);
      LoneIsNotEmitted(v, h, k0, k1);
      assert !EmitsKey(LoneState(h, k0, k1), v, k0, k1, h);
    }
  }

  // ---------------------------------------------------------------- whole scans

  /** A scan: the states the table is in at the calls, and the cursors from 0 back to 0. Between
      two calls the table may change in any way that keeps it well formed. */
  ghost predicate Scan<K(!new), V>(states: seq<State<K, V>>, cursors: seq<nat>, hash: K -> nat) {
    && |states| > 0 && |cursors| == |states| + 1
    && cursors[0] == 0 && cursors[|states|] == 0
    && (forall i :: 0 <= i < |states| ==> Wf(states[i], hash))
    && (forall i :: 0 <= i < |states| ==> |Small(states[i])| <= WORD)
    && (forall i :: 0 <= i < |states| ==> cursors[i + 1] == NextCursor(states[i], cursors[i]))
  }

  ghost predicate EmittedAt<K, V>(states: seq<State<K, V>>, cursors: seq<nat>, key: K, i: nat)
    requires |cursors| >= |states|
  {
    i < |states| && exists e :: e in Emitted(states[i], cursors[i]) && e.key == key
  }

  /** One call either emits the key or moves the cursor no further than the key's position. */
  lemma ScanStep<K(!new), V>(s: State<K, V>, v: nat, hash: K -> nat, key: K)
    requires Wf(s, hash) && Lookup(s, hash, key).Some? && SafeCall(s, v)
    requires |Small(s)| <= WORD
    requires Rev(v, BITS) <= Rev(hash(key), BITS)
    ensures (exists e :: e in Emitted(s, v) && e.key == key)
         || (NextCursor(s, v) != 0 && Rev(NextCursor(s, v), BITS) <= Rev(hash(key), BITS))
  {
    hide Low, High, Shl, Rev, Pow, SafeCall, Slot, Wf, Lookup2;
    PresentMeansUsed(s, hash, key);
    ShapeOf(s, hash);
    var k0, k1 := Exponents(s);
    var p, next := Rev(hash(key), BITS), Shl(Rev(Low(v, k0), k0) + 1, BITS - k0);
    AdvanceIsNextBlock(v, k0);
    if p < next {
      CallEmits(s, v, hash, key, k0);
      LookupKey(s, hash, key);
    } else {
      PositionBound(hash(key));
      assert next % WORD == next;
      InBlock(v, k0);
      RevZero();
    }
  }

  lemma ShapeOf<K(!new), V>(s: State<K, V>, hash: K -> nat)
    requires Wf(s, hash)
    ensures Shape(s)
  {
  }

  lemma LookupKey<K(!new), V>(s: State<K, V>, hash: K -> nat, key: K)
    requires Lookup(s, hash, key).Some?
    ensures Lookup(s, hash, key).value.key == key
  {
  }

  lemma {:induction false} ScanInvariant<K(!new), V>(states: seq<State<K, V>>, cursors: seq<nat>, hash: K -> nat,
                                                     key: K, n: nat)
    requires Scan(states, cursors, hash) && n <= |states|
    requires forall i :: 0 <= i < |states| ==> Lookup(states[i], hash, key).Some? && SafeCall(states[i], cursors[i])
    ensures (exists i :: EmittedAt(states, cursors, key, i))
         || (Rev(cursors[n], BITS) <= Rev(hash(key), BITS) && (n > 0 ==> cursors[n] != 0))
  {
    hide Wf, Rev, SafeCall, Lookup, Emitted, NextCursor;
    if n == 0 {
      RevZero();
    } else {
      ScanInvariant(states, cursors, hash, key, n - 1);
      if !exists i :: EmittedAt(states, cursors, key, i) {
        assert !EmittedAt(states, cursors, key, n - 1);
        ScanStep(states[n - 1], cursors[n - 1], hash, key);
      }
    }
  }

  /** The general form of the guarantee: over any scan whose calls have safe cursors, a key
      present at every call is emitted at least once, however the table grows, shrinks, rehashes,
      gains and loses other keys between the calls. */
  lemma ScanEmitsEveryKey<K(!new), V>(states: seq<State<K, V>>, cursors: seq<nat>, hash: K -> nat, key: K)
    requires Scan(states, cursors, hash)
    requires forall i :: 0 <= i < |states| ==> Lookup(states[i], hash, key).Some?
    requires forall i :: 0 <= i < |states| ==> SafeCall(states[i], cursors[i])
    ensures exists i :: EmittedAt(states, cursors, key, i)
  {
    ScanInvariant(states, cursors, hash, key, |states|);
  }

  /** A cursor below the size of the smaller table is safe: its bits above the smaller mask are 0. */
  lemma IndexIsSafe<K(!new), V>(s: State<K, V>, v: nat)
    requires Shape(s) && s.h0.buckets != [] && v < |Small(s)|
    ensures SafeCall(s, v)
  {
    hide Low, Pow, Slot;
    if Rehashing(s) {
      var k0, k1 := Exponents(s);
      PowMonotonic(k0, k1);
      SlotIsLow(v, k0);
      SlotIsLow(v, k1);
      LowSmall(v, k0);
      LowSmall(v, k1);
    }
  }

  lemma NextIsIndex<K(!new), V>(s: State<K, V>, v: nat, hash: K -> nat, key: K)
    requires Wf(s, hash) && Lookup(s, hash, key).Some? && |Small(s)| <= WORD
    ensures NextCursor(s, v) < |Small(s)|
  {
    hide Pow, Wf, AdvanceCursor, Small;
    PresentMeansUsed(s, hash, key);
    ShapeOf(s, hash);
    var k0, k1 := Exponents(s);
    AdvanceIsIndex(v, k0);
  }

  /** The cursor after a call lies below the smaller table's size at that call, so it is safe at
      the next call unless a migration is under way there from or to a table smaller than that. */
  lemma NextIsSafe<K(!new), V>(s: State<K, V>, v: nat, s': State<K, V>, hash: K -> nat, key: K)
    requires Wf(s, hash) && Lookup(s, hash, key).Some? && Wf(s', hash) && |Small(s)| <= WORD
    requires Rehashing(s') ==> |Small(s)| <= |Small(s')|
    ensures SafeCall(s', NextCursor(s, v))
  {
    hide Wf, NextCursor, SafeCall, Small;
    ShapeOf(s', hash);
    NextIsIndex(s, v, hash, key);
    if Rehashing(s') {
      IndexIsSafe(s', NextCursor(s, v));
    } else {
      NotRehashingIsSafe(s', NextCursor(s, v));
    }
  }

  lemma NotRehashingIsSafe<K, V>(s: State<K, V>, v: nat)
    requires !Rehashing(s)
    ensures SafeCall(s, v)
  {
  }

  /** The guarantee of dictScan without a word about cursors: a key present at every call is
      emitted, provided that no call in the middle of a migration finds a table smaller than the
      smaller one of the call before. Growth, at whatever stage the calls find it, never does
      that, and neither does a shrink completed between two calls. A shrink followed by a growth
      that is still under way at the next call may, and `DictScanGap` shows what a call in the
      middle of a shrink can do. */
  lemma ScanEmitsUnlessShrinking<K(!new), V>(states: seq<State<K, V>>, cursors: seq<nat>, hash: K -> nat, key: K)
    requires Scan(states, cursors, hash)
    requires forall i :: 0 <= i < |states| ==> Lookup(states[i], hash, key).Some?
    requires forall i :: 0 < i < |states| && Rehashing(states[i]) ==> |Small(states[i - 1])| <= |Small(states[i])|
    ensures exists i :: EmittedAt(states, cursors, key, i)
  {
    hide Wf, Rev, SafeCall, Lookup, NextCursor, Small;
    forall i | 0 <= i < |states| ensures SafeCall(states[i], cursors[i]) {
      if i == 0 {
        PresentMeansUsed(states[0], hash, key);
        ShapeOf(states[0], hash);
        SmallIsNotEmpty(states[0]);
        IndexIsSafe(states[0], 0);
      } else {
        NextIsSafe(states[i - 1], cursors[i - 1], states[i], hash, key);
      }
    }
    ScanEmitsEveryKey(states, cursors, hash, key);
  }

  lemma SmallIsNotEmpty<K, V>(s: State<K, V>)
    requires Shape(s) && s.h0.buckets != []
    ensures |Small(s)| > 0
  {
  }

  // ---------------------------------------------------------------- unchanged tables

  function CursorAfter(n0: nat, i: nat): nat
    requires n0 <= WORD
  {
    if i == 0 then 0 else AdvanceCursor(CursorAfter(n0, i - 1), n0)
  }

  lemma {:induction false} CursorPosition(k: nat, i: nat)
    requires k < BITS && i <= Pow(k) <= WORD
    ensures Rev(CursorAfter(Pow(k), i), BITS) == Shl(i, BITS - k) % WORD
    ensures i < Pow(k) ==> Rev(Low(CursorAfter(Pow(k), i), k), k) == i
    ensures CursorAfter(Pow(k), i) < WORD
  {
    hide Low, High, Shl, Rev, Pow, AdvanceCursor;
    var j := BITS - k;
    var v := CursorAfter(Pow(k), i);
    if i == 0 {
      RevZero();
      ShlPow(0, j);
    } else {
      CursorPosition(k, i - 1);
      AdvanceIsNextBlock(CursorAfter(Pow(k), i - 1), k);
      AdvanceBound(CursorAfter(Pow(k), i - 1), Pow(k));
    }
    if i < Pow(k) {
      ShlOrder(i, Pow(k), j);
      ShlPow(k, j);
      PowBits();
      PowPositive(j);
      InBlock(v, k);
      var x := Rev(Low(v, k), k);
      ShlAdd(x, 1, j);
      ShlPow(0, j);
      if x < i { ShlOrder(x, i, j); }
      if i < x { ShlOrder(i, x, j); }
    }
  }

  /** While the tables do not change, a scan makes one call per bucket of the smaller table: it
      is back at 0 after exactly that many calls, and call number Rev(b) is the only one at
      bucket `b`. */
  lemma UnchangedScanVisitsOnce(k: nat)
    requires k < BITS && Pow(k) <= WORD
    ensures CursorAfter(Pow(k), Pow(k)) == 0
    ensures forall i: nat :: 0 < i < Pow(k) ==> CursorAfter(Pow(k), i) != 0
    ensures forall b: nat, i: nat :: b < Pow(k) && i < Pow(k) ==>
              (Slot(CursorAfter(Pow(k), i), Pow(k)) == b <==> i == Rev(b, k))
  {
    hide Low, High, Shl, Rev, Pow, Slot, CursorAfter;
    var j := BITS - k;
    CursorPosition(k, Pow(k));
    ShlPow(k, j);
    PowBits();
    RevZero();
    RevZeroMeansZero(CursorAfter(Pow(k), Pow(k)));
    forall i: nat | 0 < i < Pow(k) ensures CursorAfter(Pow(k), i) != 0 {
      CursorPosition(k, i);
      LowZero(k);
    }
    forall b: nat, i: nat | b < Pow(k) && i < Pow(k)
      ensures Slot(CursorAfter(Pow(k), i), Pow(k)) == b <==> i == Rev(b, k)
    {
      CursorPosition(k, i);
      SlotIsLow(CursorAfter(Pow(k), i), k);
      var a := Low(CursorAfter(Pow(k), i), k);
      if Rev(a, k) == Rev(b, k) { RevInjective(a, b, k); }
    }
  }

  lemma LowZero(k: nat)
    ensures Rev(Low(0, k), k) == 0
  {
    RevZeroOf(k);
    LowZeroOf(k);
  }

  lemma {:induction false} LowZeroOf(k: nat)
    ensures Low(0, k) == 0
  {
    if k > 0 { LowZeroOf(k - 1); }
  }

  lemma RevZeroMeansZero(v: nat)
    requires v < WORD && Rev(v, BITS) == 0
    ensures v == 0
  {
    hide Rev, Pow;
    PowBits();
    RevZero();
    RevInjective(v, 0, BITS);
  }

  /** The call at `v` leads to the cursor that a scan of the smaller table alone would have next. */
  lemma JoinsSmaller(v: nat, k0: nat)
    requires k0 < BITS && Pow(k0) <= WORD
    ensures AdvanceCursor(v, Pow(k0)) == CursorAfter(Pow(k0), Rev(Low(v, k0), k0) + 1)
  {
    hide Low, Rev, Pow, Slot;
    var c := CursorAfter(Pow(k0), Rev(Low(v, k0), k0));
    CursorPosition(k0, Rev(Low(v, k0), k0));
    RevInjective(Low(c, k0), Low(v, k0), k0);
    SlotIsLow(c, k0);
    SlotIsLow(v, k0);
  }

  lemma OneMoreCursor(n0: nat, i: nat)
    requires n0 <= WORD
    ensures CursorAfter(n0, i + 1) == AdvanceCursor(CursorAfter(n0, i), n0)
  {
    hide AdvanceCursor;
  }

  // ---------------------------------------------------------------- calls repeated

  /** The cursor after `j` calls on an unchanged dictionary. */
  function Repeated<K, V>(s: State<K, V>, v: nat, j: nat): nat
    requires |Small(s)| <= WORD
  {
    if j == 0 then v else NextCursor(s, Repeated(s, v, j - 1))
  }

  lemma RepeatedOnce<K, V>(s: State<K, V>, v: nat, j: nat)
    requires |Small(s)| <= WORD
    ensures Repeated(s, v, 0) == v && Repeated(s, v, j + 1) == NextCursor(s, Repeated(s, v, j))
  {
    hide NextCursor, Small;
  }

  lemma {:induction false} RepeatedIs<K, V>(s: State<K, V>, v: nat, j: nat, k: nat)
    requires k < BITS && |Small(s)| == Pow(k) <= WORD && s.h0.used + s.h1.used > 0 && j > 0
    requires Rev(Low(v, k), k) + j <= Pow(k)
    ensures Repeated(s, v, j) == CursorAfter(Pow(k), Rev(Low(v, k), k) + j)
  {
    hide Low, Rev, Pow, AdvanceCursor, CursorAfter, Small;
    var x := Rev(Low(v, k), k);
    if j == 1 {
      JoinsSmaller(v, k);
      assert Repeated(s, v, 0) == v;
    } else {
      RepeatedIs(s, v, j - 1, k);
      OneMoreCursor(Pow(k), x + j - 1);
    }
  }

  /** A scan ends. From any cursor, repeating the call on an unchanged dictionary, empty or not, in
      the middle of a migration or not, comes to cursor 0 within as many calls as the smaller table
      has buckets, and within one call if nothing is stored. */
  lemma ScanEnds<K(!new), V>(s: State<K, V>, v: nat) returns (j: nat)
    requires Shape(s) && |Small(s)| <= WORD
    ensures 1 <= j <= (if s.h0.used + s.h1.used == 0 then 1 else |Small(s)|) && Repeated(s, v, j) == 0
  {
    hide Low, Rev, Pow, AdvanceCursor, CursorAfter, Small;
    if s.h0.used + s.h1.used == 0 {
      j := 1;
      assert Repeated(s, v, 0) == v;
    } else {
      UsedMeansTable(s);
      var k, k1 := Exponents(s);
      j := Pow(k) - Rev(Low(v, k), k);
      RepeatedIs(s, v, j, k);
      UnchangedScanVisitsOnce(k);
    }
  }

  lemma UsedMeansTable<K, V>(s: State<K, V>)
    requires Shape(s) && s.h0.used + s.h1.used > 0
    ensures s.h0.buckets != []
  {
  }

  /** A call emits stored nodes of its own block only. */
  lemma EmittedOnly<K(!new), V>(s: State<K, V>, v: nat, hash: K -> nat, e: Entry<K, V>, k: nat)
    requires Wf(s, hash) && e in Emitted(s, v) && k < BITS && |Small(s)| == Pow(k)
    ensures Lookup(s, hash, e.key) == Some(e) && Low(hash(e.key), k) == Low(v, k)
  {
    hide Low, Pow, Slot, Expansions, WellFormed, Apart, LookupIn, Count;
    SlotIsLow(v, k);
    SlotIsLow(hash(e.key), k);
    if e in Small(s)[Slot(v, |Small(s)|)] {
      StoredIsFound(Small(s), hash, e, Slot(v, |Small(s)|));
    } else {
      var k0, k1 := Exponents(s);
      PowInjective(k, k0);
      var b, from := Large(s), Slot(v, |Large(s)|);
      ExpansionsAre(b, from, k, e);
      var c :| from <= c < |b| && Low(c, k) == Low(from, k) && e in b[c];
      StoredIsFound(b, hash, e, c);
      SlotIsLow(v, k1);
      SlotIsLow(hash(e.key), k1);
      LowLow(v, k, k1);
      LowLow(hash(e.key), k, k1);
    }
    FoundInEither(s, hash, e);
  }

  lemma StoredIsFound<K(!new), V>(b: Buckets<K, V>, hash: K -> nat, e: Entry<K, V>, i: nat)
    requires WellFormed(b, hash) && i < |b| && e in b[i]
    ensures Slot(hash(e.key), |b|) == i && LookupIn(b, hash, e.key) == Some(e)
  {
    hide Slot;
    var j :| 0 <= j < |b[i]| && b[i][j] == e;
    FindAt(b[i], j);
  }

  /** A call emits no key twice. */
  lemma EmittedOnce<K(!new), V>(s: State<K, V>, v: nat, hash: K -> nat)
    requires Wf(s, hash)
    ensures DistinctKeys(Emitted(s, v))
  {
    hide Slot, LookupIn, WellFormed, DistinctKeys, Expansions, Count;
    var b := Small(s);
    if s.h0.used + s.h1.used > 0 && b != [] {
      var i := Slot(v, |b|);
      BucketIsDistinct(b, hash, i);
      if Rehashing(s) {
        var more := Slot(v, |Large(s)|);
        ExpansionsDistinct(Large(s), hash, more, |b|);
        forall e: Entry<K, V>, f: Entry<K, V> | e in b[i] && f in Expansions(Large(s), more, |b|)
          ensures e.key != f.key
        {
          var c := InExpansions(Large(s), more, |b|, f);
          StoredIsFound(b, hash, e, i);
          StoredIsFound(Large(s), hash, f, c);
        }
        DistinctConcat(b[i], Expansions(Large(s), more, |b|));
      }
    }
    if Emitted(s, v) == [] { NothingIsDistinct<K, V>(); }
    assert Small(s) != [] ==> Small(s)[Slot(v, |Small(s)|)] + [] == Small(s)[Slot(v, |Small(s)|)];
  }

  lemma NothingIsDistinct<K, V>()
    ensures DistinctKeys<K, V>([])
  {
  }

  lemma BucketIsDistinct<K, V>(b: Buckets<K, V>, hash: K -> nat, i: nat)
    requires WellFormed(b, hash) && i < |b|
    ensures DistinctKeys(b[i])
  {
  }

  lemma DistinctConcat<K, V>(a: Chain<K, V>, b: Chain<K, V>)
    requires DistinctKeys(a) && DistinctKeys(b) && forall e, f :: e in a && f in b ==> e.key != f.key
    ensures DistinctKeys(a + b)
  {
  }

  lemma {:induction false} InExpansions<K, V>(b: Buckets<K, V>, i: nat, n0: nat, e: Entry<K, V>) returns (c: nat)
    requires n0 > 0 && e in Expansions(b, i, n0)
    ensures i <= c < |b| && e in b[c]
    decreases |b| - i
  {
    if e in b[i] { c := i; } else { c := InExpansions(b, i + n0, n0, e); }
  }

  lemma {:induction false} ExpansionsDistinct<K(!new), V>(b: Buckets<K, V>, hash: K -> nat, i: nat, n0: nat)
    requires n0 > 0 && WellFormed(b, hash)
    ensures DistinctKeys(Expansions(b, i, n0))
    decreases |b| - i
  {
    hide Slot, LookupIn, WellFormed, DistinctKeys;
    if i >= |b| {
      NothingIsDistinct<K, V>();
    } else {
      var rest := Expansions(b, i + n0, n0);
      BucketIsDistinct(b, hash, i);
      ExpansionsDistinct(b, hash, i + n0, n0);
      forall e: Entry<K, V>, f: Entry<K, V> | e in b[i] && f in rest ensures e.key != f.key {
        var c := InExpansions(b, i + n0, n0, f);
        StoredIsFound(b, hash, e, i);
        StoredIsFound(b, hash, f, c);
      }
      DistinctConcat(b[i], rest);
    }
  }

  lemma FoundInEither<K(!new), V>(s: State<K, V>, hash: K -> nat, e: Entry<K, V>)
    requires Wf(s, hash)
    requires LookupIn(s.h0.buckets, hash, e.key) == Some(e) || LookupIn(s.h1.buckets, hash, e.key) == Some(e)
    ensures Lookup(s, hash, e.key) == Some(e)
  {
    hide LookupIn, WellFormed, Shape;
  }

  /** A scan of an unchanged dictionary, whatever state its migration is in, emits every node in
      exactly one of its calls. */
  lemma UnchangedScanEmitsOnce<K(!new), V>(s: State<K, V>, hash: K -> nat, key: K, k: nat, i: nat)
    requires Wf(s, hash) && Lookup(s, hash, key).Some? && k < BITS && |Small(s)| == Pow(k) <= WORD && i < Pow(k)
    ensures Lookup(s, hash, key).value in Emitted(s, Repeated(s, 0, i)) <==> i == Rev(Low(hash(key), k), k)
  {
    hide Low, Rev, Pow, Shl, Emitted, Small, Wf, CursorAfter, Repeated, Lookup, SafeCall;
    PresentMeansUsed(s, hash, key);
    ShapeOf(s, hash);
    var v := Repeated(s, 0, i);
    FromZero(s, i, k);
    CursorPosition(k, i);
    var e := Lookup(s, hash, key).value;
    LookupKey(s, hash, key);
    if e in Emitted(s, v) { EmittedOnly(s, v, hash, e, k); }
    if i == Rev(Low(hash(key), k), k) {
      CursorIsIndex(k, i);
      IndexIsSafe(s, v);
      InBlock(hash(key), k);
      CursorStartsBlock(k, i);
      CallEmits(s, v, hash, key, k);
    }
  }

  lemma FromZero<K, V>(s: State<K, V>, i: nat, k: nat)
    requires k < BITS && |Small(s)| == Pow(k) <= WORD && s.h0.used + s.h1.used > 0 && i < Pow(k)
    ensures Repeated(s, 0, i) == CursorAfter(Pow(k), i)
  {
    hide Low, Rev, Pow, AdvanceCursor, Small;
    LowZero(k);
    if i > 0 { RepeatedIs(s, 0, i, k); }
  }

  lemma CursorIsIndex(k: nat, i: nat)
    requires k < BITS && i < Pow(k) <= WORD
    ensures CursorAfter(Pow(k), i) < Pow(k)
  {
    hide Low, Rev, Pow, AdvanceCursor;
    if i > 0 { AdvanceIsIndex(CursorAfter(Pow(k), i - 1), k); }
  }

  lemma CursorStartsBlock(k: nat, i: nat)
    requires k < BITS && i < Pow(k) <= WORD
    ensures Rev(CursorAfter(Pow(k), i), BITS) == Shl(i, BITS - k)
    ensures Rev(Low(CursorAfter(Pow(k), i), k), k) == i
  {
    hide Low, Rev, Pow, AdvanceCursor, CursorAfter, Shl;
    CursorPosition(k, i);
    PowBits();
    ShlPow(k, BITS - k);
    ShlOrder(i, Pow(k), BITS - k);
    PowPositive(BITS - k);
  }

  // ---------------------------------------------------------------- the function

  /** dictScan itself: the do-while loop over the larger table counts in the cursor's own bits. */
  method DictScan<K(==, !new), V>(d: Dict.Dict<K, V>, cursor: nat) returns (emitted: seq<Entry<K, V>>, next: nat)
    requires d.Valid() && cursor < WORD
    requires |Small(d.Model())| <= WORD
    ensures emitted == Emitted(d.Model(), cursor)
    ensures next == NextCursor(d.Model(), cursor)
    ensures d.contents == map[] ==> emitted == [] && next == 0
  {
    hide Word.Rev, Wf, Represents, Slot;
    if d.used0 + d.used1 == 0 { return [], 0; }
    ghost var s := d.Model();
    ModelHasTable(s, d.hash, d.contents);
    if d.rehashidx == -1 {
      emitted := d.table0[Slot(cursor, d.table0.Length)];
      next := AdvanceCursor(cursor, d.table0.Length);
    } else {
      var t0, t1 := d.table0, d.table1;
      if t0.Length > t1.Length { t0, t1 := d.table1, d.table0; }
      assert t0[..] == Small(s) && t1[..] == Large(s);
      emitted := t0[Slot(cursor, t0.Length)];
      var more := ScanExpansions(t0.Length, t1, cursor);
      emitted := emitted + more;
      next := AdvanceCursor(cursor, t0.Length);
    }
  }

  /** `(((v | m0) + 1) & ~m0) | (v & m0)` on 64-bit words. */
  function Bump(v: nat, n0: nat): nat {
    (v - Slot(v, n0) + n0) % WORD + Slot(v, n0)
  }

  /** A word below the bump's carry: adding stays within the word. */
  lemma BumpParts(v: nat, k0: nat, k1: nat)
    requires v < WORD && k0 <= k1 < BITS
    ensures Slot(v, Pow(k0)) == Low(v, k0) <= v
    ensures Slot(v, Pow(k1)) == Low(v, k1) == Low(v, k0) + Shl(Low(High(v, k0), k1 - k0), k0)
    ensures v == Low(v, k1) + Shl(High(v, k1), k1)
    ensures Shl(High(v, k1), k1) + Pow(k1) == Shl(High(v, k1) + 1, k1) <= WORD
    ensures Pow(k0) <= Pow(k1)
  {
    hide Low, High, Shl, Pow, Slot;
    var t := High(v, k1);
    SlotIsLow(v, k0);
    SlotIsLow(v, k1);
    LowHigh(v, k0);
    SplitIndex(v, k0, k1);
    LowHigh(v, k1);
    PowBits();
    ShlPow(BITS - k1, k1);
    if t >= Pow(BITS - k1) { ShlStep(Pow(BITS - k1), t, k1); }
    ShlAdd(t, 1, k1);
    ShlPow(0, k1);
    ShlStep(t + 1, Pow(BITS - k1), k1);
    PowMonotonic(k0, k1);
  }

  lemma BumpNext(v: nat, k0: nat, k1: nat)
    requires v < WORD && k0 <= k1 < BITS && Low(v, k1) + Pow(k0) < Pow(k1)
    ensures Low(v, k0) <= v && v - Low(v, k0) + Pow(k0) < WORD
    ensures Low(v + Pow(k0), k1) == Low(v, k1) + Pow(k0)
    ensures Low(v + Pow(k0), k0) == Low(v, k0)
  {
    hide Low, High, Shl, Pow, Slot;
    BumpParts(v, k0, k1);
    LowHighOf(Low(v, k1) + Pow(k0), High(v, k1), k1);
    LowPlus(v, k0);
  }

  lemma BumpWrap(v: nat, k0: nat, k1: nat) returns (t: nat)
    requires v < WORD && k0 <= k1 < BITS && Low(v, k1) + Pow(k0) >= Pow(k1)
    ensures Low(v, k0) <= v
    ensures (v - Low(v, k0) + Pow(k0)) % WORD == Shl(t, k1) && Shl(t, k1) + Pow(k1) <= WORD
  {
    hide Low, High, Shl, Pow, Slot;
    var a, b := Low(v, k0), Low(High(v, k0), k1 - k0);
    t := High(v, k1) + 1;
    BumpParts(v, k0, k1);
    ShlAdd(b, 1, k0);
    ShlPow(0, k0);
    ShlPow(k1 - k0, k0);
    if b + 1 < Pow(k1 - k0) { ShlOrder(b + 1, Pow(k1 - k0), k0); }
    assert v - a + Pow(k0) == Shl(t, k1);
    PowBits();
    ShlPow(BITS - k1, k1);
    ShlPow(0, k1);
    if Shl(t, k1) == WORD {
      t := 0;
      PowMonotonic(k1, BITS);
    } else if t < Pow(BITS - k1) {
      ShlOrder(t, Pow(BITS - k1), k1);
    } else {
      ShlStep(Pow(BITS - k1), t, k1);
    }
  }

  /** The bump moves to the next expansion, or clears the expansion bits after the last one. */
  lemma BumpIndex(v: nat, k0: nat, k1: nat)
    requires v < WORD && k0 <= k1 < BITS
    ensures v >= Slot(v, Pow(k0)) && Bump(v, Pow(k0)) < WORD
    ensures Slot(Bump(v, Pow(k0)), Pow(k0)) == Slot(v, Pow(k0))
    ensures Slot(Bump(v, Pow(k0)), Pow(k1)) ==
            if Slot(v, Pow(k1)) + Pow(k0) < Pow(k1) then Slot(v, Pow(k1)) + Pow(k0) else Slot(v, Pow(k0))
  {
    hide Low, High, Shl, Pow, Slot;
    var v' := Bump(v, Pow(k0));
    BumpParts(v, k0, k1);
    SlotIsLow(v', k0);
    SlotIsLow(v', k1);
    if Low(v, k1) + Pow(k0) < Pow(k1) {
      BumpNext(v, k0, k1);
    } else {
      var t := BumpWrap(v, k0, k1);
      LowHighOf(Low(v, k0), t, k1);
      LowLow(v', k0, k1);
      LowSmall(Low(v, k0), k0);
    }
  }

  lemma ExpansionsFrom<K, V>(done: Chain<K, V>, b: Buckets<K, V>, i: nat, n0: nat)
    requires n0 > 0 && i < |b|
    ensures done + Expansions(b, i, n0) == (done + b[i]) + Expansions(b, i + n0, n0)
    ensures i + n0 >= |b| ==> done + Expansions(b, i, n0) == done + b[i]
  {
  }

  method ScanExpansions<K, V>(n0: nat, t1: array<Chain<K, V>>, cursor: nat) returns (emitted: seq<Entry<K, V>>)
    requires PowerOfTwo(n0) && PowerOfTwo(t1.Length) && n0 <= t1.Length && cursor < WORD
    ensures emitted == Expansions(t1[..], Slot(cursor, t1.Length), n0)
  {
    hide Slot, Pow, Bump, Expansions;
    ghost var k0: nat :| k0 < 64 && n0 == Pow(k0);
    ghost var k1: nat :| k1 < 64 && t1.Length == Pow(k1);
    if k1 < k0 { PowStrict(k1, k0); }
    ghost var goal := Expansions(t1[..], Slot(cursor, t1.Length), n0);
    var v: nat, first := cursor, true;
    emitted := [];
    while first || Slot(v, t1.Length) - Slot(v, n0) != 0
      invariant v < WORD
      invariant first || Slot(v, t1.Length) - Slot(v, n0) != 0 ==>
        emitted + Expansions(t1[..], Slot(v, t1.Length), n0) == goal
      invariant !first && Slot(v, t1.Length) - Slot(v, n0) == 0 ==> emitted == goal
      decreases first, if Slot(v, t1.Length) == Slot(v, n0) then 0 else t1.Length - Slot(v, t1.Length)
    {
      first := false;
      BumpIndex(v, k0, k1);
      var i := Slot(v, t1.Length);
      ExpansionsFrom(emitted, t1[..], i, n0);
      emitted := emitted + t1[i];
      v := Bump(v, n0);
    }
  }

  lemma ModelHasTable<K(!new), V>(s: State<K, V>, hash: K -> nat, m: map<K, V>)
    requires Inv(s, hash, m) && s.h0.used + s.h1.used > 0
    ensures Shape(s) && s.h0.buckets != []
    ensures Rehashing(s) ==> s.h1.buckets != []
  {
    AllEmptyCount(s.h0.buckets);
    AllEmptyCount(s.h1.buckets);
  }
}
