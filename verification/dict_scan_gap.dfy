/** The scan guarantee does need safe cursors: a shrink that starts between two calls of a scan
    can hide a key that is present at every call. */
module DictScanGap {
  import opened DictSpec
  import opened DictRefinement
  import opened Word
  import opened DictScan

  const KEY: nat := 4
  const NODE: Entry<nat, nat> := Entry(0, KEY, 7)

  function Sixteen(): Buckets<nat, nat> { EmptyBuckets<nat, nat>(16)[4 := [NODE]] }

  /** Sixteen buckets, one key: what is left after many deletes. */
  function Before(): State<nat, nat> { State(Table(Sixteen(), 1), Table([], 0), -1, 0) }

  /** The same table after dictResize: migration to four buckets has begun. */
  function During(): State<nat, nat> {
    State(Table(Sixteen(), 1), Table(EmptyBuckets<nat, nat>(4), 0), 0, 0)
  }

  lemma SmallPowers()
    ensures Pow(0) == 1 && Pow(1) == 2 && Pow(2) == 4 && Pow(3) == 8 && Pow(4) == 16
  {
  }

  lemma ShrinkStarts()
    ensures Resize(Before(), true) == (During(), true)
  {
    assert NextPower(4) == 4;
  }

  lemma FourIsInBucketFour()
    ensures Slot(KEY, 16) == 4 && Slot(KEY, 4) == 0
  {
    SmallPowers();
    SlotIsLow(4, 4);
    SlotIsLow(4, 2);
    assert Low(4, 4) == 2 * Low(2, 3) == 4 * Low(1, 2);
    assert Low(1, 2) == 1 + 2 * Low(0, 1);
    assert Low(4, 2) == 2 * Low(2, 1) == 4 * Low(1, 0);
  }

  lemma StatesAreWellFormed()
    ensures Wf(Before(), Identity()) && Wf(During(), Identity())
    ensures Lookup(Before(), Identity(), KEY) == Some(NODE)
    ensures Lookup(During(), Identity(), KEY) == Some(NODE)
  {
    hide Slot, Pow, WellFormed, LookupIn, Sixteen, Apart, Count;
    SmallPowers();
    EmptyLookup<nat, nat>(4, Identity());
    SixteenIsWellFormed();
    SixteenHasKey();
    SixteenIsApart();
    NoTable();
    assert PowerOfTwo(Pow(4)) && PowerOfTwo(Pow(2));
  }

  lemma NoTable()
    ensures WellFormed<nat, nat>([], Identity()) && Count<nat, nat>([]) == 0
    ensures LookupIn<nat, nat>([], Identity(), KEY) == None
  {
  }

  lemma SixteenIsWellFormed()
    ensures WellFormed(Sixteen(), Identity()) && |Sixteen()| == 16 && Count(Sixteen()) == 1
  {
    hide Slot, Pow, Count;
    FourIsInBucketFour();
    EmptyLookup<nat, nat>(16, Identity());
    CountUpdate(EmptyBuckets<nat, nat>(16), 4, [NODE]);
  }

  lemma SixteenHasKey()
    ensures LookupIn(Sixteen(), Identity(), KEY) == Some(NODE)
  {
    hide Slot, Pow;
    FourIsInBucketFour();
  }

  lemma SixteenIsApart()
    ensures Apart(Sixteen(), EmptyBuckets<nat, nat>(4), Identity()) && Apart(Sixteen(), [], Identity())
  {
    hide Slot, Pow;
    EmptyLookup<nat, nat>(4, Identity());
  }

  lemma AdvanceTo(v: nat, k: nat, target: nat)
    requires k < BITS && Pow(k) <= WORD && target < WORD
    requires Rev(target, BITS) == Shl(Rev(Low(v, k), k) + 1, BITS - k) % WORD
    ensures AdvanceCursor(v, Pow(k)) == target
  {
    hide Rev, Low, Shl, Pow, AdvanceCursor;
    AdvanceIsNextBlock(v, k);
    AdvanceBound(v, Pow(k));
    PowBits();
    RevInjective(AdvanceCursor(v, Pow(k)), target, BITS);
  }

  lemma Reversals()
    ensures Rev(0, 4) == 0 && Rev(8, 4) == 1
    ensures Rev(0, 2) == 0 && Rev(2, 2) == 1 && Rev(1, 2) == 2 && Rev(3, 2) == 3
    ensures Low(8, 2) == 0
  {
    SmallPowers();
    assert Rev(0, 0) == 0 && Rev(1, 1) == 1 && Rev(0, 1) == 0;
    assert Rev(2, 2) == 1 && Rev(1, 2) == 2 && Rev(3, 2) == 3 && Rev(0, 2) == 0;
    assert Rev(4, 3) == Rev(2, 2) && Rev(8, 4) == Rev(4, 3);
    assert Rev(0, 3) == 0;
    assert Low(8, 2) == 2 * Low(4, 1) == 4 * Low(2, 0);
  }

  lemma Cursors()
    ensures AdvanceCursor(0, 16) == 8 && AdvanceCursor(8, 4) == 2 && AdvanceCursor(2, 4) == 1
    ensures AdvanceCursor(1, 4) == 3 && AdvanceCursor(3, 4) == 0
  {
    hide Rev, Low, Shl, Pow, AdvanceCursor;
    SmallPowers();
    Reversals();
    PowBits();
    PowMonotonic(4, BITS);
    SmallCursor(0, 4); SmallCursor(8, 4);
    SmallCursor(0, 2); SmallCursor(2, 2); SmallCursor(1, 2); SmallCursor(3, 2);
    ShlPow(4, 60);
    ShlPow(2, 62);
    ShlOrder(1, 16, 60);
    ShlOrder(1, 4, 62); ShlOrder(2, 4, 62); ShlOrder(3, 4, 62);
    PowPositive(60); PowPositive(62);
    AdvanceTo(0, 4, 8);
    AdvanceTo(8, 2, 2);
    AdvanceTo(2, 2, 1);
    AdvanceTo(1, 2, 3);
    AdvanceTo(3, 2, 0);
  }

  /** From bucket 8, and from buckets 1 to 3, the expansions never reach bucket 4. */
  lemma NothingEmitted(v: nat)
    requires v == 8 || v == 2 || v == 1 || v == 3
    ensures Emitted(During(), v) == []
  {
    hide Slot, Low, Pow;
    SmallPowers();
    SmallLows();
    SlotIsLow(v, 4);
    var i := Slot(v, 16);
    assert i == v;
    forall e ensures e !in Expansions(Sixteen(), i, 4) {
      ExpansionsAre(Sixteen(), i, 2, e);
    }
    FirstIsMember(Expansions(Sixteen(), i, 4));
  }

  lemma FirstIsMember<T>(s: seq<T>)
    ensures s != [] ==> s[0] in s
  {
  }

  lemma SmallLows()
    ensures Low(8, 4) == 8 && Low(2, 4) == 2 && Low(1, 4) == 1 && Low(3, 4) == 3
    ensures Low(4, 2) == 0 && Low(2, 2) == 2 && Low(1, 2) == 1 && Low(3, 2) == 3 && Low(8, 2) == 0
  {
    SmallPowers();
    LowSmall(8, 4); LowSmall(2, 4); LowSmall(1, 4); LowSmall(3, 4);
    LowSmall(2, 2); LowSmall(1, 2); LowSmall(3, 2);
    assert Low(4, 2) == 2 * Low(2, 1) == 4 * Low(1, 0);
    assert Low(8, 2) == 2 * Low(4, 1) == 4 * Low(2, 0);
  }

  lemma ScanRuns(states: seq<State<nat, nat>>, cursors: seq<nat>)
    requires states == [Before(), During(), During(), During(), During()]
    requires cursors == [0, 8, 2, 1, 3, 0]
    ensures Scan(states, cursors, Identity())
    ensures forall i :: 0 <= i < |states| ==> Lookup(states[i], Identity(), KEY) == Some(NODE)
  {
    hide AdvanceCursor, Wf, Lookup;
    Cursors();
    StatesAreWellFormed();
  }

  lemma NeverEmitted(states: seq<State<nat, nat>>, cursors: seq<nat>)
    requires states == [Before(), During(), During(), During(), During()]
    requires cursors == [0, 8, 2, 1, 3, 0]
    ensures forall i: nat :: !EmittedAt(states, cursors, KEY, i)
  {
    hide Emitted;
    NothingEmitted(8); NothingEmitted(2); NothingEmitted(1); NothingEmitted(3);
    FirstCallEmitsNothing();
    forall i: nat ensures !EmittedAt(states, cursors, KEY, i) {
    }
  }

  /** A complete scan of five calls during which key 4 is present throughout and never emitted;
      the cursor of the second call, 8, is not safe. */
  lemma ScanCanMissAKey(states: seq<State<nat, nat>>, cursors: seq<nat>)
    requires states == [Before(), During(), During(), During(), During()]
    requires cursors == [0, 8, 2, 1, 3, 0]
    ensures Scan(states, cursors, Identity())
    ensures forall i :: 0 <= i < |states| ==> Lookup(states[i], Identity(), KEY).Some?
    ensures !exists i :: EmittedAt(states, cursors, KEY, i)
    ensures !SafeCall(states[1], cursors[1])
  {
    hide AdvanceCursor, Emitted, Wf, Lookup, Scan, EmittedAt, SafeCall;
    ScanRuns(states, cursors);
    NeverEmitted(states, cursors);
    SecondCallIsUnsafe();
  }

  lemma SecondCallIsUnsafe()
    ensures !SafeCall(During(), 8)
  {
    hide Slot, Low, Pow;
    SmallPowers();
    SmallLows();
    SlotIsLow(8, 4);
    SlotIsLow(8, 2);
    forall k: nat ensures Pow(k) != 12 {
      if k >= 4 { PowMonotonic(4, k); }
    }
  }

  lemma FirstCallEmitsNothing()
    ensures Emitted(Before(), 0) == []
  {
    SmallPowers();
    LowSmall(0, 4);
    SlotIsLow(0, 4);
  }

  // ---------------------------------------------------------------- every unsafe cursor loses a key

  const TOP: nat := BITS - 1

  /** The largest table, with one node: scanned before the shrink. */
  function Scanned(h: nat): State<nat, nat> {
    State(Table(Push(EmptyBuckets<nat, nat>(Pow(TOP)), Identity(), Lone(h)), 1), Table([], 0), -1, 0)
  }

  lemma ScannedIsWellFormed(h: nat)
    ensures Wf(Scanned(h), Identity()) && Lookup(Scanned(h), Identity(), h) == Some(Lone(h))
    ensures |Small(Scanned(h))| == Pow(TOP) <= WORD
  {
    hide Slot, Pow, WellFormed, LookupIn, Count;
    EmptyLookup<nat, nat>(Pow(TOP), Identity());
    PushLookup(EmptyBuckets<nat, nat>(Pow(TOP)), Identity(), Lone(h));
    NoTable();
    forall key: nat ensures LookupIn<nat, nat>([], Identity(), key).None? { LookupNothing(key); }
    assert PowerOfTwo(Pow(TOP));
    PowBits();
    PowMonotonic(TOP, BITS);
  }

  lemma LookupNothing(key: nat)
    ensures LookupIn<nat, nat>([], Identity(), key).None?
  {
  }

  lemma OnlyNode(h: nat, k: nat, i: nat, e: Entry<nat, nat>)
    requires i < Pow(k) && e in Push(EmptyBuckets<nat, nat>(Pow(k)), Identity(), Lone(h))[i]
    ensures i == Low(h, k)
  {
    hide Slot, Low, Pow;
    SlotIsLow(h, k);
  }

  /** Up to the cursor the scan of the large table has not come to the node. */
  lemma NothingBefore(h: nat, i: nat)
    requires h < Pow(TOP) && i < Rev(h, TOP) && Pow(TOP) <= WORD
    ensures Emitted(Scanned(h), CursorAfter(Pow(TOP), i)) == []
  {
    hide Slot, Low, Rev, Pow, CursorAfter, Push;
    var c := CursorAfter(Pow(TOP), i);
    CursorPosition(TOP, i);
    SlotIsLow(c, TOP);
    LowSmall(h, TOP);
    forall e ensures e !in Emitted(Scanned(h), c) {
      if e in Emitted(Scanned(h), c) { OnlyNode(h, TOP, Low(c, TOP), e); }
    }
    FirstIsMember(Emitted(Scanned(h), c));
  }

  /** From the cursor on, the scan of the shrinking table has passed the node. */
  lemma NothingAfter(h: nat, k0: nat, k1: nat, c: nat)
    requires k0 < k1 < BITS && (Low(c, k0) != Low(h, k0) || Low(h, k1) < Low(c, k1))
    ensures Emitted(LoneState(h, k0, k1), c) == []
  {
    hide Slot, Low, Pow, Push;
    PowStrict(k0, k1);
    var b := LoneState(h, k0, k1).h0.buckets;
    SlotIsLow(c, k1);
    var from := Slot(c, |b|);
    forall e ensures e !in Expansions(b, from, Pow(k0)) {
      ExpansionsAre(b, from, k0, e);
      if i :| from <= i < |b| && Low(i, k0) == Low(from, k0) && e in b[i] {
        OnlyNode(h, k1, i, e);
        LowLow(h, k0, k1);
        LowLow(c, k0, k1);
      }
    }
    FirstIsMember(Expansions(b, from, Pow(k0)));
  }

  /** The large table is scanned up to `v`, then the shrinking one to the end. */
  function LostCursor(v: nat, k0: nat, i: nat): nat
    requires k0 < BITS && Pow(k0) <= WORD && Pow(TOP) <= WORD
  {
    if i <= Rev(v, TOP) then CursorAfter(Pow(TOP), i)
    else CursorAfter(Pow(k0), Rev(Low(v, k0), k0) + (i - Rev(v, TOP)))
  }

  lemma ReachesCursor(v: nat)
    requires v < Pow(TOP) <= WORD
    ensures CursorAfter(Pow(TOP), Rev(v, TOP)) == v
  {
    hide Slot, Low, Rev, Pow, CursorAfter, Shl;
    var c := CursorAfter(Pow(TOP), Rev(v, TOP));
    CursorPosition(TOP, Rev(v, TOP));
    SmallCursor(v, TOP);
    PowBits();
    PowMonotonic(TOP, BITS);
    PositionBound(v);
    RevInjective(c, v, BITS);
  }

  lemma SameStates(h: nat, k0: nat, k1: nat)
    ensures !Rehashing(Scanned(h)) && Rehashing(LoneState(h, k0, k1))
  {
  }

  lemma CursorsZero(k0: nat)
    requires k0 < BITS && Pow(k0) <= WORD
    ensures CursorAfter(Pow(k0), Pow(k0)) == 0
    ensures Pow(TOP) <= WORD ==> CursorAfter(Pow(TOP), 0) == 0
  {
    hide Pow, AdvanceCursor;
    UnchangedScanVisitsOnce(k0);
  }

  /** One call of the lost scan while the large table is there alone. */
  lemma LostEarly(v: nat, h: nat, k0: nat, i: nat)
    requires k0 < BITS && v < Pow(TOP) <= WORD && h < Pow(TOP) && Pow(k0) <= WORD
    requires i < Rev(v, TOP) < Rev(h, TOP)
    ensures var s, c := Scanned(h), LostCursor(v, k0, i);
      |Small(s)| <= WORD && Emitted(s, c) == [] && NextCursor(s, c) == LostCursor(v, k0, i + 1)
  {
    hide Low, Rev, Pow, Slot, AdvanceCursor, Emitted, CursorAfter, Push;
    ScannedIsWellFormed(h);
    NothingBefore(h, i);
    OneMoreCursor(Pow(TOP), i);
  }

  /** The cursors after the shrink has begun: those of a scan of the smaller table. */
  lemma LateCursor(v: nat, k0: nat, i: nat)
    requires k0 < BITS && v < Pow(TOP) <= WORD && Pow(k0) <= WORD
    requires 0 <= i - Rev(v, TOP) < Pow(k0) - Rev(Low(v, k0), k0)
    ensures AdvanceCursor(LostCursor(v, k0, i), Pow(k0)) == LostCursor(v, k0, i + 1)
    ensures i == Rev(v, TOP) ==> LostCursor(v, k0, i) == v
    ensures i > Rev(v, TOP) ==>
              LostCursor(v, k0, i) < Pow(k0)
              && Rev(Low(LostCursor(v, k0, i), k0), k0) == Rev(Low(v, k0), k0) + (i - Rev(v, TOP))
  {
    hide Low, Rev, Pow, AdvanceCursor, CursorAfter, Shl;
    var x, j := Rev(Low(v, k0), k0), i - Rev(v, TOP);
    if j == 0 {
      ReachesCursor(v);
      JoinsSmaller(v, k0);
    } else {
      CursorPosition(k0, x + j);
      OneMoreCursor(Pow(k0), x + j);
      OneMoreCursor(Pow(k0), x + j - 1);
      AdvanceIsIndex(CursorAfter(Pow(k0), x + j - 1), k0);
    }
  }

  /** One call of the lost scan after the shrink has begun. */
  lemma LostLate(v: nat, h: nat, k0: nat, k1: nat, i: nat)
    requires k0 < k1 < BITS && v < Pow(TOP) <= WORD && Pow(k0) <= WORD
    requires Low(h, k0) == Low(v, k0) && Low(h, k1) < Low(v, k1)
    requires 0 <= i - Rev(v, TOP) < Pow(k0) - Rev(Low(v, k0), k0)
    ensures var s, c := LoneState(h, k0, k1), LostCursor(v, k0, i);
      |Small(s)| <= WORD && Emitted(s, c) == [] && NextCursor(s, c) == LostCursor(v, k0, i + 1)
    ensures i > Rev(v, TOP) ==> LostCursor(v, k0, i) < Pow(k0)
    ensures i == Rev(v, TOP) ==> LostCursor(v, k0, i) == v
  {
    hide Low, Rev, Pow, AdvanceCursor, Emitted, LostCursor, Small, Large, EmptyBuckets, Push;
    LoneIsWellFormed(h, k0, k1);
    LateCursor(v, k0, i);
    NothingAfter(h, k0, k1, LostCursor(v, k0, i));
  }

  lemma LostScan(v: nat, h: nat, k0: nat, k1: nat) returns (states: seq<State<nat, nat>>, cursors: seq<nat>)
    requires k0 < k1 < BITS && v < Pow(TOP) && h < Pow(TOP)
    requires Rev(v, TOP) < Rev(h, TOP) && Low(h, k0) == Low(v, k0) && Low(h, k1) < Low(v, k1)
    ensures Scan(states, cursors, Identity())
    ensures forall i :: 0 <= i < |states| ==> Lookup(states[i], Identity(), h).Some?
    ensures forall i :: 0 <= i < |states| ==> Emitted(states[i], cursors[i]) == []
    ensures forall i :: 0 <= i < |states| ==>
              !Rehashing(states[i]) || (|Small(states[i])| == Pow(k0) && |Large(states[i])| == Pow(k1)
                                        && (cursors[i] == v || cursors[i] < Pow(k0)))
  {
    hide Low, Rev, Pow, Slot, CursorAfter, AdvanceCursor, Wf, Lookup, Emitted, Scanned, LoneState, Small, Large;
    ScannedIsWellFormed(h);
    LoneIsWellFormed(h, k0, k1);
    PowBits();
    PowMonotonic(k0, BITS);
    var n, x := Rev(v, TOP), Rev(Low(v, k0), k0);
    var m := n + Pow(k0) - x;
    states := seq(m, i => if i < n then Scanned(h) else LoneState(h, k0, k1));
    cursors := seq(m + 1, i requires 0 <= i <= m => LostCursor(v, k0, i));
    CursorsZero(k0);
    ReachesCursor(v);
    forall i | 0 <= i < m
      ensures cursors[i + 1] == NextCursor(states[i], cursors[i])
      ensures Emitted(states[i], cursors[i]) == []
      ensures i <= n || cursors[i] < Pow(k0)
    {
      if i < n { LostEarly(v, h, k0, i); } else { LostLate(v, h, k0, k1, i); }
    }
    SameStates(h, k0, k1);
  }

  ghost predicate AtCursor(s: State<nat, nat>, c: nat, v: nat, k0: nat, k1: nat) {
    Rehashing(s) && c == v && |Small(s)| == Pow(k0) && |Large(s)| == Pow(k1)
  }

  /** If all calls of the scan but those at cursor `v` with these table sizes are safe, then a key
      present at every call is emitted. */
  ghost predicate ScanKeeps(states: seq<State<nat, nat>>, cursors: seq<nat>, key: nat, v: nat, k0: nat, k1: nat) {
    && Scan(states, cursors, Identity())
    && (forall i :: 0 <= i < |states| ==> Lookup(states[i], Identity(), key).Some?)
    && (forall i :: 0 <= i < |states| ==>
          SafeCall(states[i], cursors[i]) || AtCursor(states[i], cursors[i], v, k0, k1))
    ==> exists i :: EmittedAt(states, cursors, key, i)
  }

  lemma AboveOnTop(v: nat, h: nat)
    requires v < Pow(TOP) && h < Pow(TOP) && Rev(v, BITS) < Rev(h, BITS)
    ensures Rev(v, TOP) < Rev(h, TOP)
  {
    hide Rev, Shl, Pow;
    SmallCursor(v, TOP);
    SmallCursor(h, TOP);
    if Rev(h, TOP) <= Rev(v, TOP) { ShlStep(Rev(h, TOP), Rev(v, TOP), 1); }
  }

  /** The condition on cursors is exact for whole scans too: whatever the table sizes and the cursor
      (any that a call can return), calls made there never make a scan miss a key exactly when the
      cursor is safe. */
  lemma SafeScanExact(v: nat, k0: nat, k1: nat)
    requires k0 <= k1 < BITS && v < Pow(TOP)
    ensures SafeCursor(v, Pow(k0), Pow(k1))
       <==> forall states, cursors, key: nat :: ScanKeeps(states, cursors, key, v, k0, k1)
  {
    hide Low, Rev, Pow, SafeCursor, Scan, EmittedAt, Lookup, Small, Large;
    if SafeCursor(v, Pow(k0), Pow(k1)) {
      forall states: seq<State<nat, nat>>, cursors: seq<nat>, key: nat
        ensures ScanKeeps(states, cursors, key, v, k0, k1)
      {
        SafeScanKeeps(states, cursors, key, v, k0, k1);
      }
    } else {
      var h := UnsafeMisses(v, k0, k1);
      if k0 == k1 { assert false; }
      UnsafeScanLoses(v, h, k0, k1);
    }
  }

  lemma SafeScanKeeps(states: seq<State<nat, nat>>, cursors: seq<nat>, key: nat, v: nat, k0: nat, k1: nat)
    requires SafeCursor(v, Pow(k0), Pow(k1))
    ensures ScanKeeps(states, cursors, key, v, k0, k1)
  {
    hide Pow, SafeCursor, EmittedAt, Lookup, Small, Large;
    if && Scan(states, cursors, Identity())
       && (forall i :: 0 <= i < |states| ==> Lookup(states[i], Identity(), key).Some?)
       && forall i :: 0 <= i < |states| ==>
            SafeCall(states[i], cursors[i]) || AtCursor(states[i], cursors[i], v, k0, k1)
    {
      ScanEmitsEveryKey(states, cursors, Identity(), key);
    }
  }

  lemma UnsafeScanLoses(v: nat, h: nat, k0: nat, k1: nat)
    requires k0 < k1 < BITS && v < Pow(TOP) && h < Pow(k1) && Rev(v, BITS) < Rev(h, BITS)
    requires Low(h, k0) == Low(v, k0) && Low(h, k1) < Low(v, k1)
    ensures exists states, cursors, key: nat :: !ScanKeeps(states, cursors, key, v, k0, k1)
  {
    hide Low, Rev, Pow, SafeCall, Lookup, Emitted, Small, Wf;
    PowMonotonic(k1, TOP);
    AboveOnTop(v, h);
    var states, cursors := LostScan(v, h, k0, k1);
    forall i | 0 <= i < |states|
      ensures SafeCall(states[i], cursors[i]) || AtCursor(states[i], cursors[i], v, k0, k1)
    {
      if !Rehashing(states[i]) {
        NotRehashingIsSafe(states[i], cursors[i]);
      } else if cursors[i] != v {
        PresentMeansUsed(states[i], Identity(), h);
        ShapeOf(states[i], Identity());
        IndexIsSafe(states[i], cursors[i]);
      }
    }
    assert !exists i :: EmittedAt(states, cursors, h, i);
    assert !ScanKeeps(states, cursors, h, v, k0, k1);
  }
}
