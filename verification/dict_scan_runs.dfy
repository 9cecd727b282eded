/** Scans over whole runs of a dictionary: calls of dictScan among the operations that change the
    table in between. Every state of a run follows from the state at its start. */
module DictScanRuns {
  import opened DictSpec
  import opened DictRefinement
  import opened Word
  import opened DictScan

  /** `dictReplace` of a key that is there is an `AddKey` that fails and a `SetFound`. */
  datatype Event<K, V> =
    | Call
    | AddKey(key: K, val: V, canResize: bool)
    | FindKey(key: K)
    | SetFound(key: K, val: V)
    | DeleteKey(key: K)
    | Migrate
    | Shrink(canResize: bool)

  /** `size` is the size of the smaller table at the last call, 0 before the first one. */
  datatype Session<K, V> = Session(s: State<K, V>, contents: map<K, V>, serial: nat, cursor: nat, size: nat,
                                   emitted: seq<Entry<K, V>>)

  function Overwritten<K(==), V>(s: State<K, V>, hash: K -> nat, key: K, val: V): State<K, V> {
    if LookupIn(s.h0.buckets, hash, key).Some? then
      s.(h0 := s.h0.(buckets := SetIn(s.h0.buckets, hash, key, val)))
    else if LookupIn(s.h1.buckets, hash, key).Some? then
      s.(h1 := s.h1.(buckets := SetIn(s.h1.buckets, hash, key, val)))
    else s
  }

  lemma SmallFits<K(!new), V>(s: State<K, V>)
    requires Shape(s)
    ensures |Small(s)| <= WORD
  {
    hide Pow;
    if s.h0.buckets != [] {
      var k0, k1 := Exponents(s);
      PowMonotonic(k0, BITS);
      PowBits();
    }
  }

  ghost function Step<K(!new), V>(z: Session<K, V>, hash: K -> nat, ev: Event<K, V>): Session<K, V>
    requires Shape(z.s)
  {
    match ev
    case Call =>
      SmallFits(z.s);
      z.(cursor := NextCursor(z.s, z.cursor), size := |Small(z.s)|, emitted := z.emitted + Emitted(z.s, z.cursor))
    case AddKey(key, val, canResize) =>
      var (s, ok) := Add(z.s, hash, canResize, Entry(z.serial, key, val));
      z.(s := s, serial := z.serial + 1, contents := if ok then z.contents[key := val] else z.contents)
    case FindKey(key) =>
      if z.s.h0.buckets == [] then z else z.(s := RehashStep(z.s, hash))
    case SetFound(key, val) =>
      if key !in z.contents then z
      else z.(s := Overwritten(RehashStep(z.s, hash), hash, key, val), contents := z.contents[key := val])
    case DeleteKey(key) =>
      z.(s := Delete(z.s, hash, key).0, contents := z.contents - {key})
    case Migrate =>
      if Rehashing(z.s) then z.(s := RehashOnce(z.s, hash)) else z
    case Shrink(canResize) =>
      z.(s := Resize(z.s, canResize).0)
  }

  ghost predicate Legal<K, V>(z: Session<K, V>, ev: Event<K, V>) {
    ev.AddKey? ==> 2 * |z.contents| < LONG_MAX
  }

  ghost predicate Run<K(!new), V>(zs: seq<Session<K, V>>, events: seq<Event<K, V>>, hash: K -> nat) {
    && |zs| == |events| + 1
    && forall i :: 0 <= i < |events| ==>
         Legal(zs[i], events[i]) && (Shape(zs[i].s) ==> zs[i + 1] == Step(zs[i], hash, events[i]))
  }

  ghost predicate Begins<K(!new), V>(z: Session<K, V>, hash: K -> nat) {
    Inv(z.s, hash, z.contents) && z.cursor == 0 && z.size == 0 && z.emitted == []
  }

  /** The call does not find a migration that involves a table smaller than the call before did. */
  ghost predicate NotMidShrink<K, V>(z: Session<K, V>, ev: Event<K, V>) {
    ev.Call? && Rehashing(z.s) ==> z.size <= |Small(z.s)|
  }

  ghost predicate HasEmitted<K, V>(z: Session<K, V>, key: K) {
    exists e :: e in z.emitted && e.key == key
  }

  // ---------------------------------------------------------------- every state is well formed

  lemma OverwriteKeepsMap<K(!new), V>(s: State<K, V>, hash: K -> nat, key: K, val: V, m: map<K, V>)
    requires Inv(s, hash, m) && key in m
    ensures Inv(Overwritten(s, hash, key, val), hash, m[key := val])
  {
    hide Inv, Slot, LookupIn;
    InvFacts(s, hash, m, key);
    if LookupIn(s.h0.buckets, hash, key).Some? {
      SetFirstIsUpdate(s, hash, key, val, m);
    } else {
      SetSecondIsUpdate(s, hash, key, val, m);
    }
  }

  lemma StepKeepsMap<K(!new), V>(z: Session<K, V>, hash: K -> nat, ev: Event<K, V>)
    requires Inv(z.s, hash, z.contents) && Legal(z, ev)
    ensures Shape(z.s) && Inv(Step(z, hash, ev).s, hash, Step(z, hash, ev).contents)
  {
    hide Inv, Shape, Emitted, NextCursor, Add, Delete, RehashStep, RehashOnce, Overwritten, Resize;
    InvShape(z.s, hash, z.contents);
    match ev
    case Call =>
    case AddKey(key, val, canResize) =>
      AddIsMapInsert(z.s, hash, canResize, Entry(z.serial, key, val), z.contents);
    case FindKey(_) =>
      RehashStepKeepsMap(z.s, hash, z.contents);
    case SetFound(key, val) =>
      RehashStepKeepsMap(z.s, hash, z.contents);
      if key in z.contents { OverwriteKeepsMap(RehashStep(z.s, hash), hash, key, val, z.contents); }
    case DeleteKey(key) =>
      DeleteIsMapRemove(z.s, hash, key, z.contents);
    case Migrate =>
      if Rehashing(z.s) { RehashOnceKeepsMap(z.s, hash, z.contents); }
    case Shrink(canResize) =>
      ResizeKeepsMap(z.s, canResize, hash, z.contents);
  }

  // ---------------------------------------------------------------- one key through a run

  /** The key has been emitted, or the scan has not begun, or it has not come past the key. */
  ghost predicate NotPast<K, V>(z: Session<K, V>, hash: K -> nat, key: K) {
    || HasEmitted(z, key)
    || (z.size == 0 && z.cursor == 0)
    || (0 < z.cursor < z.size && Rev(z.cursor, BITS) <= Rev(hash(key), BITS))
  }

  lemma CallKeepsNotPast<K(!new), V>(z: Session<K, V>, hash: K -> nat, key: K)
    requires Inv(z.s, hash, z.contents) && key in z.contents
    requires NotPast(z, hash, key) && NotMidShrink(z, Call)
    ensures Shape(z.s)
    ensures var r := Step(z, hash, Call);
      HasEmitted(r, key) || (0 < r.cursor < r.size && Rev(r.cursor, BITS) <= Rev(hash(key), BITS))
  {
    hide Shape, WellFormed, Apart, Lookup, Rev, SafeCall, Emitted, NextCursor, Small;
    InvShape(z.s, hash, z.contents);
    SmallFits(z.s);
    PresentMeansUsed(z.s, hash, key);
    SmallIsNotEmpty(z.s);
    NextIsIndex(z.s, z.cursor, hash, key);
    var r := Step(z, hash, Call);
    if HasEmitted(z, key) {
      var e :| e in z.emitted && e.key == key;
      assert e in r.emitted;
    } else {
      RevZero();
      if Rehashing(z.s) { IndexIsSafe(z.s, z.cursor); } else { NotRehashingIsSafe(z.s, z.cursor); }
      ScanStep(z.s, z.cursor, hash, key);
      if e :| e in Emitted(z.s, z.cursor) && e.key == key {
        assert e in r.emitted;
      }
    }
  }

  lemma OtherSteps<K(!new), V>(z: Session<K, V>, hash: K -> nat, ev: Event<K, V>, key: K)
    requires Shape(z.s) && !ev.Call? && NotPast(z, hash, key)
    ensures NotPast(Step(z, hash, ev), hash, key)
  {
    hide Rev, Add, Delete, RehashStep, RehashOnce, Overwritten, Resize;
  }

  lemma {:induction false} RunNotPast<K(!new), V>(zs: seq<Session<K, V>>, events: seq<Event<K, V>>, hash: K -> nat,
                                                  key: K, n: nat)
    requires Run(zs, events, hash) && Begins(zs[0], hash) && n < |zs|
    requires forall i :: 0 <= i < n ==> key in zs[i].contents && NotMidShrink(zs[i], events[i])
    ensures Inv(zs[n].s, hash, zs[n].contents) && NotPast(zs[n], hash, key)
  {
    hide Inv, Step, Shape, Legal, NotMidShrink, HasEmitted, Rev;
    if n > 0 {
      RunNotPast(zs, events, hash, key, n - 1);
      StepKeepsMap(zs[n - 1], hash, events[n - 1]);
      if events[n - 1].Call? {
        CallKeepsNotPast(zs[n - 1], hash, key);
      } else {
        OtherSteps(zs[n - 1], hash, events[n - 1], key);
      }
    }
  }

  /** A scan from cursor 0 back to 0 in the middle of any run of the dictionary emits every key
      that is there all the time, whatever is added, overwritten, deleted or migrated between the
      calls, provided that no call falls into a migration with a table smaller than before. */
  lemma ScanInRunEmits<K(!new), V>(zs: seq<Session<K, V>>, events: seq<Event<K, V>>, hash: K -> nat, key: K, n: nat)
    requires Run(zs, events, hash) && Begins(zs[0], hash) && 0 < n < |zs|
    requires events[n - 1] == Call && zs[n].cursor == 0
    requires forall i :: 0 <= i < n ==> key in zs[i].contents && NotMidShrink(zs[i], events[i])
    ensures HasEmitted(zs[n], key)
  {
    hide Inv, Step, Shape, Legal, NotMidShrink, HasEmitted, Rev;
    RunNotPast(zs, events, hash, key, n - 1);
    InvShape(zs[n - 1].s, hash, zs[n - 1].contents);
    CallKeepsNotPast(zs[n - 1], hash, key);
  }

  // ---------------------------------------------------------------- growth is always fine

  lemma OnceGrows<K(!new), V>(s: State<K, V>, hash: K -> nat)
    requires Shape(s)
    ensures Rehashing(s) ==> |Small(RehashOnce(s, hash))| >= |Small(s)|
  {
    hide Pow, Slot, Count, MoveChain;
    if Rehashing(s) && s.h0.used != 0 {
      NonEmptyExists(s.h0.buckets, FirstNonEmpty(s.h0.buckets, s.rehashidx));
      var r := RehashOnce(s, hash);
      assert |r.h0.buckets| == |s.h0.buckets| && |r.h1.buckets| == |s.h1.buckets|;
    }
  }

  lemma RehashGrows<K(!new), V>(s: State<K, V>, hash: K -> nat, m: map<K, V>)
    requires Inv(s, hash, m)
    ensures Inv(RehashStep(s, hash), hash, m)
    ensures |Small(RehashStep(s, hash))| >= |Small(s)|
  {
    hide Inv, RehashOnce;
    InvShape(s, hash, m);
    OnceGrows(s, hash);
    RehashStepKeepsMap(s, hash, m);
  }

  lemma AddGrows<K(!new), V>(s: State<K, V>, hash: K -> nat, canResize: bool, e: Entry<K, V>, m: map<K, V>)
    requires Inv(s, hash, m) && 2 * |m| < LONG_MAX
    ensures Shape(s) && |Small(Add(s, hash, canResize, e).0)| >= |Small(s)|
  {
    hide Inv, Slot, RehashStep, NextPower;
    InvShape(s, hash, m);
    RehashGrows(s, hash, m);
    var s1 := RehashStep(s, hash);
    InvShape(s1, hash, m);
    ExpandGrows(s1, canResize);
    PlaceGrows(ExpandIfNeeded(s1, canResize).0, hash, e);
  }

  lemma ExpandGrows<K(!new), V>(s: State<K, V>, canResize: bool)
    requires Shape(s) && 2 * s.h0.used < LONG_MAX
    ensures |Small(ExpandIfNeeded(s, canResize).0)| >= |Small(s)|
  {
    hide NextPowerFrom;
  }

  lemma PlaceGrows<K, V>(s: State<K, V>, hash: K -> nat, e: Entry<K, V>)
    ensures Allocated(s) ==> |Small(Place(s, hash, e))| == |Small(s)|
  {
  }

  lemma DeleteSize<K, V>(s: State<K, V>, hash: K -> nat, key: K)
    requires Shape(s)
    ensures var r := Delete(s, hash, key).0; |Small(r)| == |Small(s)| || |Small(r)| == |Small(RehashStep(s, hash))|
  {
    hide Shape, RehashStep, LookupIn;
  }

  lemma OverwriteSize<K, V>(s: State<K, V>, hash: K -> nat, key: K, val: V)
    ensures |Small(Overwritten(s, hash, key, val))| == |Small(s)|
  {
  }

  /** Adds, deletes, finds and migration never make the smaller table smaller: only dictResize
      may, by starting to shrink. */
  lemma SmallGrows<K(!new), V>(z: Session<K, V>, hash: K -> nat, ev: Event<K, V>)
    requires Inv(z.s, hash, z.contents) && Legal(z, ev) && !ev.Shrink?
    ensures Shape(z.s) && |Small(Step(z, hash, ev).s)| >= |Small(z.s)|
  {
    hide Inv, Shape, Small, Emitted, NextCursor, Add, RehashStep, RehashOnce, Overwritten, Delete;
    InvShape(z.s, hash, z.contents);
    RehashGrows(z.s, hash, z.contents);
    match ev
    case Call =>
    case AddKey(key, val, canResize) =>
      AddGrows(z.s, hash, canResize, Entry(z.serial, key, val), z.contents);
    case FindKey(_) =>
    case SetFound(key, val) =>
      OverwriteSize(RehashStep(z.s, hash), hash, key, val);
    case DeleteKey(key) =>
      DeleteSize(z.s, hash, key);
    case Migrate =>
      OnceGrows(z.s, hash);
  }

  lemma {:induction false} SizeBelowSmall<K(!new), V>(zs: seq<Session<K, V>>, events: seq<Event<K, V>>,
                                                      hash: K -> nat, n: nat)
    requires Run(zs, events, hash) && Begins(zs[0], hash) && n < |zs|
    requires forall i :: 0 <= i < n && events[i].Shrink? ==> |Small(zs[i + 1].s)| >= |Small(zs[i].s)|
    ensures Inv(zs[n].s, hash, zs[n].contents) && zs[n].size <= |Small(zs[n].s)|
  {
    hide Inv, Shape, Legal, Small, Emitted, NextCursor, Add, Delete, RehashStep, RehashOnce, Overwritten, Resize;
    if n > 0 {
      SizeBelowSmall(zs, events, hash, n - 1);
      StepKeepsMap(zs[n - 1], hash, events[n - 1]);
      if !events[n - 1].Shrink? { SmallGrows(zs[n - 1], hash, events[n - 1]); }
    }
  }

  lemma EnoughSize<K, V>(z: Session<K, V>, ev: Event<K, V>)
    requires z.size <= |Small(z.s)|
    ensures NotMidShrink(z, ev)
  {
  }

  /** The guarantee of dictScan: as long as no shrink begins, a scan from 0 back to 0 emits every
      key that is there all the time, whatever stage of a growth its calls fall into. */
  lemma GrowingScanEmits<K(!new), V>(zs: seq<Session<K, V>>, events: seq<Event<K, V>>, hash: K -> nat, key: K, n: nat)
    requires Run(zs, events, hash) && Begins(zs[0], hash) && 0 < n < |zs|
    requires events[n - 1] == Call && zs[n].cursor == 0
    requires forall i :: 0 <= i < n ==> key in zs[i].contents
    requires forall i :: 0 <= i < n && events[i].Shrink? ==> |Small(zs[i + 1].s)| >= |Small(zs[i].s)|
    ensures HasEmitted(zs[n], key)
  {
    hide Inv, Step, Shape, Legal, HasEmitted, Small, NotMidShrink;
    forall i | 0 <= i < n ensures NotMidShrink(zs[i], events[i]) {
      SizeBelowSmall(zs, events, hash, i);
      EnoughSize(zs[i], events[i]);
    }
    ScanInRunEmits(zs, events, hash, key, n);
  }

  // ---------------------------------------------------------------- every scan ends

  lemma RunLength<K(!new), V>(zs: seq<Session<K, V>>, events: seq<Event<K, V>>, hash: K -> nat)
    requires Run(zs, events, hash)
    ensures |zs| == |events| + 1
  {
  }

  lemma RunAt<K(!new), V>(zs: seq<Session<K, V>>, events: seq<Event<K, V>>, hash: K -> nat, i: nat)
    requires Run(zs, events, hash) && i < |events| && Shape(zs[i].s)
    ensures |zs| == |events| + 1 && zs[i + 1] == Step(zs[i], hash, events[i])
  {
    hide Step, Shape;
  }

  lemma {:induction false} RunIsSound<K(!new), V>(zs: seq<Session<K, V>>, events: seq<Event<K, V>>, hash: K -> nat,
                                                  n: nat)
    requires Run(zs, events, hash) && Begins(zs[0], hash) && n < |zs|
    ensures Inv(zs[n].s, hash, zs[n].contents) && Shape(zs[n].s)
  {
    hide Inv, Step, Shape, Legal;
    if n > 0 {
      RunIsSound(zs, events, hash, n - 1);
      StepKeepsMap(zs[n - 1], hash, events[n - 1]);
    }
    InvShape(zs[n].s, hash, zs[n].contents);
  }

  lemma CallStep<K(!new), V>(z: Session<K, V>, hash: K -> nat)
    requires Shape(z.s)
    ensures |Small(z.s)| <= WORD
    ensures Step(z, hash, Call).s == z.s && Step(z, hash, Call).cursor == NextCursor(z.s, z.cursor)
  {
    SmallFits(z.s);
  }

  lemma {:induction false} CallsRepeat<K(!new), V>(zs: seq<Session<K, V>>, events: seq<Event<K, V>>, hash: K -> nat,
                                                   s: State<K, V>, from: nat, j: nat)
    requires Run(zs, events, hash) && |zs| == |events| + 1 && from + j < |zs|
    requires Shape(s) && |Small(s)| <= WORD && zs[from].s == s
    requires forall i :: from <= i < from + j ==> events[i].Call?
    ensures zs[from + j].s == s && zs[from + j].cursor == Repeated(s, zs[from].cursor, j)
  {
    hide Shape, Small, Step, NextCursor, Run, Repeated;
    if j == 0 {
      RepeatedOnce(s, zs[from].cursor, 0);
    } else {
      CallsRepeat(zs, events, hash, s, from, j - 1);
      RunAt(zs, events, hash, from + j - 1);
      CallStep(zs[from + j - 1], hash);
      RepeatedOnce(s, zs[from].cursor, j - 1);
    }
  }

  /** Whatever has happened before, all keys deleted included: calls with nothing in between end the
      scan within as many calls as the smaller table has buckets, and at once if nothing is stored. */
  lemma CallsEnd<K(!new), V>(zs: seq<Session<K, V>>, events: seq<Event<K, V>>, hash: K -> nat, from: nat, calls: nat)
    requires Run(zs, events, hash) && Begins(zs[0], hash) && from + calls < |zs|
    requires forall i :: from <= i < from + calls ==> events[i].Call?
    requires calls >= if zs[from].contents == map[] then 1 else |Small(zs[from].s)|
    ensures exists i :: from < i <= from + calls && zs[i].cursor == 0
  {
    hide Inv, Step, Shape, Legal, Small, Begins, Repeated;
    RunIsSound(zs, events, hash, from);
    InvShape(zs[from].s, hash, zs[from].contents);
    SmallFits(zs[from].s);
    var j := ScanEnds(zs[from].s, zs[from].cursor);
    NoneUsed(zs[from].contents);
    RunLength(zs, events, hash);
    CallsRepeat(zs, events, hash, zs[from].s, from, j);
    assert zs[from + j].cursor == 0;
  }

  lemma NoneUsed<K, V>(m: map<K, V>)
    ensures m == map[] <==> |m| == 0
  {
  }
}
