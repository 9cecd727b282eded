/** Every operation of the incremental hash table acts on the map it represents: rehash steps
    and table expansions leave the map alone, add and delete change one key, and all of them keep
    the structural invariant. */
module DictRefinement {
  import opened DictSpec

  // ---------------------------------------------------------------- powers of two

  lemma {:induction false} NextPowerFromIsPower(size: nat, k: nat)
    requires Pow(63) >= size && k < 64
    ensures PowerOfTwo(NextPowerFrom(size, Pow(k)))
    decreases size - Pow(k)
  {
    if Pow(k) < size {
      assert Pow(k + 1) == 2 * Pow(k);
      assert k != 63;
      NextPowerFromIsPower(size, k + 1);
    }
  }

  lemma Pow63()
    ensures Pow(63) == LONG_MAX + 1
  {
    PowDoubles(0, 1);
    PowDoubles(7, 128);
    PowDoubles(14, 0x4000);
    PowDoubles(21, 0x20_0000);
    PowDoubles(28, 0x1000_0000);
    PowDoubles(35, 0x8_0000_0000);
    PowDoubles(42, 0x400_0000_0000);
    PowDoubles(49, 0x2_0000_0000_0000);
    PowDoubles(56, 0x100_0000_0000_0000);
  }

  lemma PowDoubles(k: nat, p: nat)
    requires Pow(k) == p
    ensures Pow(k + 7) == 128 * p
  {
    assert Pow(k + 2) == 2 * Pow(k + 1) == 4 * Pow(k);
    assert Pow(k + 4) == 2 * Pow(k + 3) == 4 * Pow(k + 2);
    assert Pow(k + 6) == 2 * Pow(k + 5) == 4 * Pow(k + 4);
  }

  /** Capacities are powers of two, hold the request, and are not twice larger than needed. */
  lemma NextPowerIsLeast(size: nat)
    requires size < LONG_MAX
    ensures PowerOfTwo(NextPower(size))
    ensures NextPower(size) >= size && NextPower(size) >= INITIAL_SIZE
    ensures NextPower(size) == INITIAL_SIZE || NextPower(size) < 2 * size
  {
    assert Pow(2) == 2 * Pow(1) == 4 by { assert Pow(1) == 2 * Pow(0); }
    Pow63();
    NextPowerFromIsPower(size, 2);
    NextPowerFromTight(size, INITIAL_SIZE);
  }

  lemma {:induction false} NextPowerFromTight(size: nat, i: nat)
    requires i > 0
    ensures NextPowerFrom(size, i) >= i
    ensures NextPowerFrom(size, i) == i || NextPowerFrom(size, i) < 2 * size
    decreases size - i
  {
    if i < size {
      NextPowerFromTight(size, 2 * i);
    }
  }

  // ---------------------------------------------------------------- chains

  lemma {:induction false} FindAt<K, V>(c: Chain<K, V>, i: nat)
    requires i < |c| && DistinctKeys(c)
    ensures Find(c, c[i].key) == Some(c[i])
  {
    if i > 0 {
      assert c[0].key != c[i].key;
      assert c[1..][i - 1] == c[i];
      FindAt(c[1..], i - 1);
    }
  }

  lemma DistinctTail<K, V>(c: Chain<K, V>)
    requires c != [] && DistinctKeys(c)
    ensures DistinctKeys(c[1..])
    ensures forall e :: e in c[1..] ==> e.key != c[0].key
  {
    forall e | e in c[1..] ensures e.key != c[0].key {
      var j :| 0 <= j < |c[1..]| && c[1..][j] == e;
      assert c[j + 1] == e;
    }
  }

  lemma {:induction false} RemoveDistinct<K, V>(c: Chain<K, V>, gone: K)
    requires DistinctKeys(c)
    ensures DistinctKeys(Remove(c, gone))
    ensures |Remove(c, gone)| == if Find(c, gone).Some? then |c| - 1 else |c|
  {
    if c != [] {
      DistinctTail(c);
      RemoveDistinct(c[1..], gone);
    }
  }

  lemma {:induction false} RemoveFind<K, V>(c: Chain<K, V>, gone: K, key: K)
    requires DistinctKeys(c)
    ensures Find(Remove(c, gone), key) == if key == gone then None else Find(c, key)
  {
    if c != [] {
      DistinctTail(c);
      RemoveFind(c[1..], gone, key);
      if c[0].key != gone {
        assert ([c[0]] + Remove(c[1..], gone))[1..] == Remove(c[1..], gone);
      }
    }
  }

  /** What finding, unlinking and overwriting amount to at the position a walk stops. */
  lemma AtFirst<K, V>(c: Chain<K, V>, i: nat, key: K, val: Option<V>)
    requires IsFirst(c, i, key)
    ensures Find(c, key) == Some(c[i])
    ensures Remove(c, key) == c[..i] + c[i + 1..]
    ensures val.Some? ==> SetVal(c, key, val.value) == c[i := c[i].(val := val.value)]
  {
    FindAtFirst(c, i, key);
    RemoveAtFirst(c, i, key);
    if val.Some? { SetAtFirst(c, i, key, val.value); }
  }

  lemma {:induction false} FindAtFirst<K, V>(c: Chain<K, V>, i: nat, key: K)
    requires IsFirst(c, i, key)
    ensures Find(c, key) == Some(c[i])
  {
    if i > 0 {
      FindAtFirst(c[1..], i - 1, key);
    }
  }

  lemma {:induction false} RemoveAtFirst<K, V>(c: Chain<K, V>, i: nat, key: K)
    requires IsFirst(c, i, key)
    ensures Remove(c, key) == c[..i] + c[i + 1..]
  {
    if i > 0 {
      var t := c[1..];
      RemoveAtFirst(t, i - 1, key);
      assert t[..i - 1] == c[1..i] && t[i..] == c[i + 1..];
      assert [c[0]] + c[1..i] == c[..i];
    }
  }

  lemma {:induction false} SetAtFirst<K, V>(c: Chain<K, V>, i: nat, key: K, val: V)
    requires IsFirst(c, i, key)
    ensures SetVal(c, key, val) == c[i := c[i].(val := val)]
  {
    if i > 0 {
      var t := c[1..];
      SetAtFirst(t, i - 1, key, val);
      assert [c[0]] + t[i - 1 := t[i - 1].(val := val)] == c[i := c[i].(val := val)];
    }
  }

  // ---------------------------------------------------------------- one table

  lemma PushLookup<K(!new), V>(b: Buckets<K, V>, hash: K -> nat, e: Entry<K, V>)
    requires b != [] && WellFormed(b, hash)
    requires LookupIn(b, hash, e.key).None?
    ensures WellFormed(Push(b, hash, e), hash)
    ensures Count(Push(b, hash, e)) == Count(b) + 1
    ensures forall key :: LookupIn(Push(b, hash, e), hash, key)
                          == if key == e.key then Some(e) else LookupIn(b, hash, key)
  {
    var i := Slot(hash(e.key), |b|);
    CountUpdate(b, i, [e] + b[i]);
    assert forall x :: x in b[i] ==> x.key != e.key;
    forall key
      ensures LookupIn(Push(b, hash, e), hash, key) == if key == e.key then Some(e) else LookupIn(b, hash, key)
    {
      assert ([e] + b[i])[1..] == b[i];
    }
  }

  lemma RemoveLookup<K(!new), V>(b: Buckets<K, V>, hash: K -> nat, gone: K)
    requires b != [] && WellFormed(b, hash)
    ensures WellFormed(RemoveIn(b, hash, gone), hash)
    ensures Count(RemoveIn(b, hash, gone)) == if LookupIn(b, hash, gone).Some? then Count(b) - 1 else Count(b)
    ensures forall key :: LookupIn(RemoveIn(b, hash, gone), hash, key)
                          == if key == gone then None else LookupIn(b, hash, key)
  {
    var i := Slot(hash(gone), |b|);
    RemoveDistinct(b[i], gone);
    CountUpdate(b, i, Remove(b[i], gone));
    forall key
      ensures LookupIn(RemoveIn(b, hash, gone), hash, key) == if key == gone then None else LookupIn(b, hash, key)
    {
      RemoveFind(b[i], gone, key);
    }
  }

  lemma EmptyLookup<K(!new), V>(n: nat, hash: K -> nat)
    ensures WellFormed(EmptyBuckets<K, V>(n), hash)
    ensures Count(EmptyBuckets<K, V>(n)) == 0
    ensures forall key :: LookupIn(EmptyBuckets<K, V>(n), hash, key).None?
  {
    AllEmptyCount(EmptyBuckets<K, V>(n));
  }

  /** Moving a chain adds exactly its nodes to the target table. */
  lemma {:induction false} MoveChainLookup<K(!new), V>(c: Chain<K, V>, b: Buckets<K, V>, hash: K -> nat)
    requires b != [] && WellFormed(b, hash)
    requires DistinctKeys(c)
    requires forall e :: e in c ==> LookupIn(b, hash, e.key).None?
    ensures WellFormed(MoveChain(c, b, hash), hash)
    ensures Count(MoveChain(c, b, hash)) == Count(b) + |c|
    ensures forall key :: LookupIn(MoveChain(c, b, hash), hash, key)
                          == if Find(c, key).Some? then Find(c, key) else LookupIn(b, hash, key)
    decreases |c|
  {
    if c != [] {
      var b' := Push(b, hash, c[0]);
      PushLookup(b, hash, c[0]);
      forall e | e in c[1..] ensures LookupIn(b', hash, e.key).None? {
        var j :| 0 <= j < |c[1..]| && c[1..][j] == e;
        assert c[j + 1] == e && c[0].key != e.key;
      }
      MoveChainLookup(c[1..], b', hash);
      assert Find(c[1..], c[0].key).None?;
    }
  }

  /** A key found in bucket `i` of a table can only be one whose hash selects bucket `i`. */
  lemma ClearBucketLookup<K(!new), V>(b: Buckets<K, V>, hash: K -> nat, i: nat)
    requires i < |b| && WellFormed(b, hash)
    ensures WellFormed(b[i := []], hash)
    ensures Count(b[i := []]) == Count(b) - |b[i]|
    ensures forall key ::
              LookupIn(b, hash, key)
              == if Find(b[i], key).Some? then Find(b[i], key) else LookupIn(b[i := []], hash, key)
    ensures forall key :: Find(b[i], key).Some? ==> LookupIn(b[i := []], hash, key).None?
  {
    CountUpdate(b, i, []);
  }

  // ---------------------------------------------------------------- whole states

  lemma RepresentsSame<K(!new), V>(s: State<K, V>, r: State<K, V>, hash: K -> nat, m: map<K, V>)
    requires Represents(s, hash, m)
    requires forall key :: Lookup(r, hash, key) == Lookup(s, hash, key)
    ensures Represents(r, hash, m)
  {
  }

  lemma RepresentsInsert<K(!new), V>(s: State<K, V>, r: State<K, V>, hash: K -> nat, e: Entry<K, V>, m: map<K, V>)
    requires Represents(s, hash, m)
    requires forall key :: Lookup(r, hash, key) == if key == e.key then Some(e) else Lookup(s, hash, key)
    ensures Represents(r, hash, m[e.key := e.val])
  {
  }

  lemma RepresentsRemove<K(!new), V>(s: State<K, V>, r: State<K, V>, hash: K -> nat, gone: K, m: map<K, V>)
    requires Represents(s, hash, m)
    requires forall key :: Lookup(r, hash, key) == if key == gone then None else Lookup(s, hash, key)
    ensures Represents(r, hash, m - {gone})
  {
  }

  // ---------------------------------------------------------------- both tables

  /** Moving bucket `i` of the first table to the second changes no lookup. */
  lemma MigrateLookup<K(!new), V>(b0: Buckets<K, V>, b1: Buckets<K, V>, hash: K -> nat, i: nat)
    requires i < |b0| && b1 != []
    requires WellFormed(b0, hash) && WellFormed(b1, hash) && Apart(b0, b1, hash)
    ensures var (r0, r1) := (b0[i := []], MoveChain(b0[i], b1, hash));
      && WellFormed(r0, hash) && WellFormed(r1, hash) && Apart(r0, r1, hash)
      && Count(r0) == Count(b0) - |b0[i]| && Count(r1) == Count(b1) + |b0[i]|
      && forall key :: Lookup2(r0, r1, hash, key) == Lookup2(b0, b1, hash, key)
  {
    var c := b0[i];
    ClearBucketLookup(b0, hash, i);
    forall e | e in c ensures LookupIn(b1, hash, e.key).None? {
      var j :| 0 <= j < |c| && c[j] == e;
      FindAt(c, j);
      assert LookupIn(b0, hash, e.key).Some?;
    }
    MoveChainLookup(c, b1, hash);
  }

  lemma PushApart<K(!new), V>(b0: Buckets<K, V>, b1: Buckets<K, V>, hash: K -> nat, e: Entry<K, V>)
    requires WellFormed(b0, hash) && WellFormed(b1, hash) && Apart(b0, b1, hash)
    requires Lookup2(b0, b1, hash, e.key).None?
    ensures b0 != [] ==>
      && Apart(Push(b0, hash, e), b1, hash)
      && forall key ::
           Lookup2(Push(b0, hash, e), b1, hash, key)
           == if key == e.key then Some(e) else Lookup2(b0, b1, hash, key)
    ensures b1 != [] ==>
      && Apart(b0, Push(b1, hash, e), hash)
      && forall key ::
           Lookup2(b0, Push(b1, hash, e), hash, key)
           == if key == e.key then Some(e) else Lookup2(b0, b1, hash, key)
  {
    if b0 != [] { PushLookup(b0, hash, e); }
    if b1 != [] { PushLookup(b1, hash, e); }
  }

  lemma RemoveApart<K(!new), V>(b0: Buckets<K, V>, b1: Buckets<K, V>, hash: K -> nat, gone: K)
    requires WellFormed(b0, hash) && WellFormed(b1, hash) && Apart(b0, b1, hash)
    ensures LookupIn(b0, hash, gone).Some? ==>
      && Apart(RemoveIn(b0, hash, gone), b1, hash)
      && forall key ::
           Lookup2(RemoveIn(b0, hash, gone), b1, hash, key)
           == if key == gone then None else Lookup2(b0, b1, hash, key)
    ensures LookupIn(b1, hash, gone).Some? ==>
      && Apart(b0, RemoveIn(b1, hash, gone), hash)
      && forall key ::
           Lookup2(b0, RemoveIn(b1, hash, gone), hash, key)
           == if key == gone then None else Lookup2(b0, b1, hash, key)
  {
    assert LookupIn(b0, hash, gone).None? || LookupIn(b1, hash, gone).None?;
    if b0 != [] { RemoveLookup(b0, hash, gone); }
    if b1 != [] { RemoveLookup(b1, hash, gone); }
  }

  lemma FirstEmptyApart<K(!new), V>(b0: Buckets<K, V>, b1: Buckets<K, V>, hash: K -> nat)
    requires Count(b0) == 0
    ensures Apart(b1, [], hash) && WellFormed<K, V>([], hash)
    ensures forall key :: Lookup2(b1, [], hash, key) == Lookup2(b0, b1, hash, key)
  {
    AllEmptyCount(b0);
    assert forall key :: LookupIn(b0, hash, key).None?;
  }

  // ---------------------------------------------------------------- operations

  lemma InvShape<K(!new), V>(s: State<K, V>, hash: K -> nat, m: map<K, V>)
    requires Inv(s, hash, m)
    ensures Shape(s) && |m| == s.h0.used + s.h1.used
  {
  }

  /** A step that leaves the migration unfinished advances past at least one bucket. */
  lemma RehashOnceProgress<K(!new), V>(s: State<K, V>, hash: K -> nat)
    requires Shape(s) && Rehashing(s)
    ensures var r := RehashOnce(s, hash);
      Rehashing(r) ==> r.rehashidx > s.rehashidx && |r.h0.buckets| == |s.h0.buckets|
  {
    if s.h0.used != 0 {
      NonEmptyExists(s.h0.buckets, FirstNonEmpty(s.h0.buckets, s.rehashidx));
    }
  }

  lemma InvValue<K(!new), V>(s: State<K, V>, hash: K -> nat, m: map<K, V>, key: K)
    requires Inv(s, hash, m)
    ensures key in m ==> Lookup(s, hash, key).Some? && Lookup(s, hash, key).value.val == m[key]
  {
  }

  lemma InvFacts<K(!new), V>(s: State<K, V>, hash: K -> nat, m: map<K, V>, key: K)
    requires Inv(s, hash, m)
    ensures Shape(s)
    ensures key in m <==> Lookup(s, hash, key).Some?
    ensures LookupIn(s.h0.buckets, hash, key).Some? ==> s.h0.used > 0
    ensures LookupIn(s.h1.buckets, hash, key).Some? ==> s.h1.used > 0
    ensures LookupIn(s.h0.buckets, hash, key).None? || LookupIn(s.h1.buckets, hash, key).None?
  {
    AllEmptyCount(s.h0.buckets);
    AllEmptyCount(s.h1.buckets);
  }

  /** A rehash step moves one non-empty bucket, or retires the exhausted first table. */
  lemma RehashOnceKeepsMap<K(!new), V>(s: State<K, V>, hash: K -> nat, m: map<K, V>)
    requires Inv(s, hash, m) && Rehashing(s)
    ensures Inv(RehashOnce(s, hash), hash, m)
    ensures RehashOnce(s, hash).iterators == s.iterators
    ensures RehashOnce(s, hash).h0.buckets != []
    ensures forall key :: Lookup(RehashOnce(s, hash), hash, key) == Lookup(s, hash, key)
  {
    hide Slot, WellFormed, Apart, Represents, MoveChain, LookupIn, Lookup2, PowerOfTwo;
    var s' := RehashOnce(s, hash);
    if s.h0.used == 0 {
      FirstEmptyApart(s.h0.buckets, s.h1.buckets, hash);
    } else {
      var i := FirstNonEmpty(s.h0.buckets, s.rehashidx);
      NonEmptyExists(s.h0.buckets, i);
      MigrateLookup(s.h0.buckets, s.h1.buckets, hash, i);
    }
    RepresentsSame(s, s', hash, m);
  }

  lemma RehashStepKeepsMap<K(!new), V>(s: State<K, V>, hash: K -> nat, m: map<K, V>)
    requires Inv(s, hash, m)
    ensures Inv(RehashStep(s, hash), hash, m)
    ensures RehashStep(s, hash).iterators == s.iterators
    ensures s.h0.buckets != [] ==> RehashStep(s, hash).h0.buckets != []
    ensures forall key :: Lookup(RehashStep(s, hash), hash, key) == Lookup(s, hash, key)
  {
    if Rehashing(s) && s.iterators == 0 {
      RehashOnceKeepsMap(s, hash, m);
    }
  }

  lemma ExpandApart<K(!new), V>(b: Buckets<K, V>, n: nat, hash: K -> nat)
    ensures Apart(b, EmptyBuckets(n), hash)
    ensures Apart(EmptyBuckets<K, V>(n), [], hash)
    ensures forall key :: Lookup2(b, EmptyBuckets(n), hash, key) == LookupIn(b, hash, key)
  {
    EmptyLookup<K, V>(n, hash);
  }

  lemma ExpandKeepsMap<K(!new), V>(s: State<K, V>, size: nat, hash: K -> nat, m: map<K, V>)
    requires Inv(s, hash, m) && size < LONG_MAX
    ensures Inv(Expand(s, size).0, hash, m)
    ensures Expand(s, size).1 <==> !Rehashing(s) && s.h0.used <= size
    ensures forall key :: Lookup(Expand(s, size).0, hash, key) == Lookup(s, hash, key)
    ensures Expand(s, size).1 ==> var r := Expand(s, size).0;
      if s.h0.buckets == [] then |r.h0.buckets| >= size && !Rehashing(r)
      else |r.h1.buckets| >= size && Rehashing(r)
  {
    hide Slot, WellFormed, Apart;
    NextPowerIsLeast(size);
    EmptyLookup<K, V>(NextPower(size), hash);
    var r := Expand(s, size).0;
    ExpandApart(s.h0.buckets, NextPower(size), hash);
    assert forall key :: Lookup(r, hash, key) == Lookup(s, hash, key);
  }

  /** `dictResize` may shrink the table; the map is the same all the same. With more nodes than an
      `int` can count it always refuses. */
  lemma ResizeKeepsMap<K(!new), V>(s: State<K, V>, canResize: bool, hash: K -> nat, m: map<K, V>)
    requires Inv(s, hash, m)
    ensures Inv(Resize(s, canResize).0, hash, m)
    ensures Resize(s, canResize).1 <==> canResize && !Rehashing(s) && s.h0.used <= INT_MAX
  {
    if canResize && !Rehashing(s) {
      var minimal := ToInt(s.h0.used);
      ExpandKeepsMap(s, if minimal < INITIAL_SIZE then INITIAL_SIZE else minimal, hash, m);
    }
  }

  lemma ExpandIfNeededKeepsMap<K(!new), V>(s: State<K, V>, canResize: bool, hash: K -> nat, m: map<K, V>)
    requires Inv(s, hash, m) && 2 * |m| < LONG_MAX
    ensures var (r, ok) := ExpandIfNeeded(s, canResize);
      && ok && Inv(r, hash, m) && r.h0.buckets != []
      && r.iterators == s.iterators && r.h0.used == s.h0.used
      && forall key :: Lookup(r, hash, key) == Lookup(s, hash, key)
  {
    var (r, ok) := ExpandIfNeeded(s, canResize);
    if r != s || !ok {
      var size := if s.h0.buckets == [] then INITIAL_SIZE else s.h0.used * 2;
      ExpandKeepsMap(s, size, hash, m);
      if s.h0.buckets == [] { assert Count(s.h0.buckets) == 0; }
    }
  }

  lemma PushFirst<K(!new), V>(s: State<K, V>, hash: K -> nat, e: Entry<K, V>, m: map<K, V>)
    requires Inv(s, hash, m) && !Rehashing(s) && s.h0.buckets != [] && e.key !in m
    ensures Inv(s.(h0 := Table(Push(s.h0.buckets, hash, e), s.h0.used + 1)), hash, m[e.key := e.val])
  {
    hide Slot, WellFormed, Apart;
    assert Lookup(s, hash, e.key).None?;
    PushLookup(s.h0.buckets, hash, e);
    PushApart(s.h0.buckets, s.h1.buckets, hash, e);
    RepresentsInsert(s, s.(h0 := Table(Push(s.h0.buckets, hash, e), s.h0.used + 1)), hash, e, m);
    assert |m[e.key := e.val]| == |m| + 1;
  }

  lemma PushSecond<K(!new), V>(s: State<K, V>, hash: K -> nat, e: Entry<K, V>, m: map<K, V>)
    requires Inv(s, hash, m) && Rehashing(s) && e.key !in m
    ensures Inv(s.(h1 := Table(Push(s.h1.buckets, hash, e), s.h1.used + 1)), hash, m[e.key := e.val])
  {
    hide Slot, WellFormed, Apart;
    assert Lookup(s, hash, e.key).None?;
    PushLookup(s.h1.buckets, hash, e);
    PushApart(s.h0.buckets, s.h1.buckets, hash, e);
    RepresentsInsert(s, s.(h1 := Table(Push(s.h1.buckets, hash, e), s.h1.used + 1)), hash, e, m);
    assert |m[e.key := e.val]| == |m| + 1;
  }

  lemma PlaceIsInsert<K(!new), V>(s: State<K, V>, hash: K -> nat, e: Entry<K, V>, m: map<K, V>)
    requires Inv(s, hash, m) && s.h0.buckets != [] && e.key !in m
    ensures Inv(Place(s, hash, e), hash, m[e.key := e.val])
    ensures Place(s, hash, e).iterators == s.iterators
  {
    if Rehashing(s) {
      PushSecond(s, hash, e, m);
    } else {
      PushFirst(s, hash, e, m);
    }
  }

  /** Adding a node fails exactly on a key of the map and otherwise extends the map by it,
      whether or not the call migrates a bucket or starts an expansion. */
  lemma AddIsMapInsert<K(!new), V>(s: State<K, V>, hash: K -> nat, canResize: bool, e: Entry<K, V>, m: map<K, V>)
    requires Inv(s, hash, m) && 2 * |m| < LONG_MAX
    ensures var (r, ok) := Add(s, hash, canResize, e);
      && (ok <==> e.key !in m)
      && Inv(r, hash, if ok then m[e.key := e.val] else m)
      && r.iterators == s.iterators
  {
    hide Slot, Inv;
    InvFacts(s, hash, m, e.key);
    var s1 := RehashStep(s, hash);
    RehashStepKeepsMap(s, hash, m);
    ExpandIfNeededKeepsMap(s1, canResize, hash, m);
    var s2 := ExpandIfNeeded(s1, canResize).0;
    InvFacts(s2, hash, m, e.key);
    assert e.key in m <==> Lookup(s2, hash, e.key).Some?;
    if e.key !in m {
      PlaceIsInsert(s2, hash, e, m);
    }
  }

  lemma RemoveFirst<K(!new), V>(s: State<K, V>, hash: K -> nat, key: K, m: map<K, V>)
    requires Inv(s, hash, m) && LookupIn(s.h0.buckets, hash, key).Some?
    ensures s.h0.used > 0
    ensures Inv(s.(h0 := Table(RemoveIn(s.h0.buckets, hash, key), s.h0.used - 1)), hash, m - {key})
  {
    hide Slot, WellFormed, Apart, Represents, RemoveIn, LookupIn;
    InvFacts(s, hash, m, key);
    RemoveLookup(s.h0.buckets, hash, key);
    RemoveApart(s.h0.buckets, s.h1.buckets, hash, key);
    RemoveEmpty(s.h0.buckets, hash, key);
    var r := s.(h0 := Table(RemoveIn(s.h0.buckets, hash, key), s.h0.used - 1));
    RepresentsRemove(s, r, hash, key, m);
    RemoveSize(m, key);
  }

  lemma RemoveSecond<K(!new), V>(s: State<K, V>, hash: K -> nat, key: K, m: map<K, V>)
    requires Inv(s, hash, m) && LookupIn(s.h1.buckets, hash, key).Some?
    ensures s.h1.used > 0
    ensures Inv(s.(h1 := Table(RemoveIn(s.h1.buckets, hash, key), s.h1.used - 1)), hash, m - {key})
  {
    hide Slot, WellFormed, Apart, Represents;
    RemoveLookup(s.h1.buckets, hash, key);
    RemoveApart(s.h0.buckets, s.h1.buckets, hash, key);
    InvFacts(s, hash, m, key);
    RepresentsRemove(s, s.(h1 := Table(RemoveIn(s.h1.buckets, hash, key), s.h1.used - 1)), hash, key, m);
    RemoveSize(m, key);
  }

  lemma RemoveSize<K, V>(m: map<K, V>, key: K)
    requires key in m
    ensures |m - {key}| == |m| - 1
  {
    assert m == (m - {key})[key := m[key]];
  }

  /** Empty buckets stay empty. */
  lemma RemoveEmpty<K, V>(b: Buckets<K, V>, hash: K -> nat, key: K)
    requires b != []
    ensures forall i :: 0 <= i < |b| && b[i] == [] ==> RemoveIn(b, hash, key)[i] == []
  {
  }

  /** Deleting succeeds exactly on a key of the map and removes that key only. */
  lemma DeleteIsMapRemove<K(!new), V>(s: State<K, V>, hash: K -> nat, key: K, m: map<K, V>)
    requires Inv(s, hash, m)
    ensures var (r, ok) := Delete(s, hash, key);
      && (ok <==> key in m)
      && Inv(r, hash, m - {key})
      && r.iterators == s.iterators
  {
    hide Slot, Inv;
    InvFacts(s, hash, m, key);
    if s.h0.buckets == [] {
      assert m - {key} == m;
    } else {
      var s1 := RehashStep(s, hash);
      RehashStepKeepsMap(s, hash, m);
      InvFacts(s1, hash, m, key);
      if LookupIn(s1.h0.buckets, hash, key).Some? {
        RemoveFirst(s1, hash, key, m);
      } else if LookupIn(s1.h1.buckets, hash, key).Some? {
        RemoveSecond(s1, hash, key, m);
      } else {
        assert m - {key} == m;
      }
    }
  }

  // ---------------------------------------------------------------- load factor

  /** The least power of two from the initial size on that holds `request`. */
  ghost predicate LeastCapacity(n: nat, request: nat) {
    PowerOfTwo(n) && n >= request && n >= INITIAL_SIZE && (n == INITIAL_SIZE || n < 2 * request)
  }

  /** When growth starts and how large the new table is. */
  lemma GrowthRule<K, V>(s: State<K, V>, canResize: bool)
    requires Shape(s) && 2 * s.h0.used < LONG_MAX && !Rehashing(s)
    ensures var r := ExpandIfNeeded(s, canResize).0;
      if s.h0.buckets == [] then !Rehashing(r) && LeastCapacity(|r.h0.buckets|, INITIAL_SIZE)
      else
        var full := s.h0.used >= |s.h0.buckets|;
        var crowded := s.h0.used >= (FORCE_RESIZE_RATIO + 1) * |s.h0.buckets|;
        && r.h0 == s.h0 && (Rehashing(r) <==> full && (canResize || crowded))
        && (Rehashing(r) ==> r.rehashidx == 0 && LeastCapacity(|r.h1.buckets|, 2 * s.h0.used)
                             && |r.h1.buckets| >= 2 * |r.h0.buckets| && r.h1.used == 0)
  {
    hide Count, NextPower;
    NextPowerIsLeast(INITIAL_SIZE);
    NextPowerIsLeast(2 * s.h0.used);
    if s.h0.buckets != [] { RatioExceeds(s.h0.used, |s.h0.buckets|); }
  }

  lemma RatioExceeds(used: nat, size: nat)
    requires size > 0
    ensures used / size > FORCE_RESIZE_RATIO <==> used >= (FORCE_RESIZE_RATIO + 1) * size
  {
    var q, r := used / size, used % size;
    assert used == q * size + r;
    if q >= 6 { assert q * size >= 6 * size; } else { assert q * size <= 5 * size; }
  }

  /** After an add no table that is not being migrated holds more nodes than buckets, or six times as
      many while resizing is off. */
  lemma AddKeepsLoad<K(!new), V>(s: State<K, V>, hash: K -> nat, canResize: bool, e: Entry<K, V>, m: map<K, V>)
    requires Inv(s, hash, m) && 2 * |m| < LONG_MAX
    ensures Shape(s)
    ensures var r := Add(s, hash, canResize, e).0;
      !Rehashing(r) ==> r.h0.used <= if canResize then |r.h0.buckets| else (FORCE_RESIZE_RATIO + 1) * |r.h0.buckets|
  {
    hide Inv, Count, RehashStep, ExpandIfNeeded, LookupIn, Push;
    InvShape(s, hash, m);
    RehashStepKeepsMap(s, hash, m);
    var s1 := RehashStep(s, hash);
    InvShape(s1, hash, m);
    if !Rehashing(s1) { GrowthRule(s1, canResize); } else { GrowingAlready(s1, canResize); }
    var s2 := ExpandIfNeeded(s1, canResize).0;
    ExpandIfNeededKeepsMap(s1, canResize, hash, m);
    InvShape(s2, hash, m);
    if s1.h0.buckets == [] { NothingUsed(s1); }
  }

  lemma GrowingAlready<K, V>(s: State<K, V>, canResize: bool)
    requires Rehashing(s)
    ensures ExpandIfNeeded(s, canResize) == (s, true)
  {
  }

  lemma NothingUsed<K, V>(s: State<K, V>)
    requires Shape(s) && s.h0.buckets == []
    ensures s.h0.used == 0
  {
  }

  /** A resize that succeeds migrates to the least table that holds all nodes. */
  lemma ShrinkRule<K, V>(s: State<K, V>, canResize: bool)
    requires Shape(s) && Resize(s, canResize).1
    ensures var r := Resize(s, canResize).0;
      if s.h0.buckets == [] then !Rehashing(r) && |r.h0.buckets| == INITIAL_SIZE
      else r.h0 == s.h0 && r.rehashidx == 0 && r.h1.used == 0 && LeastCapacity(|r.h1.buckets|, s.h0.used)
  {
    hide Count;
    var minimal := ToInt(s.h0.used);
    assert NextPower(INITIAL_SIZE) == INITIAL_SIZE;
    NextPowerIsLeast(INITIAL_SIZE);
    NextPowerIsLeast(if minimal < INITIAL_SIZE then INITIAL_SIZE else minimal);
  }

  /** While no iterator is active every find, add and delete advances a migration, or ends it. */
  lemma RehashStepProgress<K(!new), V>(s: State<K, V>, hash: K -> nat)
    requires Shape(s) && Rehashing(s) && s.iterators == 0
    ensures var r := RehashStep(s, hash);
      Rehashing(r) ==> r.rehashidx > s.rehashidx && |r.h0.buckets| == |s.h0.buckets|
  {
    hide RehashOnce;
    RehashOnceProgress(s, hash);
  }

  // ---------------------------------------------------------------- overwriting a value

  lemma {:induction false} SetValFind<K, V>(c: Chain<K, V>, key: K, val: V, other: K)
    ensures |SetVal(c, key, val)| == |c|
    ensures forall i :: 0 <= i < |c| ==> SetVal(c, key, val)[i].key == c[i].key
    ensures Find(SetVal(c, key, val), other)
         == if other == key && Find(c, key).Some? then Some(Find(c, key).value.(val := val)) else Find(c, other)
  {
    if c != [] {
      SetValFind(c[1..], key, val, other);
      var r := SetVal(c, key, val);
      if c[0].key == key {
        assert r[1..] == c[1..];
      } else {
        assert r[1..] == SetVal(c[1..], key, val);
      }
      forall i | 0 <= i < |c| ensures r[i].key == c[i].key {
        if i > 0 { assert r[i] == r[1..][i - 1] && c[i] == c[1..][i - 1]; }
      }
    }
  }

  lemma SetLookup<K(!new), V>(b: Buckets<K, V>, hash: K -> nat, key: K, val: V)
    requires b != [] && WellFormed(b, hash)
    ensures WellFormed(SetIn(b, hash, key, val), hash)
    ensures Count(SetIn(b, hash, key, val)) == Count(b)
    ensures forall other :: LookupIn(SetIn(b, hash, key, val), hash, other)
                            == if other == key && LookupIn(b, hash, key).Some?
                               then Some(LookupIn(b, hash, key).value.(val := val)) else LookupIn(b, hash, other)
  {
    var i := Slot(hash(key), |b|);
    var c := SetVal(b[i], key, val);
    var r := SetIn(b, hash, key, val);
    CountUpdate(b, i, c);
    SetValFind(b[i], key, val, key);
    assert DistinctKeys(c);
    forall e | e in c ensures Slot(hash(e.key), |b|) == i {
      var j :| 0 <= j < |c| && c[j] == e;
      assert b[i][j] in b[i];
    }
    forall other
      ensures LookupIn(r, hash, other) == if other == key && LookupIn(b, hash, key).Some?
                                          then Some(LookupIn(b, hash, key).value.(val := val))
                                          else LookupIn(b, hash, other)
    {
      SetValFind(b[i], key, val, other);
    }
  }

  lemma SetApart<K(!new), V>(b0: Buckets<K, V>, b1: Buckets<K, V>, hash: K -> nat, e: Entry<K, V>, val: V)
    requires WellFormed(b0, hash) && WellFormed(b1, hash) && Apart(b0, b1, hash)
    ensures LookupIn(b0, hash, e.key) == Some(e) ==>
      && Apart(SetIn(b0, hash, e.key, val), b1, hash)
      && forall other :: Lookup2(SetIn(b0, hash, e.key, val), b1, hash, other)
                         == if other == e.key then Some(e.(val := val)) else Lookup2(b0, b1, hash, other)
    ensures LookupIn(b1, hash, e.key) == Some(e) ==>
      && Apart(b0, SetIn(b1, hash, e.key, val), hash)
      && forall other :: Lookup2(b0, SetIn(b1, hash, e.key, val), hash, other)
                         == if other == e.key then Some(e.(val := val)) else Lookup2(b0, b1, hash, other)
  {
    hide Slot, WellFormed;
    assert LookupIn(b0, hash, e.key).None? || LookupIn(b1, hash, e.key).None?;
    if b0 != [] { SetLookup(b0, hash, e.key, val); }
    if b1 != [] { SetLookup(b1, hash, e.key, val); }
  }

  lemma SetEmpty<K, V>(b: Buckets<K, V>, hash: K -> nat, key: K, val: V)
    requires b != []
    ensures forall i :: 0 <= i < |b| && b[i] == [] ==> SetIn(b, hash, key, val)[i] == []
  {
  }

  lemma SetFirstIsUpdate<K(!new), V>(s: State<K, V>, hash: K -> nat, key: K, val: V, m: map<K, V>)
    requires Inv(s, hash, m) && LookupIn(s.h0.buckets, hash, key).Some?
    ensures key in m
    ensures Inv(s.(h0 := s.h0.(buckets := SetIn(s.h0.buckets, hash, key, val))), hash, m[key := val])
  {
    hide Slot, WellFormed, Apart, Represents;
    InvFacts(s, hash, m, key);
    var e := LookupIn(s.h0.buckets, hash, key).value;
    SetLookup(s.h0.buckets, hash, key, val);
    SetApart(s.h0.buckets, s.h1.buckets, hash, e, val);
    SetEmpty(s.h0.buckets, hash, key, val);
    RepresentsInsert(s, s.(h0 := s.h0.(buckets := SetIn(s.h0.buckets, hash, key, val))), hash, e.(val := val), m);
    assert m[key := val].Keys == m.Keys;
  }

  lemma SetSecondIsUpdate<K(!new), V>(s: State<K, V>, hash: K -> nat, key: K, val: V, m: map<K, V>)
    requires Inv(s, hash, m) && LookupIn(s.h1.buckets, hash, key).Some?
    ensures key in m
    ensures Inv(s.(h1 := s.h1.(buckets := SetIn(s.h1.buckets, hash, key, val))), hash, m[key := val])
  {
    hide Slot, WellFormed, Apart, Represents;
    InvFacts(s, hash, m, key);
    var e := LookupIn(s.h1.buckets, hash, key).value;
    SetLookup(s.h1.buckets, hash, key, val);
    SetApart(s.h0.buckets, s.h1.buckets, hash, e, val);
    RepresentsInsert(s, s.(h1 := s.h1.(buckets := SetIn(s.h1.buckets, hash, key, val))), hash, e.(val := val), m);
    assert m[key := val].Keys == m.Keys;
  }
}
