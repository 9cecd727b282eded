/** Safe iterators: while one is active the tables do not migrate, so a walk over both tables
    returns each node that stays in the dictionary exactly once, even when other nodes are added,
    an add starts an expansion, and nodes already returned are deleted. */
module DictIteration {
  import opened DictSpec
  import opened DictRefinement
  import Dict

  /** `next` is the node saved from the chain when the last node was returned. */
  datatype Iter<K, V> = Iter(table: nat, index: int, next: Option<Entry<K, V>>)

  function Tab<K, V>(s: State<K, V>, t: nat): Buckets<K, V> {
    if t == 0 then s.h0.buckets else if t == 1 then s.h1.buckets else []
  }

  /** The rest of the chain from the node that holds the key. */
  function From<K(==), V>(c: Chain<K, V>, key: K): (r: Chain<K, V>)
    ensures forall e :: e in r ==> e in c
  {
    if c == [] then [] else if c[0].key == key then c else From(c[1..], key)
  }

  function After<K(==), V>(c: Chain<K, V>, key: K): Option<Entry<K, V>> {
    var r := From(c, key);
    if |r| > 1 then Some(r[1]) else None
  }

  /** `dictNext`. */
  function Next<K(==), V>(s: State<K, V>, it: Iter<K, V>): (r: (Iter<K, V>, Option<Entry<K, V>>))
    requires it.table <= 1 && it.index >= -1
    requires it.next.Some? ==> 0 <= it.index < |Tab(s, it.table)|
    requires Rehashing(s) ==> s.h1.buckets != []
    decreases 1 - it.table, |Tab(s, it.table)| - it.index
  {
    if it.next.Some? then
      (it.(next := After(Tab(s, it.table)[it.index], it.next.value.key)), it.next)
    else
      var (t, i) := if it.index + 1 >= |Tab(s, it.table)| && Rehashing(s) && it.table == 0 then (1, 0)
                    else (it.table, it.index + 1);
      if i >= |Tab(s, t)| then (Iter(t, i, None), None)
      else
        var c := Tab(s, t)[i];
        if c == [] then Next(s, Iter(t, i, None))
        else (Iter(t, i, After(c, c[0].key)), Some(c[0]))
  }

  // ---------------------------------------------------------------- what is still to come

  ghost predicate AheadIn<K, V>(b: Buckets<K, V>, hash: K -> nat, index: int, next: Option<Entry<K, V>>,
                                x: Entry<K, V>) {
    b != [] &&
    var i := Slot(hash(x.key), |b|);
    x in b[i] && (i > index || (i == index && next.Some? && x in From(b[i], next.value.key)))
  }

  /** Node `x` lies ahead of the iterator. */
  ghost predicate Ahead<K, V>(s: State<K, V>, hash: K -> nat, it: Iter<K, V>, x: Entry<K, V>) {
    if it.table == 0 then
      AheadIn(s.h0.buckets, hash, it.index, it.next, x) || AheadIn(s.h1.buckets, hash, -1, None, x)
    else
      AheadIn(s.h1.buckets, hash, it.index, it.next, x)
  }

  ghost predicate IterOk<K, V>(s: State<K, V>, hash: K -> nat, it: Iter<K, V>) {
    && it.table <= 1 && it.index >= -1
    && (it.table == 1 ==> Rehashing(s))
    && (it.next.Some? ==> 0 <= it.index < |Tab(s, it.table)| && it.next.value in Tab(s, it.table)[it.index])
  }

  lemma {:induction false} FromSplit<K, V>(c: Chain<K, V>, e: Entry<K, V>)
    requires DistinctKeys(c) && e in c
    ensures |From(c, e.key)| > 0 && From(c, e.key)[0] == e
    ensures e !in From(c, e.key)[1..]
    ensures |From(c, e.key)| > 1 ==> From(c, From(c, e.key)[1].key) == From(c, e.key)[1..]
    ensures DistinctKeys(From(c, e.key))
  {
    if c[0].key != e.key {
      DistinctTail(c);
      FromSplit(c[1..], e);
      var r := From(c[1..], e.key);
      if |r| > 1 {
        assert r[1] in c[1..];
      }
    } else {
      DistinctTail(c);
      assert c == [c[0]] + c[1..];
    }
  }

  /** Returning a saved node: exactly that node stops being ahead. */
  lemma ReturnSaved<K(!new), V>(b: Buckets<K, V>, hash: K -> nat, index: nat, e: Entry<K, V>)
    requires WellFormed(b, hash) && index < |b| && e in b[index]
    ensures AheadIn(b, hash, index, Some(e), e)
    ensures forall x ::
              AheadIn(b, hash, index, After(b[index], e.key), x)
              <==> AheadIn(b, hash, index, Some(e), x) && x != e
    ensures After(b[index], e.key).Some? ==> After(b[index], e.key).value in b[index]
  {
    hide Slot;
    var c := b[index];
    FromSplit(c, e);
    var r := From(c, e.key);
    assert r == [e] + r[1..];
    forall x
      ensures AheadIn(b, hash, index, After(c, e.key), x) <==> AheadIn(b, hash, index, Some(e), x) && x != e
    {
      if |r| > 1 {
        assert From(c, After(c, e.key).value.key) == r[1..];
        assert x in r <==> x == e || x in r[1..];
      } else {
        assert x in r <==> x == e;
      }
    }
  }

  /** Entering a bucket: it is the same to stand before it and at its first node. */
  lemma EnterBucket<K(!new), V>(b: Buckets<K, V>, hash: K -> nat, i: nat)
    requires WellFormed(b, hash) && i < |b|
    ensures b[i] == [] ==> forall x :: AheadIn(b, hash, i, None, x) <==> AheadIn(b, hash, i - 1, None, x)
    ensures b[i] != [] ==> forall x :: AheadIn(b, hash, i, Some(b[i][0]), x) <==> AheadIn(b, hash, i - 1, None, x)
  {
    hide Slot;
    if b[i] != [] {
      assert From(b[i], b[i][0].key) == b[i];
    }
  }

  lemma NothingPast<K(!new), V>(b: Buckets<K, V>, hash: K -> nat, i: int)
    requires i >= |b| - 1
    ensures forall x :: !AheadIn(b, hash, i, None, x)
  {
    hide Slot;
  }

  /** dictNext returns a node that was ahead, which then is the only one no longer ahead; when it
      returns nothing, nothing was ahead. */
  lemma {:induction false} NextTakesOne<K(!new), V>(s: State<K, V>, hash: K -> nat, it: Iter<K, V>)
    requires Wf(s, hash) && IterOk(s, hash, it)
    ensures var (it', r) := Next(s, it);
      && IterOk(s, hash, it')
      && (r.Some? ==> Ahead(s, hash, it, r.value))
      && (r.Some? ==> forall x :: Ahead(s, hash, it', x) <==> Ahead(s, hash, it, x) && x != r.value)
      && (r.None? ==> forall x :: !Ahead(s, hash, it, x) && !Ahead(s, hash, it', x))
    decreases 1 - it.table, |Tab(s, it.table)| - it.index
  {
    hide Slot, AheadIn, WellFormed, After, From;
    var b := Tab(s, it.table);
    if it.next.Some? {
      ReturnSaved(b, hash, it.index, it.next.value);
      OneTableOnly(s, hash, it.next.value);
    } else {
      var (t, i) := if it.index + 1 >= |b| && Rehashing(s) && it.table == 0 then (1, 0) else (it.table, it.index + 1);
      if it.index + 1 >= |b| {
        NothingPast(b, hash, it.index);
        if it.table == 0 && !Rehashing(s) { NothingPast<K, V>([], hash, -1); }
        NothingPast(b, hash, it.index + 1);
      }
      if i < |Tab(s, t)| {
        var c := Tab(s, t)[i];
        EnterBucket(Tab(s, t), hash, i);
        if c == [] {
          assert it.next == None;
          assert forall x :: Ahead(s, hash, Iter(t, i, None), x) <==> Ahead(s, hash, it, x);
          NextTakesOne(s, hash, Iter(t, i, None));
          var r := Next(s, Iter(t, i, None)).1;
          assert Next(s, it) == Next(s, Iter(t, i, None));
          if r.Some? { assert Ahead(s, hash, Iter(t, i, None), r.value); }
        } else {
          ReturnSaved(Tab(s, t), hash, i, c[0]);
          OneTableOnly(s, hash, c[0]);
        }
      }
    }
  }

  /** A node is in one of the tables only. */
  lemma OneTableOnly<K(!new), V>(s: State<K, V>, hash: K -> nat, x: Entry<K, V>)
    requires Wf(s, hash)
    ensures !(AheadIn(s.h0.buckets, hash, -1, None, x) && AheadIn(s.h1.buckets, hash, -1, None, x))
    ensures forall i, n :: AheadIn(s.h0.buckets, hash, i, n, x) ==> AheadIn(s.h0.buckets, hash, -1, None, x)
    ensures forall i, n :: AheadIn(s.h1.buckets, hash, i, n, x) ==> AheadIn(s.h1.buckets, hash, -1, None, x)
  {
    hide Slot;
    assert AheadIn(s.h0.buckets, hash, -1, None, x) ==> LookupIn(s.h0.buckets, hash, x.key).Some?;
    assert AheadIn(s.h1.buckets, hash, -1, None, x) ==> LookupIn(s.h1.buckets, hash, x.key).Some?;
  }

  // ---------------------------------------------------------------- adds and deletes meanwhile

  ghost predicate Present<K, V>(s: State<K, V>, hash: K -> nat, x: Entry<K, V>) {
    Lookup(s, hash, x.key) == Some(x)
  }

  /** A node linked at the head of its chain stands behind the saved node of that chain. */
  lemma PushKeepsAhead<K(!new), V>(b: Buckets<K, V>, hash: K -> nat, index: int, next: Option<Entry<K, V>>,
                                   e: Entry<K, V>)
    requires b != [] && WellFormed(b, hash) && LookupIn(b, hash, e.key).None?
    requires next.Some? ==> 0 <= index < |b| && next.value in b[index]
    ensures next.Some? ==> next.value in Push(b, hash, e)[index]
    ensures forall x :: x != e ==> (AheadIn(Push(b, hash, e), hash, index, next, x)
      <==> AheadIn(b, hash, index, next, x))
  {
    hide Slot;
    var i := Slot(hash(e.key), |b|);
    assert forall y :: y in b[i] ==> y.key != e.key;
    if next.Some? && i == index {
      assert ([e] + b[i])[1..] == b[i];
      assert From([e] + b[i], next.value.key) == From(b[i], next.value.key);
    }
  }

  lemma {:induction false} RemoveKeepsFrom<K, V>(c: Chain<K, V>, gone: K, n: Entry<K, V>)
    requires DistinctKeys(c) && n in c
    requires forall y :: y in From(c, n.key) ==> y.key != gone
    ensures n in Remove(c, gone) && From(Remove(c, gone), n.key) == From(c, n.key)
  {
    DistinctTail(c);
    if c[0].key == n.key {
      FromSplit(c, n);
      RemoveAbsent(c, gone);
    } else if c[0].key != gone {
      RemoveKeepsFrom(c[1..], gone, n);
      assert Remove(c, gone)[1..] == Remove(c[1..], gone);
    }
  }

  lemma {:induction false} RemoveAbsent<K, V>(c: Chain<K, V>, gone: K)
    requires forall y :: y in c ==> y.key != gone
    ensures Remove(c, gone) == c
  {
    if c != [] { RemoveAbsent(c[1..], gone); }
  }

  lemma RemoveMembers<K, V>(c: Chain<K, V>, gone: K)
    requires DistinctKeys(c)
    ensures forall x :: x in Remove(c, gone) <==> x in c && x.key != gone
  {
    forall x ensures x in Remove(c, gone) <==> x in c && x.key != gone {
      RemoveMember(c, gone, x);
    }
  }

  lemma {:induction false} RemoveMember<K, V>(c: Chain<K, V>, gone: K, x: Entry<K, V>)
    requires DistinctKeys(c)
    ensures x in Remove(c, gone) <==> x in c && x.key != gone
  {
    if c != [] {
      DistinctTail(c);
      RemoveMember(c[1..], gone, x);
    }
  }

  /** Unlinking a node that is not ahead leaves what is ahead alone. */
  lemma RemoveKeepsAhead<K(!new), V>(b: Buckets<K, V>, hash: K -> nat, index: int, next: Option<Entry<K, V>>, gone: K)
    requires b != [] && WellFormed(b, hash)
    requires next.Some? ==> 0 <= index < |b| && next.value in b[index]
    requires forall x :: AheadIn(b, hash, index, next, x) ==> x.key != gone
    ensures next.Some? ==> next.value in RemoveIn(b, hash, gone)[index]
    ensures forall x :: AheadIn(RemoveIn(b, hash, gone), hash, index, next, x) <==> AheadIn(b, hash, index, next, x)
  {
    hide Slot;
    var i := Slot(hash(gone), |b|);
    var r := RemoveIn(b, hash, gone);
    RemoveMembers(b[i], gone);
    if next.Some? && i == index {
      forall y | y in From(b[i], next.value.key) ensures y.key != gone {
        assert y in b[i];
        assert AheadIn(b, hash, index, next, y);
      }
      RemoveKeepsFrom(b[i], gone, next.value);
    }
    forall x ensures AheadIn(r, hash, index, next, x) <==> AheadIn(b, hash, index, next, x) {
      assert x in b[i] && i > index ==> AheadIn(b, hash, index, next, x);
    }
  }

  /** While an iterator is active an add links one node and at most allocates the second table. */
  lemma AddKeepsAhead<K(!new), V>(s: State<K, V>, hash: K -> nat, canResize: bool, it: Iter<K, V>, e: Entry<K, V>,
                                  m: map<K, V>)
    requires Inv(s, hash, m) && 2 * |m| < LONG_MAX && s.iterators > 0 && IterOk(s, hash, it)
    ensures IterOk(Add(s, hash, canResize, e).0, hash, it)
    ensures forall x :: x != e ==> (Ahead(Add(s, hash, canResize, e).0, hash, it, x) <==> Ahead(s, hash, it, x))
    ensures forall x :: x != e ==> (Present(Add(s, hash, canResize, e).0, hash, x) ==> Present(s, hash, x))
  {
    hide Slot, AheadIn, Inv, Shape, LookupIn;
    InvShape(s, hash, m);
    ExpandKeepsAhead(s, hash, canResize, it, m);
    ExpandIfNeededKeepsMap(s, canResize, hash, m);
    var s2 := ExpandIfNeeded(s, canResize).0;
    InvFacts(s2, hash, m, e.key);
    if Lookup(s2, hash, e.key).None? {
      PlaceKeepsAhead(s2, hash, it, e, m);
    }
  }

  lemma ExpandKeepsAhead<K(!new), V>(s: State<K, V>, hash: K -> nat, canResize: bool, it: Iter<K, V>, m: map<K, V>)
    requires Inv(s, hash, m) && 2 * |m| < LONG_MAX && IterOk(s, hash, it)
    ensures var r := ExpandIfNeeded(s, canResize).0;
      && IterOk(r, hash, it)
      && forall x :: Ahead(r, hash, it, x) <==> Ahead(s, hash, it, x)
  {
    hide Slot;
    var r := ExpandIfNeeded(s, canResize).0;
    if r != s {
      assert s.h1.buckets == [] && it.table == 0;
      if s.h0.buckets == [] {
        assert r.h0.buckets == EmptyBuckets(|r.h0.buckets|);
      } else {
        assert r.h1.buckets == EmptyBuckets(|r.h1.buckets|);
      }
    }
  }

  lemma PlaceKeepsAhead<K(!new), V>(s: State<K, V>, hash: K -> nat, it: Iter<K, V>, e: Entry<K, V>, m: map<K, V>)
    requires Inv(s, hash, m) && IterOk(s, hash, it) && s.h0.buckets != []
    requires Lookup(s, hash, e.key).None?
    ensures IterOk(Place(s, hash, e), hash, it)
    ensures forall x :: x != e ==> (Ahead(Place(s, hash, e), hash, it, x) <==> Ahead(s, hash, it, x))
    ensures forall x :: x != e ==> (Present(Place(s, hash, e), hash, x) ==> Present(s, hash, x))
  {
    hide Slot, AheadIn, WellFormed, Represents, Apart;
    PushApart(s.h0.buckets, s.h1.buckets, hash, e);
    assert LookupIn(s.h0.buckets, hash, e.key).None? && LookupIn(s.h1.buckets, hash, e.key).None?;
    if Rehashing(s) {
      if it.table == 0 {
        PushKeepsAhead(s.h1.buckets, hash, -1, None, e);
      } else {
        PushKeepsAhead(s.h1.buckets, hash, it.index, it.next, e);
      }
    } else {
      PushKeepsAhead(s.h0.buckets, hash, it.index, it.next, e);
    }
  }

  lemma DeleteKeepsAhead<K(!new), V>(s: State<K, V>, hash: K -> nat, it: Iter<K, V>, gone: K, m: map<K, V>)
    requires Inv(s, hash, m) && s.iterators > 0 && IterOk(s, hash, it)
    requires forall x :: Ahead(s, hash, it, x) ==> x.key != gone
    ensures IterOk(Delete(s, hash, gone).0, hash, it)
    ensures forall x :: Ahead(Delete(s, hash, gone).0, hash, it, x) <==> Ahead(s, hash, it, x)
    ensures forall x :: Present(Delete(s, hash, gone).0, hash, x) ==> Present(s, hash, x)
  {
    hide Slot, AheadIn, WellFormed, Represents, Apart, LookupIn, Lookup2;
    var r := Delete(s, hash, gone).0;
    InvFacts(s, hash, m, gone);
    RemoveApart(s.h0.buckets, s.h1.buckets, hash, gone);
    LookupEmpty<K, V>(hash, gone);
    if LookupIn(s.h0.buckets, hash, gone).Some? {
      if it.table == 0 {
        RemoveKeepsAhead(s.h0.buckets, hash, it.index, it.next, gone);
      }
    } else if LookupIn(s.h1.buckets, hash, gone).Some? {
      if it.table == 0 {
        RemoveKeepsAhead(s.h1.buckets, hash, -1, None, gone);
      } else {
        RemoveKeepsAhead(s.h1.buckets, hash, it.index, it.next, gone);
      }
    }
  }

  lemma LookupEmpty<K(!new), V>(hash: K -> nat, key: K)
    ensures LookupIn<K, V>([], hash, key).None?
  {
  }

  // ---------------------------------------------------------------- whole iterations

  datatype Event<K, V> =
    | NextNode
    | AddNode(key: K, val: V, canResize: bool)
    | DeleteNode(key: K)
    | FindNode(key: K)

  /** An iteration under way: the tables, the iterator, the nodes returned so far, and the next
      node identity. */
  datatype Session<K, V> = Session(s: State<K, V>, it: Iter<K, V>, returned: seq<Entry<K, V>>, contents: map<K, V>,
                                   serial: nat)

  ghost predicate Sound<K(!new), V(!new)>(z: Session<K, V>, hash: K -> nat) {
    Inv(z.s, hash, z.contents) && z.s.iterators > 0 && IterOk(z.s, hash, z.it)
  }

  /** Only nodes already returned are deleted. */
  ghost predicate Legal<K, V>(z: Session<K, V>, hash: K -> nat, ev: Event<K, V>) {
    match ev
    case NextNode => true
    case FindNode(_) => true
    case AddNode(_, _, _) => 2 * |z.contents| < LONG_MAX
    case DeleteNode(key) => Lookup(z.s, hash, key).Some? ==> Lookup(z.s, hash, key).value in z.returned
  }

  ghost function Step<K(!new), V(!new)>(z: Session<K, V>, hash: K -> nat, ev: Event<K, V>): Session<K, V>
    requires Sound(z, hash)
  {
    match ev
    case NextNode =>
      var (it, r) := Next(z.s, z.it);
      z.(it := it, returned := if r.Some? then z.returned + [r.value] else z.returned)
    case AddNode(key, val, canResize) =>
      var (s, ok) := Add(z.s, hash, canResize, Entry(z.serial, key, val));
      z.(s := s, serial := z.serial + 1, contents := if ok then z.contents[key := val] else z.contents)
    case DeleteNode(key) =>
      z.(s := Delete(z.s, hash, key).0, contents := z.contents - {key})
    case FindNode(key) =>
      z.(s := RehashStep(z.s, hash))
  }

  ghost predicate Progress<K(!new), V(!new)>(z: Session<K, V>, hash: K -> nat, start: State<K, V>) {
    && Sound(z, hash)
    && (forall i, j :: 0 <= i < j < |z.returned| ==> z.returned[i] != z.returned[j])
    && (forall x :: x in z.returned ==> !Ahead(z.s, hash, z.it, x) && x.id < z.serial)
    && (forall x :: Present(z.s, hash, x) || Present(start, hash, x) ==> x.id < z.serial)
    && (forall x :: Present(start, hash, x) && Present(z.s, hash, x) ==> x in z.returned || Ahead(z.s, hash, z.it, x))
  }

  lemma AheadIsPresent<K(!new), V(!new)>(s: State<K, V>, hash: K -> nat, it: Iter<K, V>, x: Entry<K, V>)
    requires Wf(s, hash) && Ahead(s, hash, it, x)
    ensures Present(s, hash, x)
  {
    hide Slot;
    if AheadIn(s.h0.buckets, hash, -1, None, x) {
      FoundIn(s.h0.buckets[Slot(hash(x.key), |s.h0.buckets|)], x);
    } else {
      FoundIn(s.h1.buckets[Slot(hash(x.key), |s.h1.buckets|)], x);
    }
  }

  lemma FoundIn<K, V>(c: Chain<K, V>, x: Entry<K, V>)
    requires DistinctKeys(c) && x in c
    ensures Find(c, x.key) == Some(x)
  {
    var i :| 0 <= i < |c| && c[i] == x;
    FindAt(c, i);
  }

  lemma PresentIsSomewhere<K(!new), V(!new)>(s: State<K, V>, hash: K -> nat, x: Entry<K, V>)
    requires Present(s, hash, x)
    ensures Ahead(s, hash, Iter(0, -1, None), x)
  {
    hide Slot;
  }

  lemma NextProgress<K(!new), V(!new)>(z: Session<K, V>, hash: K -> nat, start: State<K, V>)
    requires Progress(z, hash, start)
    ensures Progress(Step(z, hash, NextNode), hash, start)
  {
    hide Ahead, Lookup, Represents, WellFormed, Apart;
    InvWf(z.s, hash, z.contents);
    NextTakesOne(z.s, hash, z.it);
    var r := Next(z.s, z.it).1;
    if r.Some? {
      AheadIsPresent(z.s, hash, z.it, r.value);
    }
  }

  lemma InvWf<K(!new), V>(s: State<K, V>, hash: K -> nat, m: map<K, V>)
    requires Inv(s, hash, m)
    ensures Wf(s, hash)
  {
  }

  lemma AddProgress<K(!new), V(!new)>(z: Session<K, V>, hash: K -> nat, start: State<K, V>, key: K, val: V,
                                      canResize: bool)
    requires Progress(z, hash, start) && 2 * |z.contents| < LONG_MAX
    ensures Progress(Step(z, hash, AddNode(key, val, canResize)), hash, start)
  {
    hide Ahead, Inv, IterOk, Lookup, Present, Add;
    var e := Entry(z.serial, key, val);
    InvShape(z.s, hash, z.contents);
    AddIsMapInsert(z.s, hash, canResize, e, z.contents);
    AddKeepsAhead(z.s, hash, canResize, z.it, e, z.contents);
    var z' := Step(z, hash, AddNode(key, val, canResize));
    assert e !in z.returned;
    assert forall x :: Present(z'.s, hash, x) ==> x == e || Present(z.s, hash, x);
  }

  lemma DeleteProgress<K(!new), V(!new)>(z: Session<K, V>, hash: K -> nat, start: State<K, V>, key: K)
    requires Progress(z, hash, start) && Legal(z, hash, DeleteNode(key))
    ensures Progress(Step(z, hash, DeleteNode(key)), hash, start)
  {
    hide Ahead, Inv, IterOk, Delete;
    InvWf(z.s, hash, z.contents);
    InvShape(z.s, hash, z.contents);
    forall x | Ahead(z.s, hash, z.it, x) ensures x.key != key {
      AheadIsPresent(z.s, hash, z.it, x);
    }
    hide Lookup, Present;
    DeleteIsMapRemove(z.s, hash, key, z.contents);
    DeleteKeepsAhead(z.s, hash, z.it, key, z.contents);
  }

  lemma StepProgress<K(!new), V(!new)>(z: Session<K, V>, hash: K -> nat, start: State<K, V>, ev: Event<K, V>)
    requires Progress(z, hash, start) && Legal(z, hash, ev)
    ensures Progress(Step(z, hash, ev), hash, start)
  {
    match ev
    case NextNode => NextProgress(z, hash, start);
    case AddNode(key, val, canResize) => AddProgress(z, hash, start, key, val, canResize);
    case DeleteNode(key) => DeleteProgress(z, hash, start, key);
    case FindNode(key) =>
      hide Ahead, Inv, IterOk, Lookup, Present;
      InvShape(z.s, hash, z.contents);
      assert Step(z, hash, ev) == z;
  }

  /** All states of a run in which every event is legal when it happens. That each of them is sound
      again is proved, not assumed. */
  ghost predicate Run<K(!new), V(!new)>(zs: seq<Session<K, V>>, events: seq<Event<K, V>>, hash: K -> nat) {
    && |zs| == |events| + 1
    && forall i :: 0 <= i < |events| ==>
         Legal(zs[i], hash, events[i]) && (Sound(zs[i], hash) ==> zs[i + 1] == Step(zs[i], hash, events[i]))
  }

  ghost predicate Begins<K(!new), V(!new)>(z: Session<K, V>, hash: K -> nat) {
    && Sound(z, hash) && z.it == Iter(0, -1, None) && z.returned == []
    && forall x :: Present(z.s, hash, x) ==> x.id < z.serial
  }

  lemma ProgressIsSound<K(!new), V(!new)>(z: Session<K, V>, hash: K -> nat, start: State<K, V>)
    requires Progress(z, hash, start)
    ensures Sound(z, hash)
  {
    hide Sound, Ahead, Present;
  }

  lemma StartProgress<K(!new), V(!new)>(z: Session<K, V>, hash: K -> nat)
    requires Begins(z, hash)
    ensures Progress(z, hash, z.s)
  {
    hide Ahead, Inv, Present;
    forall x | Present(z.s, hash, x) ensures Ahead(z.s, hash, z.it, x) {
      PresentIsSomewhere(z.s, hash, x);
    }
  }

  lemma {:induction false} RunProgress<K(!new), V(!new)>(zs: seq<Session<K, V>>, events: seq<Event<K, V>>,
                                                         hash: K -> nat, n: nat)
    requires Run(zs, events, hash) && Begins(zs[0], hash) && n < |zs|
    ensures Progress(zs[n], hash, zs[0].s)
  {
    hide Step, Legal, Progress, Begins, Sound;
    if n == 0 {
      StartProgress(zs[0], hash);
    } else {
      RunProgress(zs, events, hash, n - 1);
      ProgressIsSound(zs[n - 1], hash, zs[0].s);
      StepProgress(zs[n - 1], hash, zs[0].s, events[n - 1]);
    }
  }

  /** dictNext has nothing left to return. */
  ghost predicate AtEnd<K, V>(s: State<K, V>, it: Iter<K, V>) {
    && it.table <= 1 && it.index >= -1 && (it.next.Some? ==> 0 <= it.index < |Tab(s, it.table)|)
    && (Rehashing(s) ==> s.h1.buckets != [])
    && Next(s, it).1.None?
  }

  lemma EndMeansNothingAhead<K(!new), V(!new)>(z: Session<K, V>, hash: K -> nat)
    requires Sound(z, hash) && AtEnd(z.s, z.it)
    ensures forall x :: !Ahead(z.s, hash, z.it, x)
  {
    hide Ahead, Inv;
    InvWf(z.s, hash, z.contents);
    NextTakesOne(z.s, hash, z.it);
    forall x: Entry<K, V> ensures !Ahead(z.s, hash, z.it, x) {
      assert !Ahead(z.s, hash, Next(z.s, z.it).0, x);
    }
  }

  /** Safe iteration over whole runs: every state is sound, no node is ever returned twice, and when dictNext has
      nothing left to return, every node present from the start and still present (identities are
      never reused, so present throughout) has been returned. */
  lemma SafeIterationReturnsAllOnce<K(!new), V(!new)>(zs: seq<Session<K, V>>, events: seq<Event<K, V>>,
                                                      hash: K -> nat, n: nat)
    requires Run(zs, events, hash) && Begins(zs[0], hash) && n < |zs|
    ensures Sound(zs[n], hash)
    ensures forall i, j :: 0 <= i < j < |zs[n].returned| ==> zs[n].returned[i] != zs[n].returned[j]
    ensures AtEnd(zs[n].s, zs[n].it) ==>
      forall x :: Present(zs[0].s, hash, x) && Present(zs[n].s, hash, x) ==> x in zs[n].returned
  {
    hide Step, Legal, Ahead, Present, Sound, AtEnd, Begins, Run;
    RunProgress(zs, events, hash, n);
    if AtEnd(zs[n].s, zs[n].it) { EndMeansNothingAhead(zs[n], hash); }
  }

  // ---------------------------------------------------------------- the iterator object

  lemma InvIterators<K(!new), V>(s: State<K, V>, n: nat, hash: K -> nat, m: map<K, V>)
    requires Inv(s, hash, m)
    ensures Inv(s.(iterators := n), hash, m)
  {
  }

  /** The node after a position of a chain is the node after the key held there. */
  lemma {:induction false} FollowingNode<K, V>(c: Chain<K, V>, i: nat, key: K)
    requires IsFirst(c, i, key)
    ensures From(c, key) == c[i..]
  {
    if i > 0 { FollowingNode(c[1..], i - 1, key); }
  }

  class SafeIterator<K(==, !new), V> {
    const d: Dict.Dict<K, V>
    var table: nat
    var index: int
    var nextEntry: Option<Entry<K, V>>

    ghost function View(): Iter<K, V>
      reads this
    {
      Iter(table, index, nextEntry)
    }

    constructor (d: Dict.Dict<K, V>)
      ensures this.d == d && View() == Iter(0, -1, None)
    {
      this.d := d;
      table, index, nextEntry := 0, -1, None;
    }

    method GetNext() returns (r: Option<Entry<K, V>>)
      requires d.Valid() && IterOk(d.Model(), d.hash, View())
      modifies this, d`iterators
      ensures d.Valid() && d.contents == old(d.contents)
      ensures (View(), r) == Next(d.Model(), old(View()))
      ensures IterOk(d.Model(), d.hash, View())
      ensures d.Model() == old(d.Model()).(iterators := d.iterators)
      ensures d.iterators == old(d.iterators) + if old(index) == -1 && old(table) == 0 then 1 else 0
    {
      hide Inv, Slot, AheadIn, WellFormed, Apart, Represents, After;
      InvWf(d.Model(), d.hash, d.contents);
      if index == -1 && table == 0 {
        InvIterators(d.Model(), d.iterators + 1, d.hash, d.contents);
        d.iterators := d.iterators + 1;
      }
      ghost var s, it := d.Model(), View();
      NextTakesOne(s, d.hash, it);
      if nextEntry.Some? {
        r := nextEntry;
        var following := FollowerOf(if table == 0 then d.table0[index] else d.table1[index], r.value);
        nextEntry := following;
      } else {
        r := NextBucket();
      }
    }

    /** The loop of dictNext while no node is saved. */
    method NextBucket() returns (r: Option<Entry<K, V>>)
      requires nextEntry.None? && table <= 1 && index >= -1
      requires d.rehashidx != -1 ==> d.table1.Length > 0
      modifies this
      ensures (View(), r) == Next(d.Model(), old(View()))
    {
      hide After;
      while true
        invariant nextEntry.None? && table <= 1 && index >= -1
        invariant Next(d.Model(), old(View())) == Next(d.Model(), View())
        decreases 1 - table, |Tab(d.Model(), table)| - index
      {
        index := index + 1;
        if index >= if table == 0 then d.table0.Length else d.table1.Length {
          if d.rehashidx == -1 || table != 0 { return None; }
          table, index := 1, 0;
        }
        var c := if table == 0 then d.table0[index] else d.table1[index];
        if c != [] {
          r := Some(c[0]);
          var following := FollowerOf(c, c[0]);
          nextEntry := following;
          return;
        }
      }
    }

    /** `entry->next`. */
    method FollowerOf(c: Chain<K, V>, e: Entry<K, V>) returns (r: Option<Entry<K, V>>)
      requires e in c
      ensures r == After(c, e.key)
    {
      var i, found := Dict.Dict<K, V>.WalkChain(c, e.key);
      FollowingNode(c, i, e.key);
      r := if i + 1 < |c| then Some(c[i + 1]) else None;
    }
  }
}
