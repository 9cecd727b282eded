/** The two indexes of watched keys, the dirty flags and the data as one value, and what the functions
    of `multi.c` do to it. `C` stands for the clients. */
module WatchSpec {
  import opened WatchHistory

  type Data = seq<map<Key, Value>>

  /** `lists` are the clients' own lists, `index` the lists of clients per database and key. */
  datatype View<C> = View(lists: map<C, seq<WatchedKey>>, dirty: map<C, bool>,
                          index: seq<map<Key, seq<C>>>, data: Data, history: seq<Event<C>>)

  ghost predicate NoDup<T>(s: seq<T>) { forall i, j :: 0 <= i < j < |s| ==> s[i] != s[j] }

  function Lookup(d: Data, wk: WatchedKey): Option<Value> {
    if wk.db < |d| && wk.key in d[wk.db] then Some(d[wk.db][wk.key]) else None
  }

  ghost function Watchers<C>(v: View<C>, wk: WatchedKey): seq<C> {
    if wk.db < |v.index| && wk.key in v.index[wk.db] then v.index[wk.db][wk.key] else []
  }

  // ---------------------------------------------------------------- the invariant

  ghost predicate Shape<C>(v: View<C>) {
    && v.lists.Keys == v.dirty.Keys && |v.index| == |v.data|
    && (forall c :: c in v.lists ==> NoDup(v.lists[c]))
    && (forall c, wk :: c in v.lists && wk in v.lists[c] ==> wk.db < |v.data|)
    && (forall i, k :: 0 <= i < |v.index| && k in v.index[i] ==> v.index[i][k] != [])
  }

  /** The two indexes agree: a client is listed under a key exactly when the key is in the client's
      own list, and nothing is listed twice. */
  ghost predicate Linked<C>(v: View<C>) {
    && (forall wk :: NoDup(Watchers(v, wk)))
    && (forall wk, c :: c in Watchers(v, wk) ==> c in v.lists)
    && (forall wk, c :: c in v.lists ==> (wk in v.lists[c] <==> c in Watchers(v, wk)))
  }

  /** Lists and flags say what the history says. */
  ghost predicate Traced<C>(v: View<C>)
    requires Shape(v)
  {
    && (forall c :: c in v.dirty ==> v.dirty[c] == Dirty(v.history, c))
    && (forall c, wk :: c in v.lists ==> (wk in v.lists[c] <==> Watching(v.history, c, wk)))
  }

  ghost predicate Sound<C>(v: View<C>) { Shape(v) && Linked(v) && Traced(v) }

  /** Unless a client is dirty, every key it watches holds what it held when it was put under watch. */
  ghost predicate Held<C>(v: View<C>)
    requires Sound(v)
  {
    forall c, wk :: c in v.lists && !v.dirty[c] && wk in v.lists[c] ==>
      Lookup(v.data, wk) == WatchedValue(v.history, c, wk)
  }

  ghost predicate HeldExcept<C>(v: View<C>, c: C)
    requires Sound(v)
  {
    forall o, wk :: o in v.lists && o != c && !v.dirty[o] && wk in v.lists[o] ==>
      Lookup(v.data, wk) == WatchedValue(v.history, o, wk)
  }

  ghost predicate Valid<C>(v: View<C>) { Sound(v) && Held(v) }

  // ---------------------------------------------------------------- WATCH

  /** `watchForKey`. */
  ghost function WatchFor<C>(v: View<C>, c: C, wk: WatchedKey): View<C>
    requires c in v.lists && wk.db < |v.index|
  {
    if wk in v.lists[c] then v
    else View(v.lists[c := v.lists[c] + [wk]], v.dirty,
              v.index[wk.db := v.index[wk.db][wk.key := Watchers(v, wk) + [c]]], v.data,
              v.history + [Watched(c, wk, Lookup(v.data, wk))])
  }

  lemma WatchForKeeps<C>(v: View<C>, c: C, wk: WatchedKey)
    requires Valid(v) && c in v.lists && wk.db < |v.index|
    ensures Valid(WatchFor(v, c, wk))
  {
    if wk in v.lists[c] { return; }
    var r := WatchFor(v, c, wk);
    WatchForLinks(v, c, wk);
    hide Watching, Dirty, WatchedValue, Linked, Watchers;
    forall o | o in r.dirty ensures r.dirty[o] == Dirty(r.history, o) {
      AppendDirty(v.history, Watched(c, wk, Lookup(v.data, wk)), o);
    }
    forall o, w | o in r.lists
      ensures w in r.lists[o] <==> Watching(r.history, o, w)
      ensures w in r.lists[o] && !r.dirty[o] ==> Lookup(r.data, w) == WatchedValue(r.history, o, w)
    {
      Append(v.history, Watched(c, wk, Lookup(v.data, wk)), o, w);
    }
  }

  lemma WatchForLinks<C>(v: View<C>, c: C, wk: WatchedKey)
    requires Shape(v) && Linked(v) && c in v.lists && wk.db < |v.index| && wk !in v.lists[c]
    ensures Shape(WatchFor(v, c, wk)) && Linked(WatchFor(v, c, wk))
  {
    hide Shape, Linked, Watchers, NoDup;
    var r := WatchFor(v, c, wk);
    WatchForShape(v, c, wk);
    forall w ensures Watchers(r, w) == Watchers(v, w) + if w == wk then [c] else [] { WatchersAfter(v, c, wk, w); }
    ListsGrow(v, r, c, wk);
  }

  lemma WatchForShape<C>(v: View<C>, c: C, wk: WatchedKey)
    requires Shape(v) && c in v.lists && wk.db < |v.index| && wk !in v.lists[c]
    ensures Shape(WatchFor(v, c, wk))
  {
    hide Watchers;
    var r := WatchFor(v, c, wk);
    assert NoDup(v.lists[c]);
  }

  lemma WatchersAfter<C>(v: View<C>, c: C, wk: WatchedKey, w: WatchedKey)
    requires c in v.lists && wk.db < |v.index| && wk !in v.lists[c]
    ensures Watchers(WatchFor(v, c, wk), w) == Watchers(v, w) + if w == wk then [c] else []
  {
  }

  lemma ListsGrow<C>(v: View<C>, r: View<C>, c: C, wk: WatchedKey)
    requires Linked(v) && c in v.lists && wk !in v.lists[c] && r.lists == v.lists[c := v.lists[c] + [wk]]
    requires forall w :: Watchers(r, w) == Watchers(v, w) + if w == wk then [c] else []
    ensures Linked(r)
  {
    hide Watchers;
    assert c !in Watchers(v, wk);
    forall w ensures NoDup(Watchers(r, w)) { assert NoDup(Watchers(v, w)); }
    forall w, o | o in r.lists ensures w in r.lists[o] <==> o in Watchers(r, w) {
      assert w in v.lists[o] <==> o in Watchers(v, w);
    }
  }

  // ---------------------------------------------------------------- UNWATCH

  ghost function Remove<T>(s: seq<T>, x: T): seq<T> {
    if s == [] then [] else if s[0] == x then s[1..] else [s[0]] + Remove(s[1..], x)
  }

  lemma {:induction false} RemoveFacts<T>(s: seq<T>, x: T)
    requires NoDup(s)
    ensures NoDup(Remove(s, x)) && forall y :: y in Remove(s, x) <==> y in s && y != x
  {
    if s == [] {
    } else {
      assert NoDup(s[1..]);
      RemoveFacts(s[1..], x);
      var t := Remove(s[1..], x);
      assert s == [s[0]] + s[1..];
      assert s[0] !in s[1..];
    }
  }

  lemma {:induction false} RemoveAt<T>(s: seq<T>, x: T, i: nat)
    requires i < |s| && s[i] == x && x !in s[..i]
    ensures Remove(s, x) == s[..i] + s[i + 1..]
  {
    if i > 0 {
      assert s[0] == s[..i][0];
      assert s[1..][..i - 1] == s[..i][1..];
      RemoveAt(s[1..], x, i - 1);
      assert s[..i] + s[i + 1..] == [s[0]] + (s[1..][..i - 1] + s[1..][i..]);
    }
  }

  ghost function WithWatchers<C>(index: seq<map<Key, seq<C>>>, wk: WatchedKey, list: seq<C>): seq<map<Key, seq<C>>>
    requires wk.db < |index|
  {
    index[wk.db := if list == [] then index[wk.db] - {wk.key} else index[wk.db][wk.key := list]]
  }

  /** One round of `unwatchAllKeys`: client and key leave each other's lists. */
  ghost function Unlink<C>(v: View<C>, c: C, wk: WatchedKey): View<C>
    requires c in v.lists && wk.db < |v.index|
  {
    View(v.lists[c := Remove(v.lists[c], wk)], v.dirty, WithWatchers(v.index, wk, Remove(Watchers(v, wk), c)),
         v.data, v.history)
  }

  lemma UnlinkKeeps<C>(v: View<C>, c: C, wk: WatchedKey)
    requires Shape(v) && Linked(v) && c in v.lists && wk in v.lists[c]
    ensures Shape(Unlink(v, c, wk)) && Linked(Unlink(v, c, wk))
  {
    hide Remove;
    var r := Unlink(v, c, wk);
    RemoveFacts(v.lists[c], wk);
    RemoveFacts(Watchers(v, wk), c);
    forall w ensures Watchers(r, w) == if w == wk then Remove(Watchers(v, wk), c) else Watchers(v, w) {}
    assert Linked(r) by {
      forall w ensures NoDup(Watchers(r, w)) { assert NoDup(Watchers(v, w)); }
      hide Watchers;
      forall w, o | o in r.lists ensures w in r.lists[o] <==> o in Watchers(r, w) {
        assert w in v.lists[o] <==> o in Watchers(v, w);
      }
    }
  }

  ghost function UnlinkAll<C>(v: View<C>, c: C): View<C>
    requires Shape(v) && Linked(v) && c in v.lists
    decreases |v.lists[c]|
  {
    if v.lists[c] == [] then v
    else
      UnlinkKeeps(v, c, v.lists[c][0]);
      UnlinkAll(Unlink(v, c, v.lists[c][0]), c)
  }

  lemma {:induction false} UnlinkAllKeeps<C>(v: View<C>, c: C)
    requires Shape(v) && Linked(v) && c in v.lists
    ensures var r := UnlinkAll(v, c);
      && Shape(r) && Linked(r) && r.lists == v.lists[c := []]
      && r.dirty == v.dirty && r.data == v.data && r.history == v.history
    decreases |v.lists[c]|
  {
    if v.lists[c] != [] {
      hide Shape, Linked;
      UnlinkKeeps(v, c, v.lists[c][0]);
      UnlinkAllKeeps(Unlink(v, c, v.lists[c][0]), c);
    }
  }

  /** `unwatchAllKeys`. */
  ghost function UnwatchAll<C>(v: View<C>, c: C): View<C>
    requires Shape(v) && Linked(v) && c in v.lists
  {
    var r := UnlinkAll(v, c);
    View(r.lists, r.dirty, r.index, r.data, r.history + [Unwatched(c)])
  }

  /** The DIRTY_CAS flag is reset. */
  ghost function Clear<C>(v: View<C>, c: C): View<C>
    requires c in v.dirty
  {
    View(v.lists, v.dirty[c := false], v.index, v.data, v.history + [Cleared(c)])
  }

  lemma UnwatchAllKeeps<C>(v: View<C>, c: C)
    requires Sound(v) && c in v.lists
    requires HeldExcept(v, c)
    ensures Valid(UnwatchAll(v, c))
  {
    var r := UnwatchAll(v, c);
    UnlinkAllKeeps(v, c);
    assert Shape(r) && Linked(r) by { assert forall wk :: Watchers(r, wk) == Watchers(UnlinkAll(v, c), wk); }
    hide Watching, Dirty, WatchedValue, UnlinkAll, Linked;
    forall o | o in r.dirty ensures r.dirty[o] == Dirty(r.history, o) { AppendDirty(v.history, Unwatched(c), o); }
    forall o, w | o in r.lists
      ensures w in r.lists[o] <==> Watching(r.history, o, w)
      ensures w in r.lists[o] && !r.dirty[o] ==> Lookup(r.data, w) == WatchedValue(r.history, o, w)
    {
      Append(v.history, Unwatched(c), o, w);
    }
  }

  /** Clearing the flag keeps the promise about watched values for all other clients, and for the
      client itself if it watches nothing. */
  lemma ClearKeeps<C>(v: View<C>, c: C)
    requires Valid(v) && c in v.lists
    ensures Sound(Clear(v, c))
    ensures HeldExcept(Clear(v, c), c)
    ensures v.lists[c] == [] ==> Valid(Clear(v, c))
  {
    var r := Clear(v, c);
    assert Shape(r) && Linked(r) by { assert forall wk :: Watchers(r, wk) == Watchers(v, wk); }
    hide Watching, Dirty, WatchedValue, Linked;
    forall o | o in r.dirty ensures r.dirty[o] == Dirty(r.history, o) { AppendDirty(v.history, Cleared(c), o); }
    forall o, w | o in r.lists
      ensures w in r.lists[o] <==> Watching(r.history, o, w)
      ensures o != c && w in r.lists[o] && !r.dirty[o] ==> Lookup(r.data, w) == WatchedValue(r.history, o, w)
    {
      Append(v.history, Cleared(c), o, w);
    }
  }

  // ---------------------------------------------------------------- touching

  /** `touchWatchedKey`, by the lists of clients. */
  ghost function Touch<C>(v: View<C>, wk: WatchedKey): View<C>
  {
    View(v.lists, map c | c in v.dirty :: v.dirty[c] || c in Watchers(v, wk), v.index, v.data,
         v.history + [Touched(wk)])
  }

  /** `touchWatchedKeysOnFlush`, by the clients' own lists; `gone` are the keys that exist in the
      databases to be flushed. */
  ghost function TouchAll<C>(v: View<C>, gone: set<WatchedKey>): View<C>
    requires Shape(v)
  {
    View(v.lists, map c | c in v.dirty :: v.dirty[c] || exists wk :: wk in v.lists[c] && wk in gone,
         v.index, v.data, v.history + [Flushed(gone)])
  }

  ghost predicate SameBut(d: Data, e: Data, f: set<WatchedKey>) {
    |d| == |e| && forall wk :: wk !in f ==> Lookup(d, wk) == Lookup(e, wk)
  }

  /** The data changes at `wk` only, and the key is touched. */
  lemma TouchKeeps<C>(v: View<C>, d: Data, wk: WatchedKey)
    requires Valid(v) && SameBut(v.data, d, {wk})
    ensures Valid(Touch(v.(data := d), wk))
  {
    var r := Touch(v.(data := d), wk);
    assert Shape(r) && Linked(r) by {
      assert forall w :: Watchers(r, w) == Watchers(v, w) == Watchers(v.(data := d), w);
    }
    assert Watchers(v.(data := d), wk) == Watchers(v, wk);
    hide Watching, Dirty, WatchedValue, Linked, Watchers;
    forall o | o in r.dirty ensures r.dirty[o] == Dirty(r.history, o) {
      AppendDirty(v.history, Touched(wk), o);
      assert Watching(v.history, o, wk) ==> Hits(Event<C>.Touched(wk), wk);
    }
    forall o, w | o in r.lists
      ensures w in r.lists[o] <==> Watching(r.history, o, w)
      ensures w in r.lists[o] && !r.dirty[o] ==> Lookup(r.data, w) == WatchedValue(r.history, o, w)
    {
      Append(v.history, Touched(wk), o, w);
    }
  }

  /** The data changes at keys in `gone` only, and these are touched. */
  lemma TouchAllKeeps<C>(v: View<C>, d: Data, gone: set<WatchedKey>)
    requires Valid(v) && SameBut(v.data, d, gone)
    ensures Valid(TouchAll(v, gone).(data := d))
  {
    var r := TouchAll(v, gone).(data := d);
    assert Shape(r) && Linked(r) by { assert forall w :: Watchers(r, w) == Watchers(v, w); }
    hide Watching, Dirty, WatchedValue, Linked, Watchers;
    forall o | o in r.dirty ensures r.dirty[o] == Dirty(r.history, o) {
      AppendDirty(v.history, Flushed(gone), o);
      assert forall w :: Hits(Event<C>.Flushed(gone), w) <==> w in gone;
    }
    forall o, w | o in r.lists
      ensures w in r.lists[o] <==> Watching(r.history, o, w)
      ensures w in r.lists[o] && !r.dirty[o] ==> Lookup(r.data, w) == WatchedValue(r.history, o, w)
    {
      Append(v.history, Flushed(gone), o, w);
    }
  }

  // ---------------------------------------------------------------- clients come and go

  ghost function Connect<C>(v: View<C>, c: C): View<C> {
    View(v.lists[c := []], v.dirty[c := false], v.index, v.data, v.history + [Connected(c)])
  }

  lemma ConnectKeeps<C>(v: View<C>, c: C)
    requires Valid(v) && c !in v.lists
    ensures Valid(Connect(v, c))
  {
    var r := Connect(v, c);
    assert Shape(r) && Linked(r) by { assert forall w :: Watchers(r, w) == Watchers(v, w); }
    hide Watching, Dirty, WatchedValue, Linked, Watchers;
    forall o | o in r.dirty ensures r.dirty[o] == Dirty(r.history, o) { AppendDirty(v.history, Connected(c), o); }
    forall o, w | o in r.lists
      ensures w in r.lists[o] <==> Watching(r.history, o, w)
      ensures w in r.lists[o] && !r.dirty[o] ==> Lookup(r.data, w) == WatchedValue(r.history, o, w)
    {
      Append(v.history, Connected(c), o, w);
    }
  }

  /** `freeClient`, once the client watches nothing. */
  ghost function Forget<C>(v: View<C>, c: C): View<C> {
    View(v.lists - {c}, v.dirty - {c}, v.index, v.data, v.history)
  }

  lemma ForgetKeeps<C>(v: View<C>, c: C)
    requires Valid(v) && c in v.lists && v.lists[c] == []
    ensures Valid(Forget(v, c))
  {
    var r := Forget(v, c);
    assert Shape(r) && Linked(r) by { assert forall w :: Watchers(r, w) == Watchers(v, w) && c !in Watchers(v, w); }
  }
}
