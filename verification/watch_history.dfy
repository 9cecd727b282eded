/** What has happened to watched keys, and what the DIRTY_CAS flag of a client should say about it. */
module WatchHistory {

  type Key = string
  type Value = string
  datatype Option<+T> = None | Some(value: T)
  datatype WatchedKey = WatchedKey(db: nat, key: Key)

  /** The events of `multi.c`: `was` is what a key held when it was put under watch, `gone` are the
      keys that a flush finds. */
  datatype Event<C> =
    | Connected(c: C)
    | Watched(c: C, wk: WatchedKey, was: Option<Value>)
    | Unwatched(c: C)
    | Cleared(c: C)
    | Touched(key: WatchedKey)
    | Flushed(gone: set<WatchedKey>)

  predicate Hits<C>(e: Event<C>, wk: WatchedKey) {
    match e
    case Touched(key) => key == wk
    case Flushed(gone) => wk in gone
    case _ => false
  }

  predicate Puts<C(==)>(e: Event<C>, c: C, wk: WatchedKey) { e.Watched? && e.c == c && e.wk == wk }

  predicate Lifts<C(==)>(e: Event<C>, c: C) { (e.Unwatched? || e.Connected?) && e.c == c }

  predicate Clears<C(==)>(e: Event<C>, c: C) { (e.Cleared? || e.Connected?) && e.c == c }

  /** A watch of the key by the client is in force after the events. */
  predicate Watching<C(==)>(h: seq<Event<C>>, c: C, wk: WatchedKey) {
    if h == [] then false
    else if Puts(Last(h), c, wk) then true
    else if Lifts(Last(h), c) then false
    else Watching(Front(h), c, wk)
  }

  /** What the key held when the watch in force was set. */
  function WatchedValue<C(==)>(h: seq<Event<C>>, c: C, wk: WatchedKey): Option<Value>
    requires Watching(h, c, wk)
  {
    if Puts(Last(h), c, wk) then Last(h).was else WatchedValue(Front(h), c, wk)
  }

  /** A key was hit while the client watched it, and the client was not cleared since. */
  ghost predicate Dirty<C>(h: seq<Event<C>>, c: C) {
    if h == [] then false
    else if Clears(Last(h), c) then false
    else if exists wk :: Hits(Last(h), wk) && Watching(Front(h), c, wk) then true
    else Dirty(Front(h), c)
  }

  function Last<T>(s: seq<T>): T
    requires s != []
  {
    s[|s| - 1]
  }

  function Front<T>(s: seq<T>): seq<T>
    requires s != []
  {
    s[..|s| - 1]
  }

  // ---------------------------------------------------------------- the closed forms

  /** The watch set by event `i` still holds after the first `n` events. */
  ghost predicate InForce<C>(h: seq<Event<C>>, c: C, wk: WatchedKey, i: nat, n: nat) {
    i < n <= |h| && Puts(h[i], c, wk) && forall k :: i < k < n ==> !Lifts(h[k], c)
  }

  lemma {:induction false} WatchingMeaning<C>(h: seq<Event<C>>, c: C, wk: WatchedKey)
    ensures Watching(h, c, wk) <==> exists i: nat :: InForce(h, c, wk, i, |h|)
  {
    forall i: nat | InForce(h, c, wk, i, |h|) ensures Watching(h, c, wk) { ForceIsWatching(h, c, wk, i); }
    if h == [] {
    } else if Watching(h, c, wk) {
      var f := Front(h);
      WatchingMeaning(f, c, wk);
      if Puts(Last(h), c, wk) {
        assert InForce(h, c, wk, |h| - 1, |h|);
      } else {
        var i: nat :| InForce(f, c, wk, i, |f|);
        forall k | i < k < |h| ensures !Lifts(h[k], c) { if k < |f| { assert h[k] == f[k]; } }
        assert InForce(h, c, wk, i, |h|);
      }
    }
  }

  lemma {:induction false} ForceIsWatching<C>(h: seq<Event<C>>, c: C, wk: WatchedKey, i: nat)
    requires InForce(h, c, wk, i, |h|)
    ensures Watching(h, c, wk)
  {
    if i < |h| - 1 {
      var f := Front(h);
      forall k | i < k < |f| ensures !Lifts(f[k], c) { assert h[k] == f[k]; }
      assert f[i] == h[i];
      ForceIsWatching(f, c, wk, i);
    }
  }

  /** Event `j` hits the key while the watch set by event `i` is in force, and nothing clears the
      client afterwards. */
  ghost predicate Spoils<C>(h: seq<Event<C>>, c: C, wk: WatchedKey, i: nat, j: nat) {
    && j < |h| && InForce(h, c, wk, i, j) && Hits(h[j], wk)
    && forall k :: j < k < |h| ==> !Clears(h[k], c)
  }

  /** A client is dirty exactly when some watched key was hit after it was put under watch and
      before the watch was lifted, and the client has not been cleared since. */
  lemma {:induction false} DirtyMeaning<C>(h: seq<Event<C>>, c: C)
    ensures Dirty(h, c) <==> exists wk, i: nat, j: nat :: Spoils(h, c, wk, i, j)
  {
    if h == [] {
    } else {
      DirtyMeaning(Front(h), c);
      if Dirty(h, c) {
        DirtyHasCause(h, c);
      }
      if wk, i: nat, j: nat :| Spoils(h, c, wk, i, j) {
        CauseDirties(h, c, wk, i, j);
      }
    }
  }

  lemma DirtyHasCause<C>(h: seq<Event<C>>, c: C)
    requires h != [] && Dirty(h, c)
    requires Dirty(Front(h), c) ==> exists wk, i: nat, j: nat :: Spoils(Front(h), c, wk, i, j)
    ensures exists wk, i: nat, j: nat :: Spoils(h, c, wk, i, j)
  {
    hide Watching, Hits, Puts, Lifts;
    var f := Front(h);
    if wk :| Hits(Last(h), wk) && Watching(f, c, wk) {
      WatchingMeaning(f, c, wk);
      var i: nat :| InForce(f, c, wk, i, |f|);
      forall k | i < k < |f| ensures !Lifts(h[k], c) { assert h[k] == f[k]; }
      assert InForce(h, c, wk, i, |f|);
      assert Spoils(h, c, wk, i, |f|);
    } else {
      var wk, i: nat, j: nat :| Spoils(f, c, wk, i, j);
      forall k | i < k < j ensures !Lifts(h[k], c) { assert h[k] == f[k]; }
      assert InForce(h, c, wk, i, j);
      forall k | j < k < |h| ensures !Clears(h[k], c) { if k < |f| { assert h[k] == f[k]; } }
      assert Spoils(h, c, wk, i, j);
    }
  }

  lemma CauseDirties<C>(h: seq<Event<C>>, c: C, wk: WatchedKey, i: nat, j: nat)
    requires h != [] && Spoils(h, c, wk, i, j)
    requires (exists wk, i: nat, j: nat :: Spoils(Front(h), c, wk, i, j)) ==> Dirty(Front(h), c)
    ensures Dirty(h, c)
  {
    var f := Front(h);
    forall k | i < k < j ensures !Lifts(f[k], c) { assert h[k] == f[k]; }
    assert InForce(f, c, wk, i, j);
    if j == |f| {
      WatchingMeaning(f, c, wk);
      assert Hits(Last(h), wk) && Watching(f, c, wk);
    } else {
      assert !Clears(h[|h| - 1], c);
      forall k | j < k < |f| ensures !Clears(f[k], c) { assert h[k] == f[k]; }
      assert Spoils(f, c, wk, i, j);
    }
  }

  // ---------------------------------------------------------------- one more event

  lemma Append<C>(h: seq<Event<C>>, e: Event<C>, c: C, wk: WatchedKey)
    ensures Watching(h + [e], c, wk) == (Puts(e, c, wk) || (!Lifts(e, c) && Watching(h, c, wk)))
    ensures Watching(h + [e], c, wk) ==>
              WatchedValue(h + [e], c, wk) == if Puts(e, c, wk) then e.was else WatchedValue(h, c, wk)
  {
    assert Front(h + [e]) == h && Last(h + [e]) == e;
  }

  lemma AppendDirty<C>(h: seq<Event<C>>, e: Event<C>, c: C)
    ensures Dirty(h + [e], c) == (!Clears(e, c) && (Dirty(h, c) || exists wk :: Hits(e, wk) && Watching(h, c, wk)))
  {
    assert Front(h + [e]) == h && Last(h + [e]) == e;
  }

  // ---------------------------------------------------------------- what others do

  /** The event is not the client's own doing: it neither sets nor lifts a watch of the client, nor
      clears it. */
  predicate Foreign<C(==)>(e: Event<C>, c: C) { e.Touched? || e.Flushed? || e.c != c }

  /** The history has grown by touched keys and by what client `c` itself did. */
  ghost predicate Grown<C>(h: seq<Event<C>>, h': seq<Event<C>>, c: C) {
    h <= h' && forall i :: |h| <= i < |h'| ==> h'[i].Touched? || h'[i].Flushed? || h'[i].c == c
  }

  lemma GrownTwice<C>(h: seq<Event<C>>, h': seq<Event<C>>, h'': seq<Event<C>>, c: C)
    requires Grown(h, h', c) && Grown(h', h'', c)
    ensures Grown(h, h'', c)
  {
  }

  /** An event from `n` on hits a key that the client watched then. */
  ghost predicate HitSince<C>(h: seq<Event<C>>, n: nat, c: C) {
    exists j, wk :: n <= j < |h| && Hits(h[j], wk) && Watching(h[..n], c, wk)
  }

  /** Events that are not the client's own leave its watches and the watched values alone, and make
      it dirty exactly when one of them hits a key that it watches. */
  lemma {:induction false} ForeignEvents<C>(h: seq<Event<C>>, n: nat, c: C)
    requires n <= |h| && forall i :: n <= i < |h| ==> Foreign(h[i], c)
    ensures forall wk :: Watching(h, c, wk) <==> Watching(h[..n], c, wk)
    ensures forall wk :: Watching(h, c, wk) ==> WatchedValue(h, c, wk) == WatchedValue(h[..n], c, wk)
    ensures Dirty(h, c) <==> Dirty(h[..n], c) || HitSince(h, n, c)
  {
    if n == |h| {
      assert h[..n] == h;
    } else {
      hide Watching, WatchedValue, Dirty, Hits;
      var f, e := Front(h), Last(h);
      assert f[..n] == h[..n] && h == f + [e];
      ForeignEvents(f, n, c);
      forall wk
        ensures Watching(h, c, wk) <==> Watching(f, c, wk)
        ensures Watching(h, c, wk) ==> WatchedValue(h, c, wk) == WatchedValue(f, c, wk)
      {
        Append(f, e, c, wk);
      }
      AppendDirty(f, e, c);
      OneMoreHit(h, n, c);
    }
  }

  lemma OneMoreHit<C>(h: seq<Event<C>>, n: nat, c: C)
    requires n < |h|
    ensures HitSince(h, n, c) <==>
              HitSince(Front(h), n, c) || exists wk :: Hits(Last(h), wk) && Watching(h[..n], c, wk)
  {
    hide Watching, Hits;
    var f := Front(h);
    assert f[..n] == h[..n];
    if HitSince(f, n, c) {
      var j, wk :| n <= j < |f| && Hits(f[j], wk) && Watching(f[..n], c, wk);
      assert h[j] == f[j];
    }
    if HitSince(h, n, c) {
      var j, wk :| n <= j < |h| && Hits(h[j], wk) && Watching(h[..n], c, wk);
      if j < |f| { assert f[j] == h[j]; }
    }
  }
}
