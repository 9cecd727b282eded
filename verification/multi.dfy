/** `multi.c`: WATCH, MULTI, EXEC and DISCARD over many clients. */
module Multi {
  import opened WatchHistory
  import opened WatchSpec

  datatype Command = Get(key: Key) | Set(key: Key, value: Value) | Del(key: Key) | Select(id: int)
                   | FlushDb | FlushAll | Unwatch

  datatype Reply = Ok | Bulk(value: Option<Value>) | Number(n: nat) | Error | Queued
                 | MultiBulkLen(n: nat) | NullMultiBulk | ExecAbort

  // ---------------------------------------------------------------- what commands mean

  function NewData(d: Data, db: nat, cmd: Command): (r: Data)
    requires db < |d|
    ensures |r| == |d|
  {
    match cmd
    case Set(k, v) => d[db := d[db][k := v]]
    case Del(k) => d[db := d[db] - {k}]
    case FlushDb => d[db := map[]]
    case FlushAll => seq(|d|, _ => map[])
    case _ => d
  }

  function NewDb(d: Data, db: nat, cmd: Command): (r: nat)
    requires db < |d|
    ensures r < |d|
  {
    if cmd.Select? && 0 <= cmd.id < |d| then cmd.id else db
  }

  function Answer(d: Data, db: nat, cmd: Command): Reply
    requires db < |d|
  {
    match cmd
    case Get(k) => Bulk(Lookup(d, WatchedKey(db, k)))
    case Del(k) => Number(if k in d[db] then 1 else 0)
    case Select(id) => if 0 <= id < |d| then Ok else Error
    case _ => Ok
  }

  datatype State = State(data: Data, db: nat, answers: seq<Reply>)

  /** Several commands of one client, one after the other. */
  function After(d: Data, db: nat, cmds: seq<Command>): (r: State)
    requires db < |d|
    ensures |r.data| == |d| && r.db < |d|
  {
    if cmds == [] then State(d, db, [])
    else
      var s := After(d, db, Front(cmds));
      State(NewData(s.data, s.db, Last(cmds)), NewDb(s.data, s.db, Last(cmds)),
            s.answers + [Answer(s.data, s.db, Last(cmds))])
  }

  lemma OneMore(d: Data, db: nat, cmds: seq<Command>, cmd: Command)
    requires db < |d|
    ensures var s := After(d, db, cmds);
      After(d, db, cmds + [cmd])
      == State(NewData(s.data, s.db, cmd), NewDb(s.data, s.db, cmd), s.answers + [Answer(s.data, s.db, cmd)])
  {
    assert Front(cmds + [cmd]) == cmds && Last(cmds + [cmd]) == cmd;
  }

  /** The keys a command may change. */
  predicate Writes(cmd: Command, db: nat, wk: WatchedKey) {
    match cmd
    case Set(k, _) => wk == WatchedKey(db, k)
    case Del(k) => wk == WatchedKey(db, k)
    case FlushDb => wk.db == db
    case FlushAll => true
    case _ => false
  }

  /** What is written is what is read, and nothing else is written: after a SET the key holds the
      value, after a DEL or a flush the key is gone. */
  lemma WrittenIsRead(d: Data, db: nat, cmd: Command, wk: WatchedKey)
    requires db < |d|
    ensures Lookup(NewData(d, db, cmd), wk)
         == if !Writes(cmd, db, wk) then Lookup(d, wk) else if cmd.Set? then Some(cmd.value) else None
  {
  }

  /** One command after the other: a GET answers what the last write left, in the selected database. */
  lemma GetAnswers(d: Data, db: nat, cmds: seq<Command>, k: Key)
    requires db < |d|
    ensures var s := After(d, db, cmds);
      After(d, db, cmds + [Get(k)]) == State(s.data, s.db, s.answers + [Bulk(Lookup(s.data, WatchedKey(s.db, k)))])
    ensures var s, after := After(d, db, cmds), After(d, db, cmds + [Del(k)]);
      after.answers == s.answers + [Number(if Lookup(s.data, WatchedKey(s.db, k)).Some? then 1 else 0)]
  {
    OneMore(d, db, cmds, Get(k));
    OneMore(d, db, cmds, Del(k));
  }

  /** The keys that exist in a database, or in all of them. */
  ghost function Existing(d: Data, dbid: int): set<WatchedKey> {
    set i, k | 0 <= i < |d| && k in d[i] && (dbid == -1 || dbid == i) :: WatchedKey(i, k)
  }

  /** A command, watched keys included. */
  ghost function Do<C>(v: View<C>, c: C, db: nat, cmd: Command): View<C>
    requires Valid(v) && c in v.lists && db < |v.data|
  {
    var d := NewData(v.data, db, cmd);
    match cmd
    case Set(k, _) => Touch(v.(data := d), WatchedKey(db, k))
    case Del(k) => if k in v.data[db] then Touch(v.(data := d), WatchedKey(db, k)) else v
    case FlushDb => TouchAll(v, Existing(v.data, db)).(data := d)
    case FlushAll => TouchAll(v, Existing(v.data, -1)).(data := d)
    case Unwatch => UnwatchAllKeepsSound(v, c); Clear(UnwatchAll(v, c), c)
    case _ => v
  }

  lemma UnwatchAllKeepsSound<C>(v: View<C>, c: C)
    requires Valid(v) && c in v.lists
    ensures Valid(UnwatchAll(v, c)) && UnwatchAll(v, c).lists == v.lists[c := []]
    ensures UnwatchAll(v, c).dirty == v.dirty && UnwatchAll(v, c).data == v.data
    ensures Shape(v) && Linked(v)
  {
    hide UnlinkAll, Linked, Dirty, Watching, WatchedValue;
    UnlinkAllKeeps(v, c);
    UnwatchAllKeeps(v, c);
  }

  /** Every command keeps the indexes and the flags right, changes the data as it should, and takes
      no client's lists away but its own. */
  lemma DoKeeps<C>(v: View<C>, c: C, db: nat, cmd: Command)
    requires Valid(v) && c in v.lists && db < |v.data|
    ensures var r := Do(v, c, db, cmd);
      && Valid(r) && r.data == NewData(v.data, db, cmd) && r.lists.Keys == v.lists.Keys
      && r.lists == (if cmd.Unwatch? then v.lists[c := []] else v.lists)
    ensures v.lists[c] == [] && !v.dirty[c] ==> !Do(v, c, db, cmd).dirty[c]
  {
    hide Sound, Held, Watchers;
    var d := NewData(v.data, db, cmd);
    match cmd
    case Set(k, _) =>
      TouchKeeps(v, d, WatchedKey(db, k));
      Untouched(v, d, WatchedKey(db, k), c);
    case Del(k) =>
      if k in v.data[db] {
        TouchKeeps(v, d, WatchedKey(db, k));
        Untouched(v, d, WatchedKey(db, k), c);
      } else {
        assert v.data[db] - {k} == v.data[db];
      }
    case FlushDb => TouchAllKeeps(v, d, Existing(v.data, db)); SoundShape(v);
    case FlushAll => TouchAllKeeps(v, d, Existing(v.data, -1)); SoundShape(v);
    case Unwatch =>
      SoundShape(v);
      UnwatchAllKeepsSound(v, c);
      ClearKeeps(UnwatchAll(v, c), c);
    case _ =>
  }

  /** Commands that find nothing to change. */
  lemma DoNothing<C>(v: View<C>, c: C, db: nat, cmd: Command)
    requires Valid(v) && c in v.lists && db < |v.data|
    ensures cmd.Get? || cmd.Select? || (cmd.Del? && cmd.key !in v.data[db]) ==> Do(v, c, db, cmd) == v
  {
  }

  lemma SoundShape<C>(v: View<C>)
    requires Sound(v)
    ensures Shape(v) && Linked(v)
  {
  }

  lemma Untouched<C>(v: View<C>, d: Data, wk: WatchedKey, c: C)
    requires Sound(v) && c in v.lists
    ensures v.lists[c] == [] && !v.dirty[c] ==> !Touch(v.(data := d), wk).dirty[c]
  {
    assert Watchers(v.(data := d), wk) == Watchers(v, wk);
  }

  /** `discardTransaction` on the indexes: the flag first, then the lists. */
  ghost function Discarded<C>(v: View<C>, c: C): View<C>
    requires Valid(v) && c in v.lists
  {
    ClearKeeps(v, c);
    UnwatchAll(Clear(v, c), c)
  }

  lemma DiscardedKeeps<C>(v: View<C>, c: C)
    requires Valid(v) && c in v.lists
    ensures Valid(Discarded(v, c)) && Discarded(v, c).data == v.data
    ensures Sound(Clear(v, c)) && HeldExcept(Clear(v, c), c)
  {
    hide Sound, HeldExcept;
    SoundShape(v);
    ClearKeeps(v, c);
    UnwatchAllKeeps(Clear(v, c), c);
    UnwatchAllData(Clear(v, c), c);
  }

  /** Commands add to the history what they touch and what the client itself does. */
  lemma DoGrows<C>(v: View<C>, c: C, db: nat, cmd: Command)
    requires Valid(v) && c in v.lists && db < |v.data|
    ensures Grown(v.history, Do(v, c, db, cmd).history, c)
  {
    hide Sound, Held, Watchers;
    if cmd.Unwatch? {
      SoundShape(v);
      UnwatchAllGrows(v, c);
    }
  }

  lemma UnwatchAllGrows<C>(v: View<C>, c: C)
    requires Shape(v) && Linked(v) && c in v.lists
    ensures UnwatchAll(v, c).history == v.history + [Unwatched(c)] && UnwatchAll(v, c).data == v.data
  {
    hide Shape, Linked;
    UnlinkAllKeeps(v, c);
  }

  lemma DiscardedGrows<C>(v: View<C>, c: C)
    requires Valid(v) && c in v.lists
    ensures Grown(v.history, Discarded(v, c).history, c)
  {
    hide Sound;
    SoundShape(v);
    ClearKeeps(v, c);
    SoundShape(Clear(v, c));
    UnwatchAllGrows(Clear(v, c), c);
  }

  lemma WatchForGrows<C>(v: View<C>, c: C, wk: WatchedKey)
    requires c in v.lists && wk.db < |v.index|
    ensures Grown(v.history, WatchFor(v, c, wk).history, c)
  {
  }

  lemma UnwatchAllData<C>(v: View<C>, c: C)
    requires Sound(v) && c in v.lists
    ensures UnwatchAll(v, c).data == v.data
  {
    UnlinkAllKeeps(v, c);
  }

  // ---------------------------------------------------------------- the objects

  /** What the processing of a request comes down to. Some errors, the `flagged` ones, make a later
      EXEC fail. */
  datatype Request = Rejected(flagged: bool) | Run(cmd: Command) | Watch(keys: seq<Key>)
                   | MultiCmd | Exec | Discard

  /** A client's own state. */
  datatype Conn = Conn(multi: bool, dirtyCas: bool, dirtyExec: bool, db: nat, watched: seq<WatchedKey>,
                       queue: seq<Command>, reply: seq<Reply>)

  function Replied(k: Conn, r: Reply): Conn { k.(reply := k.reply + [r]) }

  /** EXEC: what it makes of the data and of the client. */
  function Executed(d: Data, k: Conn): (r: (Data, Conn))
    requires k.db < |d|
  {
    if !k.multi then (d, Replied(k, Error))
    else if k.dirtyCas || k.dirtyExec then
      (d, Conn(false, false, false, k.db, [], [], k.reply + [if k.dirtyExec then ExecAbort else NullMultiBulk]))
    else
      var s := After(d, k.db, k.queue);
      (s.data, Conn(false, false, false, s.db, [], [], k.reply + [MultiBulkLen(|k.queue|)] + s.answers))
  }

  /** DISCARD. */
  function Dropped(k: Conn): Conn {
    if !k.multi then Replied(k, Error)
    else Conn(false, false, false, k.db, [], [], k.reply + [Ok])
  }

  /** The client's list after a WATCH of these keys. */
  function ListAfter(list: seq<WatchedKey>, db: nat, keys: seq<Key>): (r: seq<WatchedKey>)
    ensures forall wk :: wk in r <==> wk in list || (wk.db == db && wk.key in keys)
    ensures list <= r && (NoDup(list) ==> NoDup(r))
  {
    if keys == [] then list
    else
      var l, wk := ListAfter(list, db, Front(keys)), WatchedKey(db, Last(keys));
      assert keys == Front(keys) + [Last(keys)];
      if wk in l then l else l + [wk]
  }

  lemma ListAfterOneMore(list: seq<WatchedKey>, db: nat, keys: seq<Key>, key: Key)
    ensures ListAfter(list, db, keys + [key])
         == var l := ListAfter(list, db, keys); if WatchedKey(db, key) in l then l else l + [WatchedKey(db, key)]
  {
    assert Front(keys + [key]) == keys && Last(keys + [key]) == key;
  }

  class Client {
    var multi: bool
    var dirtyCas: bool
    var dirtyExec: bool
    var db: nat
    var watched: seq<WatchedKey>
    var queue: seq<Command>
    var reply: seq<Reply>

    constructor ()
      ensures !multi && !dirtyCas && !dirtyExec && db == 0 && watched == [] && queue == [] && reply == []
    {
      multi, dirtyCas, dirtyExec, db, watched, queue, reply := false, false, false, 0, [], [], [];
    }

    function Now(): Conn
      reads this
    {
      Conn(multi, dirtyCas, dirtyExec, db, watched, queue, reply)
    }
  }

  class Db {
    var dict: map<Key, Value>
    var watchedKeys: map<Key, seq<Client>>

    constructor ()
      ensures dict == map[] && watchedKeys == map[]
    {
      dict, watchedKeys := map[], map[];
    }

    function Listed(k: Key): seq<Client>
      reads this`watchedKeys
    {
      if k in watchedKeys then watchedKeys[k] else []
    }
  }

  ghost function DictsOf(dbs: seq<Db>): (d: Data)
    reads dbs`dict
    ensures |d| == |dbs| && forall i :: 0 <= i < |dbs| ==> d[i] == dbs[i].dict
  {
    if dbs == [] then [] else DictsOf(Front(dbs)) + [Last(dbs).dict]
  }

  ghost function IndexOf(dbs: seq<Db>): (d: seq<map<Key, seq<Client>>>)
    reads dbs`watchedKeys
    ensures |d| == |dbs| && forall i :: 0 <= i < |dbs| ==> d[i] == dbs[i].watchedKeys
  {
    if dbs == [] then [] else IndexOf(Front(dbs)) + [Last(dbs).watchedKeys]
  }

  lemma ListedAfter(list: seq<WatchedKey>, db: nat, keys: seq<Key>)
    ensures forall wk :: wk in ListAfter(list, db, keys) <==> wk in list || (wk.db == db && wk.key in keys)
  {
  }

  /** Some event hits one of these keys. */
  ghost predicate SomeHit(events: seq<Event<Client>>, list: seq<WatchedKey>, db: nat, keys: seq<Key>) {
    exists e, wk :: e in events && Hits(e, wk) && (wk in list || (wk.db == db && wk.key in keys))
  }

  lemma HitsSince(h: seq<Event<Client>>, n: nat, a: Client, list: seq<WatchedKey>, db: nat, keys: seq<Key>)
    requires n <= |h|
    requires forall wk :: Watching(h[..n], a, wk) <==> wk in list || (wk.db == db && wk.key in keys)
    ensures HitSince(h, n, a) <==> SomeHit(h[n..], list, db, keys)
  {
    hide Watching, Hits;
    if HitSince(h, n, a) {
      var j, wk :| n <= j < |h| && Hits(h[j], wk) && Watching(h[..n], a, wk);
      assert h[n..][j - n] == h[j];
    }
    if SomeHit(h[n..], list, db, keys) {
      var e, wk :| e in h[n..] && Hits(e, wk) && (wk in list || (wk.db == db && wk.key in keys));
      var i :| 0 <= i < |h[n..]| && h[n..][i] == e;
      assert h[n + i] == e;
    }
  }

  /** The commands among requests that a client makes. */
  function Own(a: Client, script: seq<(Client, Request)>): seq<Command> {
    if script == [] then []
    else
      Own(a, Front(script)) + if Last(script).0 == a && Last(script).1.Run? then [Last(script).1.cmd] else []
  }

  lemma OwnStep(a: Client, script: seq<(Client, Request)>, i: nat)
    requires i < |script|
    ensures Own(a, script[..i + 1])
         == Own(a, script[..i]) + if script[i].0 == a && script[i].1.Run? then [script[i].1.cmd] else []
  {
    assert Front(script[..i + 1]) == script[..i] && Last(script[..i + 1]) == script[i];
  }

  lemma StillForeign(h0: seq<Event<Client>>, h1: seq<Event<Client>>, h2: seq<Event<Client>>, c: Client, a: Client)
    requires h0 <= h1 && forall i :: |h0| <= i < |h1| ==> Foreign(h1[i], a)
    requires Grown(h1, h2, c) && (c == a ==> h1 == h2)
    ensures h0 <= h2 && forall i :: |h0| <= i < |h2| ==> Foreign(h2[i], a)
  {
  }

  method Search<T(==)>(s: seq<T>, x: T) returns (i: nat)
    ensures i <= |s| && x !in s[..i]
    ensures i < |s| ==> s[i] == x
  {
    i := 0;
    while i < |s| && s[i] != x
      invariant i <= |s| && x !in s[..i]
    {
      i := i + 1;
    }
  }

  class Server {
    const dbs: seq<Db>
    var clients: seq<Client>
    ghost var history: seq<Event<Client>>

    ghost function Lists(): map<Client, seq<WatchedKey>>
      reads this`clients, clients`watched
    {
      map c | c in clients :: c.watched
    }

    ghost function Flags(): map<Client, bool>
      reads this`clients, clients`dirtyCas
    {
      map c | c in clients :: c.dirtyCas
    }

    ghost function View(): View<Client>
      reads this, clients`watched, clients`dirtyCas, dbs
    {
      WatchSpec.View(Lists(), Flags(), IndexOf(dbs), DictsOf(dbs), history)
    }

    ghost predicate Apart()
      reads this`clients, clients`db
    {
      NoDup(clients) && NoDup(dbs) && dbs != [] && forall c :: c in clients ==> c.db < |dbs|
    }

    ghost predicate Ok()
      reads this, clients`watched, clients`dirtyCas, clients`db, dbs
    {
      Apart() && Valid(View())
    }

    // -------------------------------------------------------------- WATCH

    lemma NotInPrefix(s: seq<WatchedKey>, x: WatchedKey)
      requires x !in s[..|s|]
      ensures x !in s
    {
      assert s[..|s|] == s;
    }

    method SetWatched(c: Client, list: seq<WatchedKey>)
      requires c in clients
      modifies c`watched
      ensures c.watched == list && Lists() == old(Lists())[c := list]
    {
      c.watched := list;
      assert Lists() == old(Lists())[c := list];
    }

    /** The client is appended to the list of the key. */
    method JoinList(c: Client, wk: WatchedKey)
      requires NoDup(dbs) && wk.db < |dbs|
      modifies dbs`watchedKeys
      ensures var watched := old(dbs[wk.db].watchedKeys)[wk.key := old(dbs[wk.db].Listed(wk.key)) + [c]];
        IndexOf(dbs) == old(IndexOf(dbs))[wk.db := watched]
    {
      hide IndexOf;
      var db := dbs[wk.db];
      db.watchedKeys := db.watchedKeys[wk.key := db.Listed(wk.key) + [c]];
      assert IndexOf(dbs) == old(IndexOf(dbs))[wk.db := db.watchedKeys];
    }

    /** Client and key are appended to each other's lists. */
    method Link(c: Client, wk: WatchedKey)
      requires Apart() && c in clients && wk.db < |dbs| && wk !in c.watched
      modifies this`history, c`watched, dbs`watchedKeys
      ensures View() == WatchFor(old(View()), c, wk)
    {
      hide Lookup, NoDup, WatchFor, View;
      ghost var v := View();
      ViewAt(c);
      JoinBoth(c, wk);
      NewHistory(Watched(c, wk, Lookup(v.data, wk)));
      WatchForIs(v, View(), c, wk);
    }

    method JoinBoth(c: Client, wk: WatchedKey)
      requires Apart() && c in clients && wk.db < |dbs|
      modifies c`watched, dbs`watchedKeys
      ensures c in old(View()).lists && wk.db < |old(View()).index|
      ensures var v := old(View());
        View() == v.(lists := v.lists[c := old(c.watched) + [wk]],
                     index := v.index[wk.db := v.index[wk.db][wk.key := Watchers(v, wk) + [c]]])
    {
      hide IndexOf, DictsOf, NoDup, Lists, Flags;
      ListedIs(c, wk);
      JoinList(c, wk);
      SetWatched(c, c.watched + [wk]);
    }

    lemma ListedIs(c: Client, wk: WatchedKey)
      requires c in clients && wk.db < |dbs|
      ensures View().lists.Keys == set d | d in clients
      ensures View().lists[c] == c.watched && Lists()[c] == c.watched
      ensures View().index[wk.db] == dbs[wk.db].watchedKeys && Watchers(View(), wk) == dbs[wk.db].Listed(wk.key)
    {
    }

    lemma WatchForIs(v: View<Client>, r: View<Client>, c: Client, wk: WatchedKey)
      requires c in v.lists && wk.db < |v.index| && wk !in v.lists[c]
      requires r.lists == v.lists[c := v.lists[c] + [wk]] && r.dirty == v.dirty && r.data == v.data
      requires r.index == v.index[wk.db := v.index[wk.db][wk.key := Watchers(v, wk) + [c]]]
      requires r.history == v.history + [Watched(c, wk, Lookup(v.data, wk))]
      ensures r == WatchFor(v, c, wk)
    {
    }

    /** `watchForKey`. */
    method WatchForKey(c: Client, key: Key)
      requires Ok() && c in clients
      modifies this`history, c`watched, dbs`watchedKeys
      ensures Ok() && View() == WatchFor(old(View()), c, WatchedKey(c.db, key))
    {
      hide Valid, View, NoDup;
      var wk := WatchedKey(c.db, key);
      ViewAt(c);
      WatchForKeeps(View(), c, wk);
      var j := Search(c.watched, wk);
      if j < |c.watched| { return; }
      NotInPrefix(c.watched, wk);
      Link(c, wk);
    }

    lemma ViewAt(c: Client)
      ensures View().lists.Keys == View().dirty.Keys == set d | d in clients
      ensures c in clients ==> View().lists[c] == c.watched && View().dirty[c] == c.dirtyCas
      ensures View().data == DictsOf(dbs) && View().history == history
      ensures |View().index| == |View().data| == |dbs|
    {
    }

    // -------------------------------------------------------------- UNWATCH

    /** The list of a key is replaced; a list that has become empty is deleted. */
    method Relist(wk: WatchedKey, list: seq<Client>)
      requires NoDup(dbs) && wk.db < |dbs|
      modifies dbs`watchedKeys
      ensures IndexOf(dbs) == WithWatchers(old(IndexOf(dbs)), wk, list)
    {
      hide IndexOf;
      var db := dbs[wk.db];
      if list == [] {
        db.watchedKeys := db.watchedKeys - {wk.key};
      } else {
        db.watchedKeys := db.watchedKeys[wk.key := list];
      }
      assert IndexOf(dbs) == old(IndexOf(dbs))[wk.db := db.watchedKeys];
    }

    /** `listSearchKey` and `listDelNode` on the list of a key. */
    method LeaveList(c: Client, wk: WatchedKey)
      requires NoDup(dbs) && wk.db < |dbs| && wk.key in dbs[wk.db].watchedKeys && c in dbs[wk.db].watchedKeys[wk.key]
      modifies dbs`watchedKeys
      ensures IndexOf(dbs) == WithWatchers(old(IndexOf(dbs)), wk, Remove(old(dbs[wk.db].watchedKeys[wk.key]), c))
    {
      hide IndexOf, NoDup, Remove, WithWatchers;
      var list := dbs[wk.db].watchedKeys[wk.key];
      var i := Search(list, c);
      FoundIn(list, c, i);
      RemoveAt(list, c, i);
      Relist(wk, list[..i] + list[i + 1..]);
    }

    /** One round of `unwatchAllKeys`: the first key of the client's list. */
    method UnlinkFirst(c: Client)
      requires Apart() && Shape(View()) && Linked(View()) && c in clients && c.watched != []
      modifies c`watched, dbs`watchedKeys
      ensures View() == Unlink(old(View()), c, old(c.watched[0]))
      ensures |c.watched| < old(|c.watched|)
    {
      hide DictsOf, IndexOf, Linked, Shape, NoDup, Remove, WithWatchers, Watchers, Lists, Flags;
      var wk := c.watched[0];
      ListedAt(c, wk);
      ListedIs(c, wk);
      LeaveList(c, wk);
      FirstLeaves(c.watched);
      SetWatched(c, c.watched[1..]);
    }

    lemma FirstLeaves(s: seq<WatchedKey>)
      requires s != []
      ensures Remove(s, s[0]) == s[1..]
    {
    }

    lemma FoundIn(s: seq<Client>, c: Client, i: nat)
      requires c in s && i <= |s| && c !in s[..i]
      ensures i < |s|
    {
      assert s[..|s|] == s;
    }

    /** The assertion in `unwatchAllKeys`: the list of clients exists, and the client is on it. */
    lemma ListedAt(c: Client, wk: WatchedKey)
      requires Shape(View()) && Linked(View()) && c in clients && wk in c.watched
      ensures wk.db < |dbs| && wk.key in dbs[wk.db].watchedKeys && c in dbs[wk.db].watchedKeys[wk.key]
      ensures Watchers(View(), wk) == dbs[wk.db].watchedKeys[wk.key]
    {
      ViewAt(c);
      assert c in Watchers(View(), wk);
    }

    /** `unwatchAllKeys`. */
    method UnwatchAllKeys(c: Client)
      requires Apart() && Sound(View()) && c in clients
      modifies this`history, c`watched, dbs`watchedKeys
      ensures c.watched == [] && View() == UnwatchAll(old(View()), c)
    {
      hide View, Shape, Linked, Traced, NoDup, UnlinkAll;
      ghost var v := View();
      ViewAt(c);
      while |c.watched| > 0
        invariant View().lists.Keys == v.lists.Keys && Shape(View()) && Linked(View())
        invariant UnlinkAll(View(), c) == UnlinkAll(v, c)
      {
        ViewAt(c);
        UnlinkKeeps(View(), c, c.watched[0]);
        UnlinkOne(View(), c);
        UnlinkFirst(c);
        ViewAt(c);
      }
      ViewAt(c);
      UnlinkNone(View(), c);
      NewHistory(Unwatched(c));
    }

    /** An event is recorded. */
    ghost method NewHistory(e: Event<Client>)
      modifies this`history
      ensures View() == old(View()).(history := old(View()).history + [e])
    {
      history := history + [e];
    }

    lemma UnlinkOne(v: View<Client>, c: Client)
      requires Shape(v) && Linked(v) && c in v.lists && v.lists[c] != []
      ensures v.lists[c][0].db < |v.index| && c in Unlink(v, c, v.lists[c][0]).lists
      ensures var u := Unlink(v, c, v.lists[c][0]);
        Shape(u) && Linked(u) && UnlinkAll(v, c) == UnlinkAll(u, c)
    {
      assert v.lists[c][0] in v.lists[c];
      UnlinkKeeps(v, c, v.lists[c][0]);
    }

    lemma UnlinkNone(v: View<Client>, c: Client)
      requires Shape(v) && Linked(v) && c in v.lists && v.lists[c] == []
      ensures UnlinkAll(v, c) == v
    {
    }

    /** `c->flags &= ~REDIS_DIRTY_CAS`. */
    method ClearCas(c: Client)
      requires c in clients
      modifies this`history, c`dirtyCas
      ensures !c.dirtyCas && View() == Clear(old(View()), c)
    {
      hide IndexOf, DictsOf;
      c.dirtyCas := false;
      history := history + [Cleared(c)];
      assert Flags() == old(Flags())[c := false];
    }

    // -------------------------------------------------------------- touching

    lemma WatchersAt(i: nat, key: Key)
      requires i < |dbs|
      ensures Watchers(View(), WatchedKey(i, key)) == dbs[i].Listed(key)
    {
      hide DictsOf, Lists, Flags;
    }

    /** The loop of `touchWatchedKey`. */
    method FlagAll(list: seq<Client>)
      requires forall c :: c in list ==> c in clients
      modifies clients`dirtyCas
      ensures var v := old(View()); View() == v.(dirty := map c | c in v.dirty :: v.dirty[c] || c in list)
    {
      hide IndexOf, DictsOf, Lists;
      var j := 0;
      while j < |list|
        invariant j <= |list|
        invariant forall c :: c in clients ==> c.dirtyCas == (old(c.dirtyCas) || c in list[..j])
      {
        assert list[j] in list;
        list[j].dirtyCas := true;
        assert list[..j + 1] == list[..j] + [list[j]];
        j := j + 1;
      }
      assert list[..j] == list;
    }

    /** `touchWatchedKey`. */
    method TouchWatchedKey(i: nat, key: Key)
      requires i < |dbs| && forall c :: c in dbs[i].Listed(key) ==> c in clients
      modifies this`history, clients`dirtyCas
      ensures View() == Touch(old(View()), WatchedKey(i, key))
    {
      hide View, IndexOf, DictsOf, Watchers;
      WatchersAt(i, key);
      FlagAll(dbs[i].Listed(key));
      NewHistory(Touched(WatchedKey(i, key)));
    }

    ghost predicate HasGone(watched: seq<WatchedKey>, gone: set<WatchedKey>) {
      exists wk :: wk in watched && wk in gone
    }

    /** The inner loop of `touchWatchedKeysOnFlush`. */
    method TouchClientOnFlush(c: Client, dbid: int)
      requires forall wk :: wk in c.watched ==> wk.db < |dbs|
      modifies c`dirtyCas
      ensures c.dirtyCas == (old(c.dirtyCas) || HasGone(c.watched, Existing(DictsOf(dbs), dbid)))
    {
      hide DictsOf;
      var j := 0;
      while j < |c.watched|
        invariant j <= |c.watched|
        invariant c.dirtyCas == (old(c.dirtyCas) || HasGone(c.watched[..j], Existing(DictsOf(dbs), dbid)))
      {
        var wk := c.watched[j];
        assert c.watched[..j + 1] == c.watched[..j] + [wk];
        assert wk in Existing(DictsOf(dbs), dbid) <==> (dbid == -1 || wk.db == dbid) && wk.key in dbs[wk.db].dict;
        if dbid == -1 || wk.db == dbid {
          if wk.key in dbs[wk.db].dict { c.dirtyCas := true; }
        }
        j := j + 1;
      }
      assert c.watched[..j] == c.watched;
    }

    /** `touchWatchedKeysOnFlush`. */
    method TouchWatchedKeysOnFlush(dbid: int)
      requires Apart() && Shape(View())
      modifies this`history, clients`dirtyCas
      ensures View() == TouchAll(old(View()), Existing(DictsOf(dbs), dbid))
    {
      hide View, Existing, DictsOf, IndexOf;
      ghost var gone := Existing(DictsOf(dbs), dbid);
      FlagClients(dbid, gone);
      NewHistory(Flushed(gone));
    }

    lemma FlagsAfter(v: View<Client>, gone: set<WatchedKey>)
      requires Shape(v) && v.lists == Lists()
      requires forall i :: 0 <= i < |clients| ==>
        clients[i].dirtyCas == (v.dirty[clients[i]] || HasGone(clients[i].watched, gone))
      ensures Flags() == TouchAll(v, gone).dirty
    {
    }

    /** The outer loop of `touchWatchedKeysOnFlush`. */
    method FlagLoop(dbid: int, ghost gone: set<WatchedKey>)
      requires NoDup(clients) && gone == Existing(DictsOf(dbs), dbid)
      requires forall c, wk :: c in clients && wk in c.watched ==> wk.db < |dbs|
      modifies clients`dirtyCas
      ensures forall i :: 0 <= i < |clients| ==>
                clients[i].dirtyCas == (old(clients[i].dirtyCas) || HasGone(clients[i].watched, gone))
    {
      hide IndexOf, DictsOf, Existing, HasGone;
      var j := 0;
      while j < |clients|
        invariant j <= |clients|
        invariant forall i :: 0 <= i < j ==>
          clients[i].dirtyCas == (old(clients[i].dirtyCas) || HasGone(clients[i].watched, gone))
        invariant forall i :: j <= i < |clients| ==> clients[i].dirtyCas == old(clients[i].dirtyCas)
      {
        TouchClientOnFlush(clients[j], dbid);
        j := j + 1;
      }
    }

    method FlagClients(dbid: int, ghost gone: set<WatchedKey>)
      requires Apart() && Shape(View()) && gone == Existing(DictsOf(dbs), dbid)
      modifies clients`dirtyCas
      ensures View() == old(View()).(dirty := TouchAll(old(View()), gone).dirty)
    {
      hide IndexOf, DictsOf, Existing, HasGone, Linked;
      WatchedDbs();
      FlagLoop(dbid, gone);
      FlagsAfter(old(View()), gone);
    }

    lemma WatchedDbs()
      requires Shape(View())
      ensures forall c, wk :: c in clients && wk in c.watched ==> wk.db < |dbs|
    {
      forall c, wk | c in clients && wk in c.watched ensures wk.db < |dbs| { ViewAt(c); }
    }

    // -------------------------------------------------------------- commands

    /** The contents of one database are replaced. */
    method SetDict(i: nat, m: map<Key, Value>)
      requires NoDup(dbs) && i < |dbs|
      modifies dbs`dict
      ensures DictsOf(dbs) == old(DictsOf(dbs))[i := m]
      ensures View() == old(View()).(data := DictsOf(dbs))
    {
      hide DictsOf, IndexOf;
      dbs[i].dict := m;
      assert DictsOf(dbs) == old(DictsOf(dbs))[i := m];
    }

    /** `emptyDb`. */
    method EmptyAll()
      requires NoDup(dbs)
      modifies dbs`dict
      ensures DictsOf(dbs) == seq(|dbs|, _ => map[])
      ensures View() == old(View()).(data := DictsOf(dbs))
    {
      hide DictsOf, IndexOf;
      var j := 0;
      while j < |dbs|
        invariant j <= |dbs|
        invariant forall i :: 0 <= i < j ==> dbs[i].dict == map[]
      {
        dbs[j].dict := map[];
        j := j + 1;
      }
      assert DictsOf(dbs) == seq(|dbs|, _ => map[]);
    }

    lemma ListedAreClients(i: nat, key: Key)
      requires Valid(View()) && i < |dbs|
      ensures forall c :: c in dbs[i].Listed(key) ==> c in clients
    {
      hide IndexOf, DictsOf;
      ValidSound();
      assert Watchers(View(), WatchedKey(i, key)) == dbs[i].Listed(key);
      forall c | c in dbs[i].Listed(key) ensures c in clients {
        ViewAt(c);
        assert c in View().lists.Keys;
      }
    }

    lemma DataAt(i: nat)
      requires i < |dbs|
      ensures View().data == DictsOf(dbs) && View().data[i] == dbs[i].dict
    {
    }

    lemma ValidSound()
      requires Valid(View())
      ensures Sound(View()) && Shape(View()) && Linked(View())
    {
    }

    /** The commands that only change one key: the change, then `signalModifiedKey`. */
    method ChangeKey(c: Client, cmd: Command)
      requires Ok() && c in clients && (cmd.Set? || (cmd.Del? && cmd.key in dbs[c.db].dict))
      modifies this`history, clients`dirtyCas, dbs`dict
      ensures View() == Do(old(View()), c, c.db, cmd)
    {
      hide Valid, View, DictsOf, IndexOf;
      ViewAt(c);
      DataAt(c.db);
      ListedAreClients(c.db, cmd.key);
      var db := dbs[c.db];
      SetDict(c.db, if cmd.Set? then db.dict[cmd.key := cmd.value] else db.dict - {cmd.key});
      TouchWatchedKey(c.db, cmd.key);
    }

    /** FLUSHDB and FLUSHALL: the watchers of existing keys are told first. */
    method FlushCommand(c: Client, cmd: Command)
      requires Ok() && c in clients && (cmd.FlushDb? || cmd.FlushAll?)
      modifies this`history, clients`dirtyCas, dbs`dict
      ensures View() == Do(old(View()), c, c.db, cmd)
    {
      hide Valid, View, DictsOf, IndexOf;
      ViewAt(c);
      ValidSound();
      if cmd.FlushDb? {
        TouchWatchedKeysOnFlush(c.db);
        SetDict(c.db, map[]);
      } else {
        TouchWatchedKeysOnFlush(-1);
        EmptyAll();
      }
    }

    /** UNWATCH. */
    method UnwatchCommand(c: Client)
      requires Ok() && c in clients
      modifies this`history, c`watched, c`dirtyCas, dbs`watchedKeys
      ensures c.watched == [] && !c.dirtyCas && View() == Do(old(View()), c, c.db, Unwatch)
    {
      hide Valid, View, Sound, Linked, Shape, Apart, Clear, UnwatchAll, DictsOf, IndexOf, Lists, Flags;
      ViewAt(c);
      ValidSound();
      UnwatchAllKeepsSound(View(), c);
      UnwatchAllKeys(c);
      ClearCas(c);
      ViewAt(c);
    }

    /** The effect of a command on data, watched keys and flags. */
    method Perform(c: Client, cmd: Command)
      requires Ok() && c in clients
      modifies this`history, clients`dirtyCas, c`watched, dbs
      ensures Apart() && View() == Do(old(View()), c, c.db, cmd)
    {
      hide Valid, View, DictsOf, IndexOf, Do, NoDup;
      ViewAt(c);
      DataAt(c.db);
      DoNothing(View(), c, c.db, cmd);
      match cmd {
        case Get(_) =>
        case Select(_) =>
        case Set(_, _) => ChangeKey(c, cmd);
        case Del(k) => if k in dbs[c.db].dict { ChangeKey(c, cmd); }
        case FlushDb => FlushCommand(c, cmd);
        case FlushAll => FlushCommand(c, cmd);
        case Unwatch => UnwatchCommand(c);
      }
    }

    /** The answer to a command, worked out on the data before it. */
    method ReplyTo(db: nat, cmd: Command) returns (reply: Reply)
      requires db < |dbs|
      ensures reply == Answer(DictsOf(dbs), db, cmd)
    {
      hide DictsOf;
      var dict := dbs[db].dict;
      reply := match cmd
        case Get(k) => Bulk(if k in dict then Some(dict[k]) else None)
        case Del(k) => Number(if k in dict then 1 else 0)
        case Select(id) => if 0 <= id < |dbs| then Reply.Ok else Error
        case _ => Reply.Ok;
    }

    /** A command without what it does to the client itself. */
    method Effect(c: Client, cmd: Command) returns (reply: Reply)
      requires Ok() && c in clients
      modifies this`history, clients`dirtyCas, c`watched, dbs
      ensures Ok() && View() == Do(old(View()), c, c.db, cmd)
      ensures DictsOf(dbs) == NewData(old(DictsOf(dbs)), c.db, cmd)
      ensures reply == Answer(old(DictsOf(dbs)), c.db, cmd)
      ensures Grown(old(history), history, c)
    {
      hide Valid, View, DictsOf, IndexOf, Do, NewData, Apart, Answer, Grown;
      DbInRange(c);
      ViewAt(c);
      DoKeeps(View(), c, c.db, cmd);
      DoGrows(View(), c, c.db, cmd);
      reply := ReplyTo(c.db, cmd);
      Perform(c, cmd);
      ViewAt(c);
    }

    /** `call`, for the commands of the model. */
    method Call(c: Client, cmd: Command)
      requires Ok() && c in clients
      modifies this`history, clients`dirtyCas, c`watched, c`db, c`reply, dbs
      ensures Ok() && View() == Do(old(View()), c, old(c.db), cmd)
      ensures DictsOf(dbs) == NewData(old(DictsOf(dbs)), old(c.db), cmd)
      ensures c.db == NewDb(old(DictsOf(dbs)), old(c.db), cmd)
      ensures c.reply == old(c.reply) + [Answer(old(DictsOf(dbs)), old(c.db), cmd)]
      ensures Grown(old(history), history, c)
    {
      hide Valid, View, DictsOf, IndexOf, Do, NewData, Answer, NoDup, Grown;
      DbInRange(c);
      var reply := Effect(c, cmd);
      if cmd.Select? && 0 <= cmd.id < |dbs| { c.db := cmd.id; }
      c.reply := c.reply + [reply];
    }

    // -------------------------------------------------------------- transactions

    /** `discardTransaction`. */
    method DiscardTransaction(c: Client)
      requires Ok() && c in clients
      modifies this`history, c, dbs`watchedKeys
      ensures Ok() && View() == Discarded(old(View()), c)
      ensures c.queue == [] && !c.multi && !c.dirtyCas && !c.dirtyExec && c.watched == []
      ensures c.db == old(c.db) && c.reply == old(c.reply) && DictsOf(dbs) == old(DictsOf(dbs))
      ensures Grown(old(history), history, c)
    {
      hide Valid, View, Apart, Discarded, Grown;
      c.queue := [];
      c.multi := false;
      c.dirtyExec := false;
      DropWatches(c);
    }

    /** What discardTransaction does to flag and watches. */
    method DropWatches(c: Client)
      requires Ok() && c in clients
      modifies this`history, c`dirtyCas, c`watched, dbs`watchedKeys
      ensures Ok() && View() == Discarded(old(View()), c) && !c.dirtyCas && c.watched == []
      ensures Grown(old(history), history, c)
    {
      hide Valid, View, Sound, Shape, Linked, HeldExcept, Apart, UnwatchAll, Clear, DictsOf, IndexOf;
      hide Lists, Flags, Grown;
      ViewAt(c);
      DiscardedKeeps(View(), c);
      DiscardedGrows(View(), c);
      ClearCas(c);
      UnwatchAllKeys(c);
      ViewAt(c);
    }

    /** EXEC. Nothing is run when the client is flagged; otherwise the whole queue is run in order, on
        data in which every watched key still holds what it held when it was put under watch. */
    method ExecCommand(c: Client)
      requires Ok() && c in clients
      modifies this`history, clients`dirtyCas, c, dbs
      ensures Ok() && (DictsOf(dbs), c.Now()) == Executed(old(DictsOf(dbs)), old(c.Now()))
      ensures !old(c.multi) ==> View() == old(View())
      ensures old(c.multi) ==> !c.multi && c.queue == [] && c.watched == [] && !c.dirtyCas && !c.dirtyExec
      ensures old(c.multi) && (Dirty(old(history), c) || old(c.dirtyExec)) ==>
                && DictsOf(dbs) == old(DictsOf(dbs)) && c.db == old(c.db)
                && c.reply == old(c.reply) + [if old(c.dirtyExec) then ExecAbort else NullMultiBulk]
      ensures old(c.multi) && !Dirty(old(history), c) && !old(c.dirtyExec) ==>
                var s := After(old(DictsOf(dbs)), old(c.db), old(c.queue));
                && DictsOf(dbs) == s.data && c.db == s.db
                && c.reply == old(c.reply) + [MultiBulkLen(|old(c.queue)|)] + s.answers
      ensures forall wk :: wk in old(c.watched) ==> Watching(old(history), c, wk)
      ensures !Dirty(old(history), c) ==> forall wk :: wk in old(c.watched) ==>
                Lookup(old(DictsOf(dbs)), wk) == WatchedValue(old(history), c, wk)
      ensures Grown(old(history), history, c)
    {
      hide Valid, View, Sound, Shape, Linked, DictsOf, IndexOf, Dirty, Watching, WatchedValue, After, Grown;
      ViewAt(c);
      FlagsTold(c);
      NothingGrown(c);
      if !c.multi {
        c.reply := c.reply + [Error];
        return;
      }
      if c.dirtyCas || c.dirtyExec {
        c.reply := c.reply + [if c.dirtyExec then ExecAbort else NullMultiBulk];
      } else {
        RunQueue(c);
      }
      ghost var between := history;
      DiscardTransaction(c);
      GrownTwice(old(history), between, history, c);
    }

    lemma NothingGrown(c: Client)
      ensures Grown(history, history, c)
    {
    }

    /** What the invariant says about one client. */
    lemma FlagsTold(c: Client)
      requires Ok() && c in clients
      ensures c.dirtyCas == Dirty(history, c)
      ensures forall wk :: wk in c.watched <==> Watching(history, c, wk)
      ensures !c.dirtyCas ==> forall wk :: wk in c.watched ==> Lookup(DictsOf(dbs), wk) == WatchedValue(history, c, wk)
    {
      hide Dirty, Watching, WatchedValue, Linked, Shape, Lookup;
      ViewAt(c);
    }

    /** The part of `execCommand` that runs the queue. */
    method RunQueue(c: Client)
      requires Ok() && c in clients && c.multi && !c.dirtyCas && !c.dirtyExec
      modifies this`history, clients`dirtyCas, c`watched, c`db, c`reply, dbs
      ensures Ok()
      ensures var s := After(old(DictsOf(dbs)), old(c.db), c.queue);
        && DictsOf(dbs) == s.data && c.db == s.db
        && c.reply == old(c.reply) + [MultiBulkLen(|c.queue|)] + s.answers
      ensures Grown(old(history), history, c)
    {
      hide Valid, View, Sound, Shape, Linked, DictsOf, IndexOf, After, NoDup, UnwatchAll;
      ViewAt(c);
      ValidSound();
      UnwatchAllKeepsSound(View(), c);
      UnwatchAllGrows(View(), c);
      UnwatchAllKeys(c);
      ViewAt(c);
      c.reply := c.reply + [MultiBulkLen(|c.queue|)];
      ghost var between := history;
      assert Grown(old(history), between, c);
      hide Grown;
      RunCommands(c);
      GrownTwice(old(history), between, history, c);
    }

    /** The loop of `execCommand`. */
    method RunCommands(c: Client)
      requires Ok() && c in clients
      modifies this`history, clients`dirtyCas, c`watched, c`db, c`reply, dbs
      ensures Ok()
      ensures var s := After(old(DictsOf(dbs)), old(c.db), c.queue);
        && DictsOf(dbs) == s.data && c.db == s.db && c.reply == old(c.reply) + s.answers
      ensures Grown(old(history), history, c)
    {
      hide Valid, View, Apart, DictsOf, After, NewData, NewDb, Answer, Do, Grown;
      NothingGrown(c);
      ghost var d, db0, r, answers := DictsOf(dbs), c.db, c.reply, [];
      DbInRange(c);
      var j := 0;
      AfterNone(d, db0);
      assert c.queue[..0] == [] && r + [] == r;
      while j < |c.queue|
        invariant j <= |c.queue| && Ok()
        invariant After(d, db0, c.queue[..j]) == State(DictsOf(dbs), c.db, answers)
        invariant c.reply == r + answers && Grown(old(history), history, c)
      {
        ghost var before := history;
        DbInRange(c);
        OneMore(d, db0, c.queue[..j], c.queue[j]);
        assert c.queue[..j + 1] == c.queue[..j] + [c.queue[j]];
        answers := answers + [Answer(DictsOf(dbs), c.db, c.queue[j])];
        Call(c, c.queue[j]);
        GrownTwice(old(history), before, history, c);
        j := j + 1;
      }
      assert c.queue[..j] == c.queue;
    }

    lemma DbInRange(c: Client)
      requires Apart() && c in clients
      ensures c.db < |dbs|
    {
    }

    lemma AfterNone(d: Data, db: nat)
      requires db < |d|
      ensures After(d, db, []) == State(d, db, [])
    {
    }

    /** MULTI. */
    method MultiCommand(c: Client)
      requires Ok() && c in clients
      modifies c`multi, c`reply
      ensures Ok() && View() == old(View())
      ensures c.Now() == Replied(old(c.Now()), if old(c.multi) then Error else Reply.Ok).(multi := true)
    {
      if c.multi {
        c.reply := c.reply + [Error];
        return;
      }
      c.multi := true;
      c.reply := c.reply + [Reply.Ok];
    }

    /** DISCARD. */
    method DiscardCommand(c: Client)
      requires Ok() && c in clients
      modifies this`history, c, dbs`watchedKeys
      ensures Ok() && DictsOf(dbs) == old(DictsOf(dbs)) && c.Now() == Dropped(old(c.Now()))
      ensures !old(c.multi) ==> View() == old(View())
      ensures old(c.multi) ==> !c.multi && c.queue == [] && c.watched == [] && !c.dirtyCas && !c.dirtyExec
      ensures c.db == old(c.db) && c.reply == old(c.reply) + [if old(c.multi) then Reply.Ok else Error]
      ensures Grown(old(history), history, c)
    {
      hide Valid, View, DictsOf, IndexOf, Grown;
      if !c.multi {
        NothingGrown(c);
        c.reply := c.reply + [Error];
        return;
      }
      DiscardTransaction(c);
      c.reply := c.reply + [Reply.Ok];
    }

    /** WATCH. */
    method WatchCommand(c: Client, keys: seq<Key>)
      requires Ok() && c in clients
      modifies this`history, c`watched, c`reply, dbs`watchedKeys
      ensures Ok() && DictsOf(dbs) == old(DictsOf(dbs))
      ensures c.multi ==> View() == old(View()) && c.Now() == Replied(old(c.Now()), Error)
      ensures !c.multi ==>
                c.Now() == Replied(old(c.Now()), Reply.Ok).(watched := ListAfter(old(c.watched), c.db, keys))
      ensures Grown(old(history), history, c)
    {
      hide Valid, View, DictsOf, IndexOf, ListAfter, Grown;
      if c.multi {
        NothingGrown(c);
        c.reply := c.reply + [Error];
        return;
      }
      WatchAll(c, keys);
      c.reply := c.reply + [Reply.Ok];
    }

    /** The loop of `watchCommand`. */
    method WatchAll(c: Client, keys: seq<Key>)
      requires Ok() && c in clients
      modifies this`history, c`watched, dbs`watchedKeys
      ensures Ok() && c.watched == ListAfter(old(c.watched), c.db, keys) && Grown(old(history), history, c)
    {
      hide Valid, View, Apart, DictsOf, IndexOf, ListAfter, WatchFor, Grown;
      NothingGrown(c);
      var j := 0;
      assert ListAfter(c.watched, c.db, keys[..0]) == c.watched by { NothingListed(c.watched, c.db, keys[..0]); }
      while j < |keys|
        invariant j <= |keys| && Ok()
        invariant c.watched == ListAfter(old(c.watched), c.db, keys[..j]) && Grown(old(history), history, c)
      {
        ghost var before := history;
        assert keys[..j + 1] == keys[..j] + [keys[j]];
        ListAfterOneMore(old(c.watched), c.db, keys[..j], keys[j]);
        WatchOne(c, keys[j]);
        GrownTwice(old(history), before, history, c);
        j := j + 1;
      }
      assert keys[..j] == keys;
    }

    lemma NothingListed(list: seq<WatchedKey>, db: nat, keys: seq<Key>)
      requires keys == []
      ensures ListAfter(list, db, keys) == list
    {
    }

    /** `watchForKey`, on the client's own list. */
    method WatchOne(c: Client, key: Key)
      requires Ok() && c in clients
      modifies this`history, c`watched, dbs`watchedKeys
      ensures Ok()
      ensures var wk, l := WatchedKey(c.db, key), old(c.watched); c.watched == if wk in l then l else l + [wk]
      ensures Grown(old(history), history, c)
    {
      hide Valid, View, NoDup, DictsOf, IndexOf;
      ViewAt(c);
      WatchForGrows(View(), c, WatchedKey(c.db, key));
      WatchForKey(c, key);
      ViewAt(c);
    }

    /** `processCommand`: a rejected request may spoil a transaction; inside a transaction commands
        are queued, except EXEC, DISCARD, MULTI and WATCH. */
    method ProcessCommand(c: Client, r: Request)
      requires Ok() && c in clients
      modifies this`history, clients`dirtyCas, c, dbs
      ensures Ok()
      ensures r.Rejected? ==> View() == old(View())
      ensures r.Rejected? ==> var k := old(c.Now());
                c.Now() == Replied(k, Error).(dirtyExec := k.dirtyExec || (r.flagged && k.multi))
      ensures r.Run? && old(c.multi) ==> View() == old(View())
      ensures r.Run? && old(c.multi) ==> var k := old(c.Now());
                c.Now() == Replied(k, Queued).(queue := k.queue + [r.cmd])
      ensures r.Run? && !old(c.multi) ==> View() == Do(old(View()), c, old(c.db), r.cmd)
      ensures r.Run? && !old(c.multi) ==> var k := old(c.Now());
                && c.db == NewDb(old(DictsOf(dbs)), k.db, r.cmd)
                && c.reply == k.reply + [Answer(old(DictsOf(dbs)), k.db, r.cmd)]
                && (c.multi, c.dirtyExec, c.queue) == (k.multi, k.dirtyExec, k.queue)
      ensures r.MultiCmd? ==> View() == old(View())
      ensures r.MultiCmd? ==> var k := old(c.Now());
                c.Now() == Replied(k, if k.multi then Error else Reply.Ok).(multi := true)
      ensures r.Watch? ==> var k := old(c.Now());
                && DictsOf(dbs) == old(DictsOf(dbs))
                && c.Now() == if k.multi then Replied(k, Error)
                              else Replied(k, Reply.Ok).(watched := ListAfter(k.watched, k.db, r.keys))
      ensures r.Exec? ==> (DictsOf(dbs), c.Now()) == Executed(old(DictsOf(dbs)), old(c.Now()))
      ensures r.Exec? && old(c.multi) && (Dirty(old(history), c) || old(c.dirtyExec)) ==>
                && DictsOf(dbs) == old(DictsOf(dbs)) && c.db == old(c.db)
                && c.reply == old(c.reply) + [if old(c.dirtyExec) then ExecAbort else NullMultiBulk]
      ensures r.Exec? && old(c.multi) && !Dirty(old(history), c) && !old(c.dirtyExec) ==>
                var s := After(old(DictsOf(dbs)), old(c.db), old(c.queue));
                && DictsOf(dbs) == s.data && c.db == s.db
                && c.reply == old(c.reply) + [MultiBulkLen(|old(c.queue)|)] + s.answers
      ensures r.Discard? ==> DictsOf(dbs) == old(DictsOf(dbs)) && c.Now() == Dropped(old(c.Now()))
      ensures (r.Exec? || r.Discard?) && old(c.multi) ==>
                !c.multi && c.queue == [] && c.watched == [] && !c.dirtyCas && !c.dirtyExec
      ensures Grown(old(history), history, c)
    {
      hide Valid, View, DictsOf, IndexOf, ListAfter, Executed, Dropped, Do, After, NewDb, Answer, Dirty, Grown;
      NothingGrown(c);
      match r {
        case Rejected(flagged) =>
          if flagged && c.multi { c.dirtyExec := true; }
          c.reply := c.reply + [Error];
        case Run(cmd) =>
          if c.multi {
            c.queue := c.queue + [cmd];
            c.reply := c.reply + [Queued];
          } else {
            Call(c, cmd);
          }
        case Watch(keys) => WatchCommand(c, keys);
        case MultiCmd => MultiCommand(c);
        case Exec => ExecCommand(c);
        case Discard => DiscardCommand(c);
      }
    }

    // -------------------------------------------------------------- a transaction among others

    /** What a client asks for between MULTI and EXEC, while other clients do what they like. */
    ghost predicate Scripted(a: Client, script: seq<(Client, Request)>)
      reads this`clients
    {
      forall i :: 0 <= i < |script| ==> script[i].0 in clients && (script[i].0 == a ==> script[i].1.Run?)
    }

    /** One request of the script, as the client in its transaction sees it. */
    method ScriptStep(a: Client, c: Client, r: Request)
      requires Ok() && a in clients && a.multi && c in clients && (c == a ==> r.Run?)
      modifies this`history, clients, dbs
      ensures Ok() && a.multi && a.dirtyExec == old(a.dirtyExec) && a.db == old(a.db) && a.watched == old(a.watched)
      ensures a.queue == old(a.queue) + if c == a then [r.cmd] else []
      ensures a.reply == old(a.reply) + if c == a then [Queued] else []
      ensures Grown(old(history), history, c) && (c == a ==> history == old(history))
    {
      hide Valid, View, DictsOf, Executed, Dropped, ListAfter, Do, After, NewDb, Answer, Dirty, Apart, Grown, NoDup;
      ViewAt(a);
      ProcessCommand(c, r);
      ViewAt(a);
    }

    /** The script runs up to EXEC: the commands of the client are queued, what the others do is no
        doing of the client. */
    method RunScript(a: Client, script: seq<(Client, Request)>)
      requires Ok() && a in clients && a.multi && Scripted(a, script)
      modifies this`history, clients, dbs
      ensures Ok() && a.multi && a.dirtyExec == old(a.dirtyExec) && a.db == old(a.db) && a.watched == old(a.watched)
      ensures a.queue == old(a.queue) + Own(a, script)
      ensures a.reply == old(a.reply) + seq(|Own(a, script)|, _ => Queued)
      ensures old(history) <= history && forall i :: |old(history)| <= i < |history| ==> Foreign(history[i], a)
    {
      hide Ok, Own, Grown, Foreign;
      var i := 0;
      assert script[..0] == [] && Own(a, script[..0]) == [] by { NothingOwn(a, script[..0]); }
      while i < |script|
        invariant i <= |script| && Ok()
        invariant a.multi && a.dirtyExec == old(a.dirtyExec) && a.db == old(a.db) && a.watched == old(a.watched)
        invariant a.queue == old(a.queue) + Own(a, script[..i])
        invariant a.reply == old(a.reply) + seq(|Own(a, script[..i])|, _ => Queued)
        invariant old(history) <= history
        invariant forall i :: |old(history)| <= i < |history| ==> Foreign(history[i], a)
      {
        OwnStep(a, script, i);
        ghost var before := history;
        ScriptStep(a, script[i].0, script[i].1);
        StillForeign(old(history), before, history, script[i].0, a);
        i := i + 1;
      }
      assert script[..i] == script;
    }

    lemma NothingOwn(a: Client, script: seq<(Client, Request)>)
      requires script == []
      ensures Own(a, script) == []
    {
    }

    /** Optimistic locking: WATCH of some keys, MULTI, any commands among any requests of other clients,
        EXEC. `after` is the data that EXEC finds, `events` is what was touched before it. Nothing runs
        exactly when a watched key was hit, whoever did it, and in particular when one has changed;
        otherwise all commands run, one after the other, on data with the watched values. */
    method Transaction(a: Client, keys: seq<Key>, script: seq<(Client, Request)>)
      returns (ghost after: Data, ghost events: seq<Event<Client>>)
      requires Ok() && a in clients && !a.multi && !a.dirtyCas && !a.dirtyExec && a.queue == [] && Scripted(a, script)
      modifies this`history, clients, dbs
      ensures Ok() && !a.multi && a.queue == [] && a.watched == [] && !a.dirtyCas && !a.dirtyExec
      ensures |after| == |dbs| && old(a.db) < |dbs|
      ensures var n := |Own(a, script)|;
        var replies := old(a.reply) + [Reply.Ok] + [Reply.Ok] + seq(n, _ => Queued);
        if SomeHit(events, old(a.watched), old(a.db), keys) then
          DictsOf(dbs) == after && a.db == old(a.db) && a.reply == replies + [NullMultiBulk]
        else
          var s := After(after, old(a.db), Own(a, script));
          DictsOf(dbs) == s.data && a.db == s.db && a.reply == replies + [MultiBulkLen(n)] + s.answers
      ensures forall k :: k in keys
                && Lookup(old(DictsOf(dbs)), WatchedKey(old(a.db), k)) != Lookup(after, WatchedKey(old(a.db), k))
                ==> SomeHit(events, old(a.watched), old(a.db), keys)
    {
      hide Valid, View, DictsOf, Executed, Dropped, ListAfter, Do, After, NewDb, Answer, Dirty, Apart, Watching,
        WatchedValue, Lookup, HitSince;
      DbInRange(a);
      ProcessCommand(a, Watch(keys));
      ListedAfter(old(a.watched), a.db, keys);
      ghost var h := history;
      FlagsTold(a);
      ViewAt(a);
      ProcessCommand(a, MultiCmd);
      ViewAt(a);
      RunScript(a, script);
      assert history[..|h|] == h;
      events := history[|h|..];
      after := DictsOf(dbs);
      ForeignEvents(history, |h|, a);
      FlagsTold(a);
      HitsSince(history, |h|, a, old(a.watched), a.db, keys);
      assert [] + Own(a, script) == Own(a, script);
      ProcessCommand(a, Exec);
    }

    // -------------------------------------------------------------- clients come and go

    constructor (dbnum: nat)
      requires dbnum > 0
      ensures Ok() && clients == [] && |dbs| == dbnum && fresh(dbs)
      ensures forall i :: 0 <= i < |dbs| ==> dbs[i].dict == map[]
    {
      var all: seq<Db> := [];
      while |all| < dbnum
        invariant |all| <= dbnum && fresh(all) && NoDup(all)
        invariant forall i :: 0 <= i < |all| ==> all[i].dict == map[] && all[i].watchedKeys == map[]
        decreases dbnum - |all|
      {
        var db := new Db();
        all := all + [db];
      }
      dbs, clients, history := all, [], [];
      new;
      Nothing();
    }

    lemma Nothing()
      requires clients == [] && history == []
      requires forall i :: 0 <= i < |dbs| ==> dbs[i].watchedKeys == map[]
      ensures Valid(View())
    {
      hide IndexOf, DictsOf;
      assert forall wk :: Watchers(View(), wk) == [];
    }

    /** A client connects. */
    method AddClient() returns (c: Client)
      requires Ok()
      modifies this
      ensures Ok() && fresh(c) && clients == old(clients) + [c] && View() == Connect(old(View()), c)
    {
      hide Valid, View, Apart, IndexOf, DictsOf;
      c := new Client();
      ViewAt(c);
      ConnectKeeps(View(), c);
      Enlist(c);
      NewHistory(Connected(c));
    }

    method Enlist(c: Client)
      requires Apart() && c !in clients && c.watched == [] && !c.dirtyCas && c.db == 0
      modifies this`clients
      ensures Apart() && clients == old(clients) + [c]
      ensures var v := old(View()); View() == v.(lists := v.lists[c := []], dirty := v.dirty[c := false])
    {
      hide IndexOf, DictsOf;
      clients := clients + [c];
      assert Lists() == old(Lists())[c := []];
      assert Flags() == old(Flags())[c := false];
    }

    /** `freeClient`: the client leaves every list it is on. */
    method FreeClient(c: Client)
      requires Ok() && c in clients
      modifies this, c`watched, dbs`watchedKeys
      ensures Ok() && c !in clients && (forall o :: o in clients <==> o in old(clients) && o != c)
      ensures View() == Forget(UnwatchAll(old(View()), c), c)
    {
      hide Valid, View, Sound, Shape, Linked, Forget;
      ViewAt(c);
      ValidSound();
      UnwatchAllKeepsSound(View(), c);
      UnwatchAllKeys(c);
      ViewAt(c);
      ForgetKeeps(View(), c);
      RemoveClient(c);
    }

    method RemoveClient(c: Client)
      requires Apart() && c in clients
      modifies this`clients
      ensures Apart() && c !in clients && (forall o :: o in clients <==> o in old(clients) && o != c)
      ensures View() == Forget(old(View()), c)
    {
      hide IndexOf, DictsOf, NoDup, Remove;
      var i := Search(clients, c);
      FoundIn(clients, c, i);
      RemoveAt(clients, c, i);
      RemoveFacts(clients, c);
      clients := clients[..i] + clients[i + 1..];
      assert Lists() == old(Lists()) - {c};
      assert Flags() == old(Flags()) - {c};
    }
  }
}
