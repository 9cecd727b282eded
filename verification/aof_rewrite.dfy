/** What the rewriting child writes: commands that rebuild a snapshot, at most 64 list items each. */
module AofRewrite {
  import opened Resp
  import opened AofLog

  const ITEMS_PER_CMD: nat := 64

  function Min(a: nat, b: nat): nat { if a < b then a else b }

  function Chunk(key: string, items: seq<string>): seq<string> {
    ["RPUSH", key] + items[..Min(ITEMS_PER_CMD, |items|)]
  }

  /** The RPUSH commands that rebuild a list. */
  function Chunks(key: string, items: seq<string>): seq<seq<string>> {
    if items == [] then [] else [Chunk(key, items)] + Chunks(key, items[Min(ITEMS_PER_CMD, |items|)..])
  }

  ghost predicate NoEmptyLists(data: Data) {
    forall i, k :: 0 <= i < |data| && k in data[i] && data[i][k].List? ==> data[i][k].items != []
  }

  /** What is still to be written when `count` items of the current command have been. */
  function Rest(key: string, count: nat, items: seq<string>): string
    requires count < ITEMS_PER_CMD
  {
    if count == 0 then PrintAll(Chunks(key, items))
    else
      var m := Min(ITEMS_PER_CMD - count, |items|);
      PrintArgs(items[..m]) + PrintAll(Chunks(key, items[m..]))
  }

  lemma {:induction false} ArgsSplit(a: seq<string>, b: seq<string>)
    ensures PrintArgs(a + b) == PrintArgs(a) + PrintArgs(b)
  {
    if a == [] {
      assert a + b == b;
    } else {
      assert (a + b)[1..] == a[1..] + b;
      ArgsSplit(a[1..], b);
    }
  }

  /** Opening a command leaves its items to be written. */
  lemma OpenChunk(key: string, items: seq<string>)
    requires items != []
    ensures var m := Min(ITEMS_PER_CMD, |items|);
      Rest(key, 0, items) == Header('*', 2 + m) + PrintArgs(["RPUSH", key])
                             + (PrintArgs(items[..m]) + PrintAll(Chunks(key, items[m..])))
  {
    var m := Min(ITEMS_PER_CMD, |items|);
    ArgsSplit(["RPUSH", key], items[..m]);
    assert Chunks(key, items)[0] == Chunk(key, items) && Chunks(key, items)[1..] == Chunks(key, items[m..]);
  }

  lemma WriteItem(key: string, count: nat, items: seq<string>)
    requires 0 < count < ITEMS_PER_CMD && items != []
    ensures var next := if count + 1 == ITEMS_PER_CMD then 0 else count + 1;
      Rest(key, count, items) == Header('$', |items[0]|) + items[0] + CRLF + Rest(key, next, items[1..])
  {
    hide Chunks, PrintAll, Header;
    FirstItem(key, ITEMS_PER_CMD - count, items);
  }

  lemma FirstItem(key: string, left: nat, items: seq<string>)
    requires 0 < left && items != []
    ensures var m := Min(left, |items|);
      PrintArgs(items[..m]) + PrintAll(Chunks(key, items[m..]))
        == Header('$', |items[0]|) + items[0] + CRLF
           + if left == 1 then PrintAll(Chunks(key, items[1..]))
             else PrintArgs(items[1..][..m - 1]) + PrintAll(Chunks(key, items[1..][m - 1..]))
  {
    hide Chunks, PrintAll, Header;
    var m := Min(left, |items|);
    assert items[..m][0] == items[0] && items[..m][1..] == items[1..][..m - 1];
    assert items[1..][m - 1..] == items[m..];
    if left == 1 { assert PrintArgs(items[..m][1..]) == ""; }
  }

  /** The commands carry 64 items each but for the last one, which has what is left. */
  lemma {:induction false} ChunkSizes(key: string, items: seq<string>, k: nat)
    requires k < |Chunks(key, items)|
    ensures |Chunks(key, items)| == (|items| + ITEMS_PER_CMD - 1) / ITEMS_PER_CMD
    ensures ITEMS_PER_CMD * k < |items|
    ensures Chunks(key, items)[k]
         == ["RPUSH", key] + items[ITEMS_PER_CMD * k..Min(ITEMS_PER_CMD * (k + 1), |items|)]
    decreases |items|
  {
    var m := Min(ITEMS_PER_CMD, |items|);
    var rest := items[m..];
    assert Chunks(key, items) == [Chunk(key, items)] + Chunks(key, rest);
    if k > 0 {
      ChunkSizes(key, rest, k - 1);
      assert items[ITEMS_PER_CMD * k..Min(ITEMS_PER_CMD * (k + 1), |items|)]
          == rest[ITEMS_PER_CMD * (k - 1)..Min(ITEMS_PER_CMD * k, |rest|)];
    } else if rest != [] {
      ChunkSizes(key, rest, 0);
    }
  }

  /** `rewriteListObject`. */
  method RewriteListObject(dst: string, key: string, list: seq<string>) returns (r: string)
    ensures r == dst + PrintAll(Chunks(key, list))
  {
    hide Rest, Chunks, PrintAll, Header, PrintArgs;
    r := dst;
    var count, items, i := 0, |list|, 0;
    assert list[0..] == list;
    RestAtStart(key, list);
    while i < |list|
      invariant i <= |list| && items == |list| - i && 0 <= count < ITEMS_PER_CMD
      invariant r + Rest(key, count, list[i..]) == dst + PrintAll(Chunks(key, list))
    {
      ghost var left := list[i..];
      assert left[0] == list[i] && left[1..] == list[i + 1..];
      if count == 0 {
        var cmdItems := if items > ITEMS_PER_CMD then ITEMS_PER_CMD else items;
        OpenChunk(key, left);
        r := r + Header('*', 2 + cmdItems);
        r := r + PrintArgs(["RPUSH", key]);
        FirstItem(key, ITEMS_PER_CMD, left);
        RestAfter(key, 1, left[1..]);
      } else {
        WriteItem(key, count, left);
      }
      r := r + (Header('$', |list[i]|) + list[i] + CRLF);
      count := count + 1;
      if count == ITEMS_PER_CMD { count := 0; }
      items := items - 1;
      i := i + 1;
    }
    assert list[i..] == [];
    RestAtEnd(key, count);
  }

  lemma RestAtStart(key: string, list: seq<string>)
    ensures Rest(key, 0, list) == PrintAll(Chunks(key, list))
  {
  }

  lemma RestAfter(key: string, count: nat, items: seq<string>)
    requires 0 < count < ITEMS_PER_CMD
    ensures var m := Min(ITEMS_PER_CMD - count, |items|);
      Rest(key, count, items) == PrintArgs(items[..m]) + PrintAll(Chunks(key, items[m..]))
  {
  }

  lemma RestAtEnd(key: string, count: nat)
    requires count < ITEMS_PER_CMD
    ensures Rest(key, count, []) == ""
  {
  }

  // ---------------------------------------------------------------- what the commands rebuild

  lemma ChunkAppends(r: Replay, key: string, prefix: seq<string>, items: seq<string>)
    requires r.sel < |r.data| && items != []
    requires if prefix == [] then key !in r.data[r.sel] else key in r.data[r.sel] && r.data[r.sel][key] == List(prefix)
    ensures var done := items[..Min(ITEMS_PER_CMD, |items|)];
      Exec(r, Chunk(key, items)) == r.(data := r.data[r.sel := r.data[r.sel][key := List(prefix + done)]])
  {
    var c := RPush(key, items[..Min(ITEMS_PER_CMD, |items|)]);
    hide Exec;
    ExecCmd(r, c);
    assert Args(c) == Chunk(key, items);
  }

  /** Replaying the chunks of a list appends its items. */
  lemma {:induction false} ChunksRebuild(r: Replay, key: string, prefix: seq<string>, items: seq<string>)
    requires r.sel < |r.data| && items != []
    requires if prefix == [] then key !in r.data[r.sel] else key in r.data[r.sel] && r.data[r.sel][key] == List(prefix)
    ensures NonEmptyVectors(Chunks(key, items))
    ensures ExecAll(r, Chunks(key, items)) == r.(data := r.data[r.sel := r.data[r.sel][key := List(prefix + items)]])
    decreases |items|
  {
    hide Exec, Apply, Effective, Args;
    var m := Min(ITEMS_PER_CMD, |items|);
    var after := items[m..];
    assert items[..m] + after == items;
    var chunks := Chunks(key, items);
    assert chunks == [Chunk(key, items)] + Chunks(key, after);
    ChunkAppends(r, key, prefix, items);
    var r1 := Exec(r, Chunk(key, items));
    assert ExecAll(r, chunks) == ExecAll(r1, chunks[1..]) == ExecAll(r1, Chunks(key, after));
    if after == [] {
      assert prefix + items[..m] == prefix + items;
    } else {
      var d := r.data[r.sel];
      ChunksRebuild(r1, key, prefix + items[..m], after);
      assert (prefix + items[..m]) + after == prefix + items;
      assert d[key := List(prefix + items[..m])][key := List(prefix + items)] == d[key := List(prefix + items)];
    }
  }

  /** The commands written for one key. */
  function KeyCmds(key: string, v: Value): seq<seq<string>> {
    match v
    case Str(s) => [["SET", key, s]]
    case List(items) => Chunks(key, items)
  }

  lemma KeyRebuilds(r: Replay, key: string, v: Value)
    requires r.sel < |r.data| && key !in r.data[r.sel] && (v.List? ==> v.items != [])
    ensures NonEmptyVectors(KeyCmds(key, v))
    ensures ExecAll(r, KeyCmds(key, v)) == r.(data := r.data[r.sel := r.data[r.sel][key := v]])
  {
    match v
    case Str(s) =>
      ExecCmd(r, Set(key, s));
      ExecOne(r, Args(Set(key, s)));
    case List(items) =>
      ChunksRebuild(r, key, [], items);
      assert [] + items == items;
  }

  /** The data rebuilt once the databases below `j` and the part `done` of database `j` are written. */
  ghost function Built(data: Data, j: nat, done: Db): Data
    requires j < |data|
  {
    data[..j] + [done] + EmptyData(|data| - j - 1)
  }

  lemma BuiltSteps(data: Data, j: nat, done: Db)
    requires j < |data|
    ensures |Built(data, j, done)| == |data| && Built(data, j, done)[j] == done
    ensures forall d :: Built(data, j, done)[j := d] == Built(data, j, d)
    ensures j + 1 < |data| ==> Built(data, j, data[j]) == Built(data, j + 1, map[])
    ensures j + 1 == |data| ==> Built(data, j, data[j]) == data
    ensures Built(data, 0, map[]) == EmptyData(|data|)
  {
    assert data[..j] + [data[j]] == data[..j + 1];
  }

  /** A log under construction: printed commands and what they replay to. */
  ghost predicate LogOf(out: string, cmds: seq<seq<string>>, dbnum: nat, r: Replay) {
    NonEmptyVectors(cmds) && out == PrintAll(cmds) && ExecAll(Replay(EmptyData(dbnum), 0), cmds) == r
  }

  lemma ExtendLog(out: string, cmds: seq<seq<string>>, dbnum: nat, r: Replay, more: seq<seq<string>>)
    requires LogOf(out, cmds, dbnum, r) && NonEmptyVectors(more)
    ensures LogOf(out + PrintAll(more), cmds + more, dbnum, ExecAll(r, more))
  {
    hide PrintAll;
    ExecAllAppend(Replay(EmptyData(dbnum), 0), cmds, more);
    PrintAllAppend(cmds, more);
  }

  lemma PrintOne(a: seq<string>)
    ensures PrintAll([a]) == Print(a)
  {
  }

  /** One database: SELECT, then every key in whatever order the dictionary is walked. */
  method RewriteDb(dst: string, data: Data, j: nat, ghost before: seq<seq<string>>, ghost sel: nat)
    returns (out: string, ghost cmds: seq<seq<string>>)
    requires j < |data| <= LLONG_MAX && NoEmptyLists(data) && data[j] != map[]
    requires LogOf(dst, before, |data|, Replay(Built(data, j, map[]), sel)) && sel < |data|
    ensures LogOf(out, cmds, |data|, Replay(Built(data, j, data[j]), j))
  {
    hide LogOf, PrintAll, Exec, Built, KeyCmds;
    var select := SelectArgs(j);
    out := dst + Print(select);
    cmds := before + [select];
    BuiltSteps(data, j, map[]);
    ExecSelect(Replay(Built(data, j, map[]), sel), j);
    ExecOne(Replay(Built(data, j, map[]), sel), select);
    PrintOne(select);
    ExtendLog(dst, before, |data|, Replay(Built(data, j, map[]), sel), [select]);
    var keys := data[j].Keys;
    ghost var done: Db := map[];
    while keys != {}
      invariant keys <= data[j].Keys
      invariant done == data[j] - keys
      invariant LogOf(out, cmds, |data|, Replay(Built(data, j, done), j))
      decreases keys
    {
      var key :| key in keys;
      var v := data[j][key];
      BuiltSteps(data, j, done);
      ghost var more := KeyCmds(key, v);
      KeyRebuilds(Replay(Built(data, j, done), j), key, v);
      ExtendLog(out, cmds, |data|, Replay(Built(data, j, done), j), more);
      out := WriteKey(out, key, v);
      cmds := cmds + more;
      keys := keys - {key};
      assert done[key := v] == data[j] - keys;
      done := done[key := v];
    }
    assert done == data[j];
  }

  method WriteKey(dst: string, key: string, v: Value) returns (out: string)
    ensures out == dst + PrintAll(KeyCmds(key, v))
  {
    match v
    case Str(s) =>
      out := dst + Print(["SET", key, s]);
      PrintOne(["SET", key, s]);
    case List(items) =>
      out := RewriteListObject(dst, key, items);
  }

  /** `rewriteAppendOnlyFile`: the file it writes rebuilds exactly the snapshot. */
  method RewriteAppendOnlyFile(data: Data) returns (out: string)
    requires 0 < |data| <= LLONG_MAX && NoEmptyLists(data)
    ensures Streams(out, data, -1)
  {
    hide LogOf, PrintAll, Built;
    out := "";
    ghost var cmds: seq<seq<string>> := [];
    ghost var sel := 0;
    var j := 0;
    BuiltSteps(data, 0, map[]);
    EmptyLog(|data|);
    while j < |data|
      invariant j <= |data| && sel < |data|
      invariant LogOf(out, cmds, |data|, Replay(if j < |data| then Built(data, j, map[]) else data, sel))
    {
      BuiltSteps(data, j, map[]);
      if data[j] != map[] {
        out, cmds := RewriteDb(out, data, j, cmds, sel);
        sel := j;
      }
      j := j + 1;
    }
    LogStreams(out, cmds, data, sel);
  }

  lemma EmptyLog(dbnum: nat)
    ensures LogOf("", [], dbnum, Replay(EmptyData(dbnum), 0))
  {
  }

  lemma LogStreams(out: string, cmds: seq<seq<string>>, data: Data, sel: nat)
    requires LogOf(out, cmds, |data|, Replay(data, sel))
    ensures Streams(out, data, -1)
  {
  }
}
