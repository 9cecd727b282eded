/** What an append-only file means: the commands in it, replayed on an empty data set. */
module AofLog {
  import opened Resp

  datatype Value = Str(s: string) | List(items: seq<string>)

  type Db = map<string, Value>
  type Data = seq<Db>

  /** The commands of the log, as the clients send them. */
  datatype Cmd = Set(key: string, val: string) | Del(key: string) | RPush(key: string, items: seq<string>)

  datatype Replay = Replay(data: Data, sel: nat)

  // ---------------------------------------------------------------- executing commands

  function Args(c: Cmd): seq<string> {
    match c
    case Set(k, v) => ["SET", k, v]
    case Del(k) => ["DEL", k]
    case RPush(k, items) => ["RPUSH", k] + items
  }

  function SelectArgs(id: nat): seq<string> {
    ["SELECT", Dec(id)]
  }

  /** False for a command that leaves the data alone (and is then not propagated). */
  predicate Effective(db: Db, c: Cmd) {
    match c
    case Set(_, _) => true
    case Del(k) => k in db
    case RPush(k, items) => items != [] && (k in db ==> db[k].List?)
  }

  function Apply(db: Db, c: Cmd): Db {
    if !Effective(db, c) then db
    else
      match c
      case Set(k, v) => db[k := Str(v)]
      case Del(k) => db - {k}
      case RPush(k, items) => db[k := List((if k in db then db[k].items else []) + items)]
  }

  /** The command a vector of arguments stands for. */
  function Decode(argv: seq<string>): Option<Cmd> {
    if |argv| == 3 && argv[0] == "SET" then Some(Set(argv[1], argv[2]))
    else if |argv| == 2 && argv[0] == "DEL" then Some(Del(argv[1]))
    else if |argv| >= 3 && argv[0] == "RPUSH" then Some(RPush(argv[1], argv[2..]))
    else None
  }

  /** One command of the replay, run by the fake client. */
  function Exec(r: Replay, argv: seq<string>): (r': Replay)
    ensures |r'.data| == |r.data|
    ensures r.sel < |r.data| ==> r'.sel < |r'.data|
  {
    if |argv| == 2 && argv[0] == "SELECT" then
      match Parse(argv[1])
      case Some(n) => if 0 <= n < |r.data| then r.(sel := n) else r
      case None => r
    else
      match Decode(argv)
      case Some(c) => if r.sel < |r.data| then r.(data := r.data[r.sel := Apply(r.data[r.sel], c)]) else r
      case None => r
  }

  function ExecAll(r: Replay, cmds: seq<seq<string>>): (r': Replay)
    ensures |r'.data| == |r.data|
    ensures r.sel < |r.data| ==> r'.sel < |r'.data|
    decreases |cmds|
  {
    if cmds == [] then r else ExecAll(Exec(r, cmds[0]), cmds[1..])
  }

  lemma {:induction false} ExecAllAppend(r: Replay, a: seq<seq<string>>, b: seq<seq<string>>)
    ensures ExecAll(r, a + b) == ExecAll(ExecAll(r, a), b)
    decreases |a|
  {
    if a == [] {
      assert a + b == b;
    } else {
      assert (a + b)[0] == a[0] && (a + b)[1..] == a[1..] + b;
      ExecAllAppend(Exec(r, a[0]), a[1..], b);
    }
  }

  lemma ExecCmd(r: Replay, c: Cmd)
    requires r.sel < |r.data| && Effective(r.data[r.sel], c)
    ensures Exec(r, Args(c)) == r.(data := r.data[r.sel := Apply(r.data[r.sel], c)])
  {
    assert c.RPush? ==> Args(c)[2..] == c.items;
  }

  lemma ExecSelect(r: Replay, id: nat)
    requires id < |r.data| <= LLONG_MAX
    ensures Exec(r, SelectArgs(id)) == r.(sel := id)
  {
    ParseDec(id);
  }

  // ---------------------------------------------------------------- reading a file

  function EmptyData(dbnum: nat): Data {
    seq(dbnum, _ => map[])
  }

  /** Index just past the first line feed, or the end. */
  function LineLen(s: string): (n: nat)
    ensures n <= |s| && (s != "" ==> n > 0)
  {
    if s == "" then 0 else if s[0] == '\n' then 1 else 1 + LineLen(s[1..])
  }

  function DigitCount(s: string): (n: nat)
    ensures n <= |s| && forall i :: 0 <= i < n ==> IsDigit(s[i])
  {
    if s == "" || !IsDigit(s[0]) then 0 else 1 + DigitCount(s[1..])
  }

  /** `atoi`: the value of the leading digits. */
  function Atoi(s: string): nat {
    Val(s[..DigitCount(s)])
  }

  /** The outcome of reading one thing: what was read and what follows, the end of the file in the
      middle of it, or something else than was expected. */
  datatype Read<+T> = Got(value: T, rest: string) | ShortRead | BadFormat

  /** A line "<mark><number>...". */
  function ReadNumber(s: string, mark: char): (r: Read<nat>)
    ensures r.Got? ==> |r.rest| < |s|
  {
    if s == "" then ShortRead
    else if s[0] != mark then BadFormat
    else Got(Atoi(s[1..LineLen(s)]), s[LineLen(s)..])
  }

  /** The first line of a command. A mark with nothing behind it is where the file ends, or an error. */
  function ReadCount(s: string): (r: Read<nat>)
    ensures r.Got? ==> r.value >= 1 && |r.rest| < |s|
  {
    var r, n := ReadNumber(s, '*'), LineLen(s);
    if !r.Got? then r
    else if n == 1 || s[1] == '\0' then if s[n - 1] == '\n' then BadFormat else ShortRead
    else if r.value < 1 then BadFormat
    else r
  }

  function ReadArgs(s: string, n: nat): (r: Read<seq<string>>)
    ensures r.Got? ==> |r.rest| <= |s|
    decreases n
  {
    if n == 0 then Got([], s)
    else
      match ReadNumber(s, '$')
      case ShortRead => ShortRead
      case BadFormat => BadFormat
      case Got(len, rest) =>
        if |rest| < len + 2 then ShortRead
        else
          match ReadArgs(rest[len + 2..], n - 1)
          case ShortRead => ShortRead
          case BadFormat => BadFormat
          case Got(args, left) => Got([rest[..len]] + args, left)
  }

  /** One command of the file. */
  function ReadCommand(s: string): (r: Read<seq<string>>)
    ensures r.Got? ==> |r.rest| < |s|
  {
    match ReadCount(s)
    case ShortRead => ShortRead
    case BadFormat => BadFormat
    case Got(argc, rest) => ReadArgs(rest, argc)
  }

  /** `CutOff`: the file ends within a command, of which `left` is there. */
  datatype LoadResult = Loaded(r: Replay) | CutOff(r: Replay, left: string) | BadFile

  /** `loadAppendOnlyFile`, but for what it does with a file that is cut off. */
  function Load(r: Replay, file: string): LoadResult
    decreases |file|
  {
    if file == "" then Loaded(r)
    else
      match ReadCommand(file)
      case ShortRead => CutOff(r, file)
      case BadFormat => BadFile
      case Got(argv, left) => Load(Exec(r, argv), left)
  }

  lemma {:induction false} LineOfHeader(digits: string, rest: string)
    requires AllDigits(digits)
    ensures LineLen(digits + CRLF + rest) == |digits| + 2
    ensures DigitCount(digits + CRLF) == |digits|
  {
    var s := digits + CRLF + rest;
    if digits == "" {
      assert s[0] == '\r' && s[1..][0] == '\n';
      assert LineLen(s[1..]) == 1;
    } else {
      assert s[1..] == digits[1..] + CRLF + rest;
      assert (digits + CRLF)[1..] == digits[1..] + CRLF;
      LineOfHeader(digits[1..], rest);
    }
  }

  lemma ReadHeader(mark: char, n: nat, rest: string)
    requires mark == '*' || mark == '$'
    ensures ReadNumber(Header(mark, n) + rest, mark) == Got(n, rest)
    ensures mark == '*' && n > 0 ==> ReadCount(Header(mark, n) + rest) == Got(n, rest)
  {
    var s := Header(mark, n) + rest;
    var d := Dec(n);
    assert s == [mark] + (d + CRLF + rest);
    assert s[1..] == d + CRLF + rest;
    LineOfHeader(d, rest);
    assert LineLen(s) == |d| + 3;
    assert s[1..|d| + 3] == d + CRLF;
    assert (d + CRLF)[..|d|] == d;
    DecVal(n);
    assert s[|d| + 3..] == rest;
    assert s[1] == d[0] && IsDigit(d[0]);
  }

  lemma ReadPrintedArg(a: string, tail: string, n: nat)
    requires n > 0
    ensures var r := ReadArgs(tail, n - 1);
      ReadArgs(Header('$', |a|) + (a + CRLF + tail), n) == if r.Got? then Got([a] + r.value, r.rest) else r
  {
    hide Header, ReadNumber;
    var body := a + CRLF + tail;
    ReadHeader('$', |a|, body);
    assert body[..|a|] == a && body[|a| + 2..] == tail;
  }

  lemma {:induction false} ReadPrintedArgs(args: seq<string>, rest: string)
    ensures ReadArgs(PrintArgs(args) + rest, |args|) == Got(args, rest)
    decreases |args|
  {
    hide Header, ReadNumber;
    if args == [] {
      assert PrintArgs(args) + rest == rest;
    } else {
      var a, tail := args[0], PrintArgs(args[1..]) + rest;
      assert PrintArgs(args) + rest == Header('$', |a|) + (a + CRLF + tail);
      ReadPrintedArg(a, tail, |args|);
      ReadPrintedArgs(args[1..], rest);
      assert [a] + args[1..] == args;
    }
  }

  lemma ReadPrinted(c: seq<string>, rest: string)
    requires c != []
    ensures ReadCommand(Print(c) + rest) == Got(c, rest)
  {
    hide Header, ReadCount, ReadNumber, ReadArgs;
    assert Print(c) + rest == Header('*', |c|) + (PrintArgs(c) + rest);
    ReadHeader('*', |c|, PrintArgs(c) + rest);
    ReadPrintedArgs(c, rest);
  }

  /** Loading a printed log executes exactly the commands that were printed, in order. */
  lemma {:induction false} LoadPrinted(r: Replay, cmds: seq<seq<string>>)
    requires forall i :: 0 <= i < |cmds| ==> cmds[i] != []
    ensures Load(r, PrintAll(cmds)) == Loaded(ExecAll(r, cmds))
    decreases |cmds|
  {
    if cmds != [] {
      hide Print, ReadCommand, Exec;
      ReadPrinted(cmds[0], PrintAll(cmds[1..]));
      CommandMeansNonEmpty(PrintAll(cmds));
      LoadPrinted(Exec(r, cmds[0]), cmds[1..]);
    }
  }

  lemma CommandMeansNonEmpty(s: string)
    ensures ReadCommand(s).Got? ==> s != ""
  {
  }

  // ---------------------------------------------------------------- streams

  ghost predicate NonEmptyVectors(cmds: seq<seq<string>>) {
    forall i :: 0 <= i < |cmds| ==> cmds[i] != []
  }

  /** `sel` is the database the replay ends in, -1 when nothing is claimed about it. */
  ghost predicate EndsIn(r: Replay, data: Data, sel: int) {
    r.data == data && (sel != -1 ==> r.sel == sel)
  }

  /** The bytes are a log of complete commands that rebuilds `data` from nothing. */
  ghost predicate Streams(bytes: string, data: Data, sel: int) {
    exists cmds :: NonEmptyVectors(cmds) && bytes == PrintAll(cmds)
                && EndsIn(ExecAll(Replay(EmptyData(|data|), 0), cmds), data, sel)
  }

  /** The bytes are a log of complete commands that leads from `from` to `data`, whatever
      database is selected at first. */
  ghost predicate Differs(bytes: string, from: Data, data: Data, sel: int) {
    exists cmds :: NonEmptyVectors(cmds) && bytes == PrintAll(cmds)
                && forall s0: nat :: s0 < |from| ==> EndsIn(ExecAll(Replay(from, s0), cmds), data, sel)
  }

  /** Such bytes load, and load to that data. */
  lemma StreamsLoads(bytes: string, data: Data, sel: int)
    requires Streams(bytes, data, sel)
    ensures var l := Load(Replay(EmptyData(|data|), 0), bytes); l.Loaded? && EndsIn(l.r, data, sel)
  {
    var cmds :| NonEmptyVectors(cmds) && bytes == PrintAll(cmds)
             && EndsIn(ExecAll(Replay(EmptyData(|data|), 0), cmds), data, sel);
    LoadPrinted(Replay(EmptyData(|data|), 0), cmds);
  }

  /** What `feedAppendOnlyFile` appends for a command on database `id`. */
  function FeedCmds(sel: int, id: nat, c: Cmd): seq<seq<string>> {
    (if id != sel then [SelectArgs(id)] else []) + [Args(c)]
  }

  lemma FeedExec(r: Replay, sel: int, id: nat, c: Cmd)
    requires r.sel < |r.data| && id < |r.data| <= LLONG_MAX && Effective(r.data[id], c)
    requires sel != -1 ==> r.sel == sel
    ensures ExecAll(r, FeedCmds(sel, id, c)) == Replay(r.data[id := Apply(r.data[id], c)], id)
    ensures NonEmptyVectors(FeedCmds(sel, id, c))
  {
    hide Exec, Args, Apply;
    ArgsNonEmpty(c);
    if id != sel {
      ExecSelect(r, id);
      ExecCmd(r.(sel := id), c);
      assert FeedCmds(sel, id, c) == [SelectArgs(id), Args(c)];
      ExecTwo(r, SelectArgs(id), Args(c));
    } else {
      ExecCmd(r, c);
      assert FeedCmds(sel, id, c) == [Args(c)];
      ExecOne(r, Args(c));
    }
  }

  lemma ArgsNonEmpty(c: Cmd)
    ensures Args(c) != []
  {
  }

  lemma ExecOne(r: Replay, a: seq<string>)
    ensures ExecAll(r, [a]) == Exec(r, a)
  {
    assert ExecAll(Exec(r, a), []) == Exec(r, a);
  }

  lemma ExecTwo(r: Replay, a: seq<string>, b: seq<string>)
    ensures ExecAll(r, [a, b]) == Exec(Exec(r, a), b)
  {
    assert [a, b][1..] == [b];
    ExecOne(Exec(r, a), b);
  }

  /** A fed command extends a log of the old data to a log of the new data. */
  lemma FeedStreams(bytes: string, data: Data, sel: int, id: nat, c: Cmd)
    requires Streams(bytes, data, sel) && id < |data| <= LLONG_MAX && Effective(data[id], c)
    ensures Streams(bytes + PrintAll(FeedCmds(sel, id, c)), data[id := Apply(data[id], c)], id)
  {
    hide FeedCmds, Apply, Effective, PrintAll;
    var cmds :| NonEmptyVectors(cmds) && bytes == PrintAll(cmds)
             && EndsIn(ExecAll(Replay(EmptyData(|data|), 0), cmds), data, sel);
    var start := Replay(EmptyData(|data|), 0);
    var more := FeedCmds(sel, id, c);
    ExecAllAppend(start, cmds, more);
    FeedExec(ExecAll(start, cmds), sel, id, c);
    PrintAllAppend(cmds, more);
    assert NonEmptyVectors(cmds + more);
  }

  lemma FeedDiffers(bytes: string, from: Data, data: Data, sel: int, id: nat, c: Cmd)
    requires Differs(bytes, from, data, sel) && id < |data| == |from| <= LLONG_MAX && Effective(data[id], c)
    ensures Differs(bytes + PrintAll(FeedCmds(sel, id, c)), from, data[id := Apply(data[id], c)], id)
  {
    hide FeedCmds, Apply, Effective, PrintAll;
    var cmds :| NonEmptyVectors(cmds) && bytes == PrintAll(cmds)
             && forall s0: nat :: s0 < |from| ==> EndsIn(ExecAll(Replay(from, s0), cmds), data, sel);
    var more := FeedCmds(sel, id, c);
    PrintAllAppend(cmds, more);
    forall s0: nat | s0 < |from|
      ensures EndsIn(ExecAll(Replay(from, s0), cmds + more), data[id := Apply(data[id], c)], id)
    {
      ExecAllAppend(Replay(from, s0), cmds, more);
      FeedExec(ExecAll(Replay(from, s0), cmds), sel, id, c);
    }
    FeedExec(Replay(data, if sel != -1 then ExecAll(Replay(from, 0), cmds).sel else 0), sel, id, c);
    assert NonEmptyVectors(cmds + more);
  }

  /** The rewritten file followed by the differences is a log of the live data. */
  lemma JoinStreams(out: string, from: Data, diff: string, data: Data, sel: int)
    requires Streams(out, from, -1) && Differs(diff, from, data, sel) && |from| == |data| > 0
    ensures Streams(out + diff, data, sel)
  {
    hide PrintAll;
    var a :| NonEmptyVectors(a) && out == PrintAll(a)
          && EndsIn(ExecAll(Replay(EmptyData(|from|), 0), a), from, -1);
    var b :| NonEmptyVectors(b) && diff == PrintAll(b)
          && forall s0: nat :: s0 < |from| ==> EndsIn(ExecAll(Replay(from, s0), b), data, sel);
    var start := Replay(EmptyData(|from|), 0);
    ExecAllAppend(start, a, b);
    PrintAllAppend(a, b);
    var mid := ExecAll(start, a);
    assert mid == Replay(from, mid.sel);
    assert NonEmptyVectors(a + b);
  }

  lemma EmptyDiffers(data: Data)
    ensures Differs("", data, data, -1)
  {
    var none: seq<seq<string>> := [];
    assert PrintAll(none) == "";
    assert NonEmptyVectors(none);
    forall s0: nat | s0 < |data| ensures EndsIn(ExecAll(Replay(data, s0), none), data, -1) {
    }
  }

  lemma ForgetSelection(bytes: string, data: Data, sel: int)
    requires Streams(bytes, data, sel)
    ensures Streams(bytes, data, -1)
  {
  }
}
