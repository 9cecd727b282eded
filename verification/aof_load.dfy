/** Loading an append-only file at startup, one that a crash has cut off included. */
module AofLoad {
  import opened Resp
  import opened AofLog
  import Aof

  // ---------------------------------------------------------------- the loader

  function Prepend(args: seq<string>, r: Read<seq<string>>): Read<seq<string>> {
    if r.Got? then Got(args + r.value, r.rest) else r
  }

  /** The argument loop of `loadAppendOnlyFile`; `left` is what the file pointer has ahead. */
  method ReadVector(stream: string, argc: nat) returns (argv: Read<seq<string>>)
    ensures argv == ReadArgs(stream, argc)
  {
    hide ReadNumber;
    var args: seq<string>, left, j := [], stream, 0;
    NothingBefore(ReadArgs(stream, argc));
    while j < argc
      invariant j <= argc
      invariant ReadArgs(stream, argc) == Prepend(args, ReadArgs(left, argc - j))
    {
      var line := ReadNumber(left, '$');
      if line.ShortRead? { return ShortRead; }
      if line.BadFormat? { return BadFormat; }
      if |line.rest| < line.value + 2 { return ShortRead; }
      OneArgument(args, left, argc - j, line);
      args := args + [line.rest[..line.value]];
      left := line.rest[line.value + 2..];
      j := j + 1;
    }
    assert args + [] == args;
    return Got(args, left);
  }

  lemma NothingBefore(r: Read<seq<string>>)
    ensures Prepend([], r) == r
  {
    if r.Got? { assert [] + r.value == r.value; }
  }

  lemma OneArgument(args: seq<string>, left: string, n: nat, line: Read<nat>)
    requires n > 0 && line == ReadNumber(left, '$') && line.Got? && |line.rest| >= line.value + 2
    ensures Prepend(args, ReadArgs(left, n))
         == Prepend(args + [line.rest[..line.value]], ReadArgs(line.rest[line.value + 2..], n - 1))
  {
    hide ReadNumber;
    var r := ReadArgs(line.rest[line.value + 2..], n - 1);
    if r.Got? { assert args + ([line.rest[..line.value]] + r.value) == args + [line.rest[..line.value]] + r.value; }
  }

  /** `t` is the end of `s`. */
  predicate Tail(s: string, t: string) {
    |t| <= |s| && s[|s| - |t|..] == t
  }

  lemma TailOfTail(s: string, t: string, u: string)
    requires Tail(s, t) && Tail(t, u)
    ensures Tail(s, u)
  {
  }

  lemma {:induction false} ArgsTail(s: string, n: nat)
    ensures ReadArgs(s, n).Got? ==> Tail(s, ReadArgs(s, n).rest)
    decreases n
  {
    hide LineLen, Atoi, Tail;
    if ReadArgs(s, n).Got? {
      if n == 0 {
        Drop(s, 0);
      } else {
        var line := ReadNumber(s, '$');
        Drop(s, LineLen(s));
        Drop(line.rest, line.value + 2);
        ArgsTail(line.rest[line.value + 2..], n - 1);
        TailOfTail(s, line.rest, line.rest[line.value + 2..]);
        TailOfTail(s, line.rest[line.value + 2..], ReadArgs(s, n).rest);
      }
    }
  }

  lemma Drop(s: string, n: nat)
    requires n <= |s|
    ensures Tail(s, s[n..])
  {
  }

  lemma CommandTail(s: string)
    ensures ReadCommand(s).Got? ==> Tail(s, ReadCommand(s).rest)
  {
    hide LineLen, Atoi, Tail;
    if ReadCommand(s).Got? {
      var count := ReadCount(s);
      Drop(s, LineLen(s));
      ArgsTail(count.rest, count.value);
      TailOfTail(s, count.rest, ReadCommand(s).rest);
    }
  }

  /** `loadAppendOnlyFile`. `loadTruncated` is the option to go on with a file that is cut off,
      `truncated` tells whether truncating it then succeeds; `kept` is the file afterwards. */
  method LoadAppendOnlyFile(start: Replay, file: string, loadTruncated: bool, truncated: bool)
    returns (ok: bool, r: Replay, kept: string)
    ensures var l := Load(start, file);
      && (ok <==> l.Loaded? || (l.CutOff? && loadTruncated && truncated))
      && (ok ==> r == l.r)
      && (if ok && l.CutOff? then kept + l.left == file else kept == file)
  {
    hide ReadCount, ReadArgs, Exec, Tail;
    var left, validUpTo := file, 0;
    r, kept := start, file;
    Drop(file, 0);
    while left != ""
      invariant Tail(file, left) && |left| <= |file| && (loadTruncated ==> validUpTo == |file| - |left|)
      invariant Load(start, file) == Load(r, left)
      decreases |left|
    {
      var argv: Read<seq<string>> := ShortRead;
      var count := ReadCount(left);
      if count.BadFormat? { return false, r, file; }
      if count.Got? { argv := ReadVector(count.rest, count.value); }
      assert argv == ReadCommand(left);
      if argv.BadFormat? { return false, r, file; }
      if argv.ShortRead? {
        if !loadTruncated || !truncated { return false, r, file; }
        TailSplits(file, left);
        return true, r, file[..validUpTo];
      }
      CommandTail(left);
      TailOfTail(file, left, argv.rest);
      TailIsShort(file, argv.rest);
      r, left := Exec(r, argv.value), argv.rest;
      if loadTruncated { validUpTo := |file| - |left|; }
    }
    ok := true;
  }

  lemma TailIsShort(s: string, t: string)
    requires Tail(s, t)
    ensures |t| <= |s|
  {
  }

  lemma TailSplits(s: string, t: string)
    requires Tail(s, t)
    ensures |t| <= |s| && s[..|s| - |t|] + t == s
  {
  }

  // ---------------------------------------------------------------- a log that is cut off

  /** How many commands of a log are complete within its first `n` bytes. */
  ghost function Whole(cmds: seq<seq<string>>, n: nat): (k: nat)
    ensures k <= |cmds|
    decreases |cmds|
  {
    if cmds == [] || n < |Print(cmds[0])| then 0 else 1 + Whole(cmds[1..], n - |Print(cmds[0])|)
  }

  /** The first `k` commands are complete, and the next one is not. */
  lemma {:induction false} WholeIs(cmds: seq<seq<string>>, n: nat)
    requires n <= |PrintAll(cmds)|
    ensures var k := Whole(cmds, n);
      && |PrintAll(cmds[..k])| <= n && PrintAll(cmds[..k]) == PrintAll(cmds)[..|PrintAll(cmds[..k])|]
      && (k < |cmds| ==> n < |PrintAll(cmds[..k + 1])|)
    decreases |cmds|
  {
    hide Print;
    var k := Whole(cmds, n);
    if k == 0 {
      assert PrintAll(cmds[..0]) == "";
      if cmds != [] { FirstPrinted(cmds, 1); assert PrintAll(cmds[1..][..0]) == ""; }
    } else {
      WholeIs(cmds[1..], n - |Print(cmds[0])|);
      FirstPrinted(cmds, k);
      if k < |cmds| { FirstPrinted(cmds, k + 1); }
    }
  }

  lemma FirstPrinted(cmds: seq<seq<string>>, k: nat)
    requires 0 < k <= |cmds|
    ensures PrintAll(cmds[..k]) == Print(cmds[0]) + PrintAll(cmds[1..][..k - 1])
  {
    hide Print;
    assert cmds[..k][1..] == cmds[1..][..k - 1];
  }

  lemma {:induction false} NoLineFeed(s: string)
    requires '\n' !in s
    ensures LineLen(s) == |s|
  {
    if s != "" { NoLineFeed(s[1..]); }
  }

  lemma AtoiPositive(s: string)
    requires s != "" && IsDigit(s[0]) && s[0] != '0'
    ensures Atoi(s) >= 1
  {
    ValDec(s[..DigitCount(s)]);
  }

  /** A line that is cut off ends the file; what its digits say does not matter then. */
  lemma CutHeader(mark: char, v: nat, n: nat)
    requires (mark == '*' || mark == '$') && 0 < n < |Header(mark, v)|
    ensures var s := Header(mark, v)[..n];
      && ReadNumber(s, mark).Got? && ReadNumber(s, mark).rest == ""
      && (mark == '*' && v > 0 ==> ReadCount(s) == (if n == 1 then ShortRead else ReadNumber(s, mark)))
  {
    hide Atoi, Dec;
    var s := Header(mark, v)[..n];
    assert Header(mark, v) == [mark] + Dec(v) + CRLF;
    NoLineFeed(s);
    assert s[0] == mark;
    if n > 1 && v > 0 {
      DecVal(v);
      assert s[1] == Dec(v)[0] && s[1..n][0] == s[1];
      AtoiPositive(s[1..n]);
    }
  }

  /** Arguments of which the end is missing. */
  lemma {:induction false} CutArgs(args: seq<string>, n: nat)
    requires n < |PrintArgs(args)|
    ensures ReadArgs(PrintArgs(args)[..n], |args|) == ShortRead
    decreases |args|
  {
    hide Header, ReadNumber;
    var a, tail := args[0], PrintArgs(args[1..]);
    var h, body := Header('$', |a|), a + CRLF + tail;
    assert PrintArgs(args) == h + body;
    var s := PrintArgs(args)[..n];
    if n == 0 {
      EmptyIsShort();
    } else if n < |h| {
      assert s == h[..n];
      CutHeader('$', |a|, n);
    } else {
      var m := n - |h|;
      assert s == h + body[..m];
      ReadHeader('$', |a|, body[..m]);
      if m >= |a| + 2 {
        assert body[..m][|a| + 2..] == tail[..m - |a| - 2];
        CutArgs(args[1..], m - |a| - 2);
      }
    }
  }

  lemma EmptyIsShort()
    ensures ReadNumber("", '$') == ShortRead
  {
  }

  /** A command of which the end is missing is noticed. */
  lemma CutCommand(c: seq<string>, n: nat)
    requires c != [] && 0 < n < |Print(c)|
    ensures ReadCommand(Print(c)[..n]) == ShortRead
  {
    hide Header, ReadNumber, ReadCount, PrintArgs;
    var h, s := Header('*', |c|), Print(c)[..n];
    if n < |h| {
      assert s == h[..n];
      CutHeader('*', |c|, n);
      EmptyIsShort();
    } else {
      assert s == h + PrintArgs(c)[..n - |h|];
      ReadHeader('*', |c|, PrintArgs(c)[..n - |h|]);
      CutArgs(c, n - |h|);
    }
  }

  /** A log that ends anywhere, in the middle of a command included, loads to what its complete
      commands do, and what is left over is the beginning of the next one. */
  lemma {:induction false} LoadCut(r: Replay, cmds: seq<seq<string>>, n: nat)
    requires NonEmptyVectors(cmds) && n <= |PrintAll(cmds)|
    ensures var k := Whole(cmds, n);
      var done, l := PrintAll(cmds[..k]), Load(r, PrintAll(cmds)[..n]);
      && |done| <= n
      && l == if |done| == n then Loaded(ExecAll(r, cmds[..k]))
              else CutOff(ExecAll(r, cmds[..k]), PrintAll(cmds)[|done|..n])
    decreases |cmds|
  {
    hide Print, Exec, ReadCommand;
    var file, k := PrintAll(cmds), Whole(cmds, n);
    if n == 0 {
      NothingWhole(cmds);
    } else {
      var p, tail := Print(cmds[0]), PrintAll(cmds[1..]);
      if n < |p| {
        assert file[..n] == p[..n] && file[0..n] == p[..n];
        CutCommand(cmds[0], n);
        assert cmds[..0] == [];
      } else {
        assert file[..n] == p + tail[..n - |p|];
        ReadPrinted(cmds[0], tail[..n - |p|]);
        LoadCut(Exec(r, cmds[0]), cmds[1..], n - |p|);
        FirstPrinted(cmds, k);
        assert cmds[..k][0] == cmds[0] && cmds[..k][1..] == cmds[1..][..k - 1];
        var done := PrintAll(cmds[1..][..k - 1]);
        if |done| < n - |p| { assert file[|p| + |done|..n] == tail[|done|..n - |p|]; }
      }
    }
  }

  lemma NothingWhole(cmds: seq<seq<string>>)
    ensures Whole(cmds, 0) == 0 && cmds[..0] == []
  {
    if cmds != [] { assert |Print(cmds[0])| > 0; }
  }

  // ---------------------------------------------------------------- recovery after a crash

  /** A crash that leaves any beginning of the log, say the file with part of what was being written:
      loading it, cut-off files allowed, gives what some number of the first commands of the log do,
      all of them if nothing is missing, and the file kept is a log of that. */
  method CrashRecovers(s: Aof.Server, cap: nat, n: nat) returns (r: Replay, kept: string, ghost cmds: seq<seq<string>>)
    requires cap > 0 && Aof.Safe(s, cap) && s.state.On? && n <= |s.file + s.buf|
    ensures NonEmptyVectors(cmds) && s.file + s.buf == PrintAll(cmds)
    ensures var start, k := Replay(EmptyData(|s.data|), 0), Whole(cmds, n);
      && r == ExecAll(start, cmds[..k]) && kept == PrintAll(cmds[..k]) && kept <= s.file + s.buf
      && ExecAll(start, cmds).data == s.data && (k < |cmds| ==> n < |PrintAll(cmds[..k + 1])|)
      && (n == |s.file + s.buf| ==> r.data == s.data) && Streams(kept, r.data, r.sel)
  {
    hide PrintAll, ExecAll, Load;
    cmds := Commands(s, cap);
    ghost var start, k := Replay(EmptyData(|s.data|), 0), Whole(cmds, n);
    LoadCut(start, cmds, n);
    WholeIs(cmds, n);
    var ok;
    ok, r, kept := LoadAppendOnlyFile(Replay(EmptyData(|s.data|), 0), (s.file + s.buf)[..n], true, true);
    KeptIsDone(PrintAll(cmds), kept, |PrintAll(cmds[..k])|, n);
    if n == |s.file + s.buf| { WholeAll(cmds); }
    assert NonEmptyVectors(cmds[..k]);
  }

  ghost method Commands(s: Aof.Server, cap: nat) returns (cmds: seq<seq<string>>)
    requires cap > 0 && Aof.Safe(s, cap) && s.state.On?
    ensures NonEmptyVectors(cmds) && s.file + s.buf == PrintAll(cmds)
    ensures ExecAll(Replay(EmptyData(|s.data|), 0), cmds).data == s.data
  {
    hide PrintAll, ExecAll;
    cmds :| NonEmptyVectors(cmds) && s.file + s.buf == PrintAll(cmds)
         && EndsIn(ExecAll(Replay(EmptyData(|s.data|), 0), cmds), s.data, s.selected);
  }

  lemma KeptIsDone(file: string, kept: string, m: nat, n: nat)
    requires m <= n <= |file| && (if m < n then kept + file[m..n] == file[..n] else kept == file[..n])
    ensures kept == file[..m]
  {
    if m < n { assert file[..n] == file[..m] + file[m..n]; assert (kept + file[m..n])[..|kept|] == kept; }
  }

  lemma {:induction false} WholeAll(cmds: seq<seq<string>>)
    ensures Whole(cmds, |PrintAll(cmds)|) == |cmds| && cmds[..|cmds|] == cmds
    decreases |cmds|
  {
    hide Print;
    if cmds != [] { WholeAll(cmds[1..]); }
  }
}
