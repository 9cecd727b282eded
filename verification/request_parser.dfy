/** processMultibulkBuffer as a function on the parser state and the query buffer, and the proof
    that the way the bytes arrive does not matter. */
module RequestParser {
  import opened Resp

  const INLINE_MAX_SIZE: nat := 64 * 1024
  const MBULK_BIG_ARG: nat := 32 * 1024
  const MAX_ARGS: nat := 1024 * 1024
  const MAX_BULK: nat := 512 * 1024 * 1024
  const IOBUF_LEN: nat := 16 * 1024

  /** The resumable part of a client: arguments still missing, length of the bulk being read
      (-1 when its header is still to come), arguments read. */
  datatype PState = PState(multibulklen: nat, bulklen: int, argv: seq<string>)

  const FRESH: PState := PState(0, -1, [])

  datatype Outcome = Done | More | ProtocolError

  datatype Result = Result(outcome: Outcome, st: PState, buf: string)

  // ---------------------------------------------------------------- the function

  /** `strchr(buf + pos, '\r')`: the search ends at a zero byte. */
  function FindCR(buf: string, pos: nat): (r: Option<nat>)
    requires pos <= |buf|
    ensures r.Some? ==> pos <= r.value < |buf| && buf[r.value] == '\r'
    decreases |buf| - pos
  {
    if pos == |buf| || buf[pos] == '\0' then None
    else if buf[pos] == '\r' then Some(pos)
    else FindCR(buf, pos + 1)
  }

  function Finish(st: PState, buf: string, pos: nat): Result
    requires pos <= |buf|
  {
    Result(if st.multibulklen == 0 then Done else More, st, buf[pos..])
  }

  /** The argument loop from position `pos` of the buffer. */
  function ParseArgs(st: PState, buf: string, pos: nat): Result
    requires pos <= |buf| && st.bulklen >= -1
    decreases st.multibulklen, if st.bulklen == -1 then 1 else 0
  {
    if st.multibulklen == 0 then Finish(st, buf, pos)
    else if st.bulklen == -1 then
      match FindCR(buf, pos)
      case None =>
        if |buf| > INLINE_MAX_SIZE then Result(ProtocolError, st, buf) else Finish(st, buf, pos)
      case Some(newline) =>
        if newline + 2 > |buf| then Finish(st, buf, pos)
        else if buf[pos] != '$' then Result(ProtocolError, st, buf[pos..])
        else
          var ll := Parse(buf[pos + 1..newline]);
          if ll.None? || ll.value < 0 || ll.value > MAX_BULK then Result(ProtocolError, st, buf[pos..])
          else if ll.value >= MBULK_BIG_ARG then
            ParseArgs(st.(bulklen := ll.value), buf[newline + 2..], 0)
          else
            ParseArgs(st.(bulklen := ll.value), buf, newline + 2)
    else if |buf| - pos < st.bulklen + 2 then Finish(st, buf, pos)
    else
      var n := st.bulklen;
      var st' := PState(st.multibulklen - 1, -1, st.argv + [buf[pos..pos + n]]);
      if pos == 0 && n >= MBULK_BIG_ARG && |buf| == n + 2 then ParseArgs(st', "", 0)
      else ParseArgs(st', buf, pos + n + 2)
  }

  /** `processMultibulkBuffer`; it is only entered on a buffer that starts with '*'. */
  function ParseCommand(st: PState, buf: string): Result
    requires st.bulklen >= -1
    requires st.multibulklen == 0 && buf != "" ==> buf[0] == '*'
  {
    if st.multibulklen > 0 then ParseArgs(st, buf, 0)
    else
      match FindCR(buf, 0)
      case None =>
        if |buf| > INLINE_MAX_SIZE then Result(ProtocolError, st, buf) else Result(More, st, buf)
      case Some(newline) =>
        if newline + 2 > |buf| then Result(More, st, buf)
        else
          var ll := Parse(buf[1..newline]);
          if ll.None? || ll.value > MAX_ARGS then Result(ProtocolError, st, buf)
          else if ll.value <= 0 then Result(Done, st, buf[newline + 2..])
          else ParseArgs(PState(ll.value, st.bulklen, st.argv), buf, newline + 2)
  }

  // ---------------------------------------------------------------- well-formed streams

  predicate Sendable(args: seq<string>) {
    1 <= |args| <= MAX_ARGS && forall i :: 0 <= i < |args| ==> |args[i]| <= MAX_BULK
  }

  /** The state a parser is in after part of `args`. */
  ghost predicate Partial(st: PState, args: seq<string>) {
    && Sendable(args)
    && st.multibulklen <= |args| && st.bulklen >= -1
    && if st.multibulklen == 0 then st == FRESH
       else
         var n := |args| - st.multibulklen;
         st.argv == args[..n] && (st.bulklen == -1 || st.bulklen == |args[n]|)
  }

  /** The bytes of `args` the parser has not consumed yet. */
  ghost function Tail(st: PState, args: seq<string>): string
    requires Partial(st, args)
  {
    if st.multibulklen == 0 then Print(args)
    else
      var n := |args| - st.multibulklen;
      if st.bulklen == -1 then PrintArgs(args[n..]) else args[n] + CRLF + PrintArgs(args[n + 1..])
  }

  /** A header is a mark, digits, and the line end: its line end is the first one. */
  lemma {:induction false} HeaderLine(mark: char, n: nat, buf: string, pos: nat, future: string, rest: string)
    requires mark != '\r' && mark != '\0' && pos <= |buf|
    requires buf[pos..] + future == Header(mark, n) + rest
    ensures var h := |Header(mark, n)|;
      if |buf| - pos <= h - 2 then FindCR(buf, pos) == None
      else FindCR(buf, pos) == Some(pos + h - 2)
    ensures |buf| - pos >= |Header(mark, n)| ==>
      && buf[pos] == mark && buf[pos + 1..pos + |Header(mark, n)| - 2] == Dec(n)
      && buf[pos + |Header(mark, n)|..] + future == rest
  {
    var line := [mark] + Dec(n);
    var t := buf[pos..];
    assert Header(mark, n) == line + CRLF;
    forall i | 0 <= i < |line| && i < |t| ensures t[i] == line[i] {
      assert (t + future)[i] == t[i];
    }
    if |t| > |line| { assert (t + future)[|line|] == t[|line|] == '\r'; }
    FirstCR(buf, pos, if |t| <= |line| then |t| else |line|);
    if |t| >= |line| + 2 {
      assert t[..|line| + 2] == (t + future)[..|line| + 2] == line + CRLF;
      assert buf[pos + 1..pos + |line|] == line[1..] == Dec(n);
      assert t[|line| + 2..] + future == (t + future)[|line| + 2..] == rest;
      assert t[|line| + 2..] == buf[pos + |line| + 2..];
    }
  }

  lemma {:induction false} FirstCR(buf: string, pos: nat, n: nat)
    requires pos + n <= |buf|
    requires forall i :: pos <= i < pos + n ==> buf[i] != '\r' && buf[i] != '\0'
    requires pos + n < |buf| ==> buf[pos + n] == '\r'
    ensures FindCR(buf, pos) == if pos + n < |buf| then Some(pos + n) else None
    decreases n
  {
    if n > 0 { FirstCR(buf, pos + 1, n - 1); }
  }

  // ---------------------------------------------------------------- the whole-buffer size guard

  /** Whether the guard on the buffer size fires: the bytes at hand end inside the header of an
      argument, before its line end, and the buffer, counted from the last place it was trimmed
      at during this call (after the header of a big argument), is over the limit. Only lengths
      matter: those of the arguments to come, of the unread bytes and of the buffer. */
  function Overlong(args: seq<string>, header: bool, avail: nat, total: nat): bool
    decreases |args|, header
  {
    if args == [] then false
    else
      var a, h := |args[0]|, |Header('$', |args[0]|)|;
      if header then
        if avail <= h - 2 then total > INLINE_MAX_SIZE
        else if avail < h then false
        else Overlong(args, false, avail - h, if a >= MBULK_BIG_ARG then avail - h else total)
      else if avail < a + 2 then false
      else if avail == total && a >= MBULK_BIG_ARG && total == a + 2 then Overlong(args[1..], true, 0, 0)
      else Overlong(args[1..], true, avail - a - 2, total)
  }

  /** A buffer within the limit never trips the guard. */
  lemma {:induction false} ShortBufferIsFine(args: seq<string>, header: bool, avail: nat, total: nat)
    requires avail <= total <= INLINE_MAX_SIZE
    ensures !Overlong(args, header, avail, total)
    decreases |args|, header
  {
    if args != [] {
      var a, h := |args[0]|, |Header('$', |args[0]|)|;
      if header {
        if avail >= h {
          ShortBufferIsFine(args, false, avail - h, if a >= MBULK_BIG_ARG then avail - h else total);
        }
      } else if avail >= a + 2 {
        if avail == total && a >= MBULK_BIG_ARG && total == a + 2 {
          ShortBufferIsFine(args[1..], true, 0, 0);
        } else {
          ShortBufferIsFine(args[1..], true, avail - a - 2, total);
        }
      }
    }
  }

  // ---------------------------------------------------------------- the argument loop

  /** Bytes left in the buffer after a call that wants more. */
  ghost predicate Waiting(st: PState, buf: string) {
    if st.bulklen == -1 then |buf| <= 12 else |buf| < st.bulklen + 2
  }

  ghost predicate Tracks(r: Result, args: seq<string>, future: string, suffix: string) {
    && (r.outcome == Done ==> r.st == PState(0, -1, args) && r.buf + future == suffix)
    && (r.outcome == More ==>
          && Partial(r.st, args) && Waiting(r.st, r.buf)
          && r.buf + future == Tail(r.st, args) + suffix)
  }

  lemma HeaderLength(n: nat)
    requires n <= MAX_BULK
    ensures |Header('$', n)| <= 12
  {
    assert Pow10(9) == 1000000000 by {
      assert Pow10(3) == 1000;
      assert Pow10(6) == 1000 * Pow10(3);
    }
    DecLength(n, 9, 1000000000);
  }

  /** Cutting an equation between strings at a common length. */
  lemma Cut(s: string, future: string, a: string, rest: string)
    requires s + future == a + rest && |s| >= |a|
    ensures s[..|a|] == a && s[|a|..] + future == rest
  {
    assert (s + future)[..|a|] == s[..|a|];
    assert (a + rest)[|a|..] == rest;
    assert (s + future)[|a|..] == s[|a|..] + future;
    assert (a + rest)[..|a|] == a;
  }

  /** Reading a header. */
  lemma ReadHeader(st: PState, args: seq<string>, buf: string, pos: nat, future: string, suffix: string)
    requires Partial(st, args) && st.multibulklen > 0 && st.bulklen == -1 && pos <= |buf|
    requires buf[pos..] + future == Tail(st, args) + suffix
    ensures var n := |args| - st.multibulklen; var h := |Header('$', |args[n]|)|; var st' := st.(bulklen := |args[n]|);
      && (|buf| - pos <= h - 2 ==> FindCR(buf, pos) == None)
      && (|buf| - pos == h - 1 ==> FindCR(buf, pos) == Some(pos + h - 2))
      && (|buf| - pos >= h ==>
            && FindCR(buf, pos) == Some(pos + h - 2) && buf[pos] == '$'
            && Parse(buf[pos + 1..pos + h - 2]) == Some(|args[n]|)
            && Partial(st', args) && buf[pos + h..] + future == Tail(st', args) + suffix)
      && |Tail(st, args)| == h + |Tail(st', args)|
  {
    hide Header, PrintArgs, Parse, FindCR, Tail;
    var n := |args| - st.multibulklen;
    var a, st' := args[n], st.(bulklen := |args[n]|);
    TailHeader(st, args);
    Assoc(Header('$', |a|), Tail(st', args), suffix);
    HeaderLine('$', |a|, buf, pos, future, Tail(st', args) + suffix);
    ParseDec(|a|);
  }

  lemma Assoc(a: string, b: string, c: string)
    ensures (a + b) + c == a + (b + c)
  {
  }

  lemma TailHeader(st: PState, args: seq<string>)
    requires Partial(st, args) && st.multibulklen > 0 && st.bulklen == -1
    ensures var n := |args| - st.multibulklen; var st' := st.(bulklen := |args[n]|);
      Partial(st', args) && Tail(st, args) == Header('$', |args[n]|) + Tail(st', args)
  {
    hide Header;
    var n := |args| - st.multibulklen;
    assert args[n..][0] == args[n] && args[n..][1..] == args[n + 1..];
    var h, a, r := Header('$', |args[n]|), args[n], PrintArgs(args[n + 1..]);
    assert PrintArgs(args[n..]) == h + a + CRLF + r;
    Assoc(h, a, CRLF);
    Assoc(h, a + CRLF, r);
  }

  /** Reading an argument. */
  lemma ReadBulk(st: PState, args: seq<string>, buf: string, pos: nat, future: string, suffix: string)
    requires Partial(st, args) && st.multibulklen > 0 && st.bulklen >= 0 && pos <= |buf|
    requires buf[pos..] + future == Tail(st, args) + suffix
    requires |buf| - pos >= st.bulklen + 2
    ensures var k := st.bulklen; var st' := PState(st.multibulklen - 1, -1, st.argv + [buf[pos..pos + k]]);
      && buf[pos + k + 2..] + future == PrintArgs(args[|args| - st'.multibulklen..]) + suffix
      && (st'.multibulklen == 0 ==> st'.argv == args)
      && (st'.multibulklen > 0 ==>
            Partial(st', args)
            && Tail(st', args) == PrintArgs(args[|args| - st'.multibulklen..]))
      && |Tail(st, args)| == k + 2 + |PrintArgs(args[|args| - st'.multibulklen..])|
  {
    hide PrintArgs;
    var n := |args| - st.multibulklen;
    var a, k := args[n], st.bulklen;
    var rest := PrintArgs(args[n + 1..]);
    Assoc(a + CRLF, rest, suffix);
    Cut(buf[pos..], future, a + CRLF, rest + suffix);
    assert buf[pos..][k + 2..] == buf[pos + k + 2..];
    assert buf[pos..pos + k] == a by {
      assert buf[pos..][..k + 2] == a + CRLF;
      assert buf[pos..pos + k] == buf[pos..][..k + 2][..k];
    }
    assert args[..n] + [a] == args[..n + 1];
    assert args[..|args|] == args;
  }

  /** What the argument loop owes a well-formed stream: it finishes exactly when the whole command
      is in the buffer, having read exactly its arguments and nothing after them; it fails exactly
      when the size guard fires; otherwise the state and the unread bytes make up the rest. */
  ghost predicate LoopTracks(st: PState, args: seq<string>, buf: string, pos: nat, future: string, suffix: string)
    requires Partial(st, args) && st.multibulklen > 0 && pos <= |buf|
  {
    && Tracks(ParseArgs(st, buf, pos), args, future, suffix)
    && (ParseArgs(st, buf, pos).outcome == Done <==> |buf| - pos >= |Tail(st, args)|)
    && (ParseArgs(st, buf, pos).outcome == ProtocolError <==>
          Overlong(args[|args| - st.multibulklen..], st.bulklen == -1, |buf| - pos, |buf|))
  }

  lemma HeaderTracks(st: PState, args: seq<string>, buf: string, pos: nat, future: string, suffix: string)
    requires Partial(st, args) && st.multibulklen > 0 && st.bulklen == -1 && pos <= |buf|
    requires buf[pos..] + future == Tail(st, args) + suffix
    requires var n := |args| - st.multibulklen;
      var a := args[n];
      var h := |Header('$', |a|)|;
      var st' := st.(bulklen := |a|);
      |buf| - pos >= h ==>
        && Partial(st', args)
        && if |a| >= MBULK_BIG_ARG then LoopTracks(st', args, buf[pos + h..], 0, future, suffix)
           else LoopTracks(st', args, buf, pos + h, future, suffix)
    ensures LoopTracks(st, args, buf, pos, future, suffix)
  {
    hide Parse, PrintArgs, Header, Tail, FindCR;
    var n := |args| - st.multibulklen;
    var a := args[n];
    assert args[n..][0] == a;
    HeaderLength(|a|);
    ReadHeader(st, args, buf, pos, future, suffix);
  }

  lemma BulkTracks(st: PState, args: seq<string>, buf: string, pos: nat, future: string, suffix: string)
    requires Partial(st, args) && st.multibulklen > 1 && st.bulklen >= 0 && pos <= |buf|
    requires buf[pos..] + future == Tail(st, args) + suffix
    requires |buf| - pos >= st.bulklen + 2
    requires var k := st.bulklen; var st' := PState(st.multibulklen - 1, -1, st.argv + [buf[pos..pos + k]]);
        && Partial(st', args)
        && if pos == 0 && k >= MBULK_BIG_ARG && |buf| == k + 2 then LoopTracks(st', args, "", 0, future, suffix)
           else LoopTracks(st', args, buf, pos + k + 2, future, suffix)
    ensures LoopTracks(st, args, buf, pos, future, suffix)
  {
    hide PrintArgs, Tail;
    var n := |args| - st.multibulklen;
    assert args[n..][0] == args[n] && args[n..][1..] == args[n + 1..];
    ReadBulk(st, args, buf, pos, future, suffix);
  }

  lemma LastBulkTracks(st: PState, args: seq<string>, buf: string, pos: nat, future: string, suffix: string)
    requires Partial(st, args) && st.multibulklen == 1 && st.bulklen >= 0 && pos <= |buf|
    requires buf[pos..] + future == Tail(st, args) + suffix
    requires |buf| - pos >= st.bulklen + 2
    ensures LoopTracks(st, args, buf, pos, future, suffix)
  {
    hide PrintArgs, Tail;
    var n := |args| - 1;
    assert args[n..][0] == args[n] && args[n..][1..] == args[n + 1..];
    ReadBulk(st, args, buf, pos, future, suffix);
    PrintNothing(args);
    assert args[n + 1..] == [];
    var k := st.bulklen;
    var st' := PState(0, -1, args);
    assert "" + suffix == suffix;
    var r := ParseArgs(st, buf, pos);
    if pos == 0 && k >= MBULK_BIG_ARG && |buf| == k + 2 {
      assert buf[pos + k + 2..] == "" && ""[0..] == "";
      assert ParseArgs(st', "", 0) == Finish(st', "", 0);
      assert r == Finish(st', "", 0);
    } else {
      assert ParseArgs(st', buf, pos + k + 2) == Finish(st', buf, pos + k + 2);
      assert r == Finish(st', buf, pos + k + 2);
    }
    assert Tracks(r, args, future, suffix);
    assert !Overlong(args[n..], false, |buf| - pos, |buf|) by {
      assert !Overlong([], true, 0, 0) && !Overlong([], true, |buf| - pos - k - 2, |buf|);
    }
  }

  lemma {:induction false} ArgsTrack(st: PState, args: seq<string>, buf: string, pos: nat, future: string,
                                     suffix: string)
    requires Partial(st, args) && st.multibulklen > 0 && pos <= |buf|
    requires buf[pos..] + future == Tail(st, args) + suffix
    ensures LoopTracks(st, args, buf, pos, future, suffix)
    decreases st.multibulklen, if st.bulklen == -1 then 1 else 0
  {
    hide Parse, PrintArgs, Header, LoopTracks, ParseArgs, Tail;
    var n := |args| - st.multibulklen;
    var a := args[n];
    if st.bulklen == -1 {
      var h, st' := |Header('$', |a|)|, st.(bulklen := |a|);
      ReadHeader(st, args, buf, pos, future, suffix);
      if |buf| - pos >= h {
        if |a| >= MBULK_BIG_ARG {
          assert buf[pos + h..][0..] == buf[pos + h..];
          ArgsTrack(st', args, buf[pos + h..], 0, future, suffix);
        } else {
          ArgsTrack(st', args, buf, pos + h, future, suffix);
        }
      }
      HeaderTracks(st, args, buf, pos, future, suffix);
    } else if |buf| - pos >= st.bulklen + 2 {
      var k := st.bulklen;
      var st' := PState(st.multibulklen - 1, -1, st.argv + [buf[pos..pos + k]]);
      ReadBulk(st, args, buf, pos, future, suffix);
      if st'.multibulklen > 0 {
        if pos == 0 && k >= MBULK_BIG_ARG && |buf| == k + 2 {
          assert buf[pos + k + 2..] == "" && ""[0..] == "";
          ArgsTrack(st', args, "", 0, future, suffix);
        } else {
          ArgsTrack(st', args, buf, pos + k + 2, future, suffix);
        }
        BulkTracks(st, args, buf, pos, future, suffix);
      } else {
        LastBulkTracks(st, args, buf, pos, future, suffix);
      }
    } else {
      WaitTracks(st, args, buf, pos, future, suffix);
    }
  }

  lemma WaitTracks(st: PState, args: seq<string>, buf: string, pos: nat, future: string, suffix: string)
    requires Partial(st, args) && st.multibulklen > 0 && st.bulklen >= 0 && pos <= |buf|
    requires buf[pos..] + future == Tail(st, args) + suffix
    requires |buf| - pos < st.bulklen + 2
    ensures LoopTracks(st, args, buf, pos, future, suffix)
  {
    hide PrintArgs;
    var n := |args| - st.multibulklen;
    assert args[n..][0] == args[n];
  }

  lemma PrintNothing(args: seq<string>)
    ensures PrintArgs(args[|args|..]) == ""
  {
  }

  // ---------------------------------------------------------------- one call

  function CommandOverlong(st: PState, args: seq<string>, size: nat): bool
    requires st.multibulklen <= |args|
  {
    if st.multibulklen > 0 then Overlong(args[|args| - st.multibulklen..], st.bulklen == -1, size, size)
    else
      var h := |Header('*', |args|)|;
      size >= h && Overlong(args, true, size - h, size)
  }

  lemma CountLength(n: nat)
    requires n <= MAX_ARGS
    ensures |Header('*', n)| <= 10
  {
    assert Pow10(7) == 10000000 by {
      assert Pow10(3) == 1000;
      assert Pow10(6) == 1000 * Pow10(3);
    }
    DecLength(n, 7, 10000000);
  }

  lemma StreamStart(args: seq<string>, buf: string, future: string, suffix: string)
    requires buf + future == Print(args) + suffix && buf != ""
    ensures buf[0] == '*'
  {
    assert (buf + future)[0] == buf[0];
    assert (Print(args) + suffix)[0] == Header('*', |args|)[0];
  }

  /** processMultibulkBuffer on a well-formed stream of which `buf` has arrived and `future` has not. */
  lemma CommandTracks(st: PState, args: seq<string>, buf: string, future: string, suffix: string)
    requires Partial(st, args) && buf + future == Tail(st, args) + suffix
    ensures st.multibulklen == 0 && buf != "" ==> buf[0] == '*'
    ensures Tracks(ParseCommand(st, buf), args, future, suffix)
    ensures ParseCommand(st, buf).outcome == Done <==> |buf| >= |Tail(st, args)|
    ensures ParseCommand(st, buf).outcome == ProtocolError <==> CommandOverlong(st, args, |buf|)
  {
    hide Parse, PrintArgs, Header, ParseArgs, FindCR, Overlong, Tail, Tracks;
    assert buf[0..] == buf;
    if st.multibulklen > 0 {
      ArgsTrack(st, args, buf, 0, future, suffix);
    } else {
      FreshTail(args);
      if buf != "" { StreamStart(args, buf, future, suffix); }
      FreshTracks(args, buf, future, suffix);
    }
  }

  lemma FreshTail(args: seq<string>)
    requires Sendable(args)
    ensures Partial(FRESH, args) && Tail(FRESH, args) == Print(args)
  {
  }

  lemma CountedTail(args: seq<string>)
    requires Sendable(args)
    ensures Partial(PState(|args|, -1, []), args) && Tail(PState(|args|, -1, []), args) == PrintArgs(args)
  {
    assert args[0..] == args && args[..0] == [];
  }

  lemma FreshTracks(args: seq<string>, buf: string, future: string, suffix: string)
    requires Sendable(args) && buf + future == Print(args) + suffix
    requires buf != "" ==> buf[0] == '*'
    ensures Tracks(ParseCommand(FRESH, buf), args, future, suffix)
    ensures ParseCommand(FRESH, buf).outcome == Done <==> |buf| >= |Print(args)|
    ensures ParseCommand(FRESH, buf).outcome == ProtocolError <==> CommandOverlong(FRESH, args, |buf|)
  {
    hide Parse, PrintArgs, Header, ParseArgs, FindCR, Overlong, Tail;
    var h := |Header('*', |args|)|;
    assert buf[0..] == buf;
    FreshTail(args);
    CountedTail(args);
    CountLength(|args|);
    Assoc(Header('*', |args|), PrintArgs(args), suffix);
    HeaderLine('*', |args|, buf, 0, future, PrintArgs(args) + suffix);
    ParseDec(|args|);
    if |buf| >= h {
      assert args[0..] == args;
      ArgsTrack(PState(|args|, -1, []), args, buf, h, future, suffix);
    }
  }

  // ---------------------------------------------------------------- reads from the socket

  /** The read size `readQueryFromClient` asks for. */
  function ReadLen(st: PState, buffered: nat): int {
    if st.multibulklen > 0 && st.bulklen != -1 && st.bulklen >= MBULK_BIG_ARG
       && st.bulklen + 2 - buffered < IOBUF_LEN
    then st.bulklen + 2 - buffered else IOBUF_LEN
  }

  /** Buffers the event loop produces: short ones, and ones that end with the big bulk being read. */
  predicate Sized(st: PState, size: nat) {
    size <= INLINE_MAX_SIZE || (st.multibulklen > 0 && st.bulklen >= MBULK_BIG_ARG && size <= st.bulklen + 2)
  }

  /** With the read sizes the event loop uses, the size guard never fires on a well-formed stream. */
  lemma ReadsAreSized(st: PState, args: seq<string>, buf: string, n: nat)
    requires Partial(st, args) && Waiting(st, buf) && n <= ReadLen(st, |buf|)
    ensures Sized(st, |buf| + n)
  {
  }

  lemma SizedIsFine(st: PState, args: seq<string>, size: nat)
    requires Partial(st, args) && Sized(st, size)
    ensures !CommandOverlong(st, args, size)
  {
    hide Header;
    if size <= INLINE_MAX_SIZE {
      if st.multibulklen > 0 {
        ShortBufferIsFine(args[|args| - st.multibulklen..], st.bulklen == -1, size, size);
      } else if size >= |Header('*', |args|)| {
        ShortBufferIsFine(args, true, size - |Header('*', |args|)|, size);
      }
    } else if size == st.bulklen + 2 {
      var rest := args[|args| - st.multibulklen..];
      ShortBufferIsFine(rest[1..], true, 0, 0);
    }
  }

  /** Without that limit it can: three arguments of 30000 bytes arrive at once, and the header of
      the fourth has not arrived. The command is valid, and refused. */
  lemma GuardCanFire(args: seq<string>)
    requires |args| == 4
    requires |args[0]| == 30000 && |args[1]| == 30000 && |args[2]| == 30000 && |args[3]| == 5
    ensures Sendable(args)
    ensures var received := Header('*', 4) + PrintArgs(args[..3]);
      && received <= Print(args)
      && ParseCommand(FRESH, received).outcome == ProtocolError
  {
    hide Header, PrintArgs, ParseCommand, Tail;
    assert args[..3] + args[3..] == args;
    PrintArgsAppend(args[..3], args[3..]);
    var received, future := Header('*', 4) + PrintArgs(args[..3]), PrintArgs(args[3..]);
    Assoc(Header('*', 4), PrintArgs(args[..3]), future);
    FreshTail(args);
    assert received + future == Print(args) + "";
    CommandTracks(FRESH, args, received, future, "");
    ThreeArguments(args);
    var total := |received|;
    assert args[3..][0] == args[3];
    assert args[2..][0] == args[2] && args[2..][1..] == args[3..];
    assert args[1..][0] == args[1] && args[1..][1..] == args[2..];
    assert Overlong(args[3..], true, 0, total);
    assert Overlong(args[2..], true, 30010, total);
    assert Overlong(args[1..], true, 60020, total);
    assert Overlong(args, true, 90030, total);
  }

  lemma ThreeArguments(args: seq<string>)
    requires |args| == 4
    requires |args[0]| == 30000 && |args[1]| == 30000 && |args[2]| == 30000 && |args[3]| == 5
    ensures |PrintArgs(args[..3])| == 90030 && |Header('$', 30000)| == 8 && |Header('$', 5)| >= 2
  {
    hide Header;
    DecOf30000();
    assert args[..3][0] == args[0] && args[..3][1..] == args[1..3];
    assert args[1..3][0] == args[1] && args[1..3][1..] == args[2..3];
    assert args[2..3][0] == args[2] && args[2..3][1..] == [];
    assert PrintArgs([]) == "";
    assert |PrintArgs(args[2..3])| == 30010;
    assert |PrintArgs(args[1..3])| == 60020;
  }

  lemma DecOf30000()
    ensures |Header('$', 30000)| == 8 && |Header('$', 5)| >= 2
  {
    assert |Dec(3)| == 1;
    assert |Dec(30)| == 2;
    assert |Dec(300)| == 3;
    assert |Dec(3000)| == 4;
    assert |Dec(30000)| == 5;
  }

  lemma {:induction false} PrintArgsAppend(a: seq<string>, b: seq<string>)
    ensures PrintArgs(a + b) == PrintArgs(a) + PrintArgs(b)
  {
    if a == [] {
      assert a + b == b;
    } else {
      assert (a + b)[1..] == a[1..] + b;
      PrintArgsAppend(a[1..], b);
    }
  }

  // ---------------------------------------------------------------- malformed requests

  /** A complete line from `pos` on ends at `newline`. */
  ghost predicate LineAt(buf: string, pos: nat, newline: nat) {
    pos <= newline && newline + 2 <= |buf| && FindCR(buf, pos) == Some(newline)
  }

  /** The number after the mark of a line, if it is printed in the plain way and in range. */
  ghost predicate Announces(line: string, mark: char, n: int, low: int, high: int) {
    line == [mark] + DecInt(n) && low <= n <= high
  }

  /** The first line of a request: a number above the limit, or anything that is not a number, is a
      protocol error; zero and less is skipped; otherwise that many arguments are awaited. */
  lemma CountLine(st: PState, buf: string, newline: nat)
    requires st == FRESH && buf != "" && buf[0] == '*' && LineAt(buf, 0, newline)
    ensures var r, line, rest := ParseCommand(st, buf), buf[..newline], buf[newline + 2..];
      && ((forall n :: !Announces(line, '*', n, LLONG_MIN, MAX_ARGS)) ==>
            r == Result(ProtocolError, st, buf))
      && (forall n :: Announces(line, '*', n, LLONG_MIN, 0) ==> r == Result(Done, st, rest))
      && (forall n :: Announces(line, '*', n, 1, MAX_ARGS) ==> r == ParseArgs(PState(n, -1, []), buf, newline + 2))
  {
    hide Parse, DecInt, ParseArgs;
    var text := buf[1..newline];
    assert newline > 0;
    assert buf[..newline] == ['*'] + text;
    forall n ensures buf[..newline] == ['*'] + DecInt(n) <==> text == DecInt(n) {
      assert (['*'] + DecInt(n))[1..] == DecInt(n) && (['*'] + text)[1..] == text;
    }
    var ll := Parse(text);
    forall n ensures ll == Some(n) <==> LLONG_MIN <= n <= LLONG_MAX && text == DecInt(n) {
      ParseExact(text, n);
    }
    if ll.Some? {
      assert text == DecInt(ll.value);
      if ll.value <= MAX_ARGS { assert Announces(buf[..newline], '*', ll.value, LLONG_MIN, MAX_ARGS); }
    }
  }

  /** The line before an argument: without the mark, without a number, or with one out of range it is a
      protocol error at that place; otherwise that many bytes are awaited. */
  lemma ArgumentLine(st: PState, buf: string, pos: nat, newline: nat)
    requires st.multibulklen > 0 && st.bulklen == -1 && LineAt(buf, pos, newline)
    ensures var r, line := ParseArgs(st, buf, pos), buf[pos..newline];
      && ((forall n :: !Announces(line, '$', n, 0, MAX_BULK)) ==> r == Result(ProtocolError, st, buf[pos..]))
      && (forall n :: Announces(line, '$', n, 0, MAX_BULK) ==>
            r == if n >= MBULK_BIG_ARG then ParseArgs(st.(bulklen := n), buf[newline + 2..], 0)
                 else ParseArgs(st.(bulklen := n), buf, newline + 2))
  {
    hide Parse, DecInt;
    var line := buf[pos..newline];
    if line != "" && line[0] == '$' {
      var text := buf[pos + 1..newline];
      assert line == ['$'] + text;
      forall n ensures line == ['$'] + DecInt(n) <==> text == DecInt(n) {
        assert (['$'] + DecInt(n))[1..] == DecInt(n) && (['$'] + text)[1..] == text;
      }
      var ll := Parse(text);
      forall n ensures ll == Some(n) <==> LLONG_MIN <= n <= LLONG_MAX && text == DecInt(n) {
        ParseExact(text, n);
      }
      if ll.Some? {
        assert text == DecInt(ll.value);
        if 0 <= ll.value <= MAX_BULK { assert Announces(line, '$', ll.value, 0, MAX_BULK); }
      }
    } else {
      assert buf[pos] != '$' by {
        if newline == pos { assert buf[pos] == '\r'; } else { assert line[0] == buf[pos]; }
      }
      forall n ensures line != ['$'] + DecInt(n) { assert (['$'] + DecInt(n))[0] == '$'; }
    }
  }

  /** A line that does not end within the limit is a protocol error. */
  lemma EndlessLine(st: PState, buf: string, pos: nat)
    requires pos <= |buf| && FindCR(buf, pos).None? && |buf| > INLINE_MAX_SIZE && st.bulklen == -1
    ensures st.multibulklen > 0 ==> ParseArgs(st, buf, pos).outcome == ProtocolError
    ensures st.multibulklen == 0 && pos == 0 && buf[0] == '*' ==> ParseCommand(st, buf).outcome == ProtocolError
  {
  }
}
