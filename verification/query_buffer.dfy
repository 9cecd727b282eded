/** The input side of a client in networking.c: the query buffer, the resumable parser fields, and
    the loop that executes every complete command. */
module QueryBuffer {
  import opened Resp
  import opened RequestParser

  datatype ReqType = Unknown | Inline | Multibulk

  /** What the argument loop does once the length of the bulk is known. */
  lemma BulkStep(st: PState, buf: string, pos: nat)
    requires pos <= |buf| && st.multibulklen > 0 && st.bulklen >= 0
    ensures |buf| - pos < st.bulklen + 2 ==> ParseArgs(st, buf, pos) == Finish(st, buf, pos)
    ensures |buf| - pos >= st.bulklen + 2 ==>
      var n := st.bulklen;
      var st' := PState(st.multibulklen - 1, -1, st.argv + [buf[pos..pos + n]]);
      ParseArgs(st, buf, pos) ==
        if pos == 0 && n >= MBULK_BIG_ARG && |buf| == n + 2 then ParseArgs(st', "", 0)
        else ParseArgs(st', buf, pos + n + 2)
  {
  }

  lemma LoopEnd(st: PState, buf: string, pos: nat)
    requires pos <= |buf| && st.multibulklen == 0 && st.bulklen >= -1
    ensures ParseArgs(st, buf, pos) == Finish(st, buf, pos)
  {
  }

  class Client {
    var querybuf: string
    var reqtype: ReqType
    var multibulklen: nat
    var bulklen: int
    var argv: seq<string>
    var closeAfterReply: bool
    /** What processCommand has been given, in order. */
    var executed: seq<seq<string>>

    function View(): PState
      reads this
    {
      PState(multibulklen, bulklen, argv)
    }

    /** The stream this client is being sent is `cmds`: some are executed, one is partly read, and
        buffer and network hold the rest. */
    ghost predicate Serving(cmds: seq<seq<string>>, network: string)
      reads this
    {
      && !closeAfterReply
      && (forall i :: 0 <= i < |cmds| ==> Sendable(cmds[i]))
      && |executed| <= |cmds| && executed == cmds[..|executed|]
      && (if |executed| == |cmds| then View() == FRESH && reqtype == Unknown && querybuf == "" && network == ""
          else
            var k := |executed|;
            && Partial(View(), cmds[k])
            && (reqtype == Unknown ==> View() == FRESH)
            && reqtype != Inline
            && querybuf + network == Tail(View(), cmds[k]) + PrintAll(cmds[k + 1..]))
    }

    /** The buffer does not hold a complete command. */
    ghost predicate Short(cmds: seq<seq<string>>)
      reads this
    {
      |executed| < |cmds| && Partial(View(), cmds[|executed|]) ==> |querybuf| < |Tail(View(), cmds[|executed|])|
    }

    lemma ServingFacts(cmds: seq<seq<string>>, network: string)
      requires Serving(cmds, network)
      ensures |executed| <= |cmds| && executed == cmds[..|executed|] && !closeAfterReply
      ensures network != "" ==> |executed| < |cmds|
    {
    }

    lemma AllServed(cmds: seq<seq<string>>)
      requires Serving(cmds, "") && Short(cmds)
      ensures executed == cmds
    {
      hide Tail, PrintAll, Partial;
    }

    lemma ReadsSomething()
      ensures Waiting(View(), querybuf) ==> ReadLen(View(), |querybuf|) > 0
    {
    }

    constructor (cmds: seq<seq<string>>)
      requires forall i :: 0 <= i < |cmds| ==> Sendable(cmds[i])
      ensures executed == [] && Serving(cmds, PrintAll(cmds)) && Waiting(View(), querybuf)
    {
      querybuf, reqtype, multibulklen, bulklen, argv, closeAfterReply, executed := "", Unknown, 0, -1, [], false, [];
      new;
      if cmds != [] {
        assert cmds[0..] == cmds && cmds[1..] == cmds[0 + 1..];
        assert querybuf + PrintAll(cmds) == PrintAll(cmds);
      }
    }

    method SetProtocolError(pos: nat)
      requires pos <= |querybuf|
      modifies this`closeAfterReply, this`querybuf
      ensures closeAfterReply && querybuf == old(querybuf)[pos..]
    {
      closeAfterReply := true;
      querybuf := querybuf[pos..];
    }

    method ResetClient()
      modifies this`reqtype, this`multibulklen, this`bulklen, this`argv
      ensures View() == FRESH && reqtype == Unknown
    {
      reqtype, multibulklen, bulklen, argv := Unknown, 0, -1, [];
    }

    /** processMultibulkBuffer, for any buffer contents. */
    method ProcessMultibulkBuffer() returns (ok: bool)
      requires bulklen >= -1
      requires multibulklen == 0 && querybuf != "" ==> querybuf[0] == '*'
      modifies this
      ensures bulklen >= -1 && executed == old(executed) && reqtype == old(reqtype)
      ensures var r := ParseCommand(old(View()), old(querybuf));
        && View() == r.st && querybuf == r.buf
        && (ok <==> r.outcome == Done)
        && (closeAfterReply <==> old(closeAfterReply) || r.outcome == ProtocolError)
    {
      var pos: nat := 0;
      if multibulklen == 0 {
        var newline: Option<nat> := FindCR(querybuf, 0);
        if newline.None? {
          if |querybuf| > INLINE_MAX_SIZE {
            SetProtocolError(0);
            assert old(querybuf)[0..] == old(querybuf);
          }
          return false;
        }
        if newline.value > |querybuf| - 2 { return false; }
        var ll := String2ll(querybuf[1..newline.value]);
        if ll.None? || ll.value > MAX_ARGS {
          SetProtocolError(pos);
          assert old(querybuf)[0..] == old(querybuf);
          return false;
        }
        pos := newline.value + 2;
        if ll.value <= 0 {
          querybuf := querybuf[pos..];
          return true;
        }
        multibulklen := ll.value;
      }
      ok := ReadArguments(pos);
    }

    /** Reads "$<length>" at `pos`: done, more bytes needed, or an error. */
    method ReadBulkHeader(pos: nat) returns (next: Outcome, newpos: nat)
      requires pos <= |querybuf| && bulklen == -1 && multibulklen > 0
      modifies this`querybuf, this`bulklen, this`closeAfterReply
      ensures closeAfterReply == (old(closeAfterReply) || next == ProtocolError)
      ensures next == Done ==> bulklen >= 0 && newpos <= |querybuf|
      ensures next == Done ==> ParseArgs(old(View()), old(querybuf), pos) == ParseArgs(View(), querybuf, newpos)
      ensures next == More ==> View() == old(View()) && querybuf == old(querybuf)
      ensures next == More ==> ParseArgs(old(View()), old(querybuf), pos) == Finish(View(), querybuf, pos)
      ensures next == ProtocolError ==> bulklen == -1
      ensures next == ProtocolError ==>
                ParseArgs(old(View()), old(querybuf), pos)
                == Result(ProtocolError, View(), querybuf)
    {
      newpos := pos;
      var newline: Option<nat> := FindCR(querybuf, pos);
      if newline.None? {
        if |querybuf| > INLINE_MAX_SIZE {
          SetProtocolError(0);
          assert old(querybuf)[0..] == old(querybuf);
          return ProtocolError, 0;
        }
        return More, pos;
      }
      if newline.value > |querybuf| - 2 { return More, pos; }
      if querybuf[pos] != '$' {
        SetProtocolError(pos);
        return ProtocolError, 0;
      }
      var ll := String2ll(querybuf[pos + 1..newline.value]);
      if ll.None? || ll.value < 0 || ll.value > MAX_BULK {
        SetProtocolError(pos);
        return ProtocolError, 0;
      }
      newpos := newline.value + 2;
      if ll.value >= MBULK_BIG_ARG {
        querybuf := querybuf[newpos..];
        newpos := 0;
      }
      bulklen := ll.value;
      return Done, newpos;
    }

    method ReadArguments(start: nat) returns (ok: bool)
      requires start <= |querybuf| && bulklen >= -1
      modifies this
      ensures bulklen >= -1 && executed == old(executed) && reqtype == old(reqtype)
      ensures var r := ParseArgs(old(View()), old(querybuf), start);
        && View() == r.st && querybuf == r.buf
        && (ok <==> r.outcome == Done)
        && (closeAfterReply <==> old(closeAfterReply) || r.outcome == ProtocolError)
    {
      hide ParseArgs;
      var pos: nat := start;
      ghost var goal := ParseArgs(View(), querybuf, start);
      while multibulklen > 0
        invariant pos <= |querybuf| && bulklen >= -1
        invariant goal == ParseArgs(View(), querybuf, pos)
        invariant executed == old(executed) && reqtype == old(reqtype) && closeAfterReply == old(closeAfterReply)
        decreases multibulklen
      {
        if bulklen == -1 {
          var next, p := ReadBulkHeader(pos);
          if next == ProtocolError { return false; }
          if next == More { break; }
          pos := p;
        }
        BulkStep(View(), querybuf, pos);
        assert goal == ParseArgs(View(), querybuf, pos);
        if |querybuf| - pos < bulklen + 2 { break; }
        var n := bulklen;
        if pos == 0 && n >= MBULK_BIG_ARG && |querybuf| == n + 2 {
          assert querybuf[..n] == querybuf[pos..pos + n];
          argv := argv + [querybuf[..n]];
          querybuf := "";
          pos := 0;
        } else {
          argv := argv + [querybuf[pos..pos + n]];
          pos := pos + n + 2;
        }
        bulklen := -1;
        multibulklen := multibulklen - 1;
      }
      if multibulklen == 0 { LoopEnd(View(), querybuf, pos); }
      assert goal == Finish(View(), querybuf, pos);
      querybuf := querybuf[pos..];
      return multibulklen == 0;
    }

    /** One round of processInputBuffer on a non-empty buffer. */
    method ProcessOne(ghost cmds: seq<seq<string>>, ghost network: string) returns (ok: bool)
      requires Serving(cmds, network) && querybuf != "" && |executed| < |cmds| && Sized(View(), |querybuf|)
      modifies this
      ensures Serving(cmds, network)
      ensures ok ==> |executed| == old(|executed|) + 1 && |querybuf| <= INLINE_MAX_SIZE
      ensures !ok ==> executed == old(executed) && Waiting(View(), querybuf)
      ensures !ok ==> |querybuf| < |Tail(View(), cmds[|executed|])|
    {
      hide ParseCommand, Tail, CommandOverlong, PrintAll;
      ghost var k := |executed|;
      ghost var st, buf, suffix := View(), querybuf, PrintAll(cmds[k + 1..]);
      CommandTracks(st, cmds[k], buf, network, suffix);
      SizedIsFine(st, cmds[k], |buf|);
      if reqtype == Unknown {
        reqtype := if querybuf[0] == '*' then Multibulk else Inline;
      }
      ok := ProcessMultibulkBuffer();
      if !ok {
        assert |buf| + |network| == |Tail(st, cmds[k])| + |suffix|;
        assert |querybuf| + |network| == |Tail(View(), cmds[k])| + |suffix|;
        return;
      }
      assert argv == cmds[k];
      SuffixIsShort(st, cmds[k], buf, network, suffix, querybuf);
      executed := executed + [argv];
      ResetClient();
      assert cmds[..k] + [cmds[k]] == cmds[..k + 1];
      NextCommand(cmds, k + 1, querybuf, network);
    }

    /** processInputBuffer: runs every complete command at the head of the buffer. */
    method ProcessInputBuffer(ghost cmds: seq<seq<string>>, ghost network: string)
      requires Serving(cmds, network) && Sized(View(), |querybuf|)
      requires querybuf == "" && |executed| < |cmds| ==> Waiting(View(), querybuf)
      modifies this
      ensures Serving(cmds, network)
      ensures |executed| < |cmds| ==> Waiting(View(), querybuf) && |querybuf| < |Tail(View(), cmds[|executed|])|
    {
      hide Tail;
      var ok := true;
      while querybuf != "" && ok
        invariant Serving(cmds, network)
        invariant ok ==> Sized(View(), |querybuf|)
        invariant |executed| < |cmds| && (!ok || querybuf == "") ==> Waiting(View(), querybuf)
        invariant !ok && |executed| < |cmds| ==> |querybuf| < |Tail(View(), cmds[|executed|])|
        decreases |cmds| - |executed|, ok
      {
        if closeAfterReply { return; }
        if |executed| == |cmds| { assert false; }
        ok := ProcessOne(cmds, network);
      }
      if querybuf == "" && |executed| < |cmds| { TailIsNonEmpty(View(), cmds[|executed|]); }
    }

    /** readQueryFromClient: a read that returns `n` bytes, at most what was asked for. */
    method ReadQuery(ghost cmds: seq<seq<string>>, network: string, n: nat) returns (rest: string)
      requires Serving(cmds, network)
      requires |executed| < |cmds| ==> Waiting(View(), querybuf)
      requires 0 < n <= |network| && n <= ReadLen(View(), |querybuf|)
      modifies this
      ensures rest == network[n..] && Serving(cmds, rest) && Short(cmds)
      ensures |executed| < |cmds| ==> Waiting(View(), querybuf)
    {
      hide Tail;
      rest := network[n..];
      ReadsAreSized(View(), cmds[|executed|], querybuf, n);
      assert querybuf + network == (querybuf + network[..n]) + rest by {
        assert network == network[..n] + rest;
      }
      querybuf := querybuf + network[..n];
      ProcessInputBuffer(cmds, rest);
    }
  }

  lemma TailIsNonEmpty(st: PState, args: seq<string>)
    requires Partial(st, args)
    ensures |Tail(st, args)| > 0
  {
    if st.multibulklen > 0 && st.bulklen == -1 {
      assert args[|args| - st.multibulklen..] != [];
    }
  }

  /** What follows a completed command is shorter than what was in the buffer. */
  lemma SuffixIsShort(st: PState, args: seq<string>, buf: string, network: string, suffix: string, left: string)
    requires Partial(st, args) && Sized(st, |buf|) && |buf| >= |Tail(st, args)|
    requires buf + network == Tail(st, args) + suffix && left + network == suffix
    ensures |left| <= INLINE_MAX_SIZE
  {
    assert |buf| + |network| == |Tail(st, args)| + |suffix|;
    assert |left| + |network| == |suffix|;
  }

  lemma NextCommand(cmds: seq<seq<string>>, k: nat, buf: string, network: string)
    requires k <= |cmds| && buf + network == PrintAll(cmds[k..])
    requires forall i :: 0 <= i < |cmds| ==> Sendable(cmds[i])
    ensures k == |cmds| ==> buf == "" && network == ""
    ensures k < |cmds| ==> Partial(FRESH, cmds[k]) && buf + network == Tail(FRESH, cmds[k]) + PrintAll(cmds[k + 1..])
  {
    if k < |cmds| {
      assert cmds[k..][1..] == cmds[k + 1..];
    }
  }

  /** Chunking does not matter: whatever sizes the reads return, the client executes exactly the
      commands that were printed, in order; after enough reads it has executed all of them. */
  method Serve(cmds: seq<seq<string>>, sizes: seq<nat>) returns (c: Client)
    requires forall i :: 0 <= i < |cmds| ==> Sendable(cmds[i])
    ensures |c.executed| <= |cmds| && c.executed == cmds[..|c.executed|]
    ensures !c.closeAfterReply
    ensures |sizes| >= |PrintAll(cmds)| ==> c.executed == cmds
  {
    hide Client.Serving, Client.Short, Waiting, ReadLen, PrintAll, Sendable;
    c := new Client(cmds);
    var network := PrintAll(cmds);
    var i := 0;
    c.ServingFacts(cmds, network);
    while i < |sizes| && network != ""
      invariant i <= |sizes| && c.Serving(cmds, network) && fresh(c)
      invariant |c.executed| < |cmds| ==> Waiting(c.View(), c.querybuf)
      invariant if i == 0 then network == PrintAll(cmds) else c.Short(cmds)
      invariant |network| + i <= |PrintAll(cmds)|
      decreases |sizes| - i
    {
      c.ServingFacts(cmds, network);
      c.ReadsSomething();
      var n := if sizes[i] == 0 then 1 else sizes[i];
      if n > |network| { n := |network|; }
      if n > ReadLen(c.View(), |c.querybuf|) { n := ReadLen(c.View(), |c.querybuf|); }
      network := c.ReadQuery(cmds, network, n);
      i := i + 1;
    }
    c.ServingFacts(cmds, network);
    if network == "" && i > 0 { c.AllServed(cmds); }
    if network == "" && i == 0 { NothingPrinted(cmds); }
  }

  lemma NothingPrinted(cmds: seq<seq<string>>)
    requires PrintAll(cmds) == ""
    ensures cmds == []
  {
    hide Print;
    if cmds != [] { PrintedIsLong(cmds[0]); }
  }

  lemma PrintedIsLong(args: seq<string>)
    ensures |Print(args)| > 0
  {
  }
}
