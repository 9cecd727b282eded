/** The append-only file machinery of aof.c as a state machine: commands are fed to the AOF buffer
    and, while a child rewrites the file, to the rewrite buffer; writes may be short; the rewritten
    file replaces the old one when the child is done. */
module Aof {
  import opened Resp
  import opened AofLog
  import opened AofRewrite

  datatype AofState = Off | WaitRewrite | On

  /** `data` is the live data set; `size` is `aof_current_size`; `child` holds the data as of the
      fork while a rewriting child runs; `blocks` is the rewrite buffer. */
  datatype Server = Server(data: Data, state: AofState, buf: string, selected: int, file: string,
                           size: nat, child: Option<Data>, blocks: seq<string>)

  // ---------------------------------------------------------------- the rewrite buffer

  function Concat(blocks: seq<string>): string {
    if blocks == [] then "" else blocks[0] + Concat(blocks[1..])
  }

  /** All blocks but the last are full. */
  ghost predicate Packed(blocks: seq<string>, cap: nat) {
    && (forall i :: 0 <= i < |blocks| - 1 ==> |blocks[i]| == cap)
    && (blocks != [] ==> 0 < |blocks[|blocks| - 1]| <= cap)
  }

  /** `aofRewriteBufferAppend` with blocks of `cap` bytes. */
  function AppendBlocks(blocks: seq<string>, s: string, cap: nat): seq<string>
    requires cap > 0
    decreases |s|
  {
    if s == "" then blocks
    else if blocks != [] && |blocks[|blocks| - 1]| < cap then
      var last := blocks[|blocks| - 1];
      var m := Min(cap - |last|, |s|);
      AppendBlocks(blocks[|blocks| - 1 := last + s[..m]], s[m..], cap)
    else
      var m := Min(cap, |s|);
      AppendBlocks(blocks + [s[..m]], s[m..], cap)
  }

  lemma {:induction false} ConcatAppend(a: seq<string>, b: seq<string>)
    ensures Concat(a + b) == Concat(a) + Concat(b)
  {
    if a == [] {
      assert a + b == b;
    } else {
      assert (a + b)[1..] == a[1..] + b;
      ConcatAppend(a[1..], b);
    }
  }

  lemma ConcatLast(a: seq<string>, x: string)
    ensures Concat(a + [x]) == Concat(a) + x
  {
    ConcatAppend(a, [x]);
    assert Concat([x]) == x + Concat([]) == x;
  }

  /** The rewrite buffer holds exactly what was appended to it. */
  lemma {:induction false} AppendBlocksConcat(blocks: seq<string>, s: string, cap: nat)
    requires cap > 0 && Packed(blocks, cap)
    ensures Concat(AppendBlocks(blocks, s, cap)) == Concat(blocks) + s
    ensures Packed(AppendBlocks(blocks, s, cap), cap)
    decreases |s|
  {
    hide Concat;
    if s == "" {
    } else if blocks != [] && |blocks[|blocks| - 1]| < cap {
      var n := |blocks| - 1;
      var m := Min(cap - |blocks[n]|, |s|);
      LastGrows(blocks, s[..m]);
      AppendBlocksConcat(blocks[n := blocks[n] + s[..m]], s[m..], cap);
      Regroup(Concat(blocks), s, m);
    } else {
      var m := Min(cap, |s|);
      ConcatLast(blocks, s[..m]);
      AppendBlocksConcat(blocks + [s[..m]], s[m..], cap);
      Regroup(Concat(blocks), s, m);
    }
  }

  lemma LastGrows(blocks: seq<string>, t: string)
    requires blocks != []
    ensures Concat(blocks[|blocks| - 1 := blocks[|blocks| - 1] + t]) == Concat(blocks) + t
  {
    hide Concat;
    var n := |blocks| - 1;
    var last := blocks[n];
    assert blocks == blocks[..n] + [last];
    assert blocks[n := last + t] == blocks[..n] + [last + t];
    ConcatLast(blocks[..n], last);
    ConcatLast(blocks[..n], last + t);
    assert Concat(blocks[..n]) + (last + t) == Concat(blocks[..n]) + last + t;
  }

  lemma Regroup(c: string, s: string, m: nat)
    requires m <= |s|
    ensures (c + s[..m]) + s[m..] == c + s
  {
    assert s == s[..m] + s[m..];
  }

  /** `aofRewriteBufferSize` counts every block but the last as full. */
  lemma {:induction false} BufferSize(blocks: seq<string>, cap: nat)
    requires Packed(blocks, cap)
    ensures |Concat(blocks)| == if blocks == [] then 0 else (|blocks| - 1) * cap + |blocks[|blocks| - 1]|
  {
    if |blocks| == 1 {
      assert Concat(blocks) == blocks[0] + Concat([]);
    } else if blocks != [] {
      BufferSize(blocks[1..], cap);
      assert (|blocks| - 1) * cap == cap + (|blocks| - 2) * cap;
      assert |Concat(blocks)| == cap + |Concat(blocks[1..])|;
    }
  }

  // ---------------------------------------------------------------- events

  /** What the write and the truncation after a short write come to. */
  datatype Write = Postponed | Wrote(n: int, truncated: bool)

  datatype Done =
    | ChildFailed
    | ChildWrote(out: string, fileOpen: bool, diffWritten: bool, renamed: bool, statted: bool)

  datatype Event =
    | Execute(id: nat, cmd: Cmd)
    | Flush(w: Write)
    | Rewrite(forked: bool)
    | RewriteDone(d: Done)
    | Stop(w: Write)
    | Start(fileOpen: bool, forked: bool)

  function Truncate(file: string, n: nat): string {
    if n <= |file| then file[..n] else file + seq(n - |file|, _ => '\0')
  }

  function FlushStep(s: Server, w: Write): Server
    requires w.Wrote? ==> -1 <= w.n <= |s.buf|
  {
    if s.buf == "" || w.Postponed? || w.n == -1 then s
    else if w.n == |s.buf| then s.(file := s.file + s.buf, size := s.size + w.n, buf := "")
    else if w.truncated then s.(file := Truncate(s.file + s.buf[..w.n], s.size))
    else s.(file := s.file + s.buf[..w.n], size := s.size + w.n, buf := s.buf[w.n..])
  }

  /** `feedAppendOnlyFile`, called by `propagate` unless the AOF is off. */
  function Feed(s: Server, id: nat, c: Cmd, cap: nat): Server
    requires cap > 0
  {
    if s.state.Off? then s
    else
      var bytes := PrintAll(FeedCmds(s.selected, id, c));
      s.(selected := id,
         buf := if s.state.On? then s.buf + bytes else s.buf,
         blocks := if s.child.Some? then AppendBlocks(s.blocks, bytes, cap) else s.blocks)
  }

  /** A child that has been started sees the data of this moment, and the next command fed is
      preceded by a SELECT. */
  function Fork(s: Server): Server {
    s.(child := Some(s.data), selected := -1)
  }

  function Cleanup(s: Server): Server {
    s.(child := None, blocks := [])
  }

  function DoneStep(s: Server, d: Done): Server {
    if d.ChildFailed? || !d.fileOpen || !d.diffWritten || !d.renamed then Cleanup(s)
    else
      var file := d.out + Concat(s.blocks);
      Cleanup(s.(file := file, selected := -1, buf := "", state := On,
                 size := if d.statted then |file| else s.size))
  }

  ghost predicate Legal(s: Server, ev: Event) {
    match ev
    case Execute(id, c) => id < |s.data|
    case Flush(w) => w.Wrote? ==> -1 <= w.n <= |s.buf| && (s.state.Off? ==> w.n == -1)
    case Rewrite(_) => !s.state.Off?
    case RewriteDone(d) => s.child.Some? && (d.ChildWrote? ==> Streams(d.out, s.child.value, -1))
    case Stop(w) => !s.state.Off? && w.Wrote? && -1 <= w.n <= |s.buf|
    case Start(_, _) => s.state.Off?
  }

  ghost function Step(s: Server, ev: Event, cap: nat): Server
    requires cap > 0 && Legal(s, ev)
  {
    match ev
    case Execute(id, c) =>
      if !Effective(s.data[id], c) then s
      else Feed(s, id, c, cap).(data := s.data[id := Apply(s.data[id], c)])
    case Flush(w) => FlushStep(s, w)
    case Rewrite(forked) => if s.child.Some? || !forked then s else Fork(s)
    case RewriteDone(d) => DoneStep(s, d)
    case Stop(w) => Cleanup(FlushStep(s, w)).(selected := -1, state := Off)
    case Start(fileOpen, forked) =>
      if !fileOpen || s.child.Some? || !forked then s else Fork(s).(state := WaitRewrite)
  }

  // ---------------------------------------------------------------- safety

  ghost predicate Shape(s: Server, cap: nat) {
    && 0 < |s.data| <= LLONG_MAX && NoEmptyLists(s.data)
    && Packed(s.blocks, cap)
    && (s.child.None? ==> s.blocks == [])
    && (s.state.Off? ==> s.child.None?)
    && (s.child.Some? ==> |s.child.value| == |s.data| && NoEmptyLists(s.child.value))
  }

  /** The file followed by the unwritten buffer is a log of the live data. */
  ghost predicate FileSafe(s: Server) {
    s.state.On? ==> s.size == |s.file| && Streams(s.file + s.buf, s.data, s.selected)
  }

  /** The rewrite buffer leads from the snapshot of the child to the live data. */
  ghost predicate RewriteSafe(s: Server) {
    s.child.Some? ==> Differs(Concat(s.blocks), s.child.value, s.data, s.selected)
  }

  ghost predicate Safe(s: Server, cap: nat) {
    Shape(s, cap) && FileSafe(s) && RewriteSafe(s)
  }

  lemma ApplyKeepsLists(data: Data, id: nat, c: Cmd)
    requires NoEmptyLists(data) && id < |data| && Effective(data[id], c)
    ensures NoEmptyLists(data[id := Apply(data[id], c)])
  {
  }

  lemma ExecuteSafe(s: Server, id: nat, c: Cmd, cap: nat)
    requires cap > 0 && Safe(s, cap) && Legal(s, Execute(id, c))
    ensures Safe(Step(s, Execute(id, c), cap), cap)
  {
    hide Effective, Apply, FeedCmds, AppendBlocks, Concat, Streams, Differs, NoEmptyLists, PrintAll, Packed;
    if Effective(s.data[id], c) {
      ApplyKeepsLists(s.data, id, c);
      ExecuteFileSafe(s, id, c, cap);
      ExecuteRewriteSafe(s, id, c, cap);
    }
  }

  lemma ExecuteFileSafe(s: Server, id: nat, c: Cmd, cap: nat)
    requires cap > 0 && Safe(s, cap) && Legal(s, Execute(id, c)) && Effective(s.data[id], c)
    ensures FileSafe(Step(s, Execute(id, c), cap))
  {
    hide Effective, Apply, FeedCmds, AppendBlocks, Concat, Streams, Differs, NoEmptyLists, PrintAll, Packed;
    if s.state.On? {
      FeedStreams(s.file + s.buf, s.data, s.selected, id, c);
      var bytes := PrintAll(FeedCmds(s.selected, id, c));
      assert (s.file + s.buf) + bytes == s.file + (s.buf + bytes);
    }
  }

  lemma ExecuteRewriteSafe(s: Server, id: nat, c: Cmd, cap: nat)
    requires cap > 0 && Safe(s, cap) && Legal(s, Execute(id, c)) && Effective(s.data[id], c)
    ensures var r := Step(s, Execute(id, c), cap);
      RewriteSafe(r) && Packed(r.blocks, cap) && (r.child.None? ==> r.blocks == [])
  {
    hide Effective, Apply, FeedCmds, AppendBlocks, Concat, Streams, Differs, NoEmptyLists, PrintAll, Packed;
    if s.child.Some? {
      AppendBlocksConcat(s.blocks, PrintAll(FeedCmds(s.selected, id, c)), cap);
      FeedDiffers(Concat(s.blocks), s.child.value, s.data, s.selected, id, c);
    }
  }

  /** A flush, whatever the kernel writes of the buffer, moves bytes from the buffer to the file. */
  lemma FlushMoves(s: Server, w: Write)
    requires w.Wrote? ==> -1 <= w.n <= |s.buf|
    requires s.size == |s.file|
    ensures var r := FlushStep(s, w); r.file + r.buf == s.file + s.buf && r.size == |r.file|
    ensures var r := FlushStep(s, w); r == s.(file := r.file, buf := r.buf, size := r.size)
  {
    var r := FlushStep(s, w);
    if s.buf == "" || w.Postponed? || w.n == -1 {
    } else if w.n == |s.buf| {
      assert r.file + r.buf == s.file + s.buf;
    } else if w.truncated {
      assert (s.file + s.buf[..w.n])[..s.size] == s.file;
    } else {
      assert s.buf == s.buf[..w.n] + s.buf[w.n..];
      assert r.file + r.buf == s.file + s.buf;
    }
  }

  /** What a restart would load after the buffer has been written. */
  function Log(s: Server): string { s.file + s.buf }

  /** Every outcome of a flush leaves the bytes of file and buffer as they are exactly when the
      size that a short write is truncated to is the size of the file. */
  lemma FlushMovesExactly(s: Server)
    requires s.buf != ""
    ensures (forall w: Write :: (w.Wrote? ==> -1 <= w.n <= |s.buf|) ==> Log(FlushStep(s, w)) == Log(s))
       <==> s.size == |s.file|
  {
    if s.size == |s.file| {
      forall w: Write | w.Wrote? ==> -1 <= w.n <= |s.buf| ensures Log(FlushStep(s, w)) == Log(s) {
        FlushMoves(s, w);
      }
    } else {
      TruncationShows(s, 0);
    }
  }

  /** Undoing a short write of `n` bytes leaves a file of the recorded size. */
  lemma TruncationShows(s: Server, n: nat)
    requires n < |s.buf| && s.size != |s.file|
    ensures Log(FlushStep(s, Wrote(n, true))) != Log(s)
  {
    var r := FlushStep(s, Wrote(n, true));
    assert |r.file| == s.size && r.buf == s.buf;
    assert |Log(r)| == s.size + |s.buf|;
  }

  lemma FlushSafe(s: Server, w: Write, cap: nat)
    requires Safe(s, cap) && (w.Wrote? ==> -1 <= w.n <= |s.buf|)
    ensures Safe(FlushStep(s, w), cap)
  {
    hide Streams, Differs, Packed, NoEmptyLists, Concat;
    if s.state.On? {
      FlushMoves(s, w);
    }
  }

  lemma ForkSafe(s: Server, cap: nat)
    requires Safe(s, cap) && s.child.None? && !s.state.Off?
    ensures Safe(Fork(s), cap)
  {
    hide Differs, Packed, NoEmptyLists;
    EmptyDiffers(s.data);
    assert Concat([]) == "";
    if s.state.On? { ForgetSelection(s.file + s.buf, s.data, s.selected); }
  }

  /** The swap is safe exactly when the size the server will truncate to is the new file's. */
  lemma SwapSafeExactly(s: Server, d: Done, cap: nat)
    requires Safe(s, cap) && Legal(s, RewriteDone(d))
    requires d.ChildWrote? && d.fileOpen && d.diffWritten && d.renamed
    ensures Safe(DoneStep(s, d), cap) <==> d.statted || s.size == |d.out + Concat(s.blocks)|
    ensures Streams(DoneStep(s, d).file, s.data, -1) && DoneStep(s, d).buf == ""
  {
    hide Streams, Differs, NoEmptyLists, Concat;
    JoinStreams(d.out, s.child.value, Concat(s.blocks), s.data, s.selected);
    ForgetSelection(d.out + Concat(s.blocks), s.data, s.selected);
    var r := DoneStep(s, d);
    assert r.file + r.buf == d.out + Concat(s.blocks);
  }

  lemma FailedRewriteSafe(s: Server, cap: nat)
    requires Safe(s, cap)
    ensures Safe(Cleanup(s), cap)
  {
  }

  /** A step that leaves `aof_current_size` wrong: the swap succeeded and fstat failed. */
  ghost predicate StaleSize(s: Server, ev: Event) {
    ev.RewriteDone? && ev.d.ChildWrote? && ev.d.fileOpen && ev.d.diffWritten && ev.d.renamed
    && !ev.d.statted && s.size != |ev.d.out + Concat(s.blocks)|
  }

  /** Every step keeps the log safe exactly when it does not leave the size stale. */
  lemma StepSafeExactly(s: Server, ev: Event, cap: nat)
    requires cap > 0 && Safe(s, cap) && Legal(s, ev)
    ensures Safe(Step(s, ev, cap), cap) <==> !StaleSize(s, ev)
  {
    hide Safe, FlushStep, DoneStep, Effective, Apply;
    match ev
    case Execute(id, c) => ExecuteSafe(s, id, c, cap);
    case Flush(w) => FlushSafe(s, w, cap);
    case Rewrite(forked) =>
      if s.child.None? && forked { ForkSafe(s, cap); }
    case RewriteDone(d) =>
      FailedRewriteSafe(s, cap);
      if d.ChildWrote? && d.fileOpen && d.diffWritten && d.renamed {
        SwapSafeExactly(s, d, cap);
      } else {
        FailedDone(s, d);
      }
    case Stop(w) =>
      FlushSafe(s, w, cap);
      StopSafe(FlushStep(s, w), cap);
    case Start(fileOpen, forked) =>
      if fileOpen && s.child.None? && forked { StartSafe(s, cap); }
  }

  /** Executing a command and flushing then does not change the log by the flush. */
  ghost predicate FlushKeepsLog(s: Server, id: nat, c: Cmd, w: Write, cap: nat)
    requires cap > 0
  {
    Legal(s, Execute(id, c)) ==>
      var r := Step(s, Execute(id, c), cap);
      Legal(r, Flush(w)) ==> Log(FlushStep(r, w)) == Log(r)
  }

  /** A step leaves the server in a state from which a command and a flush can change the log
      exactly when it leaves the size stale. */
  lemma StepKeepsLogExactly(s: Server, ev: Event, cap: nat)
    requires cap > 0 && Safe(s, cap) && Legal(s, ev)
    ensures var r := Step(s, ev, cap);
      (r.state.On? ==> forall id: nat, c, w :: FlushKeepsLog(r, id, c, w, cap)) <==> !StaleSize(s, ev)
  {
    hide Safe, Step, Legal, StaleSize, FlushStep, FlushKeepsLog;
    var r := Step(s, ev, cap);
    StepSafeExactly(s, ev, cap);
    if StaleSize(s, ev) {
      StaleSwapShows(s, ev, cap);
    } else if r.state.On? {
      forall id: nat, c, w ensures FlushKeepsLog(r, id, c, w, cap) {
        SafeFlushKeepsLog(r, id, c, w, cap);
      }
    }
  }

  lemma SafeFlushKeepsLog(s: Server, id: nat, c: Cmd, w: Write, cap: nat)
    requires cap > 0 && Safe(s, cap) && s.state.On?
    ensures FlushKeepsLog(s, id, c, w, cap)
  {
    hide Shape, Streams, RewriteSafe, FlushStep, Effective, Apply, FeedCmds;
    if Legal(s, Execute(id, c)) {
      ExecuteSafe(s, id, c, cap);
      var r := Step(s, Execute(id, c), cap);
      if Legal(r, Flush(w)) { FlushMoves(r, w); }
    }
  }

  /** The first command after the swap is long enough for a short write. */
  lemma StaleSwapShows(s: Server, ev: Event, cap: nat)
    requires cap > 0 && Safe(s, cap) && Legal(s, ev) && StaleSize(s, ev)
    ensures Step(s, ev, cap).state.On?
    ensures !FlushKeepsLog(Step(s, ev, cap), 0, Set("", ""), Wrote(1, true), cap)
  {
    hide Streams, Differs, NoEmptyLists, Packed, FlushStep, FeedCmds, PrintAll, AppendBlocks, Concat;
    var r, c := Step(s, ev, cap), Set("", "");
    var bytes := PrintAll(FeedCmds(-1, 0, c));
    FedIsLong(-1, 0, c);
    var fed := Step(r, Execute(0, c), cap);
    assert fed.buf == "" + bytes && fed.file == r.file && fed.size == r.size;
    TruncationShows(fed, 1);
  }

  lemma FedIsLong(sel: int, id: nat, c: Cmd)
    ensures |PrintAll(FeedCmds(sel, id, c))| > 1
  {
    var cmds := FeedCmds(sel, id, c);
    assert PrintAll(cmds) == Print(cmds[0]) + PrintAll(cmds[1..]);
  }

  lemma FailedDone(s: Server, d: Done)
    requires d.ChildFailed? || !d.fileOpen || !d.diffWritten || !d.renamed
    ensures DoneStep(s, d) == Cleanup(s)
  {
  }

  lemma StopSafe(s: Server, cap: nat)
    requires Safe(s, cap)
    ensures Safe(Cleanup(s).(selected := -1, state := Off), cap)
  {
  }

  lemma StartSafe(s: Server, cap: nat)
    requires Safe(s, cap) && s.child.None?
    ensures Safe(Fork(s).(state := WaitRewrite), cap)
  {
    hide Differs, Packed, NoEmptyLists, Streams;
    EmptyDiffers(s.data);
    assert Concat([]) == "";
  }

  lemma DoneSafeExactly(s: Server, d: Done, cap: nat)
    requires cap > 0 && Safe(s, cap) && Legal(s, RewriteDone(d))
    ensures Safe(DoneStep(s, d), cap) <==> !StaleSize(s, RewriteDone(d))
  {
    hide Safe, StaleSize, Legal, DoneStep;
    StepSafeExactly(s, RewriteDone(d), cap);
  }

  // ---------------------------------------------------------------- whole runs

  ghost predicate Run(states: seq<Server>, events: seq<Event>, cap: nat)
    requires cap > 0
  {
    && |states| == |events| + 1
    && forall i :: 0 <= i < |events| ==>
         Legal(states[i], events[i]) && states[i + 1] == Step(states[i], events[i], cap)
  }

  lemma {:induction false} RunSafe(states: seq<Server>, events: seq<Event>, cap: nat, n: nat)
    requires cap > 0 && Run(states, events, cap) && n < |states| && Safe(states[0], cap)
    requires forall i :: 0 <= i < n ==> !StaleSize(states[i], events[i])
    ensures Safe(states[n], cap)
  {
    hide Safe, Step, Legal, StaleSize;
    if n > 0 {
      RunSafe(states, events, cap, n - 1);
      StepSafeExactly(states[n - 1], events[n - 1], cap);
    }
  }

  /** Safety over runs: as long as fstat does not fail after a swap, at every moment the AOF is
      on, loading the file followed by the unwritten buffer gives the live data, and ends in the
      selected database if there is one. */
  lemma LogAlwaysLoads(states: seq<Server>, events: seq<Event>, cap: nat, n: nat)
    requires cap > 0 && Run(states, events, cap) && n < |states| && Safe(states[0], cap)
    requires forall i :: 0 <= i < n ==> !StaleSize(states[i], events[i])
    requires states[n].state == On
    ensures var s := states[n]; var l := Load(Replay(EmptyData(|s.data|), 0), s.file + s.buf);
      l.Loaded? && l.r.data == s.data && (s.selected != -1 ==> l.r.sel == s.selected)
  {
    hide Step, Legal, StaleSize, Load, Streams;
    RunSafe(states, events, cap, n);
    StreamsLoads(states[n].file + states[n].buf, states[n].data, states[n].selected);
  }

  /** The other stream: while a child runs, loading whatever log of its snapshot it may write,
      followed by the rewrite buffer, gives the live data and the selected database too. */
  lemma RewriteAlwaysLoads(states: seq<Server>, events: seq<Event>, cap: nat, n: nat, out: string)
    requires cap > 0 && Run(states, events, cap) && n < |states| && Safe(states[0], cap)
    requires forall i :: 0 <= i < n ==> !StaleSize(states[i], events[i])
    requires states[n].child.Some? && Streams(out, states[n].child.value, -1)
    ensures var s := states[n]; var l := Load(Replay(EmptyData(|s.data|), 0), out + Concat(s.blocks));
      l.Loaded? && l.r.data == s.data && (s.selected != -1 ==> l.r.sel == s.selected)
  {
    hide Step, Legal, StaleSize, Load, Streams, Differs, Concat;
    RunSafe(states, events, cap, n);
    var s := states[n];
    JoinStreams(out, s.child.value, Concat(s.blocks), s.data, s.selected);
    StreamsLoads(out + Concat(s.blocks), s.data, s.selected);
  }

  // ---------------------------------------------------------------- what is on disk

  predicate Complete(s: Server, w: Write) { w.Wrote? && w.n == |s.buf| }

  /** A flush writes: a complete write leaves nothing in the buffer, a short one that is not undone
      moves as many bytes as it says, and an undone one leaves the file as it was. */
  lemma FlushWrites(s: Server, w: Write)
    requires w.Wrote? && 0 <= w.n <= |s.buf| && s.size == |s.file|
    ensures var r := FlushStep(s, w);
      if Complete(s, w) then r.buf == "" && r.file == s.file + s.buf
      else if w.truncated then r.file == s.file && r.buf == s.buf
      else r.file == s.file + s.buf[..w.n] && r.buf == s.buf[w.n..]
  {
    if !Complete(s, w) && w.truncated { assert (s.file + s.buf[..w.n])[..s.size] == s.file; }
    if s.buf == "" { assert s.file + s.buf == s.file; }
  }

  /** After a complete write the file alone loads to the live data, and so it does after a stop whose
      last write is complete. */
  lemma FileAloneLoads(s: Server, w: Write, cap: nat)
    requires cap > 0 && Safe(s, cap) && s.state.On? && Complete(s, w)
    ensures var l := Load(Replay(EmptyData(|s.data|), 0), FlushStep(s, w).file); l.Loaded? && l.r.data == s.data
    ensures Legal(s, Stop(w))
    ensures var r := Step(s, Stop(w), cap);
      && r.state.Off? && r.child.None? && r.data == s.data && r.file == s.file + s.buf
      && var l := Load(Replay(EmptyData(|s.data|), 0), r.file); l.Loaded? && l.r.data == s.data
  {
    hide Load, Streams, RewriteSafe, Shape;
    FlushWrites(s, w);
    StreamsLoads(s.file + s.buf, s.data, s.selected);
  }

  // ---------------------------------------------------------------- turning it on

  /** The child wrote its file, the differences followed, and the file was put in place. */
  predicate Swapped(ev: Event) {
    ev.RewriteDone? && ev.d.ChildWrote? && ev.d.fileOpen && ev.d.diffWritten && ev.d.renamed
  }

  /** The ways into and out of the three states. */
  lemma StateChanges(s: Server, ev: Event, cap: nat)
    requires cap > 0 && Legal(s, ev)
    ensures var r := Step(s, ev, cap);
      && (Swapped(ev) ==> r.state.On? && r.child.None?)
      && (ev.Stop? ==> r.state.Off? && r.child.None?)
      && (ev.Start? ==> if ev.fileOpen && ev.forked && s.child.None? then
            r.state.WaitRewrite? && r.child == Some(s.data) else r == s)
      && (ev.Rewrite? ==> r.state == s.state)
      && (ev.Rewrite? ==>
            r.child == if ev.forked && s.child.None? then Some(s.data) else s.child)
      && (ev.RewriteDone? ==> r.child.None? && (!Swapped(ev) ==> r.state == s.state))
      && (ev.Execute? || ev.Flush? ==> r.state == s.state && r.child == s.child)
  {
    hide Effective, Apply, FeedCmds, AppendBlocks, Concat, Streams, PrintAll, Truncate;
  }

  /** After a swap the AOF is on, whatever fstat says, until it is stopped. */
  lemma {:induction false} StaysOn(states: seq<Server>, events: seq<Event>, cap: nat, m: nat, n: nat)
    requires cap > 0 && Run(states, events, cap) && m < n < |states| && Swapped(events[m])
    requires forall i :: m < i < n ==> !events[i].Stop?
    ensures states[n].state.On?
  {
    hide Step, Legal, Swapped;
    StateChanges(states[n - 1], events[n - 1], cap);
    if n - 1 > m {
      StaysOn(states, events, cap, m, n - 1);
      OnStays(states[n - 1], events[n - 1], cap);
    }
  }

  lemma OnStays(s: Server, ev: Event, cap: nat)
    requires cap > 0 && Legal(s, ev) && s.state.On? && !ev.Stop?
    ensures Step(s, ev, cap).state.On?
  {
    hide Step;
    StateChanges(s, ev, cap);
  }

  /** While the started child is at work the AOF waits for it. */
  lemma {:induction false} WaitsForChild(states: seq<Server>, events: seq<Event>, cap: nat, k: nat, n: nat)
    requires cap > 0 && Run(states, events, cap) && k < n < |states|
    requires events[k] == Start(true, true) && states[k].child.None?
    requires forall i :: k < i < n ==> !events[i].Stop? && !events[i].RewriteDone?
    ensures states[n].state.WaitRewrite? && states[n].child == Some(states[k].data)
  {
    hide Step, Swapped;
    StateChanges(states[n - 1], events[n - 1], cap);
    if n - 1 > k { WaitsForChild(states, events, cap, k, n - 1); }
  }

  /** Turning the AOF on: from a start whose child succeeds, the AOF waits while the child works, and
      from then until it is stopped it is on, and file and buffer load to the live data. */
  lemma StartedTurnsOn(states: seq<Server>, events: seq<Event>, cap: nat, k: nat, m: nat, n: nat)
    requires cap > 0 && Run(states, events, cap) && k < m < n < |states| && Safe(states[0], cap)
    requires forall i :: 0 <= i < n ==> !StaleSize(states[i], events[i])
    requires events[k] == Start(true, true) && states[k].child.None? && Swapped(events[m])
    requires forall i :: k < i < n ==> !events[i].Stop?
    requires forall i :: k < i < m ==> !events[i].RewriteDone?
    ensures forall i :: k < i <= m ==> states[i].state.WaitRewrite? && states[i].child == Some(states[k].data)
    ensures var s := states[n]; var l := Load(Replay(EmptyData(|s.data|), 0), s.file + s.buf);
      s.state.On? && l.Loaded? && l.r.data == s.data
  {
    hide Step, Legal, Safe, StaleSize, Load, Swapped;
    forall i | k < i <= m ensures states[i].state.WaitRewrite? && states[i].child == Some(states[k].data) {
      WaitsForChild(states, events, cap, k, i);
    }
    StaysOn(states, events, cap, m, n);
    LogAlwaysLoads(states, events, cap, n);
  }

  // ---------------------------------------------------------------- the size must be known

  const A: Cmd := Set("a", "1")
  const B: Cmd := Set("b", "2")

  /** An empty server with a child at work. */
  const IDLE: Server := Server([map[]], On, "", -1, "", 0, Some([map[]]), [])

  function LossyRun(): seq<Event> {
    [Execute(0, A), RewriteDone(ChildWrote("", true, true, true, false)), Execute(0, B), Flush(Wrote(1, true))]
  }

  lemma IdleIsSafe(cap: nat)
    requires cap > 0
    ensures Safe(IDLE, cap)
  {
    var none: seq<seq<string>> := [];
    assert PrintAll(none) == "" && NonEmptyVectors(none);
    assert EndsIn(ExecAll(Replay(EmptyData(1), 0), none), [map[]], -1);
    assert IDLE.file + IDLE.buf == "";
    EmptyDiffers([map[]]);
    assert Concat([]) == "";
  }

  /** When fstat fails after the swap, a later short write is undone by truncating the new file to
      a size that is not its own: the key written before the swap is gone from the log. */
  lemma StaleSizeLosesData(cap: nat) returns (states: seq<Server>)
    requires cap > 0
    ensures Run(states, LossyRun(), cap) && Safe(states[0], cap)
    ensures StaleSize(states[1], LossyRun()[1])
    ensures var s := states[4]; var l := Load(Replay(EmptyData(1), 0), s.file + s.buf);
      && s.state == On && |s.data| == 1 && "a" in s.data[0]
      && l.Loaded? && |l.r.data| == 1 && "a" !in l.r.data[0]
  {
    hide PrintAll, Load, ExecAll, AppendBlocks, Streams, Concat;
    IdleIsSafe(cap);
    var events := LossyRun();
    var a, b := PrintAll(FeedCmds(-1, 0, A)), PrintAll(FeedCmds(-1, 0, B));
    FedIsLong(-1, 0, A);
    FedIsLong(-1, 0, B);
    ConcatEmpty();
    AppendBlocksConcat([], a, cap);
    var s1 := Step(IDLE, events[0], cap);
    assert Streams("", [map[]], -1) by { assert IDLE.file + IDLE.buf == ""; }
    var s2 := Step(s1, events[1], cap);
    assert s2.file == "" + ("" + a) && s2.size == 0 && s2.selected == -1;
    var s3 := Step(s2, events[2], cap);
    assert s3.buf == "" + b;
    var s4 := Step(s3, events[3], cap);
    states := [IDLE, s1, s2, s3, s4];
    assert s4.file == "" && s4.file + s4.buf == b;
    var start := Replay(EmptyData(1), 0);
    FeedExec(start, -1, 0, B);
    LoadPrinted(start, FeedCmds(-1, 0, B));
    assert s4.data == [map["a" := Str("1")]["b" := Str("2")]];
  }

  lemma ConcatEmpty()
    ensures Concat([]) == ""
  {
  }

  // ---------------------------------------------------------------- the server object

  class AofServer {
    const blockSize: nat
    var data: Data
    var state: AofState
    var buf: string
    var selected: int
    var file: string
    var size: nat
    var child: Option<Data>
    var blocks: seq<string>

    function View(): Server
      reads this
    {
      Server(data, state, buf, selected, file, size, child, blocks)
    }

    /** A server that has just started with the AOF on and an empty file. */
    constructor (dbnum: nat, blockSize: nat)
      requires 0 < dbnum <= LLONG_MAX && blockSize > 0
      ensures Safe(View(), blockSize) && this.blockSize == blockSize
      ensures View() == Server(EmptyData(dbnum), On, "", -1, "", 0, None, [])
    {
      this.blockSize := blockSize;
      data, state, buf, selected, file, size, child, blocks := EmptyData(dbnum), On, "", -1, "", 0, None, [];
      new;
      var none: seq<seq<string>> := [];
      assert PrintAll(none) == "" && NonEmptyVectors(none);
      assert EndsIn(ExecAll(Replay(EmptyData(dbnum), 0), none), EmptyData(dbnum), -1);
      assert file + buf == "";
    }

    method RewriteBufferAppend(bytes: string)
      requires blockSize > 0 && Packed(blocks, blockSize)
      modifies this`blocks
      ensures blocks == AppendBlocks(old(blocks), bytes, blockSize)
      ensures Concat(blocks) == Concat(old(blocks)) + bytes
    {
      AppendBlocksConcat(blocks, bytes, blockSize);
      var s := bytes;
      while s != ""
        invariant AppendBlocks(blocks, s, blockSize) == AppendBlocks(old(blocks), bytes, blockSize)
        decreases |s|
      {
        if blocks != [] && |blocks[|blocks| - 1]| < blockSize {
          var last := blocks[|blocks| - 1];
          var thislen := if blockSize - |last| < |s| then blockSize - |last| else |s|;
          blocks := blocks[|blocks| - 1 := last + s[..thislen]];
          s := s[thislen..];
        } else {
          var thislen := if blockSize < |s| then blockSize else |s|;
          blocks := blocks + [s[..thislen]];
          s := s[thislen..];
        }
      }
    }

    method FeedAppendOnlyFile(id: nat, c: Cmd)
      requires blockSize > 0 && !state.Off? && Packed(blocks, blockSize)
      modifies this`selected, this`buf, this`blocks
      ensures View() == Feed(old(View()), id, c, blockSize) && selected == id
      ensures var bytes := (if id == old(selected) then "" else Print(SelectArgs(id))) + Print(Args(c));
        && buf == old(buf) + (if state == On then bytes else "")
        && Concat(blocks) == Concat(old(blocks)) + if child.Some? then bytes else ""
    {
      var bytes := "";
      if id != selected {
        bytes := SelectBytes(id);
        selected := id;
      }
      bytes := CatGenericCommand(bytes, Args(c));
      FeedBytes(old(selected), id, c);
      if state == On { buf := buf + bytes; }
      if child.Some? { RewriteBufferAppend(bytes); }
    }

    /** The SELECT that feedAppendOnlyFile formats by hand. */
    method SelectBytes(id: nat) returns (bytes: string)
      ensures bytes == Print(SelectArgs(id))
    {
      var seldb := Dec(id);
      bytes := "*2\r\n$6\r\nSELECT\r\n$" + Dec(|seldb|) + "\r\n" + seldb + "\r\n";
      SelectIsPrinted(seldb);
    }

    method ExecuteCommand(id: nat, c: Cmd)
      requires blockSize > 0 && Safe(View(), blockSize) && Legal(View(), Execute(id, c))
      modifies this
      ensures View() == Step(old(View()), Execute(id, c), blockSize) && Safe(View(), blockSize)
      ensures if Effective(old(data)[id], c) then data == old(data)[id := Apply(old(data)[id], c)]
              else View() == old(View())
      ensures Effective(old(data)[id], c) && state == On ==>
                && selected == id
                && buf == old(buf) + ((if id == old(selected) then "" else Print(SelectArgs(id))) + Print(Args(c)))
    {
      ExecuteSafe(View(), id, c, blockSize);
      hide Safe, Effective, Apply;
      SafeIsPacked(View(), blockSize);
      if Effective(data[id], c) {
        var after := data[id := Apply(data[id], c)];
        if !state.Off? { FeedAppendOnlyFile(id, c); }
        data := after;
      }
    }

    /** `w` tells whether the write was postponed, how many bytes it wrote, and whether undoing a
        short write succeeded. */
    method FlushAppendOnlyFile(w: Write)
      requires Safe(View(), blockSize) && Legal(View(), Flush(w))
      modifies this
      ensures View() == FlushStep(old(View()), w) && Safe(View(), blockSize)
      ensures Complete(old(View()), w) ==> buf == "" && file == old(file) + old(buf)
    {
      FlushSafe(View(), w, blockSize);
      assert old(buf) == "" ==> file + old(buf) == file;
      hide Safe;
      if |buf| == 0 || w.Postponed? { return; }
      var nwritten := w.n;
      if nwritten > 0 { file := file + buf[..nwritten]; }
      if nwritten != |buf| {
        if nwritten != -1 {
          if w.truncated {
            file := Truncate(file, size);
            nwritten := -1;
          }
        }
        if nwritten > 0 {
          size := size + nwritten;
          buf := buf[nwritten..];
        }
        assert old(file) + old(buf)[..0] == old(file);
        assert old(buf)[0..] == old(buf);
        return;
      }
      size := size + nwritten;
      assert old(buf)[..nwritten] == old(buf);
      buf := "";
    }

    method RewriteInBackground(forked: bool) returns (ok: bool)
      requires blockSize > 0 && Safe(View(), blockSize) && !state.Off?
      modifies this
      ensures View() == Step(old(View()), Rewrite(forked), blockSize) && Safe(View(), blockSize)
      ensures ok <==> old(child).None? && forked
      ensures ok ==> child == Some(data) && selected == -1
    {
      hide Safe;
      if child.Some? || !forked { return false; }
      ForkSafe(View(), blockSize);
      child := Some(data);
      selected := -1;
      return true;
    }

    /** `aofRewriteBufferWrite` onto the child's file. */
    method RewriteBufferWrite(out: string) returns (r: string)
      ensures r == out + Concat(blocks)
    {
      r := out;
      var i := 0;
      assert blocks[0..] == blocks;
      while i < |blocks|
        invariant i <= |blocks| && r + Concat(blocks[i..]) == out + Concat(blocks)
      {
        assert blocks[i..][1..] == blocks[i + 1..];
        r := r + blocks[i];
        i := i + 1;
      }
    }

    method BackgroundRewriteDone(d: Done)
      requires blockSize > 0 && Safe(View(), blockSize) && Legal(View(), RewriteDone(d))
      modifies this
      ensures View() == DoneStep(old(View()), d)
      ensures Safe(View(), blockSize) <==> !StaleSize(old(View()), RewriteDone(d))
      ensures child == None && blocks == []
      ensures if Swapped(RewriteDone(d)) then state == On && buf == "" && file == d.out + Concat(old(blocks))
              else state == old(state) && buf == old(buf) && file == old(file)
    {
      DoneSafeExactly(View(), d, blockSize);
      hide Safe, StaleSize, Legal;
      if d.ChildWrote? && d.fileOpen {
        var newfile := RewriteBufferWrite(d.out);
        if d.diffWritten && d.renamed {
          file := newfile;
          selected := -1;
          if d.statted { size := |file|; }
          buf := "";
          state := On;
        }
      }
      child := None;
      blocks := [];
    }

    method StopAppendOnly(w: Write)
      requires blockSize > 0 && Safe(View(), blockSize) && Legal(View(), Stop(w))
      modifies this
      ensures View() == Step(old(View()), Stop(w), blockSize) && Safe(View(), blockSize)
      ensures state == Off && child == None
      ensures Complete(old(View()), w) ==> file == old(file) + old(buf)
    {
      hide Safe;
      FlushAppendOnlyFile(w);
      StopSafe(View(), blockSize);
      SafeIsPacked(View(), blockSize);
      selected := -1;
      state := Off;
      if child.Some? {
        blocks := [];
        child := None;
      }
    }

    method StartAppendOnly(fileOpen: bool, forked: bool) returns (ok: bool)
      requires blockSize > 0 && Safe(View(), blockSize) && state.Off?
      modifies this
      ensures View() == Step(old(View()), Start(fileOpen, forked), blockSize) && Safe(View(), blockSize)
      ensures ok <==> fileOpen && forked
      ensures if ok then state == WaitRewrite && child == Some(data) else View() == old(View())
    {
      hide Safe;
      SafeIsPacked(View(), blockSize);
      if !fileOpen { return false; }
      if child.Some? || !forked { return false; }
      StartSafe(View(), blockSize);
      child := Some(data);
      selected := -1;
      state := WaitRewrite;
      return true;
    }
  }

  lemma SafeIsPacked(s: Server, cap: nat)
    requires Safe(s, cap)
    ensures Packed(s.blocks, cap) && (s.child.None? ==> s.blocks == [])
    ensures s.state.Off? ==> s.child.None?
  {
  }

  lemma FeedBytes(sel: int, id: nat, c: Cmd)
    ensures PrintAll(FeedCmds(sel, id, c)) == (if id != sel then Print(SelectArgs(id)) else "") + Print(Args(c))
  {
    hide Print, Args, SelectArgs;
    if id != sel {
      assert FeedCmds(sel, id, c) == [SelectArgs(id), Args(c)];
      assert [SelectArgs(id), Args(c)][1..] == [Args(c)];
    } else {
      assert FeedCmds(sel, id, c) == [Args(c)];
    }
    PrintOne(Args(c));
  }

  lemma SelectIsPrinted(seldb: string)
    ensures "*2\r\n$6\r\nSELECT\r\n$" + Dec(|seldb|) + "\r\n" + seldb + "\r\n" == Print(["SELECT", seldb])
  {
    SelectHead();
    hide Dec, Header;
    var head, last := Header('*', 2) + Header('$', 6) + "SELECT" + CRLF, Header('$', |seldb|) + seldb + CRLF;
    TwoArguments("SELECT", seldb);
    LastArgument(head, seldb);
  }

  lemma SelectHead()
    ensures "*2\r\n$6\r\nSELECT\r\n$" == Header('*', 2) + Header('$', 6) + "SELECT" + CRLF + "$"
  {
    assert Dec(2) == "2" && Dec(6) == "6";
    assert Header('*', 2) == "*2\r\n" && Header('$', 6) == "$6\r\n";
  }

  lemma LastArgument(head: string, seldb: string)
    ensures head + "$" + Dec(|seldb|) + "\r\n" + seldb + "\r\n" == head + (Header('$', |seldb|) + seldb + CRLF)
  {
    hide Dec;
    Reassociate(head, "$", Dec(|seldb|), CRLF, seldb);
  }

  lemma Assoc(a: string, b: string, c: string)
    ensures (a + b) + c == a + (b + c)
  {
  }

  lemma Reassociate(h: string, m: string, d: string, e: string, s: string)
    ensures h + m + d + e + s + e == h + (m + d + e + s + e)
  {
    Assoc(h, m, d);
    Assoc(h, m + d, e);
    Assoc(h, m + d + e, s);
    Assoc(h, m + d + e + s, e);
  }

  lemma TwoArguments(a: string, b: string)
    ensures Print([a, b]) == Header('*', 2) + Header('$', |a|) + a + CRLF + (Header('$', |b|) + b + CRLF)
  {
    hide Header;
    assert [a, b][1..] == [b];
    assert [b][1..] == [];
    assert PrintArgs([b]) == Header('$', |b|) + b + CRLF + PrintArgs([]);
    assert PrintArgs([b]) == Header('$', |b|) + b + CRLF;
  }
}
