/** `bio.c`: the queue of background jobs of one type, as interleaved steps of the threads that create
    jobs, the worker that does them and the threads that ask how many are pending. */
module Bio {

  type Job = nat
  type Thread = nat

  /** A list node; every `listAddNodeTail` makes a new one. */
  datatype Node = Node(id: nat, job: Job)

  datatype Option<+T> = None | Some(value: T)

  datatype Owner = Free | Worker | Caller(t: Thread)

  /** Where a thread is in `bioCreateBackgroundJob` or `bioPendingJobsOfType`. */
  datatype CallerAt =
    | Idle
    | Creating(job: Job)
    | Locked(job: Job)
    | Added
    | Counted
    | Signaled
    | Asking
    | AskLocked
    | Read(val: int)

  /** Where the worker is in its loop. */
  datatype WorkerAt =
    | Start
    | Top
    | Waiting
    | Woken
    | Picked(node: Node)
    | Processing(node: Node)
    | Processed(node: Node)
    | Relocked(node: Node)
    | Deleted

  /** `submitted` and `completed` are what was appended to the queue and what was done, in order. */
  datatype State = State(queue: seq<Node>, pending: int, owner: Owner, callers: map<Thread, CallerAt>,
                         worker: WorkerAt, nextId: nat, submitted: seq<Node>, completed: seq<Node>)

  datatype Action =
    | Create(t: Thread, job: Job)
    | Ask(t: Thread)
    | CallerStep(t: Thread)
    | WorkerStep
    | SpuriousWake

  function Init(threads: set<Thread>): State {
    State([], 0, Free, map t | t in threads :: Idle, Start, 0, [], [])
  }

  // ---------------------------------------------------------------- the steps

  function At(s: State, t: Thread): CallerAt { if t in s.callers then s.callers[t] else Idle }

  function Go(s: State, t: Thread, at: CallerAt): State { s.(callers := s.callers[t := at]) }

  /** One step of a thread that creates a job or asks for the number of pending jobs. A step that
      would have to wait for the lock is not possible. */
  function CallerNext(s: State, t: Thread): Option<State> {
    match At(s, t)
    case Idle => None
    case Creating(job) =>
      if s.owner == Free then Some(Go(s, t, Locked(job)).(owner := Caller(t))) else None
    case Locked(job) =>
      var n := Node(s.nextId, job);
      Some(Go(s, t, Added).(queue := s.queue + [n], nextId := s.nextId + 1, submitted := s.submitted + [n]))
    case Added => Some(Go(s, t, Counted).(pending := s.pending + 1))
    case Counted =>
      Some(Go(s, t, Signaled).(worker := if s.worker == Waiting then Woken else s.worker))
    case Signaled => Some(Go(s, t, Idle).(owner := Free))
    case Asking =>
      if s.owner == Free then Some(Go(s, t, AskLocked).(owner := Caller(t))) else None
    case AskLocked => Some(Go(s, t, Read(s.pending)))
    case Read(val) => Some(Go(s, t, Idle).(owner := Free))
  }

  /** `listDelNode`: the node itself, wherever it is. */
  function DelNode(q: seq<Node>, n: Node): seq<Node> {
    if q == [] then [] else if q[0] == n then q[1..] else [q[0]] + DelNode(q[1..], n)
  }

  function WorkerNext(s: State): Option<State> {
    match s.worker
    case Start => if s.owner == Free then Some(s.(worker := Top, owner := Worker)) else None
    case Top =>
      if s.queue == [] then Some(s.(worker := Waiting, owner := Free))
      else Some(s.(worker := Picked(s.queue[0])))
    case Waiting => None
    case Woken => if s.owner == Free then Some(s.(worker := Top, owner := Worker)) else None
    case Picked(n) => Some(s.(worker := Processing(n), owner := Free))
    case Processing(n) => Some(s.(worker := Processed(n), completed := s.completed + [n]))
    case Processed(n) => if s.owner == Free then Some(s.(worker := Relocked(n), owner := Worker)) else None
    case Relocked(n) => Some(s.(worker := Deleted, queue := DelNode(s.queue, n)))
    case Deleted => Some(s.(worker := Top, pending := s.pending - 1))
  }

  function Next(s: State, a: Action): Option<State> {
    match a
    case Create(t, job) => if t in s.callers && At(s, t) == Idle then Some(Go(s, t, Creating(job))) else None
    case Ask(t) => if t in s.callers && At(s, t) == Idle then Some(Go(s, t, Asking)) else None
    case CallerStep(t) => CallerNext(s, t)
    case WorkerStep => WorkerNext(s)
    case SpuriousWake => if s.worker == Waiting then Some(s.(worker := Woken)) else None
  }

  /** A schedule: actions that are not possible are skipped. */
  function Run(s: State, schedule: seq<Action>): State {
    if schedule == [] then s
    else
      var r := Run(s, schedule[..|schedule| - 1]);
      var n := Next(r, schedule[|schedule| - 1]);
      if n.Some? then n.value else r
  }

  // ---------------------------------------------------------------- the invariant

  predicate CallerHolds(at: CallerAt) {
    at.Locked? || at.Added? || at.Counted? || at.Signaled? || at.AskLocked? || at.Read?
  }

  predicate WorkerHolds(at: WorkerAt) { at.Top? || at.Picked? || at.Relocked? || at.Deleted? }

  /** The node the worker has in hand. */
  function InHand(at: WorkerAt): Option<Node> {
    match at
    case Picked(n) => Some(n)
    case Processing(n) => Some(n)
    case Processed(n) => Some(n)
    case Relocked(n) => Some(n)
    case _ => None
  }

  /** Only the owner of the lock is in a critical section. */
  ghost predicate Exclusive(s: State) {
    && (WorkerHolds(s.worker) <==> s.owner == Worker)
    && (forall t :: t in s.callers ==> (CallerHolds(s.callers[t]) <==> s.owner == Caller(t)))
    && (s.owner.Caller? ==> s.owner.t in s.callers)
  }

  /** What has been added and not counted, or removed and not yet discounted. */
  function Uncounted(s: State): int {
    (if s.owner.Caller? && At(s, s.owner.t) == Added then 1 else 0) - (if s.worker == Deleted then 1 else 0)
  }

  /** A signal is still to come. */
  predicate SignalDue(s: State) {
    s.owner.Caller? && (At(s, s.owner.t) == Added || At(s, s.owner.t) == Counted)
  }

  /** Nodes are told apart by their ids, in the order in which they were added. */
  ghost predicate Numbered(s: State) {
    |s.submitted| == s.nextId && forall i :: 0 <= i < |s.submitted| ==> s.submitted[i].id == i
  }

  /** The counter is the length of the queue, up to what is just being added or removed. */
  predicate Balanced(s: State) { s.pending + Uncounted(s) == |s.queue| }

  /** The queue is the end of what was submitted, what was completed is the beginning. */
  ghost predicate InOrder(s: State) {
    && |s.queue| <= |s.submitted| && |s.completed| == Done(s) <= |s.submitted|
    && (forall i :: 0 <= i < |s.queue| ==> s.queue[i] == s.submitted[|s.submitted| - |s.queue| + i])
    && (forall i :: 0 <= i < |s.completed| ==> s.completed[i] == s.submitted[i])
  }

  /** The node in hand is at the head of the queue. */
  predicate HandIsHead(s: State) {
    InHand(s.worker).Some? ==> s.queue != [] && s.queue[0] == InHand(s.worker).value
  }

  /** The worker only waits when there is nothing to do or it is about to be signaled. */
  predicate Awake(s: State) { s.worker == Waiting ==> s.queue == [] || SignalDue(s) }

  /** Who has read the counter still holds the lock. */
  ghost predicate Fresh(s: State) {
    forall t :: t in s.callers && s.callers[t].Read? ==> s.callers[t].val == s.pending
  }

  ghost predicate Inv(s: State) {
    Exclusive(s) && Numbered(s) && Balanced(s) && InOrder(s) && HandIsHead(s) && Awake(s) && Fresh(s)
  }

  /** How many jobs are done: those no longer in the queue, and the one in hand once it is processed. */
  function Done(s: State): int {
    |s.submitted| - |s.queue| + if s.worker.Processed? || s.worker.Relocked? then 1 else 0
  }

  // ---------------------------------------------------------------- every step keeps it

  lemma InitIsInv(threads: set<Thread>)
    ensures Inv(Init(threads))
  {
    hide DelNode, CallerNext, WorkerNext, Run;
  }

  lemma CallerKeepsLock(s: State, t: Thread)
    requires Exclusive(s) && CallerNext(s, t).Some?
    ensures Exclusive(CallerNext(s, t).value) && t in s.callers
  {
  }

  lemma CallerKeepsNumbers(s: State, t: Thread)
    requires Numbered(s) && CallerNext(s, t).Some?
    ensures Numbered(CallerNext(s, t).value)
  {
  }

  lemma CallerKeepsOrder(s: State, t: Thread)
    requires InOrder(s) && CallerNext(s, t).Some?
    ensures InOrder(CallerNext(s, t).value)
  {
    var r := CallerNext(s, t).value;
    if At(s, t).Locked? {
      hide At;
      AppendKeepsOrder(s, r, Node(s.nextId, At(s, t).job));
    } else {
      assert r.queue == s.queue && r.submitted == s.submitted && r.completed == s.completed && Done(r) == Done(s);
    }
  }

  lemma AppendKeepsOrder(s: State, r: State, n: Node)
    requires InOrder(s) && r.worker == s.worker && r.completed == s.completed
    requires r.queue == s.queue + [n] && r.submitted == s.submitted + [n]
    ensures InOrder(r)
  {
  }

  lemma CallerKeepsHead(s: State, t: Thread)
    requires HandIsHead(s) && CallerNext(s, t).Some?
    ensures HandIsHead(CallerNext(s, t).value)
  {
  }

  lemma CallerKeepsCount(s: State, t: Thread)
    requires Exclusive(s) && Balanced(s) && CallerNext(s, t).Some?
    ensures Balanced(CallerNext(s, t).value)
  {
    hide DelNode;
  }

  lemma CallerKeepsSignals(s: State, t: Thread)
    requires Exclusive(s) && Awake(s) && CallerNext(s, t).Some?
    ensures Awake(CallerNext(s, t).value)
  {
    hide DelNode;
  }

  lemma CallerKeepsReads(s: State, t: Thread)
    requires Exclusive(s) && Fresh(s) && CallerNext(s, t).Some?
    ensures Fresh(CallerNext(s, t).value)
  {
    hide DelNode;
  }

  lemma CallerKeeps(s: State, t: Thread)
    requires Inv(s) && CallerNext(s, t).Some?
    ensures Inv(CallerNext(s, t).value)
  {
    hide CallerNext, Exclusive, Numbered, Balanced, InOrder, HandIsHead, Awake, Fresh;
    CallerKeepsLock(s, t);
    CallerKeepsNumbers(s, t);
    CallerKeepsOrder(s, t);
    CallerKeepsHead(s, t);
    CallerKeepsCount(s, t);
    CallerKeepsSignals(s, t);
    CallerKeepsReads(s, t);
  }

  /** The node that the worker removes is still the first one, although the queue was unlocked while
      the job was done. */
  lemma HeadIsRemoved(s: State)
    requires Inv(s) && s.worker.Relocked?
    ensures s.queue != [] && s.queue[0] == s.worker.node && DelNode(s.queue, s.worker.node) == s.queue[1..]
  {
  }

  lemma WorkerKeepsLock(s: State)
    requires Exclusive(s) && WorkerNext(s).Some?
    ensures Exclusive(WorkerNext(s).value)
  {
    hide DelNode;
  }

  lemma WorkerKeepsQueue(s: State)
    requires Inv(s) && WorkerNext(s).Some?
    ensures var r := WorkerNext(s).value; Numbered(r) && InOrder(r) && HandIsHead(r) && Balanced(r)
  {
    if s.worker.Relocked? { HeadIsRemoved(s); }
    hide DelNode;
  }

  lemma WorkerKeepsOthers(s: State)
    requires Inv(s) && WorkerNext(s).Some?
    ensures var r := WorkerNext(s).value; Awake(r) && Fresh(r)
  {
    if s.worker.Relocked? { HeadIsRemoved(s); }
    hide DelNode, InOrder, Numbered;
  }

  lemma WorkerKeeps(s: State)
    requires Inv(s) && WorkerNext(s).Some?
    ensures Inv(WorkerNext(s).value)
  {
    hide WorkerNext, Exclusive, Numbered, Balanced, InOrder, HandIsHead, Awake, Fresh;
    WorkerKeepsLock(s);
    WorkerKeepsQueue(s);
    WorkerKeepsOthers(s);
  }

  /** The invariant holds in every interleaving. */
  lemma {:induction false} EveryInterleaving(threads: set<Thread>, schedule: seq<Action>)
    ensures Inv(Run(Init(threads), schedule))
  {
    hide Inv, CallerNext, WorkerNext;
    if schedule == [] {
      InitIsInv(threads);
    } else {
      EveryInterleaving(threads, schedule[..|schedule| - 1]);
      var r, a := Run(Init(threads), schedule[..|schedule| - 1]), schedule[|schedule| - 1];
      if Next(r, a).Some? { StepKeeps(r, a); }
    }
  }

  lemma EnterKeeps(s: State, t: Thread, at: CallerAt)
    requires Inv(s) && t in s.callers && At(s, t) == Idle && (at.Creating? || at.Asking?)
    ensures Inv(Go(s, t, at))
  {
    var r := Go(s, t, at);
    assert r.owner.Caller? ==> r.owner.t != t;
    hide Numbered;
    assert Numbered(r) by { SameNumbers(s, r); }
    assert Done(r) == Done(s) && Uncounted(r) == Uncounted(s);
  }

  lemma SameNumbers(s: State, r: State)
    requires Numbered(s) && r.submitted == s.submitted && r.nextId == s.nextId
    ensures Numbered(r)
  {
  }

  lemma WakeKeeps(s: State)
    requires Inv(s) && s.worker == Waiting
    ensures Inv(s.(worker := Woken))
  {
    var r := s.(worker := Woken);
    hide Numbered;
    assert Numbered(r) by { SameNumbers(s, r); }
    assert Done(r) == Done(s) && Uncounted(r) == Uncounted(s);
  }

  lemma StepKeeps(s: State, a: Action)
    requires Inv(s) && Next(s, a).Some?
    ensures Inv(Next(s, a).value)
  {
    match a
    case CallerStep(t) => hide Inv, CallerNext; CallerKeeps(s, t);
    case WorkerStep => hide Inv, WorkerNext; WorkerKeeps(s);
    case Create(t, job) => hide Inv; EnterKeeps(s, t, Creating(job));
    case Ask(t) => hide Inv; EnterKeeps(s, t, Asking);
    case SpuriousWake => hide Inv; WakeKeeps(s);
  }

  // ---------------------------------------------------------------- what callers may rely on

  /** While nobody holds the lock the counter is the length of the queue. */
  lemma PendingIsQueueLength(threads: set<Thread>, schedule: seq<Action>)
    ensures var s := Run(Init(threads), schedule); s.owner == Free ==> s.pending == |s.queue|
  {
    hide Run;
    EveryInterleaving(threads, schedule);
  }

  /** Jobs are done in the order of their submission, none of them twice, and none is left out. */
  lemma JobsCompleteInOrder(threads: set<Thread>, schedule: seq<Action>)
    ensures var s := Run(Init(threads), schedule);
      && s.completed <= s.submitted
      && (forall i, j :: 0 <= i < j < |s.completed| ==> s.completed[i] != s.completed[j])
      && (s.queue == [] ==> s.completed == s.submitted)
  {
    hide Run;
    EveryInterleaving(threads, schedule);
    var s := Run(Init(threads), schedule);
    forall i, j | 0 <= i < j < |s.completed| ensures s.completed[i] != s.completed[j] {
      assert s.completed[i] == s.submitted[i] && s.completed[j] == s.submitted[j];
    }
  }

  /** A reading of `n` pending jobs: all but the last `n` submitted jobs are done, and perhaps the
      first of these `n`. Zero means that every job submitted so far is done. */
  lemma PendingTellsWhatIsDone(threads: set<Thread>, schedule: seq<Action>, t: Thread)
    ensures var s := Run(Init(threads), schedule);
      At(s, t).Read? ==>
        var n := At(s, t).val;
        && 0 <= n && (|s.completed| == |s.submitted| - n || (n > 0 && |s.completed| == |s.submitted| - n + 1))
        && s.completed == s.submitted[..|s.completed|]
        && (n == 0 ==> s.completed == s.submitted)
  {
    hide Run;
    EveryInterleaving(threads, schedule);
  }

  /** Nothing submitted or done is ever taken back. */
  lemma {:induction false} HistoryGrows(s: State, schedule: seq<Action>)
    ensures s.submitted <= Run(s, schedule).submitted && s.completed <= Run(s, schedule).completed
  {
    hide Next;
    if schedule != [] {
      var r, a := Run(s, schedule[..|schedule| - 1]), schedule[|schedule| - 1];
      HistoryGrows(s, schedule[..|schedule| - 1]);
      if Next(r, a).Some? { StepGrows(r, a); }
    }
  }

  lemma StepGrows(s: State, a: Action)
    requires Next(s, a).Some?
    ensures s.submitted <= Next(s, a).value.submitted && s.completed <= Next(s, a).value.completed
  {
    hide DelNode;
  }

  // ---------------------------------------------------------------- what a call does

  /** Among the nodes from `n` on there is one for the job. */
  ghost predicate Has(nodes: seq<Node>, n: nat, job: Job) {
    exists i :: n <= i < |nodes| && nodes[i].job == job
  }

  /** In every interleaving a call that creates a job is still on its way to the queue or has put
      the job there. */
  lemma {:induction false} CallIsSubmitted(s: State, schedule: seq<Action>, t: Thread, job: Job)
    requires At(s, t) == Creating(job)
    ensures var r := Run(s, schedule);
      At(r, t) == Creating(job) || At(r, t) == Locked(job) || Has(r.submitted, |s.submitted|, job)
    decreases |schedule|
  {
    hide Next, At, Has;
    if schedule != [] {
      var front, a := schedule[..|schedule| - 1], schedule[|schedule| - 1];
      CallIsSubmitted(s, front, t, job);
      HistoryGrows(s, front);
      if Next(Run(s, front), a).Some? { CallMovesOn(Run(s, front), a, t, job, |s.submitted|); }
    }
  }

  lemma CallMovesOn(s: State, a: Action, t: Thread, job: Job, n: nat)
    requires Next(s, a).Some? && n <= |s.submitted|
    requires At(s, t) == Creating(job) || At(s, t) == Locked(job) || Has(s.submitted, n, job)
    ensures var r := Next(s, a).value; At(r, t) == Creating(job) || At(r, t) == Locked(job) || Has(r.submitted, n, job)
  {
    hide DelNode;
    StepGrows(s, a);
    var r := Next(s, a).value;
    if Has(s.submitted, n, job) {
      var i :| n <= i < |s.submitted| && s.submitted[i].job == job;
      assert r.submitted[i].job == job;
    } else if At(s, t) == Locked(job) && a == CallerStep(t) {
      assert r.submitted[|s.submitted|].job == job;
    }
  }

  /** A thread in a call is held up only by the lock. */
  lemma CallerCanStep(s: State, t: Thread)
    requires At(s, t) != Idle && (s.owner == Free || CallerHolds(At(s, t)))
    ensures CallerNext(s, t).Some?
  {
  }

  function CallerSteps(t: Thread, n: nat): (r: seq<Action>)
    ensures |r| == n
  {
    seq(n, _ => CallerStep(t))
  }

  lemma {:induction false} RunApart(s: State, a: Action, t: Thread, n: nat)
    requires Next(s, a).Some?
    ensures Run(s, [a] + CallerSteps(t, n)) == Run(Next(s, a).value, CallerSteps(t, n))
  {
    hide Next;
    if n == 0 {
      assert [a] + CallerSteps(t, 0) == [a] && [a][..0] == [];
    } else {
      assert ([a] + CallerSteps(t, n))[..n] == [a] + CallerSteps(t, n - 1);
      assert CallerSteps(t, n)[..n - 1] == CallerSteps(t, n - 1);
      RunApart(s, a, t, n - 1);
    }
  }

  lemma RunStep(s: State, t: Thread, n: nat)
    requires CallerNext(s, t).Some?
    ensures Run(s, CallerSteps(t, n + 1)) == Run(CallerNext(s, t).value, CallerSteps(t, n))
  {
    hide CallerNext, Run;
    assert CallerSteps(t, n + 1) == [CallerStep(t)] + CallerSteps(t, n);
    RunApart(s, CallerStep(t), t, n);
  }

  /** A call that is not disturbed appends its job, counts it and gives the lock back. */
  lemma CallSubmits(s: State, t: Thread, job: Job)
    requires s.owner == Free && t in s.callers && At(s, t) == Idle
    ensures var r, n := Run(s, [Create(t, job)] + CallerSteps(t, 5)), Node(s.nextId, job);
      && r.submitted == s.submitted + [n] && r.queue == s.queue + [n] && r.completed == s.completed
      && r.pending == s.pending + 1 && r.owner == Free && r.callers == s.callers && r.worker != Waiting
  {
    hide Run;
    RunApart(s, Create(t, job), t, 5);
    var a := Next(s, Create(t, job)).value;
    RunStep(a, t, 4);
    var b := CallerNext(a, t).value;
    RunStep(b, t, 3);
    var c := CallerNext(b, t).value;
    RunStep(c, t, 2);
    var d := CallerNext(c, t).value;
    RunStep(d, t, 1);
    var e := CallerNext(d, t).value;
    RunStep(e, t, 0);
    RunNothing(CallerNext(e, t).value, t);
  }

  /** A question that is not disturbed reads the length of the queue. */
  lemma AskReads(s: State, t: Thread)
    requires Inv(s) && s.owner == Free && t in s.callers && At(s, t) == Idle
    ensures At(Run(s, [Ask(t)] + CallerSteps(t, 2)), t) == Read(|s.queue|)
  {
    hide Run, Numbered, InOrder;
    RunApart(s, Ask(t), t, 2);
    var a := Next(s, Ask(t)).value;
    RunStep(a, t, 1);
    var b := CallerNext(a, t).value;
    RunStep(b, t, 0);
    RunNothing(CallerNext(b, t).value, t);
  }

  lemma RunNothing(s: State, t: Thread)
    ensures Run(s, CallerSteps(t, 0)) == s
  {
  }

  // ---------------------------------------------------------------- no job is forgotten

  /** As long as a job waits and no caller is in a critical section, the worker can go on: no wake-up
      is lost. */
  lemma WorkerCanStep(s: State)
    requires Inv(s) && !s.owner.Caller? && s.queue != []
    ensures WorkerNext(s).Some?
  {
  }

  function Rank(s: State): nat {
    8 * |s.queue| + match s.worker
      case Start => 7
      case Woken => 7
      case Deleted => 7
      case Top => 6
      case Picked(_) => 5
      case Processing(_) => 4
      case Processed(_) => 3
      case Relocked(_) => 2
      case Waiting => 0
  }

  lemma WorkerStepProgress(s: State)
    requires Inv(s) && !s.owner.Caller? && s.queue != []
    ensures WorkerNext(s).Some?
    ensures var r := WorkerNext(s).value; Rank(r) < Rank(s) && !r.owner.Caller? && r.submitted == s.submitted
  {
    hide DelNode;
    WorkerCanStep(s);
    if s.worker.Relocked? { HeadIsRemoved(s); }
  }

  function WorkerSteps(n: nat): (r: seq<Action>)
    ensures |r| == n
  {
    seq(n, _ => WorkerStep)
  }

  /** The worker alone gets everything done that was submitted. */
  lemma {:induction false} WorkerDrains(s: State) returns (n: nat)
    requires Inv(s) && !s.owner.Caller?
    ensures var r := Run(s, WorkerSteps(n)); r.submitted == s.submitted && r.completed == s.submitted && r.queue == []
    decreases Rank(s)
  {
    if s.queue == [] {
      n := 0;
      return;
    }
    hide Inv, WorkerNext, Rank;
    WorkerStepProgress(s);
    WorkerKeeps(s);
    var m := WorkerDrains(WorkerNext(s).value);
    n := m + 1;
    FirstStep(s, m);
  }

  lemma {:induction false} FirstStep(s: State, m: nat)
    requires WorkerNext(s).Some?
    ensures Run(s, WorkerSteps(m + 1)) == Run(WorkerNext(s).value, WorkerSteps(m))
  {
    hide WorkerNext;
    assert WorkerSteps(m + 1)[..m] == WorkerSteps(m);
    if m == 0 {
      assert Run(s, WorkerSteps(0)) == s;
    } else {
      assert WorkerSteps(m)[..m - 1] == WorkerSteps(m - 1);
      FirstStep(s, m - 1);
    }
  }
}
