/** Resolution of request-defined profiles: HTTP requests that probe the cache and queue behind a flight,
    detached leader tasks that compile under a one-permit semaphore, and clients that go away while waiting.
    A run is any sequence of the atomic steps below, so every interleaving is a run. */
module ProfileProtocol {
  import opened Basics
  import opened ProfileCache

  /** `serialize` turns a document into its cache key; `preloaded` are the documents of named profiles. */
  datatype Config = Config(capacity: nat, preloaded: set<Document>, serialize: Document -> Key)
  {
    /** The capacities the service accepts. */
    predicate Valid() { 1 <= capacity <= 16 }
  }

  /** What a flight produces: an engine, and whether this flight compiled it, or an error. */
  datatype CompileResult = Built(engine: Engine, compiled: bool) | Failed

  datatype CacheStatus = Preloaded | Hit | Miss

  datatype Reply = ReplyPreloaded | ReplyEngine(engine: Engine, status: CacheStatus) | ReplyError

  /** Where the request's own task stands. */
  datatype RequestPc = Probing | Queueing | Waiting | Cancelled | Answered(reply: Reply)

  /** Where the leader task that a request spawned stands. Between `Holding` and `Releasing` it owns the permit. */
  datatype TaskPc =
    | NoTask
    | Unspawned
    | Queued
    | Holding
    | Compiling
    | Compiled(engine: Engine)
    | Releasing(result: CompileResult)
    | Resolved(result: CompileResult)
    | Sending(result: CompileResult, rest: seq<RequestId>)
    | Gone(result: CompileResult)
  {
    /** The task has not yet taken its waiters. */
    predicate Live() { !NoTask? && !Sending? && !Gone? }

    predicate OwnsPermit() { Holding? || Compiling? || Compiled? || Releasing? }
  }

  /** A result sent to a waiter, and the request that led the flight it came from. */
  datatype Delivery = Delivery(flight: RequestId, result: CompileResult)

  /** A request and the task it leads, if any. `flight` records the leader it queued behind and `mail` every
      result ever sent to it. */
  datatype Request = Request(doc: Document, pc: RequestPc, flight: Option<RequestId>, task: TaskPc, mail: seq<Delivery>)

  /** `log` records the uses of cache entries, `builds` the leader of each successful compilation. */
  datatype State = State(
    requests: seq<Request>,
    entries: seq<Entry>,
    pending: map<Key, seq<RequestId>>,
    permit: Option<RequestId>,
    log: seq<Key>,
    builds: seq<RequestId>)

  datatype Step =
    | Arrive(doc: Document)
    | AnswerPreloaded(r: RequestId)
    | Probe(r: RequestId)
    | Enqueue(r: RequestId)
    | Spawn(r: RequestId)
    | Acquire(r: RequestId)
    | Reprobe(r: RequestId)
    | Compile(r: RequestId)
    | FailToCompile(r: RequestId)
    | Insert(r: RequestId)
    | Release(r: RequestId)
    | TakePending(r: RequestId)
    | Send(r: RequestId)
    | Finish(r: RequestId)
    | Receive(r: RequestId)
    | Cancel(r: RequestId)

  const Init := State([], [], map[], None, [], [])

  function KeyOf(c: Config, s: State, r: RequestId): Key
    requires r < |s.requests|
  {
    c.serialize(s.requests[r].doc)
  }

  /** Whether the step can happen now. A request can only be dropped where it waits. */
  predicate Enabled(c: Config, s: State, step: Step) {
    if step.Arrive? then true
    else if step.r >= |s.requests| then false
    else
      var q := s.requests[step.r];
      match step
      case AnswerPreloaded(_) => q.pc.Probing? && q.doc in c.preloaded
      case Probe(_) => q.pc.Probing? && q.doc !in c.preloaded
      case Enqueue(_) => q.pc.Queueing?
      case Spawn(_) => q.task.Unspawned?
      case Acquire(_) => q.task.Queued? && s.permit.None?
      case Reprobe(_) => q.task.Holding?
      case Compile(_) => q.task.Compiling?
      case FailToCompile(_) => q.task.Compiling?
      case Insert(_) => q.task.Compiled?
      case Release(_) => q.task.Releasing?
      case TakePending(_) => q.task.Resolved?
      case Send(_) => q.task.Sending? && q.task.rest != [] && q.task.rest[0] < |s.requests|
      case Finish(_) => q.task.Sending? && q.task.rest == []
      case Receive(_) => q.pc.Waiting? && !q.task.Unspawned? && q.mail != []
      case Cancel(_) => q.pc.Waiting? && !q.task.Unspawned?
  }

  function AtPc(s: State, r: RequestId, pc: RequestPc): State
    requires r < |s.requests|
  {
    s.(requests := s.requests[r := s.requests[r].(pc := pc)])
  }

  function AtTask(s: State, r: RequestId, task: TaskPc): State
    requires r < |s.requests|
  {
    s.(requests := s.requests[r := s.requests[r].(task := task)])
  }

  /** How the waiting request answers: only the leader of a flight that compiled reports a miss. */
  function ReplyTo(leader: bool, result: CompileResult): Reply {
    match result
    case Failed => ReplyError
    case Built(engine, compiled) => ReplyEngine(engine, if leader && compiled then Miss else Hit)
  }

  function Apply(c: Config, s: State, step: Step): State
    requires Enabled(c, s, step)
  {
    match step
    case Arrive(doc) => s.(requests := s.requests + [Request(doc, Probing, None, NoTask, [])])
    case AnswerPreloaded(r) => AtPc(s, r, Answered(ReplyPreloaded))
    case Probe(r) =>
      var key := KeyOf(c, s, r);
      (match Lookup(s.entries, key)
       case Some(engine) =>
         AtPc(s, r, Answered(ReplyEngine(engine, Hit))).(entries := Touched(s.entries, key), log := s.log + [key])
       case None => AtPc(s, r, Queueing))
    case Enqueue(r) =>
      var key := KeyOf(c, s, r);
      var waiters := WaitersOf(s.pending, key);
      var leader := waiters == [];
      var q := s.requests[r].(pc := Waiting,
                              flight := Some(if leader then r else waiters[0]),
                              task := if leader then Unspawned else NoTask);
      s.(requests := s.requests[r := q], pending := s.pending[key := waiters + [r]])
    case Spawn(r) => AtTask(s, r, Queued)
    case Acquire(r) => AtTask(s, r, Holding).(permit := Some(r))
    case Reprobe(r) =>
      var key := KeyOf(c, s, r);
      (match Lookup(s.entries, key)
       case Some(engine) =>
         AtTask(s, r, Releasing(Built(engine, false))).(entries := Touched(s.entries, key), log := s.log + [key])
       case None => AtTask(s, r, Compiling))
    case Compile(r) =>
      AtTask(s, r, Compiled(Engine(s.requests[r].doc, |s.builds|))).(builds := s.builds + [r])
    case FailToCompile(r) => AtTask(s, r, Releasing(Failed))
    case Insert(r) =>
      var engine, key := s.requests[r].task.engine, KeyOf(c, s, r);
      AtTask(s, r, Releasing(Built(engine, true)))
        .(entries := Pushed(c.capacity, s.entries, Entry(key, engine)), log := s.log + [key])
    case Release(r) => AtTask(s, r, Resolved(s.requests[r].task.result)).(permit := None)
    case TakePending(r) =>
      var key := KeyOf(c, s, r);
      AtTask(s, r, Sending(s.requests[r].task.result, WaitersOf(s.pending, key))).(pending := s.pending - {key})
    case Send(r) =>
      var task := s.requests[r].task;
      var w := task.rest[0];
      var sent := AtTask(s, r, task.(rest := task.rest[1..]));
      var waiter := sent.requests[w];
      sent.(requests := sent.requests[w := waiter.(mail := waiter.mail + [Delivery(r, task.result)])])
    case Finish(r) => AtTask(s, r, Gone(s.requests[r].task.result))
    case Receive(r) =>
      var q := s.requests[r];
      AtPc(s, r, Answered(ReplyTo(q.flight == Some(r), q.mail[0].result)))
    case Cancel(r) => AtPc(s, r, Cancelled)
  }

  /** The steps can be taken one after the other from `s`. */
  predicate Runs(c: Config, s: State, steps: seq<Step>)
    decreases |steps|
  {
    steps == [] || (Enabled(c, s, steps[0]) && Runs(c, Apply(c, s, steps[0]), steps[1..]))
  }

  function After(c: Config, s: State, steps: seq<Step>): State
    requires Runs(c, s, steps)
    decreases |steps|
  {
    if steps == [] then s else After(c, Apply(c, s, steps[0]), steps[1..])
  }

  // ----- the invariant -----

  /** The request's own fields agree with how far it has come. */
  predicate RequestOk(q: Request, r: RequestId) {
    && (q.pc.Probing? || q.pc.Queueing? ==> q.flight.None?)
    && (q.pc.Waiting? || q.pc.Cancelled? ==> q.flight.Some?)
    && (q.task.NoTask? <==> q.flight != Some(r))
    && (q.flight.None? ==> q.mail == [])
    && (q.pc.Answered? && q.flight.Some? ==>
          q.mail != [] && q.pc.reply == ReplyTo(q.flight == Some(r), q.mail[0].result))
    && (q.pc.Answered? && q.pc.reply.ReplyEngine? && q.pc.reply.status.Miss? ==> q.flight.Some?)
  }

  ghost predicate RequestsOk(s: State) {
    forall r :: 0 <= r < |s.requests| ==> RequestOk(s.requests[r], r)
  }

  /** The permit is out exactly when some task owns it, and that task is the one recorded. */
  ghost predicate PermitOk(s: State) {
    && (s.permit.Some? ==> s.permit.value < |s.requests| && s.requests[s.permit.value].task.OwnsPermit())
    && forall r :: 0 <= r < |s.requests| && s.requests[r].task.OwnsPermit() ==> s.permit == Some(r)
  }

  /** Each queue in `pending` is headed by its flight's leader, whose task is live; its members have been
      sent nothing yet. */
  ghost predicate QueueOk(c: Config, s: State, key: Key, queue: seq<RequestId>) {
    && queue != []
    && Distinct(queue)
    && (forall i :: 0 <= i < |queue| ==>
          && queue[i] < |s.requests|
          && KeyOf(c, s, queue[i]) == key
          && s.requests[queue[i]].flight == Some(queue[0])
          && s.requests[queue[i]].mail == [])
    && s.requests[queue[0]].task.Live()
  }

  ghost predicate PendingOk(c: Config, s: State) {
    forall key :: key in s.pending ==> QueueOk(c, s, key, s.pending[key])
  }

  /** A live task heads the queue of its key. */
  ghost predicate LeadersOk(c: Config, s: State) {
    forall r :: 0 <= r < |s.requests| && s.requests[r].task.Live() ==>
      KeyOf(c, s, r) in s.pending && s.pending[KeyOf(c, s, r)] != [] && s.pending[KeyOf(c, s, r)][0] == r
  }

  /** A queued request has been sent nothing while its flight is live, and afterwards has been sent the
      flight's result exactly once or is next in line for it. */
  ghost predicate WaiterOk(c: Config, s: State, w: RequestId, t: RequestId)
    requires w < |s.requests|
  {
    && t < |s.requests|
    && KeyOf(c, s, t) == KeyOf(c, s, w)
    && var task, mail := s.requests[t].task, s.requests[w].mail;
       match task
       case NoTask => false
       case Sending(result, rest) => if w in rest then mail == [] else mail == [Delivery(t, result)]
       case Gone(result) => mail == [Delivery(t, result)]
       case _ => mail == [] && KeyOf(c, s, t) in s.pending && w in s.pending[KeyOf(c, s, t)]
  }

  ghost predicate WaitersOk(c: Config, s: State) {
    forall w :: 0 <= w < |s.requests| && s.requests[w].flight.Some? ==> WaiterOk(c, s, w, s.requests[w].flight.value)
  }

  /** The waiters a task still has to answer all queued behind it. */
  ghost predicate SendingOk(s: State) {
    forall t :: 0 <= t < |s.requests| && s.requests[t].task.Sending? ==>
      var rest := s.requests[t].task.rest;
      && Distinct(rest)
      && forall i :: 0 <= i < |rest| ==> rest[i] < |s.requests| && s.requests[rest[i]].flight == Some(t)
  }

  predicate EngineOk(c: Config, s: State, engine: Engine, key: Key) {
    c.serialize(engine.source) == key && engine.build < |s.builds|
  }

  /** The cache holds exactly the most recently used keys, each with an engine built from a document with that key. */
  ghost predicate CacheOk(c: Config, s: State) {
    && Keys(s.entries) == MostRecent(s.log, c.capacity)
    && forall i :: 0 <= i < |s.entries| ==> EngineOk(c, s, s.entries[i].engine, s.entries[i].key)
  }

  /** While a task compiles or is about to insert, its key is not cached. */
  ghost predicate AbsentOk(c: Config, s: State) {
    forall r :: 0 <= r < |s.requests| && (s.requests[r].task.Compiling? || s.requests[r].task.Compiled?) ==>
      KeyOf(c, s, r) !in Keys(s.entries)
  }

  predicate ResultOk(c: Config, s: State, r: RequestId, result: CompileResult)
    requires r < |s.requests|
  {
    result.Built? ==>
      EngineOk(c, s, result.engine, KeyOf(c, s, r)) && (result.compiled ==> s.builds[result.engine.build] == r)
  }

  /** A task's engine has the task's key, and one that it compiled is recorded as its build. */
  predicate TaskOk(c: Config, s: State, r: RequestId)
    requires r < |s.requests|
  {
    match s.requests[r].task
    case Compiled(engine) => ResultOk(c, s, r, Built(engine, true))
    case Releasing(result) => ResultOk(c, s, r, result)
    case Resolved(result) => ResultOk(c, s, r, result)
    case Sending(result, _) => ResultOk(c, s, r, result)
    case Gone(result) => ResultOk(c, s, r, result)
    case _ => true
  }

  ghost predicate TasksOk(c: Config, s: State) {
    forall r :: 0 <= r < |s.requests| ==> TaskOk(c, s, r)
  }

  /** An engine given to a client was built from a document with the client's own key. */
  ghost predicate RepliesOk(c: Config, s: State) {
    forall r :: 0 <= r < |s.requests| && s.requests[r].pc.Answered? && s.requests[r].pc.reply.ReplyEngine? ==>
      EngineOk(c, s, s.requests[r].pc.reply.engine, KeyOf(c, s, r))
  }

  ghost predicate Inv(c: Config, s: State) {
    && RequestsOk(s)
    && PermitOk(s)
    && PendingOk(c, s)
    && LeadersOk(c, s)
    && WaitersOk(c, s)
    && SendingOk(s)
    && CacheOk(c, s)
    && AbsentOk(c, s)
    && TasksOk(c, s)
    && RepliesOk(c, s)
  }

  // ----- every step keeps the invariant -----

  /** The flights, their waiters and what those were sent are the same. */
  ghost predicate SameFlights(s: State, s': State) {
    && s'.pending == s.pending
    && |s'.requests| == |s.requests|
    && forall r :: 0 <= r < |s.requests| ==>
         var q, q' := s.requests[r], s'.requests[r];
         && q'.doc == q.doc && q'.flight == q.flight && q'.mail == q.mail
         && q'.task.NoTask? == q.task.NoTask?
         && if q.task.Live() then q'.task.Live() else q'.task == q.task
  }

  ghost predicate FlightsOk(c: Config, s: State) {
    PendingOk(c, s) && LeadersOk(c, s) && WaitersOk(c, s) && SendingOk(s)
  }

  lemma SameFlightsOk(c: Config, s: State, s': State)
    requires SameFlights(s, s') && FlightsOk(c, s)
    ensures FlightsOk(c, s')
  {
    forall key | key in s'.pending ensures QueueOk(c, s', key, s'.pending[key]) {
      assert QueueOk(c, s, key, s.pending[key]);
    }
    forall w | 0 <= w < |s'.requests| && s'.requests[w].flight.Some?
      ensures WaiterOk(c, s', w, s'.requests[w].flight.value)
    {
      assert WaiterOk(c, s, w, s.requests[w].flight.value);
    }
  }

  predicate LeavesFlights(step: Step) {
    !(step.Arrive? || step.Enqueue? || step.TakePending? || step.Send? || step.Finish?)
  }

  /** Only the stepping request changes, and of it only how far it and its task have come. */
  lemma StepMovesOne(c: Config, s: State, step: Step)
    requires RequestsOk(s) && Enabled(c, s, step) && LeavesFlights(step)
    ensures var s', q, q' := Apply(c, s, step), s.requests[step.r], Apply(c, s, step).requests[step.r];
      && s'.pending == s.pending && s'.requests == s.requests[step.r := q']
      && q' == q.(pc := q'.pc, task := q'.task)
      && q'.task.NoTask? == q.task.NoTask? && if q.task.Live() then q'.task.Live() else q'.task == q.task
  {
  }

  lemma StepLeavesFlights(c: Config, s: State, step: Step)
    requires RequestsOk(s) && Enabled(c, s, step) && LeavesFlights(step)
    ensures SameFlights(s, Apply(c, s, step))
  {
    StepMovesOne(c, s, step);
  }

  lemma ArriveKeepsFlights(c: Config, s: State, step: Step)
    requires RequestsOk(s) && FlightsOk(c, s) && Enabled(c, s, step) && step.Arrive?
    ensures FlightsOk(c, Apply(c, s, step))
  {
    var s' := Apply(c, s, step);
    forall key | key in s'.pending ensures QueueOk(c, s', key, s'.pending[key]) {
      assert QueueOk(c, s, key, s.pending[key]);
    }
    forall w | 0 <= w < |s'.requests| && s'.requests[w].flight.Some?
      ensures WaiterOk(c, s', w, s'.requests[w].flight.value)
    {
      assert WaiterOk(c, s, w, s.requests[w].flight.value);
    }
  }

  lemma EnqueueKeepsPending(c: Config, s: State, r: RequestId)
    requires RequestsOk(s) && FlightsOk(c, s) && Enabled(c, s, Enqueue(r))
    ensures PendingOk(c, Apply(c, s, Enqueue(r))) && LeadersOk(c, Apply(c, s, Enqueue(r)))
  {
    var s', mine := Apply(c, s, Enqueue(r)), KeyOf(c, s, r);
    assert RequestOk(s.requests[r], r);
    forall key | key in s'.pending ensures QueueOk(c, s', key, s'.pending[key]) {
      if key in s.pending {
        assert QueueOk(c, s, key, s.pending[key]);
        assert forall i :: 0 <= i < |s.pending[key]| ==> s.pending[key][i] != r;
      }
    }
  }

  lemma EnqueueKeepsWaiters(c: Config, s: State, r: RequestId)
    requires RequestsOk(s) && FlightsOk(c, s) && Enabled(c, s, Enqueue(r))
    ensures WaitersOk(c, Apply(c, s, Enqueue(r))) && SendingOk(Apply(c, s, Enqueue(r)))
  {
    var s', mine := Apply(c, s, Enqueue(r)), KeyOf(c, s, r);
    assert RequestOk(s.requests[r], r);
    if mine in s.pending { assert QueueOk(c, s, mine, s.pending[mine]); }
    forall w | 0 <= w < |s'.requests| && s'.requests[w].flight.Some?
      ensures WaiterOk(c, s', w, s'.requests[w].flight.value)
    {
      if w != r {
        var t := s.requests[w].flight.value;
        assert WaiterOk(c, s, w, t);
        assert t != r;
      }
    }
  }

  lemma TakePendingKeepsPending(c: Config, s: State, r: RequestId)
    requires RequestsOk(s) && FlightsOk(c, s) && Enabled(c, s, TakePending(r))
    ensures PendingOk(c, Apply(c, s, TakePending(r))) && LeadersOk(c, Apply(c, s, TakePending(r)))
  {
    var s', mine := Apply(c, s, TakePending(r)), KeyOf(c, s, r);
    assert s.requests[r].task.Live();
    forall key | key in s'.pending ensures QueueOk(c, s', key, s'.pending[key]) {
      assert QueueOk(c, s, key, s.pending[key]);
      assert s.pending[key][0] != r;
    }
  }

  lemma TakePendingKeepsWaiters(c: Config, s: State, r: RequestId)
    requires RequestsOk(s) && FlightsOk(c, s) && Enabled(c, s, TakePending(r))
    ensures WaitersOk(c, Apply(c, s, TakePending(r))) && SendingOk(Apply(c, s, TakePending(r)))
  {
    var s', mine := Apply(c, s, TakePending(r)), KeyOf(c, s, r);
    assert s.requests[r].task.Live() && mine in s.pending;
    assert QueueOk(c, s, mine, s.pending[mine]);
    forall w | 0 <= w < |s'.requests| && s'.requests[w].flight.Some?
      ensures WaiterOk(c, s', w, s'.requests[w].flight.value)
    {
      var t := s.requests[w].flight.value;
      assert WaiterOk(c, s, w, t);
      if t != r && s.requests[t].task.Live() {
        assert s.pending[KeyOf(c, s, t)][0] == t;
      }
    }
  }

  lemma SendKeepsPending(c: Config, s: State, r: RequestId)
    requires RequestsOk(s) && FlightsOk(c, s) && Enabled(c, s, Send(r))
    ensures PendingOk(c, Apply(c, s, Send(r))) && LeadersOk(c, Apply(c, s, Send(r)))
  {
    var s', first := Apply(c, s, Send(r)), s.requests[r].task.rest[0];
    assert s.requests[first].flight == Some(r);
    forall key | key in s'.pending ensures QueueOk(c, s', key, s'.pending[key]) {
      assert QueueOk(c, s, key, s.pending[key]);
      assert s.pending[key][0] != r;
    }
  }

  lemma SendEffect(c: Config, s: State, r: RequestId)
    requires RequestsOk(s) && FlightsOk(c, s) && Enabled(c, s, Send(r))
    ensures var s', task := Apply(c, s, Send(r)), s.requests[r].task;
      && s'.pending == s.pending && |s'.requests| == |s.requests|
      && s'.requests[r].task == Sending(task.result, task.rest[1..])
      && s'.requests[task.rest[0]].mail == [Delivery(r, task.result)]
      && forall w :: 0 <= w < |s.requests| ==>
           && s'.requests[w].doc == s.requests[w].doc && s'.requests[w].flight == s.requests[w].flight
           && (w != r ==> s'.requests[w].task == s.requests[w].task)
           && (w != task.rest[0] ==> s'.requests[w].mail == s.requests[w].mail)
  {
    var first := s.requests[r].task.rest[0];
    assert s.requests[first].flight == Some(r);
    assert WaiterOk(c, s, first, r);
  }

  lemma SendKeepsWaiter(c: Config, s: State, r: RequestId, w: RequestId)
    requires RequestsOk(s) && FlightsOk(c, s) && Enabled(c, s, Send(r))
    requires w < |s.requests| && s.requests[w].flight.Some?
    ensures var s' := Apply(c, s, Send(r));
      w < |s'.requests| && s'.requests[w].flight == s.requests[w].flight
      && WaiterOk(c, s', w, s.requests[w].flight.value)
  {
    var rest, t := s.requests[r].task.rest, s.requests[w].flight.value;
    SendEffect(c, s, r);
    assert WaiterOk(c, s, w, t);
    assert s.requests[rest[0]].flight == Some(r);
    assert rest == [rest[0]] + rest[1..] && rest[0] !in rest[1..];
  }

  lemma SendKeepsSending(c: Config, s: State, r: RequestId)
    requires RequestsOk(s) && FlightsOk(c, s) && Enabled(c, s, Send(r))
    ensures SendingOk(Apply(c, s, Send(r)))
  {
    SendEffect(c, s, r);
  }

  lemma SendKeepsWaiters(c: Config, s: State, r: RequestId)
    requires RequestsOk(s) && FlightsOk(c, s) && Enabled(c, s, Send(r))
    ensures WaitersOk(c, Apply(c, s, Send(r))) && SendingOk(Apply(c, s, Send(r)))
  {
    var s' := Apply(c, s, Send(r));
    SendEffect(c, s, r);
    SendKeepsSending(c, s, r);
    forall w | 0 <= w < |s'.requests| && s'.requests[w].flight.Some?
      ensures WaiterOk(c, s', w, s'.requests[w].flight.value)
    {
      SendKeepsWaiter(c, s, r, w);
    }
  }

  lemma FinishKeepsPending(c: Config, s: State, r: RequestId)
    requires RequestsOk(s) && FlightsOk(c, s) && Enabled(c, s, Finish(r))
    ensures PendingOk(c, Apply(c, s, Finish(r))) && LeadersOk(c, Apply(c, s, Finish(r)))
  {
    var s' := Apply(c, s, Finish(r));
    forall key | key in s'.pending ensures QueueOk(c, s', key, s'.pending[key]) {
      assert QueueOk(c, s, key, s.pending[key]);
      assert s.pending[key][0] != r;
    }
  }

  lemma FinishKeepsFlights(c: Config, s: State, r: RequestId)
    requires RequestsOk(s) && FlightsOk(c, s) && Enabled(c, s, Finish(r))
    ensures FlightsOk(c, Apply(c, s, Finish(r)))
  {
    var s' := Apply(c, s, Finish(r));
    FinishKeepsPending(c, s, r);
    forall w | 0 <= w < |s'.requests| && s'.requests[w].flight.Some?
      ensures WaiterOk(c, s', w, s'.requests[w].flight.value)
    {
      assert WaiterOk(c, s, w, s.requests[w].flight.value);
    }
  }

  lemma SendKeepsRequests(c: Config, s: State, r: RequestId)
    requires RequestsOk(s) && SendingOk(s) && Enabled(c, s, Send(r))
    ensures RequestsOk(Apply(c, s, Send(r)))
  {
    var s', first := Apply(c, s, Send(r)), s.requests[r].task.rest[0];
    assert s.requests[first].flight == Some(r) && s'.requests[r].task.Sending?;
    forall w | 0 <= w < |s'.requests| ensures RequestOk(s'.requests[w], w) {
      assert RequestOk(s.requests[w], w);
      assert s'.requests[w].flight == s.requests[w].flight;
      assert s'.requests[w].task.NoTask? <==> s.requests[w].task.NoTask? by {
        assert if w == r then s'.requests[w].task.Sending? else s'.requests[w].task == s.requests[w].task;
      }
    }
  }

  lemma EnqueueKeepsRequests(c: Config, s: State, r: RequestId)
    requires RequestsOk(s) && PendingOk(c, s) && Enabled(c, s, Enqueue(r))
    ensures RequestsOk(Apply(c, s, Enqueue(r)))
  {
    var s', key := Apply(c, s, Enqueue(r)), KeyOf(c, s, r);
    if key in s.pending { assert QueueOk(c, s, key, s.pending[key]); }
    forall w | 0 <= w < |s'.requests| ensures RequestOk(s'.requests[w], w) {
      assert RequestOk(s.requests[w], w);
    }
  }

  lemma StepKeepsRequests(c: Config, s: State, step: Step)
    requires RequestsOk(s) && PendingOk(c, s) && SendingOk(s) && Enabled(c, s, step)
    ensures RequestsOk(Apply(c, s, step))
  {
    if step.Enqueue? {
      EnqueueKeepsRequests(c, s, step.r);
    } else if step.Send? {
      SendKeepsRequests(c, s, step.r);
    } else {
      var s' := Apply(c, s, step);
      forall w | 0 <= w < |s'.requests| ensures RequestOk(s'.requests[w], w) {
        assert w < |s.requests| ==> RequestOk(s.requests[w], w);
      }
    }
  }

  lemma StepKeepsPermit(c: Config, s: State, step: Step)
    requires RequestsOk(s) && PermitOk(s) && Enabled(c, s, step)
    ensures PermitOk(Apply(c, s, step))
  {
    var s' := Apply(c, s, step);
    forall r | 0 <= r < |s'.requests| && s'.requests[r].task.OwnsPermit() ensures s'.permit == Some(r) {
      if r < |s.requests| {
        assert s.requests[r].task.OwnsPermit() ==> s.permit == Some(r);
      }
    }
  }

  lemma TouchedEntries(entries: seq<Entry>, key: Key)
    ensures forall e :: e in Touched(entries, key) <==> e in entries
    ensures forall k :: k in Keys(Touched(entries, key)) <==> k in Keys(entries)
  {
    var i := Position(entries, key);
    if i < |entries| {
      assert entries == entries[..i] + [entries[i]] + entries[i + 1..];
    }
    var touched := Touched(entries, key);
    forall k ensures k in Keys(touched) <==> k in Keys(entries) {
      if k in Keys(touched) {
        var j :| 0 <= j < |touched| && touched[j].key == k;
        assert touched[j] in entries;
        var j' :| 0 <= j' < |entries| && entries[j'] == touched[j];
        assert Keys(entries)[j'] == k;
      }
      if k in Keys(entries) {
        var j :| 0 <= j < |entries| && entries[j].key == k;
        assert entries[j] in touched;
        var j' :| 0 <= j' < |touched| && touched[j'] == entries[j];
        assert Keys(touched)[j'] == k;
      }
    }
  }

  /** A probe, whether it hits or misses, keeps the cache exact and its keys the same. */
  lemma TouchKeepsCache(c: Config, s: State, s': State, key: Key)
    requires CacheOk(c, s) && Position(s.entries, key) < |s.entries|
    requires s'.entries == Touched(s.entries, key) && s'.log == s.log + [key] && s'.builds == s.builds
    ensures CacheOk(c, s')
  {
    TouchedRefines(s.log, c.capacity, s.entries, key);
    TouchedEntries(s.entries, key);
    forall i | 0 <= i < |s'.entries| ensures EngineOk(c, s', s'.entries[i].engine, s'.entries[i].key) {
      assert s'.entries[i] in s.entries;
    }
  }

  lemma InsertKeepsCache(c: Config, s: State, r: RequestId)
    requires c.Valid() && CacheOk(c, s) && AbsentOk(c, s) && TasksOk(c, s) && Enabled(c, s, Insert(r))
    ensures CacheOk(c, Apply(c, s, Insert(r)))
  {
    assert TaskOk(c, s, r);
    PushedRefines(s.log, c.capacity, s.entries, Entry(KeyOf(c, s, r), s.requests[r].task.engine));
  }

  lemma StepKeepsCache(c: Config, s: State, step: Step)
    requires c.Valid() && CacheOk(c, s) && AbsentOk(c, s) && TasksOk(c, s) && Enabled(c, s, step)
    ensures CacheOk(c, Apply(c, s, step))
  {
    var s' := Apply(c, s, step);
    if step.Insert? {
      InsertKeepsCache(c, s, step.r);
    } else if step.Probe? || step.Reprobe? {
      var key := KeyOf(c, s, step.r);
      if Position(s.entries, key) < |s.entries| {
        TouchKeepsCache(c, s, s', key);
      }
    } else {
      assert s'.entries == s.entries && s'.log == s.log && |s.builds| <= |s'.builds|;
    }
  }

  lemma InsertKeepsAbsent(c: Config, s: State, r: RequestId)
    requires PermitOk(s) && AbsentOk(c, s) && Enabled(c, s, Insert(r))
    ensures AbsentOk(c, Apply(c, s, Insert(r)))
  {
    var s' := Apply(c, s, Insert(r));
    assert s.permit == Some(r);
    forall t | 0 <= t < |s'.requests| && (s'.requests[t].task.Compiling? || s'.requests[t].task.Compiled?)
      ensures false
    {
      assert s.requests[t].task.OwnsPermit();
    }
  }

  lemma ProbeKeepsAbsent(c: Config, s: State, r: RequestId)
    requires AbsentOk(c, s) && Enabled(c, s, Probe(r))
    ensures AbsentOk(c, Apply(c, s, Probe(r)))
  {
    TouchedEntries(s.entries, KeyOf(c, s, r));
  }

  lemma ReprobeKeepsAbsent(c: Config, s: State, r: RequestId)
    requires AbsentOk(c, s) && Enabled(c, s, Reprobe(r))
    ensures AbsentOk(c, Apply(c, s, Reprobe(r)))
  {
    TouchedEntries(s.entries, KeyOf(c, s, r));
  }

  /** The other steps leave the cache alone and start no compilation. */
  lemma StepLeavesCache(c: Config, s: State, step: Step)
    requires AbsentOk(c, s) && Enabled(c, s, step) && !step.Insert? && !step.Probe? && !step.Reprobe?
    ensures AbsentOk(c, Apply(c, s, step))
  {}

  lemma StepKeepsAbsent(c: Config, s: State, step: Step)
    requires PermitOk(s) && AbsentOk(c, s) && Enabled(c, s, step)
    ensures AbsentOk(c, Apply(c, s, step))
  {
    if step.Insert? {
      InsertKeepsAbsent(c, s, step.r);
    } else if step.Probe? {
      ProbeKeepsAbsent(c, s, step.r);
    } else if step.Reprobe? {
      ReprobeKeepsAbsent(c, s, step.r);
    } else {
      StepLeavesCache(c, s, step);
    }
  }

  lemma ReprobeTaskOk(c: Config, s: State, r: RequestId)
    requires CacheOk(c, s) && Enabled(c, s, Reprobe(r))
    ensures TaskOk(c, Apply(c, s, Reprobe(r)), r)
  {}

  lemma OwnTaskOk(c: Config, s: State, step: Step)
    requires TasksOk(c, s) && Enabled(c, s, step) && !step.Arrive? && !step.Reprobe?
    ensures TaskOk(c, Apply(c, s, step), step.r)
  {
    assert TaskOk(c, s, step.r);
  }

  lemma StepKeepsTasks(c: Config, s: State, step: Step)
    requires CacheOk(c, s) && TasksOk(c, s) && Enabled(c, s, step)
    ensures TasksOk(c, Apply(c, s, step))
  {
    var s' := Apply(c, s, step);
    assert s.builds <= s'.builds;
    forall r | 0 <= r < |s'.requests| ensures TaskOk(c, s', r) {
      if r == |s.requests| {
      } else if !step.Arrive? && r == step.r {
        if step.Reprobe? { ReprobeTaskOk(c, s, r); } else { OwnTaskOk(c, s, step); }
      } else {
        assert TaskOk(c, s, r);
        assert s'.requests[r].task == s.requests[r].task && s'.requests[r].doc == s.requests[r].doc;
      }
    }
  }

  lemma ReceiveKeepsReplies(c: Config, s: State, r: RequestId)
    requires RequestsOk(s) && WaitersOk(c, s) && TasksOk(c, s) && RepliesOk(c, s) && Enabled(c, s, Receive(r))
    ensures RepliesOk(c, Apply(c, s, Receive(r)))
  {
    assert RequestOk(s.requests[r], r);
    var t := s.requests[r].flight.value;
    assert WaiterOk(c, s, r, t);
    assert TaskOk(c, s, t);
  }

  lemma ProbeKeepsReplies(c: Config, s: State, r: RequestId)
    requires CacheOk(c, s) && RepliesOk(c, s) && Enabled(c, s, Probe(r))
    ensures RepliesOk(c, Apply(c, s, Probe(r)))
  {
    var s' := Apply(c, s, Probe(r));
    forall w | 0 <= w < |s.requests| && w != r ensures s'.requests[w] == s.requests[w] {}
  }

  /** The other steps give nobody an engine. */
  lemma StepGivesNoEngine(c: Config, s: State, step: Step)
    requires Enabled(c, s, step) && !step.Receive? && !step.Probe?
    ensures var s' := Apply(c, s, step);
      && s.builds <= s'.builds && |s.requests| <= |s'.requests|
      && (forall r :: |s.requests| <= r < |s'.requests| ==> !s'.requests[r].pc.Answered?)
      && forall r :: 0 <= r < |s.requests| ==>
           && s'.requests[r].doc == s.requests[r].doc
           && (s'.requests[r].pc == s.requests[r].pc || !s'.requests[r].pc.Answered?
               || s'.requests[r].pc.reply.ReplyPreloaded?)
  {}

  lemma StepKeepsReplies(c: Config, s: State, step: Step)
    requires RequestsOk(s) && WaitersOk(c, s) && CacheOk(c, s) && TasksOk(c, s) && RepliesOk(c, s)
    requires Enabled(c, s, step)
    ensures RepliesOk(c, Apply(c, s, step))
  {
    if step.Receive? {
      ReceiveKeepsReplies(c, s, step.r);
    } else if step.Probe? {
      ProbeKeepsReplies(c, s, step.r);
    } else {
      StepGivesNoEngine(c, s, step);
    }
  }

  lemma StepKeepsInv(c: Config, s: State, step: Step)
    requires c.Valid() && Inv(c, s) && Enabled(c, s, step)
    ensures Inv(c, Apply(c, s, step))
  {
    StepKeepsRequests(c, s, step);
    StepKeepsPermit(c, s, step);
    StepKeepsCache(c, s, step);
    StepKeepsAbsent(c, s, step);
    StepKeepsTasks(c, s, step);
    StepKeepsReplies(c, s, step);
    match step
    case Arrive(_) => ArriveKeepsFlights(c, s, step);
    case Enqueue(r) => EnqueueKeepsPending(c, s, r); EnqueueKeepsWaiters(c, s, r);
    case TakePending(r) => TakePendingKeepsPending(c, s, r); TakePendingKeepsWaiters(c, s, r);
    case Send(r) => SendKeepsPending(c, s, r); SendKeepsWaiters(c, s, r);
    case Finish(r) => FinishKeepsFlights(c, s, r);
    case _ =>
      StepLeavesFlights(c, s, step);
      SameFlightsOk(c, s, Apply(c, s, step));
  }

  lemma {:induction false} RunKeepsInv(c: Config, s: State, steps: seq<Step>)
    requires c.Valid() && Inv(c, s) && Runs(c, s, steps)
    ensures Inv(c, After(c, s, steps))
    decreases |steps|
  {
    if steps != [] {
      StepKeepsInv(c, s, steps[0]);
      RunKeepsInv(c, Apply(c, s, steps[0]), steps[1..]);
    }
  }

  /** Some interleaving of some requests leads to `s`. */
  ghost predicate Reachable(c: Config, s: State) {
    exists steps :: Runs(c, Init, steps) && After(c, Init, steps) == s
  }

  lemma ReachableInv(c: Config, s: State)
    requires c.Valid() && Reachable(c, s)
    ensures Inv(c, s)
  {
    var steps :| Runs(c, Init, steps) && After(c, Init, steps) == s;
    assert Keys([]) == MostRecent([], c.capacity);
    RunKeepsInv(c, Init, steps);
  }
}
