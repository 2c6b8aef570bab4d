/** What the resolution of request profiles guarantees in every reachable state and over every run. */
module ProfileTheorems {
  import opened Basics
  import opened ProfileCache
  import opened ProfileProtocol

  // ----- what holds in every reachable state -----

  ghost predicate LeadsLive(c: Config, s: State, key: Key, r: RequestId) {
    r < |s.requests| && s.requests[r].task.Live() && KeyOf(c, s, r) == key
  }

  /** A key is pending exactly when one live task leads it, nobody's queue is empty, and at most one task
      at a time holds the permit and with it compiles or inserts. */
  lemma SingleFlight(c: Config, s: State)
    requires c.Valid() && Reachable(c, s)
    ensures forall key :: key in s.pending <==> exists r :: LeadsLive(c, s, key, r)
    ensures forall key, r1, r2 :: LeadsLive(c, s, key, r1) && LeadsLive(c, s, key, r2) ==> r1 == r2
    ensures forall key :: key in s.pending ==> s.pending[key] != []
    ensures forall r1, r2 | 0 <= r1 < |s.requests| && 0 <= r2 < |s.requests| ::
              s.requests[r1].task.OwnsPermit() && s.requests[r2].task.OwnsPermit() ==> r1 == r2
  {
    ReachableInv(c, s);
    forall key ensures key in s.pending <==> exists r :: LeadsLive(c, s, key, r) {
      if key in s.pending {
        assert QueueOk(c, s, key, s.pending[key]);
        assert LeadsLive(c, s, key, s.pending[key][0]);
      }
    }
    forall key | key in s.pending ensures s.pending[key] != [] {
      assert QueueOk(c, s, key, s.pending[key]);
    }
  }

  ghost predicate InQueue(s: State, w: RequestId) {
    exists key :: key in s.pending && w in s.pending[key]
  }

  ghost predicate BeingAnswered(s: State, w: RequestId) {
    exists t :: 0 <= t < |s.requests| && s.requests[t].task.Sending? && w in s.requests[t].task.rest
  }

  /** No waiter is lost or answered twice: one that joined a flight is in a queue, or taken from it and still
      to be answered, or has been sent exactly one result; and only one of these. */
  lemma EveryWaiterInOnePlace(c: Config, s: State, w: RequestId)
    requires c.Valid() && Reachable(c, s)
    requires w < |s.requests| && s.requests[w].flight.Some?
    ensures |s.requests[w].mail| <= 1
    ensures InQueue(s, w) || BeingAnswered(s, w) || s.requests[w].mail != []
    ensures !(InQueue(s, w) && BeingAnswered(s, w))
    ensures InQueue(s, w) || BeingAnswered(s, w) ==> s.requests[w].mail == []
  {
    ReachableInv(c, s);
    var t := s.requests[w].flight.value;
    assert WaiterOk(c, s, w, t);
    if InQueue(s, w) {
      var key :| key in s.pending && w in s.pending[key];
      assert QueueOk(c, s, key, s.pending[key]);
      assert s.requests[t].task.Live();
    }
    if BeingAnswered(s, w) {
      var t' :| 0 <= t' < |s.requests| && s.requests[t'].task.Sending? && w in s.requests[t'].task.rest;
      assert t' == t;
    }
  }

  /** Everyone in a flight is sent the same result: an error, or an engine built from a document that has the
      receiver's own key. */
  lemma FlightsAgree(c: Config, s: State, w: RequestId, w': RequestId)
    requires c.Valid() && Reachable(c, s)
    requires w < |s.requests| && w' < |s.requests|
    requires s.requests[w].mail != [] && s.requests[w'].mail != []
    requires s.requests[w].flight == s.requests[w'].flight
    ensures s.requests[w].mail == s.requests[w'].mail
    ensures var result := s.requests[w].mail[0].result;
      result.Built? ==> c.serialize(result.engine.source) == KeyOf(c, s, w)
  {
    ReachableInv(c, s);
    assert RequestOk(s.requests[w], w);
    var t := s.requests[w].flight.value;
    assert WaiterOk(c, s, w, t) && WaiterOk(c, s, w', t);
    assert TaskOk(c, s, t);
  }

  /** Whatever was evicted meanwhile, an engine answered to a client was built from a document with the key of
      the client's document, by a compilation that really happened. */
  lemma ClientsGetTheirOwnEngine(c: Config, s: State, r: RequestId)
    requires c.Valid() && Reachable(c, s)
    requires r < |s.requests| && s.requests[r].pc.Answered? && s.requests[r].pc.reply.ReplyEngine?
    ensures c.serialize(s.requests[r].pc.reply.engine.source) == c.serialize(s.requests[r].doc)
    ensures s.requests[r].pc.reply.engine.build < |s.builds|
  {
    ReachableInv(c, s);
    assert EngineOk(c, s, s.requests[r].pc.reply.engine, KeyOf(c, s, r));
  }

  predicate AnsweredMiss(s: State, r: RequestId) {
    && r < |s.requests|
    && s.requests[r].pc.Answered?
    && s.requests[r].pc.reply.ReplyEngine?
    && s.requests[r].pc.reply.status.Miss?
  }

  lemma MissIsOwnBuild(c: Config, s: State, r: RequestId)
    requires RequestsOk(s) && WaitersOk(c, s) && TasksOk(c, s) && AnsweredMiss(s, r)
    ensures s.requests[r].pc.reply.engine.build < |s.builds|
    ensures s.builds[s.requests[r].pc.reply.engine.build] == r
  {
    assert RequestOk(s.requests[r], r);
    assert WaiterOk(c, s, r, r);
    assert TaskOk(c, s, r);
  }

  /** Requests answered "miss" stand for different successful compilations, each its own. */
  lemma MissOncePerCompilation(c: Config, s: State, r1: RequestId, r2: RequestId)
    requires c.Valid() && Reachable(c, s)
    requires AnsweredMiss(s, r1) && AnsweredMiss(s, r2)
    ensures var e1, e2 := s.requests[r1].pc.reply.engine, s.requests[r2].pc.reply.engine;
      && e1.build < |s.builds| && s.builds[e1.build] == r1
      && (e1.build == e2.build ==> r1 == r2)
  {
    ReachableInv(c, s);
    MissIsOwnBuild(c, s, r1);
    MissIsOwnBuild(c, s, r2);
  }

  /** Cached keys are distinct and at most `capacity`: exactly the keys used most recently. */
  lemma CacheIsExactLru(c: Config, s: State)
    requires c.Valid() && Reachable(c, s)
    ensures Distinct(Keys(s.entries)) && |s.entries| <= c.capacity
    ensures Keys(s.entries) == MostRecent(s.log, c.capacity)
    ensures forall i :: 0 <= i < |s.entries| ==> c.serialize(s.entries[i].engine.source) == s.entries[i].key
  {
    ReachableInv(c, s);
    RecentAll(s.log);
    forall i | 0 <= i < |s.entries| ensures c.serialize(s.entries[i].engine.source) == s.entries[i].key {
      assert EngineOk(c, s, s.entries[i].engine, s.entries[i].key);
    }
  }

  /** An insertion is always of a key that is not cached, and what it pushes out of a full cache was last used
      before every other cached key. */
  lemma InsertEvictsLeastRecentlyUsed(c: Config, s: State, r: RequestId)
    requires c.Valid() && Reachable(c, s) && Enabled(c, s, Insert(r))
    ensures KeyOf(c, s, r) !in Keys(s.entries)
    ensures var entry := Entry(KeyOf(c, s, r), s.requests[r].task.engine);
      Apply(c, s, Insert(r)).entries
      == if |s.entries| < c.capacity then s.entries + [entry] else s.entries[1..] + [entry]
    ensures forall j :: 0 < j < |s.entries| ==> LastUse(s.log, s.entries[0].key) < LastUse(s.log, s.entries[j].key)
  {
    ReachableInv(c, s);
    FrontIsLeastRecentlyUsed(s.log, c.capacity, s.entries);
  }

  // ----- every finite set of requests drains -----

  function TaskWeight(task: TaskPc): nat {
    match task
    case NoTask => 0
    case Unspawned => 8
    case Queued => 7
    case Holding => 6
    case Compiling => 5
    case Compiled(_) => 4
    case Releasing(_) => 3
    case Resolved(_) => 2
    case Sending(_, _) => 1
    case Gone(_) => 0
  }

  /** A bound on the steps still to be taken on the request's account. */
  function Weight(q: Request): nat {
    (match q.pc case Probing => 11 case Queueing => 10 case Waiting => 1 case _ => 0)
    + TaskWeight(q.task) + if q.mail == [] then 1 else 0
  }

  function Measure(requests: seq<Request>): nat {
    if requests == [] then 0 else Weight(requests[0]) + Measure(requests[1..])
  }

  lemma {:induction false} MeasureUpdate(requests: seq<Request>, r: nat, q: Request)
    requires r < |requests|
    ensures Measure(requests[r := q]) + Weight(requests[r]) == Measure(requests) + Weight(q)
  {
    if r > 0 {
      assert requests[r := q][1..] == requests[1..][r - 1 := q];
      MeasureUpdate(requests[1..], r - 1, q);
    } else {
      assert requests[0 := q][1..] == requests[1..];
    }
  }

  lemma {:induction false} MeasureAppend(requests: seq<Request>, q: Request)
    ensures Measure(requests + [q]) == Measure(requests) + Weight(q)
  {
    if requests == [] {
      assert Measure([q][1..]) == 0;
    } else {
      assert (requests + [q])[1..] == requests[1..] + [q];
      MeasureAppend(requests[1..], q);
    }
  }

  lemma SendDecreasesMeasure(c: Config, s: State, r: RequestId)
    requires RequestsOk(s) && FlightsOk(c, s) && Enabled(c, s, Send(r))
    ensures var s' := Apply(c, s, Send(r));
      |s'.requests| == |s.requests| && Measure(s'.requests) < Measure(s.requests)
  {
    var task := s.requests[r].task;
    var first := task.rest[0];
    assert s.requests[first].flight == Some(r);
    assert WaiterOk(c, s, first, r);
    var sent := s.requests[r := s.requests[r].(task := task.(rest := task.rest[1..]))];
    var told := sent[first].(mail := sent[first].mail + [Delivery(r, task.result)]);
    MeasureUpdate(s.requests, r, sent[r]);
    MeasureUpdate(sent, first, told);
  }

  lemma OwnWeightDrops(c: Config, s: State, step: Step)
    requires RequestsOk(s) && Enabled(c, s, step) && !step.Arrive? && !step.Send?
    ensures var s' := Apply(c, s, step);
      && |s'.requests| == |s.requests|
      && s'.requests == s.requests[step.r := s'.requests[step.r]]
      && Weight(s'.requests[step.r]) < Weight(s.requests[step.r])
  {
    assert RequestOk(s.requests[step.r], step.r);
  }

  /** Every step but an arrival uses up some of the measure. */
  lemma StepDecreasesMeasure(c: Config, s: State, step: Step)
    requires RequestsOk(s) && FlightsOk(c, s) && Enabled(c, s, step)
    ensures var s' := Apply(c, s, step);
      if step.Arrive? then |s'.requests| == |s.requests| + 1 && Measure(s'.requests) == Measure(s.requests) + 12
      else |s'.requests| == |s.requests| && Measure(s'.requests) < Measure(s.requests)
  {
    if step.Arrive? {
      MeasureAppend(s.requests, Request(step.doc, Probing, None, NoTask, []));
    } else if step.Send? {
      SendDecreasesMeasure(c, s, step.r);
    } else {
      OwnWeightDrops(c, s, step);
      MeasureUpdate(s.requests, step.r, Apply(c, s, step).requests[step.r]);
    }
  }

  lemma {:induction false} RunLength(c: Config, s: State, steps: seq<Step>)
    requires c.Valid() && Inv(c, s) && Runs(c, s, steps)
    ensures var s' := After(c, s, steps);
      |steps| + Measure(s'.requests) <= Measure(s.requests) + 13 * (|s'.requests| - |s.requests|)
    decreases |steps|
  {
    if steps != [] {
      StepDecreasesMeasure(c, s, steps[0]);
      StepKeepsInv(c, s, steps[0]);
      RunLength(c, Apply(c, s, steps[0]), steps[1..]);
    }
  }

  /** Every request has been answered or dropped, and every task is over. */
  ghost predicate Drained(s: State) {
    forall r :: 0 <= r < |s.requests| ==>
      && (s.requests[r].pc.Answered? || s.requests[r].pc.Cancelled?)
      && (s.requests[r].task.NoTask? || s.requests[r].task.Gone?)
  }

  /** The step of a task that is neither absent, nor over, nor waiting for a permit that is out. */
  function TaskStep(s: State, r: RequestId): Step
    requires r < |s.requests|
  {
    match s.requests[r].task
    case Unspawned => Spawn(r)
    case Queued => Acquire(r)
    case Holding => Reprobe(r)
    case Compiling => Compile(r)
    case Compiled(_) => Insert(r)
    case Releasing(_) => Release(r)
    case Resolved(_) => TakePending(r)
    case Sending(_, rest) => if rest == [] then Finish(r) else Send(r)
    case _ => Cancel(r)
  }

  lemma TaskCanStep(c: Config, s: State, r: RequestId)
    requires PermitOk(s) && SendingOk(s)
    requires r < |s.requests| && !s.requests[r].task.NoTask? && !s.requests[r].task.Gone?
    ensures exists step :: Enabled(c, s, step) && !step.Arrive? && !step.Cancel?
  {
    var t := if s.requests[r].task.Queued? && s.permit.Some? then s.permit.value else r;
    var task := s.requests[t].task;
    if task.Sending? && task.rest != [] {
      assert s.requests[task.rest[0]].flight == Some(t);
    }
    assert Enabled(c, s, TaskStep(s, t)) && !TaskStep(s, t).Arrive? && !TaskStep(s, t).Cancel?;
  }

  lemma RequestCanStep(c: Config, s: State, r: RequestId)
    requires RequestsOk(s) && WaitersOk(c, s)
    requires forall t :: 0 <= t < |s.requests| ==> s.requests[t].task.NoTask? || s.requests[t].task.Gone?
    requires r < |s.requests| && !s.requests[r].pc.Answered? && !s.requests[r].pc.Cancelled?
    ensures exists step :: Enabled(c, s, step) && !step.Arrive? && !step.Cancel?
  {
    assert RequestOk(s.requests[r], r);
    if s.requests[r].pc.Waiting? {
      assert WaiterOk(c, s, r, s.requests[r].flight.value);
      assert Enabled(c, s, Receive(r));
    } else if s.requests[r].pc.Queueing? {
      assert Enabled(c, s, Enqueue(r));
    } else if s.requests[r].doc in c.preloaded {
      assert Enabled(c, s, AnswerPreloaded(r));
    } else {
      assert Enabled(c, s, Probe(r));
    }
  }

  /** Until everything has drained some step other than an arrival or a cancellation can be taken. */
  lemma NoDeadlock(c: Config, s: State)
    requires RequestsOk(s) && PermitOk(s) && WaitersOk(c, s) && SendingOk(s) && !Drained(s)
    ensures exists step :: Enabled(c, s, step) && !step.Arrive? && !step.Cancel?
  {
    if r :| 0 <= r < |s.requests| && !s.requests[r].task.NoTask? && !s.requests[r].task.Gone? {
      TaskCanStep(c, s, r);
    } else {
      var r :| 0 <= r < |s.requests| && !s.requests[r].pc.Answered? && !s.requests[r].pc.Cancelled?;
      RequestCanStep(c, s, r);
    }
  }

  /** A run takes at most thirteen steps per request, and one that can go no further without new arrivals or
      cancellations has answered or dropped every request, with nothing left pending and the permit back. */
  lemma RunsDrain(c: Config, steps: seq<Step>)
    requires c.Valid() && Runs(c, Init, steps)
    ensures var s := After(c, Init, steps);
      && |steps| <= 13 * |s.requests|
      && ((forall step :: Enabled(c, s, step) ==> step.Arrive? || step.Cancel?) ==>
            Drained(s) && s.pending == map[] && s.permit == None)
  {
    var s := After(c, Init, steps);
    ReachableInv(c, s);
    assert Keys([]) == MostRecent([], c.capacity);
    RunLength(c, Init, steps);
    if !Drained(s) {
      NoDeadlock(c, s);
    }
  }
}
