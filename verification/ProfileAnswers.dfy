/** What each client of a run is answered, in terms of the steps of the run: which compilation it was, whether that
    failed, and who is told "miss". */
module ProfileAnswers {
  import opened Basics
  import opened ProfileCache
  import opened ProfileProtocol

  // ----- how a task ends -----

  /** The task has come to this result. */
  predicate Resulted(task: TaskPc, result: CompileResult) {
    match task
    case Releasing(x) => x == result
    case Resolved(x) => x == result
    case Sending(x, _) => x == result
    case Gone(x) => x == result
    case _ => false
  }

  predicate HasFailed(s: State, t: RequestId) { t < |s.requests| && Resulted(s.requests[t].task, Failed) }

  /** The task holds the engine that it compiled. */
  predicate Holds(task: TaskPc, engine: Engine) { task == Compiled(engine) || Resulted(task, Built(engine, true)) }

  lemma StepFails(c: Config, s: State, step: Step, t: RequestId)
    requires RequestsOk(s) && Enabled(c, s, step)
    ensures HasFailed(Apply(c, s, step), t) <==> HasFailed(s, t) || step == FailToCompile(t)
  {
    if t < |s.requests| { assert RequestOk(s.requests[t], t); }
  }

  /** A task ends in failure exactly when the run has a step at which its compilation fails. */
  lemma {:induction false} RunFails(c: Config, s: State, steps: seq<Step>, t: RequestId)
    requires c.Valid() && Inv(c, s) && Runs(c, s, steps)
    ensures HasFailed(After(c, s, steps), t) <==> HasFailed(s, t) || FailToCompile(t) in steps
    decreases |steps|
  {
    if steps != [] {
      StepFails(c, s, steps[0], t);
      StepKeepsInv(c, s, steps[0]);
      RunFails(c, Apply(c, s, steps[0]), steps[1..], t);
      assert steps == [steps[0]] + steps[1..];
    }
  }

  // ----- what does not depend on the flights -----

  /** The leader of build b has the engine of that build, made from its own document. */
  predicate BuildKept(s: State, b: nat)
    requires b < |s.builds|
  {
    s.builds[b] < |s.requests| && Holds(s.requests[s.builds[b]].task, Engine(s.requests[s.builds[b]].doc, b))
  }

  ghost predicate BuildsKept(s: State) { forall b :: 0 <= b < |s.builds| ==> BuildKept(s, b) }

  /** A request for a preloaded document is never queued; another one that is answered without a flight is a hit. */
  predicate Direct(c: Config, q: Request) {
    if q.doc in c.preloaded then q.flight.None? && (q.pc.Probing? || q.pc == Answered(ReplyPreloaded))
    else q.pc != Answered(ReplyPreloaded)
         && (q.pc.Answered? && q.flight.None? ==> q.pc.reply.ReplyEngine? && q.pc.reply.status.Hit?)
  }

  ghost predicate AllDirect(c: Config, s: State) { forall r :: 0 <= r < |s.requests| ==> Direct(c, s.requests[r]) }

  lemma StepKeepsBuild(c: Config, s: State, step: Step, b: nat)
    requires RequestsOk(s) && Enabled(c, s, step) && b < |s.builds| && BuildKept(s, b)
    ensures b < |Apply(c, s, step).builds| && BuildKept(Apply(c, s, step), b)
  {
    assert RequestOk(s.requests[s.builds[b]], s.builds[b]);
  }

  lemma StepKeepsBuilds(c: Config, s: State, step: Step)
    requires RequestsOk(s) && Enabled(c, s, step) && BuildsKept(s)
    ensures BuildsKept(Apply(c, s, step))
  {
    var s' := Apply(c, s, step);
    forall b | 0 <= b < |s'.builds| ensures BuildKept(s', b) {
      if b < |s.builds| { StepKeepsBuild(c, s, step, b); }
    }
  }

  lemma StepKeepsDirect(c: Config, s: State, step: Step)
    requires RequestsOk(s) && Enabled(c, s, step) && AllDirect(c, s)
    ensures AllDirect(c, Apply(c, s, step))
  {
    var s' := Apply(c, s, step);
    forall r | 0 <= r < |s'.requests| ensures Direct(c, s'.requests[r]) {
      if r < |s.requests| {
        assert Direct(c, s.requests[r]) && RequestOk(s.requests[r], r);
      }
    }
  }

  lemma {:induction false} RunKeeps(c: Config, s: State, steps: seq<Step>)
    requires c.Valid() && Inv(c, s) && Runs(c, s, steps) && BuildsKept(s) && AllDirect(c, s)
    ensures BuildsKept(After(c, s, steps)) && AllDirect(c, After(c, s, steps))
    decreases |steps|
  {
    if steps != [] {
      StepKeepsBuilds(c, s, steps[0]);
      StepKeepsDirect(c, s, steps[0]);
      StepKeepsInv(c, s, steps[0]);
      RunKeeps(c, Apply(c, s, steps[0]), steps[1..]);
    }
  }

  /** What holds of every state that a run leads to. */
  lemma AfterRun(c: Config, steps: seq<Step>) returns (s: State)
    requires c.Valid() && Runs(c, Init, steps)
    ensures s == After(c, Init, steps) && Inv(c, s) && BuildsKept(s) && AllDirect(c, s)
    ensures forall t :: HasFailed(s, t) <==> FailToCompile(t) in steps
  {
    s := After(c, Init, steps);
    assert Reachable(c, s);
    ReachableInv(c, s);
    assert Keys([]) == MostRecent([], c.capacity);
    RunKeeps(c, Init, steps);
    forall t { RunFails(c, Init, steps, t); }
  }

  // ----- what a member of a flight is answered -----

  /** The flight of t gave this engine, which it compiled or found in the cache. */
  predicate Gave(s: State, t: RequestId, engine: Engine, compiled: bool) {
    t < |s.requests| && Resulted(s.requests[t].task, Built(engine, compiled))
  }

  /** A reply with the engine that the flight of t gave, "miss" exactly for a leader whose flight compiled it. */
  ghost predicate Shared(s: State, r: RequestId, t: RequestId, reply: Reply) {
    exists engine, compiled :: Gave(s, t, engine, compiled)
      && reply == ReplyEngine(engine, if compiled && r == t then Miss else Hit)
  }

  lemma MemberGets(c: Config, s: State, r: RequestId)
    requires RequestsOk(s) && WaitersOk(c, s)
    requires r < |s.requests| && s.requests[r].pc.Answered? && s.requests[r].flight.Some?
    ensures var t, reply := s.requests[r].flight.value, s.requests[r].pc.reply;
      if HasFailed(s, t) then reply == ReplyError else Shared(s, r, t, reply)
  {
    assert RequestOk(s.requests[r], r);
    var t := s.requests[r].flight.value;
    assert WaiterOk(c, s, r, t);
    match s.requests[r].mail[0].result
    case Failed =>
    case Built(engine, compiled) => assert Gave(s, t, engine, compiled);
  }

  /** A preloaded document is answered as such and no other is; an answer without a flight is a hit; and one in the
      flight of t is an error exactly when the run has a step at which t fails to compile, and otherwise the engine of
      that flight, for its leader a miss if the flight compiled it and for everyone else a hit. */
  lemma WhatAClientGets(c: Config, steps: seq<Step>, r: RequestId)
    requires c.Valid() && Runs(c, Init, steps)
    requires var s := After(c, Init, steps); r < |s.requests| && s.requests[r].pc.Answered?
    ensures var s := After(c, Init, steps); var q := s.requests[r]; var reply := q.pc.reply;
      && (reply == ReplyPreloaded <==> q.doc in c.preloaded)
      && match q.flight
         case None => reply == ReplyPreloaded || (reply.ReplyEngine? && reply.status.Hit?)
         case Some(t) => if FailToCompile(t) in steps then reply == ReplyError else Shared(s, r, t, reply)
  {
    var s := AfterRun(c, steps);
    assert Direct(c, s.requests[r]);
    if s.requests[r].flight.Some? { MemberGets(c, s, r); }
  }

  /** Everyone in the flight of a leader that compiled gets the engine of that compilation, made from the leader's
      document; the leader is told "miss", everyone else "hit". */
  lemma BuildIsShared(c: Config, s: State, b: nat, r: RequestId)
    requires c.Valid() && Reachable(c, s) && b < |s.builds|
    requires r < |s.requests| && s.requests[r].pc.Answered? && s.requests[r].flight == Some(s.builds[b])
    ensures s.builds[b] < |s.requests|
    ensures s.requests[r].pc.reply
         == ReplyEngine(Engine(s.requests[s.builds[b]].doc, b), if r == s.builds[b] then Miss else Hit)
  {
    var steps :| Runs(c, Init, steps) && After(c, Init, steps) == s;
    var state := AfterRun(c, steps);
    assert BuildKept(s, b);
    MemberGets(c, s, r);
  }

  /** Whoever led a compilation that succeeded is, once answered, answered "miss" with the engine of it. */
  lemma BuilderGetsMiss(c: Config, s: State, b: nat)
    requires c.Valid() && Reachable(c, s) && b < |s.builds|
    ensures s.builds[b] < |s.requests|
    ensures var q := s.requests[s.builds[b]];
      q.pc.Answered? ==> q.pc.reply == ReplyEngine(Engine(q.doc, b), Miss)
  {
    var steps :| Runs(c, Init, steps) && After(c, Init, steps) == s;
    var state := AfterRun(c, steps);
    var t := s.builds[b];
    assert BuildKept(s, b) && RequestOk(s.requests[t], t);
    if s.requests[t].pc.Answered? { BuildIsShared(c, s, b, t); }
  }

  // ----- what a probe does to the deque -----

  /** The first entry with the key goes from place i to the end; the others stay in order. */
  ghost predicate MovedLast(entries: seq<Entry>, entries': seq<Entry>, key: Key, i: nat) {
    && i < |entries| && entries[i].key == key && (forall j :: 0 <= j < i ==> entries[j].key != key)
    && entries' == entries[..i] + entries[i + 1..] + [entries[i]]
  }

  /** A probe that hits moves the entry to the end, where the next eviction is farthest, and answers with its engine;
      one that misses leaves the deque alone and queues. */
  lemma ProbeMovesHit(c: Config, s: State, r: RequestId)
    requires Enabled(c, s, Probe(r))
    ensures var s', key := Apply(c, s, Probe(r)), KeyOf(c, s, r);
      if key in Keys(s.entries) then
        exists i: nat :: MovedLast(s.entries, s'.entries, key, i)
                    && s'.requests[r].pc == Answered(ReplyEngine(s.entries[i].engine, Hit))
      else s'.entries == s.entries && s'.requests[r].pc == Queueing
  {
    var key := KeyOf(c, s, r);
    var i := Position(s.entries, key);
    if i < |s.entries| {
      assert Keys(s.entries)[i] == key;
      assert MovedLast(s.entries, Apply(c, s, Probe(r)).entries, key, i);
    }
  }

  /** The leader's second look, with the permit in hand, does the same and then gives that engine or compiles. */
  lemma ReprobeMovesHit(c: Config, s: State, r: RequestId)
    requires Enabled(c, s, Reprobe(r))
    ensures var s', key := Apply(c, s, Reprobe(r)), KeyOf(c, s, r);
      if key in Keys(s.entries) then
        exists i: nat :: MovedLast(s.entries, s'.entries, key, i)
                    && s'.requests[r].task == Releasing(Built(s.entries[i].engine, false))
      else s'.entries == s.entries && s'.requests[r].task == Compiling
  {
    var key := KeyOf(c, s, r);
    var i := Position(s.entries, key);
    if i < |s.entries| {
      assert Keys(s.entries)[i] == key;
      assert MovedLast(s.entries, Apply(c, s, Reprobe(r)).entries, key, i);
    }
  }
}
