/**
 Many verifications at once: the worker pools of several Block C runs over the one
 resolver they share. A worker that holds its pool's semaphore waits for a call of
 `Resolve`, and that call may wait for a leader that belongs to another pool.
 */
module Pools {
  import opened Wrappers
  import Base58
  import R = Resolver
  import P = ParallelResolve

  /** One pool: its DIDs, the steps it has made, and the call each worker waits for. */
  datatype Pool = Pool(unique: seq<string>, done: seq<P.Step>, calls: map<nat, nat>)

  datatype State = State(resolving: seq<R.Step>, pools: seq<Pool>)

  datatype Step =
    | Inside(p: nat, own: P.Step)                // neither acquiring nor resolving
    | Acquire(p: nat, i: nat, t: nat)            // and call `Resolve`
    | Deliver(p: nat, i: nat)                    // the call has returned
    | Shared(call: R.Step)                       // a step of the resolver

  function Resolver(s: State, cfg: R.Config, start: int): R.State {
    R.Run(R.Init(start), cfg, s.resolving)
  }

  function PoolState(pool: Pool): P.State {
    P.Run(pool.unique, pool.done)
  }

  function OutcomeOf(answer: R.Answer): Option<R.Key> {
    match answer
    case Got(key) => Some(key)
    case _ => None
  }

  predicate CanPool(s: State, p: nat, step: P.Step) {
    p < |s.pools| && P.Next(PoolState(s.pools[p]), s.pools[p].unique, step).Some?
  }

  function Advance(s: State, p: nat, step: P.Step): State
    requires p < |s.pools|
  {
    s.(pools := s.pools[p := s.pools[p].(done := s.pools[p].done + [step])])
  }

  function Next(s: State, cfg: R.Config, start: int, step: Step): Option<State> {
    match step
    case Inside(p, st) =>
      if CanPool(s, p, st) && !st.Acquire? && !st.Resolve? then Some(Advance(s, p, st)) else None
    case Acquire(p, i, t) =>
      if CanPool(s, p, P.Acquire(i)) && i < |s.pools[p].unique|
         && R.Next(Resolver(s, cfg, start), cfg, R.Call(t, s.pools[p].unique[i])).Some?
      then
        var moved := Advance(s, p, P.Acquire(i));
        Some(State(s.resolving + [R.Call(t, s.pools[p].unique[i])],
                   moved.pools[p := moved.pools[p].(calls := s.pools[p].calls[i := t])]))
      else None
    case Deliver(p, i) =>
      if p >= |s.pools| || i !in s.pools[p].calls then None
      else
        var t, callers := s.pools[p].calls[i], Resolver(s, cfg, start).callers;
        if t !in callers || !callers[t].Returned? then None
        else
          var st := P.Resolve(i, OutcomeOf(callers[t].answer));
          if CanPool(s, p, st) then Some(Advance(s, p, st)) else None
    case Shared(st) =>
      if R.Next(Resolver(s, cfg, start), cfg, st).Some? then Some(s.(resolving := s.resolving + [st])) else None
  }

  function Run(uniques: seq<seq<string>>, cfg: R.Config, start: int, schedule: seq<Step>): State {
    if schedule == [] then State([], seq(|uniques|, p requires 0 <= p < |uniques| => Pool(uniques[p], [], map[])))
    else
      var before := Run(uniques, cfg, start, schedule[..|schedule| - 1]);
      match Next(before, cfg, start, schedule[|schedule| - 1])
      case Some(after) => after
      case None => before
  }

  // ---- what every run keeps ----

  /** An acquired worker has called `Resolve` for its DID. */
  ghost predicate HasCalled(pool: Pool, callers: map<nat, R.Caller>, i: nat) {
    var workers := PoolState(pool).workers;
    i < |workers| && workers[i].Acquired? ==>
      && i < |pool.unique| && i in pool.calls && pool.calls[i] in callers
      && callers[pool.calls[i]].did == pool.unique[i]
  }

  /** For a `did:key`, the key is the one whose identifier the issuers print so. */
  ghost predicate Spells(did: string, key: R.Key) {
    R.IsKeyDid(did) ==>
      (forall k | 0 <= k < |key| :: key[k] < 256) && |key| == 32 && did == Base58.DidOfKey(key)
  }

  /** A worker that has a key has the key of its DID. */
  ghost predicate HasItsKey(pool: Pool, i: nat) {
    var workers := PoolState(pool).workers;
    i < |workers| && !workers[i].Started? && !workers[i].Acquired? && workers[i].outcome.Some? ==>
      i < |pool.unique| && Spells(pool.unique[i], workers[i].outcome.value)
  }

  ghost predicate PoolFits(pool: Pool, callers: map<nat, R.Caller>) {
    forall i: nat :: HasCalled(pool, callers, i) && HasItsKey(pool, i)
  }

  ghost predicate Fits(s: State, cfg: R.Config, start: int) {
    forall p | 0 <= p < |s.pools| :: PoolFits(s.pools[p], Resolver(s, cfg, start).callers)
  }

  lemma DoneSnoc(pool: Pool, step: P.Step)
    requires P.Next(PoolState(pool), pool.unique, step).Some?
    ensures PoolState(pool.(done := pool.done + [step])) == P.Next(PoolState(pool), pool.unique, step).value
  {
    assert (pool.done + [step])[..|pool.done|] == pool.done;
  }

  lemma ResolvingSnoc(s: State, cfg: R.Config, start: int, step: R.Step)
    requires R.Next(Resolver(s, cfg, start), cfg, step).Some?
    ensures R.Run(R.Init(start), cfg, s.resolving + [step]) == R.Next(Resolver(s, cfg, start), cfg, step).value
  {
    R.RunStep(R.Init(start), cfg, s.resolving, step, R.Next(Resolver(s, cfg, start), cfg, step).value);
  }

  /** What a step of the pool does to one worker. */
  lemma WorkerAfter(before: P.State, unique: seq<string>, step: P.Step, i: nat)
    requires P.Next(before, unique, step).Some? && i < |P.Next(before, unique, step).value.workers|
    ensures var w := P.Next(before, unique, step).value.workers[i];
            && (w.Acquired? ==> step == P.Acquire(i) || (i < |before.workers| && before.workers[i] == w))
            && (!w.Started? && !w.Acquired? ==>
                  || step == P.Resolve(i, w.outcome)
                  || (i < |before.workers| && !before.workers[i].Started? && !before.workers[i].Acquired?
                      && before.workers[i].outcome == w.outcome))
  {
  }

  /** Calls stay and keep their DIDs. */
  lemma CallersStay(s: R.State, cfg: R.Config, step: R.Step, t: nat)
    requires R.Next(s, cfg, step).Some? && t in s.callers
    ensures t in R.Next(s, cfg, step).value.callers && R.Next(s, cfg, step).value.callers[t].did == s.callers[t].did
  {
    R.CallsFinish(s, cfg, step, t);
    R.OldOrCalled(s, cfg, step, t);
  }

  lemma FitsLater(pool: Pool, before: map<nat, R.Caller>, after: map<nat, R.Caller>)
    requires PoolFits(pool, before)
    requires forall t | t in before :: t in after && after[t].did == before[t].did
    ensures PoolFits(pool, after)
  {
    forall i: nat ensures HasCalled(pool, after, i) && HasItsKey(pool, i) {
      assert HasCalled(pool, before, i);
    }
  }

  lemma SharedFits(s: State, cfg: R.Config, start: int, step: R.Step)
    requires Fits(s, cfg, start) && R.Next(Resolver(s, cfg, start), cfg, step).Some?
    ensures Fits(s.(resolving := s.resolving + [step]), cfg, start)
  {
    var before, after := Resolver(s, cfg, start), R.Next(Resolver(s, cfg, start), cfg, step).value;
    ResolvingSnoc(s, cfg, start, step);
    forall t | t in before.callers ensures t in after.callers && after.callers[t].did == before.callers[t].did {
      CallersStay(before, cfg, step, t);
    }
    forall p | 0 <= p < |s.pools| ensures PoolFits(s.pools[p], after.callers) {
      FitsLater(s.pools[p], before.callers, after.callers);
    }
  }

  /** A pool's own step, given the call of a worker that it acquires and the key of one
      that it resolves. */
  lemma PoolStepFits(pool: Pool, callers: map<nat, R.Caller>, step: P.Step, calls: map<nat, nat>)
    requires PoolFits(pool, callers) && P.Next(PoolState(pool), pool.unique, step).Some?
    requires forall i | i in pool.calls :: i in calls && (calls[i] == pool.calls[i] || step == P.Acquire(i))
    requires step.Acquire? ==>
               && step.i < |pool.unique| && step.i in calls && calls[step.i] in callers
               && callers[calls[step.i]].did == pool.unique[step.i]
    requires step.Resolve? && step.outcome.Some? ==>
               step.i < |pool.unique| && Spells(pool.unique[step.i], step.outcome.value)
    ensures PoolFits(pool.(done := pool.done + [step], calls := calls), callers)
  {
    var next := pool.(done := pool.done + [step], calls := calls);
    var before, after := PoolState(pool), P.Next(PoolState(pool), pool.unique, step).value;
    DoneSnoc(pool, step);
    assert PoolState(next) == PoolState(pool.(done := pool.done + [step]));
    forall i: nat ensures HasCalled(next, callers, i) && HasItsKey(next, i) {
      if i < |after.workers| {
        WorkerAfter(before, pool.unique, step, i);
        assert HasCalled(pool, callers, i) && HasItsKey(pool, i);
      }
    }
  }

  lemma ReturnedKeySpells(s: State, cfg: R.Config, start: int, t: nat)
    requires var callers := Resolver(s, cfg, start).callers;
             t in callers && callers[t].Returned? && OutcomeOf(callers[t].answer).Some?
    ensures var c := Resolver(s, cfg, start).callers[t]; Spells(c.did, OutcomeOf(c.answer).value)
  {
    R.InvariantAlways(cfg, start, s.resolving);
    R.ReturnedKeyIsSound(Resolver(s, cfg, start), cfg, t);
  }

  lemma InsideFits(s: State, cfg: R.Config, start: int, p: nat, step: P.Step)
    requires Fits(s, cfg, start) && CanPool(s, p, step) && !step.Acquire? && !step.Resolve?
    ensures Fits(Advance(s, p, step), cfg, start)
  {
    PoolStepFits(s.pools[p], Resolver(s, cfg, start).callers, step, s.pools[p].calls);
  }

  lemma AcquireFits(s: State, cfg: R.Config, start: int, step: Step)
    requires Fits(s, cfg, start) && step.Acquire? && Next(s, cfg, start, step).Some?
    ensures Fits(Next(s, cfg, start, step).value, cfg, start)
  {
    var p, i, t := step.p, step.i, step.t;
    var pool := s.pools[p];
    var call := R.Call(t, pool.unique[i]);
    var called := s.(resolving := s.resolving + [call]);
    SharedFits(s, cfg, start, call);
    ResolvingSnoc(s, cfg, start, call);
    PoolStepFits(pool, Resolver(called, cfg, start).callers, P.Acquire(i), pool.calls[i := t]);
    var after := Next(s, cfg, start, step).value;
    assert after.pools[p] == pool.(done := pool.done + [P.Acquire(i)], calls := pool.calls[i := t]);
    assert Resolver(after, cfg, start) == Resolver(called, cfg, start);
    forall q | 0 <= q < |after.pools| && q != p ensures PoolFits(after.pools[q], Resolver(after, cfg, start).callers) {
      assert PoolFits(called.pools[q], Resolver(called, cfg, start).callers);
    }
  }

  lemma DeliverFits(s: State, cfg: R.Config, start: int, step: Step)
    requires Fits(s, cfg, start) && step.Deliver? && Next(s, cfg, start, step).Some?
    ensures Fits(Next(s, cfg, start, step).value, cfg, start)
  {
    var pool, callers := s.pools[step.p], Resolver(s, cfg, start).callers;
    var t := pool.calls[step.i];
    var outcome := OutcomeOf(callers[t].answer);
    assert HasCalled(pool, callers, step.i);
    assert P.At(PoolState(pool), step.i) == Some(P.Acquired);
    if outcome.Some? {
      ReturnedKeySpells(s, cfg, start, t);
    }
    PoolStepFits(pool, callers, P.Resolve(step.i, outcome), pool.calls);
  }

  lemma {:induction false} FitsAlways(uniques: seq<seq<string>>, cfg: R.Config, start: int, schedule: seq<Step>)
    ensures Fits(Run(uniques, cfg, start, schedule), cfg, start)
  {
    if schedule != [] {
      var before, step := Run(uniques, cfg, start, schedule[..|schedule| - 1]), schedule[|schedule| - 1];
      FitsAlways(uniques, cfg, start, schedule[..|schedule| - 1]);
      if Next(before, cfg, start, step).Some? {
        match step
        case Inside(p, st) => InsideFits(before, cfg, start, p, st);
        case Acquire(_, _, _) => AcquireFits(before, cfg, start, step);
        case Deliver(_, _) => DeliverFits(before, cfg, start, step);
        case Shared(st) => SharedFits(before, cfg, start, st);
      }
    }
  }

  // ---- over every interleaving of all pools ----

  /** A step that gets some pool or some call ahead: no time passing, no eviction, no
      new call from outside, nobody giving up. */
  predicate IsProgress(step: Step) {
    step.Shared? ==> (R.MovesCaller(step.call) && !step.call.Call? && !step.call.Cancel?) || step.call.Panic?
  }

  lemma NoCancel(s: R.State, cfg: R.Config, t: nat)
    requires R.Next(s, cfg, R.Cancel(t)).Some?
    ensures t in s.callers && s.callers[t].Waiting?
  {
  }

  /** A call that has not returned can go on, or the leader it waits for can. */
  lemma CallProgress(s: State, cfg: R.Config, start: int, t: nat) returns (step: Step)
    requires var r := Resolver(s, cfg, start); !r.crashed && t in r.callers && !r.callers[t].Returned?
    ensures Next(s, cfg, start, step).Some? && IsProgress(step)
  {
    var r := Resolver(s, cfg, start);
    var u := t;
    if r.callers[t].Waiting? {
      R.NoWaiterStranded(cfg, start, s.resolving, t);
      if R.Next(r, cfg, R.Wake(t)).Some? {
        return Shared(R.Wake(t));
      }
      u :| u in r.callers && r.callers[u].Leads();
    }
    R.NobodyElseBlocks(cfg, start, s.resolving, u);
    var st :| R.OwnStep(r, u, st) && R.Next(r, cfg, st).Some?;
    if st.Cancel? {
      NoCancel(r, cfg, st.t);
    }
    step := Shared(st);
  }

  /** No deadlock across pools: while the process runs and some pool has not finished,
      some pool or some call can get ahead, however the waiting goes across pools. */
  lemma NoDeadlockAcrossPools(uniques: seq<seq<string>>, cfg: R.Config, start: int, schedule: seq<Step>, p: nat)
    returns (step: Step)
    requires var s := Run(uniques, cfg, start, schedule);
             && !Resolver(s, cfg, start).crashed
             && p < |s.pools| && !PoolState(s.pools[p]).main.Finished?
    ensures Next(Run(uniques, cfg, start, schedule), cfg, start, step).Some? && IsProgress(step)
  {
    var s := Run(uniques, cfg, start, schedule);
    var pool, callers := s.pools[p], Resolver(s, cfg, start).callers;
    FitsAlways(uniques, cfg, start, schedule);
    var st := P.NoDeadlock(pool.unique, pool.done);
    if st.Acquire? {
      var t := R.UnusedId(callers.Keys);
      P.InvariantAlways(pool.unique, pool.done);
      step := Acquire(p, st.i, t);
    } else if st.Resolve? {
      assert HasCalled(pool, callers, st.i);
      assert P.At(PoolState(pool), st.i) == Some(P.Acquired);
      var t := pool.calls[st.i];
      if callers[t].Returned? {
        step := Deliver(p, st.i);
      } else {
        step := CallProgress(s, cfg, start, t);
      }
    } else {
      step := Inside(p, st);
    }
  }

  /** A pool that finishes with all its keys has, for every `did:key` among its DIDs,
      the key that the identifier spells, whoever resolved it. */
  lemma PoolKeysAreRight(uniques: seq<seq<string>>, cfg: R.Config, start: int, schedule: seq<Step>, p: nat, did: string)
    requires var s := Run(uniques, cfg, start, schedule);
             && p < |s.pools| && P.Distinct(s.pools[p].unique) && did in s.pools[p].unique
             && PoolState(s.pools[p]).main.Finished? && PoolState(s.pools[p]).main.result.AllKeys?
    ensures var keys := PoolState(Run(uniques, cfg, start, schedule).pools[p]).main.result.keys;
            did in keys && Spells(did, keys[did])
  {
    var s := Run(uniques, cfg, start, schedule);
    var pool := s.pools[p];
    FitsAlways(uniques, cfg, start, schedule);
    P.ResultIsExact(pool.unique, pool.unique, pool.done);
    var i :| 0 <= i < |pool.unique| && pool.unique[i] == did;
    assert did in P.Elements(pool.unique);
    assert PoolFits(pool, Resolver(s, cfg, start).callers);
    assert HasItsKey(pool, i);
  }
}
