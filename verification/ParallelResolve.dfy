/**
 Block C's bounded parallel resolver: one goroutine per unique DID, at most eight
 of them resolving at once, results over a channel that is drained only after all
 of them are done. Every send, receive and counter change is one atomic step.
 */
module ParallelResolve {
  import opened Wrappers

  type Did = string
  type Key = seq<nat>

  /** Capacity of the semaphore channel. */
  const CONCURRENCY := 8

  // ---- deduplication ----

  ghost function Elements(dids: seq<Did>): set<Did> {
    set d | d in dids
  }

  ghost predicate Distinct(dids: seq<Did>) {
    forall i, j | 0 <= i < j < |dids| :: dids[i] != dids[j]
  }

  method Deduplicate(dids: seq<Did>) returns (unique: seq<Did>)
    ensures Distinct(unique) && Elements(unique) == Elements(dids)
  {
    var seen: set<Did> := {};
    unique := [];
    for i := 0 to |dids|
      invariant Distinct(unique)
      invariant seen == Elements(unique) == Elements(dids[..i])
    {
      assert dids[..i + 1] == dids[..i] + [dids[i]];
      if dids[i] !in seen {
        assert forall j | 0 <= j < |unique| :: unique[j] in Elements(unique);
        seen := seen + {dids[i]};
        unique := unique + [dids[i]];
      }
    }
    assert dids[..|dids|] == dids;
  }

  // ---- the goroutines ----

  /** A goroutine; its resolution outcome is a key or a failure. */
  datatype Worker =
    | Started
    | Acquired
    | HasResult(outcome: Option<Key>)
    | HasSent(outcome: Option<Key>)
    | HasReleased(outcome: Option<Key>)
    | IsDone(outcome: Option<Key>)

  datatype Item = Item(index: nat, outcome: Option<Key>)

  /** The first failure in channel order, or all the keys. */
  datatype Collected = AllKeys(keys: map<Did, Key>) | FirstFailure(did: Did)

  datatype Main = Spawning | AllSpawned | Finished(result: Collected)

  /** `held` is the fill of the semaphore, `waitGroup` the counter, `channel` the
      buffered results. */
  datatype State = State(workers: seq<Worker>, held: nat, waitGroup: int, channel: seq<Item>, main: Main)

  datatype Step =
    | Spawn
    | EndSpawning
    | Acquire(i: nat)
    | Resolve(i: nat, outcome: Option<Key>)
    | Send(i: nat)
    | Release(i: nat)
    | Done(i: nat)
    | Collect

  const INIT := State([], 0, 0, [], Spawning)

  function At(s: State, i: nat): Option<Worker> {
    if i < |s.workers| then Some(s.workers[i]) else None
  }

  function Set(s: State, i: nat, w: Worker): State
    requires i < |s.workers|
  {
    s.(workers := s.workers[i := w])
  }

  /** Folds the channel in order. */
  function Fold(unique: seq<Did>, channel: seq<Item>): Collected {
    if channel == [] then AllKeys(map[])
    else
      match Fold(unique, channel[..|channel| - 1])
      case FirstFailure(d) => FirstFailure(d)
      case AllKeys(keys) =>
        var item := channel[|channel| - 1];
        if item.index >= |unique| then AllKeys(keys)
        else if item.outcome.None? then FirstFailure(unique[item.index])
        else AllKeys(keys[unique[item.index] := item.outcome.value])
  }

  /** The drain loop of the source computes the fold. */
  method Drain(unique: seq<Did>, channel: seq<Item>) returns (r: Collected)
    requires forall k | 0 <= k < |channel| :: channel[k].index < |unique|
    ensures r == Fold(unique, channel)
  {
    var keys: map<Did, Key> := map[];
    for k := 0 to |channel|
      invariant Fold(unique, channel[..k]) == AllKeys(keys)
    {
      assert channel[..k + 1][..k] == channel[..k];
      var item := channel[k];
      if item.outcome.None? {
        FailureSticks(unique, channel, k + 1);
        return FirstFailure(unique[item.index]);
      }
      keys := keys[unique[item.index] := item.outcome.value];
    }
    assert channel[..|channel|] == channel;
    return AllKeys(keys);
  }

  lemma {:induction false} FailureSticks(unique: seq<Did>, channel: seq<Item>, k: nat)
    requires k <= |channel| && Fold(unique, channel[..k]).FirstFailure?
    ensures Fold(unique, channel) == Fold(unique, channel[..k])
  {
    if k < |channel| {
      var init := channel[..|channel| - 1];
      assert init[..k] == channel[..k];
      FailureSticks(unique, init, k);
    } else {
      assert channel[..k] == channel;
    }
  }

  function Next(s: State, unique: seq<Did>, step: Step): Option<State> {
    match step
    case Spawn =>
      if s.main.Spawning? && |s.workers| < |unique| then
        Some(s.(workers := s.workers + [Started], waitGroup := s.waitGroup + 1))
      else None
    case EndSpawning =>
      if s.main.Spawning? && |s.workers| == |unique| then Some(s.(main := AllSpawned)) else None
    case Acquire(i) =>
      if At(s, i) == Some(Started) && s.held < CONCURRENCY then
        Some(Set(s.(held := s.held + 1), i, Acquired))
      else None
    case Resolve(i, outcome) =>
      if At(s, i) == Some(Acquired) then Some(Set(s, i, HasResult(outcome))) else None
    case Send(i) =>
      if At(s, i).Some? && s.workers[i].HasResult? && |s.channel| < |unique| then
        Some(Set(s.(channel := s.channel + [Item(i, s.workers[i].outcome)]), i, HasSent(s.workers[i].outcome)))
      else None
    case Release(i) =>
      if At(s, i).Some? && s.workers[i].HasSent? && s.held > 0 then
        Some(Set(s.(held := s.held - 1), i, HasReleased(s.workers[i].outcome)))
      else None
    case Done(i) =>
      if At(s, i).Some? && s.workers[i].HasReleased? then
        Some(Set(s.(waitGroup := s.waitGroup - 1), i, IsDone(s.workers[i].outcome)))
      else None
    case Collect =>
      if s.main.AllSpawned? && s.waitGroup == 0 then Some(s.(main := Finished(Fold(unique, s.channel)))) else None
  }

  function Run(unique: seq<Did>, schedule: seq<Step>): State {
    if schedule == [] then INIT else
      var before := Run(unique, schedule[..|schedule| - 1]);
      match Next(before, unique, schedule[|schedule| - 1])
      case Some(after) => after
      case None => before
  }

  // ---- counting workers ----

  function Holds(w: Worker): nat {
    if w.Acquired? || w.HasResult? || w.HasSent? then 1 else 0
  }

  function Pending(w: Worker): nat {
    if w.IsDone? then 0 else 1
  }

  function Sent(w: Worker): nat {
    if w.HasSent? || w.HasReleased? || w.IsDone? then 1 else 0
  }

  /** Steps a goroutine still has in front of it. */
  function Left(w: Worker): nat {
    match w
    case Started => 5
    case Acquired => 4
    case HasResult(_) => 3
    case HasSent(_) => 2
    case HasReleased(_) => 1
    case IsDone(_) => 0
  }

  function Sum(ws: seq<Worker>, f: Worker -> nat): nat {
    if ws == [] then 0 else Sum(ws[..|ws| - 1], f) + f(ws[|ws| - 1])
  }

  lemma SumAppend(ws: seq<Worker>, w: Worker, f: Worker -> nat)
    ensures Sum(ws + [w], f) == Sum(ws, f) + f(w)
  {
    assert (ws + [w])[..|ws|] == ws;
  }

  lemma {:induction false} SumUpdate(ws: seq<Worker>, i: nat, w: Worker, f: Worker -> nat)
    requires i < |ws|
    ensures Sum(ws[i := w], f) == Sum(ws, f) - f(ws[i]) + f(w)
    ensures Sum(ws, f) >= f(ws[i])
  {
    var init, last := ws[..|ws| - 1], ws[|ws| - 1];
    if i == |ws| - 1 {
      assert ws[i := w] == init + [w];
      SumAppend(init, w, f);
    } else {
      SumUpdate(init, i, w, f);
      assert ws[i := w] == init[i := w] + [last];
      SumAppend(init[i := w], last, f);
    }
  }

  lemma {:induction false} SumZero(ws: seq<Worker>, f: Worker -> nat)
    requires forall i | 0 <= i < |ws| :: f(ws[i]) == 0
    ensures Sum(ws, f) == 0
  {
    if ws != [] {
      SumZero(ws[..|ws| - 1], f);
    }
  }

  lemma {:induction false} SumAtMost(ws: seq<Worker>, f: Worker -> nat)
    requires forall w :: f(w) <= 1
    ensures Sum(ws, f) <= |ws|
  {
    if ws != [] {
      SumAtMost(ws[..|ws| - 1], f);
    }
  }

  lemma SumBelow(ws: seq<Worker>, i: nat, f: Worker -> nat)
    requires (forall w :: f(w) <= 1) && i < |ws| && f(ws[i]) == 0
    ensures Sum(ws, f) < |ws|
  {
    var rest := ws[..i] + ws[i + 1..];
    SumSplit(ws, i, f);
    SumAtMost(rest, f);
  }

  lemma {:induction false} SumSplit(ws: seq<Worker>, i: nat, f: Worker -> nat)
    requires i < |ws|
    ensures Sum(ws, f) == Sum(ws[..i] + ws[i + 1..], f) + f(ws[i])
  {
    var init, last := ws[..|ws| - 1], ws[|ws| - 1];
    if i < |ws| - 1 {
      SumSplit(init, i, f);
      assert ws[..i] + ws[i + 1..] == (init[..i] + init[i + 1..]) + [last];
      SumAppend(init[..i] + init[i + 1..], last, f);
    } else {
      assert ws[..i] + ws[i + 1..] == init;
    }
  }

  // ---- invariant ----

  ghost predicate Counted(s: State, unique: seq<Did>) {
    && |s.workers| <= |unique|
    && s.held == Sum(s.workers, Holds) && s.held <= CONCURRENCY
    && s.waitGroup == Sum(s.workers, Pending)
    && |s.channel| == Sum(s.workers, Sent)
    && (!s.main.Spawning? ==> |s.workers| == |unique|)
  }

  /** The channel carries each finished send once, with the outcome it had. */
  ghost predicate Delivered(s: State) {
    && (forall k | 0 <= k < |s.channel| ::
          && s.channel[k].index < |s.workers| && Sent(s.workers[s.channel[k].index]) == 1
          && s.workers[s.channel[k].index].outcome == s.channel[k].outcome)
    && forall i | 0 <= i < |s.workers| && Sent(s.workers[i]) == 1 :: Item(i, s.workers[i].outcome) in s.channel
  }

  ghost predicate ResultRight(s: State, unique: seq<Did>) {
    s.main.Finished? ==>
      && s.main.result == Fold(unique, s.channel)
      && forall i | 0 <= i < |s.workers| :: s.workers[i].IsDone?
  }

  ghost predicate Invariant(s: State, unique: seq<Did>) {
    Counted(s, unique) && Delivered(s) && ResultRight(s, unique)
  }

  function StepIndex(step: Step): nat {
    if step.Spawn? || step.EndSpawning? || step.Collect? then 0 else step.i
  }

  lemma StepKeepsCounted(s: State, unique: seq<Did>, step: Step)
    requires Counted(s, unique) && Next(s, unique, step).Some?
    ensures Counted(Next(s, unique, step).value, unique)
  {
    var after := Next(s, unique, step).value;
    if step.Spawn? {
      SumAppend(s.workers, Started, Holds);
      SumAppend(s.workers, Started, Pending);
      SumAppend(s.workers, Started, Sent);
    } else if !step.EndSpawning? && !step.Collect? {
      var i := StepIndex(step);
      SumUpdate(s.workers, i, after.workers[i], Holds);
      SumUpdate(s.workers, i, after.workers[i], Pending);
      SumUpdate(s.workers, i, after.workers[i], Sent);
    }
  }

  lemma StepKeepsDelivered(s: State, unique: seq<Did>, step: Step)
    requires Delivered(s) && Next(s, unique, step).Some?
    ensures Delivered(Next(s, unique, step).value)
  {
    var after := Next(s, unique, step).value;
    forall i | 0 <= i < |after.workers| && Sent(after.workers[i]) == 1
      ensures Item(i, after.workers[i].outcome) in after.channel
    {
      if step.Send? && step.i == i {
        assert after.channel[|s.channel|] == Item(i, after.workers[i].outcome);
      } else {
        assert Item(i, s.workers[i].outcome) in s.channel;
      }
    }
  }

  lemma {:induction false} NothingPending(ws: seq<Worker>)
    requires Sum(ws, Pending) == 0
    ensures forall i | 0 <= i < |ws| :: ws[i].IsDone?
  {
    if ws != [] {
      NothingPending(ws[..|ws| - 1]);
    }
  }

  lemma {:induction false} InvariantAlways(unique: seq<Did>, schedule: seq<Step>)
    ensures Invariant(Run(unique, schedule), unique)
  {
    if schedule != [] {
      var init, step := schedule[..|schedule| - 1], schedule[|schedule| - 1];
      var before := Run(unique, init);
      InvariantAlways(unique, init);
      if Next(before, unique, step).Some? {
        StepKeepsCounted(before, unique, step);
        StepKeepsDelivered(before, unique, step);
        if step.Collect? {
          NothingPending(before.workers);
        }
      }
    }
  }

  // ---- over every schedule ----

  /** At most eight goroutines hold the semaphore, and a goroutine that has a
      result can always send it at once. */
  lemma BoundedAndNeverBlockedOnSend(unique: seq<Did>, schedule: seq<Step>, i: nat)
    ensures var s := Run(unique, schedule);
            && Sum(s.workers, Holds) <= CONCURRENCY
            && (i < |s.workers| && s.workers[i].HasResult? ==> Next(s, unique, Send(i)).Some?)
  {
    var s := Run(unique, schedule);
    InvariantAlways(unique, schedule);
    if i < |s.workers| && s.workers[i].HasResult? {
      SumBelow(s.workers, i, Sent);
    }
  }

  /** No deadlock: until the resolver has finished, some step is possible. */
  lemma NoDeadlock(unique: seq<Did>, schedule: seq<Step>) returns (step: Step)
    requires !Run(unique, schedule).main.Finished?
    ensures Next(Run(unique, schedule), unique, step).Some?
  {
    var s := Run(unique, schedule);
    InvariantAlways(unique, schedule);
    if s.main.Spawning? {
      step := if |s.workers| < |unique| then Spawn else EndSpawning;
    } else if i :| 0 <= i < |s.workers| && !s.workers[i].IsDone? && !s.workers[i].Started? {
      match s.workers[i]
      case Acquired => step := Resolve(i, None);
      case HasResult(_) =>
        BoundedAndNeverBlockedOnSend(unique, schedule, i);
        step := Send(i);
      case HasSent(_) =>
        SumUpdate(s.workers, i, Started, Holds);
        step := Release(i);
      case HasReleased(_) => step := Done(i);
    } else if i :| 0 <= i < |s.workers| && s.workers[i].Started? {
      SumZero(s.workers, Holds);
      step := Acquire(i);
    } else {
      SumZero(s.workers, Pending);
      step := Collect;
    }
  }

  /** What is left to do. */
  function Measure(s: State, unique: seq<Did>): int {
    6 * (|unique| - |s.workers|) + Sum(s.workers, Left)
      + (match s.main case Spawning => 2 case AllSpawned => 1 case Finished(_) => 0)
  }

  /** Every possible step lowers the measure, which is never negative: every
      schedule comes to an end after at most 6 * n + 2 effective steps. */
  lemma EveryStepDescends(unique: seq<Did>, schedule: seq<Step>, step: Step)
    requires Next(Run(unique, schedule), unique, step).Some?
    ensures var s := Run(unique, schedule);
            && 0 <= Measure(Next(s, unique, step).value, unique) < Measure(s, unique) <= 6 * |unique| + 2
  {
    var s := Run(unique, schedule);
    var after := Next(s, unique, step).value;
    InvariantAlways(unique, schedule);
    InvariantAlways(unique, schedule + [step]);
    assert (schedule + [step])[..|schedule|] == schedule;
    MeasureStep(s, unique, step);
    SumLeft(s.workers);
  }

  lemma MeasureStep(s: State, unique: seq<Did>, step: Step)
    requires Next(s, unique, step).Some?
    ensures Measure(Next(s, unique, step).value, unique) < Measure(s, unique)
  {
    var after := Next(s, unique, step).value;
    if step.Spawn? {
      SumAppend(s.workers, Started, Left);
    } else if !step.EndSpawning? && !step.Collect? {
      var i := StepIndex(step);
      SumUpdate(s.workers, i, after.workers[i], Left);
    }
  }

  lemma {:induction false} SumLeft(ws: seq<Worker>)
    ensures Sum(ws, Left) <= 5 * |ws|
  {
    if ws != [] {
      SumLeft(ws[..|ws| - 1]);
    }
  }

  // ---- the result ----

  lemma {:induction false} FoldMeaning(unique: seq<Did>, channel: seq<Item>)
    requires Distinct(unique)
    requires forall k | 0 <= k < |channel| :: channel[k].index < |unique|
    ensures Fold(unique, channel).AllKeys? <==> forall k | 0 <= k < |channel| :: channel[k].outcome.Some?
    ensures Fold(unique, channel).AllKeys? ==>
              Fold(unique, channel).keys.Keys == set k | 0 <= k < |channel| :: unique[channel[k].index]
    ensures Fold(unique, channel).FirstFailure? ==>
              exists k :: 0 <= k < |channel| && channel[k].outcome.None?
                          && unique[channel[k].index] == Fold(unique, channel).did
  {
    if channel != [] {
      var init, last := channel[..|channel| - 1], channel[|channel| - 1];
      FoldMeaning(unique, init);
      assert channel == init + [last];
      if Fold(unique, init).FirstFailure? {
        var k :| 0 <= k < |init| && init[k].outcome.None? && unique[init[k].index] == Fold(unique, init).did;
        assert channel[k] == init[k];
      } else if last.outcome.None? {
        assert channel[|init|] == last;
      } else {
        assert forall k | 0 <= k < |channel| :: channel[k] == if k < |init| then init[k] else last;
        assert Fold(unique, channel).keys.Keys == Fold(unique, init).keys.Keys + {unique[last.index]};
      }
    }
  }

  /** Each key in the map is the outcome of the goroutine of that very DID. */
  lemma {:induction false} FoldValues(unique: seq<Did>, channel: seq<Item>, ws: seq<Worker>, i: nat)
    requires Distinct(unique) && i < |ws| <= |unique|
    requires forall k | 0 <= k < |channel| ::
               && channel[k].index < |ws| && Sent(ws[channel[k].index]) == 1
               && ws[channel[k].index].outcome == channel[k].outcome
    requires Fold(unique, channel).AllKeys? && unique[i] in Fold(unique, channel).keys
    ensures Sent(ws[i]) == 1 && ws[i].outcome == Some(Fold(unique, channel).keys[unique[i]])
  {
    if channel != [] {
      var init, last := channel[..|channel| - 1], channel[|channel| - 1];
      if last.index != i {
        assert unique[last.index] != unique[i];
        FoldValues(unique, init, ws, i);
      }
    }
  }

  lemma ChannelCoversAll(s: State, unique: seq<Did>)
    requires Invariant(s, unique) && s.main.Finished?
    ensures (set k | 0 <= k < |s.channel| :: unique[s.channel[k].index]) == Elements(unique)
    ensures (forall k | 0 <= k < |s.channel| :: s.channel[k].outcome.Some?) <==>
            (forall i | 0 <= i < |unique| :: s.workers[i].outcome.Some?)
  {
    forall i | 0 <= i < |unique|
      ensures exists k :: 0 <= k < |s.channel| && s.channel[k] == Item(i, s.workers[i].outcome)
    {
      assert Sent(s.workers[i]) == 1;
      assert Item(i, s.workers[i].outcome) in s.channel;
    }
    forall d | d in Elements(unique)
      ensures d in set k | 0 <= k < |s.channel| :: unique[s.channel[k].index]
    {
      var i :| 0 <= i < |unique| && unique[i] == d;
      var k :| 0 <= k < |s.channel| && s.channel[k] == Item(i, s.workers[i].outcome);
    }
  }

  /** When the resolver finishes, under any schedule: it succeeds exactly when
      every DID resolved, the keys of the result are then exactly the input DIDs,
      each with the key its own resolution returned; otherwise it names a DID that
      did not resolve. */
  lemma ResultIsExact(dids: seq<Did>, unique: seq<Did>, schedule: seq<Step>)
    requires Distinct(unique) && Elements(unique) == Elements(dids)
    requires Run(unique, schedule).main.Finished?
    ensures var s := Run(unique, schedule);
            && |s.workers| == |unique| && (forall i | 0 <= i < |unique| :: s.workers[i].IsDone?)
            && (s.main.result.AllKeys? <==> forall i | 0 <= i < |unique| :: s.workers[i].outcome.Some?)
            && (s.main.result.AllKeys? ==>
                  && s.main.result.keys.Keys == Elements(dids)
                  && forall i | 0 <= i < |unique| :: s.workers[i].outcome == Some(s.main.result.keys[unique[i]]))
            && (s.main.result.FirstFailure? ==>
                  exists i :: 0 <= i < |unique| && unique[i] == s.main.result.did && s.workers[i].outcome.None?)
  {
    var s := Run(unique, schedule);
    InvariantAlways(unique, schedule);
    FoldMeaning(unique, s.channel);
    ChannelCoversAll(s, unique);
    if s.main.result.AllKeys? {
      forall i | 0 <= i < |unique| ensures s.workers[i].outcome == Some(s.main.result.keys[unique[i]]) {
        assert unique[i] in Elements(unique);
        FoldValues(unique, s.channel, s.workers, i);
      }
    } else {
      var k :| 0 <= k < |s.channel| && s.channel[k].outcome.None?
               && unique[s.channel[k].index] == s.main.result.did;
      assert s.workers[s.channel[k].index].outcome.None?;
    }
  }
}
