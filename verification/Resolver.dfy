/**
 DID resolution with a key cache, per-DID singleflight and a circuit breaker.

 Any number of `Resolve` calls run at once. Each critical section of the source
 is one atomic step; an interleaving is a sequence of step labels. The tables of
 the resolver are updated through the functions below, which the methods of the
 class `Tables` implement.
 */
module Resolver {
  import opened Wrappers
  import opened Breaker
  import Base58

  type Did = string
  type Key = seq<nat>

  /** What a finished resolution returns. */
  datatype Outcome = Found(key: Key) | Failed

  const DID_WEB_PREFIX := "did:web:"

  predicate IsWebDid(did: Did) {
    DID_WEB_PREFIX <= did
  }

  predicate IsKeyDid(did: Did) {
    Base58.DID_KEY_PREFIX <= did
  }

  /** What a resolution without the network comes to: the key that a `did:key` spells,
      an error, or a run-time panic in the decoder. A `did:web` that is turned down
      before its circuit is asked for is an error too. */
  datatype Local = Spelled(key: Key) | Refused | Panics

  function ResolveHere(did: Did): Local {
    match Base58.KeyOfDid(did)
    case Ok(key) => Spelled(key)
    case Err(Undecodable(IndexOutOfRange(_))) => Panics
    case Err(_) => Refused
  }

  lemma NotBothMethods(did: Did)
    ensures !(IsWebDid(did) && IsKeyDid(did))
  {
    assert IsWebDid(did) ==> did[4] == DID_WEB_PREFIX[4];
    assert IsKeyDid(did) ==> did[4] == Base58.DID_KEY_PREFIX[4];
  }

  datatype CacheEntry = CacheEntry(key: Key, expiry: int)

  type Cache = map<Did, CacheEntry>

  /** A hit, or a miss that also drops an expired entry. */
  function CacheLookup(cache: Cache, did: Did, now: int): (Option<Key>, Cache) {
    if did !in cache then (None, cache)
    else if now < cache[did].expiry then (Some(cache[did].key), cache)
    else (None, cache - {did})
  }

  /** The entry to wait for, or the new one this caller now leads. */
  function JoinInflight(inflight: map<Did, nat>, did: Did, newId: nat): (Option<nat>, map<Did, nat>) {
    if did in inflight then (Some(inflight[did]), inflight) else (None, inflight[did := newId])
  }

  function StoreKey(cache: Cache, did: Did, key: Key, now: int, ttl: int): Cache {
    cache[did := CacheEntry(key, now + ttl)]
  }

  /** The shared tables, with the four critical sections of `Resolve` on them. */
  class Tables {
    var cache: Cache
    var inflight: map<Did, nat>
    const ttl: int

    constructor (ttl: int)
      ensures cache == map[] && inflight == map[] && this.ttl == ttl
    {
      cache, inflight := map[], map[];
      this.ttl := ttl;
    }

    method Lookup(did: Did, now: int) returns (hit: Option<Key>)
      modifies this
      ensures (hit, cache) == CacheLookup(old(cache), did, now)
      ensures inflight == old(inflight)
    {
      if did in cache {
        if now < cache[did].expiry {
          return Some(cache[did].key);
        }
        cache := cache - {did};
      }
      return None;
    }

    method Join(did: Did, newId: nat) returns (entry: Option<nat>)
      modifies this
      ensures (entry, inflight) == JoinInflight(old(inflight), did, newId)
      ensures cache == old(cache)
    {
      if did in inflight {
        return Some(inflight[did]);
      }
      inflight := inflight[did := newId];
      return None;
    }

    method Unregister(did: Did)
      modifies this
      ensures inflight == old(inflight) - {did} && cache == old(cache)
    {
      inflight := inflight - {did};
    }

    method Store(did: Did, key: Key, now: int)
      modifies this
      ensures cache == StoreKey(old(cache), did, key, now, ttl) && inflight == old(inflight)
    {
      cache := cache[did := CacheEntry(key, now + ttl)];
    }
  }

  // ---- callers ----

  datatype Answer = Got(key: Key) | Errored | Cancelled

  /** Where a call of `Resolve` stands. From `Leading` to `Published` it leads the
      resolution of its DID: it has inserted the inflight entry and not deleted it. */
  datatype Caller =
    | Looking(did: Did)
    | Joining(did: Did)
    | Waiting(did: Did, entry: nat)
    | Leading(did: Did, entry: nat)
    | Holding(did: Did, entry: nat, circuit: nat)
    | Probing(did: Did, entry: nat, circuit: nat)
    | Resolved(did: Did, entry: nat, outcome: Outcome)
    | Published(did: Did, entry: nat, outcome: Outcome)
    | Unregistered(did: Did, outcome: Outcome)
    | Returned(did: Did, answer: Answer)
  {
    predicate Leads() {
      Leading? || Holding? || Probing? || Resolved? || Published?
    }

    predicate HoldsCircuit() {
      Holding? || Probing?
    }
  }

  /** `result` is present once the entry's channel is closed. */
  datatype Entry = Entry(did: Did, result: Option<Outcome>)

  /** A breaker state, the DID it was made for, and the times of its current
      streak of recorded failures. */
  datatype Tracked = Tracked(did: Did, circuit: Circuit, streak: seq<int>)

  datatype Config = Config(ttl: int, threshold: int, cooldown: int)

  /** What has been done to the key cache, in order; dropping an expired entry is not
      among it. */
  datatype CacheEvent = Stored(did: Did, key: Key, at: int) | Evicted(did: Did)

  /** Besides the shared tables the state keeps which caller opened each entry and
      which resolutions have finished with a key, and a log of the cache; steps only read
      these here. A panic
      ends the process, and with it the run. */
  datatype State = State(
    now: int,
    cache: Cache,
    inflight: map<Did, nat>,
    entries: map<nat, Entry>,
    circuitOf: map<Did, nat>,
    circuits: map<nat, Tracked>,
    callers: map<nat, Caller>,
    opener: map<nat, nat>,
    finished: set<(Did, Key)>,
    crashed: bool,
    log: seq<CacheEvent>)

  datatype Step =
    | Call(t: nat, did: Did)
    | Lookup(t: nat)
    | Join(t: nat, newId: nat)
    | Cancel(t: nat)
    | Wake(t: nat)
    | ResolveLocally(t: nat)
    | Panic(t: nat)
    | GetCircuit(t: nat, newId: nat)
    | CheckCircuit(t: nat)
    | ProbeBlocked(t: nat)
    | ProbeFailed(t: nat)
    | ProbeSucceeded(t: nat, key: Key)
    | Publish(t: nat)
    | Unregister(t: nat)
    | Finish(t: nat)
    | EvictKey(did: Did)
    | EvictCircuit(did: Did)
    | Tick(amount: nat)

  function Init(now: int): State {
    State(now, map[], map[], map[], map[], map[], map[], map[], {}, false, [])
  }

  function Move(s: State, t: nat, c: Caller): State {
    s.(callers := s.callers[t := c])
  }

  /** The state after a step, or none when the step is not possible. */
  function Next(s: State, cfg: Config, step: Step): Option<State> {
    if s.crashed then None else
    match step
    case Panic(t) =>
      if t in s.callers && s.callers[t].Leading? && ResolveHere(s.callers[t].did).Panics? then
        Some(s.(crashed := true))
      else None
    case Call(t, did) =>
      if t in s.callers then None else Some(Move(s, t, Looking(did)))
    case EvictKey(did) => Some(s.(cache := s.cache - {did}, log := s.log + [Evicted(did)]))
    case EvictCircuit(did) => Some(s.(circuitOf := s.circuitOf - {did}))
    case Tick(amount) => Some(s.(now := s.now + amount))
    case _ =>
      if step.t !in s.callers then None else CallerStep(s, cfg, step, step.t, s.callers[step.t])
  }

  function Locally(s: State, t: nat, did: Did, e: nat, local: Local): Option<State> {
    match local
    case Spelled(key) => Some(Move(s.(finished := s.finished + {(did, key)}), t, Resolved(did, e, Found(key))))
    case Refused => Some(Move(s, t, Resolved(did, e, Failed)))
    case Panics => None
  }

  function CallerStep(s: State, cfg: Config, step: Step, t: nat, c: Caller): Option<State> {
    match (step, c)
    case (Lookup(_), Looking(did)) =>
      var (hit, cache) := CacheLookup(s.cache, did, s.now);
      Some(Move(s.(cache := cache), t, if hit.Some? then Returned(did, Got(hit.value)) else Joining(did)))
    case (Join(_, newId), Joining(did)) =>
      if newId in s.entries then None else
        var (entry, inflight) := JoinInflight(s.inflight, did, newId);
        if entry.Some? then Some(Move(s, t, Waiting(did, entry.value)))
        else
          Some(Move(s.(inflight := inflight,
                       entries := s.entries[newId := Entry(did, None)],
                       opener := s.opener[newId := t]), t, Leading(did, newId)))
    case (Cancel(_), Waiting(did, e)) => Some(Move(s, t, Returned(did, Cancelled)))
    case (Wake(_), Waiting(did, e)) =>
      if e !in s.entries || s.entries[e].result.None? then None
      else Some(Move(s, t, Returned(did, AnswerOf(s.entries[e].result.value))))
    case (ResolveLocally(_), Leading(did, e)) =>
      Locally(s, t, did, e, ResolveHere(did))
    case (GetCircuit(_, newId), Leading(did, e)) =>
      if !IsWebDid(did) then None
      else if did in s.circuitOf then Some(Move(s, t, Holding(did, e, s.circuitOf[did])))
      else if newId in s.circuits then None
      else
        Some(Move(s.(circuitOf := s.circuitOf[did := newId],
                     circuits := s.circuits[newId := Tracked(did, CLOSED, [])]), t, Holding(did, e, newId)))
    case (CheckCircuit(_), Holding(did, e, k)) =>
      if k !in s.circuits then None else
        var (open, after) := IsOpen(s.circuits[k].circuit, s.now);
        Some(Move(s.(circuits := s.circuits[k := s.circuits[k].(circuit := after)]), t,
                  if open then Resolved(did, e, Failed) else Probing(did, e, k)))
    case (ProbeBlocked(_), Probing(did, e, k)) => Some(Move(s, t, Resolved(did, e, Failed)))
    case (ProbeFailed(_), Probing(did, e, k)) =>
      if k !in s.circuits then None else
        var tr := s.circuits[k];
        var after := Tracked(tr.did, OnFailure(tr.circuit, cfg.threshold, cfg.cooldown, s.now), tr.streak + [s.now]);
        Some(Move(s.(circuits := s.circuits[k := after]), t, Resolved(did, e, Failed)))
    case (ProbeSucceeded(_, key), Probing(did, e, k)) =>
      if k !in s.circuits then None else
        Some(Move(s.(circuits := s.circuits[k := Tracked(s.circuits[k].did, CLOSED, [])],
                     finished := s.finished + {(did, key)}), t, Resolved(did, e, Found(key))))
    case (Publish(_), Resolved(did, e, outcome)) =>
      Some(Move(s.(entries := s.entries[e := Entry(did, Some(outcome))]), t, Published(did, e, outcome)))
    case (Unregister(_), Published(did, e, outcome)) =>
      Some(Move(s.(inflight := s.inflight - {did}), t, Unregistered(did, outcome)))
    case (Finish(_), Unregistered(did, outcome)) =>
      Some(Move(if outcome.Found? then
                  s.(cache := StoreKey(s.cache, did, outcome.key, s.now, cfg.ttl),
                     log := s.log + [Stored(did, outcome.key, s.now)])
                else s,
                t, Returned(did, AnswerOf(outcome))))
    case _ => None
  }

  function AnswerOf(outcome: Outcome): Answer {
    match outcome
    case Found(key) => Got(key)
    case Failed => Errored
  }

  /** Runs a schedule, skipping steps that are not possible. */
  function Run(s: State, cfg: Config, schedule: seq<Step>): State {
    if schedule == [] then s else
      var before := Run(s, cfg, schedule[..|schedule| - 1]);
      match Next(before, cfg, schedule[|schedule| - 1])
      case Some(after) => after
      case None => before
  }

  // ---- invariants ----

  /** Two leaders of one DID are the same caller. */
  ghost predicate OneLeader(s: State) {
    forall t, u | t in s.callers && u in s.callers && s.callers[t].Leads() && s.callers[u].Leads()
                  && s.callers[t].did == s.callers[u].did :: t == u
  }

  /** A leader's entry is registered, and published exactly from `Published` on. */
  ghost predicate LeadersRegistered(s: State) {
    forall t | t in s.callers && s.callers[t].Leads() :: LeaderRegistered(s, t, s.callers[t])
  }

  ghost predicate LeaderRegistered(s: State, t: nat, c: Caller)
    requires c.Leads()
  {
    && c.did in s.inflight && s.inflight[c.did] == c.entry
    && c.entry in s.entries && s.entries[c.entry].did == c.did
    && c.entry in s.opener && s.opener[c.entry] == t
    && s.entries[c.entry].result == if c.Published? then Some(c.outcome) else None
  }

  /** Every registered entry has a leader. */
  ghost predicate RegisteredLed(s: State) {
    forall did | did in s.inflight :: DidLed(s, did)
  }

  ghost predicate DidLed(s: State, did: Did)
    requires did in s.inflight
  {
    var e := s.inflight[did];
    && e in s.opener && s.opener[e] in s.callers
    && s.callers[s.opener[e]].Leads()
    && s.callers[s.opener[e]].did == did && s.callers[s.opener[e]].entry == e
  }

  /** An entry that is still open is registered; a waiter's entry is for its DID. */
  ghost predicate WaitersServed(s: State) {
    && (forall e | e in s.entries && s.entries[e].result.None? ::
          s.entries[e].did in s.inflight && s.inflight[s.entries[e].did] == e)
    && forall t | t in s.callers && s.callers[t].Waiting? ::
         s.callers[t].entry in s.entries && s.entries[s.callers[t].entry].did == s.callers[t].did
  }

  ghost predicate OutcomeKnown(s: State, did: Did, outcome: Outcome) {
    outcome.Found? ==> (did, outcome.key) in s.finished
  }

  ghost predicate CallerKnown(s: State, c: Caller) {
    match c
    case Resolved(did, _, outcome) => OutcomeKnown(s, did, outcome)
    case Published(did, _, outcome) => OutcomeKnown(s, did, outcome)
    case Unregistered(did, outcome) => OutcomeKnown(s, did, outcome)
    case Returned(did, Got(key)) => (did, key) in s.finished
    case _ => true
  }

  /** Every key in sight came from a finished resolution of that same DID. */
  ghost predicate KeysKnown(s: State) {
    && (forall did | did in s.cache :: (did, s.cache[did].key) in s.finished)
    && (forall e | e in s.entries && s.entries[e].result.Some? ::
          OutcomeKnown(s, s.entries[e].did, s.entries[e].result.value))
    && forall t | t in s.callers :: CallerKnown(s, s.callers[t])
  }

  /** Breaker states follow their streaks; a probe runs on a closed circuit of its
      own DID. */
  ghost predicate CircuitsTracked(s: State, cfg: Config) {
    && (forall did | did in s.circuitOf :: s.circuitOf[did] in s.circuits && s.circuits[s.circuitOf[did]].did == did)
    && (forall k | k in s.circuits ::
          Tracks(s.circuits[k].circuit, s.circuits[k].streak, cfg.threshold, cfg.cooldown, s.now))
    && forall t | t in s.callers && s.callers[t].HoldsCircuit() :: CircuitHeld(s, s.callers[t])
  }

  ghost predicate CircuitHeld(s: State, c: Caller)
    requires c.HoldsCircuit()
  {
    && c.circuit in s.circuits && s.circuits[c.circuit].did == c.did
    && (c.Probing? ==> s.circuits[c.circuit].circuit.openUntil.None?)
  }

  /** Finished resolutions of a `did:key` gave the key it spells, and only a `did:web`
      gets as far as a circuit. */
  ghost predicate KeysSpelled(s: State) {
    && (forall did, key | (did, key) in s.finished :: IsWebDid(did) || ResolveHere(did) == Spelled(key))
    && forall t | t in s.callers && s.callers[t].HoldsCircuit() :: IsWebDid(s.callers[t].did)
  }

  /** A crash has a leader of an identifier that makes the decoder panic behind it. */
  ghost predicate CrashExplained(s: State) {
    s.crashed ==> exists t | t in s.callers :: s.callers[t].Leading? && ResolveHere(s.callers[t].did).Panics?
  }

  ghost predicate Flight(s: State) {
    LeadersRegistered(s) && RegisteredLed(s) && WaitersServed(s)
  }

  ghost predicate Invariant(s: State, cfg: Config) {
    Flight(s) && KeysKnown(s) && CircuitsTracked(s, cfg) && KeysSpelled(s) && CrashExplained(s)
  }

  // ---- each step keeps them: singleflight ----

  ghost predicate SameFlightTables(s: State, after: State) {
    after.inflight == s.inflight && after.entries == s.entries && after.opener == s.opener
  }

  /** The caller moves without entering or leaving leadership. */
  ghost predicate Quiet(s: State, t: nat, c: Caller) {
    && (if c.Leads() then
          && t in s.callers && s.callers[t].Leads() && !s.callers[t].Published? && !c.Published?
          && s.callers[t].did == c.did && s.callers[t].entry == c.entry
        else t in s.callers ==> !s.callers[t].Leads())
    && (c.Waiting? ==> c.entry in s.entries && s.entries[c.entry].did == c.did)
  }

  lemma QuietKeepsFlight(s: State, after: State, t: nat, c: Caller)
    requires Flight(s) && SameFlightTables(s, after)
    requires after.callers == s.callers[t := c] && Quiet(s, t, c)
    ensures Flight(after)
  {
  }

  ghost predicate Joins(s: State, after: State, t: nat, did: Did, e: nat) {
    && t in s.callers && s.callers[t] == Joining(did)
    && did !in s.inflight && e !in s.entries
    && after.inflight == s.inflight[did := e] && after.entries == s.entries[e := Entry(did, None)]
    && after.opener == s.opener[e := t] && after.callers == s.callers[t := Leading(did, e)]
  }

  lemma JoinKeepsLeaders(s: State, after: State, t: nat, did: Did, e: nat)
    requires LeadersRegistered(s) && Joins(s, after, t, did, e)
    ensures LeadersRegistered(after)
  {
    forall u | u in after.callers && after.callers[u].Leads() ensures LeaderRegistered(after, u, after.callers[u]) {
      if u != t {
        assert LeaderRegistered(s, u, s.callers[u]);
      }
    }
  }

  lemma JoinKeepsLed(s: State, after: State, t: nat, did: Did, e: nat)
    requires LeadersRegistered(s) && RegisteredLed(s) && Joins(s, after, t, did, e)
    ensures RegisteredLed(after)
  {
    forall d | d in after.inflight ensures DidLed(after, d) {
      if d != did {
        assert DidLed(s, d);
        var u := s.opener[s.inflight[d]];
        assert LeaderRegistered(s, u, s.callers[u]);
      }
    }
  }

  lemma JoinKeepsFlight(s: State, after: State, t: nat, did: Did, e: nat)
    requires Flight(s) && Joins(s, after, t, did, e)
    ensures Flight(after)
  {
    JoinKeepsLeaders(s, after, t, did, e);
    JoinKeepsLed(s, after, t, did, e);
  }

  ghost predicate Publishes(s: State, after: State, t: nat, did: Did, e: nat, outcome: Outcome) {
    && t in s.callers && s.callers[t] == Resolved(did, e, outcome)
    && after.inflight == s.inflight && after.entries == s.entries[e := Entry(did, Some(outcome))]
    && after.opener == s.opener && after.callers == s.callers[t := Published(did, e, outcome)]
  }

  lemma PublishKeepsFlight(s: State, after: State, t: nat, did: Did, e: nat, outcome: Outcome)
    requires Flight(s) && Publishes(s, after, t, did, e, outcome)
    ensures Flight(after)
  {
    assert LeaderRegistered(s, t, s.callers[t]);
    forall u | u in after.callers && after.callers[u].Leads() ensures LeaderRegistered(after, u, after.callers[u]) {
      if u != t {
        assert LeaderRegistered(s, u, s.callers[u]);
      }
    }
    forall d | d in after.inflight ensures DidLed(after, d) {
      assert DidLed(s, d);
    }
  }

  ghost predicate Unregisters(s: State, after: State, t: nat, did: Did, e: nat, outcome: Outcome) {
    && t in s.callers && s.callers[t] == Published(did, e, outcome)
    && after.inflight == s.inflight - {did} && after.entries == s.entries
    && after.opener == s.opener && after.callers == s.callers[t := Unregistered(did, outcome)]
  }

  lemma UnregisterKeepsLeaders(s: State, after: State, t: nat, did: Did, e: nat, outcome: Outcome)
    requires LeadersRegistered(s) && Unregisters(s, after, t, did, e, outcome)
    ensures LeadersRegistered(after)
  {
    assert LeaderRegistered(s, t, s.callers[t]);
    forall u | u in after.callers && after.callers[u].Leads() ensures LeaderRegistered(after, u, after.callers[u]) {
      assert LeaderRegistered(s, u, s.callers[u]);
    }
  }

  lemma UnregisterKeepsFlight(s: State, after: State, t: nat, did: Did, e: nat, outcome: Outcome)
    requires Flight(s) && Unregisters(s, after, t, did, e, outcome)
    ensures Flight(after)
  {
    UnregisterKeepsLeaders(s, after, t, did, e, outcome);
    assert LeaderRegistered(s, t, s.callers[t]);
    forall d | d in after.inflight ensures DidLed(after, d) {
      assert DidLed(s, d);
    }
  }

  /** Which caller a step moves, if any. */
  predicate MovesCaller(step: Step) {
    !step.EvictKey? && !step.EvictCircuit? && !step.Tick? && !step.Panic?
  }

  /** The steps between leading and having an outcome. */
  predicate Resolves(step: Step) {
    || step.ResolveLocally? || step.GetCircuit? || step.CheckCircuit?
    || step.ProbeBlocked? || step.ProbeFailed? || step.ProbeSucceeded?
  }

  /** All that such a step does to callers and finished resolutions. */
  ghost predicate Advances(s: State, after: State, step: Step)
    requires Resolves(step)
  {
    && SameFlightTables(s, after) && after.cache == s.cache && after.log == s.log && after.now == s.now && !after.crashed
    && step.t in s.callers && step.t in after.callers
    && after.callers == s.callers[step.t := after.callers[step.t]]
    && var c, d := s.callers[step.t], after.callers[step.t];
    && (c.Leading? || c.Holding? || c.Probing?) && (d.Holding? || d.Probing? || d.Resolved?)
    && d.did == c.did && d.entry == c.entry && Remaining(d) < Remaining(c)
    && (d.HoldsCircuit() ==> IsWebDid(d.did) || c.HoldsCircuit())
    && (if d.Resolved? && d.outcome.Found? then
          && after.finished == s.finished + {(d.did, d.outcome.key)}
          && (c.Probing? || ResolveHere(d.did) == Spelled(d.outcome.key))
        else after.finished == s.finished)
    && (!UsesCircuit(step) ==>
          after.circuits == s.circuits && after.circuitOf == s.circuitOf && after.now == s.now && d.Resolved?)
  }

  lemma ResolvingStep(s: State, cfg: Config, step: Step)
    requires Resolves(step) && Next(s, cfg, step).Some?
    ensures Advances(s, Next(s, cfg, step).value, step)
  {
    if step.ResolveLocally? {
      LocalStep(s, cfg, step.t);
    } else if step.GetCircuit? {
      GetCircuitStep(s, cfg, step.t, step.newId);
    } else if step.CheckCircuit? {
      CheckCircuitStep(s, cfg, step.t);
    } else {
      ProbeStep(s, cfg, step);
    }
  }

  lemma LocalStep(s: State, cfg: Config, t: nat)
    requires Next(s, cfg, ResolveLocally(t)).Some?
    ensures Advances(s, Next(s, cfg, ResolveLocally(t)).value, ResolveLocally(t))
  {
    LocalSource(s, cfg, t);
    LocallyAdvances(s, Next(s, cfg, ResolveLocally(t)).value, t, s.callers[t], ResolveHere(s.callers[t].did));
  }

  lemma LocalSource(s: State, cfg: Config, t: nat)
    requires Next(s, cfg, ResolveLocally(t)).Some?
    ensures t in s.callers && s.callers[t].Leading? && !s.crashed
    ensures var c := s.callers[t];
            Next(s, cfg, ResolveLocally(t)) == Locally(s, t, c.did, c.entry, ResolveHere(c.did))
  {
  }

  lemma LocallyAdvances(s: State, after: State, t: nat, c: Caller, local: Local)
    requires t in s.callers && c == s.callers[t] && c.Leading? && !s.crashed
    requires local == ResolveHere(c.did) && Locally(s, t, c.did, c.entry, local) == Some(after)
    ensures Advances(s, after, ResolveLocally(t))
  {
  }

  lemma GetCircuitStep(s: State, cfg: Config, t: nat, newId: nat)
    requires Next(s, cfg, GetCircuit(t, newId)).Some?
    ensures Advances(s, Next(s, cfg, GetCircuit(t, newId)).value, GetCircuit(t, newId))
  {
  }

  lemma CheckCircuitStep(s: State, cfg: Config, t: nat)
    requires Next(s, cfg, CheckCircuit(t)).Some?
    ensures Advances(s, Next(s, cfg, CheckCircuit(t)).value, CheckCircuit(t))
  {
  }

  lemma ProbeStep(s: State, cfg: Config, step: Step)
    requires step.ProbeBlocked? || step.ProbeFailed? || step.ProbeSucceeded?
    requires Next(s, cfg, step).Some?
    ensures Advances(s, Next(s, cfg, step).value, step)
  {
  }

  lemma QuietStep(s: State, cfg: Config, step: Step)
    requires MovesCaller(step) && !step.Join? && !step.Publish? && !step.Unregister?
    requires Next(s, cfg, step).Some?
    ensures var after := Next(s, cfg, step).value;
            && SameFlightTables(s, after)
            && step.t in after.callers
            && after.callers == s.callers[step.t := after.callers[step.t]]
            && Quiet(s, step.t, after.callers[step.t])
  {
    if Resolves(step) {
      ResolvingStep(s, cfg, step);
    } else {
      QuietStepOtherwise(s, cfg, step);
    }
  }

  lemma QuietStepOtherwise(s: State, cfg: Config, step: Step)
    requires !Resolves(step)
    requires MovesCaller(step) && !step.Join? && !step.Publish? && !step.Unregister?
    requires Next(s, cfg, step).Some?
    ensures var after := Next(s, cfg, step).value;
            && SameFlightTables(s, after)
            && step.t in after.callers
            && after.callers == s.callers[step.t := after.callers[step.t]]
            && Quiet(s, step.t, after.callers[step.t])
  {
  }

  lemma StepKeepsFlight(s: State, cfg: Config, step: Step)
    requires Flight(s) && Next(s, cfg, step).Some?
    ensures Flight(Next(s, cfg, step).value)
  {
    if !MovesCaller(step) {
      assert Next(s, cfg, step).value.callers == s.callers && SameFlightTables(s, Next(s, cfg, step).value);
    } else if step.Join? {
      JoinStep(s, cfg, step.t, step.newId);
    } else if step.Publish? {
      PublishStep(s, cfg, step.t);
    } else if step.Unregister? {
      UnregisterStep(s, cfg, step.t);
    } else {
      QuietStepKeepsFlight(s, cfg, step);
    }
  }

  lemma QuietStepKeepsFlight(s: State, cfg: Config, step: Step)
    requires MovesCaller(step) && !step.Join? && !step.Publish? && !step.Unregister?
    requires Flight(s) && Next(s, cfg, step).Some?
    ensures Flight(Next(s, cfg, step).value)
  {
    QuietStep(s, cfg, step);
    var after := Next(s, cfg, step).value;
    QuietKeepsFlight(s, after, step.t, after.callers[step.t]);
  }

  lemma PublishStep(s: State, cfg: Config, t: nat)
    requires Flight(s) && Next(s, cfg, Publish(t)).Some?
    ensures Flight(Next(s, cfg, Publish(t)).value)
  {
    var c := s.callers[t];
    PublishKeepsFlight(s, Next(s, cfg, Publish(t)).value, t, c.did, c.entry, c.outcome);
  }

  lemma UnregisterStep(s: State, cfg: Config, t: nat)
    requires Flight(s) && Next(s, cfg, Unregister(t)).Some?
    ensures Flight(Next(s, cfg, Unregister(t)).value)
  {
    var c := s.callers[t];
    UnregisterKeepsFlight(s, Next(s, cfg, Unregister(t)).value, t, c.did, c.entry, c.outcome);
  }

  lemma JoinStep(s: State, cfg: Config, t: nat, newId: nat)
    requires Flight(s) && Next(s, cfg, Join(t, newId)).Some?
    ensures Flight(Next(s, cfg, Join(t, newId)).value)
  {
    var after := Next(s, cfg, Join(t, newId)).value;
    var did := s.callers[t].did;
    if did in s.inflight {
      assert DidLed(s, did);
      var u := s.opener[s.inflight[did]];
      assert LeaderRegistered(s, u, s.callers[u]);
      QuietKeepsFlight(s, after, t, after.callers[t]);
    } else {
      JoinKeepsFlight(s, after, t, did, newId);
    }
  }

  lemma LeaderIsUnique(s: State)
    requires Flight(s)
    ensures OneLeader(s)
  {
    forall t, u | t in s.callers && u in s.callers && s.callers[t].Leads() && s.callers[u].Leads()
                  && s.callers[t].did == s.callers[u].did
      ensures t == u
    {
      assert LeaderRegistered(s, t, s.callers[t]) && LeaderRegistered(s, u, s.callers[u]);
    }
  }

  // ---- each step keeps them: where keys come from ----

  /** Sufficient for one caller's move to keep the provenance of keys. */
  lemma MoveKeepsKeys(s: State, after: State, t: nat, c: Caller)
    requires KeysKnown(s) && s.finished <= after.finished
    requires after.callers == s.callers[t := c] && CallerKnown(after, c)
    requires forall did | did in after.cache ::
               (did in s.cache && after.cache[did] == s.cache[did]) || (did, after.cache[did].key) in after.finished
    requires forall e | e in after.entries && after.entries[e].result.Some? ::
               (e in s.entries && after.entries[e] == s.entries[e])
               || OutcomeKnown(after, after.entries[e].did, after.entries[e].result.value)
    ensures KeysKnown(after)
  {
    forall u | u in after.callers ensures CallerKnown(after, after.callers[u]) {
      if u != t {
        assert CallerKnown(s, s.callers[u]);
      }
    }
  }

  lemma StepKeepsKeys(s: State, cfg: Config, step: Step)
    requires KeysKnown(s) && WaitersServed(s) && Next(s, cfg, step).Some?
    ensures KeysKnown(Next(s, cfg, step).value)
  {
    if MovesCaller(step) {
      CallerStepKeepsKeys(s, cfg, step);
    } else {
      TableStepKeepsKeys(s, cfg, step);
    }
  }

  lemma TableStepKeepsKeys(s: State, cfg: Config, step: Step)
    requires !MovesCaller(step) && KeysKnown(s) && Next(s, cfg, step).Some?
    ensures KeysKnown(Next(s, cfg, step).value)
  {
    forall u | u in s.callers ensures CallerKnown(Next(s, cfg, step).value, s.callers[u]) {
      assert CallerKnown(s, s.callers[u]);
    }
  }

  lemma CallerStepKeepsKeys(s: State, cfg: Config, step: Step)
    requires MovesCaller(step) && KeysKnown(s) && WaitersServed(s) && Next(s, cfg, step).Some?
    ensures KeysKnown(Next(s, cfg, step).value)
  {
    CallerKeys(s, cfg, step);
    TableKeys(s, cfg, step);
    var after := Next(s, cfg, step).value;
    MoveKeepsKeys(s, after, step.t, after.callers[step.t]);
  }

  lemma CallerKeys(s: State, cfg: Config, step: Step)
    requires MovesCaller(step) && KeysKnown(s) && WaitersServed(s) && Next(s, cfg, step).Some?
    ensures var after := Next(s, cfg, step).value;
            && s.finished <= after.finished
            && step.t in after.callers && after.callers == s.callers[step.t := after.callers[step.t]]
            && CallerKnown(after, after.callers[step.t])
  {
    if Resolves(step) {
      ResolvingStep(s, cfg, step);
      if step.t in s.callers {
        assert CallerKnown(s, s.callers[step.t]);
      }
    } else {
      CallerKeysOtherwise(s, cfg, step);
    }
  }

  lemma CallerKeysOtherwise(s: State, cfg: Config, step: Step)
    requires !Resolves(step)
    requires MovesCaller(step) && KeysKnown(s) && WaitersServed(s) && Next(s, cfg, step).Some?
    ensures var after := Next(s, cfg, step).value;
            && s.finished <= after.finished
            && step.t in after.callers && after.callers == s.callers[step.t := after.callers[step.t]]
            && CallerKnown(after, after.callers[step.t])
  {
    if step.t in s.callers {
      assert CallerKnown(s, s.callers[step.t]);
    }
  }

  lemma TableKeys(s: State, cfg: Config, step: Step)
    requires MovesCaller(step) && KeysKnown(s) && Next(s, cfg, step).Some?
    ensures var after := Next(s, cfg, step).value;
            && (forall did | did in after.cache ::
                 (did in s.cache && after.cache[did] == s.cache[did]) || (did, after.cache[did].key) in after.finished)
            && (forall e | e in after.entries && after.entries[e].result.Some? ::
                 (e in s.entries && after.entries[e] == s.entries[e])
                 || OutcomeKnown(after, after.entries[e].did, after.entries[e].result.value))
  {
    if Resolves(step) {
      ResolvingStep(s, cfg, step);
      if step.t in s.callers {
        assert CallerKnown(s, s.callers[step.t]);
      }
    } else {
      TableKeysOtherwise(s, cfg, step);
    }
  }

  lemma TableKeysOtherwise(s: State, cfg: Config, step: Step)
    requires !Resolves(step)
    requires MovesCaller(step) && KeysKnown(s) && Next(s, cfg, step).Some?
    ensures var after := Next(s, cfg, step).value;
            && (forall did | did in after.cache ::
                 (did in s.cache && after.cache[did] == s.cache[did]) || (did, after.cache[did].key) in after.finished)
            && (forall e | e in after.entries && after.entries[e].result.Some? ::
                 (e in s.entries && after.entries[e] == s.entries[e])
                 || OutcomeKnown(after, after.entries[e].did, after.entries[e].result.value))
  {
    if step.t in s.callers {
      assert CallerKnown(s, s.callers[step.t]);
    }
  }

  // ---- each step keeps them: circuits ----

  ghost predicate UsesCircuit(step: Step) {
    step.GetCircuit? || step.CheckCircuit? || step.ProbeFailed? || step.ProbeSucceeded?
  }

  /** Steps that do not use a circuit leave them alone, but time may pass. */
  lemma CircuitsUntouched(s: State, cfg: Config, step: Step)
    requires !UsesCircuit(step) && Next(s, cfg, step).Some?
    ensures var after := Next(s, cfg, step).value;
            && after.circuits == s.circuits && s.now <= after.now
            && (forall did | did in after.circuitOf :: did in s.circuitOf && after.circuitOf[did] == s.circuitOf[did])
            && (forall t | t in after.callers && after.callers[t].HoldsCircuit() ::
                  t in s.callers && after.callers[t] == s.callers[t])
  {
    if Resolves(step) {
      ResolvingStep(s, cfg, step);
    } else {
      CircuitsUntouchedOtherwise(s, cfg, step);
    }
  }

  lemma CircuitsUntouchedOtherwise(s: State, cfg: Config, step: Step)
    requires !Resolves(step)
    requires !UsesCircuit(step) && Next(s, cfg, step).Some?
    ensures var after := Next(s, cfg, step).value;
            && after.circuits == s.circuits && s.now <= after.now
            && (forall did | did in after.circuitOf :: did in s.circuitOf && after.circuitOf[did] == s.circuitOf[did])
            && (forall t | t in after.callers && after.callers[t].HoldsCircuit() ::
                  t in s.callers && after.callers[t] == s.callers[t])
  {
  }

  lemma OtherStepKeepsCircuits(s: State, cfg: Config, after: State)
    requires CircuitsTracked(s, cfg)
    requires after.circuits == s.circuits && s.now <= after.now
    requires forall did | did in after.circuitOf :: did in s.circuitOf && after.circuitOf[did] == s.circuitOf[did]
    requires forall t | t in after.callers && after.callers[t].HoldsCircuit() ::
               t in s.callers && after.callers[t] == s.callers[t]
    ensures CircuitsTracked(after, cfg)
  {
    forall k | k in after.circuits
      ensures Tracks(after.circuits[k].circuit, after.circuits[k].streak, cfg.threshold, cfg.cooldown, after.now)
    {
      LaterTracks(s.circuits[k].circuit, s.circuits[k].streak, cfg.threshold, cfg.cooldown, s.now, after.now);
    }
    forall t | t in after.callers && after.callers[t].HoldsCircuit() ensures CircuitHeld(after, after.callers[t]) {
      assert CircuitHeld(s, s.callers[t]);
    }
  }

  /** Updating the breaker state its caller holds: nobody else holds that state,
      for a second holder would lead the same DID. */
  lemma UpdateKeepsCircuits(s: State, cfg: Config, after: State, t: nat, tr: Tracked, c: Caller)
    requires CircuitsTracked(s, cfg) && OneLeader(s)
    requires t in s.callers && s.callers[t].HoldsCircuit() && after.now == s.now
    requires after.circuitOf == s.circuitOf && after.circuits == s.circuits[s.callers[t].circuit := tr]
    requires after.callers == s.callers[t := c]
    requires tr.did == s.callers[t].did && Tracks(tr.circuit, tr.streak, cfg.threshold, cfg.cooldown, s.now)
    requires c.HoldsCircuit() ==> c.circuit == s.callers[t].circuit && c.did == tr.did && tr.circuit.openUntil.None?
    ensures CircuitsTracked(after, cfg)
  {
    assert CircuitHeld(s, s.callers[t]);
    forall u | u in after.callers && after.callers[u].HoldsCircuit() ensures CircuitHeld(after, after.callers[u]) {
      if u != t {
        assert CircuitHeld(s, s.callers[u]);
      }
    }
  }

  /** A caller takes hold of a breaker state, new or not, for its own DID. */
  lemma GetKeepsCircuits(s: State, cfg: Config, after: State, t: nat, did: Did, e: nat, k: nat)
    requires CircuitsTracked(s, cfg) && after.now == s.now
    requires after.callers == s.callers[t := Holding(did, e, k)]
    requires || (after.circuits == s.circuits && after.circuitOf == s.circuitOf
                 && k in s.circuits && s.circuits[k].did == did)
             || (k !in s.circuits && after.circuits == s.circuits[k := Tracked(did, CLOSED, [])]
                 && after.circuitOf == s.circuitOf[did := k])
    ensures CircuitsTracked(after, cfg)
  {
    forall u | u in after.callers && after.callers[u].HoldsCircuit() ensures CircuitHeld(after, after.callers[u]) {
      if u != t {
        assert CircuitHeld(s, s.callers[u]);
      }
    }
  }

  lemma GetStep(s: State, cfg: Config, t: nat, newId: nat)
    requires CircuitsTracked(s, cfg) && Next(s, cfg, GetCircuit(t, newId)).Some?
    ensures CircuitsTracked(Next(s, cfg, GetCircuit(t, newId)).value, cfg)
  {
    var c := s.callers[t];
    var k := if c.did in s.circuitOf then s.circuitOf[c.did] else newId;
    GetKeepsCircuits(s, cfg, Next(s, cfg, GetCircuit(t, newId)).value, t, c.did, c.entry, k);
  }

  lemma HolderKeepsCircuits(s: State, cfg: Config, step: Step)
    requires CircuitsTracked(s, cfg) && OneLeader(s) && Next(s, cfg, step).Some?
    requires step.CheckCircuit? || step.ProbeFailed? || step.ProbeSucceeded?
    ensures CircuitsTracked(Next(s, cfg, step).value, cfg)
  {
    var after, t := Next(s, cfg, step).value, step.t;
    var c := s.callers[t];
    assert CircuitHeld(s, c);
    var tr := s.circuits[c.circuit];
    if step.CheckCircuit? {
      CheckTracks(tr.circuit, tr.streak, cfg.threshold, cfg.cooldown, s.now);
    } else if step.ProbeFailed? {
      FailureTracks(tr.circuit, tr.streak, cfg.threshold, cfg.cooldown, s.now);
    }
    UpdateKeepsCircuits(s, cfg, after, t, after.circuits[c.circuit], after.callers[t]);
  }

  lemma StepKeepsCircuits(s: State, cfg: Config, step: Step)
    requires CircuitsTracked(s, cfg) && OneLeader(s) && Next(s, cfg, step).Some?
    ensures CircuitsTracked(Next(s, cfg, step).value, cfg)
  {
    if !UsesCircuit(step) {
      CircuitsUntouched(s, cfg, step);
      OtherStepKeepsCircuits(s, cfg, Next(s, cfg, step).value);
    } else if step.GetCircuit? {
      GetStep(s, cfg, step.t, step.newId);
    } else {
      HolderKeepsCircuits(s, cfg, step);
    }
  }

  // ---- each step keeps them: what keys are, and crashes ----

  lemma StepKeepsSpelled(s: State, cfg: Config, step: Step)
    requires KeysSpelled(s) && Next(s, cfg, step).Some?
    ensures KeysSpelled(Next(s, cfg, step).value)
  {
    if Resolves(step) {
      ResolvingStep(s, cfg, step);
      if MovesCaller(step) && step.t in s.callers {
        NotBothMethods(s.callers[step.t].did);
      }
    } else {
      StepKeepsSpelledOtherwise(s, cfg, step);
    }
  }

  lemma StepKeepsSpelledOtherwise(s: State, cfg: Config, step: Step)
    requires !Resolves(step)
    requires KeysSpelled(s) && Next(s, cfg, step).Some?
    ensures KeysSpelled(Next(s, cfg, step).value)
  {
    CircuitsUntouchedOtherwise(s, cfg, step);
    NothingFinishes(s, cfg, step);
  }

  lemma NothingFinishes(s: State, cfg: Config, step: Step)
    requires !Resolves(step) && Next(s, cfg, step).Some?
    ensures Next(s, cfg, step).value.finished == s.finished
  {
  }

  lemma StepExplainsCrash(s: State, cfg: Config, step: Step)
    requires CrashExplained(s) && Next(s, cfg, step).Some?
    ensures CrashExplained(Next(s, cfg, step).value)
  {
    if step.Panic? {
      assert step.t in s.callers && s.callers[step.t].Leading?;
    } else {
      OnlyPanicsCrash(s, cfg, step);
    }
  }

  lemma OnlyPanicsCrash(s: State, cfg: Config, step: Step)
    requires !step.Panic? && Next(s, cfg, step).Some?
    ensures !Next(s, cfg, step).value.crashed
  {
  }

  // ---- over every interleaving ----

  lemma {:induction false} InvariantAlways(cfg: Config, start: int, schedule: seq<Step>)
    ensures Invariant(Run(Init(start), cfg, schedule), cfg)
  {
    if schedule != [] {
      var before := Run(Init(start), cfg, schedule[..|schedule| - 1]);
      var step := schedule[|schedule| - 1];
      InvariantAlways(cfg, start, schedule[..|schedule| - 1]);
      if Next(before, cfg, step).Some? {
        LeaderIsUnique(before);
        StepKeepsFlight(before, cfg, step);
        StepKeepsKeys(before, cfg, step);
        StepKeepsCircuits(before, cfg, step);
        StepKeepsSpelled(before, cfg, step);
        StepExplainsCrash(before, cfg, step);
      }
    }
  }

  /** In every interleaving: at most one caller per DID leads its resolution, and
      so at most one probe per DID is outstanding; the inflight table holds a DID
      exactly when such a caller exists. */
  lemma Singleflight(cfg: Config, start: int, schedule: seq<Step>, did: Did)
    ensures var s := Run(Init(start), cfg, schedule);
            && (forall t, u | t in s.callers && u in s.callers && s.callers[t].Leads() && s.callers[u].Leads()
                              && s.callers[t].did == did == s.callers[u].did :: t == u)
            && (did in s.inflight <==> exists t :: t in s.callers && s.callers[t].Leads() && s.callers[t].did == did)
  {
    var s := Run(Init(start), cfg, schedule);
    InvariantAlways(cfg, start, schedule);
    LeaderIsUnique(s);
    if did in s.inflight {
      assert DidLed(s, did);
    }
    if t :| t in s.callers && s.callers[t].Leads() && s.callers[t].did == did {
      assert LeaderRegistered(s, t, s.callers[t]);
    }
  }

  /** While the process runs no waiter is ever stranded: its entry is closed, so it can wake up with the
      result, or a live leader of the same DID still works on that entry. */
  lemma NoWaiterStranded(cfg: Config, start: int, schedule: seq<Step>, t: nat)
    requires var s := Run(Init(start), cfg, schedule); !s.crashed && t in s.callers && s.callers[t].Waiting?
    ensures var s := Run(Init(start), cfg, schedule);
            || Next(s, cfg, Wake(t)).Some?
            || exists u :: u in s.callers && s.callers[u].Leads() && !s.callers[u].Published?
                           && s.callers[u].did == s.callers[t].did && s.callers[u].entry == s.callers[t].entry
  {
    var s := Run(Init(start), cfg, schedule);
    InvariantAlways(cfg, start, schedule);
    var c := s.callers[t];
    if s.entries[c.entry].result.None? {
      assert DidLed(s, c.did);
      var u := s.opener[c.entry];
      assert LeaderRegistered(s, u, s.callers[u]);
    }
  }

  lemma {:induction false} UnusedId(ids: set<nat>) returns (id: nat)
    ensures id !in ids && forall k | k in ids :: k < id
  {
    if ids == {} {
      id := 0;
    } else {
      var k :| k in ids;
      var rest := UnusedId(ids - {k});
      id := if k < rest then rest else k + 1;
      assert forall x | x in ids :: x == k || x in ids - {k};
    }
  }

  lemma CallerCanMove(s: State, cfg: Config, t: nat) returns (step: Step)
    requires CircuitsTracked(s, cfg) && !s.crashed
    requires t in s.callers && !s.callers[t].Waiting? && !s.callers[t].Returned?
    ensures OwnStep(s, t, step) && Next(s, cfg, step).Some?
  {
    match s.callers[t]
    case Looking(_) => step := Lookup(t);
    case Joining(_) =>
      var id := UnusedId(s.entries.Keys);
      step := Join(t, id);
    case Leading(did, _) => step := if ResolveHere(did).Panics? then Panic(t) else ResolveLocally(t);
    case Holding(_, _, _) =>
      assert CircuitHeld(s, s.callers[t]);
      step := CheckCircuit(t);
    case Probing(_, _, _) => step := ProbeBlocked(t);
    case Resolved(_, _, _) => step := Publish(t);
    case Published(_, _, _) => step := Unregister(t);
    case Unregistered(_, _) => step := Finish(t);
  }

  /** A step of this caller; the panic, exactly when it resolves an identifier that
      makes the decoder panic. */
  ghost predicate OwnStep(s: State, t: nat, step: Step)
    requires t in s.callers
  {
    if s.callers[t].Leading? && ResolveHere(s.callers[t].did).Panics? then step == Panic(t)
    else MovesCaller(step) && !step.Call? && step.t == t
  }

  /** While the process runs, a caller that does not wait for somebody else can always
      take a step. */
  lemma NobodyElseBlocks(cfg: Config, start: int, schedule: seq<Step>, t: nat)
    requires var s := Run(Init(start), cfg, schedule);
             !s.crashed && t in s.callers && !s.callers[t].Waiting? && !s.callers[t].Returned?
    ensures var s := Run(Init(start), cfg, schedule);
            exists step :: OwnStep(s, t, step) && Next(s, cfg, step).Some?
  {
    InvariantAlways(cfg, start, schedule);
    var step := CallerCanMove(Run(Init(start), cfg, schedule), cfg, t);
  }

  /** How many steps a call still has before it returns, at most. */
  function Remaining(c: Caller): nat {
    match c
    case Looking(_) => 8
    case Joining(_) => 7
    case Waiting(_, _) => 1
    case Leading(_, _) => 6
    case Holding(_, _, _) => 5
    case Probing(_, _, _) => 4
    case Resolved(_, _, _) => 3
    case Published(_, _, _) => 2
    case Unregistered(_, _) => 1
    case Returned(_, _) => 0
  }

  /** Every step of a call brings it closer to its return and moves no other call:
      no call takes more than eight steps, whatever the schedule. */
  lemma CallsFinish(s: State, cfg: Config, step: Step, u: nat)
    requires Next(s, cfg, step).Some? && u in s.callers
    ensures var after := Next(s, cfg, step).value;
            && u in after.callers
            && (if MovesCaller(step) && step.t == u then Remaining(after.callers[u]) < Remaining(s.callers[u])
                else after.callers[u] == s.callers[u])
  {
    if MovesCaller(step) && !step.Call? {
      MoverAdvances(s, cfg, step);
    }
  }

  lemma MoverAdvances(s: State, cfg: Config, step: Step)
    requires MovesCaller(step) && !step.Call? && Next(s, cfg, step).Some?
    ensures var after := Next(s, cfg, step).value;
            && step.t in s.callers && step.t in after.callers
            && after.callers == s.callers[step.t := after.callers[step.t]]
            && after.callers[step.t].did == s.callers[step.t].did
            && Remaining(after.callers[step.t]) < Remaining(s.callers[step.t])
  {
    if Resolves(step) {
      ResolvingStep(s, cfg, step);
    } else {
      MoverAdvancesOtherwise(s, cfg, step);
    }
  }

  lemma MoverAdvancesOtherwise(s: State, cfg: Config, step: Step)
    requires !Resolves(step)
    requires MovesCaller(step) && !step.Call? && Next(s, cfg, step).Some?
    ensures var after := Next(s, cfg, step).value;
            && step.t in s.callers && step.t in after.callers
            && after.callers == s.callers[step.t := after.callers[step.t]]
            && after.callers[step.t].did == s.callers[step.t].did
            && Remaining(after.callers[step.t]) < Remaining(s.callers[step.t])
  {
    if step.Lookup? || step.Join? || step.Cancel? || step.Wake? {
      EarlyAdvances(s, cfg, step);
    } else {
      LateAdvances(s, cfg, step);
    }
  }

  lemma EarlyAdvances(s: State, cfg: Config, step: Step)
    requires step.Lookup? || step.Join? || step.Cancel? || step.Wake?
    requires MovesCaller(step) && !step.Call? && Next(s, cfg, step).Some?
    ensures var after := Next(s, cfg, step).value;
            && step.t in s.callers && step.t in after.callers
            && after.callers == s.callers[step.t := after.callers[step.t]]
            && after.callers[step.t].did == s.callers[step.t].did
            && Remaining(after.callers[step.t]) < Remaining(s.callers[step.t])
  {
  }

  lemma LateAdvances(s: State, cfg: Config, step: Step)
    requires step.Publish? || step.Unregister? || step.Finish?
    requires MovesCaller(step) && !step.Call? && Next(s, cfg, step).Some?
    ensures var after := Next(s, cfg, step).value;
            && step.t in s.callers && step.t in after.callers
            && after.callers == s.callers[step.t := after.callers[step.t]]
            && after.callers[step.t].did == s.callers[step.t].did
            && Remaining(after.callers[step.t]) < Remaining(s.callers[step.t])
  {
  }

  /** Every key that is returned or cached came from a finished resolution of the
      very DID it is returned or cached for; for a `did:key` it is the key whose
      identifier the issuers print just like that. */
  lemma KeysComeFromTheirDid(cfg: Config, start: int, schedule: seq<Step>)
    ensures var s := Run(Init(start), cfg, schedule);
            && (forall did | did in s.cache :: Sound(s, did, s.cache[did].key))
            && (forall t | t in s.callers && s.callers[t].Returned? && s.callers[t].answer.Got? ::
                  Sound(s, s.callers[t].did, s.callers[t].answer.key))
  {
    var s := Run(Init(start), cfg, schedule);
    InvariantAlways(cfg, start, schedule);
    forall did | did in s.cache ensures Sound(s, did, s.cache[did].key) {
      FinishedIsSound(s, did, s.cache[did].key);
    }
    forall t | t in s.callers && s.callers[t].Returned? && s.callers[t].answer.Got?
      ensures Sound(s, s.callers[t].did, s.callers[t].answer.key)
    {
      ReturnedKeyIsSound(s, cfg, t);
    }
  }

  lemma ReturnedKeyIsSound(s: State, cfg: Config, t: nat)
    requires Invariant(s, cfg) && t in s.callers && s.callers[t].Returned? && s.callers[t].answer.Got?
    ensures Sound(s, s.callers[t].did, s.callers[t].answer.key)
  {
    assert CallerKnown(s, s.callers[t]);
    FinishedIsSound(s, s.callers[t].did, s.callers[t].answer.key);
  }

  ghost predicate Sound(s: State, did: Did, key: Key) {
    && (did, key) in s.finished
    && (IsKeyDid(did) ==>
          (forall i | 0 <= i < |key| :: key[i] < 256) && |key| == 32 && did == Base58.DidOfKey(key))
  }

  lemma FinishedIsSound(s: State, did: Did, key: Key)
    requires KeysSpelled(s) && (did, key) in s.finished
    ensures Sound(s, did, key)
  {
    if IsKeyDid(did) {
      NotBothMethods(did);
      assert ResolveHere(did) == Spelled(key);
      Base58.DidKeyRoundTrip(did, Base58.KeyOfDid(did).value);
    }
  }

  /** The process crashes only when a leader resolves a `did:key` whose first
      character outside the base58 alphabet has code 256 or above; and such a leader
      can do nothing else. */
  lemma CrashesExactly(cfg: Config, start: int, schedule: seq<Step>)
    ensures var s := Run(Init(start), cfg, schedule);
            && (s.crashed ==> exists t | t in s.callers :: s.callers[t].Leading? && OverrunsTable(s.callers[t].did))
            && forall t, step | t in s.callers && s.callers[t].Leading? && OverrunsTable(s.callers[t].did)
                                && MovesCaller(step) && step.t == t :: Next(s, cfg, step).None?
  {
    var s := Run(Init(start), cfg, schedule);
    InvariantAlways(cfg, start, schedule);
    forall t | t in s.callers ensures ResolveHere(s.callers[t].did).Panics? <==> OverrunsTable(s.callers[t].did) {
      PanicsExactly(s.callers[t].did);
    }
    forall t, step | t in s.callers && s.callers[t].Leading? && OverrunsTable(s.callers[t].did)
                     && MovesCaller(step) && step.t == t
      ensures Next(s, cfg, step).None?
    {
      NoOtherStep(s, cfg, step);
    }
  }

  lemma NoOtherStep(s: State, cfg: Config, step: Step)
    requires MovesCaller(step) && step.t in s.callers && s.callers[step.t].Leading?
    requires ResolveHere(s.callers[step.t].did).Panics?
    ensures Next(s, cfg, step).None?
  {
    var did := s.callers[step.t].did;
    NotBothMethods(did);
    assert IsKeyDid(did);
    if Next(s, cfg, step).Some? && !Resolves(step) {
      NotResolving(s, cfg, step);
    }
  }

  lemma NotResolving(s: State, cfg: Config, step: Step)
    requires MovesCaller(step) && !Resolves(step) && Next(s, cfg, step).Some?
    ensures step.t in s.callers ==> !s.callers[step.t].Leading?
  {
  }

  lemma {:induction false} CallersWereCalled(cfg: Config, start: int, schedule: seq<Step>, t: nat)
    requires t in Run(Init(start), cfg, schedule).callers
    ensures Call(t, Run(Init(start), cfg, schedule).callers[t].did) in schedule
  {
    var init, step := schedule[..|schedule| - 1], schedule[|schedule| - 1];
    assert schedule == init + [step];
    var before := Run(Init(start), cfg, init);
    if Next(before, cfg, step).Some? {
      OldOrCalled(before, cfg, step, t);
    }
    if t in before.callers {
      CallersWereCalled(cfg, start, init, t);
    }
  }

  /** A step leaves every call's identifier alone; a call that is new was just made. */
  lemma OldOrCalled(s: State, cfg: Config, step: Step, t: nat)
    requires Next(s, cfg, step).Some? && t in Next(s, cfg, step).value.callers
    ensures var did := Next(s, cfg, step).value.callers[t].did;
            if t in s.callers then s.callers[t].did == did else step == Call(t, did)
  {
    if MovesCaller(step) && !step.Call? {
      MoverAdvances(s, cfg, step);
    }
  }

  // ---- identifiers that resolve without the network ----

  /** What every resolution of this DID comes to, when the DID alone decides it. */
  function Decided(did: Did): Option<Outcome> {
    if IsWebDid(did) then None
    else
      match ResolveHere(did)
      case Spelled(key) => Some(Found(key))
      case Refused => Some(Failed)
      case Panics => None
  }

  /** A call for such a DID has that outcome wherever it has one. */
  ghost predicate DecidedCaller(c: Caller, outcome: Outcome) {
    match c
    case Holding(_, _, _) => false
    case Probing(_, _, _) => false
    case Resolved(_, _, o) => o == outcome
    case Published(_, _, o) => o == outcome
    case Unregistered(_, o) => o == outcome
    case Returned(_, answer) => answer == Cancelled || answer == AnswerOf(outcome)
    case _ => true
  }

  ghost predicate DecisionsKept(s: State) {
    && (forall t | t in s.callers && Decided(s.callers[t].did).Some? ::
          DecidedCaller(s.callers[t], Decided(s.callers[t].did).value))
    && forall e | e in s.entries && Decided(s.entries[e].did).Some? ::
         s.entries[e].result.None? || s.entries[e].result == Some(Decided(s.entries[e].did).value)
  }

  lemma DecidedMover(s: State, cfg: Config, step: Step)
    requires KeysKnown(s) && KeysSpelled(s) && WaitersServed(s) && DecisionsKept(s)
    requires MovesCaller(step) && !step.Call? && Next(s, cfg, step).Some?
    requires step.t in s.callers && Decided(s.callers[step.t].did).Some?
    ensures step.t in Next(s, cfg, step).value.callers
    ensures DecidedCaller(Next(s, cfg, step).value.callers[step.t], Decided(s.callers[step.t].did).value)
  {
    var c := s.callers[step.t];
    assert DecidedCaller(c, Decided(c.did).value);
    if Resolves(step) {
      ResolvingStep(s, cfg, step);
      DecidedResolves(s, cfg, step);
    } else if step.Lookup? {
      LookupSplits(s, cfg, step.t);
      if c.did in s.cache {
        assert (c.did, s.cache[c.did].key) in s.finished;
      }
    } else if step.Wake? {
      WakeShares(s, cfg, step.t);
    } else {
      DecidedOtherwise(s, cfg, step);
    }
  }

  lemma DecidedResolves(s: State, cfg: Config, step: Step)
    requires Resolves(step) && Next(s, cfg, step).Some? && step.t in s.callers
    requires Decided(s.callers[step.t].did).Some? && !s.callers[step.t].Holding? && !s.callers[step.t].Probing?
    ensures step.ResolveLocally? && step.t in Next(s, cfg, step).value.callers
    ensures var c := s.callers[step.t];
            Next(s, cfg, step).value.callers[step.t] == Resolved(c.did, c.entry, Decided(c.did).value)
  {
    if step.ResolveLocally? {
      LocalSource(s, cfg, step.t);
    }
  }

  lemma DecidedOtherwise(s: State, cfg: Config, step: Step)
    requires !Resolves(step) && !step.Lookup? && !step.Wake? && MovesCaller(step) && !step.Call?
    requires Next(s, cfg, step).Some? && step.t in s.callers && Decided(s.callers[step.t].did).Some?
    requires DecidedCaller(s.callers[step.t], Decided(s.callers[step.t].did).value)
    ensures step.t in Next(s, cfg, step).value.callers
    ensures DecidedCaller(Next(s, cfg, step).value.callers[step.t], Decided(s.callers[step.t].did).value)
  {
  }

  lemma PublishedEntry(s: State, cfg: Config, step: Step, e: nat)
    requires Next(s, cfg, step).Some? && e in Next(s, cfg, step).value.entries
    ensures var after := Next(s, cfg, step).value;
            || (e in s.entries && after.entries[e] == s.entries[e])
            || after.entries[e].result.None?
            || (step.Publish? && step.t in s.callers && s.callers[step.t].Resolved?
                && after.entries[e] == Entry(s.callers[step.t].did, Some(s.callers[step.t].outcome)))
  {
    EntriesChange(s, cfg, step, e);
    if step.Publish? {
      OnePublished(s, cfg, step.t, e);
    }
  }

  lemma OnePublished(s: State, cfg: Config, t: nat, e: nat)
    requires Next(s, cfg, Publish(t)).Some? && e in Next(s, cfg, Publish(t)).value.entries
    ensures var after := Next(s, cfg, Publish(t)).value;
            || (e in s.entries && after.entries[e] == s.entries[e])
            || (t in s.callers && s.callers[t].Resolved?
                && after.entries[e] == Entry(s.callers[t].did, Some(s.callers[t].outcome)))
  {
  }

  lemma StepKeepsDecisions(s: State, cfg: Config, step: Step)
    requires KeysKnown(s) && KeysSpelled(s) && WaitersServed(s) && DecisionsKept(s) && Next(s, cfg, step).Some?
    ensures DecisionsKept(Next(s, cfg, step).value)
  {
    var after := Next(s, cfg, step).value;
    forall t | t in after.callers && Decided(after.callers[t].did).Some?
      ensures DecidedCaller(after.callers[t], Decided(after.callers[t].did).value)
    {
      OldOrCalled(s, cfg, step, t);
      if t in s.callers {
        CallsFinish(s, cfg, step, t);
        assert DecidedCaller(s.callers[t], Decided(s.callers[t].did).value);
        if MovesCaller(step) && step.t == t {
          DecidedMover(s, cfg, step);
        }
      } else {
        NewCall(s, cfg, step, t);
      }
    }
    forall e | e in after.entries && Decided(after.entries[e].did).Some?
      ensures after.entries[e].result.None? || after.entries[e].result == Some(Decided(after.entries[e].did).value)
    {
      PublishedEntry(s, cfg, step, e);
      if step.Publish? && step.t in s.callers && s.callers[step.t].Resolved? && Decided(s.callers[step.t].did).Some? {
        assert DecidedCaller(s.callers[step.t], Decided(s.callers[step.t].did).value);
      }
    }
  }

  lemma NewCall(s: State, cfg: Config, step: Step, t: nat)
    requires step.Call? && step.t == t && Next(s, cfg, step).Some?
    ensures t in Next(s, cfg, step).value.callers && Next(s, cfg, step).value.callers[t].Looking?
  {
  }

  lemma {:induction false} DecisionsAlways(cfg: Config, start: int, schedule: seq<Step>)
    ensures DecisionsKept(Run(Init(start), cfg, schedule))
  {
    if schedule != [] {
      var before := Run(Init(start), cfg, schedule[..|schedule| - 1]);
      var step := schedule[|schedule| - 1];
      DecisionsAlways(cfg, start, schedule[..|schedule| - 1]);
      InvariantAlways(cfg, start, schedule[..|schedule| - 1]);
      if Next(before, cfg, step).Some? {
        StepKeepsDecisions(before, cfg, step);
      }
    }
  }

  /** In every interleaving, a call for the identifier that the issuers print for a key
      of 32 bytes returns that key, unless it is given up. */
  lemma PrintedIdentifiersResolve(cfg: Config, start: int, schedule: seq<Step>, t: nat, key: seq<Base58.Byte>)
    requires |key| == 32
    requires var s := Run(Init(start), cfg, schedule);
             t in s.callers && s.callers[t].did == Base58.DidOfKey(key) && s.callers[t].Returned?
    ensures var answer := Run(Init(start), cfg, schedule).callers[t].answer;
            answer == Cancelled || answer == Got(key)
  {
    var did := Base58.DidOfKey(key);
    DecisionsAlways(cfg, start, schedule);
    Base58.DidKeyRoundTrip(did, key);
    NotBothMethods(did);
    assert IsKeyDid(did) && Decided(did) == Some(Found(key));
  }

  /** And every identifier that is neither a `did:web` nor printed for any key, and
      does not overrun the table, gets an error. */
  lemma OtherIdentifiersFail(cfg: Config, start: int, schedule: seq<Step>, t: nat)
    requires var s := Run(Init(start), cfg, schedule);
             && t in s.callers && s.callers[t].Returned?
             && !IsWebDid(s.callers[t].did) && !OverrunsTable(s.callers[t].did)
             && forall key: seq<Base58.Byte> | |key| == 32 :: s.callers[t].did != Base58.DidOfKey(key)
    ensures var answer := Run(Init(start), cfg, schedule).callers[t].answer;
            answer == Cancelled || answer == Errored
  {
    var did := Run(Init(start), cfg, schedule).callers[t].did;
    DecisionsAlways(cfg, start, schedule);
    PanicsExactly(did);
    if Base58.KeyOfDid(did).Ok? {
      Base58.DidKeyRoundTrip(did, Base58.KeyOfDid(did).value);
    }
    assert Decided(did) == Some(Failed);
  }

  // ---- how long keys are served from the cache ----

  /** The last event about this DID. */
  function LastEvent(log: seq<CacheEvent>, did: Did): (e: Option<CacheEvent>)
    ensures e.Some? ==> e.value.did == did
  {
    if log == [] then None
    else if log[|log| - 1].did == did then Some(log[|log| - 1])
    else LastEvent(log[..|log| - 1], did)
  }

  lemma LastEventSnoc(log: seq<CacheEvent>, e: CacheEvent, did: Did)
    ensures LastEvent(log + [e], did) == if e.did == did then Some(e) else LastEvent(log, did)
  {
    assert (log + [e])[..|log|] == log;
  }

  /** This key was the last one stored for the DID, nothing evicted it since, and that
      is less than the time to live ago. */
  ghost predicate StoredLately(s: State, cfg: Config, did: Did, key: Key) {
    exists at :: LastEvent(s.log, did) == Some(Stored(did, key, at)) && s.now - at < cfg.ttl
  }

  /** The cache holds keys with the time of their last store, and every recent one. */
  ghost predicate CacheLogged(s: State, cfg: Config) {
    && (forall did | did in s.cache ::
          LastEvent(s.log, did) == Some(Stored(did, s.cache[did].key, s.cache[did].expiry - cfg.ttl)))
    && forall did, key | StoredLately(s, cfg, did, key) :: did in s.cache && s.cache[did].key == key
  }

  lemma LookupKeepsLog(s: State, cfg: Config, t: nat)
    requires CacheLogged(s, cfg) && Next(s, cfg, Lookup(t)).Some?
    ensures CacheLogged(Next(s, cfg, Lookup(t)).value, cfg)
  {
    var after, did := Next(s, cfg, Lookup(t)).value, s.callers[t].did;
    assert after.log == s.log && after.now == s.now;
    forall d, key | StoredLately(after, cfg, d, key) ensures d in after.cache && after.cache[d].key == key {
      assert StoredLately(s, cfg, d, key);
      var at :| LastEvent(s.log, d) == Some(Stored(d, key, at)) && s.now - at < cfg.ttl;
    }
  }

  lemma EvictionKeepsLog(s: State, cfg: Config, did: Did)
    requires CacheLogged(s, cfg) && Next(s, cfg, EvictKey(did)).Some?
    ensures CacheLogged(Next(s, cfg, EvictKey(did)).value, cfg)
  {
    var after := Next(s, cfg, EvictKey(did)).value;
    forall d ensures LastEvent(after.log, d) == if d == did then Some(Evicted(did)) else LastEvent(s.log, d) {
      LastEventSnoc(s.log, Evicted(did), d);
    }
    forall d, key | StoredLately(after, cfg, d, key) ensures d in after.cache && after.cache[d].key == key {
      assert StoredLately(s, cfg, d, key);
    }
  }

  lemma StoreKeepsLog(s: State, cfg: Config, after: State, did: Did, key: Key)
    requires CacheLogged(s, cfg) && after.now == s.now && after.log == s.log + [Stored(did, key, s.now)]
    requires after.cache == s.cache[did := CacheEntry(key, s.now + cfg.ttl)]
    ensures CacheLogged(after, cfg)
  {
    forall d ensures LastEvent(after.log, d) == if d == did then Some(Stored(did, key, s.now)) else LastEvent(s.log, d) {
      LastEventSnoc(s.log, Stored(did, key, s.now), d);
    }
    forall d, k | StoredLately(after, cfg, d, k) ensures d in after.cache && after.cache[d].key == k {
      if d != did {
        assert StoredLately(s, cfg, d, k);
      }
    }
  }

  /** Every other step leaves cache and log alone, but time may pass. */
  lemma OtherStepsLeaveCache(s: State, cfg: Config, step: Step)
    requires !step.Lookup? && !step.EvictKey? && !step.Finish? && Next(s, cfg, step).Some?
    ensures var after := Next(s, cfg, step).value;
            after.cache == s.cache && after.log == s.log && s.now <= after.now
  {
    if Resolves(step) {
      ResolvingStep(s, cfg, step);
    } else {
      OthersLeaveCache(s, cfg, step);
    }
  }

  lemma OthersLeaveCache(s: State, cfg: Config, step: Step)
    requires !step.Lookup? && !step.EvictKey? && !step.Finish? && !Resolves(step) && Next(s, cfg, step).Some?
    ensures var after := Next(s, cfg, step).value;
            after.cache == s.cache && after.log == s.log && s.now <= after.now
  {
  }

  /** The leader returns what its resolution came to, and stores a key. */
  lemma FinishStores(s: State, cfg: Config, t: nat)
    requires Next(s, cfg, Finish(t)).Some?
    ensures t in s.callers && s.callers[t].Unregistered?
    ensures var after, c := Next(s, cfg, Finish(t)).value, s.callers[t];
            && after.now == s.now && t in after.callers
            && (c.outcome.Found? ==>
                  && after.callers[t] == Returned(c.did, Got(c.outcome.key))
                  && after.log == s.log + [Stored(c.did, c.outcome.key, s.now)]
                  && after.cache == s.cache[c.did := CacheEntry(c.outcome.key, s.now + cfg.ttl)])
            && (c.outcome.Failed? ==>
                  after.callers[t] == Returned(c.did, Errored) && after.log == s.log && after.cache == s.cache)
  {
  }

  lemma StepKeepsLog(s: State, cfg: Config, step: Step)
    requires CacheLogged(s, cfg) && Next(s, cfg, step).Some?
    ensures CacheLogged(Next(s, cfg, step).value, cfg)
  {
    var after := Next(s, cfg, step).value;
    if step.Lookup? {
      LookupKeepsLog(s, cfg, step.t);
    } else if step.EvictKey? {
      EvictionKeepsLog(s, cfg, step.did);
    } else {
      if step.Finish? {
        FinishStores(s, cfg, step.t);
        var c := s.callers[step.t];
        if c.outcome.Found? {
          StoreKeepsLog(s, cfg, after, c.did, c.outcome.key);
          return;
        }
      } else {
        OtherStepsLeaveCache(s, cfg, step);
      }
      LaterKeepsLog(s, cfg, after);
    }
  }

  lemma LaterKeepsLog(s: State, cfg: Config, after: State)
    requires CacheLogged(s, cfg) && after.cache == s.cache && after.log == s.log && s.now <= after.now
    ensures CacheLogged(after, cfg)
  {
    forall d, key | StoredLately(after, cfg, d, key) ensures d in after.cache && after.cache[d].key == key {
      var at :| LastEvent(s.log, d) == Some(Stored(d, key, at)) && after.now - at < cfg.ttl;
      assert StoredLately(s, cfg, d, key);
    }
  }

  lemma {:induction false} LogAlways(cfg: Config, start: int, schedule: seq<Step>)
    ensures CacheLogged(Run(Init(start), cfg, schedule), cfg)
  {
    if schedule != [] {
      var before := Run(Init(start), cfg, schedule[..|schedule| - 1]);
      LogAlways(cfg, start, schedule[..|schedule| - 1]);
      if Next(before, cfg, schedule[|schedule| - 1]).Some? {
        StepKeepsLog(before, cfg, schedule[|schedule| - 1]);
      }
    }
  }

  lemma LookupSplits(s: State, cfg: Config, t: nat)
    requires Next(s, cfg, Lookup(t)).Some?
    ensures t in s.callers && s.callers[t].Looking? && t in Next(s, cfg, Lookup(t)).value.callers
    ensures var did, c := s.callers[t].did, Next(s, cfg, Lookup(t)).value.callers[t];
            c == if did in s.cache && s.now < s.cache[did].expiry then Returned(did, Got(s.cache[did].key)) else Joining(did)
  {
  }

  /** In every interleaving: a lookup answers at once with a key exactly when that key
      was the last one stored for the DID, less than the time to live ago, and has not
      been evicted since; otherwise the call goes on to resolve. */
  lemma LookupExactly(cfg: Config, start: int, schedule: seq<Step>, t: nat, key: Key)
    requires Next(Run(Init(start), cfg, schedule), cfg, Lookup(t)).Some?
    ensures var s := Run(Init(start), cfg, schedule);
            && t in s.callers && t in Next(s, cfg, Lookup(t)).value.callers
            && var did, after := s.callers[t].did, Next(s, cfg, Lookup(t)).value.callers[t];
            && (after == Returned(did, Got(key)) <==> StoredLately(s, cfg, did, key))
            && (after == Joining(did) || (after.Returned? && after.answer.Got?))
  {
    var s := Run(Init(start), cfg, schedule);
    LogAlways(cfg, start, schedule);
    LookupSplits(s, cfg, t);
    CacheAnswers(s, cfg, s.callers[t].did, key);
  }

  lemma CacheAnswers(s: State, cfg: Config, did: Did, key: Key)
    requires CacheLogged(s, cfg)
    ensures did in s.cache && s.now < s.cache[did].expiry && s.cache[did].key == key <==> StoredLately(s, cfg, did, key)
  {
    if StoredLately(s, cfg, did, key) {
      var at :| LastEvent(s.log, did) == Some(Stored(did, key, at)) && s.now - at < cfg.ttl;
    }
    if did in s.cache && s.now < s.cache[did].expiry && s.cache[did].key == key {
      assert LastEvent(s.log, did) == Some(Stored(did, key, s.cache[did].expiry - cfg.ttl));
    }
  }

  /** A waiter returns what the resolution it waited for came to. */
  lemma WakeShares(s: State, cfg: Config, t: nat)
    requires Next(s, cfg, Wake(t)).Some?
    ensures t in s.callers && s.callers[t].Waiting? && s.callers[t].entry in s.entries
    ensures s.entries[s.callers[t].entry].result.Some? && t in Next(s, cfg, Wake(t)).value.callers
    ensures var c, outcome := s.callers[t], s.entries[s.callers[t].entry].result.value;
            Next(s, cfg, Wake(t)).value.callers[t] ==
              Returned(c.did, if outcome.Found? then Got(outcome.key) else Errored)
  {
  }

  // ---- identifiers that overrun the table ----

  /** A call for such an identifier gets no further than leading, waiting for the leader
      or giving up; nobody ever publishes a result for it. */
  ghost predicate OverrunsStuck(s: State) {
    && (forall t | t in s.callers && ResolveHere(s.callers[t].did).Panics? :: StuckCaller(s.callers[t]))
    && forall e | e in s.entries && ResolveHere(s.entries[e].did).Panics? :: s.entries[e].result.None?
  }

  ghost predicate StuckCaller(c: Caller) {
    c.Looking? || c.Joining? || c.Waiting? || c.Leading? || (c.Returned? && c.answer.Cancelled?)
  }

  /** Such an identifier has no key in the cache. */
  lemma NothingCached(s: State, did: Did)
    requires KeysKnown(s) && KeysSpelled(s) && did in s.cache
    ensures !ResolveHere(did).Panics?
  {
    NotBothMethods(did);
    assert ResolveHere(did).Panics? ==> IsKeyDid(did);
    assert (did, s.cache[did].key) in s.finished;
  }

  lemma StuckMover(s: State, cfg: Config, step: Step)
    requires KeysKnown(s) && KeysSpelled(s) && WaitersServed(s) && OverrunsStuck(s)
    requires MovesCaller(step) && !step.Call? && Next(s, cfg, step).Some?
    requires step.t in s.callers && ResolveHere(s.callers[step.t].did).Panics?
    ensures var after := Next(s, cfg, step).value;
            && step.t in after.callers && StuckCaller(after.callers[step.t])
            && (step.Lookup? || step.Join? || step.Cancel?)
  {
    var c := s.callers[step.t];
    assert StuckCaller(c);
    if Resolves(step) {
      ResolvingStep(s, cfg, step);
      if c.Leading? {
        NoOtherStep(s, cfg, step);
        assert false;
      }
    } else if step.Lookup? && c.did in s.cache {
      NothingCached(s, c.did);
    }
  }

  /** Which entry a step can change: the new one of a join, or the published one. */
  lemma EntriesChange(s: State, cfg: Config, step: Step, e: nat)
    requires Next(s, cfg, step).Some? && e in Next(s, cfg, step).value.entries
    ensures var after := Next(s, cfg, step).value;
            || (e in s.entries && after.entries[e] == s.entries[e])
            || (step.Join? && after.entries[e].result.None?)
            || (step.Publish? && step.t in s.callers && s.callers[step.t].Resolved?
                && after.entries[e].did == s.callers[step.t].did)
  {
    if Resolves(step) {
      ResolvingStep(s, cfg, step);
    } else {
      EntriesChangeOtherwise(s, cfg, step, e);
    }
  }

  lemma EntriesChangeOtherwise(s: State, cfg: Config, step: Step, e: nat)
    requires !Resolves(step) && Next(s, cfg, step).Some? && e in Next(s, cfg, step).value.entries
    ensures var after := Next(s, cfg, step).value;
            || (e in s.entries && after.entries[e] == s.entries[e])
            || (step.Join? && after.entries[e].result.None?)
            || (step.Publish? && step.t in s.callers && s.callers[step.t].Resolved?
                && after.entries[e].did == s.callers[step.t].did)
  {
  }

  lemma StepKeepsStuck(s: State, cfg: Config, step: Step)
    requires KeysKnown(s) && KeysSpelled(s) && WaitersServed(s) && OverrunsStuck(s) && Next(s, cfg, step).Some?
    ensures OverrunsStuck(Next(s, cfg, step).value)
  {
    var after := Next(s, cfg, step).value;
    forall t | t in after.callers && ResolveHere(after.callers[t].did).Panics? ensures StuckCaller(after.callers[t]) {
      OldOrCalled(s, cfg, step, t);
      if t in s.callers {
        CallsFinish(s, cfg, step, t);
        assert StuckCaller(s.callers[t]);
        if MovesCaller(step) && step.t == t {
          StuckMover(s, cfg, step);
        }
      }
    }
    forall e | e in after.entries && ResolveHere(after.entries[e].did).Panics? ensures after.entries[e].result.None? {
      EntriesChange(s, cfg, step, e);
      if step.Publish? && step.t in s.callers && s.callers[step.t].Resolved? {
        assert ResolveHere(s.callers[step.t].did).Panics? ==> StuckCaller(s.callers[step.t]);
      }
    }
  }

  lemma {:induction false} OverrunsStuckAlways(cfg: Config, start: int, schedule: seq<Step>)
    ensures OverrunsStuck(Run(Init(start), cfg, schedule))
  {
    if schedule != [] {
      var before := Run(Init(start), cfg, schedule[..|schedule| - 1]);
      var step := schedule[|schedule| - 1];
      OverrunsStuckAlways(cfg, start, schedule[..|schedule| - 1]);
      InvariantAlways(cfg, start, schedule[..|schedule| - 1]);
      if Next(before, cfg, step).Some? {
        StepKeepsStuck(before, cfg, step);
      }
    }
  }

  /** In no interleaving does a call for such an identifier ever return a key or an
      error: it is still under way, it was given up, or the process has crashed. */
  lemma OverrunsNeverReturn(cfg: Config, start: int, schedule: seq<Step>, t: nat)
    requires var s := Run(Init(start), cfg, schedule); t in s.callers && OverrunsTable(s.callers[t].did)
    ensures var c := Run(Init(start), cfg, schedule).callers[t];
            c.Returned? ==> c.answer.Cancelled?
  {
    var s := Run(Init(start), cfg, schedule);
    OverrunsStuckAlways(cfg, start, schedule);
    PanicsExactly(s.callers[t].did);
    assert StuckCaller(s.callers[t]);
  }

  ghost predicate CallsOnly(schedule: seq<Step>, dids: set<Did>) {
    forall step | step in schedule && step.Call? :: step.did in dids
  }

  /** And one call for such an identifier is enough to crash the process. */
  lemma OneCallCrashes(cfg: Config, start: int, did: Did) returns (schedule: seq<Step>)
    requires OverrunsTable(did)
    ensures CallsOnly(schedule, {did}) && Run(Init(start), cfg, schedule).crashed
  {
    PanicsExactly(did);
    var s0 := Init(start);
    var s1 := Move(s0, 0, Looking(did));
    var s2 := Move(s1, 0, Joining(did));
    var s3 := FirstCall(s0, s1, s2, cfg, did);
    var a := [Call(0, did)];
    var b := a + [Lookup(0)];
    var c := b + [Join(0, 0)];
    schedule := c + [Panic(0)];
    assert [] + [Call(0, did)] == a;
    RunStep(s0, cfg, [], Call(0, did), s1);
    RunStep(s0, cfg, a, Lookup(0), s2);
    RunStep(s0, cfg, b, Join(0, 0), s3);
    LeaderPanics(s3, cfg, 0);
    RunStep(s0, cfg, c, Panic(0), s3.(crashed := true));
  }

  lemma FirstCall(s0: State, s1: State, s2: State, cfg: Config, did: Did) returns (s3: State)
    requires s0 == Init(s0.now)
    requires s1 == Move(s0, 0, Looking(did)) && s2 == Move(s1, 0, Joining(did))
    ensures Next(s0, cfg, Call(0, did)) == Some(s1)
    ensures Next(s1, cfg, Lookup(0)) == Some(s2)
    ensures Next(s2, cfg, Join(0, 0)) == Some(s3)
    ensures !s3.crashed && 0 in s3.callers && s3.callers[0] == Leading(did, 0)
  {
    FirstLookup(s1, cfg, did);
    s3 := FirstJoin(s2, cfg, did);
  }

  lemma FirstLookup(s: State, cfg: Config, did: Did)
    requires !s.crashed && s.cache == map[] && 0 in s.callers && s.callers[0] == Looking(did)
    ensures Next(s, cfg, Lookup(0)) == Some(Move(s, 0, Joining(did)))
  {
  }

  lemma FirstJoin(s: State, cfg: Config, did: Did) returns (after: State)
    requires !s.crashed && s.inflight == map[] && s.entries == map[] && 0 in s.callers && s.callers[0] == Joining(did)
    ensures Next(s, cfg, Join(0, 0)) == Some(after)
    ensures !after.crashed && 0 in after.callers && after.callers[0] == Leading(did, 0)
  {
    after := Next(s, cfg, Join(0, 0)).value;
  }

  lemma LeaderPanics(s: State, cfg: Config, t: nat)
    requires !s.crashed && t in s.callers && s.callers[t].Leading? && ResolveHere(s.callers[t].did).Panics?
    ensures Next(s, cfg, Panic(t)) == Some(s.(crashed := true))
  {
  }

  lemma RunStep(s: State, cfg: Config, schedule: seq<Step>, step: Step, after: State)
    requires Next(Run(s, cfg, schedule), cfg, step) == Some(after)
    ensures Run(s, cfg, schedule + [step]) == after
  {
    assert (schedule + [step])[..|schedule|] == schedule;
  }

  /** So a run in which no such identifier is ever asked for does not crash. */
  lemma NoCrashWithoutOverrun(cfg: Config, start: int, schedule: seq<Step>)
    requires forall step | step in schedule && step.Call? :: !OverrunsTable(step.did)
    ensures !Run(Init(start), cfg, schedule).crashed
  {
    CrashesExactly(cfg, start, schedule);
    var s := Run(Init(start), cfg, schedule);
    if t :| t in s.callers && s.callers[t].Leading? && OverrunsTable(s.callers[t].did) {
      CallersWereCalled(cfg, start, schedule, t);
    }
  }

  ghost predicate OverrunsTable(did: Did) {
    IsKeyDid(did) && exists k: nat :: Base58.OverrunsAt(did[|Base58.DID_KEY_PREFIX|..], k)
  }

  lemma PanicsExactly(did: Did)
    ensures ResolveHere(did).Panics? <==> OverrunsTable(did)
  {
    if ResolveHere(did).Panics? {
      var c := Base58.KeyOfDid(did).error.error.c;
      Base58.TableOverrunExactly(did, c);
      var k: nat :| Base58.StopsAt(did[|Base58.DID_KEY_PREFIX|..], k, c);
      assert Base58.OverrunsAt(did[|Base58.DID_KEY_PREFIX|..], k);
    }
    if OverrunsTable(did) {
      var s := did[|Base58.DID_KEY_PREFIX|..];
      var k: nat :| Base58.OverrunsAt(s, k);
      assert Base58.StopsAt(s, k, s[k]);
      Base58.TableOverrunExactly(did, s[k]);
    }
  }

  /** In every interleaving: a check turns its caller away exactly when the streak of its
      breaker state has reached the threshold and the cooldown after the last failure is
      not over; otherwise the probe goes through. */
  lemma ProbesGoThrough(cfg: Config, start: int, schedule: seq<Step>, t: nat)
    requires Next(Run(Init(start), cfg, schedule), cfg, CheckCircuit(t)).Some?
    ensures var s := Run(Init(start), cfg, schedule);
            && t in s.callers && s.callers[t].Holding? && s.callers[t].circuit in s.circuits
            && t in Next(s, cfg, CheckCircuit(t)).value.callers
            && var c, after := s.callers[t], Next(s, cfg, CheckCircuit(t)).value.callers[t];
            && var streak := s.circuits[c.circuit].streak;
            if streak != [] && |streak| >= cfg.threshold && s.now <= streak[|streak| - 1] + cfg.cooldown
            then after == Resolved(c.did, c.entry, Failed)
            else after == Probing(c.did, c.entry, c.circuit)
  {
    var s := Run(Init(start), cfg, schedule);
    InvariantAlways(cfg, start, schedule);
    CheckSplits(s, cfg, t);
    var tr := s.circuits[s.callers[t].circuit];
    OpenExactly(tr.circuit, tr.streak, cfg.threshold, cfg.cooldown, s.now);
  }

  lemma CheckSplits(s: State, cfg: Config, t: nat)
    requires Next(s, cfg, CheckCircuit(t)).Some?
    ensures t in s.callers && s.callers[t].Holding? && s.callers[t].circuit in s.circuits
    ensures t in Next(s, cfg, CheckCircuit(t)).value.callers
    ensures var c := s.callers[t];
            Next(s, cfg, CheckCircuit(t)).value.callers[t] ==
              if IsOpen(s.circuits[c.circuit].circuit, s.now).0 then Resolved(c.did, c.entry, Failed)
              else Probing(c.did, c.entry, c.circuit)
  {
  }

  /** In every interleaving the streak of every breaker state obeys the bound. */
  lemma ProbesAreBounded(cfg: Config, start: int, schedule: seq<Step>, k: nat, duration: nat)
    requires cfg.cooldown > 0
    requires var s := Run(Init(start), cfg, schedule);
             k in s.circuits && (s.circuits[k].streak != [] ==>
               s.circuits[k].streak[|s.circuits[k].streak| - 1] - s.circuits[k].streak[0] <= duration)
    ensures var streak := Run(Init(start), cfg, schedule).circuits[k].streak;
            && Spaced(streak, cfg.threshold, cfg.cooldown)
            && |streak| <= Max(cfg.threshold, 1) + duration / cfg.cooldown
  {
    InvariantAlways(cfg, start, schedule);
    StreakBound(Run(Init(start), cfg, schedule).circuits[k].streak, cfg.threshold, cfg.cooldown, duration);
  }
}
