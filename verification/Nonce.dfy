/** The bounded nonce store: claim-if-new on invocation identifiers, with expiry. */
module Nonce {
  import opened Wrappers

  datatype Outcome = Claimed | ReplayDetected | StoreExhausted

  type Entries = map<string, int>

  /** The entries that are not yet expired. Times are whole seconds. */
  function Unexpired(seen: Entries, ttl: int, now: int): Entries {
    map k | k in seen && now - seen[k] < ttl :: seen[k]
  }

  /** One check, as a function of the entries. */
  function Step(seen: Entries, maxEntries: int, ttl: int, jti: string, now: int): (Outcome, Entries) {
    if jti in seen && now - seen[jti] < ttl then (ReplayDetected, seen)
    else
      var others := seen - {jti};
      var kept := if |others| >= maxEntries then Unexpired(others, ttl, now) else others;
      if |kept| >= maxEntries then (StoreExhausted, kept)
      else (Claimed, kept[jti := now])
  }

  class Store {
    var seen: Entries
    const maxEntries: int
    const ttl: int

    constructor (maxEntries: int, ttl: int)
      ensures seen == map[] && this.maxEntries == maxEntries && this.ttl == ttl
    {
      seen := map[];
      this.maxEntries := maxEntries;
      this.ttl := ttl;
    }

    /** `now` is the injected clock, read once. */
    method Check(jti: string, now: int) returns (outcome: Outcome)
      modifies this
      ensures (outcome, seen) == Step(old(seen), maxEntries, ttl, jti, now)
    {
      if jti in seen {
        if now - seen[jti] < ttl {
          return ReplayDetected;
        }
        seen := seen - {jti};
      }
      assert seen == old(seen) - {jti};
      if |seen| >= maxEntries {
        Evict(now);
      }
      if |seen| >= maxEntries {
        return StoreExhausted;
      }
      seen := seen[jti := now];
      return Claimed;
    }

    /** Deletes the expired entries one by one, in any order. */
    method Evict(now: int)
      modifies this
      ensures seen == Unexpired(old(seen), ttl, now)
    {
      var keys := seen.Keys;
      while keys != {}
        invariant keys <= old(seen).Keys
        invariant seen == map k | k in old(seen) && (k in keys || now - old(seen)[k] < ttl) :: old(seen)[k]
        decreases keys
      {
        var k :| k in keys;
        if now - seen[k] >= ttl {
          seen := seen - {k};
        }
        keys := keys - {k};
      }
    }
  }

  // ---- the plain acceptance history ----

  /** Every claim ever granted, in order; nothing is forgotten. */
  datatype Claim = Claim(jti: string, at: int)

  ghost predicate LiveIn(history: seq<Claim>, jti: string, ttl: int, now: int) {
    exists i | 0 <= i < |history| :: history[i].jti == jti && now - history[i].at < ttl
  }

  ghost function LiveOthers(history: seq<Claim>, jti: string, ttl: int, now: int): set<string> {
    set i | 0 <= i < |history| && history[i].jti != jti && now - history[i].at < ttl :: history[i].jti
  }

  /** What the history alone says the answer should be. */
  ghost function Expected(history: seq<Claim>, maxEntries: int, ttl: int, jti: string, now: int): Outcome {
    if LiveIn(history, jti, ttl, now) then ReplayDetected
    else if |LiveOthers(history, jti, ttl, now)| >= maxEntries then StoreExhausted
    else Claimed
  }

  ghost function Record(history: seq<Claim>, outcome: Outcome, jti: string, now: int): seq<Claim> {
    if outcome == Claimed then history + [Claim(jti, now)] else history
  }

  /** The store holds real claims only, all the live ones with their latest time,
      and never more than its capacity. */
  ghost predicate Refines(seen: Entries, history: seq<Claim>, maxEntries: int, ttl: int, clock: int) {
    && (forall i | 0 <= i < |history| :: history[i].at <= clock)
    && (forall k | k in seen :: Claim(k, seen[k]) in history)
    && (forall i | 0 <= i < |history| && clock - history[i].at < ttl ::
          history[i].jti in seen && seen[history[i].jti] >= history[i].at)
    && (seen != map[] ==> |seen| <= maxEntries)
  }

  lemma SubsetSize(a: set<string>, b: set<string>)
    requires a <= b
    ensures |a| <= |b|
  {
    assert b == a + (b - a);
  }

  lemma LiveOthersAreHeld(seen: Entries, history: seq<Claim>, maxEntries: int, ttl: int, clock: int, jti: string, now: int)
    requires Refines(seen, history, maxEntries, ttl, clock) && clock <= now
    ensures LiveOthers(history, jti, ttl, now) == Unexpired(seen - {jti}, ttl, now).Keys
    ensures LiveIn(history, jti, ttl, now) <==> jti in seen && now - seen[jti] < ttl
  {
    var live := Unexpired(seen - {jti}, ttl, now).Keys;
    forall k | k in live ensures k in LiveOthers(history, jti, ttl, now) {
      var i :| 0 <= i < |history| && history[i] == Claim(k, seen[k]);
    }
    if jti in seen && now - seen[jti] < ttl {
      var i :| 0 <= i < |history| && history[i] == Claim(jti, seen[jti]);
    }
  }

  lemma UnexpiredSize(seen: Entries, ttl: int, jti: string, now: int)
    ensures |Unexpired(seen - {jti}, ttl, now)| <= |seen - {jti}| <= |seen|
    ensures |Unexpired(seen - {jti}, ttl, now)| == |Unexpired(seen - {jti}, ttl, now).Keys|
  {
    SubsetSize(Unexpired(seen - {jti}, ttl, now).Keys, (seen - {jti}).Keys);
    SubsetSize((seen - {jti}).Keys, seen.Keys);
  }

  /** For a clock that does not run backwards, each answer is the one the whole
      history calls for, and the store is only ever full of live entries. */
  lemma StepAnswers(seen: Entries, history: seq<Claim>, maxEntries: int, ttl: int, clock: int, jti: string, now: int)
    requires Refines(seen, history, maxEntries, ttl, clock) && clock <= now
    ensures var (outcome, after) := Step(seen, maxEntries, ttl, jti, now);
            && outcome == Expected(history, maxEntries, ttl, jti, now)
            && (outcome == StoreExhausted && maxEntries >= 0 ==>
                  |LiveOthers(history, jti, ttl, now)| == maxEntries)
  {
    LiveOthersAreHeld(seen, history, maxEntries, ttl, clock, jti, now);
    UnexpiredSize(seen, ttl, jti, now);
  }

  /** What a check may do to the entries: add the claimed one, lose expired ones. */
  ghost predicate Follows(seen: Entries, outcome: Outcome, after: Entries, ttl: int, jti: string, now: int) {
    && (forall k | k in after && !(k == jti && outcome == Claimed) :: k in seen && after[k] == seen[k])
    && (forall k | k in seen && now - seen[k] < ttl :: k in after && after[k] == seen[k])
    && (outcome == Claimed ==> jti in after && after[jti] == now)
  }

  /** No check drops or changes an entry that has not expired. */
  lemma StepFollows(seen: Entries, maxEntries: int, ttl: int, jti: string, now: int)
    ensures var (outcome, after) := Step(seen, maxEntries, ttl, jti, now);
            Follows(seen, outcome, after, ttl, jti, now)
  {
  }

  lemma StepSize(seen: Entries, maxEntries: int, ttl: int, jti: string, now: int)
    requires seen != map[] ==> |seen| <= maxEntries
    ensures var after := Step(seen, maxEntries, ttl, jti, now).1;
            after != map[] ==> |after| <= maxEntries
  {
    UnexpiredSize(seen, ttl, jti, now);
    var others := seen - {jti};
    InsertSize(others, jti, now);
    InsertSize(Unexpired(others, ttl, now), jti, now);
  }

  lemma InsertSize(m: Entries, k: string, v: int)
    ensures |m[k := v]| <= |m| + 1
  {
    assert m[k := v].Keys == m.Keys + {k};
  }

  lemma RecordRefines(seen: Entries, history: seq<Claim>, maxEntries: int, ttl: int, clock: int, jti: string, now: int,
                      outcome: Outcome, after: Entries)
    requires Refines(seen, history, maxEntries, ttl, clock) && clock <= now
    requires Follows(seen, outcome, after, ttl, jti, now)
    requires after != map[] ==> |after| <= maxEntries
    ensures Refines(after, Record(history, outcome, jti, now), maxEntries, ttl, now)
  {
    var recorded := Record(history, outcome, jti, now);
    assert outcome == Claimed ==> recorded[|history|] == Claim(jti, now);
    forall k | k in after ensures Claim(k, after[k]) in recorded {
      if !(k == jti && outcome == Claimed) {
        assert Claim(k, seen[k]) in history;
      }
    }
    forall i | 0 <= i < |recorded| && now - recorded[i].at < ttl
      ensures recorded[i].jti in after && after[recorded[i].jti] >= recorded[i].at
    {
      if i < |history| {
        assert recorded[i] == history[i];
      }
    }
  }

  /** Every check keeps the refinement. */
  lemma StepRefines(seen: Entries, history: seq<Claim>, maxEntries: int, ttl: int, clock: int, jti: string, now: int)
    requires Refines(seen, history, maxEntries, ttl, clock) && clock <= now
    ensures var (outcome, after) := Step(seen, maxEntries, ttl, jti, now);
            Refines(after, Record(history, outcome, jti, now), maxEntries, ttl, now)
  {
    StepFollows(seen, maxEntries, ttl, jti, now);
    StepSize(seen, maxEntries, ttl, jti, now);
    var (outcome, after) := Step(seen, maxEntries, ttl, jti, now);
    RecordRefines(seen, history, maxEntries, ttl, clock, jti, now, outcome, after);
  }

  datatype Request = Request(jti: string, now: int)

  ghost predicate ClockRuns(requests: seq<Request>) {
    forall i, j | 0 <= i < j < |requests| :: requests[i].now <= requests[j].now
  }

  /** Entries and history after a whole run from an empty store. */
  ghost function Run(requests: seq<Request>, maxEntries: int, ttl: int): (Entries, seq<Claim>) {
    if requests == [] then (map[], [])
    else
      var (seen, history) := Run(requests[..|requests| - 1], maxEntries, ttl);
      var r := requests[|requests| - 1];
      var (outcome, after) := Step(seen, maxEntries, ttl, r.jti, r.now);
      (after, Record(history, outcome, r.jti, r.now))
  }

  /** The refinement holds after every run of any length. */
  lemma {:induction false} RunRefines(requests: seq<Request>, maxEntries: int, ttl: int, now: int)
    requires ClockRuns(requests)
    requires requests != [] ==> requests[|requests| - 1].now <= now
    ensures var (seen, history) := Run(requests, maxEntries, ttl);
            Refines(seen, history, maxEntries, ttl, now)
  {
    if requests != [] {
      var init, r := requests[..|requests| - 1], requests[|requests| - 1];
      RunRefines(init, maxEntries, ttl, r.now);
      var (seen, history) := Run(init, maxEntries, ttl);
      StepRefines(seen, history, maxEntries, ttl, r.now, r.jti, r.now);
      var (after, recorded) := Run(requests, maxEntries, ttl);
      assert Refines(after, recorded, maxEntries, ttl, r.now);
    }
  }

  /** In every run, every answer is the one the acceptance history calls for. */
  lemma AnswersFollowHistory(requests: seq<Request>, k: nat, maxEntries: int, ttl: int)
    requires ClockRuns(requests) && k < |requests|
    ensures var (seen, history) := Run(requests[..k], maxEntries, ttl);
            var r := requests[k];
            Step(seen, maxEntries, ttl, r.jti, r.now).0 == Expected(history, maxEntries, ttl, r.jti, r.now)
  {
    var (seen, history) := Run(requests[..k], maxEntries, ttl);
    RunRefines(requests[..k], maxEntries, ttl, requests[k].now);
    StepAnswers(seen, history, maxEntries, ttl, requests[k].now, requests[k].jti, requests[k].now);
  }
}
