/**
 The verify handler: chain verification first, nonce commit only for a valid
 chain; and what the two together guarantee over whole runs of requests.

 A request is verified at one time and commits its identifier at a later one;
 other requests may commit in between.
 */
module Server {
  import opened Wrappers
  import opened Receipts
  import opened Chain
  import opened ChainSafety
  import Nonce

  /** A decoded request; the body is optional. */
  datatype Request = Request(bundle: Bundle, body: string)

  datatype Response =
    | BadRequest
    | Verified(result: VerificationResult, binding: Option<string>)
    | NotValid(result: VerificationResult)
    | ReplayRefused
    | StoreUnavailable
    | IdentifierMissing

  /** Serves one request; an undecodable one is absent. The store is touched only when
      the chain is valid, and then only by one check of the invocation's identifier;
      without a store no valid chain is answered with success. `bind` compares a body
      with an invocation. */
  method Verify(store: Nonce.Store?, p: Platform, w: World, settings: Settings, bind: (string, string) -> string,
                request: Option<Request>, verifiedAt: Int64, committedAt: Int64) returns (r: Response)
    modifies store
    ensures request.None? ==> r == BadRequest && Untouched(store, old(Seen(store)))
    ensures request.Some? && !Accepts(p, w, settings, request.value.bundle, verifiedAt) ==>
              r.NotValid? && Untouched(store, old(Seen(store)))
    ensures request.Some? && Accepts(p, w, settings, request.value.bundle, verifiedAt) ==>
              && p.decodeInvocation(request.value.bundle.invocation).Some?
              && (store == null ==> r == StoreUnavailable)
              && (store != null ==>
                    var step := Nonce.Step(old(Seen(store)), store.maxEntries, store.ttl,
                                           p.decodeInvocation(request.value.bundle.invocation).value.jti, committedAt);
                    && store.seen == step.1
                    && (r.Verified? <==> step.0 == Nonce.Claimed)
                    && (r.ReplayRefused? <==> step.0 == Nonce.ReplayDetected)
                    && (r.StoreUnavailable? <==> step.0 == Nonce.StoreExhausted))
    ensures r.Verified? || r.NotValid? ==>
              request.Some? && AnswersFor(r.result, p, w, settings, request.value.bundle, verifiedAt)
    ensures r.Verified? ==>
              && r.result.Valid?
              && DescribesChain(r.result.context,
                                Decoded(p, w, settings, request.value.bundle, verifiedAt).value.receipts)
              && r.binding == if request.value.body == "" then None
                              else Some(bind(request.value.body, request.value.bundle.invocation))
  {
    if request.None? {
      return BadRequest;
    }
    var bundle := request.value.bundle;
    var result := Chain.Chain(p, w, settings, bundle, verifiedAt);
    if !result.Valid? {
      return NotValid(result);
    }
    var binding := if request.value.body == "" then None else Some(bind(request.value.body, bundle.invocation));
    if store == null {
      return StoreUnavailable;
    }
    AcceptedIdentifier(p, w, settings, bundle, verifiedAt);
    var inv := p.decodeInvocation(bundle.invocation).value;
    if inv.jti == "" {
      return IdentifierMissing;
    }
    var outcome := store.Check(inv.jti, committedAt);
    match outcome {
      case Claimed => return Verified(result, binding);
      case ReplayDetected => return ReplayRefused;
      case StoreExhausted => return StoreUnavailable;
    }
  }

  ghost function Seen(store: Nonce.Store?): Nonce.Entries
    reads store
  {
    if store == null then map[] else store.seen
  }

  ghost predicate Untouched(store: Nonce.Store?, before: Nonce.Entries)
    reads store
  {
    Seen(store) == before
  }

  /** A valid chain has a decodable invocation whose identifier is not empty. */
  lemma AcceptedIdentifier(p: Platform, w: World, settings: Settings, bundle: Bundle, now: Int64)
    requires Accepts(p, w, settings, bundle, now)
    ensures p.decodeInvocation(bundle.invocation).Some?
    ensures var inv := p.decodeInvocation(bundle.invocation).value;
            inv.jti != "" && FreshnessFault(inv.iat, now, settings.maxInvocationAge).None?
  {
    var c := Decoded(p, w, settings, bundle, now).value;
    StageClear(c, InvocationJti);
    assert Fault(c, InvocationJti, 0).None?;
    StageClear(c, Freshness);
    assert Fault(c, Freshness, 0).None?;
  }

  // ---- runs of requests ----

  /** One served request, in the order of commits. `valid` says that the chain
      verifier has accepted everything except the age of the invocation. */
  datatype Arrival = Arrival(jti: string, iat: Int64, valid: bool, verifiedAt: Int64, committedAt: Int64)

  ghost predicate ValidButForAge(p: Platform, w: World, settings: Settings, bundle: Bundle, now: Int64) {
    && 0 < |bundle.receipts| <= MAX_CHAIN_DEPTH
    && bundle.invocation != ""
    && var c := Decoded(p, w, settings, bundle, now);
    && c.Some? && forall s | s != Freshness :: Clear(c.value, s)
  }

  /** How a request looks to the run model. */
  ghost function ArrivalOf(p: Platform, w: World, settings: Settings, bundle: Bundle,
                           verifiedAt: Int64, committedAt: Int64): Arrival
  {
    if p.decodeInvocation(bundle.invocation).Some? then
      var inv := p.decodeInvocation(bundle.invocation).value;
      Arrival(inv.jti, inv.iat, ValidButForAge(p, w, settings, bundle, verifiedAt), verifiedAt, committedAt)
    else Arrival("", 0, false, verifiedAt, committedAt)
  }

  predicate ChainValid(a: Arrival, maxAge: nat) {
    a.valid && FreshnessFault(a.iat, a.verifiedAt, maxAge).None?
  }

  /** The run model splits acceptance correctly. */
  lemma ArrivalIsFaithful(p: Platform, w: World, settings: Settings, bundle: Bundle, verifiedAt: Int64, committedAt: Int64)
    ensures ChainValid(ArrivalOf(p, w, settings, bundle, verifiedAt, committedAt), settings.maxInvocationAge) <==>
            Accepts(p, w, settings, bundle, verifiedAt)
  {
    if && 0 < |bundle.receipts| <= MAX_CHAIN_DEPTH && bundle.invocation != ""
       && Decoded(p, w, settings, bundle, verifiedAt).Some? {
      var c := Decoded(p, w, settings, bundle, verifiedAt).value;
      ClearEverywhere(c);
      assert Clear(c, Freshness) <==> Fault(c, Freshness, 0).None?;
      assert (forall s :: Clear(c, s)) <==> Clear(c, Freshness) && forall s | s != Freshness :: Clear(c, s);
    }
  }

  datatype Config = Config(maxEntries: int, ttl: nat)

  /** Whether the request is answered with success, and the store afterwards. The
      age limit of the chain verifier is the time to live of the store. */
  function Serve(seen: Nonce.Entries, cfg: Config, a: Arrival): (bool, Nonce.Entries) {
    if ChainValid(a, cfg.ttl) then
      var (outcome, after) := Nonce.Step(seen, cfg.maxEntries, cfg.ttl, a.jti, a.committedAt);
      (outcome == Nonce.Claimed, after)
    else (false, seen)
  }

  function StoreAfter(cfg: Config, run: seq<Arrival>, k: nat): Nonce.Entries
    requires k <= |run|
  {
    if k == 0 then map[] else Serve(StoreAfter(cfg, run, k - 1), cfg, run[k - 1]).1
  }

  predicate AcceptedAt(cfg: Config, run: seq<Arrival>, k: nat)
    requires k < |run|
  {
    Serve(StoreAfter(cfg, run, k), cfg, run[k]).0
  }

  /** Commits happen in clock order, none before its own verification and none
      more than `delay` seconds after it. The clock is past 1970 and 300 seconds
      short of the end of its 64-bit range. */
  ghost predicate Orderly(run: seq<Arrival>, delay: nat) {
    && (forall i | 0 <= i < |run| :: run[i].verifiedAt <= run[i].committedAt <= run[i].verifiedAt + delay)
    && (forall i | 0 <= i < |run| :: 0 <= run[i].verifiedAt < TWO_TO_63 - CLOCK_SKEW)
    && forall i, j | 0 <= i < j < |run| :: run[i].committedAt <= run[j].committedAt
  }

  /** An accepted identifier stays in the store for the whole time to live. */
  lemma {:induction false} Remembered(cfg: Config, run: seq<Arrival>, delay: nat, i: nat, k: nat)
    requires Orderly(run, delay) && i < k <= |run| && AcceptedAt(cfg, run, i)
    requires run[k - 1].committedAt - run[i].committedAt < cfg.ttl
    ensures var seen := StoreAfter(cfg, run, k);
            run[i].jti in seen && seen[run[i].jti] >= run[i].committedAt
  {
    if k > i + 1 {
      assert run[k - 2].committedAt <= run[k - 1].committedAt;
      Remembered(cfg, run, delay, i, k - 1);
      var a := run[k - 1];
      Nonce.StepFollows(StoreAfter(cfg, run, k - 1), cfg.maxEntries, cfg.ttl, a.jti, a.committedAt);
    }
  }

  /** Two acceptances of one identifier are at least the time to live apart. */
  lemma AcceptancesApart(cfg: Config, run: seq<Arrival>, delay: nat, i: nat, j: nat)
    requires Orderly(run, delay) && i < j < |run|
    requires AcceptedAt(cfg, run, i) && AcceptedAt(cfg, run, j) && run[i].jti == run[j].jti
    ensures run[j].committedAt - run[i].committedAt >= cfg.ttl
  {
    if run[j].committedAt - run[i].committedAt < cfg.ttl {
      assert run[i].committedAt <= run[j - 1].committedAt <= run[j].committedAt by {
        assert i == j - 1 || run[i].committedAt <= run[j - 1].committedAt;
      }
      Remembered(cfg, run, delay, i, j);
    }
  }

  /** The age of the invocation does not fit in 64 bits. */
  predicate AgeWraps(iat: Int64, now: Int64) {
    now - iat >= TWO_TO_63
  }

  /** The age limit does what it says exactly when the age does not wrap round; an
      age that does wrap is negative and always passes. */
  lemma FreshnessMeaning(iat: Int64, now: Int64, maxAge: nat)
    requires 0 <= now < TWO_TO_63 - CLOCK_SKEW && maxAge > 0
    ensures FreshnessFault(iat, now, maxAge).None? <==>
            AgeWraps(iat, now) || -CLOCK_SKEW <= now - iat <= maxAge
  {
  }

  /** No date from 300 seconds before 1970 on ever wraps. */
  lemma NoWrapFromEpoch(run: seq<Arrival>, delay: nat, j: nat)
    requires Orderly(run, delay) && j < |run| && run[j].iat >= -CLOCK_SKEW
    ensures !AgeWraps(run[j].iat, run[j].verifiedAt)
  {
  }

  /** The acceptances among the first `k` requests. */
  ghost function History(cfg: Config, run: seq<Arrival>, k: nat): seq<Nonce.Claim>
    requires k <= |run|
  {
    if k == 0 then [] else
      History(cfg, run, k - 1)
        + if AcceptedAt(cfg, run, k - 1) then [Nonce.Claim(run[k - 1].jti, run[k - 1].committedAt)] else []
  }

  lemma {:induction false} HistoryRefined(cfg: Config, run: seq<Arrival>, delay: nat, k: nat, now: int)
    requires Orderly(run, delay) && k <= |run| && (k > 0 ==> run[k - 1].committedAt <= now)
    ensures Nonce.Refines(StoreAfter(cfg, run, k), History(cfg, run, k), cfg.maxEntries, cfg.ttl, now)
  {
    if k > 0 {
      var a := run[k - 1];
      assert k > 1 ==> run[k - 2].committedAt <= a.committedAt;
      HistoryRefined(cfg, run, delay, k - 1, a.committedAt);
      HistoryNext(cfg, run, k);
      LaterRefines(StoreAfter(cfg, run, k), History(cfg, run, k), cfg, a.committedAt, now);
    }
  }

  lemma HistoryNext(cfg: Config, run: seq<Arrival>, k: nat)
    requires 0 < k <= |run|
    requires Nonce.Refines(StoreAfter(cfg, run, k - 1), History(cfg, run, k - 1), cfg.maxEntries, cfg.ttl, run[k - 1].committedAt)
    ensures Nonce.Refines(StoreAfter(cfg, run, k), History(cfg, run, k), cfg.maxEntries, cfg.ttl, run[k - 1].committedAt)
  {
    var a, seen, history := run[k - 1], StoreAfter(cfg, run, k - 1), History(cfg, run, k - 1);
    if ChainValid(a, cfg.ttl) {
      Nonce.StepRefines(seen, history, cfg.maxEntries, cfg.ttl, a.committedAt, a.jti, a.committedAt);
    } else {
      assert history + [] == history;
    }
  }

  lemma LaterRefines(seen: Nonce.Entries, history: seq<Nonce.Claim>, cfg: Config, clock: int, now: int)
    requires Nonce.Refines(seen, history, cfg.maxEntries, cfg.ttl, clock) && clock <= now
    ensures Nonce.Refines(seen, history, cfg.maxEntries, cfg.ttl, now)
  {
  }

  /** The store lets an identifier in exactly when the acceptance history has none of
      it and fewer than `maxEntries` others within the time to live. */
  lemma ClaimedExactly(cfg: Config, run: seq<Arrival>, delay: nat, j: nat)
    requires Orderly(run, delay) && j < |run|
    ensures Nonce.Step(StoreAfter(cfg, run, j), cfg.maxEntries, cfg.ttl, run[j].jti, run[j].committedAt).0 == Nonce.Claimed
            <==> HasRoom(cfg, History(cfg, run, j), run[j].jti, run[j].committedAt)
  {
    HistoryRefined(cfg, run, delay, j, run[j].committedAt);
    Nonce.StepAnswers(StoreAfter(cfg, run, j), History(cfg, run, j), cfg.maxEntries, cfg.ttl,
                      run[j].committedAt, run[j].jti, run[j].committedAt);
  }

  ghost predicate HasRoom(cfg: Config, history: seq<Nonce.Claim>, jti: string, now: int) {
    && !Nonce.LiveIn(history, jti, cfg.ttl, now)
    && |Nonce.LiveOthers(history, jti, cfg.ttl, now)| < cfg.maxEntries
  }

  /** When an invocation that was already more than `delay` seconds old at its
      acceptance is presented once more, it is accepted again exactly when the rest
      of the chain is valid, its age has wrapped round, it has not been accepted within
      the time to live and fewer than `maxEntries` others have. */
  lemma AcceptedAgainExactly(cfg: Config, run: seq<Arrival>, delay: nat, i: nat, j: nat)
    requires cfg.ttl > 0 && Orderly(run, delay) && i < j < |run|
    requires AcceptedAt(cfg, run, i)
    requires run[j].jti == run[i].jti && run[j].iat == run[i].iat
    requires run[i].iat < run[i].committedAt - delay
    ensures AcceptedAt(cfg, run, j) <==>
            && run[j].valid && AgeWraps(run[j].iat, run[j].verifiedAt)
            && HasRoom(cfg, History(cfg, run, j), run[j].jti, run[j].committedAt)
  {
    ClaimedExactly(cfg, run, delay, j);
    FreshnessMeaning(run[j].iat, run[j].verifiedAt, cfg.ttl);
    if AcceptedAt(cfg, run, j) {
      AcceptancesApart(cfg, run, delay, i, j);
    }
  }

  /** So an invocation dated no earlier than 300 seconds before 1970 that was already
      more than `delay` seconds old when it was accepted is never accepted again,
      however long the run. With one clock reading per request the delay is zero. */
  lemma NeverAcceptedAgain(cfg: Config, run: seq<Arrival>, delay: nat, i: nat, j: nat)
    requires cfg.ttl > 0 && Orderly(run, delay) && i < j < |run|
    requires AcceptedAt(cfg, run, i)
    requires run[j].jti == run[i].jti && run[j].iat == run[i].iat
    requires -CLOCK_SKEW <= run[i].iat < run[i].committedAt - delay
    ensures !AcceptedAt(cfg, run, j)
  {
    NoWrapFromEpoch(run, delay, j);
    AcceptedAgainExactly(cfg, run, delay, i, j);
  }

  /** Only identifiers of requests the chain verifier accepted are ever stored. */
  lemma {:induction false} OnlyValidIdentifiersStored(cfg: Config, run: seq<Arrival>, k: nat, jti: string)
    requires k <= |run| && jti in StoreAfter(cfg, run, k)
    ensures exists i :: 0 <= i < k && run[i].jti == jti && ChainValid(run[i], cfg.ttl)
  {
    var before, a := StoreAfter(cfg, run, k - 1), run[k - 1];
    Nonce.StepFollows(before, cfg.maxEntries, cfg.ttl, a.jti, a.committedAt);
    if jti in before {
      OnlyValidIdentifiersStored(cfg, run, k - 1, jti);
    } else {
      assert run[k - 1].jti == jti;
    }
  }
}
