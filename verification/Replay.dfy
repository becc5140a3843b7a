/**
 How often one invocation can be accepted over whole runs of requests, for every
 date it may carry, and which invocations can come back at all.
 */
module Replay {
  import opened Receipts
  import opened Chain
  import opened Server
  import Digits
  import Nonce

  /** Positions of a run, in order, at which one invocation was accepted. */
  ghost predicate Acceptances(cfg: Config, run: seq<Arrival>, jti: string, iat: Int64, at: seq<nat>) {
    && (forall x | 0 <= x < |at| :: at[x] < |run| && run[at[x]].jti == jti && run[at[x]].iat == iat)
    && (forall x {:trigger AcceptedAt(cfg, run, at[x])} | 0 <= x < |at| :: AcceptedAt(cfg, run, at[x]))
    && Ascends(at)
  }

  lemma {:induction false} GapsAddUp(times: seq<int>, gap: nat, x: nat)
    requires x < |times|
    requires forall y | 0 < y < |times| :: times[y] - times[y - 1] >= gap
    ensures times[x] - times[0] >= Times(x, gap)
  {
    if x > 0 {
      GapsAddUp(times, gap, x - 1);
    }
  }

  lemma NextAcceptance(cfg: Config, run: seq<Arrival>, delay: nat, jti: string, iat: Int64, at: seq<nat>, x: nat)
    requires Orderly(run, delay) && Acceptances(cfg, run, jti, iat, at) && 0 < x < |at|
    ensures run[at[x]].committedAt - run[at[x - 1]].committedAt >= cfg.ttl
  {
    var i, j := at[x - 1], at[x];
    assert AcceptedAt(cfg, run, at[x - 1]) && AcceptedAt(cfg, run, at[x]);
    AcceptancesApart(cfg, run, delay, i, j);
  }

  /** `x * d`, by repeated addition. */
  ghost function Times(x: nat, d: nat): nat {
    if x == 0 then 0 else Times(x - 1, d) + d
  }

  lemma {:induction false} TimesIsProduct(x: nat, d: nat)
    ensures Times(x, d) == x * d
  {
    if x > 0 {
      TimesIsProduct(x - 1, d);
    }
  }

  lemma TimesBound(q: nat, n: nat, d: nat)
    requires d > 0 && Times(q, d) <= n
    ensures q <= n / d
  {
    TimesIsProduct(q, d);
    Digits.QuotientBound(q, n, d);
  }

  /** Acceptances whose commits lie within a window of `w` seconds. */
  lemma CountInWindow(cfg: Config, run: seq<Arrival>, delay: nat, jti: string, iat: Int64, at: seq<nat>, w: nat)
    requires cfg.ttl > 0 && Orderly(run, delay) && Acceptances(cfg, run, jti, iat, at)
    requires |at| > 0 ==> run[at[|at| - 1]].committedAt - run[at[0]].committedAt <= w
    ensures |at| <= 1 + w / cfg.ttl
  {
    if |at| > 0 {
      var n := |at| - 1;
      var times := seq(|at|, x requires 0 <= x < |at| => run[at[x]].committedAt);
      forall y | 0 < y < |at| ensures times[y] - times[y - 1] >= cfg.ttl {
        NextAcceptance(cfg, run, delay, jti, iat, at, y);
      }
      GapsAddUp(times, cfg.ttl, n);
      TimesBound(n, w, cfg.ttl);
    } else {
      TimesBound(0, w, cfg.ttl);
    }
  }

  // ---- before and after the age wraps round ----

  /** The acceptances whose age has wrapped, or those whose age has not. */
  ghost function Select(run: seq<Arrival>, at: seq<nat>, wrapped: bool): (r: seq<nat>)
    requires forall x | 0 <= x < |at| :: at[x] < |run|
    ensures forall p | p in r :: p in at && AgeWraps(run[p].iat, run[p].verifiedAt) == wrapped
  {
    if at == [] then []
    else
      var init, last := at[..|at| - 1], at[|at| - 1];
      assert at == init + [last];
      Select(run, init, wrapped) + if AgeWraps(run[last].iat, run[last].verifiedAt) == wrapped then [last] else []
  }

  lemma {:induction false} SelectAscends(run: seq<Arrival>, at: seq<nat>, wrapped: bool)
    requires forall x | 0 <= x < |at| :: at[x] < |run|
    requires Ascends(at)
    ensures Ascends(Select(run, at, wrapped))
  {
    if at != [] {
      var init, last := at[..|at| - 1], at[|at| - 1];
      SelectAscends(run, init, wrapped);
      var r := Select(run, init, wrapped);
      forall x | 0 <= x < |r| ensures r[x] < last {
        assert r[x] in r && r[x] in init;
        var y :| 0 <= y < |init| && init[y] == r[x];
        assert at[y] < at[|at| - 1];
      }
      AscendsNext(r, last);
    }
  }

  ghost predicate Ascends(at: seq<nat>) {
    forall x, y | 0 <= x < y < |at| :: at[x] < at[y]
  }

  lemma AscendsNext(at: seq<nat>, last: nat)
    requires Ascends(at) && forall x | 0 <= x < |at| :: at[x] < last
    ensures Ascends(at + [last])
  {
  }

  lemma {:induction false} SelectSizes(run: seq<Arrival>, at: seq<nat>)
    requires forall x | 0 <= x < |at| :: at[x] < |run|
    ensures |Select(run, at, true)| + |Select(run, at, false)| == |at|
  {
    if at != [] {
      SelectSizes(run, at[..|at| - 1]);
    }
  }

  lemma SelectedAcceptances(cfg: Config, run: seq<Arrival>, jti: string, iat: Int64, at: seq<nat>, wrapped: bool)
    requires Acceptances(cfg, run, jti, iat, at)
    ensures Acceptances(cfg, run, jti, iat, Select(run, at, wrapped))
  {
    var r := Select(run, at, wrapped);
    SelectAscends(run, at, wrapped);
    forall x | 0 <= x < |r|
      ensures r[x] < |run| && run[r[x]].jti == jti && run[r[x]].iat == iat && AcceptedAt(cfg, run, r[x])
    {
      assert r[x] in at;
      var y :| 0 <= y < |at| && at[y] == r[x];
      assert AcceptedAt(cfg, run, at[y]);
    }
  }

  /** An accepted request whose age has not wrapped commits within these times. */
  lemma UnwrappedTimes(cfg: Config, run: seq<Arrival>, delay: nat, p: nat)
    requires cfg.ttl > 0 && Orderly(run, delay) && p < |run| && AcceptedAt(cfg, run, p)
    requires !AgeWraps(run[p].iat, run[p].verifiedAt)
    ensures run[p].iat - CLOCK_SKEW <= run[p].committedAt <= run[p].iat + cfg.ttl + delay
    ensures 0 <= run[p].committedAt
  {
    FreshnessMeaning(run[p].iat, run[p].verifiedAt, cfg.ttl);
  }

  /** One whose age has wrapped, within these. */
  lemma WrappedTimes(run: seq<Arrival>, delay: nat, p: nat)
    requires Orderly(run, delay) && p < |run| && AgeWraps(run[p].iat, run[p].verifiedAt)
    ensures run[p].iat + TWO_TO_63 <= run[p].committedAt <= TWO_TO_63 - CLOCK_SKEW - 1 + delay
  {
  }

  // ---- how often one invocation is accepted ----

  /** The length of the time in which it can be accepted before its age wraps; below
      zero there is no such time. */
  function UnwrappedSpan(iat: Int64, delay: nat, ttl: nat): int {
    if iat >= -CLOCK_SKEW then CLOCK_SKEW + ttl + delay else iat + ttl + delay
  }

  /** The length of the time in which it can be accepted after that. */
  function WrappedSpan(iat: Int64, delay: nat): int {
    if iat >= -CLOCK_SKEW then -1 else -CLOCK_SKEW - 1 - iat + delay
  }

  /** How many acceptances, one in each time to live, have room in a span. */
  function Room(span: int, ttl: nat): nat
    requires ttl > 0
  {
    if span < 0 then 0 else
      Digits.QuotientBound(0, span, ttl);
      1 + span / ttl
  }

  /** For every date: one invocation is accepted at most as often as there is room
      before and after its age wraps. */
  lemma AcceptanceBound(cfg: Config, run: seq<Arrival>, delay: nat, jti: string, iat: Int64, at: seq<nat>)
    requires cfg.ttl > 0 && Orderly(run, delay) && Acceptances(cfg, run, jti, iat, at)
    ensures |at| <= Room(UnwrappedSpan(iat, delay, cfg.ttl), cfg.ttl) + Room(WrappedSpan(iat, delay), cfg.ttl)
  {
    SelectSizes(run, at);
    UnwrappedBound(cfg, run, delay, jti, iat, at);
    WrappedBound(cfg, run, delay, jti, iat, at);
  }

  lemma UnwrappedBound(cfg: Config, run: seq<Arrival>, delay: nat, jti: string, iat: Int64, at: seq<nat>)
    requires cfg.ttl > 0 && Orderly(run, delay) && Acceptances(cfg, run, jti, iat, at)
    ensures |Select(run, at, false)| <= Room(UnwrappedSpan(iat, delay, cfg.ttl), cfg.ttl)
  {
    var r, w := Select(run, at, false), UnwrappedSpan(iat, delay, cfg.ttl);
    if |r| > 0 {
      UnwrappedEnd(cfg, run, delay, jti, iat, at, r[0]);
      UnwrappedEnd(cfg, run, delay, jti, iat, at, r[|r| - 1]);
      SelectedAcceptances(cfg, run, jti, iat, at, false);
      CountInWindow(cfg, run, delay, jti, iat, r, w);
    }
  }

  lemma UnwrappedEnd(cfg: Config, run: seq<Arrival>, delay: nat, jti: string, iat: Int64, at: seq<nat>, p: nat)
    requires cfg.ttl > 0 && Orderly(run, delay) && Acceptances(cfg, run, jti, iat, at) && p in Select(run, at, false)
    ensures p < |run| && 0 <= run[p].committedAt && iat - CLOCK_SKEW <= run[p].committedAt <= iat + cfg.ttl + delay
  {
    assert p in at;
    var x :| 0 <= x < |at| && at[x] == p;
    assert AcceptedAt(cfg, run, at[x]);
    UnwrappedTimes(cfg, run, delay, p);
  }

  lemma WrappedBound(cfg: Config, run: seq<Arrival>, delay: nat, jti: string, iat: Int64, at: seq<nat>)
    requires cfg.ttl > 0 && Orderly(run, delay) && Acceptances(cfg, run, jti, iat, at)
    ensures |Select(run, at, true)| <= Room(WrappedSpan(iat, delay), cfg.ttl)
  {
    var r, w := Select(run, at, true), WrappedSpan(iat, delay);
    SelectedAcceptances(cfg, run, jti, iat, at, true);
    if |r| > 0 {
      var first, last := r[0], r[|r| - 1];
      assert first in r && last in r;
      WrappedTimes(run, delay, first);
      WrappedTimes(run, delay, last);
      CountInWindow(cfg, run, delay, jti, iat, r, w);
    }
  }

  /** So for every date from 300 seconds before 1970 on it is at most
      2 + (300 + delay) / ttl times. */
  lemma BoundFromEpoch(cfg: Config, run: seq<Arrival>, delay: nat, jti: string, iat: Int64, at: seq<nat>)
    requires cfg.ttl > 0 && Orderly(run, delay) && Acceptances(cfg, run, jti, iat, at) && iat >= -CLOCK_SKEW
    ensures |at| <= 2 + (CLOCK_SKEW + delay) / cfg.ttl
  {
    AcceptanceBound(cfg, run, delay, jti, iat, at);
    OneMore(CLOCK_SKEW + delay, cfg.ttl);
  }

  lemma OneMore(span: nat, ttl: nat)
    requires ttl > 0
    ensures (span + ttl) / ttl == span / ttl + 1
  {
    Digits.DivMod(span, ttl);
    Digits.DivMod(span + ttl, ttl);
    assert (span / ttl + 1) * ttl == span / ttl * ttl + ttl;
    Digits.QuotientUnique((span + ttl) / ttl, (span + ttl) % ttl, span / ttl + 1, span % ttl, ttl);
  }

  // ---- runs that reach the bound, and runs without one ----

  lemma {:induction false} StorePrefix(cfg: Config, run: seq<Arrival>, more: seq<Arrival>, k: nat)
    requires k <= |run|
    ensures StoreAfter(cfg, run + more, k) == StoreAfter(cfg, run, k)
  {
    if k > 0 {
      StorePrefix(cfg, run, more, k - 1);
    }
  }

  ghost predicate AllAccepted(cfg: Config, run: seq<Arrival>) {
    forall k | 0 <= k < |run| :: AcceptedAt(cfg, run, k)
  }

  lemma ServeFresh(cfg: Config, seen: Nonce.Entries, jti: string, iat: Int64, v: Int64, t: Int64)
    requires cfg.maxEntries > 0 && FreshnessFault(iat, v, cfg.ttl).None?
    requires seen.Keys <= {jti} && (jti in seen ==> t - seen[jti] >= cfg.ttl)
    ensures Serve(seen, cfg, Arrival(jti, iat, true, v, t)) == (true, map[jti := t])
  {
    var empty: Nonce.Entries := map[];
    assert seen - {jti} == empty;
    assert empty[jti := t] == map[jti := t];
  }

  lemma ServeLast(cfg: Config, init: seq<Arrival>, last: Arrival)
    ensures (AcceptedAt(cfg, init + [last], |init|), StoreAfter(cfg, init + [last], |init| + 1)) ==
            Serve(StoreAfter(cfg, init, |init|), cfg, last)
  {
    StorePrefix(cfg, init, [last], |init|);
    assert (init + [last])[|init|] == last;
  }

  lemma EarlierAccepted(cfg: Config, init: seq<Arrival>, last: Arrival, k: nat)
    requires k < |init| && AcceptedAt(cfg, init, k)
    ensures AcceptedAt(cfg, init + [last], k)
  {
    StorePrefix(cfg, init, [last], k);
    assert (init + [last])[k] == init[k];
  }

  lemma AcceptedOnceMore(cfg: Config, init: seq<Arrival>, last: Arrival)
    requires AllAccepted(cfg, init) && Serve(StoreAfter(cfg, init, |init|), cfg, last).0
    ensures AllAccepted(cfg, init + [last])
  {
    var run := init + [last];
    forall k | 0 <= k < |run| ensures AcceptedAt(cfg, run, k) {
      OneOfThese(cfg, init, last, k);
    }
  }

  lemma OneOfThese(cfg: Config, init: seq<Arrival>, last: Arrival, k: nat)
    requires AllAccepted(cfg, init) && Serve(StoreAfter(cfg, init, |init|), cfg, last).0
    requires k <= |init|
    ensures AcceptedAt(cfg, init + [last], k)
  {
    if k < |init| {
      assert AcceptedAt(cfg, init, k);
      EarlierAccepted(cfg, init, last, k);
    } else {
      ServeLast(cfg, init, last);
    }
  }

  /** The invocation is fresh `k` times to live after the start. */
  predicate FreshAt(cfg: Config, iat: Int64, start: nat, k: nat) {
    var t := start + k * cfg.ttl;
    t < TWO_TO_63 - CLOCK_SKEW && FreshnessFault(iat, t, cfg.ttl).None?
  }

  ghost predicate FreshTimes(cfg: Config, iat: Int64, start: nat, n: nat) {
    forall k | 0 <= k < n :: FreshAt(cfg, iat, start, k)
  }

  /** One invocation, presented once in every time to live. */
  ghost predicate Repeats(cfg: Config, run: seq<Arrival>, jti: string, iat: Int64, start: nat) {
    && Orderly(run, 0)
    && forall k | 0 <= k < |run| :: run[k].jti == jti && run[k].iat == iat && run[k].committedAt == start + k * cfg.ttl
  }

  /** It is accepted each time as long as it is fresh. */
  lemma {:induction false} AcceptedWhileFresh(cfg: Config, jti: string, iat: Int64, start: nat, n: nat)
    returns (run: seq<Arrival>)
    requires cfg.maxEntries > 0 && FreshTimes(cfg, iat, start, n)
    ensures |run| == n && Repeats(cfg, run, jti, iat, start) && AllAccepted(cfg, run)
    ensures StoreHolds(cfg, StoreAfter(cfg, run, n), jti, start, n)
  {
    if n == 0 {
      run := [];
    } else {
      var init := AcceptedWhileFresh(cfg, jti, iat, start, n - 1);
      assert FreshAt(cfg, iat, start, n - 1);
      var t: Int64 := start + (n - 1) * cfg.ttl;
      var last := Arrival(jti, iat, true, t, t);
      HeldLongEnough(cfg, StoreAfter(cfg, init, n - 1), jti, start, n);
      ServeFresh(cfg, StoreAfter(cfg, init, n - 1), jti, iat, t, t);
      ServeLast(cfg, init, last);
      AcceptedOnceMore(cfg, init, last);
      RepeatsNext(cfg, init, jti, iat, start, last);
      run := init + [last];
    }
  }

  /** Nothing but the last claim of the invocation. */
  ghost predicate StoreHolds(cfg: Config, seen: Nonce.Entries, jti: string, start: nat, n: nat) {
    seen == if n == 0 then map[] else map[jti := start + (n - 1) * cfg.ttl]
  }

  lemma HeldLongEnough(cfg: Config, seen: Nonce.Entries, jti: string, start: nat, n: nat)
    requires n > 0 && StoreHolds(cfg, seen, jti, start, n - 1)
    ensures seen.Keys <= {jti} && (jti in seen ==> start + (n - 1) * cfg.ttl - seen[jti] >= cfg.ttl)
  {
    assert n > 1 ==> (n - 1) * cfg.ttl == (n - 2) * cfg.ttl + cfg.ttl;
  }

  lemma RepeatsNext(cfg: Config, init: seq<Arrival>, jti: string, iat: Int64, start: nat, last: Arrival)
    requires Repeats(cfg, init, jti, iat, start) && FreshAt(cfg, iat, start, |init|)
    requires last == Arrival(jti, iat, true, start + |init| * cfg.ttl, start + |init| * cfg.ttl)
    ensures Repeats(cfg, init + [last], jti, iat, start)
  {
    forall k | 0 <= k < |init| ensures init[k].committedAt <= last.committedAt {
      Digits.MulMonotone(cfg.ttl, k, |init|);
    }
    OrderlyNext(init, last);
    var run := init + [last];
    forall k | 0 <= k < |run|
      ensures run[k].jti == jti && run[k].iat == iat && run[k].committedAt == start + k * cfg.ttl
    {
      if k < |init| {
        assert run[k] == init[k];
      } else {
        assert k == |init| && run[k] == last;
      }
    }
  }

  lemma OrderlyNext(init: seq<Arrival>, last: Arrival)
    requires Orderly(init, 0) && 0 <= last.verifiedAt == last.committedAt < TWO_TO_63 - CLOCK_SKEW
    requires forall k | 0 <= k < |init| :: init[k].committedAt <= last.committedAt
    ensures Orderly(init + [last], 0)
  {
  }

  lemma RepeatedAcceptances(cfg: Config, jti: string, iat: Int64, start: nat, n: nat)
    returns (run: seq<Arrival>, at: seq<nat>)
    requires cfg.maxEntries > 0 && FreshTimes(cfg, iat, start, n)
    ensures Orderly(run, 0) && Acceptances(cfg, run, jti, iat, at) && |at| == n
  {
    run := AcceptedWhileFresh(cfg, jti, iat, start, n);
    at := AllAreAcceptances(cfg, run, jti, iat, start);
  }

  lemma AllAreAcceptances(cfg: Config, run: seq<Arrival>, jti: string, iat: Int64, start: nat) returns (at: seq<nat>)
    requires Repeats(cfg, run, jti, iat, start) && AllAccepted(cfg, run)
    ensures |at| == |run| && Acceptances(cfg, run, jti, iat, at)
  {
    at := seq(|run|, k => k);
  }

  /** The bound is reached for every time to live, by an invocation dated 300 seconds
      ahead of its first presentation. */
  lemma BoundIsTight(cfg: Config, jti: string, start: nat) returns (run: seq<Arrival>, at: seq<nat>)
    requires cfg.ttl > 0 && cfg.maxEntries > 0 && start + 2 * CLOCK_SKEW + cfg.ttl < TWO_TO_63
    ensures Orderly(run, 0) && Acceptances(cfg, run, jti, start + CLOCK_SKEW, at)
    ensures |at| == 2 + CLOCK_SKEW / cfg.ttl
  {
    var q := CLOCK_SKEW / cfg.ttl;
    Digits.DivMod(CLOCK_SKEW, cfg.ttl);
    run, at := AcceptedAhead(cfg, jti, start, q);
  }

  lemma AcceptedAhead(cfg: Config, jti: string, start: nat, q: nat) returns (run: seq<Arrival>, at: seq<nat>)
    requires cfg.ttl > 0 && cfg.maxEntries > 0 && start + 2 * CLOCK_SKEW + cfg.ttl < TWO_TO_63
    requires q * cfg.ttl <= CLOCK_SKEW
    ensures Orderly(run, 0) && Acceptances(cfg, run, jti, start + CLOCK_SKEW, at) && |at| == 2 + q
  {
    TightFreshTimes(cfg, start, q);
    run, at := RepeatedAcceptances(cfg, jti, start + CLOCK_SKEW, start, 2 + q);
  }

  lemma TightFreshTimes(cfg: Config, start: nat, q: nat)
    requires cfg.ttl > 0 && start + 2 * CLOCK_SKEW + cfg.ttl < TWO_TO_63 && q * cfg.ttl <= CLOCK_SKEW
    ensures FreshTimes(cfg, start + CLOCK_SKEW, start, 2 + q)
  {
    var iat: Int64 := start + CLOCK_SKEW;
    forall k | 0 <= k < 2 + q ensures FreshAt(cfg, iat, start, k) {
      TightFresh(cfg, start, k, q);
    }
  }

  lemma TightFresh(cfg: Config, start: nat, k: nat, q: nat)
    requires cfg.ttl > 0 && start + 2 * CLOCK_SKEW + cfg.ttl < TWO_TO_63
    requires q * cfg.ttl <= CLOCK_SKEW && k <= 1 + q
    ensures FreshAt(cfg, start + CLOCK_SKEW, start, k)
  {
    Digits.MulMonotone(cfg.ttl, k, 1 + q);
    var passed := k * cfg.ttl;
    assert passed <= cfg.ttl + CLOCK_SKEW;
    FreshnessMeaning(start + CLOCK_SKEW, start + passed, cfg.ttl);
  }

  // ---- exactly which invocations can come back ----

  /** In this run the invocation is accepted at time `t`, and once more later on. */
  ghost predicate ComesBack(cfg: Config, run: seq<Arrival>, delay: nat, jti: string, iat: Int64, t: Int64) {
    Orderly(run, delay) && exists i, j :: AcceptedBoth(cfg, run, jti, iat, t, i, j)
  }

  ghost predicate AcceptedBoth(cfg: Config, run: seq<Arrival>, jti: string, iat: Int64, t: Int64, i: nat, j: nat) {
    && i < j < |run|
    && run[i].jti == jti == run[j].jti && run[i].iat == iat == run[j].iat && run[i].committedAt == t
    && AcceptedAt(cfg, run, i) && AcceptedAt(cfg, run, j)
  }

  /** An invocation that can be accepted at time `t`, verified at `v`, can be accepted
      again in some run exactly when it is dated no earlier than `t`, give or take the
      delay between verification and commit, or so early that its age wraps round while
      the clock still runs. */
  lemma CanComeBackExactly(cfg: Config, delay: nat, jti: string, iat: Int64, v: Int64, t: Int64)
    requires cfg.ttl > 0 && cfg.maxEntries > 0
    requires 0 <= v <= t <= v + delay && t + cfg.ttl < TWO_TO_63 - CLOCK_SKEW
    requires FreshnessFault(iat, v, cfg.ttl).None?
    ensures (exists run :: ComesBack(cfg, run, delay, jti, iat, t)) <==> iat >= t - delay || iat < -CLOCK_SKEW
  {
    if iat < -CLOCK_SKEW {
      var again: Int64 := if t + cfg.ttl < iat + TWO_TO_63 then iat + TWO_TO_63 else t + cfg.ttl;
      var run := TwiceAccepted(cfg, delay, jti, iat, v, t, again, again);
    } else if iat >= t - delay {
      FreshnessMeaning(iat, v, cfg.ttl);
      var run := TwiceAccepted(cfg, delay, jti, iat, v, t, (if t < iat then t else iat) + cfg.ttl, t + cfg.ttl);
    } else {
      forall run: seq<Arrival> ensures !ComesBack(cfg, run, delay, jti, iat, t) {
        NotTwice(cfg, run, delay, jti, iat, t);
      }
    }
  }

  lemma NotTwice(cfg: Config, run: seq<Arrival>, delay: nat, jti: string, iat: Int64, t: Int64)
    requires cfg.ttl > 0 && -CLOCK_SKEW <= iat < t - delay
    ensures !ComesBack(cfg, run, delay, jti, iat, t)
  {
    if ComesBack(cfg, run, delay, jti, iat, t) {
      var i: nat, j: nat :| AcceptedBoth(cfg, run, jti, iat, t, i, j);
      NeverAcceptedAgain(cfg, run, delay, i, j);
    }
  }

  lemma TwiceAccepted(cfg: Config, delay: nat, jti: string, iat: Int64, v: Int64, t: Int64, again: Int64, later: Int64)
    returns (run: seq<Arrival>)
    requires cfg.ttl > 0 && cfg.maxEntries > 0
    requires 0 <= v <= t <= v + delay && 0 <= again <= later <= again + delay
    requires v < TWO_TO_63 - CLOCK_SKEW && again < TWO_TO_63 - CLOCK_SKEW && t + cfg.ttl <= later
    requires FreshnessFault(iat, v, cfg.ttl).None?
    requires AgeWraps(iat, again) || -CLOCK_SKEW <= again - iat <= cfg.ttl
    ensures ComesBack(cfg, run, delay, jti, iat, t)
  {
    FreshnessMeaning(iat, again, cfg.ttl);
    var a, b := Arrival(jti, iat, true, v, t), Arrival(jti, iat, true, again, later);
    ServeFresh(cfg, map[], jti, iat, v, t);
    ServeFresh(cfg, map[jti := t], jti, iat, again, later);
    ServeLast(cfg, [], a);
    AcceptedOnceMore(cfg, [], a);
    assert [] + [a] == [a] && [a] + [b] == [a, b];
    ServeLast(cfg, [a], b);
    AcceptedOnceMore(cfg, [a], b);
    run := [a, b];
    assert AcceptedAt(cfg, run, 0) && AcceptedAt(cfg, run, 1);
    assert AcceptedBoth(cfg, run, jti, iat, t, 0, 1);
  }

  // ---- exactly which dates exceed the bound ----

  /** Once its age has wrapped round, an invocation is accepted in every time to live
      until the clock ends. */
  lemma AcceptedWhileWrapped(cfg: Config, jti: string, iat: Int64, start: nat, n: nat)
    returns (run: seq<Arrival>, at: seq<nat>)
    requires cfg.ttl > 0 && cfg.maxEntries > 0 && n > 0
    requires start + (n - 1) * cfg.ttl < TWO_TO_63 - CLOCK_SKEW && AgeWraps(iat, start)
    ensures Orderly(run, 0) && Acceptances(cfg, run, jti, iat, at) && |at| == n
  {
    forall k | 0 <= k < n ensures FreshAt(cfg, iat, start, k) {
      Digits.MulMonotone(cfg.ttl, k, n - 1);
      FreshnessMeaning(iat, start + k * cfg.ttl, cfg.ttl);
    }
    run, at := RepeatedAcceptances(cfg, jti, iat, start, n);
  }

  ghost predicate Exceeds(cfg: Config, run: seq<Arrival>, jti: string, iat: Int64, at: seq<nat>)
    requires cfg.ttl > 0
  {
    Orderly(run, 0) && Acceptances(cfg, run, jti, iat, at) && |at| > 2 + CLOCK_SKEW / cfg.ttl
  }

  /** With one clock reading per request, some run accepts an invocation more than
      2 + 300 / ttl times exactly when its date leaves room for that many times to live,
      and 300 seconds more, before the clock ends: that is so for no date of the
      last 600 seconds before 1970, nor for any since. */
  lemma ExceedsExactly(cfg: Config, jti: string, iat: Int64)
    requires cfg.ttl > 0 && cfg.maxEntries > 0
    ensures (exists run, at :: Exceeds(cfg, run, jti, iat, at)) <==>
            iat < -CLOCK_SKEW - (2 + CLOCK_SKEW / cfg.ttl) * cfg.ttl
  {
    var q := CLOCK_SKEW / cfg.ttl;
    Digits.QuotientBound(0, CLOCK_SKEW, cfg.ttl);
    if iat < -CLOCK_SKEW - (2 + q) * cfg.ttl {
      var run, at := AcceptedWhileWrapped(cfg, jti, iat, iat + TWO_TO_63, 3 + q);
      assert Exceeds(cfg, run, jti, iat, at);
    } else {
      forall run: seq<Arrival>, at: seq<nat> ensures !Exceeds(cfg, run, jti, iat, at) {
        NotExceeded(cfg, run, jti, iat, at, q);
      }
    }
  }

  lemma NotExceeded(cfg: Config, run: seq<Arrival>, jti: string, iat: Int64, at: seq<nat>, q: nat)
    requires cfg.ttl > 0 && q == CLOCK_SKEW / cfg.ttl && iat >= -CLOCK_SKEW - (2 + q) * cfg.ttl
    ensures !Exceeds(cfg, run, jti, iat, at)
  {
    if Exceeds(cfg, run, jti, iat, at) {
      AcceptanceBound(cfg, run, 0, jti, iat, at);
      if iat >= -CLOCK_SKEW {
        BoundFromEpoch(cfg, run, 0, jti, iat, at);
      } else {
        SmallRoom(iat, cfg.ttl, q);
      }
    }
  }

  lemma SmallRoom(iat: Int64, ttl: nat, q: nat)
    requires ttl > 0 && q == CLOCK_SKEW / ttl && -CLOCK_SKEW - (2 + q) * ttl <= iat < -CLOCK_SKEW
    ensures Room(UnwrappedSpan(iat, 0, ttl), ttl) + Room(WrappedSpan(iat, 0), ttl) <= 2 + q
  {
    var before, after := iat + ttl, -CLOCK_SKEW - 1 - iat;
    if before >= 0 {
      LessThan(before, ttl, 1);
      LessThan(after, ttl, 1);
    } else {
      LessThan(after, ttl, 2 + q);
    }
  }

  lemma LessThan(n: nat, d: nat, k: nat)
    requires d > 0 && n < k * d
    ensures n / d < k
  {
    Digits.DivMod(n, d);
    if n / d >= k {
      Digits.MulMonotone(d, k, n / d);
    }
  }
}
