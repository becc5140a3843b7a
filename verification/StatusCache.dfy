/**
 The status-list cache of Block F: a snapshot that is fetched on first use,
 refreshed after its time to live, and read by many requests at once. Two locks
 serialise fetches; each critical section is one atomic step.
 */
module StatusCache {
  import opened Wrappers

  type Bytes = seq<bv8>

  // ---- reading one bit ----

  function GetBit(bitstring: Bytes, index: nat): bool {
    var byteIndex, bitIndex := index / 8, index % 8;
    if byteIndex >= |bitstring| then false
    else (bitstring[byteIndex] >> (7 - bitIndex)) & 1 == 1
  }

  /** The bits of one byte, most significant first. */
  function ByteBits(b: bv8): (bits: seq<bool>)
    ensures |bits| == 8
  {
    [b & 0x80 != 0, b & 0x40 != 0, b & 0x20 != 0, b & 0x10 != 0,
     b & 0x08 != 0, b & 0x04 != 0, b & 0x02 != 0, b & 0x01 != 0]
  }

  /** The list of bits a snapshot stands for. */
  function Bits(bitstring: Bytes): (bits: seq<bool>)
    ensures |bits| == 8 * |bitstring|
  {
    if bitstring == [] then [] else ByteBits(bitstring[0]) + Bits(bitstring[1..])
  }

  function Weight(bit: bool, mask: bv8): bv8 {
    if bit then mask else 0
  }

  /** The eight bits, put back at their places, are the byte. */
  lemma BitsMakeTheByte(b: bv8)
    ensures var s := ByteBits(b);
            b == Weight(s[0], 0x80) | Weight(s[1], 0x40) | Weight(s[2], 0x20) | Weight(s[3], 0x10)
               | Weight(s[4], 0x08) | Weight(s[5], 0x04) | Weight(s[6], 0x02) | Weight(s[7], 0x01)
  {
  }

  lemma BitOfByte(b: bv8, k: nat)
    requires k < 8
    ensures ByteBits(b)[k] <==> (b >> (7 - k)) & 1 == 1
  {
    if k == 0 {
    } else if k == 1 {
    } else if k == 2 {
    } else if k == 3 {
    } else if k == 4 {
    } else if k == 5 {
    } else if k == 6 {
    }
  }

  lemma {:induction false} BitsByByte(bitstring: Bytes, i: nat, k: nat)
    requires i < |bitstring| && k < 8
    ensures Bits(bitstring)[8 * i + k] == ByteBits(bitstring[i])[k]
  {
    if i > 0 {
      BitsByByte(bitstring[1..], i - 1, k);
      assert Bits(bitstring)[8 * i + k] == Bits(bitstring[1..])[8 * (i - 1) + k];
    }
  }

  lemma GetBitInByte(bitstring: Bytes, index: nat)
    requires index / 8 < |bitstring|
    ensures GetBit(bitstring, index) == ByteBits(bitstring[index / 8])[index % 8]
  {
    BitOfByte(bitstring[index / 8], index % 8);
  }

  lemma Eighths(index: nat, n: nat)
    ensures index == 8 * (index / 8) + index % 8
    ensures index / 8 < n <==> index < 8 * n
  {
  }

  /** Index by index, the bit read is the bit of the list, and false past its end. */
  lemma GetBitReadsBits(bitstring: Bytes, index: nat)
    ensures GetBit(bitstring, index) == (index < |Bits(bitstring)| && Bits(bitstring)[index])
  {
    Eighths(index, |bitstring|);
    if index < 8 * |bitstring| {
      GetBitInByte(bitstring, index);
      BitsByByte(bitstring, index / 8, index % 8);
    }
  }

  // ---- the snapshot and its critical sections ----

  datatype Snapshot = Snapshot(bitstring: Bytes, fetchedAt: int, published: bool)

  const NO_SNAPSHOT := Snapshot([], 0, false)

  function Expired(s: Snapshot, ttl: int, now: int): bool {
    now - s.fetchedAt > ttl
  }

  datatype Answer = Bit(revoked: bool) | OutOfRange | Unavailable | WarmedUp

  function Look(s: Snapshot, index: nat): Answer {
    if |s.bitstring| > 0 && index / 8 >= |s.bitstring| then OutOfRange
    else Bit(GetBit(s.bitstring, index))
  }

  /** What a fetch brought back; a negative or unparseable length is absent. */
  datatype Fetch = Failed | Body(bytes: Bytes, contentLength: Option<nat>)

  const MAX_STATUS_LIST := 1048576

  /** Complete, not empty, not too long. */
  predicate Usable(f: Fetch) {
    && f.Body?
    && 0 < |f.bytes| <= MAX_STATUS_LIST
    && (f.contentLength.Some? ==> f.contentLength.value == |f.bytes|)
  }

  /** The snapshot after a fetch. Without a remote list there is nothing to fetch
      and an empty list is published; an unusable fetch leaves all as it was. */
  function Refreshed(s: Snapshot, remote: bool, f: Fetch, now: int): Snapshot {
    if !remote then Snapshot([], now, true)
    else if Usable(f) then Snapshot(f.bytes, now, true)
    else s
  }

  /** Whether the refresh reports success. */
  predicate Succeeds(remote: bool, f: Fetch) {
    !remote || Usable(f)
  }

  class Cache {
    var bitstring: Bytes
    var fetchedAt: int
    var hasSnapshot: bool
    const ttl: int
    const remote: bool

    ghost function Abstract(): Snapshot
      reads this
    {
      Snapshot(bitstring, fetchedAt, hasSnapshot)
    }

    constructor (ttl: int, remote: bool)
      ensures Abstract() == NO_SNAPSHOT && this.ttl == ttl && this.remote == remote
    {
      bitstring, fetchedAt, hasSnapshot := [], 0, false;
      this.ttl, this.remote := ttl, remote;
    }

    method Refresh(f: Fetch, now: int) returns (ok: bool)
      modifies this
      ensures Abstract() == Refreshed(old(Abstract()), remote, f, now)
      ensures ok == Succeeds(remote, f)
    {
      if !remote {
        bitstring, fetchedAt, hasSnapshot := [], now, true;
        return true;
      }
      if f.Failed? {
        return false;
      }
      if |f.bytes| > MAX_STATUS_LIST || |f.bytes| == 0 {
        return false;
      }
      if f.contentLength.Some? && f.contentLength.value != |f.bytes| {
        return false;
      }
      bitstring, fetchedAt, hasSnapshot := f.bytes, now, true;
      return true;
    }

    /** `IsRevoked` when no other call runs: both fetches it may need are given, and
        the clock readings it takes, in order. */
    method IsRevoked(cancelled: bool, index: nat, first: Fetch, later: Fetch, clock: Readings) returns (a: Answer)
      modifies this
      ensures cancelled ==> a == Unavailable && Abstract() == old(Abstract())
      ensures !cancelled && !old(hasSnapshot) && !Succeeds(remote, first) ==>
                a == Unavailable && Abstract() == old(Abstract())
      ensures !cancelled && (old(hasSnapshot) || Succeeds(remote, first)) ==>
                && hasSnapshot && a == Look(Abstract(), index)
                && var start := if old(hasSnapshot) then old(Abstract())
                                else Refreshed(old(Abstract()), remote, first, clock.published);
                && Abstract() == if Expired(start, ttl, clock.checked) && Expired(start, ttl, clock.rechecked)
                                 then Refreshed(start, remote, later, clock.republished) else start
    {
      if cancelled {
        return Unavailable;
      }
      if !hasSnapshot {
        var ok := Refresh(first, clock.published);
        if !ok {
          return Unavailable;
        }
      }
      var expired := clock.checked - fetchedAt > ttl;
      if expired {
        var stillExpired := clock.rechecked - fetchedAt > ttl;
        if stillExpired {
          var _ := Refresh(later, clock.republished);
        }
      }
      if |bitstring| > 0 && index / 8 >= |bitstring| {
        return OutOfRange;
      }
      return Bit(GetBit(bitstring, index));
    }
  }

  /** The readings one call may take: when it publishes a first snapshot, at its two
      looks at the age, and when it publishes again. */
  datatype Readings = Readings(published: int, checked: int, rechecked: int, republished: int)

  // ---- interleaved calls ----

  datatype Job = Query(index: nat) | WarmUp

  /** When a call last looked at the age of the snapshot, or fetched a new one, and
      whether that fetch failed. No step reads it. */
  datatype Glance = Glance(at: int, failed: bool)

  /** Where a call stands. From `InsideInit` to `LeavingInit` it holds the
      first-fetch lock, from `InsideRefresh` to `LeavingRefresh` the refresh lock. */
  datatype Caller =
    | Begun(job: Job)
    | AwaitsInit(job: Job)
    | InsideInit(job: Job)
    | FirstFetch(job: Job)
    | LeavingInit(job: Job, ok: bool)
    | Checking(index: nat)
    | AwaitsRefresh(index: nat)
    | InsideRefresh(index: nat)
    | LaterFetch(index: nat)
    | LeavingRefresh(index: nat, glance: Glance)
    | Answering(index: nat, glance: Glance)
    | Returned(job: Job, answer: Answer)
  {
    predicate HoldsInit() {
      InsideInit? || FirstFetch? || LeavingInit?
    }

    predicate HoldsRefresh() {
      InsideRefresh? || LaterFetch? || LeavingRefresh?
    }

    predicate Fetches() {
      FirstFetch? || LaterFetch?
    }

    /** Past the point where a snapshot must exist. */
    predicate PastFirst() {
      || Checking? || AwaitsRefresh? || HoldsRefresh() || Answering?
      || (LeavingInit? && ok)
      || (Returned? && answer != Unavailable)
    }
  }

  datatype Config = Config(ttl: int, remote: bool)

  datatype Publication = Publication(at: int, bytes: Bytes)

  /** `history` lists every published snapshot; no step reads it. */
  datatype State = State(
    now: int,
    snapshot: Snapshot,
    initLock: Option<nat>,
    refreshLock: Option<nat>,
    callers: map<nat, Caller>,
    history: seq<Publication>)

  datatype Step =
    | Call(t: nat, job: Job)
    | Start(t: nat, cancelled: bool)
    | LockInit(t: nat)
    | RecheckInit(t: nat)
    | FetchFirst(t: nat, fetched: Fetch)
    | UnlockInit(t: nat)
    | Check(t: nat)
    | LockRefresh(t: nat)
    | RecheckRefresh(t: nat)
    | FetchLater(t: nat, fetched: Fetch)
    | UnlockRefresh(t: nat)
    | Answer(t: nat)
    | Tick(amount: nat)

  function Init(now: int): State {
    State(now, NO_SNAPSHOT, None, None, map[], [])
  }

  function Move(s: State, t: nat, c: Caller): State {
    s.(callers := s.callers[t := c])
  }

  /** Publishes a fetch when it is usable. */
  function Publish(s: State, cfg: Config, f: Fetch): State {
    var after := Refreshed(s.snapshot, cfg.remote, f, s.now);
    if Succeeds(cfg.remote, f) then
      s.(snapshot := after, history := s.history + [Publication(s.now, after.bitstring)])
    else s
  }

  function Next(s: State, cfg: Config, step: Step): Option<State> {
    match step
    case Call(t, job) => if t in s.callers then None else Some(Move(s, t, Begun(job)))
    case Tick(amount) => Some(s.(now := s.now + amount))
    case _ => if step.t in s.callers then CallerStep(s, cfg, step, step.t, s.callers[step.t]) else None
  }

  function CallerStep(s: State, cfg: Config, step: Step, t: nat, c: Caller): Option<State> {
    match (step, c)
    case (Start(_, cancelled), Begun(job)) =>
      if job.WarmUp? then Some(Move(s, t, AwaitsInit(job)))
      else if cancelled then Some(Move(s, t, Returned(job, Unavailable)))
      else Some(Move(s, t, if s.snapshot.published then Checking(job.index) else AwaitsInit(job)))
    case (LockInit(_), AwaitsInit(job)) =>
      if s.initLock.Some? then None else Some(Move(s.(initLock := Some(t)), t, InsideInit(job)))
    case (RecheckInit(_), InsideInit(job)) =>
      Some(Move(s, t, if s.snapshot.published then LeavingInit(job, true) else FirstFetch(job)))
    case (FetchFirst(_, f), FirstFetch(job)) =>
      Some(Move(Publish(s, cfg, f), t, LeavingInit(job, Succeeds(cfg.remote, f))))
    case (UnlockInit(_), LeavingInit(job, ok)) =>
      Some(Move(s.(initLock := None), t,
                if !ok then Returned(job, Unavailable)
                else if job.WarmUp? then Returned(job, WarmedUp)
                else Checking(job.index)))
    case (Check(_), Checking(index)) =>
      Some(Move(s, t, if Expired(s.snapshot, cfg.ttl, s.now) then AwaitsRefresh(index)
                    else Answering(index, Glance(s.now, false))))
    case (LockRefresh(_), AwaitsRefresh(index)) =>
      if s.refreshLock.Some? then None else Some(Move(s.(refreshLock := Some(t)), t, InsideRefresh(index)))
    case (RecheckRefresh(_), InsideRefresh(index)) =>
      Some(Move(s, t, if Expired(s.snapshot, cfg.ttl, s.now) then LaterFetch(index)
                    else LeavingRefresh(index, Glance(s.now, false))))
    case (FetchLater(_, f), LaterFetch(index)) =>
      Some(Move(Publish(s, cfg, f), t, LeavingRefresh(index, Glance(s.now, !Succeeds(cfg.remote, f)))))
    case (UnlockRefresh(_), LeavingRefresh(index, glance)) =>
      Some(Move(s.(refreshLock := None), t, Answering(index, glance)))
    case (Answer(_), Answering(index, _)) =>
      Some(Move(s, t, Returned(Query(index), Look(s.snapshot, index))))
    case _ => None
  }

  function Run(s: State, cfg: Config, schedule: seq<Step>): State {
    if schedule == [] then s else
      var before := Run(s, cfg, schedule[..|schedule| - 1]);
      match Next(before, cfg, schedule[|schedule| - 1])
      case Some(after) => after
      case None => before
  }

  // ---- invariants ----

  /** A lock is held by the caller inside it, and by nobody when free. */
  ghost predicate InitLockHeld(s: State) {
    && (forall t | t in s.callers && s.callers[t].HoldsInit() :: s.initLock == Some(t))
    && (s.initLock.Some? ==> s.initLock.value in s.callers && s.callers[s.initLock.value].HoldsInit())
  }

  ghost predicate RefreshLockHeld(s: State) {
    && (forall t | t in s.callers && s.callers[t].HoldsRefresh() :: s.refreshLock == Some(t))
    && (s.refreshLock.Some? ==> s.refreshLock.value in s.callers && s.callers[s.refreshLock.value].HoldsRefresh())
  }

  ghost predicate CallerFits(s: State, cfg: Config, c: Caller) {
    && (c.FirstFetch? ==> !s.snapshot.published)
    && (c.PastFirst() ==> s.snapshot.published)
    && (c.LaterFetch? ==> Expired(s.snapshot, cfg.ttl, s.now))
  }

  ghost predicate CallersFit(s: State, cfg: Config) {
    forall t | t in s.callers :: CallerFits(s, cfg, s.callers[t])
  }

  /** The snapshot is the last publication; publications are more than the time to
      live apart. */
  ghost predicate HistoryFits(s: State, cfg: Config) {
    && (s.snapshot.published <==> s.history != [])
    && (s.history != [] ==>
          && s.history[|s.history| - 1] == Publication(s.snapshot.fetchedAt, s.snapshot.bitstring)
          && s.snapshot.fetchedAt <= s.now)
    && (forall k | 1 <= k < |s.history| :: s.history[k].at > s.history[k - 1].at + cfg.ttl)
    && (s.snapshot.published ==> (s.snapshot.bitstring != [] <==> cfg.remote))
  }

  ghost predicate Invariant(s: State, cfg: Config) {
    InitLockHeld(s) && RefreshLockHeld(s) && CallersFit(s, cfg) && HistoryFits(s, cfg)
  }

  lemma StepKeepsInitLock(s: State, cfg: Config, step: Step)
    requires InitLockHeld(s) && Next(s, cfg, step).Some?
    ensures InitLockHeld(Next(s, cfg, step).value)
  {
  }

  lemma StepKeepsRefreshLock(s: State, cfg: Config, step: Step)
    requires RefreshLockHeld(s) && Next(s, cfg, step).Some?
    ensures RefreshLockHeld(Next(s, cfg, step).value)
  {
  }

  /** No two fetches run at once, whichever locks they are under. */
  lemma OneFetch(s: State, cfg: Config, t: nat, u: nat)
    requires Invariant(s, cfg)
    requires t in s.callers && u in s.callers && s.callers[t].Fetches() && s.callers[u].Fetches()
    ensures t == u
  {
    assert CallerFits(s, cfg, s.callers[t]) && CallerFits(s, cfg, s.callers[u]);
  }

  lemma StepKeepsCallers(s: State, cfg: Config, step: Step)
    requires Invariant(s, cfg) && Next(s, cfg, step).Some?
    ensures CallersFit(Next(s, cfg, step).value, cfg)
  {
    var after := Next(s, cfg, step).value;
    forall u | u in after.callers ensures CallerFits(after, cfg, after.callers[u]) {
      if u in s.callers {
        assert CallerFits(s, cfg, s.callers[u]);
        if (step.FetchFirst? || step.FetchLater?) && s.callers[u].Fetches() {
          OneFetch(s, cfg, step.t, u);
        }
      }
    }
  }

  lemma StepKeepsHistory(s: State, cfg: Config, step: Step)
    requires Invariant(s, cfg) && Next(s, cfg, step).Some?
    ensures HistoryFits(Next(s, cfg, step).value, cfg)
  {
    if step.FetchFirst? || step.FetchLater? {
      assert CallerFits(s, cfg, s.callers[step.t]);
    }
  }

  lemma {:induction false} InvariantAlways(cfg: Config, start: int, schedule: seq<Step>)
    ensures Invariant(Run(Init(start), cfg, schedule), cfg)
  {
    if schedule != [] {
      var before := Run(Init(start), cfg, schedule[..|schedule| - 1]);
      var step := schedule[|schedule| - 1];
      InvariantAlways(cfg, start, schedule[..|schedule| - 1]);
      if Next(before, cfg, step).Some? {
        StepKeepsInitLock(before, cfg, step);
        StepKeepsRefreshLock(before, cfg, step);
        StepKeepsCallers(before, cfg, step);
        StepKeepsHistory(before, cfg, step);
      }
    }
  }

  // ---- over every interleaving ----

  /** Never more than one fetch is in progress across both locks. */
  lemma NeverTwoFetches(cfg: Config, start: int, schedule: seq<Step>, t: nat, u: nat)
    requires var s := Run(Init(start), cfg, schedule);
             t in s.callers && u in s.callers && s.callers[t].Fetches() && s.callers[u].Fetches()
    ensures t == u
  {
    InvariantAlways(cfg, start, schedule);
    OneFetch(Run(Init(start), cfg, schedule), cfg, t, u);
  }

  /** A failed fetch leaves the snapshot and its age as they were. */
  lemma FailedFetchChangesNothing(s: State, cfg: Config, step: Step)
    requires Next(s, cfg, step).Some?
    requires (step.FetchFirst? || step.FetchLater?) && !Succeeds(cfg.remote, step.fetched)
    ensures var after := Next(s, cfg, step).value;
            after.snapshot == s.snapshot && after.history == s.history && after.now == s.now
  {
  }

  /** Published snapshots are more than the time to live apart, and the current
      one is the last of them. */
  lemma PublicationsApart(cfg: Config, start: int, schedule: seq<Step>)
    ensures var s := Run(Init(start), cfg, schedule);
            && (forall k | 1 <= k < |s.history| :: s.history[k].at > s.history[k - 1].at + cfg.ttl)
            && (s.history != [] ==> s.history[|s.history| - 1].bytes == s.snapshot.bitstring)
  {
    InvariantAlways(cfg, start, schedule);
  }

  /** An answer other than an error is only ever given once a snapshot exists. */
  lemma NoAnswerBeforeSnapshot(cfg: Config, start: int, schedule: seq<Step>, t: nat)
    requires var s := Run(Init(start), cfg, schedule);
             t in s.callers && s.callers[t].Returned? && s.callers[t].answer != Unavailable
    ensures Run(Init(start), cfg, schedule).history != []
  {
    var s := Run(Init(start), cfg, schedule);
    InvariantAlways(cfg, start, schedule);
    assert CallerFits(s, cfg, s.callers[t]);
  }

  /** With a remote list every answer is the bit of the current snapshot at that
      index, most significant bit first, or an error past its end; without one
      nothing is revoked. */
  lemma AnswerIsCurrentBit(cfg: Config, start: int, schedule: seq<Step>, t: nat)
    requires Next(Run(Init(start), cfg, schedule), cfg, Step.Answer(t)).Some?
    ensures var s := Run(Init(start), cfg, schedule);
            var index := s.callers[t].index;
            var bits := Bits(s.snapshot.bitstring);
            && s.history != [] && s.snapshot.bitstring == s.history[|s.history| - 1].bytes
            && Next(s, cfg, Step.Answer(t)).value.callers[t].answer ==
                 (if index < |bits| then Bit(bits[index]) else if cfg.remote then OutOfRange else Bit(false))
            && (cfg.remote <==> |bits| > 0)
  {
    var s := Run(Init(start), cfg, schedule);
    InvariantAlways(cfg, start, schedule);
    AnswerLooks(s, cfg, t);
    assert CallerFits(s, cfg, s.callers[t]);
    LookReadsBits(s.snapshot, s.callers[t].index);
  }

  lemma AnswerLooks(s: State, cfg: Config, t: nat)
    requires Next(s, cfg, Step.Answer(t)).Some?
    ensures t in s.callers && s.callers[t].Answering?
    ensures t in Next(s, cfg, Step.Answer(t)).value.callers
    ensures var c := Next(s, cfg, Step.Answer(t)).value.callers[t];
            c == Returned(Query(s.callers[t].index), Look(s.snapshot, s.callers[t].index))
  {
  }

  lemma LookReadsBits(s: Snapshot, index: nat)
    ensures var bits := Bits(s.bitstring);
            && Look(s, index) == (if index < |bits| then Bit(bits[index])
                                  else if s.bitstring != [] then OutOfRange else Bit(false))
            && (s.bitstring != [] <==> |bits| > 0)
  {
    GetBitReadsBits(s.bitstring, index);
    Eighths(index, |s.bitstring|);
  }

  // ---- what is published ----

  /** A body that arrived whole: not empty, at most 1 MiB, and as long as the response
      said, if it said so. */
  predicate ArrivedWhole(f: Fetch) {
    && f.Body? && 0 < |f.bytes| <= 0x10_0000
    && (f.contentLength == None || f.contentLength == Some(|f.bytes|))
  }

  /** With a remote list, a fetch publishes its body when that arrived whole, and
      nothing otherwise. */
  lemma FetchExactly(s: State, cfg: Config, step: Step)
    requires cfg.remote && (step.FetchFirst? || step.FetchLater?) && Next(s, cfg, step).Some?
    ensures var after := Next(s, cfg, step).value;
            if ArrivedWhole(step.fetched) then
              && after.history == s.history + [Publication(s.now, step.fetched.bytes)]
              && after.snapshot == Snapshot(step.fetched.bytes, s.now, true)
            else after.history == s.history && after.snapshot == s.snapshot
  {
  }

  lemma OnlyFetchesPublish(s: State, cfg: Config, step: Step)
    requires !step.FetchFirst? && !step.FetchLater? && Next(s, cfg, step).Some?
    ensures Next(s, cfg, step).value.history == s.history
  {
  }

  ghost predicate Fetched(step: Step, bytes: Bytes) {
    (step.FetchFirst? || step.FetchLater?) && ArrivedWhole(step.fetched) && step.fetched.bytes == bytes
  }

  /** In every interleaving, every published snapshot of a remote list is a body that
      some fetch of the run brought whole. */
  lemma {:induction false} PublicationsArrivedWhole(cfg: Config, start: int, schedule: seq<Step>, k: nat)
    requires cfg.remote && k < |Run(Init(start), cfg, schedule).history|
    ensures exists step | step in schedule :: Fetched(step, Run(Init(start), cfg, schedule).history[k].bytes)
    decreases |schedule|
  {
    var init, step := schedule[..|schedule| - 1], schedule[|schedule| - 1];
    assert schedule == init + [step];
    var before := Run(Init(start), cfg, init);
    if Next(before, cfg, step).Some? {
      if step.FetchFirst? || step.FetchLater? {
        FetchExactly(before, cfg, step);
      } else {
        OnlyFetchesPublish(before, cfg, step);
      }
    }
    if k < |before.history| {
      PublicationsArrivedWhole(cfg, start, init, k);
      var st :| st in init && Fetched(st, before.history[k].bytes);
      assert st in schedule;
    } else {
      assert Fetched(step, Run(Init(start), cfg, schedule).history[k].bytes);
    }
  }

  // ---- how old an answer can be ----

  /** A glance that did not end in a failed fetch found, or made, a snapshot no older
      than the time to live; a later one is younger still. */
  ghost predicate GlanceTrue(s: State, cfg: Config, c: Caller) {
    c.LeavingRefresh? || c.Answering? ==>
      c.glance.at <= s.now && (!c.glance.failed ==> c.glance.at - s.snapshot.fetchedAt <= cfg.ttl)
  }

  ghost predicate GlancesTrue(s: State, cfg: Config) {
    forall t | t in s.callers :: GlanceTrue(s, cfg, s.callers[t])
  }

  /** Snapshots only get younger, and nobody else is moved. */
  lemma StepRenews(s: State, cfg: Config, step: Step)
    requires HistoryFits(s, cfg) && Next(s, cfg, step).Some?
    ensures var after := Next(s, cfg, step).value;
            && s.now <= after.now
            && (s.snapshot.published ==> s.snapshot.fetchedAt <= after.snapshot.fetchedAt)
  {
  }

  lemma MoverGlances(s: State, cfg: Config, step: Step)
    requires cfg.ttl >= 0 && !step.Tick? && GlancesTrue(s, cfg) && Next(s, cfg, step).Some?
    ensures step.t in Next(s, cfg, step).value.callers
    ensures GlanceTrue(Next(s, cfg, step).value, cfg, Next(s, cfg, step).value.callers[step.t])
  {
    if step.t in s.callers {
      assert GlanceTrue(s, cfg, s.callers[step.t]);
    }
  }

  lemma StepKeepsGlances(s: State, cfg: Config, step: Step)
    requires cfg.ttl >= 0 && Invariant(s, cfg) && GlancesTrue(s, cfg) && Next(s, cfg, step).Some?
    ensures GlancesTrue(Next(s, cfg, step).value, cfg)
  {
    var after := Next(s, cfg, step).value;
    StepRenews(s, cfg, step);
    forall u | u in after.callers ensures GlanceTrue(after, cfg, after.callers[u]) {
      if !step.Tick? && u == step.t {
        MoverGlances(s, cfg, step);
      } else {
        OthersStay(s, cfg, step, u);
        assert GlanceTrue(s, cfg, s.callers[u]) && CallerFits(s, cfg, s.callers[u]);
      }
    }
  }

  lemma OthersStay(s: State, cfg: Config, step: Step, u: nat)
    requires Next(s, cfg, step).Some? && u in Next(s, cfg, step).value.callers && (step.Tick? || step.t != u)
    ensures u in s.callers && Next(s, cfg, step).value.callers[u] == s.callers[u]
  {
  }

  lemma {:induction false} GlancesAlways(cfg: Config, start: int, schedule: seq<Step>)
    requires cfg.ttl >= 0
    ensures GlancesTrue(Run(Init(start), cfg, schedule), cfg)
  {
    if schedule != [] {
      var before := Run(Init(start), cfg, schedule[..|schedule| - 1]);
      var step := schedule[|schedule| - 1];
      GlancesAlways(cfg, start, schedule[..|schedule| - 1]);
      InvariantAlways(cfg, start, schedule[..|schedule| - 1]);
      if Next(before, cfg, step).Some? {
        StepKeepsGlances(before, cfg, step);
      }
    }
  }

  /** In every interleaving, the snapshot behind an answer was no older than the time
      to live when the call last looked, unless the call's own fetch has just failed. */
  lemma AnswersAreRecent(cfg: Config, start: int, schedule: seq<Step>, t: nat)
    requires cfg.ttl >= 0 && Next(Run(Init(start), cfg, schedule), cfg, Step.Answer(t)).Some?
    ensures var s := Run(Init(start), cfg, schedule);
            var glance := s.callers[t].glance;
            && s.history != [] && glance.at <= s.now
            && (glance.failed || glance.at - s.history[|s.history| - 1].at <= cfg.ttl)
  {
    var s := Run(Init(start), cfg, schedule);
    InvariantAlways(cfg, start, schedule);
    GlancesAlways(cfg, start, schedule);
    assert GlanceTrue(s, cfg, s.callers[t]) && CallerFits(s, cfg, s.callers[t]);
  }

  /** A step a caller can take on its own, when it does not wait for a lock. */
  function OwnStep(c: Caller, t: nat): Step {
    match c
    case Begun(_) => Start(t, false)
    case AwaitsInit(_) => LockInit(t)
    case InsideInit(_) => RecheckInit(t)
    case FirstFetch(_) => FetchFirst(t, Failed)
    case LeavingInit(_, _) => UnlockInit(t)
    case Checking(_) => Check(t)
    case AwaitsRefresh(_) => LockRefresh(t)
    case InsideRefresh(_) => RecheckRefresh(t)
    case LaterFetch(_) => FetchLater(t, Failed)
    case LeavingRefresh(_, _) => UnlockRefresh(t)
    case Answering(_, _) => Step.Answer(t)
    case Returned(_, _) => Tick(0)
  }

  /** Only the two lock acquisitions can be refused. */
  lemma OwnStepPossible(s: State, cfg: Config, t: nat)
    requires t in s.callers && !s.callers[t].Returned?
    ensures || Next(s, cfg, OwnStep(s.callers[t], t)).Some?
            || (s.callers[t].AwaitsInit? && s.initLock.Some?)
            || (s.callers[t].AwaitsRefresh? && s.refreshLock.Some?)
  {
  }

  ghost predicate HolderCanMove(s: State, cfg: Config, u: nat) {
    && u in s.callers && (s.callers[u].HoldsInit() || s.callers[u].HoldsRefresh())
    && Next(s, cfg, OwnStep(s.callers[u], u)).Some?
  }

  /** No deadlock: a call that has not returned can take a step, or the holder of
      the one lock it waits for can. */
  lemma NoDeadlock(cfg: Config, start: int, schedule: seq<Step>, t: nat)
    requires var s := Run(Init(start), cfg, schedule); t in s.callers && !s.callers[t].Returned?
    ensures var s := Run(Init(start), cfg, schedule);
            || Next(s, cfg, OwnStep(s.callers[t], t)).Some?
            || (s.callers[t].AwaitsInit? && s.initLock.Some? && HolderCanMove(s, cfg, s.initLock.value))
            || (s.callers[t].AwaitsRefresh? && s.refreshLock.Some? && HolderCanMove(s, cfg, s.refreshLock.value))
  {
    var s := Run(Init(start), cfg, schedule);
    InvariantAlways(cfg, start, schedule);
    OwnStepPossible(s, cfg, t);
    if s.callers[t].AwaitsInit? && s.initLock.Some? {
      OwnStepPossible(s, cfg, s.initLock.value);
    } else if s.callers[t].AwaitsRefresh? && s.refreshLock.Some? {
      OwnStepPossible(s, cfg, s.refreshLock.value);
    }
  }

  /** How many steps a call still has before it returns, at most. */
  function Remaining(c: Caller): nat {
    match c
    case Begun(_) => 11
    case AwaitsInit(_) => 10
    case InsideInit(_) => 9
    case FirstFetch(_) => 8
    case LeavingInit(_, _) => 7
    case Checking(_) => 6
    case AwaitsRefresh(_) => 5
    case InsideRefresh(_) => 4
    case LaterFetch(_) => 3
    case LeavingRefresh(_, _) => 2
    case Answering(_, _) => 1
    case Returned(_, _) => 0
  }

  /** Every step of a call brings it closer to its return and moves no other. */
  lemma CallsFinish(s: State, cfg: Config, step: Step, u: nat)
    requires Next(s, cfg, step).Some? && u in s.callers
    ensures var after := Next(s, cfg, step).value;
            && u in after.callers
            && (if !step.Tick? && step.t == u then Remaining(after.callers[u]) < Remaining(s.callers[u])
                else after.callers[u] == s.callers[u])
  {
  }
}
