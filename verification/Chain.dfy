/**
 The chain verifier: Blocks A to F over one bundle. The checks are listed as
 stages in execution order; each stage is a loop over an index range that stops
 at its first fault.
 */
module Chain {
  import opened Wrappers
  import opened Policies
  import opened Receipts
  import opened Command

  const DRS_VERSION := "4.0"
  const DR_TYPE := "delegation-receipt"
  const INV_TYPE := "invocation-receipt"
  const MAX_CHAIN_DEPTH := 16
  /** Tolerance for an invocation dated in the future, in seconds. */
  const CLOCK_SKEW := 300

  datatype Code =
    | EmptyChain | ChainTooDeep | MissingInvocation | MalformedReceipt | MalformedInvocation
    | WrongType | VersionMismatch | InvalidJti
    | ChainStructure | MissingConsent | InvalidConsent
    | ChainBreak | IssuerMismatch | InvokerMismatch | ChainReferenceMismatch
    | UnresolvableDid | SignatureMalleability | InvalidSignature | InvalidInvocationSignature
    | InvalidRootCmd | CommandMismatch | SubjectMismatch | InvocationSubjectMismatch | ToolServerMismatch
    | PolicyEscalation(escalation: Escalation) | TemporalBoundsViolation | PolicyViolation(violation: Violation)
    | InvocationNotYetValid | InvocationStale | NotYetValid | Expired
    | RevocationCheckFailed | IsRevoked

  /** The stages after decoding, in execution order. */
  datatype Stage =
    | Types | InvocationTypes | Jtis | InvocationJti | Root | Links | Issuers | Invoker | References
    | Resolution | Signatures | InvocationSignature
    | RootCommand | Commands | LeafCommand | Subjects | InvocationSubject | ToolServer | Hops | PolicyLoop
    | Freshness | Windows
    | RemoteRevocation | LocalRevocation

  const STAGES: seq<Stage> := [
    Types, InvocationTypes, Jtis, InvocationJti, Root, Links, Issuers, Invoker, References,
    Resolution, Signatures, InvocationSignature,
    RootCommand, Commands, LeafCommand, Subjects, InvocationSubject, ToolServer, Hops, PolicyLoop,
    Freshness, Windows,
    RemoteRevocation, LocalRevocation]

  /** One verification with everything decoded. */
  datatype Case = Case(
    p: Platform, w: World, settings: Settings, bundle: Bundle,
    receipts: seq<DelegationReceipt>, inv: InvocationReceipt, now: Int64)
  {
    /** There is a receipt, and the decoded receipts are those of the bundle. */
    predicate WellFormed() {
      && |receipts| == |bundle.receipts| > 0
      && p.decodeInvocation(bundle.invocation) == Some(inv)
      && forall i | 0 <= i < |receipts| :: p.decodeReceipt(bundle.receipts[i]) == Some(receipts[i])
    }

    function Leaf(): DelegationReceipt
      requires |receipts| > 0
    {
      receipts[|receipts| - 1]
    }
  }

  /** What a tool server is told about a valid chain. */
  datatype VerificationContext = VerificationContext(
    rootPrincipal: string,
    rootType: Option<string>,
    consent: Option<ConsentRecord>,
    regulatory: Option<Regulatory>,
    leafPolicy: Policy,
    chainDepth: nat,
    sessionId: Option<string>,
    correlationId: Option<string>)

  datatype VerificationResult =
    | Valid(context: VerificationContext)
    | Incomplete(code: Code)
    | Malformed(code: Code, at: nat)
    | Invalid(code: Code, stage: Stage, index: nat)

  // ---- the individual checks ----

  function Unless(ok: bool, code: Code): Option<Code> {
    if ok then None else Some(code)
  }

  /** Human consent must carry a method, a timestamp, a session and a policy hash. */
  predicate ConsentComplete(p: Platform, c: ConsentRecord) {
    !p.blank(c.consentMethod) && !p.blank(c.timestamp) && !p.blank(c.sessionId) && !p.blank(c.policyHash)
  }

  function RootFault(p: Platform, root: DelegationReceipt): Option<Code> {
    if root.prevDrHash.Some? then Some(ChainStructure)
    else if root.rootType != Some("human") then None
    else if root.consent.None? then Some(MissingConsent)
    else Unless(ConsentComplete(p, root.consent.value), InvalidConsent)
  }

  function TypeFault(drsType: string, drsV: string, expected: string): Option<Code> {
    First(Unless(drsType == expected, Code.WrongType), Unless(drsV == DRS_VERSION, VersionMismatch))
  }

  /** Attenuation and window nesting of one hop. */
  function HopFault(parent: DelegationReceipt, child: DelegationReceipt): Option<Code> {
    match CheckAttenuation(parent.policy, child.policy)
    case Some(e) => Some(PolicyEscalation(e))
    case None =>
      if child.nbf < parent.nbf then Some(TemporalBoundsViolation)
      else if parent.exp.None? then None
      else Unless(child.exp.Some? && child.exp.value <= parent.exp.value, TemporalBoundsViolation)
  }

  function PolicyFault(pol: Policy, args: Args): Option<Code> {
    match Evaluate(pol, args)
    case Some(v) => Some(PolicyViolation(v))
    case None => None
  }

  function ToolServerFault(settings: Settings, inv: InvocationReceipt): Option<Code> {
    Unless(inv.toolServer == settings.serverIdentity, ToolServerMismatch)
  }

  /** Not too far in the future and, when a limit is set, not too old; the sum and
      the age are 64-bit values. */
  function FreshnessFault(iat: Int64, now: Int64, maxAge: nat): Option<Code> {
    if iat > Wrap64(now + CLOCK_SKEW) then Some(InvocationNotYetValid)
    else if maxAge > 0 && Wrap64(now - iat) > maxAge then Some(InvocationStale)
    else None
  }

  function WindowFault(r: DelegationReceipt, now: int): Option<Code> {
    if now < r.nbf then Some(NotYetValid)
    else if r.exp.Some? && now > r.exp.value then Some(Expired)
    else None
  }

  function KeyFault(w: World, jwt: string, iss: string, forInvocation: bool): Option<Code> {
    match w.resolve(iss)
    case Err(_) => Some(UnresolvableDid)
    case Ok(key) =>
      match w.signature(jwt, key)
      case None => None
      case Some(NonCanonical) => Some(SignatureMalleability)
      case Some(BadSignature) => Some(if forInvocation then InvalidInvocationSignature else InvalidSignature)
  }

  function RemoteFault(w: World, index: Option<nat>): Option<Code> {
    if w.remoteRevocation.None? || index.None? then None
    else
      match w.remoteRevocation.value(index.value)
      case Revoked => Some(IsRevoked)
      case Unavailable => Some(RevocationCheckFailed)
      case NotRevoked => None
  }

  function LocalFault(w: World, index: Option<nat>): Option<Code> {
    Unless(w.localRevocation.None? || index.None? || index.value !in w.localRevocation.value, IsRevoked)
  }

  predicate AllIssuersResolve(c: Case) {
    && Resolves(c.w, c.inv.iss)
    && forall i | 0 <= i < |c.receipts| :: Resolves(c.w, c.receipts[i].iss)
  }

  predicate Resolves(w: World, did: string) {
    w.resolve(did).Ok?
  }

  function IssuerDids(c: Case): (dids: seq<string>)
    ensures |dids| == |c.receipts| + 1 && dids[|c.receipts|] == c.inv.iss
    ensures forall i | 0 <= i < |c.receipts| :: dids[i] == c.receipts[i].iss
  {
    seq(|c.receipts|, i requires 0 <= i < |c.receipts| => c.receipts[i].iss) + [c.inv.iss]
  }

  function Among(dids: seq<string>, all: seq<string>): (r: seq<string>)
    ensures forall did | did in r :: did in all
  {
    if dids == [] then []
    else if dids[0] in all then [dids[0]] + Among(dids[1..], all)
    else Among(dids[1..], all)
  }

  /** The first failure in a list of resolutions. */
  function FirstFailing(w: World, dids: seq<string>): (f: Option<ResolveFault>)
    ensures f.None? <==> forall did | did in dids :: Resolves(w, did)
    ensures f.Some? ==> exists did | did in dids :: w.resolve(did) == Err(f.value)
  {
    if dids == [] then None
    else
      assert dids == [dids[0]] + dids[1..];
      match w.resolve(dids[0])
      case Err(f) => assert dids[0] in dids && !Resolves(w, dids[0]); Some(f)
      case Ok(_) => FirstFailing(w, dids[1..])
  }

  /** The failure that comes in first decides how it is reported. */
  function ResolutionFault(c: Case): (r: Option<Code>)
    ensures r.None? <==> AllIssuersResolve(c)
    ensures r.Some? ==> exists did | did in IssuerDids(c) ::
              c.w.resolve(did).Err? && r.value == ResolveCode(c.w.resolve(did).error)
  {
    var dids := IssuerDids(c);
    assert forall did | did in dids :: did in Among(c.w.arrival(dids), dids) + dids;
    assert forall i | 0 <= i < |c.receipts| :: dids[i] in dids && dids[|c.receipts|] in dids;
    match FirstFailing(c.w, Among(c.w.arrival(dids), dids) + dids)
    case None => None
    case Some(f) => Some(ResolveCode(f))
  }

  function ResolveCode(f: ResolveFault): Code {
    if f.Recognised? then UnresolvableDid else InvalidSignature
  }

  // ---- stages ----

  /** Stages about consecutive receipts start at the second one. */
  function Lower(s: Stage): nat {
    match s
    case Links | Issuers | Commands | Subjects | Hops => 1
    case _ => 0
  }

  /** Stages about the invocation, the root or the leaf have a single step. */
  function Upper(c: Case, s: Stage): nat {
    match s
    case InvocationTypes | InvocationJti | Root | Invoker | Resolution | InvocationSignature
       | RootCommand | LeafCommand | InvocationSubject | ToolServer | Freshness => 1
    case _ => |c.receipts|
  }

  function Fault(c: Case, s: Stage, i: nat): Option<Code>
    requires c.WellFormed() && Lower(s) <= i < Upper(c, s)
  {
    var r := c.receipts[i];
    match s
    case Types => TypeFault(r.drsType, r.drsV, DR_TYPE)
    case InvocationTypes => TypeFault(c.inv.drsType, c.inv.drsV, INV_TYPE)
    case Jtis => Unless("dr:" <= r.jti, InvalidJti)
    case InvocationJti => Unless("inv:" <= c.inv.jti, InvalidJti)
    case Root => RootFault(c.p, r)
    case Links => Unless(r.prevDrHash == Some(c.p.hash(c.bundle.receipts[i - 1])), ChainBreak)
    case Issuers => Unless(r.iss == c.receipts[i - 1].aud, IssuerMismatch)
    case Invoker => Unless(c.inv.iss == c.Leaf().aud, InvokerMismatch)
    case References => Unless(|c.inv.drChain| == |c.receipts| && c.inv.drChain[i] == c.p.hash(c.bundle.receipts[i]),
                              ChainReferenceMismatch)
    case Resolution => ResolutionFault(c)
    case Signatures => KeyFault(c.w, c.bundle.receipts[i], r.iss, false)
    case InvocationSignature => KeyFault(c.w, c.bundle.invocation, c.inv.iss, true)
    case RootCommand => Unless("/" <= r.cmd, InvalidRootCmd)
    case Commands => Unless(CmdIsSubpath(c.receipts[i - 1].cmd, r.cmd), CommandMismatch)
    case LeafCommand => Unless(CmdIsSubpath(c.Leaf().cmd, c.inv.cmd), CommandMismatch)
    case Subjects => Unless(r.sub == c.receipts[0].sub, SubjectMismatch)
    case InvocationSubject => Unless(c.inv.sub == r.sub, InvocationSubjectMismatch)
    case ToolServer => ToolServerFault(c.settings, c.inv)
    case Hops => HopFault(c.receipts[i - 1], r)
    case PolicyLoop => PolicyFault(r.policy, c.inv.args)
    case Freshness => FreshnessFault(c.inv.iat, c.now, c.settings.maxInvocationAge)
    case Windows => WindowFault(r, c.now)
    case RemoteRevocation => RemoteFault(c.w, r.statusListIndex)
    case LocalRevocation => LocalFault(c.w, r.statusListIndex)
  }

  ghost predicate Clear(c: Case, s: Stage)
    requires c.WellFormed()
  {
    forall i | Lower(s) <= i < Upper(c, s) :: Fault(c, s, i).None?
  }

  /** No stage finds a fault. */
  ghost predicate AllClear(c: Case)
    requires c.WellFormed()
  {
    forall k | 0 <= k < |STAGES| :: Clear(c, STAGES[k])
  }

  /** The reported fault is the first one of the first stage that has any. */
  ghost predicate IsFirstFault(c: Case, code: Code, s: Stage, i: nat)
    requires c.WellFormed()
  {
    Lower(s) <= i < Upper(c, s) && FirstInStage(c, code, s, i) && ClearUpTo(c, s)
  }

  /** Within its stage, the first step that finds a fault finds this one. */
  ghost predicate FirstInStage(c: Case, code: Code, s: Stage, i: nat)
    requires c.WellFormed() && Lower(s) <= i < Upper(c, s)
  {
    Fault(c, s, i) == Some(code) && forall j | Lower(s) <= j < i :: Fault(c, s, j).None?
  }

  /** No stage in front of this one finds a fault. */
  ghost predicate ClearUpTo(c: Case, s: Stage)
    requires c.WellFormed()
  {
    exists k :: 0 <= k < |STAGES| && STAGES[k] == s && forall j | 0 <= j < k :: Clear(c, STAGES[j])
  }

  method Scan(c: Case, s: Stage) returns (r: Option<VerificationResult>)
    requires c.WellFormed()
    ensures r.None? <==> Clear(c, s)
    ensures r.Some? ==>
              && r.value.Invalid? && r.value.stage == s
              && Lower(s) <= r.value.index < Upper(c, s)
              && Fault(c, s, r.value.index) == Some(r.value.code)
              && forall j | Lower(s) <= j < r.value.index :: Fault(c, s, j).None?
  {
    var i := Lower(s);
    while i < Upper(c, s)
      invariant Lower(s) <= i
      invariant forall j | Lower(s) <= j < i && j < Upper(c, s) :: Fault(c, s, j).None?
    {
      var fault := Fault(c, s, i);
      if fault.Some? {
        return Some(Invalid(fault.value, s, i));
      }
      i := i + 1;
    }
    return None;
  }

  // ---- the verifier ----

  /** Decoded receipts and invocation, when all of them decode. */
  ghost function Decoded(p: Platform, w: World, settings: Settings, bundle: Bundle, now: Int64): (c: Option<Case>)
    ensures c.Some? ==>
              && c.value.p == p && c.value.w == w && c.value.settings == settings
              && c.value.bundle == bundle && c.value.now == now
    ensures c.Some? && bundle.receipts != [] ==> c.value.WellFormed()
  {
    if && p.decodeInvocation(bundle.invocation).Some?
       && forall i | 0 <= i < |bundle.receipts| :: p.decodeReceipt(bundle.receipts[i]).Some?
    then
      Some(Case(p, w, settings, bundle,
                seq(|bundle.receipts|, i requires 0 <= i < |bundle.receipts| =>
                  p.decodeReceipt(bundle.receipts[i]).value),
                p.decodeInvocation(bundle.invocation).value, now))
    else None
  }

  /** What the verifier accepts. */
  ghost predicate Accepts(p: Platform, w: World, settings: Settings, bundle: Bundle, now: Int64) {
    && 0 < |bundle.receipts| <= MAX_CHAIN_DEPTH
    && bundle.invocation != ""
    && var c := Decoded(p, w, settings, bundle, now);
    && c.Some? && AllClear(c.value)
  }

  /** The context names the root, its consent and its session, and the policy of the
      last receipt: nothing in it comes from the receipts between. */
  ghost predicate DescribesChain(x: VerificationContext, receipts: seq<DelegationReceipt>)
    requires |receipts| > 0
  {
    var root, leaf := receipts[0], receipts[|receipts| - 1];
    && x.rootPrincipal == root.iss && x.rootType == root.rootType && x.regulatory == root.regulatory
    && x.consent == root.consent && x.correlationId == root.correlationId
    && (x.sessionId.Some? <==> root.consent.Some?)
    && (x.sessionId.Some? ==> x.sessionId.value == root.consent.value.sessionId)
    && x.leafPolicy == leaf.policy && x.chainDepth == |receipts|
  }

  /** The answer is the right one for the bundle. */
  ghost predicate AnswersFor(r: VerificationResult, p: Platform, w: World, settings: Settings, bundle: Bundle, now: Int64) {
    && (r.Valid? <==> Accepts(p, w, settings, bundle, now))
    && (r.Valid? ==> DescribesChain(r.context, Decoded(p, w, settings, bundle, now).value.receipts))
    && (r.Incomplete? <==> |bundle.receipts| == 0 || |bundle.receipts| > MAX_CHAIN_DEPTH || bundle.invocation == "")
    && (r == Incomplete(EmptyChain) <==> |bundle.receipts| == 0)
    && (r == Incomplete(ChainTooDeep) <==> |bundle.receipts| > MAX_CHAIN_DEPTH)
    && (r == Incomplete(MissingInvocation) <==> 0 < |bundle.receipts| <= MAX_CHAIN_DEPTH && bundle.invocation == "")
    && (r.Malformed? ==> MalformedRightly(r, p, bundle))
    && (r.Invalid? ==>
          var c := Decoded(p, w, settings, bundle, now);
          c.Some? && c.value.WellFormed() && IsFirstFault(c.value, r.code, r.stage, r.index))
  }

  /** The first receipt that does not decode, or else the invocation. */
  ghost predicate MalformedRightly(r: VerificationResult, p: Platform, bundle: Bundle)
    requires r.Malformed?
  {
    if r.code == MalformedReceipt then
      && r.at < |bundle.receipts| && p.decodeReceipt(bundle.receipts[r.at]).None?
      && forall j | 0 <= j < r.at :: p.decodeReceipt(bundle.receipts[j]).Some?
    else
      && r.code == MalformedInvocation && p.decodeInvocation(bundle.invocation).None?
      && forall j | 0 <= j < |bundle.receipts| :: p.decodeReceipt(bundle.receipts[j]).Some?
  }

  method Chain(p: Platform, w: World, settings: Settings, bundle: Bundle, now: Int64) returns (r: VerificationResult)
    ensures AnswersFor(r, p, w, settings, bundle, now)
  {
    if |bundle.receipts| == 0 {
      return Incomplete(EmptyChain);
    }
    if |bundle.receipts| > MAX_CHAIN_DEPTH {
      return Incomplete(ChainTooDeep);
    }
    if bundle.invocation == "" {
      return Incomplete(MissingInvocation);
    }
    var receipts := [];
    for i := 0 to |bundle.receipts|
      invariant |receipts| == i
      invariant forall j | 0 <= j < i :: p.decodeReceipt(bundle.receipts[j]) == Some(receipts[j])
    {
      var dr := p.decodeReceipt(bundle.receipts[i]);
      if dr.None? {
        return Malformed(MalformedReceipt, i);
      }
      receipts := receipts + [dr.value];
    }
    var inv := p.decodeInvocation(bundle.invocation);
    if inv.None? {
      return Malformed(MalformedInvocation, 0);
    }
    var c := Case(p, w, settings, bundle, receipts, inv.value, now);
    assert Decoded(p, w, settings, bundle, now) == Some(c) by {
      assert Decoded(p, w, settings, bundle, now).value.receipts == receipts;
    }
    for k := 0 to |STAGES|
      invariant forall j | 0 <= j < k :: Clear(c, STAGES[j])
    {
      var fault := Scan(c, STAGES[k]);
      if fault.Some? {
        assert ClearUpTo(c, STAGES[k]);
        return fault.value;
      }
    }
    var root, last := receipts[0], receipts[|receipts| - 1];
    var sessionId := None;
    if root.consent.Some? {
      sessionId := Some(root.consent.value.sessionId);
    }
    return Valid(VerificationContext(root.iss, root.rootType, root.consent, root.regulatory, last.policy,
                                     |receipts|, sessionId, root.correlationId));
  }
}
