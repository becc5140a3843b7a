/**
 Issuance in the SDK: the guards of the issuing functions, the SDK's own
 attenuation test, and how both relate to what the verifier accepts.
 */
module Issue {
  import opened Wrappers
  import opened Policies
  import opened Receipts
  import opened Command
  import opened Segments
  import opened Chain
  import opened ChainSafety
  import opened Authority

  /** A policy as the SDK holds it: an allowlist may be absent or empty. */
  datatype SdkPolicy = SdkPolicy(
    maxCostUSD: Option<real>,
    piiAccess: Option<bool>,
    writeAccess: Option<bool>,
    maxCalls: Option<nat>,
    allowedTools: Option<seq<string>>,
    allowedResources: Option<seq<string>>,
    allowedDataClasses: Option<seq<string>>)

  function WireList(list: Option<seq<string>>): seq<string> {
    if list.Some? then list.value else []
  }

  /** The policy the verifier decodes: an absent list becomes an empty one. */
  function Wire(p: SdkPolicy): Policy {
    Policy(p.maxCostUSD, p.piiAccess, p.writeAccess, p.maxCalls,
           WireList(p.allowedTools), WireList(p.allowedResources), WireList(p.allowedDataClasses))
  }

  // ---- the SDK's attenuation test ----

  function SdkListEscalation(parent: Option<seq<string>>, child: Option<seq<string>>, field: Field): Option<Escalation> {
    if parent.None? || "*" in parent.value then None
    else if child.None? then Some(Omits(field))
    else ItemEscalation(parent.value, child.value, field)
  }

  function CheckPolicyAttenuation(parent: SdkPolicy, child: SdkPolicy): Option<Escalation> {
    First(CostEscalation(parent.maxCostUSD, child.maxCostUSD),
    First(FlagEscalation(parent.piiAccess, child.piiAccess, Pii),
    First(FlagEscalation(parent.writeAccess, child.writeAccess, Write),
    First(CallsEscalation(parent.maxCalls, child.maxCalls),
    First(SdkListEscalation(parent.allowedTools, child.allowedTools, Tools),
    First(SdkListEscalation(parent.allowedResources, child.allowedResources, Resources),
          SdkListEscalation(parent.allowedDataClasses, child.allowedDataClasses, DataClasses)))))))
  }

  /** The child's list is present but empty under a parent that restricts. */
  predicate EmptiesList(parent: Option<seq<string>>, child: Option<seq<string>>) {
    parent.Some? && Restricts(parent.value) && child == Some([])
  }

  predicate EmptiesSomeList(parent: SdkPolicy, child: SdkPolicy) {
    || EmptiesList(parent.allowedTools, child.allowedTools)
    || EmptiesList(parent.allowedResources, child.allowedResources)
    || EmptiesList(parent.allowedDataClasses, child.allowedDataClasses)
  }

  /** The parent's list is empty and the child does not repeat that. */
  predicate LeavesEmptyList(parent: Option<seq<string>>, child: Option<seq<string>>) {
    parent == Some([]) && child != Some([])
  }

  predicate LeavesSomeEmptyList(parent: SdkPolicy, child: SdkPolicy) {
    || LeavesEmptyList(parent.allowedTools, child.allowedTools)
    || LeavesEmptyList(parent.allowedResources, child.allowedResources)
    || LeavesEmptyList(parent.allowedDataClasses, child.allowedDataClasses)
  }

  lemma ListsCompared(parent: Option<seq<string>>, child: Option<seq<string>>, field: Field)
    ensures SdkListEscalation(parent, child, field).None? ==>
              (ListEscalation(WireList(parent), WireList(child), field).None? <==> !EmptiesList(parent, child))
    ensures ListEscalation(WireList(parent), WireList(child), field).None? ==>
              (SdkListEscalation(parent, child, field).None? <==> !LeavesEmptyList(parent, child))
  {
    ItemsAllowed(WireList(parent), WireList(child), field);
    if parent == Some([]) && child.Some? && child.value != [] {
      assert child.value[0] in child.value;
    }
  }

  /** The two attenuation tests differ in nothing but empty allowlists: what the
      SDK passes the verifier passes unless a list is emptied under a restriction,
      and what the verifier passes the SDK passes unless an empty list is left. */
  lemma AttenuationTestsCompared(parent: SdkPolicy, child: SdkPolicy)
    ensures CheckPolicyAttenuation(parent, child).None? ==>
              (CheckAttenuation(Wire(parent), Wire(child)).None? <==> !EmptiesSomeList(parent, child))
    ensures CheckAttenuation(Wire(parent), Wire(child)).None? ==>
              (CheckPolicyAttenuation(parent, child).None? <==> !LeavesSomeEmptyList(parent, child))
  {
    ListsCompared(parent.allowedTools, child.allowedTools, Tools);
    ListsCompared(parent.allowedResources, child.allowedResources, Resources);
    ListsCompared(parent.allowedDataClasses, child.allowedDataClasses, DataClasses);
  }

  lemma ListsAgree(parent: Option<seq<string>>, child: Option<seq<string>>, field: Field)
    requires !EmptiesList(parent, child) && !LeavesEmptyList(parent, child)
    ensures SdkListEscalation(parent, child, field) == ListEscalation(WireList(parent), WireList(child), field)
  {
  }

  /** Away from empty allowlists the two tests give one answer, field and kind of the
      escalation included. */
  lemma EscalationsAgree(parent: SdkPolicy, child: SdkPolicy)
    requires !EmptiesSomeList(parent, child) && !LeavesSomeEmptyList(parent, child)
    ensures CheckPolicyAttenuation(parent, child) == CheckAttenuation(Wire(parent), Wire(child))
  {
    ListsAgree(parent.allowedTools, child.allowedTools, Tools);
    ListsAgree(parent.allowedResources, child.allowedResources, Resources);
    ListsAgree(parent.allowedDataClasses, child.allowedDataClasses, DataClasses);
  }

  // ---- payloads and the issuing functions ----

  datatype SdkReceipt = SdkReceipt(
    iss: string, sub: string, aud: string,
    drsV: string, drsType: string,
    cmd: string, policy: SdkPolicy,
    nbf: int, exp: Option<int>, iat: int, jti: string,
    prevDrHash: Option<string>,
    consent: Option<ConsentRecord>,
    rootType: Option<string>,
    regulatory: Option<Regulatory>)

  function WireReceipt(r: SdkReceipt): DelegationReceipt {
    DelegationReceipt(r.iss, r.sub, r.aud, r.drsV, r.drsType, r.cmd, Wire(r.policy),
                      r.nbf, r.exp, r.iat, r.jti, r.prevDrHash, r.consent, r.rootType, r.regulatory,
                      None, None)
  }

  type SigningKey = seq<nat>

  /** JWT building and payload decoding on the SDK's side. */
  datatype Toolkit = Toolkit(
    sealReceipt: (SdkReceipt, SigningKey) -> string,
    sealInvocation: (InvocationReceipt, SigningKey) -> string,
    decode: string -> Option<SdkReceipt>,
    hash: string -> string)

  datatype DrsError =
    | ConsentMissing
    | MalformedJwt
    | ChainLinkageError
    | CmdEscalation
    | PolicyEscalated(escalation: Escalation)
    | TemporalBounds

  datatype RootParams = RootParams(
    key: SigningKey, issuerDid: string, subjectDid: string, audienceDid: string, cmd: string,
    policy: SdkPolicy, nbf: int, exp: Option<int>, consent: Option<ConsentRecord>, rootType: Option<string>,
    regulatory: Option<Regulatory>)

  datatype SubParams = SubParams(
    key: SigningKey, issuerDid: string, subjectDid: string, audienceDid: string, cmd: string,
    policy: SdkPolicy, nbf: int, exp: Option<int>,
    parentJwt: string, parentPolicy: SdkPolicy, parentNbf: int, parentExp: Option<int>)

  function RootTypeOf(params: RootParams): string {
    if params.rootType.Some? then params.rootType.value else "automated-system"
  }

  /** The payload of a root receipt; `now` and `uuid` are drawn by the caller. */
  function IssueRootDelegation(params: RootParams, now: Int64, uuid: string): Result<SdkReceipt, DrsError> {
    if RootTypeOf(params) == "human" && params.consent.None? then Err(ConsentMissing)
    else
      Ok(SdkReceipt(params.issuerDid, params.subjectDid, params.audienceDid, DRS_VERSION, DR_TYPE,
                    params.cmd, params.policy, params.nbf, params.exp, now, "dr:" + uuid,
                    None, params.consent, Some(RootTypeOf(params)), params.regulatory))
  }

  function IssueSubDelegation(t: Toolkit, params: SubParams, now: Int64, uuid: string): Result<SdkReceipt, DrsError> {
    match t.decode(params.parentJwt)
    case None => Err(MalformedJwt)
    case Some(parent) =>
      if parent.aud != params.issuerDid then Err(ChainLinkageError)
      else if !IsCmdSubPath(params.cmd, parent.cmd) then Err(CmdEscalation)
      else
        match CheckPolicyAttenuation(params.parentPolicy, params.policy)
        case Some(e) => Err(PolicyEscalated(e))
        case None =>
          if params.nbf < params.parentNbf then Err(TemporalBounds)
          else if params.exp.Some? && params.parentExp.Some? && params.exp.value > params.parentExp.value then
            Err(TemporalBounds)
          else
            Ok(SdkReceipt(params.issuerDid, params.subjectDid, params.audienceDid, DRS_VERSION, DR_TYPE,
                          params.cmd, params.policy, params.nbf, params.exp, now, "dr:" + uuid,
                          Some(t.hash(params.parentJwt)), None, None, None))
  }

  datatype InvocationParams = InvocationParams(
    key: SigningKey, issuerDid: string, subjectDid: string, cmd: string, args: Args,
    drChain: seq<string>, toolServer: string)

  function IssueInvocation(params: InvocationParams, now: Int64, uuid: string): InvocationReceipt {
    InvocationReceipt(params.issuerDid, params.subjectDid, DRS_VERSION, INV_TYPE, params.cmd, params.args,
                      params.drChain, params.toolServer, now, "inv:" + uuid)
  }

  // ---- growing a chain ----

  /** One sub-delegation as the caller asks for it; the parent fields are taken
      from the parent receipt, which is what "truthfully" means below. */
  datatype Hop = Hop(
    key: SigningKey, issuerDid: string, subjectDid: string, audienceDid: string, cmd: string,
    policy: SdkPolicy, nbf: int, exp: Option<int>, now: Int64, uuid: string)

  datatype Link = Link(jwt: string, payload: SdkReceipt)

  function TruthfulParams(h: Hop, parent: Link): SubParams {
    SubParams(h.key, h.issuerDid, h.subjectDid, h.audienceDid, h.cmd, h.policy, h.nbf, h.exp,
              parent.jwt, parent.payload.policy, parent.payload.nbf, parent.payload.exp)
  }

  /** A root and then one sub-delegation after the other. */
  function Grow(t: Toolkit, root: RootParams, now: Int64, uuid: string, hops: seq<Hop>): (r: Result<seq<Link>, DrsError>)
    ensures r.Ok? ==> |r.value| == |hops| + 1
  {
    if hops == [] then
      match IssueRootDelegation(root, now, uuid)
      case Err(e) => Err(e)
      case Ok(payload) => Ok([Link(t.sealReceipt(payload, root.key), payload)])
    else
      var h := hops[|hops| - 1];
      match Grow(t, root, now, uuid, hops[..|hops| - 1])
      case Err(e) => Err(e)
      case Ok(links) =>
        match IssueSubDelegation(t, TruthfulParams(h, links[|links| - 1]), h.now, h.uuid)
        case Err(e) => Err(e)
        case Ok(payload) => Ok(links + [Link(t.sealReceipt(payload, h.key), payload)])
  }

  /** Decoding undoes encoding on these receipts, in the SDK and in the verifier,
      and both hash alike. */
  ghost predicate Exact(t: Toolkit, p: Platform, links: seq<Link>) {
    && (forall i | 0 <= i < |links| ::
          && t.decode(links[i].jwt) == Some(links[i].payload)
          && p.decodeReceipt(links[i].jwt) == Some(WireReceipt(links[i].payload)))
    && forall s :: t.hash(s) == p.hash(s)
  }

  /** What the issuing functions check of one hop. */
  predicate HopIssued(t: Toolkit, parent: Link, child: Link) {
    var p, c := parent.payload, child.payload;
    && c.prevDrHash == Some(t.hash(parent.jwt))
    && c.iss == p.aud
    && IsCmdSubPath(c.cmd, p.cmd)
    && CheckPolicyAttenuation(p.policy, c.policy).None?
    && p.nbf <= c.nbf
    && (p.exp.Some? && c.exp.Some? ==> c.exp.value <= p.exp.value)
  }

  predicate IsIssued(l: Link) {
    && l.payload.drsType == DR_TYPE && l.payload.drsV == DRS_VERSION
    && "dr:" <= l.payload.jti
  }

  /** What the caller asks of one receipt. */
  datatype Request = Request(
    issuerDid: string, subjectDid: string, audienceDid: string, cmd: string, policy: SdkPolicy,
    nbf: int, exp: Option<int>)

  function RequestAt(root: RootParams, hops: seq<Hop>, i: nat): Request
    requires i <= |hops|
  {
    if i == 0 then
      Request(root.issuerDid, root.subjectDid, root.audienceDid, root.cmd, root.policy, root.nbf, root.exp)
    else RequestOf(hops[i - 1])
  }

  function RequestOf(h: Hop): Request {
    Request(h.issuerDid, h.subjectDid, h.audienceDid, h.cmd, h.policy, h.nbf, h.exp)
  }

  predicate Carries(payload: SdkReceipt, r: Request) {
    && payload.iss == r.issuerDid && payload.sub == r.subjectDid && payload.aud == r.audienceDid
    && payload.cmd == r.cmd && payload.policy == r.policy && payload.nbf == r.nbf && payload.exp == r.exp
  }

  predicate CarriesRoot(payload: SdkReceipt, root: RootParams) {
    && payload.prevDrHash.None? && payload.consent == root.consent && payload.regulatory == root.regulatory
    && (payload.rootType == Some("human") <==> root.rootType == Some("human"))
    && (root.rootType == Some("human") ==> root.consent.Some?)
  }

  lemma HopCarries(t: Toolkit, parent: Link, h: Hop, child: Link)
    requires t.decode(parent.jwt) == Some(parent.payload)
    requires IssueSubDelegation(t, TruthfulParams(h, parent), h.now, h.uuid) == Ok(child.payload)
    ensures IsIssued(child) && HopIssued(t, parent, child) && Carries(child.payload, RequestOf(h))
  {
  }

  /** Receipts of the issuing functions that carry what was asked for them, each hop
      past the guards against its real parent. */
  ghost predicate Grown(t: Toolkit, links: seq<Link>, root: RootParams, hops: seq<Hop>) {
    && |links| == |hops| + 1
    && (forall i | 0 <= i < |links| :: IsIssued(links[i]) && Carries(links[i].payload, RequestAt(root, hops, i)))
    && (forall i | 1 <= i < |links| :: HopIssued(t, links[i - 1], links[i]))
    && CarriesRoot(links[0].payload, root)
  }

  lemma GrownByOne(t: Toolkit, links: seq<Link>, root: RootParams, hops: seq<Hop>, h: Hop, child: Link)
    requires Grown(t, links, root, hops)
    requires IsIssued(child) && HopIssued(t, links[|hops|], child) && Carries(child.payload, RequestOf(h))
    ensures Grown(t, links + [child], root, hops + [h])
  {
    var more := links + [child];
    forall i | 0 <= i < |more| ensures IsIssued(more[i]) && Carries(more[i].payload, RequestAt(root, hops + [h], i)) {
      assert i < |links| ==> more[i] == links[i] && RequestAt(root, hops + [h], i) == RequestAt(root, hops, i);
    }
    forall i | 1 <= i < |more| ensures HopIssued(t, more[i - 1], more[i]) {
      assert i < |links| ==> HopIssued(t, links[i - 1], links[i]);
    }
  }

  /** So is every chain that the SDK grows, however long. */
  lemma {:induction false} GrownLinks(t: Toolkit, p: Platform, root: RootParams, now: Int64, uuid: string, hops: seq<Hop>)
    requires Grow(t, root, now, uuid, hops).Ok?
    requires Exact(t, p, Grow(t, root, now, uuid, hops).value)
    ensures Grown(t, Grow(t, root, now, uuid, hops).value, root, hops)
  {
    if hops != [] {
      var links := Grow(t, root, now, uuid, hops).value;
      var earlier, h := hops[..|hops| - 1], hops[|hops| - 1];
      var before := Grow(t, root, now, uuid, earlier).value;
      var parent, child := before[|before| - 1], links[|links| - 1];
      assert links == before + [child] && hops == earlier + [h];
      assert forall i | 0 <= i < |before| :: before[i] == links[i];
      GrownLinks(t, p, root, now, uuid, earlier);
      HopCarries(t, parent, h, child);
      GrownByOne(t, before, root, earlier, h, child);
    }
  }

  /** One request may follow another. */
  predicate Follows(parent: Request, child: Request) {
    && child.issuerDid == parent.audienceDid
    && Split(parent.cmd, '/') <= Split(child.cmd, '/')
    && CheckPolicyAttenuation(parent.policy, child.policy).None?
    && parent.nbf <= child.nbf
    && (parent.exp.Some? && child.exp.Some? ==> child.exp.value <= parent.exp.value)
  }

  /** Decoding undoes sealing. */
  ghost predicate Faithful(t: Toolkit) {
    forall payload, key {:trigger t.sealReceipt(payload, key)} :: t.decode(t.sealReceipt(payload, key)) == Some(payload)
  }

  lemma HopIssuedExactly(t: Toolkit, parent: Link, asked: Request, h: Hop)
    requires t.decode(parent.jwt) == Some(parent.payload) && Carries(parent.payload, asked)
    ensures var r := IssueSubDelegation(t, TruthfulParams(h, parent), h.now, h.uuid);
            && (r.Ok? <==> Follows(asked, RequestOf(h)))
            && (r.Ok? ==> Carries(r.value, RequestOf(h)))
  {
    SubpathIsSegmentPrefix(asked.cmd, h.cmd);
    SubpathAgrees(asked.cmd, h.cmd);
  }

  /** Which error a refused request gets: audience first, then command, policy, window. */
  lemma HopRefused(t: Toolkit, parent: Link, asked: Request, h: Hop)
    requires t.decode(parent.jwt) == Some(parent.payload) && Carries(parent.payload, asked)
    requires !Follows(asked, RequestOf(h))
    ensures var r := IssueSubDelegation(t, TruthfulParams(h, parent), h.now, h.uuid);
            var escalation := CheckPolicyAttenuation(asked.policy, h.policy);
            if h.issuerDid != asked.audienceDid then r == Err(ChainLinkageError)
            else if !(Split(asked.cmd, '/') <= Split(h.cmd, '/')) then r == Err(CmdEscalation)
            else if escalation.Some? then r == Err(PolicyEscalated(escalation.value))
            else r == Err(TemporalBounds)
  {
    SubpathIsSegmentPrefix(asked.cmd, h.cmd);
    SubpathAgrees(asked.cmd, h.cmd);
  }

  predicate AllFollow(root: RootParams, hops: seq<Hop>) {
    forall i | 1 <= i <= |hops| :: Follows(RequestAt(root, hops, i - 1), RequestAt(root, hops, i))
  }

  lemma LastFollows(root: RootParams, hops: seq<Hop>)
    requires hops != []
    ensures var n := |hops|;
            && RequestAt(root, hops[..n - 1], n - 1) == RequestAt(root, hops, n - 1)
            && RequestAt(root, hops, n) == RequestOf(hops[n - 1])
            && (AllFollow(root, hops) <==>
                AllFollow(root, hops[..n - 1]) && Follows(RequestAt(root, hops, n - 1), RequestOf(hops[n - 1])))
  {
    var n := |hops|;
    var earlier := hops[..n - 1];
    forall i | 0 <= i < n ensures RequestAt(root, earlier, i) == RequestAt(root, hops, i) {
    }
    if AllFollow(root, hops) {
      forall i | 1 <= i <= |earlier| ensures Follows(RequestAt(root, earlier, i - 1), RequestAt(root, earlier, i)) {
        assert Follows(RequestAt(root, hops, i - 1), RequestAt(root, hops, i));
      }
    }
    if AllFollow(root, earlier) && Follows(RequestAt(root, hops, n - 1), RequestOf(hops[n - 1])) {
      forall i | 1 <= i <= n ensures Follows(RequestAt(root, hops, i - 1), RequestAt(root, hops, i)) {
        assert i < n ==> Follows(RequestAt(root, earlier, i - 1), RequestAt(root, earlier, i));
      }
    }
  }

  /** A chain grows exactly when a human root brings a consent record and each request
      may follow the one before it. */
  lemma {:induction false} GrowsExactly(t: Toolkit, root: RootParams, now: Int64, uuid: string, hops: seq<Hop>)
    requires Faithful(t)
    ensures Grow(t, root, now, uuid, hops).Ok? <==>
            (root.rootType == Some("human") ==> root.consent.Some?) && AllFollow(root, hops)
    ensures Grow(t, root, now, uuid, hops).Ok? ==>
              var last := Grow(t, root, now, uuid, hops).value[|hops|];
              Carries(last.payload, RequestAt(root, hops, |hops|)) && t.decode(last.jwt) == Some(last.payload)
  {
    if hops != [] {
      var n := |hops|;
      GrowsExactly(t, root, now, uuid, hops[..n - 1]);
      LastFollows(root, hops);
      var shorter := Grow(t, root, now, uuid, hops[..n - 1]);
      if shorter.Ok? {
        HopIssuedExactly(t, shorter.value[n - 1], RequestAt(root, hops, n - 1), hops[n - 1]);
      }
    }
  }

  // ---- issued chains in front of the verifier ----

  ghost function Jwts(links: seq<Link>): seq<string> {
    seq(|links|, i requires 0 <= i < |links| => links[i].jwt)
  }

  ghost function Hashes(t: Toolkit, links: seq<Link>): seq<string> {
    seq(|links|, i requires 0 <= i < |links| => t.hash(links[i].jwt))
  }

  ghost predicate InvocationExact(t: Toolkit, p: Platform, inv: InvocationReceipt, key: SigningKey) {
    p.decodeInvocation(t.sealInvocation(inv, key)) == Some(inv) && t.sealInvocation(inv, key) != ""
  }

  /** The verification of a grown chain with an invocation that names all of it. */
  ghost function Presented(t: Toolkit, p: Platform, w: World, settings: Settings, now: Int64,
                           links: seq<Link>, inv: InvocationReceipt, key: SigningKey): Case {
    Case(p, w, settings, Bundle(Jwts(links), t.sealInvocation(inv, key)),
         seq(|links|, i requires 0 <= i < |links| => WireReceipt(links[i].payload)), inv, now)
  }

  /** The stages of Block B and of checks D2 to D4c. */
  predicate Structural(s: Stage) {
    match s
    case Resolution | Signatures | InvocationSignature | PolicyLoop | Freshness | Windows
       | RemoteRevocation | LocalRevocation => false
    case _ => true
  }

  /** The stages issuance alone takes care of. */
  predicate Guaranteed(s: Stage) {
    match s
    case Types | InvocationTypes | Jtis | InvocationJti | Links | Issuers | References | Commands => true
    case _ => false
  }

  /** What a caller of the SDK asks for altogether. */
  datatype Asked = Asked(root: RootParams, hops: seq<Hop>, invocation: InvocationParams)

  /** What that caller has to look after, stage by stage. */
  predicate CallerDuty(s: Stage, p: Platform, settings: Settings, asked: Asked) {
    var Asked(root, hops, inv) := asked;
    var leaf := RequestAt(root, hops, |hops|);
    match s
    case Root => root.rootType == Some("human") && root.consent.Some? ==> Consents(p, root.consent.value)
    case Invoker => inv.issuerDid == leaf.audienceDid
    case RootCommand => "/" <= root.cmd
    case LeafCommand => Split(leaf.cmd, '/') <= Split(inv.cmd, '/')
    case Subjects => forall i | 0 <= i < |hops| :: hops[i].subjectDid == root.subjectDid
    case InvocationSubject => inv.subjectDid == root.subjectDid
    case ToolServer => inv.toolServer == settings.serverIdentity
    case Hops =>
      forall i | 1 <= i <= |hops| :: HopDuty(RequestAt(root, hops, i - 1), RequestAt(root, hops, i))
    case _ => true
  }

  /** No open end under a dated parent, no list emptied under a restriction. */
  predicate HopDuty(parent: Request, child: Request) {
    && (parent.exp.Some? ==> child.exp.Some?)
    && !EmptiesSomeList(parent.policy, child.policy)
  }

  lemma HopFaultCompared(t: Toolkit, parent: Link, child: Link)
    requires HopIssued(t, parent, child)
    ensures HopFault(WireReceipt(parent.payload), WireReceipt(child.payload)).None? <==>
            && (parent.payload.exp.Some? ==> child.payload.exp.Some?)
            && !EmptiesSomeList(parent.payload.policy, child.payload.policy)
  {
    AttenuationTestsCompared(parent.payload.policy, child.payload.policy);
  }

  /** A grown chain of any length, with its parent fields passed truthfully and an
      invocation that lists all its hashes, passes each structural stage of the
      verifier exactly when the caller's duty for that stage is met; eight of the
      stages pass whatever the caller does. */
  lemma IssuedChainPasses(t: Toolkit, p: Platform, w: World, settings: Settings, now: Int64,
                          root: RootParams, rootNow: Int64, uuid: string, hops: seq<Hop>,
                          invocation: InvocationParams, invNow: Int64, invUuid: string, s: Stage)
    requires Grow(t, root, rootNow, uuid, hops).Ok?
    requires Exact(t, p, Grow(t, root, rootNow, uuid, hops).value)
    requires InvocationExact(t, p, IssueInvocation(invocation, invNow, invUuid), invocation.key)
    requires invocation.drChain == Hashes(t, Grow(t, root, rootNow, uuid, hops).value)
    requires Structural(s)
    ensures var links := Grow(t, root, rootNow, uuid, hops).value;
            var inv := IssueInvocation(invocation, invNow, invUuid);
            var c := Presented(t, p, w, settings, now, links, inv, invocation.key);
            && c.WellFormed() && c.bundle.invocation != ""
            && (Clear(c, s) <==> CallerDuty(s, p, settings, Asked(root, hops, invocation)))
            && (Guaranteed(s) ==> Clear(c, s))
  {
    var links := Grow(t, root, rootNow, uuid, hops).value;
    var inv := IssueInvocation(invocation, invNow, invUuid);
    var c := Presented(t, p, w, settings, now, links, inv, invocation.key);
    GrownLinks(t, p, root, rootNow, uuid, hops);
    var asked := Asked(root, hops, invocation);
    PresentedShows(t, p, w, settings, now, links, asked, inv);
    StageVerdict(t, c, links, asked, s);
  }

  /** So the verifier accepts an issued bundle exactly when it has at most sixteen
      receipts, the caller met every duty, and the stages that issuance has no
      say in (keys, arguments, clock, revocation) find no fault. */
  lemma IssuedBundleAccepted(t: Toolkit, p: Platform, w: World, settings: Settings, now: Int64,
                             root: RootParams, rootNow: Int64, uuid: string, hops: seq<Hop>,
                             invocation: InvocationParams, invNow: Int64, invUuid: string)
    requires Grow(t, root, rootNow, uuid, hops).Ok?
    requires Exact(t, p, Grow(t, root, rootNow, uuid, hops).value)
    requires InvocationExact(t, p, IssueInvocation(invocation, invNow, invUuid), invocation.key)
    requires invocation.drChain == Hashes(t, Grow(t, root, rootNow, uuid, hops).value)
    ensures var links := Grow(t, root, rootNow, uuid, hops).value;
            var inv := IssueInvocation(invocation, invNow, invUuid);
            var c := Presented(t, p, w, settings, now, links, inv, invocation.key);
            && c.WellFormed()
            && (Accepts(p, w, settings, c.bundle, now) <==>
                && |links| <= MAX_CHAIN_DEPTH
                && (forall s | Structural(s) :: CallerDuty(s, p, settings, Asked(root, hops, invocation)))
                && (forall s | !Structural(s) :: Clear(c, s)))
  {
    var links := Grow(t, root, rootNow, uuid, hops).value;
    var inv := IssueInvocation(invocation, invNow, invUuid);
    var c := Presented(t, p, w, settings, now, links, inv, invocation.key);
    forall s | Structural(s)
      ensures c.WellFormed() && (Clear(c, s) <==> CallerDuty(s, p, settings, Asked(root, hops, invocation)))
    {
      IssuedChainPasses(t, p, w, settings, now, root, rootNow, uuid, hops, invocation, invNow, invUuid, s);
    }
    assert Structural(Types);
    DecodesToItself(c);
    ClearEverywhere(c);
    assert (forall s :: Clear(c, s)) <==>
           (forall s | Structural(s) :: Clear(c, s)) && (forall s | !Structural(s) :: Clear(c, s));
    assert c.bundle.invocation != "";
  }

  lemma DecodesToItself(c: Case)
    requires c.WellFormed()
    ensures Decoded(c.p, c.w, c.settings, c.bundle, c.now) == Some(c)
  {
    var d := Decoded(c.p, c.w, c.settings, c.bundle, c.now).value;
    assert d.receipts == c.receipts;
  }

  lemma PresentedShows(t: Toolkit, p: Platform, w: World, settings: Settings, now: Int64,
                       links: seq<Link>, asked: Asked, inv: InvocationReceipt)
    requires Exact(t, p, links) && InvocationExact(t, p, inv, asked.invocation.key) && |links| > 0
    requires Grown(t, links, asked.root, asked.hops) && InvocationAsked(inv, asked.invocation)
    requires inv.drChain == Hashes(t, links)
    ensures Shows(t, Presented(t, p, w, settings, now, links, inv, asked.invocation.key), links, asked)
  {
  }

  lemma StageVerdict(t: Toolkit, c: Case, links: seq<Link>, asked: Asked, s: Stage)
    requires Shows(t, c, links, asked) && Structural(s)
    ensures Clear(c, s) <==> CallerDuty(s, c.p, c.settings, asked)
    ensures Guaranteed(s) ==> Clear(c, s)
  {
    if Guaranteed(s) {
      forall i | Lower(s) <= i < Upper(c, s) ensures Fault(c, s, i).None? {
        if Lower(s) == 1 {
          GuaranteedHop(t, c, links, asked, s, i);
        } else {
          GuaranteedItem(t, c, links, asked, s, i);
        }
      }
    } else {
      DutyStage(t, c, links, asked, s);
    }
  }

  /** An invocation receipt that carries what was asked for it. */
  predicate InvocationAsked(inv: InvocationReceipt, asked: InvocationParams) {
    && inv.drsType == INV_TYPE && inv.drsV == DRS_VERSION && "inv:" <= inv.jti
    && inv.iss == asked.issuerDid && inv.sub == asked.subjectDid && inv.cmd == asked.cmd
    && inv.args == asked.args && inv.drChain == asked.drChain && inv.toolServer == asked.toolServer
  }

  ghost predicate Shows(t: Toolkit, c: Case, links: seq<Link>, asked: Asked) {
    && c.WellFormed() && |c.receipts| == |links| && Grown(t, links, asked.root, asked.hops) && InvocationAsked(c.inv, asked.invocation)
    && (forall i | 0 <= i < |links| :: c.receipts[i] == WireReceipt(links[i].payload) && c.bundle.receipts[i] == links[i].jwt)
    && (forall x :: t.hash(x) == c.p.hash(x))
    && |c.inv.drChain| == |links|
    && (forall i | 0 <= i < |links| :: c.inv.drChain[i] == t.hash(links[i].jwt))
  }

  lemma GuaranteedItem(t: Toolkit, c: Case, links: seq<Link>, asked: Asked, s: Stage, i: nat)
    requires Shows(t, c, links, asked) && Guaranteed(s) && Lower(s) == 0 && i < Upper(c, s)
    ensures Fault(c, s, i).None?
  {
    assert IsIssued(links[i]);
    match s
    case Types =>
    case InvocationTypes =>
    case Jtis =>
    case InvocationJti =>
    case References => assert c.inv.drChain[i] == c.p.hash(c.bundle.receipts[i]);
  }

  lemma GuaranteedHop(t: Toolkit, c: Case, links: seq<Link>, asked: Asked, s: Stage, i: nat)
    requires Shows(t, c, links, asked) && Guaranteed(s) && Lower(s) == 1 && 1 <= i < Upper(c, s)
    ensures Fault(c, s, i).None?
  {
    assert HopIssued(t, links[i - 1], links[i]);
    match s
    case Links =>
    case Issuers =>
    case Commands => SubpathAgrees(links[i - 1].payload.cmd, links[i].payload.cmd);
  }

  lemma DutyStage(t: Toolkit, c: Case, links: seq<Link>, asked: Asked, s: Stage)
    requires Shows(t, c, links, asked) && Structural(s) && !Guaranteed(s)
    ensures Clear(c, s) <==> CallerDuty(s, c.p, c.settings, asked)
  {
    match s
    case Hops => HopsDuty(t, c, links, asked);
    case Subjects => SubjectsDuty(t, c, links, asked);
    case LeafCommand =>
      SubpathIsSegmentPrefix(c.Leaf().cmd, c.inv.cmd);
      assert Clear(c, s) <==> Fault(c, s, 0).None?;
    case Root => assert Clear(c, s) <==> Fault(c, s, 0).None?;
    case Invoker => assert Clear(c, s) <==> Fault(c, s, 0).None?;
    case RootCommand => assert Clear(c, s) <==> Fault(c, s, 0).None?;
    case InvocationSubject => assert Clear(c, s) <==> Fault(c, s, 0).None?;
    case ToolServer => assert Clear(c, s) <==> Fault(c, s, 0).None?;
  }

  lemma HopsDuty(t: Toolkit, c: Case, links: seq<Link>, asked: Asked)
    requires Shows(t, c, links, asked)
    ensures Clear(c, Hops) <==> CallerDuty(Hops, c.p, c.settings, asked)
  {
    forall i | 1 <= i < |links|
      ensures Fault(c, Hops, i).None? <==> HopDuty(RequestAt(asked.root, asked.hops, i - 1), RequestAt(asked.root, asked.hops, i))
    {
      assert HopIssued(t, links[i - 1], links[i]);
      HopFaultCompared(t, links[i - 1], links[i]);
    }
  }

  lemma SubjectsDuty(t: Toolkit, c: Case, links: seq<Link>, asked: Asked)
    requires Shows(t, c, links, asked)
    ensures Clear(c, Subjects) <==> CallerDuty(Subjects, c.p, c.settings, asked)
  {
    forall i | 1 <= i < |links|
      ensures Fault(c, Subjects, i).None? <==> asked.hops[i - 1].subjectDid == asked.root.subjectDid
    {
      assert Carries(links[i].payload, RequestAt(asked.root, asked.hops, i));
    }
    if Clear(c, Subjects) {
      forall i | 0 <= i < |asked.hops| ensures asked.hops[i].subjectDid == asked.root.subjectDid {
        assert Fault(c, Subjects, i + 1).None?;
      }
    }
  }
}
