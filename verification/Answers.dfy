/**
 What every negative answer of the verifier says about the bundle: for each code, the
 exact situation of the receipt or the invocation it is about, in terms of their fields.
 */
module Answers {
  import opened Wrappers
  import opened Policies
  import opened PolicyAnswers
  import opened Receipts
  import opened Command
  import opened Segments
  import opened Chain
  import opened ChainSafety

  /** The key of the signer, when it resolves, and what the signature test says. */
  predicate SignatureSays(w: World, jwt: string, iss: string, fault: SignatureFault) {
    w.resolve(iss).Ok? && w.signature(jwt, w.resolve(iss).value) == Some(fault)
  }

  /** The first issuer that fails to resolve, in the order in which results come in,
      fails with this fault. */
  ghost predicate FirstFailureIs(c: Case, fault: ResolveFault) {
    var dids := IssuerDids(c);
    var order := Among(c.w.arrival(dids), dids) + dids;
    exists k | 0 <= k < |order| ::
      c.w.resolve(order[k]) == Err(fault) && forall j | 0 <= j < k :: c.w.resolve(order[j]).Ok?
  }

  /** Some field of a human consent that must not be blank is. */
  predicate ConsentLacks(p: Platform, c: ConsentRecord) {
    p.blank(c.consentMethod) || p.blank(c.timestamp) || p.blank(c.sessionId) || p.blank(c.policyHash)
  }

  predicate Outlives(parent: DelegationReceipt, child: DelegationReceipt) {
    || child.nbf < parent.nbf
    || (parent.exp.Some? && (child.exp.None? || parent.exp.value < child.exp.value))
  }

  // ---- which code is the right one ----

  predicate AboutKinds(s: Stage) {
    s.Types? || s.InvocationTypes? || s.Jtis? || s.InvocationJti?
  }

  predicate AboutLinks(s: Stage) {
    s.Root? || s.Links? || s.Issuers? || s.Invoker? || s.References?
  }

  predicate AboutKeys(s: Stage) {
    s.Resolution? || s.Signatures? || s.InvocationSignature?
  }

  predicate AboutCommands(s: Stage) {
    s.RootCommand? || s.Commands? || s.LeafCommand? || s.Subjects? || s.InvocationSubject? || s.ToolServer?
  }

  predicate AboutPolicies(s: Stage) {
    s.Hops? || s.PolicyLoop?
  }

  ghost predicate KindReport(r: DelegationReceipt, inv: InvocationReceipt, s: Stage, code: Code) {
    match code
    case WrongType =>
      || (s.Types? && r.drsType != "delegation-receipt")
      || (s.InvocationTypes? && inv.drsType != "invocation-receipt")
    case VersionMismatch =>
      || (s.Types? && r.drsType == "delegation-receipt" && r.drsV != "4.0")
      || (s.InvocationTypes? && inv.drsType == "invocation-receipt" && inv.drsV != "4.0")
    case InvalidJti => (s.Jtis? && !("dr:" <= r.jti)) || (s.InvocationJti? && !("inv:" <= inv.jti))
    case _ => false
  }

  ghost predicate LinkReport(c: Case, s: Stage, i: nat, code: Code)
    requires c.WellFormed() && Lower(s) <= i < Upper(c, s) && AboutLinks(s)
  {
    var r, inv := c.receipts[i], c.inv;
    match code
    case ChainStructure => s.Root? && r.prevDrHash.Some?
    case MissingConsent => s.Root? && r.prevDrHash.None? && r.rootType == Some("human") && r.consent.None?
    case InvalidConsent =>
      s.Root? && r.prevDrHash.None? && r.rootType == Some("human") && r.consent.Some? && ConsentLacks(c.p, r.consent.value)
    case ChainBreak => s.Links? && r.prevDrHash != Some(c.p.hash(c.bundle.receipts[i - 1]))
    case IssuerMismatch => s.Issuers? && r.iss != c.receipts[i - 1].aud
    case InvokerMismatch => s.Invoker? && inv.iss != c.receipts[|c.receipts| - 1].aud
    case ChainReferenceMismatch =>
      s.References? && (|inv.drChain| != |c.receipts| || inv.drChain[i] != c.p.hash(c.bundle.receipts[i]))
    case _ => false
  }

  ghost predicate KeyReport(c: Case, s: Stage, i: nat, code: Code)
    requires c.WellFormed() && Lower(s) <= i < Upper(c, s) && AboutKeys(s)
  {
    var jwt, iss := if s.Signatures? then c.bundle.receipts[i] else c.bundle.invocation,
                    if s.Signatures? then c.receipts[i].iss else c.inv.iss;
    match code
    case UnresolvableDid => if s.Resolution? then FirstFailureIs(c, Recognised) else c.w.resolve(iss).Err?
    case SignatureMalleability => !s.Resolution? && SignatureSays(c.w, jwt, iss, NonCanonical)
    case InvalidSignature =>
      || (s.Resolution? && FirstFailureIs(c, Unrecognised))
      || (s.Signatures? && SignatureSays(c.w, jwt, iss, BadSignature))
    case InvalidInvocationSignature => s.InvocationSignature? && SignatureSays(c.w, jwt, iss, BadSignature)
    case _ => false
  }

  ghost predicate CommandReport(c: Case, s: Stage, i: nat, code: Code)
    requires c.WellFormed() && Lower(s) <= i < Upper(c, s) && AboutCommands(s)
  {
    var r, inv := c.receipts[i], c.inv;
    match code
    case InvalidRootCmd => s.RootCommand? && (r.cmd == "" || r.cmd[0] != '/')
    case CommandMismatch =>
      || (s.Commands? && !(Split(c.receipts[i - 1].cmd, '/') <= Split(r.cmd, '/')))
      || (s.LeafCommand? && !(Split(c.receipts[|c.receipts| - 1].cmd, '/') <= Split(inv.cmd, '/')))
    case SubjectMismatch => s.Subjects? && r.sub != c.receipts[0].sub
    case InvocationSubjectMismatch => s.InvocationSubject? && inv.sub != c.receipts[0].sub
    case ToolServerMismatch => s.ToolServer? && inv.toolServer != c.settings.serverIdentity
    case _ => false
  }

  ghost predicate HopReport(parent: DelegationReceipt, child: DelegationReceipt, code: Code) {
    match code
    case PolicyEscalation(e) =>
      Escalates(parent.policy, child.policy, e) && EarlierKeep(parent.policy, child.policy, e.field)
    case TemporalBoundsViolation => NoneEscalates(parent.policy, child.policy) && Outlives(parent, child)
    case _ => false
  }

  ghost predicate NoneEscalates(parent: Policy, child: Policy) {
    forall e: Escalation :: !Escalates(parent, child, e)
  }

  ghost predicate PolicyReport(pol: Policy, args: Args, code: Code) {
    code.PolicyViolation? && Violates(pol, args, code.violation) && EarlierPermit(pol, FieldOf(code.violation), args)
  }

  ghost predicate TimeReport(r: DelegationReceipt, c: Case, s: Stage, code: Code) {
    match code
    case InvocationNotYetValid => s.Freshness? && c.inv.iat > Wrap64(c.now + 300)
    case InvocationStale =>
      && s.Freshness? && c.inv.iat <= Wrap64(c.now + 300)
      && c.settings.maxInvocationAge > 0 && Wrap64(c.now - c.inv.iat) > c.settings.maxInvocationAge
    case NotYetValid => s.Windows? && c.now < r.nbf
    case Expired => s.Windows? && r.nbf <= c.now && r.exp.Some? && r.exp.value < c.now
    case RevocationCheckFailed =>
      && s.RemoteRevocation? && r.statusListIndex.Some? && c.w.remoteRevocation.Some?
      && c.w.remoteRevocation.value(r.statusListIndex.value) == Unavailable
    case IsRevoked =>
      && r.statusListIndex.Some?
      && (|| (s.RemoteRevocation? && c.w.remoteRevocation.Some?
              && c.w.remoteRevocation.value(r.statusListIndex.value) == Revoked)
          || (s.LocalRevocation? && c.w.localRevocation.Some? && r.statusListIndex.value in c.w.localRevocation.value))
    case _ => false
  }

  /** This code is the right one at this step of this stage. */
  ghost predicate Reports(c: Case, s: Stage, i: nat, code: Code)
    requires c.WellFormed() && Lower(s) <= i < Upper(c, s)
  {
    if AboutKinds(s) then KindReport(c.receipts[i], c.inv, s, code)
    else if AboutLinks(s) then LinkReport(c, s, i, code)
    else if AboutKeys(s) then KeyReport(c, s, i, code)
    else if AboutCommands(s) then CommandReport(c, s, i, code)
    else if s.Hops? then HopReport(c.receipts[i - 1], c.receipts[i], code)
    else if s.PolicyLoop? then PolicyReport(c.receipts[i].policy, c.inv.args, code)
    else TimeReport(c.receipts[i], c, s, code)
  }

  // ---- stage by stage ----

  lemma HopReports(parent: DelegationReceipt, child: DelegationReceipt, code: Code)
    ensures HopFault(parent, child) == Some(code) <==> HopReport(parent, child, code)
  {
    if code.PolicyEscalation? {
      AttenuationExactly(parent.policy, child.policy, code.escalation);
    }
    NoEscalation(parent.policy, child.policy);
  }

  lemma NoEscalation(parent: Policy, child: Policy)
    ensures CheckAttenuation(parent, child).None? <==> NoneEscalates(parent, child)
  {
    if CheckAttenuation(parent, child).Some? {
      AttenuationExactly(parent, child, CheckAttenuation(parent, child).value);
    } else {
      forall e: Escalation ensures !Escalates(parent, child, e) {
        EscalationFieldExactly(parent, child, e.field, e);
        AllFieldsKeep(parent, child, e.field);
      }
    }
  }

  lemma AllFieldsKeep(parent: Policy, child: Policy, field: Field)
    requires CheckAttenuation(parent, child).None?
    ensures EscalationOf(parent, child, field).None?
  {
  }

  lemma PolicyReports(pol: Policy, args: Args, code: Code)
    ensures PolicyFault(pol, args) == Some(code) <==> PolicyReport(pol, args, code)
  {
    if code.PolicyViolation? {
      EvaluationExactly(pol, args, code.violation);
    }
  }

  lemma {:induction false} FirstFailingAt(w: World, dids: seq<string>) returns (k: nat)
    requires FirstFailing(w, dids).Some?
    ensures k < |dids| && w.resolve(dids[k]) == Err(FirstFailing(w, dids).value)
    ensures forall j | 0 <= j < k :: w.resolve(dids[j]).Ok?
  {
    if w.resolve(dids[0]).Err? {
      k := 0;
    } else {
      k := FirstFailingAt(w, dids[1..]);
      k := k + 1;
    }
  }

  lemma ResolutionReports(c: Case, code: Code)
    ensures ResolutionFault(c) == Some(code) <==>
            || (code.UnresolvableDid? && FirstFailureIs(c, Recognised))
            || (code.InvalidSignature? && FirstFailureIs(c, Unrecognised))
  {
    var dids := IssuerDids(c);
    var order := Among(c.w.arrival(dids), dids) + dids;
    if FirstFailing(c.w, order).Some? {
      var k := FirstFailingAt(c.w, order);
      var fault := FirstFailing(c.w, order).value;
      assert FirstFailureIs(c, fault);
      forall f | FirstFailureIs(c, f) ensures f == fault {
        var n :| 0 <= n < |order| && c.w.resolve(order[n]) == Err(f) && forall j | 0 <= j < n :: c.w.resolve(order[j]).Ok?;
        assert n == k;
      }
    } else {
      forall f ensures !FirstFailureIs(c, f) {
        assert forall n | 0 <= n < |order| :: order[n] in order && Resolves(c.w, order[n]);
      }
    }
  }

  lemma KindReports(c: Case, s: Stage, i: nat, code: Code)
    requires c.WellFormed() && Lower(s) <= i < Upper(c, s) && AboutKinds(s)
    ensures Fault(c, s, i) == Some(code) <==> KindReport(c.receipts[i], c.inv, s, code)
  {
  }

  lemma KindStage(c: Case, s: Stage, i: nat, code: Code)
    requires c.WellFormed() && Lower(s) <= i < Upper(c, s) && AboutKinds(s)
    ensures Fault(c, s, i) == Some(code) <==> Reports(c, s, i, code)
  {
    KindReports(c, s, i, code);
  }

  lemma LinkReports(c: Case, s: Stage, i: nat, code: Code)
    requires c.WellFormed() && Lower(s) <= i < Upper(c, s) && AboutLinks(s)
    ensures Fault(c, s, i) == Some(code) <==> LinkReport(c, s, i, code)
  {
  }

  lemma LinkStage(c: Case, s: Stage, i: nat, code: Code)
    requires c.WellFormed() && Lower(s) <= i < Upper(c, s) && AboutLinks(s)
    ensures Fault(c, s, i) == Some(code) <==> Reports(c, s, i, code)
  {
    LinkReports(c, s, i, code);
  }

  lemma KeyFaultReports(w: World, jwt: string, iss: string, invoking: bool, code: Code)
    ensures KeyFault(w, jwt, iss, invoking) == Some(code) <==>
            || (code.UnresolvableDid? && w.resolve(iss).Err?)
            || (code.SignatureMalleability? && SignatureSays(w, jwt, iss, NonCanonical))
            || (code == (if invoking then InvalidInvocationSignature else InvalidSignature)
                && SignatureSays(w, jwt, iss, BadSignature))
  {
  }

  lemma KeyReports(c: Case, s: Stage, i: nat, code: Code)
    requires c.WellFormed() && Lower(s) <= i < Upper(c, s) && AboutKeys(s)
    ensures Fault(c, s, i) == Some(code) <==> KeyReport(c, s, i, code)
  {
    if s.Resolution? {
      ResolutionReports(c, code);
    } else if s.Signatures? {
      KeyFaultReports(c.w, c.bundle.receipts[i], c.receipts[i].iss, false, code);
    } else {
      KeyFaultReports(c.w, c.bundle.invocation, c.inv.iss, true, code);
    }
  }

  lemma KeyStage(c: Case, s: Stage, i: nat, code: Code)
    requires c.WellFormed() && Lower(s) <= i < Upper(c, s) && AboutKeys(s)
    ensures Fault(c, s, i) == Some(code) <==> Reports(c, s, i, code)
  {
    KeyReports(c, s, i, code);
  }

  lemma CommandReports(c: Case, s: Stage, i: nat, code: Code)
    requires c.WellFormed() && Lower(s) <= i < Upper(c, s) && AboutCommands(s)
    ensures Fault(c, s, i) == Some(code) <==> CommandReport(c, s, i, code)
  {
    if s.Commands? {
      SubpathIsSegmentPrefix(c.receipts[i - 1].cmd, c.receipts[i].cmd);
    } else if s.LeafCommand? {
      SubpathIsSegmentPrefix(c.Leaf().cmd, c.inv.cmd);
    }
  }

  lemma CommandStage(c: Case, s: Stage, i: nat, code: Code)
    requires c.WellFormed() && Lower(s) <= i < Upper(c, s) && AboutCommands(s)
    ensures Fault(c, s, i) == Some(code) <==> Reports(c, s, i, code)
  {
    CommandReports(c, s, i, code);
  }

  lemma TimeReports(c: Case, s: Stage, i: nat, code: Code)
    requires c.WellFormed() && Lower(s) <= i < Upper(c, s)
    requires s.Freshness? || s.Windows? || s.RemoteRevocation? || s.LocalRevocation?
    ensures Fault(c, s, i) == Some(code) <==> TimeReport(c.receipts[i], c, s, code)
  {
  }

  lemma TimeStage(c: Case, s: Stage, i: nat, code: Code)
    requires c.WellFormed() && Lower(s) <= i < Upper(c, s)
    requires s.Freshness? || s.Windows? || s.RemoteRevocation? || s.LocalRevocation?
    ensures Fault(c, s, i) == Some(code) <==> Reports(c, s, i, code)
  {
    TimeReports(c, s, i, code);
  }

  lemma HopStage(c: Case, i: nat, code: Code)
    requires c.WellFormed() && 1 <= i < |c.receipts|
    ensures Fault(c, Hops, i) == Some(code) <==> Reports(c, Hops, i, code)
  {
    HopReports(c.receipts[i - 1], c.receipts[i], code);
  }

  lemma PolicyStage(c: Case, i: nat, code: Code)
    requires c.WellFormed() && i < |c.receipts|
    ensures Fault(c, PolicyLoop, i) == Some(code) <==> Reports(c, PolicyLoop, i, code)
  {
    PolicyReports(c.receipts[i].policy, c.inv.args, code);
  }

  /** Each step of each stage finds exactly the fault that its code stands for. */
  lemma FaultExactly(c: Case, s: Stage, i: nat, code: Code)
    requires c.WellFormed() && Lower(s) <= i < Upper(c, s)
    ensures Fault(c, s, i) == Some(code) <==> Reports(c, s, i, code)
  {
    if AboutKinds(s) {
      KindStage(c, s, i, code);
    } else if AboutLinks(s) {
      LinkStage(c, s, i, code);
    } else if AboutKeys(s) {
      KeyStage(c, s, i, code);
    } else if AboutCommands(s) {
      CommandStage(c, s, i, code);
    } else if s.Hops? {
      HopStage(c, i, code);
    } else if s.PolicyLoop? {
      PolicyStage(c, i, code);
    } else {
      TimeStage(c, s, i, code);
    }
  }

  // ---- which answer is given ----

  /** The line of chain.go at which a stage begins. */
  function SourceLine(s: Stage): nat {
    match s
    case Types => 153
    case InvocationTypes => 165
    case Jtis => 177
    case InvocationJti => 184
    case Root => 191
    case Links => 210
    case Issuers => 225
    case Invoker => 235
    case References => 242
    case Resolution => 269
    case Signatures => 277
    case InvocationSignature => 285
    case RootCommand => 305
    case Commands => 310
    case LeafCommand => 319
    case Subjects => 327
    case InvocationSubject => 336
    case ToolServer => 347
    case Hops => 360
    case PolicyLoop => 393
    case Freshness => 409
    case Windows => 423
    case RemoteRevocation => 442
    case LocalRevocation => 460
  }

  /** The place of a stage in the list. */
  function Place(s: Stage): nat {
    match s
    case Types => 0
    case InvocationTypes => 1
    case Jtis => 2
    case InvocationJti => 3
    case Root => 4
    case Links => 5
    case Issuers => 6
    case Invoker => 7
    case References => 8
    case Resolution => 9
    case Signatures => 10
    case InvocationSignature => 11
    case RootCommand => 12
    case Commands => 13
    case LeafCommand => 14
    case Subjects => 15
    case InvocationSubject => 16
    case ToolServer => 17
    case Hops => 18
    case PolicyLoop => 19
    case Freshness => 20
    case Windows => 21
    case RemoteRevocation => 22
    case LocalRevocation => 23
  }

  lemma PlaceOfStage(s: Stage)
    ensures Place(s) < |STAGES| && STAGES[Place(s)] == s
  {
  }

  lemma StageAtPlace(k: nat)
    requires k < |STAGES|
    ensures Place(STAGES[k]) == k
  {
  }

  /** The list is in the order of the source. */
  lemma PlacesInSourceOrder(s: Stage, t: Stage)
    ensures SourceLine(s) < SourceLine(t) <==> Place(s) < Place(t)
  {
    AtPlaceAfter(s, t);
    AtPlaceAfter(t, s);
  }

  lemma AtPlaceAfter(s: Stage, t: Stage)
    ensures Place(s) < Place(t) ==> SourceLine(s) < SourceLine(t)
    ensures Place(s) == Place(t) ==> s == t
  {
    LineBounds(s);
    LineBounds(t);
    if Place(s) < Place(t) {
      LinesGrow(Place(s), Place(t));
    } else if Place(s) == Place(t) {
      PlaceOfStage(s);
      PlaceOfStage(t);
    }
  }

  const LINES: seq<nat> := [
    153, 165, 177, 184, 191, 210, 225, 235, 242, 269, 277, 285,
    305, 310, 319, 327, 336, 347, 360, 393, 409, 423, 442, 460]

  lemma LineBounds(s: Stage)
    ensures Place(s) < |LINES| && LINES[Place(s)] == SourceLine(s)
  {
  }

  lemma {:induction false} LinesGrow(i: nat, j: nat)
    requires i < j < |LINES|
    ensures LINES[i] < LINES[j]
  {
    if i + 1 < j {
      LinesGrow(i, j - 1);
    }
    assert LINES[j - 1] < LINES[j];
  }

  /** No step of the stage has anything to report, up to a place. */
  ghost predicate NothingBefore(c: Case, s: Stage, end: nat)
    requires c.WellFormed()
  {
    forall j, code | Lower(s) <= j < end && j < Upper(c, s) :: !Reports(c, s, j, code)
  }

  lemma NothingExactly(c: Case, s: Stage, end: nat)
    requires c.WellFormed()
    ensures NothingBefore(c, s, end) <==> forall j | Lower(s) <= j < end && j < Upper(c, s) :: Fault(c, s, j).None?
  {
    forall j, code | Lower(s) <= j < end && j < Upper(c, s) ensures Fault(c, s, j) == Some(code) <==> Reports(c, s, j, code) {
      FaultExactly(c, s, j, code);
    }
    if NothingBefore(c, s, end) {
      forall j | Lower(s) <= j < end && j < Upper(c, s) ensures Fault(c, s, j).None? {
        if Fault(c, s, j).Some? {
          FaultExactly(c, s, j, Fault(c, s, j).value);
        }
      }
    }
  }

  /** The answer for a decoded bundle: a code, at a step of a stage, is reported exactly
      when it is the right one there, no earlier step of the stage has anything to
      report, and no stage that the source runs before has. */
  lemma AnswerExactly(c: Case, code: Code, s: Stage, i: nat)
    requires c.WellFormed() && Lower(s) <= i < Upper(c, s)
    ensures IsFirstFault(c, code, s, i) <==>
            Reports(c, s, i, code) && NothingBefore(c, s, i) && NothingEarlier(c, s)
  {
    FirstInStageExactly(c, code, s, i);
    EarlierStages(c, s);
    EarlierClear(c, s);
  }

  /** No stage that the source runs before this one has anything to report. */
  ghost predicate NothingEarlier(c: Case, s: Stage)
    requires c.WellFormed()
  {
    forall t | SourceLine(t) < SourceLine(s) :: NothingBefore(c, t, Upper(c, t))
  }

  lemma FirstInStageExactly(c: Case, code: Code, s: Stage, i: nat)
    requires c.WellFormed() && Lower(s) <= i < Upper(c, s)
    ensures FirstInStage(c, code, s, i) <==> Reports(c, s, i, code) && NothingBefore(c, s, i)
  {
    FaultExactly(c, s, i, code);
    NothingExactly(c, s, i);
  }

  ghost predicate AllClearBefore(c: Case, s: Stage)
    requires c.WellFormed()
  {
    forall t | SourceLine(t) < SourceLine(s) :: Clear(c, t)
  }

  lemma EarlierClear(c: Case, s: Stage)
    requires c.WellFormed()
    ensures AllClearBefore(c, s) <==> NothingEarlier(c, s)
  {
    forall t ensures NothingBefore(c, t, Upper(c, t)) <==> Clear(c, t) {
      NothingExactly(c, t, Upper(c, t));
    }
  }

  lemma EarlierStages(c: Case, s: Stage)
    requires c.WellFormed()
    ensures ClearUpTo(c, s) <==> AllClearBefore(c, s)
  {
    forall t: Stage ensures Place(t) < |STAGES| && STAGES[Place(t)] == t {
      PlaceOfStage(t);
    }
    forall k | 0 <= k < |STAGES| ensures Place(STAGES[k]) == k {
      StageAtPlace(k);
    }
    InOrder(STAGES, (t: Stage) => Clear(c, t), s);
    forall t: Stage ensures SourceLine(t) < SourceLine(s) <==> Place(t) < Place(s) {
      PlacesInSourceOrder(t, s);
    }
  }

  lemma InOrder(stages: seq<Stage>, clear: Stage -> bool, s: Stage)
    requires forall t: Stage :: Place(t) < |stages| && stages[Place(t)] == t
    requires forall k | 0 <= k < |stages| :: Place(stages[k]) == k
    ensures (exists k :: 0 <= k < |stages| && stages[k] == s && forall j | 0 <= j < k :: clear(stages[j])) <==>
            forall t | Place(t) < Place(s) :: clear(t)
  {
    if forall t | Place(t) < Place(s) :: clear(t) {
      var k := Place(s);
      assert stages[k] == s && forall j | 0 <= j < k :: clear(stages[j]);
    }
  }
}
