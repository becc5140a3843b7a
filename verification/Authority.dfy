/**
 What the verifier decides, said without its stages: when a bundle carries
 authority from its root to its invocation. The definition speaks of segments,
 whole-chain narrowing and the leaf, where the verifier compares strings hop by hop
 and loops over every receipt.
 */
module Authority {
  import opened Wrappers
  import opened Policies
  import opened Receipts
  import opened Command
  import opened Segments
  import opened Chain
  import opened ChainSafety

  predicate Signed(w: World, jwt: string, iss: string) {
    w.resolve(iss).Ok? && w.signature(jwt, w.resolve(iss).value).None?
  }

  /** Right kind, right version, right identifier prefix, throughout. */
  ghost predicate WellTyped(c: Case)
    requires c.WellFormed()
  {
    && (forall i | 0 <= i < |c.receipts| ::
          c.receipts[i].drsType == DR_TYPE && c.receipts[i].drsV == DRS_VERSION && "dr:" <= c.receipts[i].jti)
    && c.inv.drsType == INV_TYPE && c.inv.drsV == DRS_VERSION && "inv:" <= c.inv.jti
  }

  /** A human root has consented in full; the root command is absolute. */
  ghost predicate Rooted(c: Case)
    requires c.WellFormed()
  {
    var root := c.receipts[0];
    && (root.rootType == Some("human") ==> root.consent.Some? && Consents(c.p, root.consent.value))
    && "/" <= root.cmd
  }

  /** Method, time, session and policy hash are all there. */
  predicate Consents(p: Platform, consent: ConsentRecord) {
    && !p.blank(consent.consentMethod) && !p.blank(consent.timestamp)
    && !p.blank(consent.sessionId) && !p.blank(consent.policyHash)
  }

  /** Who acted: every receipt is hash-linked to its parent, issued by the parent's
      audience and signed by its issuer; the invocation likewise. */
  ghost predicate Custody(c: Case)
    requires c.WellFormed()
  {
    && Linked(c.p, c.bundle.receipts) && ChainSafety.References(c.p, c.inv, c.bundle.receipts)
    && (forall i | 1 <= i < |c.receipts| :: c.receipts[i].iss == c.receipts[i - 1].aud)
    && c.inv.iss == c.Leaf().aud
    && (forall i | 0 <= i < |c.receipts| :: Signed(c.w, c.bundle.receipts[i], c.receipts[i].iss))
    && Signed(c.w, c.bundle.invocation, c.inv.iss)
  }

  /** What was passed on: for every two receipts the later one is narrower, and only
      neighbours must not turn a boolean on. */
  ghost predicate Narrowing(c: Case)
    requires c.WellFormed()
  {
    && (forall i, j | 0 <= i <= j < |c.receipts| ::
          && Split(c.receipts[i].cmd, '/') <= Split(c.receipts[j].cmd, '/')
          && Narrows(c.receipts[i].policy, c.receipts[j].policy)
          && WindowWithin(c.receipts[i], c.receipts[j]))
    && (forall i | 1 <= i < |c.receipts| :: !RelaxesFlag(c.receipts[i - 1].policy, c.receipts[i].policy))
    && forall i | 0 <= i < |c.receipts| :: c.receipts[i].sub == c.inv.sub
  }

  /** What is asked for: within the leaf, and within the booleans of all. */
  ghost predicate WithinGrant(c: Case)
    requires c.WellFormed()
  {
    && Split(c.Leaf().cmd, '/') <= Split(c.inv.cmd, '/')
    && c.inv.toolServer == c.settings.serverIdentity
    && Permits(c.Leaf().policy, c.inv.args)
    && (forall i | 0 <= i < |c.receipts| ::
          FieldPermits(c.receipts[i].policy, Pii, c.inv.args) && FieldPermits(c.receipts[i].policy, Write, c.inv.args))
    && c.Leaf().nbf <= c.now
    && (c.Leaf().exp.Some? ==> c.now <= c.Leaf().exp.value)
    && Recent(c.inv.iat, c.now, c.settings.maxInvocationAge)
  }

  /** Issued at most 300 seconds ahead of the clock and, where an age limit is set, not
      longer ago than it allows. */
  predicate Recent(iat: Int64, now: Int64, maxAge: nat) {
    iat <= Wrap64(now + 300) && (maxAge > 0 ==> Wrap64(now - iat) <= maxAge)
  }

  /** A receipt with a status index is on no configured revocation list, and the
      remote list has answered. */
  predicate Standing(w: World, index: Option<nat>) {
    index.Some? ==>
      && (w.remoteRevocation.Some? ==> w.remoteRevocation.value(index.value) == NotRevoked)
      && (w.localRevocation.Some? ==> index.value !in w.localRevocation.value)
  }

  ghost predicate Authorised(c: Case)
    requires c.WellFormed()
  {
    && WellTyped(c) && Rooted(c) && Custody(c) && Narrowing(c) && WithinGrant(c)
    && forall i | 0 <= i < |c.receipts| :: Standing(c.w, c.receipts[i].statusListIndex)
  }

  // ---- stage by stage ----

  lemma TypeStages(c: Case)
    requires c.WellFormed()
    ensures Clear(c, Types) && Clear(c, InvocationTypes) && Clear(c, Jtis) && Clear(c, InvocationJti) <==> WellTyped(c)
  {
    if Clear(c, Types) && Clear(c, InvocationTypes) && Clear(c, Jtis) && Clear(c, InvocationJti) {
      assert Fault(c, InvocationTypes, 0).None? && Fault(c, InvocationJti, 0).None?;
      forall i | 0 <= i < |c.receipts|
        ensures c.receipts[i].drsType == DR_TYPE && c.receipts[i].drsV == DRS_VERSION && "dr:" <= c.receipts[i].jti
      {
        assert Fault(c, Types, i).None? && Fault(c, Jtis, i).None?;
      }
    }
  }

  lemma LinkStages(c: Case)
    requires c.WellFormed()
    ensures Clear(c, Root) && Clear(c, Links) && Clear(c, RootCommand) <==> Rooted(c) && Linked(c.p, c.bundle.receipts)
  {
    if Clear(c, Root) && Clear(c, Links) && Clear(c, RootCommand) {
      BlockBLinks(c);
      assert Fault(c, Root, 0).None? && Fault(c, RootCommand, 0).None?;
    }
    if Rooted(c) && Linked(c.p, c.bundle.receipts) {
      forall i | 1 <= i < |c.receipts| ensures Fault(c, Links, i).None? {
        assert NamesParent(c.p, c.bundle.receipts, i);
      }
    }
  }

  ghost predicate Handed(c: Case)
    requires c.WellFormed()
  {
    && (forall i | 1 <= i < |c.receipts| :: c.receipts[i].iss == c.receipts[i - 1].aud)
    && c.inv.iss == c.Leaf().aud
  }

  lemma IssuerStages(c: Case)
    requires c.WellFormed()
    ensures Clear(c, Issuers) && Clear(c, Invoker) <==> Handed(c)
  {
    if Clear(c, Issuers) && Clear(c, Invoker) {
      assert Fault(c, Invoker, 0).None?;
      forall i | 1 <= i < |c.receipts| ensures c.receipts[i].iss == c.receipts[i - 1].aud {
        assert Fault(c, Issuers, i).None?;
      }
    }
  }

  ghost predicate AllSigned(c: Case)
    requires c.WellFormed()
  {
    && (forall i | 0 <= i < |c.receipts| :: Signed(c.w, c.bundle.receipts[i], c.receipts[i].iss))
    && Signed(c.w, c.bundle.invocation, c.inv.iss)
  }

  lemma SignatureStages(c: Case)
    requires c.WellFormed()
    ensures Clear(c, Resolution) && Clear(c, Signatures) && Clear(c, InvocationSignature) <==> AllSigned(c)
  {
    if Clear(c, Signatures) && Clear(c, InvocationSignature) {
      assert Fault(c, InvocationSignature, 0).None?;
      forall i | 0 <= i < |c.receipts| ensures Signed(c.w, c.bundle.receipts[i], c.receipts[i].iss) {
        assert Fault(c, Signatures, i).None?;
      }
    }
    if AllSigned(c) {
      forall i | 0 <= i < |c.receipts| ensures Resolves(c.w, c.receipts[i].iss) && Fault(c, Signatures, i).None? {
        assert Signed(c.w, c.bundle.receipts[i], c.receipts[i].iss);
      }
    }
  }

  lemma CustodyStages(c: Case)
    requires c.WellFormed()
    ensures && Clear(c, Issuers) && Clear(c, Invoker) && Clear(c, Stage.References)
            && Clear(c, Resolution) && Clear(c, Signatures) && Clear(c, InvocationSignature)
            && Linked(c.p, c.bundle.receipts)
            <==> Custody(c)
  {
    IssuerStages(c);
    SignatureStages(c);
    BlockBReferences(c);
  }

  lemma NarrowingStages(c: Case)
    requires c.WellFormed()
    ensures Clear(c, Commands) && Clear(c, Hops) && Clear(c, Subjects) && Clear(c, InvocationSubject) <==> Narrowing(c)
  {
    if Clear(c, Commands) && Clear(c, Hops) && Clear(c, Subjects) && Clear(c, InvocationSubject) {
      HopsGiveNarrowing(c);
    }
    if Narrowing(c) {
      NarrowingGivesHops(c);
    }
  }

  lemma HopsGiveNarrowing(c: Case)
    requires c.WellFormed()
    requires Clear(c, Commands) && Clear(c, Hops) && Clear(c, Subjects) && Clear(c, InvocationSubject)
    ensures Narrowing(c)
  {
    forall i, j | 0 <= i <= j < |c.receipts|
      ensures Split(c.receipts[i].cmd, '/') <= Split(c.receipts[j].cmd, '/')
      ensures Narrows(c.receipts[i].policy, c.receipts[j].policy) && WindowWithin(c.receipts[i], c.receipts[j])
    {
      PairNarrows(c, i, j);
    }
    forall i | 1 <= i < |c.receipts| ensures !RelaxesFlag(c.receipts[i - 1].policy, c.receipts[i].policy) {
      HopRelaxesNothing(c, i);
    }
    forall i | 0 <= i < |c.receipts| ensures c.receipts[i].sub == c.inv.sub {
      SameSubject(c, i);
    }
  }

  lemma HopRelaxesNothing(c: Case, i: nat)
    requires c.WellFormed() && Clear(c, Hops) && 1 <= i < |c.receipts|
    ensures !RelaxesFlag(c.receipts[i - 1].policy, c.receipts[i].policy)
  {
    assert Fault(c, Hops, i).None?;
    AttenuationMeaning(c.receipts[i - 1].policy, c.receipts[i].policy);
  }

  lemma SameSubject(c: Case, i: nat)
    requires c.WellFormed() && Clear(c, Subjects) && Clear(c, InvocationSubject) && i < |c.receipts|
    ensures c.receipts[i].sub == c.inv.sub
  {
    assert Fault(c, InvocationSubject, 0).None?;
    assert i > 0 ==> Fault(c, Subjects, i).None?;
  }

  lemma PairNarrows(c: Case, i: nat, j: nat)
    requires c.WellFormed() && Clear(c, Commands) && Clear(c, Hops) && i <= j < |c.receipts|
    ensures Split(c.receipts[i].cmd, '/') <= Split(c.receipts[j].cmd, '/')
    ensures Narrows(c.receipts[i].policy, c.receipts[j].policy) && WindowWithin(c.receipts[i], c.receipts[j])
  {
    HopsAttenuate(c);
    CommandsNarrow(c, i, j);
    SubpathIsSegmentPrefix(c.receipts[i].cmd, c.receipts[j].cmd);
    ChainNarrows(PolicyChain(c), i, j);
    WindowsNest(c, i, j);
  }

  lemma NarrowingGivesHops(c: Case)
    requires c.WellFormed() && Narrowing(c)
    ensures Clear(c, Commands) && Clear(c, Hops) && Clear(c, Subjects) && Clear(c, InvocationSubject)
  {
    OneStep(c, InvocationSubject);
    forall i | 1 <= i < |c.receipts|
      ensures Fault(c, Commands, i).None? && Fault(c, Hops, i).None? && Fault(c, Subjects, i).None?
    {
      NarrowStep(c, i);
    }
  }

  lemma NarrowStep(c: Case, i: nat)
    requires c.WellFormed() && Narrowing(c) && 1 <= i < |c.receipts|
    ensures Fault(c, Commands, i).None? && Fault(c, Hops, i).None? && Fault(c, Subjects, i).None?
  {
    NarrowHop(c.receipts[i - 1], c.receipts[i]);
  }

  lemma NarrowHop(parent: DelegationReceipt, child: DelegationReceipt)
    requires Split(parent.cmd, '/') <= Split(child.cmd, '/')
    requires Narrows(parent.policy, child.policy) && !RelaxesFlag(parent.policy, child.policy)
    requires WindowWithin(parent, child)
    ensures CmdIsSubpath(parent.cmd, child.cmd) && HopFault(parent, child).None?
  {
    SubpathIsSegmentPrefix(parent.cmd, child.cmd);
    AttenuationMeaning(parent.policy, child.policy);
  }

  lemma OneStep(c: Case, s: Stage)
    requires c.WellFormed() && Lower(s) == 0 && Upper(c, s) == 1
    ensures Clear(c, s) <==> Fault(c, s, 0).None?
  {
  }

  /** What the three single checks of the invocation against the leaf mean. */
  lemma LeafStages(c: Case)
    requires c.WellFormed()
    ensures Clear(c, LeafCommand) <==> Split(c.Leaf().cmd, '/') <= Split(c.inv.cmd, '/')
    ensures Clear(c, ToolServer) <==> c.inv.toolServer == c.settings.serverIdentity
    ensures Clear(c, Freshness) <==> Recent(c.inv.iat, c.now, c.settings.maxInvocationAge)
  {
    OneStep(c, LeafCommand);
    OneStep(c, ToolServer);
    OneStep(c, Freshness);
    SubpathIsSegmentPrefix(c.Leaf().cmd, c.inv.cmd);
  }

  lemma GrantStages(c: Case)
    requires c.WellFormed() && Clear(c, Hops)
    ensures Clear(c, LeafCommand) && Clear(c, ToolServer) && Clear(c, PolicyLoop) && Clear(c, Freshness) && Clear(c, Windows)
            <==> WithinGrant(c)
  {
    LeafDecides(c);
    LeafStages(c);
    EvaluationMeaning(c.Leaf().policy, c.inv.args);
  }

  lemma RevocationStages(c: Case)
    requires c.WellFormed()
    ensures Clear(c, RemoteRevocation) && Clear(c, LocalRevocation) <==>
            forall i | 0 <= i < |c.receipts| :: Standing(c.w, c.receipts[i].statusListIndex)
  {
    if Clear(c, RemoteRevocation) && Clear(c, LocalRevocation) {
      forall i | 0 <= i < |c.receipts| ensures Standing(c.w, c.receipts[i].statusListIndex) {
        assert Fault(c, RemoteRevocation, i).None? && Fault(c, LocalRevocation, i).None?;
      }
    }
    if forall i | 0 <= i < |c.receipts| :: Standing(c.w, c.receipts[i].statusListIndex) {
      forall i | 0 <= i < |c.receipts| ensures Fault(c, RemoteRevocation, i).None? && Fault(c, LocalRevocation, i).None? {
        assert Standing(c.w, c.receipts[i].statusListIndex);
      }
    }
  }

  // ---- all of it ----

  /** The verifier accepts a bundle exactly when it has one to sixteen receipts, all
      of it decodes, and the whole is authorised. */
  lemma AcceptsExactlyAuthorised(p: Platform, w: World, settings: Settings, b: Bundle, now: Int64)
    ensures Accepts(p, w, settings, b, now) <==>
            && 0 < |b.receipts| <= MAX_CHAIN_DEPTH && b.invocation != ""
            && Chain.Decoded(p, w, settings, b, now).Some?
            && Authorised(Chain.Decoded(p, w, settings, b, now).value)
  {
    var decoded := Chain.Decoded(p, w, settings, b, now);
    if 0 < |b.receipts| <= MAX_CHAIN_DEPTH && b.invocation != "" && decoded.Some? {
      ClearIsAuthorised(decoded.value);
    }
  }

  lemma ClearIsAuthorised(c: Case)
    requires c.WellFormed()
    ensures AllClear(c) <==> Authorised(c)
  {
    if AllClear(c) {
      ClearGivesAuthorised(c);
    }
    if Authorised(c) {
      AuthorisedGivesClear(c);
    }
  }

  lemma ClearGivesAuthorised(c: Case)
    requires c.WellFormed() && AllClear(c)
    ensures Authorised(c)
  {
    ClearEverywhere(c);
    TypeStages(c);
    LinkStages(c);
    CustodyStages(c);
    NarrowingStages(c);
    GrantStages(c);
    RevocationStages(c);
  }

  lemma AuthorisedGivesClear(c: Case)
    requires c.WellFormed() && Authorised(c)
    ensures AllClear(c)
  {
    TypeStages(c);
    LinkStages(c);
    CustodyStages(c);
    NarrowingStages(c);
    GrantStages(c);
    RevocationStages(c);
    forall s ensures Clear(c, s) {
    }
    ClearEverywhere(c);
  }
}
