/**
 What acceptance of a whole chain means. Every check of the verifier looks at one
 hop; the lemmas here are about chains of any length.
 */
module ChainSafety {
  import opened Wrappers
  import opened Policies
  import opened Receipts
  import opened Command
  import opened Segments
  import opened Chain

  lemma EveryStage(s: Stage)
    ensures exists k :: 0 <= k < |STAGES| && STAGES[k] == s
  {
    match s
    case Types => assert STAGES[0] == s;
    case InvocationTypes => assert STAGES[1] == s;
    case Jtis => assert STAGES[2] == s;
    case InvocationJti => assert STAGES[3] == s;
    case Root => assert STAGES[4] == s;
    case Links => assert STAGES[5] == s;
    case Issuers => assert STAGES[6] == s;
    case Invoker => assert STAGES[7] == s;
    case References => assert STAGES[8] == s;
    case Resolution => assert STAGES[9] == s;
    case Signatures => assert STAGES[10] == s;
    case InvocationSignature => assert STAGES[11] == s;
    case RootCommand => assert STAGES[12] == s;
    case Commands => assert STAGES[13] == s;
    case LeafCommand => assert STAGES[14] == s;
    case Subjects => assert STAGES[15] == s;
    case InvocationSubject => assert STAGES[16] == s;
    case ToolServer => assert STAGES[17] == s;
    case Hops => assert STAGES[18] == s;
    case PolicyLoop => assert STAGES[19] == s;
    case Freshness => assert STAGES[20] == s;
    case Windows => assert STAGES[21] == s;
    case RemoteRevocation => assert STAGES[22] == s;
    case LocalRevocation => assert STAGES[23] == s;
  }

  lemma StageClear(c: Case, s: Stage)
    requires c.WellFormed() && AllClear(c)
    ensures Clear(c, s)
  {
    EveryStage(s);
  }

  /** Nothing is left out of the stage list. */
  lemma ClearEverywhere(c: Case)
    requires c.WellFormed()
    ensures AllClear(c) <==> forall s :: Clear(c, s)
  {
    if AllClear(c) {
      forall s ensures Clear(c, s) {
        StageClear(c, s);
      }
    }
  }

  // ---- hash linkage ----

  /** The linkage part of Block B, on the receipt texts alone: the root names no
      parent, every other receipt names the hash of the one before it. */
  ghost predicate Linked(p: Platform, jwts: seq<string>) {
    && |jwts| > 0
    && (forall i | 0 <= i < |jwts| :: p.decodeReceipt(jwts[i]).Some?)
    && p.decodeReceipt(jwts[0]).value.prevDrHash.None?
    && forall i | 1 <= i < |jwts| :: NamesParent(p, jwts, i)
  }

  ghost predicate NamesParent(p: Platform, jwts: seq<string>, i: nat)
    requires 1 <= i < |jwts| && p.decodeReceipt(jwts[i]).Some?
  {
    p.decodeReceipt(jwts[i]).value.prevDrHash == Some(p.hash(jwts[i - 1]))
  }

  ghost function Texts(jwts: seq<string>): set<string> {
    set i | 0 <= i < |jwts| :: jwts[i]
  }

  lemma BlockBLinks(c: Case)
    requires c.WellFormed() && Clear(c, Root) && Clear(c, Links)
    ensures Linked(c.p, c.bundle.receipts)
  {
    assert Fault(c, Root, 0).None?;
    forall i | 1 <= i < |c.receipts|
      ensures NamesParent(c.p, c.bundle.receipts, i)
    {
      assert Fault(c, Links, i).None?;
    }
  }

  /** Two linked receipt lists that end in the same receipt are the same list:
      nothing can be spliced in, left out or swapped in front of it. */
  lemma {:induction false} SameLeafSameChain(p: Platform, a: seq<string>, b: seq<string>)
    requires Linked(p, a) && Linked(p, b)
    requires CollisionFree(p.hash, Texts(a) + Texts(b))
    requires a[|a| - 1] == b[|b| - 1]
    ensures a == b
  {
    var m, n := |a| - 1, |b| - 1;
    assert a == a[..m] + [a[m]] && b == b[..n] + [b[n]];
    assert m > 0 ==> NamesParent(p, a, m);
    assert n > 0 ==> NamesParent(p, b, n);
    if m > 0 {
      assert a[m - 1] in Texts(a) && b[n - 1] in Texts(b);
      PrefixIsLinked(p, a, m);
      PrefixIsLinked(p, b, n);
      SameLeafSameChain(p, a[..m], b[..n]);
    }
  }

  lemma PrefixIsLinked(p: Platform, a: seq<string>, m: nat)
    requires Linked(p, a) && 0 < m <= |a|
    ensures Linked(p, a[..m]) && Texts(a[..m]) <= Texts(a)
  {
    forall i | 1 <= i < m ensures NamesParent(p, a[..m], i) {
      assert NamesParent(p, a, i);
    }
  }

  /** No receipt occurs twice in a linked chain. */
  lemma NoReceiptTwice(p: Platform, a: seq<string>, i: nat, j: nat)
    requires Linked(p, a) && CollisionFree(p.hash, Texts(a))
    requires i < j < |a|
    ensures a[i] != a[j]
  {
    if a[i] == a[j] {
      PrefixIsLinked(p, a, i + 1);
      PrefixIsLinked(p, a, j + 1);
      SameLeafSameChain(p, a[..i + 1], a[..j + 1]);
    }
  }

  /** The references an invocation carries name the receipts one by one. */
  ghost predicate References(p: Platform, inv: InvocationReceipt, jwts: seq<string>) {
    && |inv.drChain| == |jwts|
    && forall i | 0 <= i < |jwts| :: inv.drChain[i] == p.hash(jwts[i])
  }

  lemma BlockBReferences(c: Case)
    requires c.WellFormed()
    ensures Clear(c, Stage.References) <==> References(c.p, c.inv, c.bundle.receipts)
  {
    if Clear(c, Stage.References) {
      assert Fault(c, Stage.References, 0).None?;
      forall i | 0 <= i < |c.receipts| ensures c.inv.drChain[i] == c.p.hash(c.bundle.receipts[i]) {
        assert Fault(c, Stage.References, i).None?;
      }
    }
  }

  /** An invocation goes with at most one receipt list. */
  lemma InvocationPinsChain(p: Platform, inv: InvocationReceipt, a: seq<string>, b: seq<string>)
    requires References(p, inv, a) && References(p, inv, b)
    requires CollisionFree(p.hash, Texts(a) + Texts(b))
    ensures a == b
  {
    forall i | 0 <= i < |a| ensures a[i] == b[i] {
      assert a[i] in Texts(a) && b[i] in Texts(b);
    }
  }

  /** At the level of the verifier: an accepted bundle has no receipt twice, and
      two accepted bundles that agree on the invocation, or only on their last
      receipt, carry the same receipts, whatever the settings and the time. */
  lemma AcceptedChainIsUnique(p: Platform, w1: World, s1: Settings, b1: Bundle, t1: Int64,
                              w2: World, s2: Settings, b2: Bundle, t2: Int64)
    requires Accepts(p, w1, s1, b1, t1) && Accepts(p, w2, s2, b2, t2)
    requires CollisionFree(p.hash, Texts(b1.receipts) + Texts(b2.receipts))
    ensures forall i, j | 0 <= i < j < |b1.receipts| :: b1.receipts[i] != b1.receipts[j]
    ensures b1.invocation == b2.invocation ==> b1.receipts == b2.receipts
    ensures b1.receipts[|b1.receipts| - 1] == b2.receipts[|b2.receipts| - 1] ==> b1.receipts == b2.receipts
  {
    AcceptedFacts(p, w1, s1, b1, t1);
    AcceptedFacts(p, w2, s2, b2, t2);
    LinkedListsArePinned(p, b1.receipts, p.decodeInvocation(b1.invocation).value,
                         b2.receipts, p.decodeInvocation(b2.invocation).value);
  }

  lemma LinkedListsArePinned(p: Platform, a: seq<string>, x: InvocationReceipt, b: seq<string>, y: InvocationReceipt)
    requires Linked(p, a) && References(p, x, a) && Linked(p, b) && References(p, y, b)
    requires CollisionFree(p.hash, Texts(a) + Texts(b))
    ensures forall i, j | 0 <= i < j < |a| :: a[i] != a[j]
    ensures x == y || a[|a| - 1] == b[|b| - 1] ==> a == b
  {
    forall i, j | 0 <= i < j < |a| ensures a[i] != a[j] {
      NoReceiptTwice(p, a, i, j);
    }
    if x == y {
      InvocationPinsChain(p, x, a, b);
    } else if a[|a| - 1] == b[|b| - 1] {
      SameLeafSameChain(p, a, b);
    }
  }

  lemma AcceptedFacts(p: Platform, w: World, settings: Settings, b: Bundle, now: Int64)
    requires Accepts(p, w, settings, b, now)
    ensures Linked(p, b.receipts)
    ensures p.decodeInvocation(b.invocation).Some?
    ensures References(p, p.decodeInvocation(b.invocation).value, b.receipts)
  {
    var c := Chain.Decoded(p, w, settings, b, now).value;
    StageClear(c, Root);
    StageClear(c, Links);
    StageClear(c, Stage.References);
    BlockBLinks(c);
    BlockBReferences(c);
  }

  // ---- command narrowing ----

  /** Hop by hop narrowing puts every command under all earlier ones. */
  lemma {:induction false} CommandsNarrow(c: Case, i: nat, j: nat)
    requires c.WellFormed() && Clear(c, Commands)
    requires i <= j < |c.receipts|
    ensures CmdIsSubpath(c.receipts[i].cmd, c.receipts[j].cmd)
    decreases j - i
  {
    if i < j {
      CommandsNarrow(c, i, j - 1);
      assert Fault(c, Commands, j).None?;
      SubpathIsPartialOrder(c.receipts[i].cmd, c.receipts[j - 1].cmd, c.receipts[j].cmd);
    }
  }

  /** The invoked command lies under the command of every receipt, segment by
      segment. */
  lemma InvokedCommandUnderAll(c: Case, i: nat)
    requires c.WellFormed() && Clear(c, Commands) && Clear(c, LeafCommand)
    requires i < |c.receipts|
    ensures Split(c.receipts[i].cmd, '/') <= Split(c.inv.cmd, '/')
  {
    CommandsNarrow(c, i, |c.receipts| - 1);
    assert Fault(c, LeafCommand, 0).None?;
    SubpathIsPartialOrder(c.receipts[i].cmd, c.Leaf().cmd, c.inv.cmd);
    SubpathIsSegmentPrefix(c.receipts[i].cmd, c.inv.cmd);
  }

  // ---- validity windows ----

  /** One window lies inside another: from no earlier, to no later. */
  predicate WindowWithin(outer: DelegationReceipt, inner: DelegationReceipt) {
    && outer.nbf <= inner.nbf
    && (outer.exp.Some? ==> inner.exp.Some? && inner.exp.value <= outer.exp.value)
  }

  lemma {:induction false} WindowsNest(c: Case, i: nat, j: nat)
    requires c.WellFormed() && Clear(c, Hops)
    requires i <= j < |c.receipts|
    ensures WindowWithin(c.receipts[i], c.receipts[j])
    decreases j - i
  {
    if i < j {
      WindowsNest(c, i, j - 1);
      assert Fault(c, Hops, j).None?;
    }
  }

  /** With the hop checks passed, the window loop over all receipts accepts
      exactly when the leaf's window does. */
  lemma LeafWindowDecides(c: Case)
    requires c.WellFormed() && Clear(c, Hops)
    ensures Clear(c, Windows) <==> WindowFault(c.Leaf(), c.now).None?
  {
    var leaf := |c.receipts| - 1;
    if Clear(c, Windows) {
      assert Fault(c, Windows, leaf).None?;
    }
    if WindowFault(c.Leaf(), c.now).None? {
      forall i | 0 <= i < |c.receipts| ensures Fault(c, Windows, i).None? {
        WindowsNest(c, i, leaf);
      }
    }
  }

  // ---- policies ----

  ghost function PolicyChain(c: Case): seq<Policy> {
    seq(|c.receipts|, i requires 0 <= i < |c.receipts| => c.receipts[i].policy)
  }

  lemma HopsAttenuate(c: Case)
    requires c.WellFormed() && Clear(c, Hops)
    ensures HopsAttenuated(PolicyChain(c))
  {
    forall i | 1 <= i < |c.receipts|
      ensures CheckAttenuation(c.receipts[i - 1].policy, c.receipts[i].policy).None?
    {
      assert Fault(c, Hops, i).None?;
    }
  }

  lemma PolicyLoopIsConjunction(c: Case)
    requires c.WellFormed()
    ensures Clear(c, PolicyLoop) <==> AllPoliciesPass(PolicyChain(c), c.inv.args)
  {
    var chain := PolicyChain(c);
    if Clear(c, PolicyLoop) {
      forall i | 0 <= i < |chain| ensures Evaluate(chain[i], c.inv.args).None? {
        assert Fault(c, PolicyLoop, i).None?;
      }
    }
    if AllPoliciesPass(chain, c.inv.args) {
      forall i | 0 <= i < |c.receipts| ensures Fault(c, PolicyLoop, i).None? {
        assert Evaluate(chain[i], c.inv.args).None?;
      }
    }
  }

  /** With the hop checks passed, Blocks D1 and E together decide as the leaf's
      policy, the leaf's window and the booleans of every receipt. */
  lemma LeafDecides(c: Case)
    requires c.WellFormed() && Clear(c, Hops)
    ensures Clear(c, PolicyLoop) && Clear(c, Windows) <==>
            && Evaluate(c.Leaf().policy, c.inv.args).None?
            && (forall i | 0 <= i < |c.receipts| :: FlagsPass(c.receipts[i].policy, c.inv.args))
            && WindowFault(c.Leaf(), c.now).None?
  {
    var chain := PolicyChain(c);
    HopsAttenuate(c);
    PolicyLoopIsConjunction(c);
    LeafAndFlagsDecide(chain, c.inv.args);
    LeafWindowDecides(c);
    assert (forall i | 0 <= i < |chain| :: FlagsPass(chain[i], c.inv.args)) <==>
           (forall i | 0 <= i < |c.receipts| :: FlagsPass(c.receipts[i].policy, c.inv.args)) by {
      assert forall i | 0 <= i < |chain| :: chain[i] == c.receipts[i].policy;
    }
  }

  // ---- all of it ----

  /** What every accepted bundle guarantees, for each pair of its receipts. */
  lemma AcceptedChainNarrows(p: Platform, w: World, settings: Settings, b: Bundle, now: Int64, i: nat, j: nat)
    requires Accepts(p, w, settings, b, now)
    requires i <= j < |b.receipts|
    ensures var c := Chain.Decoded(p, w, settings, b, now).value;
            && Narrows(c.receipts[i].policy, c.receipts[j].policy)
            && WindowWithin(c.receipts[i], c.receipts[j])
            && Split(c.receipts[i].cmd, '/') <= Split(c.receipts[j].cmd, '/') <= Split(c.inv.cmd, '/')
            && c.receipts[i].sub == c.receipts[j].sub == c.inv.sub
            && Evaluate(c.receipts[i].policy, c.inv.args).None?
            && c.receipts[i].nbf <= now
  {
    var c := Chain.Decoded(p, w, settings, b, now).value;
    StageClear(c, Hops);
    StageClear(c, Commands);
    StageClear(c, LeafCommand);
    HopsAttenuate(c);
    ChainNarrows(PolicyChain(c), i, j);
    WindowsNest(c, i, j);
    CommandsNarrow(c, i, j);
    SubpathIsSegmentPrefix(c.receipts[i].cmd, c.receipts[j].cmd);
    InvokedCommandUnderAll(c, j);
    OneSubject(c, i);
    OneSubject(c, j);
    StageClear(c, PolicyLoop);
    assert Fault(c, PolicyLoop, i).None?;
    StageClear(c, Windows);
    assert Fault(c, Windows, i).None?;
  }

  lemma OneSubject(c: Case, i: nat)
    requires c.WellFormed() && AllClear(c) && i < |c.receipts|
    ensures c.receipts[i].sub == c.inv.sub
  {
    StageClear(c, Subjects);
    StageClear(c, InvocationSubject);
    assert i > 0 ==> Fault(c, Subjects, i).None?;
    assert Fault(c, InvocationSubject, 0).None?;
  }
}
