/**
 Which bundles can bring the verifier down: Block C resolves every issuer before it
 looks at a signature, and one of them may overrun the base58 table.
 */
module BlockC {
  import opened Wrappers
  import opened Receipts
  import opened Chain
  import ParallelResolve
  import Resolver

  /** The checks of Blocks A and B, in front of the resolution of issuers. */
  ghost predicate ReachesResolution(c: Case)
    requires c.WellFormed()
  {
    |c.receipts| <= MAX_CHAIN_DEPTH && c.bundle.invocation != "" && forall k | 0 <= k < 9 :: Clear(c, STAGES[k])
  }

  /** They do not depend on keys, signatures, revocation or the clock. */
  lemma ReachesWithoutSignatures(c: Case, w: World, now: Int64)
    requires c.WellFormed()
    ensures c.(w := w, now := now).WellFormed()
    ensures ReachesResolution(c) <==> ReachesResolution(c.(w := w, now := now))
  {
    var d := c.(w := w, now := now);
    forall k | 0 <= k < 9 ensures Clear(c, STAGES[k]) <==> Clear(d, STAGES[k]) {
      SameStage(c, d, STAGES[k]);
    }
  }

  lemma SameStage(c: Case, d: Case, s: Stage)
    requires c.WellFormed() && d == c.(w := d.w, now := d.now)
    requires exists k :: 0 <= k < 9 && STAGES[k] == s
    ensures Clear(c, s) <==> Clear(d, s)
  {
    assert s.Types? || s.InvocationTypes? || s.Jtis? || s.InvocationJti? || s.Root? || s.Links? || s.Issuers?
        || s.Invoker? || s.References?;
    assert Upper(c, s) == Upper(d, s);
    forall i | Lower(s) <= i < Upper(c, s) ensures Fault(c, s, i) == Fault(d, s, i) {
    }
  }

  /** The pool resolves the issuers of the receipts and of the invocation, each once. */
  method PooledIssuers(c: Case) returns (unique: seq<string>)
    requires c.WellFormed()
    ensures ParallelResolve.Distinct(unique)
    ensures forall did :: did in unique <==> did == c.inv.iss || exists i | 0 <= i < |c.receipts| :: c.receipts[i].iss == did
  {
    var dids := IssuerDids(c);
    unique := ParallelResolve.Deduplicate(dids);
    PooledExactly(c, unique);
  }

  lemma PooledExactly(c: Case, unique: seq<string>)
    requires c.WellFormed() && ParallelResolve.Elements(unique) == ParallelResolve.Elements(IssuerDids(c))
    ensures forall did :: did in unique <==> did == c.inv.iss || exists i | 0 <= i < |c.receipts| :: c.receipts[i].iss == did
  {
    var dids := IssuerDids(c);
    forall did
      ensures did in unique <==> did == c.inv.iss || exists i | 0 <= i < |c.receipts| :: c.receipts[i].iss == did
    {
      assert did in unique <==> did in ParallelResolve.Elements(unique);
      assert did in dids <==> did in ParallelResolve.Elements(dids);
      if i :| 0 <= i < |c.receipts| && c.receipts[i].iss == did {
        assert dids[i] == did;
      }
      assert dids[|c.receipts|] == c.inv.iss;
    }
  }

  ghost predicate NamesOverrun(c: Case)
    requires c.WellFormed()
  {
    || Resolver.OverrunsTable(c.inv.iss)
    || exists i | 0 <= i < |c.receipts| :: Resolver.OverrunsTable(c.receipts[i].iss)
  }

  ghost function Issuing(c: Case): set<string>
    requires c.WellFormed()
  {
    {c.inv.iss} + set i | 0 <= i < |c.receipts| :: c.receipts[i].iss
  }

  ghost predicate CrashesWith(cfg: Resolver.Config, start: int, schedule: seq<Resolver.Step>, c: Case)
    requires c.WellFormed()
  {
    Resolver.CallsOnly(schedule, Issuing(c)) && Resolver.Run(Resolver.Init(start), cfg, schedule).crashed
  }

  /** Resolving the issuers of a bundle can crash the process exactly when one of them
      overruns the table. */
  lemma BundleCrashesExactly(cfg: Resolver.Config, start: int, c: Case)
    requires c.WellFormed()
    ensures (exists schedule :: CrashesWith(cfg, start, schedule, c)) <==> NamesOverrun(c)
  {
    if NamesOverrun(c) {
      var did :| did in Issuing(c) && Resolver.OverrunsTable(did);
      var schedule := Resolver.OneCallCrashes(cfg, start, did);
      assert CrashesWith(cfg, start, schedule, c);
    } else {
      forall schedule: seq<Resolver.Step> ensures !CrashesWith(cfg, start, schedule, c) {
        if Resolver.CallsOnly(schedule, Issuing(c)) {
          Resolver.NoCrashWithoutOverrun(cfg, start, schedule);
        }
      }
    }
  }

  /** And then the pool never gets a result for that issuer, whatever else is going on:
      in any run that has not crashed the call is under way or was given up. */
  lemma BundleNeverResolves(cfg: Resolver.Config, start: int, schedule: seq<Resolver.Step>, c: Case, did: string, t: nat)
    requires c.WellFormed() && did in Issuing(c) && Resolver.OverrunsTable(did)
    requires var s := Resolver.Run(Resolver.Init(start), cfg, schedule);
             t in s.callers && s.callers[t].did == did && s.callers[t].Returned?
    ensures Resolver.Run(Resolver.Init(start), cfg, schedule).callers[t].answer.Cancelled?
  {
    Resolver.OverrunsNeverReturn(cfg, start, schedule, t);
  }
}
