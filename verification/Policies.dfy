/**
 Capability policies: evaluation of invocation arguments and the hop-by-hop
 attenuation test of the verifier. An absent allowlist and an empty one are the
 same empty sequence here, as they are in Go.
 */
module Policies {
  import opened Wrappers
  import ResourcePatterns

  datatype Policy = Policy(
    maxCostUSD: Option<real>,
    piiAccess: Option<bool>,
    writeAccess: Option<bool>,
    maxCalls: Option<nat>,
    allowedTools: seq<string>,
    allowedResources: seq<string>,
    allowedDataClasses: seq<string>)

  /** A decoded JSON argument; `NonFinite` is a NaN or an infinity. */
  datatype ArgValue =
    | Null
    | Bool(b: bool)
    | Number(n: real)
    | NonFinite
    | Text(s: string)
    | List
    | Object

  type Args = map<string, ArgValue>

  datatype Field = Cost | Pii | Write | Calls | Tools | Resources | DataClasses

  /** Why a policy turned arguments down, and on which field. */
  datatype Violation =
    | Missing(field: Field)
    | WrongType(field: Field)
    | Negative
    | Exceeded(field: Field)
    | Denied(field: Field)
    | NotPermitted(field: Field)

  function First<E>(a: Option<E>, b: Option<E>): Option<E> {
    if a.Some? then a else b
  }

  // ---- evaluation ----

  function CostViolation(limit: Option<real>, args: Args): Option<Violation> {
    if limit.None? then None
    else if "estimated_cost_usd" !in args then Some(Missing(Cost))
    else
      match args["estimated_cost_usd"]
      case Number(cost) =>
        if cost < 0.0 then Some(Negative)
        else if cost > limit.value then Some(Exceeded(Cost))
        else None
      case _ => Some(WrongType(Cost))
  }

  /** `pii_access` and `write_access`: only an explicit `false` restricts. */
  function FlagViolation(flag: Option<bool>, key: string, field: Field, args: Args): Option<Violation> {
    if flag != Some(false) then None
    else if key !in args then Some(Missing(field))
    else
      match args[key]
      case Bool(b) => if b then Some(Denied(field)) else None
      case _ => Some(WrongType(field))
  }

  /** A list restricts when it is neither empty nor holds the wildcard. */
  predicate Restricts(list: seq<string>) {
    |list| > 0 && "*" !in list
  }

  predicate ItemCovered(item: string, allowed: seq<string>) {
    exists t | t in allowed :: t == "*" || t == item
  }

  predicate Covered(field: Field, item: string, allowed: seq<string>) {
    if field == Resources then ResourcePatterns.ResourceCovered(item, allowed) else ItemCovered(item, allowed)
  }

  function ListViolation(list: seq<string>, key: string, field: Field, args: Args): Option<Violation> {
    if !Restricts(list) then None
    else if key !in args then Some(Missing(field))
    else
      match args[key]
      case Text(item) => if Covered(field, item, list) then None else Some(NotPermitted(field))
      case _ => Some(WrongType(field))
  }

  /** The first violation in the order of the source, or none. The call limit is
      not evaluated. */
  function Evaluate(pol: Policy, args: Args): Option<Violation> {
    First(CostViolation(pol.maxCostUSD, args),
    First(FlagViolation(pol.piiAccess, "pii_access", Pii, args),
    First(FlagViolation(pol.writeAccess, "write_access", Write, args),
    First(ListViolation(pol.allowedTools, "tool", Tools, args),
    First(ListViolation(pol.allowedResources, "resource_uri", Resources, args),
          ListViolation(pol.allowedDataClasses, "data_class", DataClasses, args))))))
  }

  /** The two boolean checks of one policy. */
  predicate FlagsPass(pol: Policy, args: Args) {
    && FlagViolation(pol.piiAccess, "pii_access", Pii, args).None?
    && FlagViolation(pol.writeAccess, "write_access", Write, args).None?
  }

  /** What the clause of a policy on one field asks of the arguments. */
  ghost predicate FieldPermits(pol: Policy, field: Field, args: Args) {
    match field
    case Cost =>
      pol.maxCostUSD.Some? ==> "estimated_cost_usd" in args && CostWithin(args["estimated_cost_usd"], pol.maxCostUSD.value)
    case Pii => pol.piiAccess == Some(false) ==> "pii_access" in args && args["pii_access"] == Bool(false)
    case Write => pol.writeAccess == Some(false) ==> "write_access" in args && args["write_access"] == Bool(false)
    case Calls => true
    case Tools =>
      pol.allowedTools != [] && "*" !in pol.allowedTools ==> "tool" in args && Names(args["tool"], pol.allowedTools)
    case Resources =>
      pol.allowedResources != [] && "*" !in pol.allowedResources ==>
        "resource_uri" in args && NamesResource(args["resource_uri"], pol.allowedResources)
    case DataClasses =>
      pol.allowedDataClasses != [] && "*" !in pol.allowedDataClasses ==>
        "data_class" in args && Names(args["data_class"], pol.allowedDataClasses)
  }

  /** The policy lets the arguments pass, field by field. */
  ghost predicate Permits(pol: Policy, args: Args) {
    && FieldPermits(pol, Cost, args) && FieldPermits(pol, Pii, args) && FieldPermits(pol, Write, args)
    && FieldPermits(pol, Tools, args) && FieldPermits(pol, Resources, args) && FieldPermits(pol, DataClasses, args)
  }

  predicate CostWithin(v: ArgValue, limit: real) {
    v.Number? && 0.0 <= v.n <= limit
  }

  predicate Names(v: ArgValue, list: seq<string>) {
    v.Text? && v.s in list
  }

  ghost predicate NamesResource(v: ArgValue, list: seq<string>) {
    v.Text? && exists p | p in list :: ResourcePatterns.Grants(p, v.s)
  }

  /** Evaluation finds no violation exactly when the policy permits the arguments. */
  lemma EvaluationMeaning(pol: Policy, args: Args)
    ensures Evaluate(pol, args).None? <==> Permits(pol, args)
  {
    ListMeaning(pol.allowedTools, "tool", Tools, args);
    ListMeaning(pol.allowedDataClasses, "data_class", DataClasses, args);
    ResourceListMeaning(pol.allowedResources, args);
  }

  lemma ListMeaning(list: seq<string>, key: string, field: Field, args: Args)
    requires field != Resources
    ensures ListViolation(list, key, field, args).None? <==>
            (list != [] && "*" !in list ==> key in args && Names(args[key], list))
  {
  }

  lemma ResourceListMeaning(list: seq<string>, args: Args)
    ensures ListViolation(list, "resource_uri", Resources, args).None? <==>
            (list != [] && "*" !in list ==> "resource_uri" in args && NamesResource(args["resource_uri"], list))
  {
    if "resource_uri" in args && args["resource_uri"].Text? {
      ResourcePatterns.CoveredExactly(args["resource_uri"].s, list);
    }
  }

  // ---- attenuation ----

  datatype Escalation =
    | Omits(field: Field)
    | Loosens(field: Field)
    | AddsWildcard(field: Field)
    | Adds(field: Field)

  function CostEscalation(parent: Option<real>, child: Option<real>): Option<Escalation> {
    if parent.None? then None
    else if child.None? then Some(Omits(Cost))
    else if child.value > parent.value then Some(Loosens(Cost))
    else None
  }

  function CallsEscalation(parent: Option<nat>, child: Option<nat>): Option<Escalation> {
    if parent.None? then None
    else if child.None? then Some(Omits(Calls))
    else if child.value > parent.value then Some(Loosens(Calls))
    else None
  }

  function FlagEscalation(parent: Option<bool>, child: Option<bool>, field: Field): Option<Escalation> {
    if parent == Some(false) && child == Some(true) then Some(Loosens(field)) else None
  }

  /** The first item of the child that the parent does not allow. */
  function ItemEscalation(parent: seq<string>, child: seq<string>, field: Field): Option<Escalation> {
    if child == [] then None
    else if child[0] == "*" then Some(if field == DataClasses then Adds(field) else AddsWildcard(field))
    else if child[0] !in parent then Some(Adds(field))
    else ItemEscalation(parent, child[1..], field)
  }

  function ListEscalation(parent: seq<string>, child: seq<string>, field: Field): Option<Escalation> {
    if !Restricts(parent) then None
    else if |child| == 0 then Some(Omits(field))
    else ItemEscalation(parent, child, field)
  }

  function CheckAttenuation(parent: Policy, child: Policy): Option<Escalation> {
    First(CostEscalation(parent.maxCostUSD, child.maxCostUSD),
    First(FlagEscalation(parent.piiAccess, child.piiAccess, Pii),
    First(FlagEscalation(parent.writeAccess, child.writeAccess, Write),
    First(CallsEscalation(parent.maxCalls, child.maxCalls),
    First(ListEscalation(parent.allowedTools, child.allowedTools, Tools),
    First(ListEscalation(parent.allowedResources, child.allowedResources, Resources),
          ListEscalation(parent.allowedDataClasses, child.allowedDataClasses, DataClasses)))))))
  }

  // ---- what the attenuation test amounts to ----

  predicate LimitNarrows(parent: Option<real>, child: Option<real>) {
    parent.Some? ==> child.Some? && child.value <= parent.value
  }

  predicate CallsNarrow(parent: Option<nat>, child: Option<nat>) {
    parent.Some? ==> child.Some? && child.value <= parent.value
  }

  /** A restricting parent list is inherited by a restricting subset of it. */
  predicate ListNarrows(parent: seq<string>, child: seq<string>) {
    Restricts(parent) ==> Restricts(child) && forall item | item in child :: item in parent
  }

  /** Everything but the two booleans: the part of attenuation that composes. */
  predicate Narrows(parent: Policy, child: Policy) {
    && LimitNarrows(parent.maxCostUSD, child.maxCostUSD)
    && CallsNarrow(parent.maxCalls, child.maxCalls)
    && ListNarrows(parent.allowedTools, child.allowedTools)
    && ListNarrows(parent.allowedResources, child.allowedResources)
    && ListNarrows(parent.allowedDataClasses, child.allowedDataClasses)
  }

  /** The child says `true` where the parent says `false`. */
  predicate RelaxesFlag(parent: Policy, child: Policy) {
    || (parent.piiAccess == Some(false) && child.piiAccess == Some(true))
    || (parent.writeAccess == Some(false) && child.writeAccess == Some(true))
  }

  lemma {:induction false} ItemsAllowed(parent: seq<string>, child: seq<string>, field: Field)
    ensures ItemEscalation(parent, child, field).None? <==>
            "*" !in child && forall item | item in child :: item in parent
  {
    if child != [] {
      ItemsAllowed(parent, child[1..], field);
      assert child == [child[0]] + child[1..];
    }
  }

  /** The test passes exactly when the child narrows the parent and relaxes
      neither boolean. */
  lemma AttenuationMeaning(parent: Policy, child: Policy)
    ensures CheckAttenuation(parent, child).None? <==> Narrows(parent, child) && !RelaxesFlag(parent, child)
  {
    ItemsAllowed(parent.allowedTools, child.allowedTools, Tools);
    ItemsAllowed(parent.allowedResources, child.allowedResources, Resources);
    ItemsAllowed(parent.allowedDataClasses, child.allowedDataClasses, DataClasses);
  }

  /** Each hop of a chain of policies passes the attenuation test. */
  predicate HopsAttenuated(chain: seq<Policy>) {
    forall i | 1 <= i < |chain| :: CheckAttenuation(chain[i - 1], chain[i]).None?
  }

  /** In a hop-checked chain of any length every receipt narrows all that come
      before it on cost, calls and the three lists. */
  lemma {:induction false} ChainNarrows(chain: seq<Policy>, i: nat, j: nat)
    requires HopsAttenuated(chain) && i <= j < |chain|
    ensures Narrows(chain[i], chain[j])
    decreases j - i
  {
    if i < j {
      ChainNarrows(chain, i, j - 1);
      assert CheckAttenuation(chain[j - 1], chain[j]).None?;
      AttenuationMeaning(chain[j - 1], chain[j]);
      NarrowsTransitive(chain[i], chain[j - 1], chain[j]);
    }
  }

  lemma NarrowsTransitive(a: Policy, b: Policy, c: Policy)
    requires Narrows(a, b) && Narrows(b, c)
    ensures Narrows(a, c)
  {
  }

  /** Two receipts of a hop-checked chain, any distance apart, pass the test
      themselves exactly when the later one does not say `true` where the earlier
      one says `false`: the booleans are the only part that does not compose. */
  lemma DistantAttenuation(chain: seq<Policy>, i: nat, j: nat)
    requires HopsAttenuated(chain) && i <= j < |chain|
    ensures CheckAttenuation(chain[i], chain[j]).None? <==> !RelaxesFlag(chain[i], chain[j])
  {
    ChainNarrows(chain, i, j);
    AttenuationMeaning(chain[i], chain[j]);
  }

  const UNRESTRICTED := Policy(None, None, None, None, [], [], [])

  /** A middle receipt that leaves a boolean out lets the next one turn it on. */
  lemma BooleansDoNotCompose()
    ensures var chain := [UNRESTRICTED.(piiAccess := Some(false)), UNRESTRICTED,
                          UNRESTRICTED.(piiAccess := Some(true))];
            && HopsAttenuated(chain)
            && CheckAttenuation(chain[0], chain[2]) == Some(Loosens(Pii))
            && Evaluate(chain[2], map["pii_access" := Bool(true)]).None?
            && Evaluate(chain[0], map["pii_access" := Bool(true)]) == Some(Denied(Pii))
  {
  }

  // ---- conjunctive evaluation ----

  /** The verifier's D1 loop: every receipt accepts the arguments. */
  predicate AllPoliciesPass(chain: seq<Policy>, args: Args) {
    forall i | 0 <= i < |chain| :: Evaluate(chain[i], args).None?
  }

  lemma CoveredWhenNarrowed(field: Field, item: string, parent: seq<string>, child: seq<string>)
    requires Restricts(parent) && ListNarrows(parent, child) && Covered(field, item, child)
    ensures Covered(field, item, parent)
  {
    if field == Resources {
      ResourcePatterns.CoveredMonotone(item, child, parent);
    }
  }

  lemma ListPassesWhenNarrowed(list: seq<string>, child: seq<string>, key: string, field: Field, args: Args)
    requires ListNarrows(list, child) && ListViolation(child, key, field, args).None?
    ensures ListViolation(list, key, field, args).None?
  {
    if Restricts(list) {
      CoveredWhenNarrowed(field, args[key].s, list, child);
    }
  }

  /** What the narrower policy lets through, the wider one lets through, once its
      own two booleans agree. */
  lemma NarrowerAcceptsLess(wide: Policy, narrow: Policy, args: Args)
    requires Narrows(wide, narrow) && Evaluate(narrow, args).None? && FlagsPass(wide, args)
    ensures Evaluate(wide, args).None?
  {
    ListPassesWhenNarrowed(wide.allowedTools, narrow.allowedTools, "tool", Tools, args);
    ListPassesWhenNarrowed(wide.allowedResources, narrow.allowedResources, "resource_uri", Resources, args);
    ListPassesWhenNarrowed(wide.allowedDataClasses, narrow.allowedDataClasses, "data_class", DataClasses, args);
  }

  /** In a hop-checked chain the D1 loop over all receipts decides exactly as the
      leaf's policy together with the boolean checks of every receipt. */
  lemma LeafAndFlagsDecide(chain: seq<Policy>, args: Args)
    requires HopsAttenuated(chain) && |chain| > 0
    ensures AllPoliciesPass(chain, args) <==>
            && Evaluate(chain[|chain| - 1], args).None?
            && forall i | 0 <= i < |chain| :: FlagsPass(chain[i], args)
  {
    var leaf := |chain| - 1;
    if Evaluate(chain[leaf], args).None? && forall i | 0 <= i < |chain| :: FlagsPass(chain[i], args) {
      forall i | 0 <= i < |chain| ensures Evaluate(chain[i], args).None? {
        ChainNarrows(chain, i, leaf);
        NarrowerAcceptsLess(chain[i], chain[leaf], args);
      }
    }
  }
}
