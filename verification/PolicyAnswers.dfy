/**
 What the verifier's policy errors mean: for each kind of violation and escalation,
 the field it is about and the exact situation in which it is the one reported.
 */
module PolicyAnswers {
  import opened Wrappers
  import opened Policies

  // ---- evaluation ----

  function KeyOf(field: Field): string {
    match field
    case Cost => "estimated_cost_usd"
    case Pii => "pii_access"
    case Write => "write_access"
    case Calls => ""
    case Tools => "tool"
    case Resources => "resource_uri"
    case DataClasses => "data_class"
  }

  function ListOf(pol: Policy, field: Field): seq<string> {
    match field
    case Tools => pol.allowedTools
    case Resources => pol.allowedResources
    case DataClasses => pol.allowedDataClasses
    case _ => []
  }

  predicate IsListField(field: Field) {
    field.Tools? || field.Resources? || field.DataClasses?
  }

  /** The policy says something about the field that evaluation looks at. */
  predicate Speaks(pol: Policy, field: Field) {
    match field
    case Cost => pol.maxCostUSD.Some?
    case Pii => pol.piiAccess == Some(false)
    case Write => pol.writeAccess == Some(false)
    case Calls => false
    case _ => ListOf(pol, field) != [] && "*" !in ListOf(pol, field)
  }

  function FieldOf(v: Violation): Field {
    if v.Negative? then Cost else v.field
  }

  /** The arguments and the violation reported on them. */
  ghost predicate Violates(pol: Policy, args: Args, v: Violation) {
    var field, key := FieldOf(v), KeyOf(FieldOf(v));
    && Speaks(pol, field)
    && match v
       case Missing(_) => key !in args
       case WrongType(_) =>
         && key in args
         && (if field.Cost? then !args[key].Number?
             else if field.Pii? || field.Write? then !args[key].Bool?
             else !args[key].Text?)
       case Negative => key in args && args[key].Number? && args[key].n < 0.0
       case Exceeded(_) =>
         && field.Cost? && key in args && args[key].Number?
         && 0.0 <= args[key].n && pol.maxCostUSD.value < args[key].n
       case Denied(_) => (field.Pii? || field.Write?) && key in args && args[key] == Bool(true)
       case NotPermitted(_) =>
         && IsListField(field) && key in args && args[key].Text?
         && (if field.Resources? then !NamesResource(args[key], ListOf(pol, field))
             else args[key].s !in ListOf(pol, field))
  }

  /** The order in which evaluation takes the fields. */
  function Turn(field: Field): nat {
    match field
    case Cost => 0
    case Pii => 1
    case Write => 2
    case Tools => 3
    case Resources => 4
    case DataClasses => 5
    case Calls => 6
  }

  ghost predicate EarlierPermit(pol: Policy, field: Field, args: Args) {
    forall f | Turn(f) < Turn(field) :: FieldPermits(pol, f, args)
  }

  function ViolationOf(pol: Policy, field: Field, args: Args): Option<Violation> {
    match field
    case Cost => CostViolation(pol.maxCostUSD, args)
    case Pii => FlagViolation(pol.piiAccess, "pii_access", Pii, args)
    case Write => FlagViolation(pol.writeAccess, "write_access", Write, args)
    case Tools => ListViolation(pol.allowedTools, "tool", Tools, args)
    case Resources => ListViolation(pol.allowedResources, "resource_uri", Resources, args)
    case DataClasses => ListViolation(pol.allowedDataClasses, "data_class", DataClasses, args)
    case Calls => None
  }

  lemma FieldExactly(pol: Policy, field: Field, args: Args, v: Violation)
    ensures ViolationOf(pol, field, args) == Some(v) <==> FieldOf(v) == field && Violates(pol, args, v)
    ensures ViolationOf(pol, field, args).None? <==> FieldPermits(pol, field, args)
  {
    if field.Resources? {
      ResourceListMeaning(pol.allowedResources, args);
    }
  }

  /** Evaluation reports a violation exactly when the arguments commit it and every
      field taken before permits them. */
  lemma EvaluationExactly(pol: Policy, args: Args, v: Violation)
    ensures Evaluate(pol, args) == Some(v) <==> Violates(pol, args, v) && EarlierPermit(pol, FieldOf(v), args)
  {
    var a := InTurns(pol, args);
    forall k | 0 <= k < 6 ensures a[k] == Some(v) <==> Turn(FieldOf(v)) == k && Violates(pol, args, v) {
      FieldExactly(pol, TURNS[k], args, v);
    }
    if FieldOf(v) != Calls {
      PickFirst(a, v, Turn(FieldOf(v)));
      EarlierInTurns(pol, args, FieldOf(v));
    }
  }

  const TURNS: seq<Field> := [Cost, Pii, Write, Tools, Resources, DataClasses]

  function InTurns(pol: Policy, args: Args): (a: seq<Option<Violation>>)
    ensures |a| == 6 && forall k | 0 <= k < 6 :: a[k] == ViolationOf(pol, TURNS[k], args)
    ensures Evaluate(pol, args) == First(a[0], First(a[1], First(a[2], First(a[3], First(a[4], a[5])))))
  {
    seq(6, k requires 0 <= k < 6 => ViolationOf(pol, TURNS[k], args))
  }

  lemma PickFirst(a: seq<Option<Violation>>, v: Violation, k: nat)
    requires |a| == 6 && k < 6 && forall i | 0 <= i < 6 && i != k :: a[i] != Some(v)
    ensures First(a[0], First(a[1], First(a[2], First(a[3], First(a[4], a[5]))))) == Some(v) <==>
            a[k] == Some(v) && forall i | 0 <= i < k :: a[i].None?
  {
  }

  lemma EarlierInTurns(pol: Policy, args: Args, field: Field)
    requires field != Calls
    ensures EarlierPermit(pol, field, args) <==> forall i | 0 <= i < Turn(field) :: InTurns(pol, args)[i].None?
  {
    forall i | 0 <= i < 6 ensures InTurns(pol, args)[i].None? <==> FieldPermits(pol, TURNS[i], args) {
      FieldExactly(pol, TURNS[i], args, Negative);
    }
    forall f | f != Calls ensures TURNS[Turn(f)] == f {
    }
    if EarlierPermit(pol, field, args) {
      forall i | 0 <= i < Turn(field) ensures InTurns(pol, args)[i].None? {
        assert Turn(TURNS[i]) == i;
      }
    }
  }

  // ---- attenuation ----

  /** The first item of the child's list that stands in the way is at this place. */
  predicate FirstAlien(parent: seq<string>, child: seq<string>, k: nat) {
    && k < |child| && (child[k] == "*" || child[k] !in parent)
    && forall j | 0 <= j < k :: child[j] != "*" && child[j] in parent
  }

  /** Two policies and the escalation reported on them. */
  ghost predicate Escalates(parent: Policy, child: Policy, e: Escalation) {
    var p, c := ListOf(parent, e.field), ListOf(child, e.field);
    match e
    case Omits(field) =>
      || (field.Cost? && parent.maxCostUSD.Some? && child.maxCostUSD.None?)
      || (field.Calls? && parent.maxCalls.Some? && child.maxCalls.None?)
      || (IsListField(field) && p != [] && "*" !in p && c == [])
    case Loosens(field) =>
      || (field.Cost? && parent.maxCostUSD.Some? && child.maxCostUSD.Some?
          && parent.maxCostUSD.value < child.maxCostUSD.value)
      || (field.Calls? && parent.maxCalls.Some? && child.maxCalls.Some? && parent.maxCalls.value < child.maxCalls.value)
      || (field.Pii? && parent.piiAccess == Some(false) && child.piiAccess == Some(true))
      || (field.Write? && parent.writeAccess == Some(false) && child.writeAccess == Some(true))
    case AddsWildcard(field) =>
      && (field.Tools? || field.Resources?) && p != [] && "*" !in p
      && exists k: nat :: FirstAlien(p, c, k) && c[k] == "*"
    case Adds(field) =>
      && IsListField(field) && p != [] && "*" !in p
      && exists k: nat :: FirstAlien(p, c, k) && (c[k] == "*" ==> field.DataClasses?)
  }

  /** The order in which the attenuation test takes the fields. */
  function AttenuationTurn(field: Field): nat {
    match field
    case Cost => 0
    case Pii => 1
    case Write => 2
    case Calls => 3
    case Tools => 4
    case Resources => 5
    case DataClasses => 6
  }

  ghost predicate EarlierKeep(parent: Policy, child: Policy, field: Field) {
    forall e: Escalation | AttenuationTurn(e.field) < AttenuationTurn(field) :: !Escalates(parent, child, e)
  }

  function EscalationOf(parent: Policy, child: Policy, field: Field): (r: Option<Escalation>)
    ensures r.Some? ==> r.value.field == field
  {
    match field
    case Cost => CostEscalation(parent.maxCostUSD, child.maxCostUSD)
    case Pii => FlagEscalation(parent.piiAccess, child.piiAccess, Pii)
    case Write => FlagEscalation(parent.writeAccess, child.writeAccess, Write)
    case Calls => CallsEscalation(parent.maxCalls, child.maxCalls)
    case _ => ItemsField(ListOf(parent, field), ListOf(child, field), field);
              ListEscalation(ListOf(parent, field), ListOf(child, field), field)
  }

  lemma {:induction false} ItemsField(parent: seq<string>, child: seq<string>, field: Field)
    ensures ItemEscalation(parent, child, field).Some? ==> ItemEscalation(parent, child, field).value.field == field
  {
    if child != [] {
      ItemsField(parent, child[1..], field);
    }
  }

  lemma {:induction false} ItemsExactly(parent: seq<string>, child: seq<string>, field: Field)
    ensures match ItemEscalation(parent, child, field)
            case None => forall k: nat :: !FirstAlien(parent, child, k)
            case Some(e) =>
              exists k: nat :: FirstAlien(parent, child, k)
                && e == if child[k] == "*" && !field.DataClasses? then AddsWildcard(field) else Adds(field)
  {
    if child != [] {
      if child[0] == "*" || child[0] !in parent {
        assert FirstAlien(parent, child, 0);
      } else {
        var rest := child[1..];
        ItemsExactly(parent, rest, field);
        forall k: nat ensures FirstAlien(parent, child, k + 1) <==> FirstAlien(parent, rest, k) {
          ShiftAlien(parent, child, k);
        }
        assert !FirstAlien(parent, child, 0);
        if ItemEscalation(parent, child, field).None? {
          forall k: nat ensures !FirstAlien(parent, child, k) {
            assert k > 0 ==> !FirstAlien(parent, rest, k - 1) && (FirstAlien(parent, child, k - 1 + 1) <==> FirstAlien(parent, rest, k - 1));
          }
        } else {
          var k: nat :| FirstAlien(parent, rest, k) && ItemEscalation(parent, child, field).value ==
            if rest[k] == "*" && !field.DataClasses? then AddsWildcard(field) else Adds(field);
          assert FirstAlien(parent, child, k + 1) && child[k + 1] == rest[k];
        }
      }
    }
  }

  lemma ShiftAlien(parent: seq<string>, child: seq<string>, k: nat)
    requires child != [] && child[0] != "*" && child[0] in parent
    ensures FirstAlien(parent, child, k + 1) <==> FirstAlien(parent, child[1..], k)
  {
    var rest := child[1..];
    if FirstAlien(parent, child, k + 1) {
      assert forall j | 0 <= j < k :: rest[j] == child[j + 1];
    }
    if FirstAlien(parent, rest, k) {
      forall j | 0 <= j < k + 1 ensures child[j] != "*" && child[j] in parent {
        assert j > 0 ==> child[j] == rest[j - 1];
      }
    }
  }

  lemma FirstAlienUnique(parent: seq<string>, child: seq<string>, i: nat, j: nat)
    requires FirstAlien(parent, child, i) && FirstAlien(parent, child, j)
    ensures i == j
  {
  }

  lemma ListFieldExactly(parent: Policy, child: Policy, field: Field, e: Escalation)
    requires IsListField(field)
    ensures EscalationOf(parent, child, field) == Some(e) <==> e.field == field && Escalates(parent, child, e)
  {
    var p, c := ListOf(parent, field), ListOf(child, field);
    ItemsExactly(p, c, field);
    ItemsField(p, c, field);
    if p != [] && "*" !in p && c != [] && ItemEscalation(p, c, field).Some? {
      var k: nat :| FirstAlien(p, c, k) && ItemEscalation(p, c, field).value ==
        if c[k] == "*" && !field.DataClasses? then AddsWildcard(field) else Adds(field);
      forall i: nat | FirstAlien(p, c, i) ensures i == k {
        FirstAlienUnique(p, c, i, k);
      }
    }
  }

  lemma EscalationFieldExactly(parent: Policy, child: Policy, field: Field, e: Escalation)
    ensures EscalationOf(parent, child, field) == Some(e) <==> e.field == field && Escalates(parent, child, e)
  {
    if IsListField(field) {
      ListFieldExactly(parent, child, field, e);
    }
  }

  /** The attenuation test reports an escalation exactly when the child commits it and
      none on a field taken before. */
  lemma AttenuationExactly(parent: Policy, child: Policy, e: Escalation)
    ensures CheckAttenuation(parent, child) == Some(e) <==> Escalates(parent, child, e) && EarlierKeep(parent, child, e.field)
  {
    forall f, x: Escalation
      ensures EscalationOf(parent, child, f) == Some(x) <==> x.field == f && Escalates(parent, child, x)
    {
      EscalationFieldExactly(parent, child, f, x);
    }
    EarlierNone(parent, child, e.field);
    assert CheckAttenuation(parent, child) ==
           First(EscalationOf(parent, child, Cost), First(EscalationOf(parent, child, Pii),
           First(EscalationOf(parent, child, Write), First(EscalationOf(parent, child, Calls),
           First(EscalationOf(parent, child, Tools), First(EscalationOf(parent, child, Resources),
                 EscalationOf(parent, child, DataClasses)))))));
  }

  lemma EarlierNone(parent: Policy, child: Policy, field: Field)
    ensures EarlierKeep(parent, child, field) <==>
            forall f | AttenuationTurn(f) < AttenuationTurn(field) :: EscalationOf(parent, child, f).None?
  {
    forall e: Escalation
      ensures EscalationOf(parent, child, e.field) == Some(e) <==> Escalates(parent, child, e)
    {
      EscalationFieldExactly(parent, child, e.field, e);
    }
    if EarlierKeep(parent, child, field) {
      forall f | AttenuationTurn(f) < AttenuationTurn(field) ensures EscalationOf(parent, child, f).None? {
        if EscalationOf(parent, child, f).Some? {
          EscalationFieldExactly(parent, child, f, EscalationOf(parent, child, f).value);
        }
      }
    }
  }
}
