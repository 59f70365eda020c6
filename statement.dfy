/** IAM policy statements: search by SID, membership tests, and the ordered, de-duplicated
    appends that merge a marker into an existing statement. */
module Statements {
  import opened Wrappers
  import Seqs
  import Conditions
  import opened Markers

  /** A statement value.  The condition is optional (a nil `*Condition`). */
  datatype Statement = Statement(
    sid: string,
    effect: string,
    action: seq<string>,
    resources: seq<string>,
    condition: Option<Conditions.Condition>
  )

  /** The statement a complete marker starts: one action, one resource and the marker's
      condition. */
  function ToStatement(marker: Marker): Statement
    requires Complete(marker)
  {
    Statement(marker.id.value, marker.effect.value, [marker.action.value], [marker.resource.value],
              Condition(marker))
  }

  /** A marker that passed validation, once defaulted, becomes a statement whose SID defaults
      to `Default`, whose effect is Allow or Deny, and which carries a condition exactly when
      the marker names a condition key. */
  lemma ToStatementOfValidMarker(marker: Marker, nameFirst: bool)
    requires Validate(marker, nameFirst).Pass?
    ensures Complete(Defaulted(marker))
    ensures ToStatement(Defaulted(marker)) ==
      Statement(marker.id.GetOr(DefaultStatementId), marker.effect.GetOr(ValidEffectAllow),
                [marker.action.value], [marker.resource.GetOr(DefaultStatementResource)],
                Condition(marker))
    ensures var s := ToStatement(Defaulted(marker));
      && MatchesStatementIdRegex(s.sid)
      && (s.effect == ValidEffectAllow || s.effect == ValidEffectDeny)
      && (s.condition.Some? <==> HasStringValue(marker.conditionKey))
  {
    DefaultedKeepsValid(marker, nameFirst);
    ValidConditionPresent(marker, nameFirst);
    StatementIdExamples();
  }

  /** Index of the first statement with the given SID; the caller updates the statement at
      that index in place. */
  function Find(statements: seq<Statement>, statementId: string): (r: Option<nat>)
    ensures r.Some? ==>
      && r.value < |statements|
      && statements[r.value].sid == statementId
      && forall j :: 0 <= j < r.value ==> statements[j].sid != statementId
    ensures r.None? <==> forall j :: 0 <= j < |statements| ==> statements[j].sid != statementId
  {
    if statements == [] then None
    else if statements[0].sid == statementId then Some(0)
    else
      match Find(statements[1..], statementId)
      case Some(i) => Some(i + 1)
      case None => None
  }

  function HasAction(statement: Statement, action: string): (r: bool)
    ensures r <==> action in statement.action
  {
    Seqs.Contains(statement.action, action)
  }

  function HasResource(statement: Statement, resource: string): (r: bool)
    ensures r <==> resource in statement.resources
  {
    Seqs.Contains(statement.resources, resource)
  }

  predicate HasEffect(statement: Statement, effect: string) {
    statement.effect == effect
  }

  /** The action list after AppendAction: an ordered set insert. */
  function WithAction(actions: seq<string>, action: string): (r: seq<string>)
    ensures r == Seqs.Insert(actions, action)
    ensures action in r
    ensures Seqs.Distinct(actions) ==> Seqs.Distinct(r)
  {
    if actions == [] then [action]
    else if Seqs.Contains(actions, action) then actions
    else actions + [action]
  }

  /** The resource list after AppendResource: an ordered set insert, except that a lone
      wildcard is replaced by the new resource first. */
  function WithResource(resources: seq<string>, resource: string): (r: seq<string>)
    ensures resource in r
    ensures resources == [DefaultStatementResource] ==> r == [resource]
    ensures resources != [DefaultStatementResource] ==> r == Seqs.Insert(resources, resource)
    ensures resource in resources ==> r == resources
    ensures Seqs.Distinct(resources) ==> Seqs.Distinct(r)
  {
    if resources == [] then [resource]
    else
      var base :=
        if |resources| == 1 && Seqs.Contains(resources, DefaultStatementResource) then [resource]
        else resources;
      if Seqs.Contains(base, resource) then base else base + [resource]
  }

  /** The statement after AppendFor with a marker. */
  function AppendedFor(statement: Statement, marker: Marker): Statement
    requires marker.action.Some? && marker.resource.Some?
  {
    statement.(action := WithAction(statement.action, marker.action.value),
               resources := WithResource(statement.resources, marker.resource.value))
  }

  /** AppendFor touches only the action and resource lists, after which both hold the
      marker's entries; every action already granted stays granted. */
  lemma AppendedForSpec(statement: Statement, marker: Marker)
    requires marker.action.Some? && marker.resource.Some?
    ensures var r := AppendedFor(statement, marker);
      && r.sid == statement.sid && r.effect == statement.effect && r.condition == statement.condition
      && HasAction(r, marker.action.value) && HasResource(r, marker.resource.value)
      && (forall i :: 0 <= i < |statement.action| ==> statement.action[i] in r.action)
      && (HasResource(statement, marker.resource.value) ==> r.resources == statement.resources)
  {
  }

  /** Appending an entry twice is the same as appending it once. */
  lemma AppendIdempotent(actions: seq<string>, resources: seq<string>, entry: string)
    ensures WithAction(WithAction(actions, entry), entry) == WithAction(actions, entry)
    ensures WithResource(WithResource(resources, entry), entry) == WithResource(resources, entry)
  {
  }

  /** The replacement example of the marker tests: the wildcard gives way to the first
      concrete resource, and later resources are appended after it. */
  lemma WildcardReplacedExample()
    ensures WithResource(WithResource(["*"], "thisisfake"), "thisisfake2") == ["thisisfake", "thisisfake2"]
  {
    assert WithResource(["*"], "thisisfake") == ["thisisfake"];
    assert "thisisfake2" !in ["thisisfake"];
  }

  /** A statement in a document, updated in place through the pointer `Find` hands out. */
  class StatementRef {
    var sid: string
    var effect: string
    var action: seq<string>
    var resources: seq<string>
    var condition: Option<Conditions.Condition>

    function Value(): Statement
      reads this
    {
      Statement(sid, effect, action, resources, condition)
    }

    constructor (statement: Statement)
      ensures Value() == statement
    {
      sid, effect, action := statement.sid, statement.effect, statement.action;
      resources, condition := statement.resources, statement.condition;
    }

    method AppendAction(newAction: string)
      modifies this
      ensures Value() == old(Value()).(action := WithAction(old(action), newAction))
    {
      // a missing (nil) or empty list both become the single action
      if |action| == 0 {
        action := [newAction];
        return;
      }
      if HasAction(Value(), newAction) {
        return;
      }
      action := action + [newAction];
    }

    method AppendResource(resource: string)
      modifies this
      ensures Value() == old(Value()).(resources := WithResource(old(resources), resource))
    {
      if |resources| == 0 {
        resources := [resource];
        return;
      }
      if |resources| == 1 && HasResource(Value(), DefaultStatementResource) {
        resources := [resource];
      }
      if !HasResource(Value(), resource) {
        resources := resources + [resource];
      }
    }

    method AppendFor(marker: Marker)
      requires marker.action.Some? && marker.resource.Some?
      modifies this
      ensures Value() == AppendedFor(old(Value()), marker)
    {
      AppendAction(marker.action.value);
      AppendResource(marker.resource.value);
    }
  }
}
