/** The statement fold the generator tests expect: a marker whose SID is taken by a statement
    with a different effect, resources or condition moves on to the next id (AdjustID) and
    tries again, so no statement ever grants more than some single marker asked for. */
module SplitDocuments {
  import opened Wrappers
  import Seqs
  import opened Markers
  import opened Statements
  import opened Documents

  /** How many statements have a SID whose trailing number is at least `floor`. */
  function CountAtLeast(statements: seq<Statement>, floor: nat): nat {
    if statements == [] then 0
    else (if TrailValue(statements[0].sid) >= floor then 1 else 0) + CountAtLeast(statements[1..], floor)
  }

  lemma {:induction false} CountMonotone(statements: seq<Statement>, low: nat, high: nat)
    requires low <= high
    ensures CountAtLeast(statements, high) <= CountAtLeast(statements, low)
  {
    if statements != [] {
      CountMonotone(statements[1..], low, high);
    }
  }

  /** Raising the floor past a statement's own trailing number stops counting it. */
  lemma {:induction false} CountDrops(statements: seq<Statement>, i: nat, low: nat, high: nat)
    requires i < |statements| && low <= TrailValue(statements[i].sid) < high
    ensures CountAtLeast(statements, high) < CountAtLeast(statements, low)
  {
    if i == 0 {
      CountMonotone(statements[1..], low, high);
    } else {
      CountDrops(statements[1..], i - 1, low, high);
    }
  }

  /** A statement can take the marker without widening what it grants: same effect, the
      marker's resource already listed, and the same condition. */
  predicate Compatible(statement: Statement, marker: CompleteMarker) {
    && HasEffect(statement, marker.effect.value)
    && HasResource(statement, marker.resource.value)
    && statement.condition == Condition(marker)
  }

  /** The marker with its id adjusted once. */
  function NextId(marker: CompleteMarker): (r: CompleteMarker)
    ensures r == marker.(id := Some(AdjustedId(marker.id.value)))
    ensures TrailValue(r.id.value) > TrailValue(marker.id.value)
  {
    TrailValueIncreases(marker.id.value);
    marker.(id := Some(AdjustedId(marker.id.value)))
  }

  /** The statements after adding a marker under the splitting rule. */
  function AddSplit(statements: seq<Statement>, marker: CompleteMarker): seq<Statement>
    decreases CountAtLeast(statements, TrailValue(marker.id.value))
  {
    match Find(statements, marker.id.value)
    case None => statements + [ToStatement(marker)]
    case Some(i) =>
      if Compatible(statements[i], marker) then statements[i := AppendedFor(statements[i], marker)]
      else
        var next := NextId(marker);
        CountDrops(statements, i, TrailValue(marker.id.value), TrailValue(next.id.value));
        AddSplit(statements, next)
  }

  function SplitFold(markers: seq<CompleteMarker>): seq<Statement> {
    if markers == [] then []
    else AddSplit(SplitFold(markers[..|markers| - 1]), markers[|markers| - 1])
  }

  /** The statement grants the marker's action under exactly the marker's effect, resource
      and condition. */
  ghost predicate Grants(statement: Statement, marker: CompleteMarker) {
    && statement.effect == marker.effect.value
    && statement.resources == [marker.resource.value]
    && statement.condition == Condition(marker)
    && marker.action.value in statement.action
  }

  /** `later` is `earlier` with possibly more actions and nothing else changed. */
  ghost predicate Extends(earlier: Statement, later: Statement) {
    && later.sid == earlier.sid
    && later.effect == earlier.effect
    && later.resources == earlier.resources
    && later.condition == earlier.condition
    && forall a :: 0 <= a < |earlier.action| ==> earlier.action[a] in later.action
  }

  /** SIDs distinct and every statement scoped to a single resource. */
  ghost predicate WellShaped(statements: seq<Statement>) {
    && Seqs.Distinct(Sids(statements))
    && forall j :: 0 <= j < |statements| ==> |statements[j].resources| == 1
  }

  /** Some statement grants the marker. */
  ghost predicate GrantedIn(statements: seq<Statement>, marker: CompleteMarker) {
    exists j :: 0 <= j < |statements| && Grants(statements[j], marker)
  }

  /** Some marker asked for `action` under the statement's effect, resource and condition. */
  ghost predicate JustifiedBy(statement: Statement, action: string, markers: seq<CompleteMarker>) {
    exists k :: 0 <= k < |markers| && markers[k].action.value == action && Grants(statement, markers[k])
  }

  /** Every marker is granted by some statement, and every granted action is granted under
      the effect, resource and condition of a marker that asked for it. */
  ghost predicate Faithful(statements: seq<Statement>, markers: seq<CompleteMarker>) {
    && WellShaped(statements)
    && (forall k :: 0 <= k < |markers| ==> GrantedIn(statements, markers[k]))
    && (forall j, action :: 0 <= j < |statements| && action in statements[j].action ==>
          JustifiedBy(statements[j], action, markers))
  }

  /** What one splitting add does: the old statements only gain actions, at most one new
      statement appears, the marker ends up granted, and every action in the result is old
      or is the marker's own, granted as the marker asks. */
  ghost predicate StepSpec(statements: seq<Statement>, marker: CompleteMarker, after: seq<Statement>) {
    && |statements| <= |after| <= |statements| + 1
    && WellShaped(after)
    && (forall j :: 0 <= j < |statements| ==> Extends(statements[j], after[j]))
    && GrantedIn(after, marker)
    && (forall j, action :: 0 <= j < |after| && action in after[j].action ==>
          (j < |statements| && action in statements[j].action) ||
          (action == marker.action.value && Grants(after[j], marker)))
  }

  /** A marker whose id is new becomes a statement of its own, at the end. */
  lemma NewStatementStep(statements: seq<Statement>, marker: CompleteMarker)
    requires WellShaped(statements) && Find(statements, marker.id.value).None?
    ensures StepSpec(statements, marker, statements + [ToStatement(marker)])
  {
    var after := statements + [ToStatement(marker)];
    SidsSnoc(statements, ToStatement(marker));
    assert Grants(after[|statements|], marker);
    assert forall j :: 0 <= j < |statements| ==> after[j] == statements[j];
  }

  /** A compatible statement takes the marker's action and nothing else changes. */
  lemma MergeStep(statements: seq<Statement>, marker: CompleteMarker, i: nat)
    requires WellShaped(statements) && i < |statements| && Compatible(statements[i], marker)
    ensures StepSpec(statements, marker, statements[i := AppendedFor(statements[i], marker)])
  {
    var s := statements[i];
    var merged := AppendedFor(s, marker);
    var after := statements[i := merged];
    SidsUpdate(statements, i, merged);
    assert merged.resources == s.resources == [marker.resource.value];
    assert Grants(after[i], marker);
    assert Extends(s, merged);
  }

  /** The step facts do not depend on the marker's id. */
  lemma StepSpecIgnoresId(statements: seq<Statement>, marker: CompleteMarker, next: CompleteMarker, after: seq<Statement>)
    requires next == marker.(id := next.id) && StepSpec(statements, next, after)
    ensures StepSpec(statements, marker, after)
  {
    assert Condition(next) == Condition(marker);
    var j :| 0 <= j < |after| && Grants(after[j], next);
    assert Grants(after[j], marker);
    forall j, action | 0 <= j < |after| && action in after[j].action && action == next.action.value &&
                       Grants(after[j], next)
      ensures Grants(after[j], marker)
    {
    }
  }

  lemma AddSplitStep(statements: seq<Statement>, marker: CompleteMarker)
    requires WellShaped(statements)
    ensures StepSpec(statements, marker, AddSplit(statements, marker))
    decreases CountAtLeast(statements, TrailValue(marker.id.value))
  {
    match Find(statements, marker.id.value)
    case None =>
      NewStatementStep(statements, marker);
    case Some(i) =>
      if Compatible(statements[i], marker) {
        MergeStep(statements, marker, i);
      } else {
        var next := NextId(marker);
        CountDrops(statements, i, TrailValue(marker.id.value), TrailValue(next.id.value));
        AddSplitStep(statements, next);
        StepSpecIgnoresId(statements, marker, next, AddSplit(statements, next));
      }
  }

  lemma GrantedStays(before: seq<Statement>, marker: CompleteMarker, after: seq<Statement>, covered: CompleteMarker)
    requires StepSpec(before, marker, after) && GrantedIn(before, covered)
    ensures GrantedIn(after, covered)
  {
    var j :| 0 <= j < |before| && Grants(before[j], covered);
    assert Extends(before[j], after[j]);
    assert Grants(after[j], covered);
  }

  lemma JustifiedStays(earlier: Statement, later: Statement, action: string,
                       init: seq<CompleteMarker>, marker: CompleteMarker)
    requires Extends(earlier, later) && JustifiedBy(earlier, action, init)
    ensures JustifiedBy(later, action, init + [marker])
  {
    var k :| 0 <= k < |init| && init[k].action.value == action && Grants(earlier, init[k]);
    assert (init + [marker])[k] == init[k];
    assert Grants(later, init[k]);
  }

  lemma JustifiedNew(statement: Statement, init: seq<CompleteMarker>, marker: CompleteMarker)
    requires Grants(statement, marker)
    ensures JustifiedBy(statement, marker.action.value, init + [marker])
  {
    assert (init + [marker])[|init|] == marker;
  }

  /** One more marker keeps the fold faithful. */
  lemma FaithfulStep(before: seq<Statement>, init: seq<CompleteMarker>, marker: CompleteMarker, after: seq<Statement>)
    requires Faithful(before, init) && StepSpec(before, marker, after)
    ensures Faithful(after, init + [marker])
  {
    var markers := init + [marker];
    forall k | 0 <= k < |markers|
      ensures GrantedIn(after, markers[k])
    {
      if k < |init| {
        assert markers[k] == init[k];
        GrantedStays(before, marker, after, init[k]);
      } else {
        assert markers[k] == marker;
      }
    }
    forall j, action | 0 <= j < |after| && action in after[j].action
      ensures JustifiedBy(after[j], action, markers)
    {
      if j < |before| && action in before[j].action {
        JustifiedStays(before[j], after[j], action, init, marker);
      } else {
        JustifiedNew(after[j], init, marker);
      }
    }
  }

  /** The splitting fold is faithful to its markers: distinct SIDs, one resource per
      statement, every marker granted, and nothing granted that no marker asked for under
      that effect, resource and condition. */
  lemma {:induction false} SplitFoldFaithful(markers: seq<CompleteMarker>)
    ensures Faithful(SplitFold(markers), markers)
  {
    if markers != [] {
      var init, marker := markers[..|markers| - 1], markers[|markers| - 1];
      assert markers == init + [marker];
      SplitFoldFaithful(init);
      var before := SplitFold(init);
      AddSplitStep(before, marker);
      FaithfulStep(before, init, marker, AddSplit(before, marker));
    }
  }

  /** Looks for the slot the marker goes to: while the statement holding the marker's id
      cannot take it, the id is adjusted (AdjustID) and the search repeats. Returns the
      adjusted marker and the index of a compatible statement with its id, or None when no
      statement has that id. */
  method FindSlot(statements: seq<Statement>, marker: CompleteMarker) returns (adjusted: CompleteMarker, found: Option<nat>)
    ensures AddSplit(statements, adjusted) == AddSplit(statements, marker)
    ensures found == Find(statements, adjusted.id.value)
    ensures found.Some? ==> Compatible(statements[found.value], adjusted)
    ensures adjusted == marker.(id := adjusted.id)
  {
    var probe := new MarkerRef(marker);
    adjusted := marker;
    found := Find(statements, marker.id.value);
    while found.Some? && !Compatible(statements[found.value], adjusted)
      invariant probe.Value() == adjusted && adjusted == marker.(id := adjusted.id)
      invariant found == Find(statements, adjusted.id.value)
      invariant AddSplit(statements, adjusted) == AddSplit(statements, marker)
      decreases CountAtLeast(statements, TrailValue(adjusted.id.value))
    {
      var next := NextId(adjusted);
      CountDrops(statements, found.value, TrailValue(adjusted.id.value), TrailValue(next.id.value));
      probe.AdjustID();
      adjusted := next;
      found := Find(statements, adjusted.id.value);
    }
  }

  /** AddStatementFor under the splitting rule: the marker joins a statement only when that
      statement already has its effect, resource and condition; otherwise it moves on to the
      next free or compatible id. */
  method AddStatementForSplit(document: PolicyDocument, marker: CompleteMarker)
    requires document.Valid()
    modifies document, document.statements
    ensures document.Valid() && document.version == old(document.version)
    ensures document.Contents() == AddSplit(old(document.Contents()), marker)
    ensures forall i :: 0 <= i < |document.statements| ==>
      document.statements[i] in old(document.statements) || fresh(document.statements[i])
  {
    var adjusted, found := FindSlot(document.Contents(), marker);
    if found.None? {
      var statement := new StatementRef(ToStatement(adjusted));
      document.statements := document.statements + [statement];
      return;
    }
    var statement := document.statements[found.value];
    statement.AppendFor(adjusted);
    assert forall j :: 0 <= j < |document.statements| && j != found.value ==> document.statements[j] != statement;
  }

  /** NewPolicyDocument under the splitting rule. */
  method NewPolicyDocumentSplit(markers: seq<CompleteMarker>) returns (document: PolicyDocument)
    ensures fresh(document) && document.Valid() && document.version == DefaultVersion
    ensures document.Contents() == SplitFold(markers)
  {
    document := new PolicyDocument();
    for i := 0 to |markers|
      invariant fresh(document) && document.Valid() && document.version == DefaultVersion
      invariant forall j :: 0 <= j < |document.statements| ==> fresh(document.statements[j])
      invariant document.Contents() == SplitFold(markers[..i])
    {
      AddStatementForSplit(document, markers[i]);
      assert markers[..i + 1][..i] == markers[..i];
    }
    assert markers[..|markers|] == markers;
  }
}
