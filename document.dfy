/** A policy document and the fold that turns markers into its statements, as written: a
    marker either starts a statement or is merged into the statement with its SID. */
module Documents {
  import opened Wrappers
  import Seqs
  import opened Markers
  import opened Statements

  const DefaultVersion := "2012=10-17"

  function Sids(statements: seq<Statement>): (r: seq<string>)
    ensures |r| == |statements|
    ensures forall i :: 0 <= i < |statements| ==> r[i] == statements[i].sid
  {
    seq(|statements|, i requires 0 <= i < |statements| => statements[i].sid)
  }

  /** The statement ids of the markers, in input order. */
  function Ids(markers: seq<CompleteMarker>): (r: seq<string>)
    ensures |r| == |markers|
    ensures forall i :: 0 <= i < |markers| ==> r[i] == markers[i].id.value
  {
    if markers == [] then [] else Ids(markers[..|markers| - 1]) + [markers[|markers| - 1].id.value]
  }

  /** The actions of the markers, in input order. */
  function Actions(markers: seq<CompleteMarker>): (r: seq<string>)
    ensures |r| == |markers|
    ensures forall i :: 0 <= i < |markers| ==> r[i] == markers[i].action.value
  {
    if markers == [] then [] else Actions(markers[..|markers| - 1]) + [markers[|markers| - 1].action.value]
  }

  /** The markers whose statement id is `sid`, in input order. */
  function WithId(markers: seq<CompleteMarker>, sid: string): (r: seq<CompleteMarker>)
    ensures |r| <= |markers|
    ensures forall k :: 0 <= k < |r| ==> r[k].id.value == sid
  {
    if markers == [] then []
    else
      var rest := WithId(markers[..|markers| - 1], sid);
      if markers[|markers| - 1].id.value == sid then rest + [markers[|markers| - 1]] else rest
  }

  // -------------------------------------------------------------------------------------
  // The fold as written

  /** The statements after AddStatementFor with a marker. */
  function AddFor(statements: seq<Statement>, marker: CompleteMarker): seq<Statement>
  {
    if statements == [] then [ToStatement(marker)]
    else
      match Find(statements, marker.id.value)
      case None => statements + [ToStatement(marker)]
      case Some(i) => statements[i := AppendedFor(statements[i], marker)]
  }

  /** The statements NewPolicyDocument builds: the markers added strictly in input order. */
  function Fold(markers: seq<CompleteMarker>): seq<Statement>
  {
    if markers == [] then []
    else AddFor(Fold(markers[..|markers| - 1]), markers[|markers| - 1])
  }

  /** One statement built from a group of markers sharing an id: started by the first, with
      each later one merged into it by AppendFor. */
  function Merge(group: seq<CompleteMarker>): Statement
    requires |group| >= 1
  {
    if |group| == 1 then ToStatement(group[0])
    else AppendedFor(Merge(group[..|group| - 1]), group[|group| - 1])
  }

  /** Adding to an empty document is the not-found case: the marker's statement is the only
      one; a found SID is updated in place with every other statement, and the count, left
      alone. */
  lemma AddForSpec(statements: seq<Statement>, marker: CompleteMarker)
    ensures statements == [] ==> AddFor(statements, marker) == [ToStatement(marker)]
    ensures marker.id.value !in Sids(statements) ==> AddFor(statements, marker) == statements + [ToStatement(marker)]
    ensures marker.id.value in Sids(statements) ==>
      var i := Find(statements, marker.id.value).value;
      && |AddFor(statements, marker)| == |statements|
      && AddFor(statements, marker)[i] == AppendedFor(statements[i], marker)
      && forall j :: 0 <= j < |statements| && j != i ==> AddFor(statements, marker)[j] == statements[j]
  {
  }

  lemma {:induction false} WithIdAbsent(markers: seq<CompleteMarker>, sid: string)
    requires sid !in Ids(markers)
    ensures WithId(markers, sid) == []
  {
    if markers != [] {
      var init := markers[..|markers| - 1];
      assert Ids(markers) == Ids(init) + [markers[|markers| - 1].id.value];
      WithIdAbsent(init, sid);
    }
  }

  lemma {:induction false} WithIdPresent(markers: seq<CompleteMarker>, k: nat)
    requires k < |markers|
    ensures markers[k] in WithId(markers, markers[k].id.value)
  {
    var init := markers[..|markers| - 1];
    if k < |markers| - 1 {
      assert init[k] == markers[k];
      WithIdPresent(init, k);
    }
  }

  lemma WithIdSnoc(markers: seq<CompleteMarker>, marker: CompleteMarker, sid: string)
    ensures WithId(markers + [marker], sid) ==
      if marker.id.value == sid then WithId(markers, sid) + [marker] else WithId(markers, sid)
    ensures Ids(markers + [marker]) == Ids(markers) + [marker.id.value]
  {
    assert (markers + [marker])[..|markers|] == markers;
  }

  /** `statements` are the SID groups of `markers` in first-seen order, each merged from its
      markers in input order. */
  ghost predicate Grouped(markers: seq<CompleteMarker>, statements: seq<Statement>)
  {
    && Sids(statements) == Seqs.Dedup(Ids(markers))
    && forall j :: 0 <= j < |statements| ==>
         |WithId(markers, statements[j].sid)| >= 1 &&
         statements[j] == Merge(WithId(markers, statements[j].sid))
  }

  lemma SidsSnoc(statements: seq<Statement>, statement: Statement)
    ensures Sids(statements + [statement]) == Sids(statements) + [statement.sid]
  {
  }

  lemma SidsUpdate(statements: seq<Statement>, i: nat, statement: Statement)
    requires i < |statements| && statement.sid == statements[i].sid
    ensures Sids(statements[i := statement]) == Sids(statements)
  {
  }

  /** An id missing from the de-duplicated ids is missing from the ids. */
  lemma AbsentFromDedup(ids: seq<string>, id: string)
    requires id !in Seqs.Dedup(ids)
    ensures id !in ids
  {
  }

  /** One statement after a marker with a new id: an old one keeps its group, the new last
      one is the marker's own group. */
  lemma NewIdStatement(init: seq<CompleteMarker>, marker: CompleteMarker, before: seq<Statement>, j: nat)
    requires Grouped(init, before)
    requires Find(before, marker.id.value).None? && j <= |before|
    ensures var after := before + [ToStatement(marker)];
      |WithId(init + [marker], after[j].sid)| >= 1 &&
      after[j] == Merge(WithId(init + [marker], after[j].sid))
  {
    var id := marker.id.value;
    if j < |before| {
      WithIdSnoc(init, marker, before[j].sid);
    } else {
      WithIdSnoc(init, marker, id);
      AbsentFromDedup(Ids(init), id);
      WithIdAbsent(init, id);
      assert WithId(init + [marker], id) == [marker];
    }
  }

  /** A marker with a new id starts the group that goes last. */
  lemma AddForNewId(init: seq<CompleteMarker>, marker: CompleteMarker, before: seq<Statement>)
    requires Grouped(init, before)
    requires Find(before, marker.id.value).None?
    ensures Grouped(init + [marker], AddFor(before, marker))
  {
    NewIdSids(init, marker, before);
    NewIdStatements(init, marker, before);
  }

  lemma NewIdSids(init: seq<CompleteMarker>, marker: CompleteMarker, before: seq<Statement>)
    requires Sids(before) == Seqs.Dedup(Ids(init))
    requires Find(before, marker.id.value).None?
    ensures Sids(AddFor(before, marker)) == Seqs.Dedup(Ids(init + [marker]))
  {
    var id := marker.id.value;
    assert AddFor(before, marker) == before + [ToStatement(marker)];
    WithIdSnoc(init, marker, id);
    Seqs.DedupSnoc(Ids(init), id);
    SidsSnoc(before, ToStatement(marker));
  }

  lemma NewIdStatements(init: seq<CompleteMarker>, marker: CompleteMarker, before: seq<Statement>)
    requires Grouped(init, before)
    requires Find(before, marker.id.value).None?
    ensures var after := AddFor(before, marker);
      forall j :: 0 <= j < |after| ==>
        |WithId(init + [marker], after[j].sid)| >= 1 && after[j] == Merge(WithId(init + [marker], after[j].sid))
  {
    assert AddFor(before, marker) == before + [ToStatement(marker)];
    forall j | 0 <= j <= |before|
      ensures var after := before + [ToStatement(marker)];
        |WithId(init + [marker], after[j].sid)| >= 1 && after[j] == Merge(WithId(init + [marker], after[j].sid))
    {
      NewIdStatement(init, marker, before, j);
    }
  }

  lemma MergeSnoc(group: seq<CompleteMarker>, marker: CompleteMarker)
    requires |group| >= 1
    ensures Merge(group + [marker]) == AppendedFor(Merge(group), marker)
  {
    assert (group + [marker])[..|group|] == group;
  }

  /** The statement a marker is merged into is its group with the marker appended. */
  lemma KnownIdStatement(init: seq<CompleteMarker>, marker: CompleteMarker, statement: Statement)
    requires statement.sid == marker.id.value
    requires |WithId(init, statement.sid)| >= 1 && statement == Merge(WithId(init, statement.sid))
    ensures |WithId(init + [marker], statement.sid)| >= 1
    ensures AppendedFor(statement, marker) == Merge(WithId(init + [marker], statement.sid))
  {
    WithIdSnoc(init, marker, statement.sid);
    MergeSnoc(WithId(init, statement.sid), marker);
  }

  /** A marker with a known id is merged into its group's statement. */
  lemma AddForKnownId(init: seq<CompleteMarker>, marker: CompleteMarker, before: seq<Statement>, i: nat)
    requires Grouped(init, before)
    requires before != [] && Find(before, marker.id.value) == Some(i)
    ensures Grouped(init + [marker], AddFor(before, marker))
  {
    KnownIdSids(init, marker, before, i);
    KnownIdStatements(init, marker, before, i);
  }

  lemma KnownIdSids(init: seq<CompleteMarker>, marker: CompleteMarker, before: seq<Statement>, i: nat)
    requires Sids(before) == Seqs.Dedup(Ids(init))
    requires before != [] && Find(before, marker.id.value) == Some(i)
    ensures Sids(AddFor(before, marker)) == Seqs.Dedup(Ids(init + [marker]))
  {
    var id := marker.id.value;
    assert AddFor(before, marker) == before[i := AppendedFor(before[i], marker)];
    WithIdSnoc(init, marker, id);
    Seqs.DedupSnoc(Ids(init), id);
    assert Sids(before)[i] == id;
    SidsUpdate(before, i, AppendedFor(before[i], marker));
  }

  lemma KnownIdStatements(init: seq<CompleteMarker>, marker: CompleteMarker, before: seq<Statement>, i: nat)
    requires Grouped(init, before)
    requires before != [] && Find(before, marker.id.value) == Some(i)
    ensures var after := AddFor(before, marker);
      forall j :: 0 <= j < |after| ==>
        |WithId(init + [marker], after[j].sid)| >= 1 && after[j] == Merge(WithId(init + [marker], after[j].sid))
  {
    assert |AddFor(before, marker)| == |before|;
    forall j | 0 <= j < |before|
      ensures var after := AddFor(before, marker);
        |WithId(init + [marker], after[j].sid)| >= 1 && after[j] == Merge(WithId(init + [marker], after[j].sid))
    {
      WithIdSnoc(init, marker, before[j].sid);
      if j == i {
        KnownIdStatement(init, marker, before[i]);
      } else {
        assert Sids(before)[j] != Sids(before)[i];
      }
    }
  }

  /** The central fact about the fold: its statements are the SID groups of the markers in
      first-seen order, each merged from its markers in input order. */
  lemma {:induction false} FoldGroups(markers: seq<CompleteMarker>)
    ensures Grouped(markers, Fold(markers))
  {
    if markers != [] {
      var init, marker := markers[..|markers| - 1], markers[|markers| - 1];
      assert markers == init + [marker];
      FoldGroups(init);
      var before := Fold(init);
      if before == [] {
        AddForNewId(init, marker, before);
      } else {
        match Find(before, marker.id.value)
        case None => AddForNewId(init, marker, before);
        case Some(i) => AddForKnownId(init, marker, before, i);
      }
    }
  }

  /** Statement ids are pairwise distinct and appear in the order their markers first do. */
  lemma FoldSidsDistinct(markers: seq<CompleteMarker>)
    ensures Seqs.Distinct(Sids(Fold(markers)))
    ensures |Fold(markers)| <= |markers|
    ensures forall k :: 0 <= k < |markers| ==> markers[k].id.value in Sids(Fold(markers))
  {
    FoldGroups(markers);
    assert forall k :: 0 <= k < |markers| ==> Ids(markers)[k] == markers[k].id.value;
    DedupShorter(Ids(markers));
  }

  lemma {:induction false} DedupShorter(s: seq<string>)
    ensures |Seqs.Dedup(s)| <= |s|
  {
    if s != [] {
      DedupShorter(s[..|s| - 1]);
    }
  }

  /** A merged group keeps the first marker's SID, effect and condition. */
  lemma {:induction false} MergeHeader(group: seq<CompleteMarker>)
    requires |group| >= 1
    ensures Merge(group).sid == group[0].id.value
    ensures Merge(group).effect == group[0].effect.value
    ensures Merge(group).condition == Condition(group[0])
  {
    if |group| > 1 {
      var init := group[..|group| - 1];
      MergeHeader(init);
      assert init[0] == group[0];
    }
  }

  /** A merged group lists every action of the group once, in first-occurrence order. */
  lemma {:induction false} MergeActions(group: seq<CompleteMarker>)
    requires |group| >= 1
    ensures Merge(group).action == Seqs.Dedup(Actions(group))
  {
    var last := group[|group| - 1];
    if |group| == 1 {
      assert Actions(group) == [] + [last.action.value];
      Seqs.DedupSnoc([], last.action.value);
    } else {
      var init := group[..|group| - 1];
      MergeActions(init);
      assert Actions(group) == Actions(init) + [last.action.value];
      Seqs.DedupSnoc(Actions(init), last.action.value);
    }
  }

  /** A merged group keeps each resource once and every concrete resource of the group; only
      a wildcard that stood alone can be dropped. */
  lemma {:induction false} MergeResources(group: seq<CompleteMarker>)
    requires |group| >= 1
    ensures Seqs.Distinct(Merge(group).resources)
    ensures forall k :: 0 <= k < |group| && group[k].resource.value != DefaultStatementResource ==>
      group[k].resource.value in Merge(group).resources
  {
    if |group| > 1 {
      var init := group[..|group| - 1];
      MergeResources(init);
      var before := Merge(init).resources;
      forall k | 0 <= k < |group| && group[k].resource.value != DefaultStatementResource
        ensures group[k].resource.value in Merge(group).resources
      {
        if k < |group| - 1 {
          assert init[k] == group[k];
          assert group[k].resource.value in before;
        }
      }
    }
  }

  /** The statement of each SID holds exactly the actions of the markers with that id, in
      first-occurrence order, under the effect and condition of the first such marker. */
  lemma FoldStatement(markers: seq<CompleteMarker>, j: nat)
    requires j < |Fold(markers)|
    ensures var s, group := Fold(markers)[j], WithId(markers, Fold(markers)[j].sid);
      && |group| >= 1
      && (forall k :: 0 <= k < |group| ==> group[k].id.value == s.sid)
      && s.effect == group[0].effect.value
      && s.condition == Condition(group[0])
      && s.action == Seqs.Dedup(Actions(group))
      && forall k :: 0 <= k < |group| && group[k].resource.value != DefaultStatementResource ==>
           group[k].resource.value in s.resources
  {
    FoldGroups(markers);
    var s := Fold(markers)[j];
    var group := WithId(markers, s.sid);
    MergeHeader(group);
    MergeActions(group);
    MergeResources(group);
  }

  /** Every folded marker's action is granted by the statement whose SID is the marker's id. */
  lemma FoldCoversActions(markers: seq<CompleteMarker>, k: nat)
    requires k < |markers|
    ensures var j := Find(Fold(markers), markers[k].id.value);
      j.Some? && markers[k].action.value in Fold(markers)[j.value].action
  {
    var F := Fold(markers);
    var id := markers[k].id.value;
    assert Find(F, id).Some? by {
      FoldSidsDistinct(markers);
    }
    var j := Find(F, id).value;
    var group := WithId(markers, id);
    assert F[j].action == Seqs.Dedup(Actions(group)) by {
      FoldStatement(markers, j);
    }
    WithIdPresent(markers, k);
    var g :| 0 <= g < |group| && group[g] == markers[k];
    assert Actions(group)[g] == markers[k].action.value;
  }

  // -------------------------------------------------------------------------------------
  // The document object

  /** A policy document: a version and the statements, which AddStatementFor appends to or
      updates in place. */
  class PolicyDocument {
    var version: string
    var statements: seq<StatementRef>

    /** Each statement is a distinct slot. */
    ghost predicate Valid()
      reads this
    {
      forall i, j :: 0 <= i < j < |statements| ==> statements[i] != statements[j]
    }

    /** The statement values currently in the document. */
    function Contents(): (r: seq<Statement>)
      reads this, statements
      ensures |r| == |statements|
      ensures forall i :: 0 <= i < |statements| ==> r[i] == statements[i].Value()
    {
      seq(|statements|, i reads this, statements requires 0 <= i < |statements| => statements[i].Value())
    }

    constructor ()
      ensures Valid() && version == DefaultVersion && statements == []
    {
      version := DefaultVersion;
      statements := [];
    }

    method AddStatementFor(marker: CompleteMarker)
      requires Valid()
      modifies this, statements
      ensures Valid() && version == old(version)
      ensures Contents() == AddFor(old(Contents()), marker)
      ensures forall i :: 0 <= i < |statements| ==> statements[i] in old(statements) || fresh(statements[i])
    {
      if |statements| == 0 {
        var statement := new StatementRef(ToStatement(marker));
        statements := [statement];
        return;
      }
      var found := Find(Contents(), marker.id.value);
      if found.None? {
        var statement := new StatementRef(ToStatement(marker));
        statements := statements + [statement];
        return;
      }
      var statement := statements[found.value];
      statement.AppendFor(marker);
      assert forall j :: 0 <= j < |statements| && j != found.value ==> statements[j] != statement;
    }
  }

  method NewPolicyDocument(markers: seq<CompleteMarker>) returns (document: PolicyDocument)
    ensures fresh(document) && document.Valid() && document.version == DefaultVersion
    ensures document.Contents() == Fold(markers)
  {
    document := new PolicyDocument();
    for i := 0 to |markers|
      invariant fresh(document) && document.Valid() && document.version == DefaultVersion
      invariant forall j :: 0 <= j < |document.statements| ==> fresh(document.statements[j])
      invariant document.Contents() == Fold(markers[..i])
    {
      document.AddStatementFor(markers[i]);
      assert markers[..i + 1][..i] == markers[..i];
    }
    assert markers[..|markers|] == markers;
  }

  // The fold examples of the marker tests, on defaulted markers.
  lemma FoldSameIdExample()
    ensures var a: CompleteMarker := Marker(Some("test"), Some("test"), Some("ec2:DescribeVpcs"), Some("Allow"), Some("*"), None, None, None, None);
      var b: CompleteMarker := a.(action := Some("iam:DescribePolicy"));
      Fold([a, b]) == [Statement("test", "Allow", ["ec2:DescribeVpcs", "iam:DescribePolicy"], ["*"], None)]
  {
    var a: CompleteMarker := Marker(Some("test"), Some("test"), Some("ec2:DescribeVpcs"), Some("Allow"), Some("*"), None, None, None, None);
    var b: CompleteMarker := a.(action := Some("iam:DescribePolicy"));
    assert [a, b][..1] == [a] && [a][..0] == [];
    var first := [ToStatement(a)];
    assert Fold([a]) == first;
    assert Find(first, "test") == Some(0);
    assert WithAction(["ec2:DescribeVpcs"], "iam:DescribePolicy") == ["ec2:DescribeVpcs", "iam:DescribePolicy"];
    assert WithResource(["*"], "*") == ["*"];
    assert Fold([a, b]) == AddFor(first, b);
  }

  lemma FoldDistinctIdsExample()
    ensures var a: CompleteMarker := Marker(Some("test1"), Some("test"), Some("ec2:DescribeVpcs"), Some("Allow"), Some("*"), None, None, None, None);
      var b: CompleteMarker := a.(id := Some("Default"), action := Some("iam:*"));
      Fold([a, b]) == [Statement("test", "Allow", ["ec2:DescribeVpcs"], ["*"], None), Statement("Default", "Allow", ["iam:*"], ["*"], None)]
  {
    var a: CompleteMarker := Marker(Some("test1"), Some("test"), Some("ec2:DescribeVpcs"), Some("Allow"), Some("*"), None, None, None, None);
    var b: CompleteMarker := a.(id := Some("Default"), action := Some("iam:*"));
    assert [a, b][..1] == [a] && [a][..0] == [];
    var first := [ToStatement(a)];
    assert Fold([a]) == first;
    assert Find(first, "Default") == None;
    assert Fold([a, b]) == AddFor(first, b);
  }
}
