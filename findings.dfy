/** Two markers of the generator tests that share the id `test`: an Allow on ec2 and a Deny on
    sts. AddStatementFor as written merges them into one Allow statement; the splitting rule
    keeps them apart. */
module Findings {
  import opened Wrappers
  import opened Markers
  import opened Statements
  import opened Documents
  import opened SplitDocuments

  const AllowEc2: CompleteMarker :=
    Marker(Some("test"), Some("test"), Some("ec2:*"), Some("Allow"), Some("*"), None, None, None, None)
  const DenySts: CompleteMarker :=
    Marker(Some("test"), Some("test"), Some("sts:*"), Some("Deny"), Some("*"), None, None, None, None)

  /** As written: the Deny marker's action is granted with Allow, which no marker asked for. */
  lemma MergedDenyAsWritten()
    ensures Fold([AllowEc2, DenySts]) == [Statement("test", "Allow", ["ec2:*", "sts:*"], ["*"], None)]
    ensures !Faithful(Fold([AllowEc2, DenySts]), [AllowEc2, DenySts])
  {
    var markers := [AllowEc2, DenySts];
    assert markers[..1] == [AllowEc2];
    assert [AllowEc2][..0] == [];
    var merged := Statement("test", "Allow", ["ec2:*", "sts:*"], ["*"], None);
    var first := [ToStatement(AllowEc2)];
    assert Fold([AllowEc2]) == first;
    assert Find(first, "test") == Some(0);
    assert WithAction(["ec2:*"], "sts:*") == ["ec2:*", "sts:*"];
    assert WithResource(["*"], "*") == ["*"];
    assert AppendedFor(first[0], DenySts) == merged;
    assert Fold(markers) == AddFor(first, DenySts);
    assert !JustifiedBy(merged, "sts:*", markers);
  }

  /** Corrected: the Deny marker moves on to `test1` and gets a statement of its own. */
  lemma SplitDenyCorrected()
    ensures SplitFold([AllowEc2, DenySts]) ==
      [Statement("test", "Allow", ["ec2:*"], ["*"], None), Statement("test1", "Deny", ["sts:*"], ["*"], None)]
    ensures Faithful(SplitFold([AllowEc2, DenySts]), [AllowEc2, DenySts])
  {
    var markers := [AllowEc2, DenySts];
    assert markers[..1] == [AllowEc2];
    assert [AllowEc2][..0] == [];
    var first := [ToStatement(AllowEc2)];
    assert SplitFold([AllowEc2]) == first;
    assert !Compatible(first[0], DenySts);
    assert AdjustedId("test") == "test1" by {
      AdjustedIdSplit("test", "");
      assert "test" + "" == "test";
      assert Strconv.FormatDecimal(1) == "1";
    }
    assert AddSplit(first, DenySts) == AddSplit(first, NextId(DenySts));
    SplitFoldFaithful(markers);
  }
}
