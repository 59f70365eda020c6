/** The largest expected output of the generator tests: ten markers of one policy, most of
    them sharing the id `test` or `test1`, end up in six statements `test` to `test5`.  The
    splitting fold produces exactly that document; merging on SID alone could not, since it
    never creates a SID that no marker carries. */
module ExpectedDocument {
  import opened Wrappers
  import opened Markers
  import opened Statements
  import opened Documents
  import opened SplitDocuments

  /** A marker of the policy `test`. */
  function TestMarker(id: string, action: string, effect: string, resource: string): (m: CompleteMarker)
    ensures m.name == Some("test") && m.id == Some(id) && m.action == Some(action)
    ensures m.effect == Some(effect) && m.resource == Some(resource)
    ensures Condition(m).None?
  {
    Marker(Some("test"), Some(id), Some(action), Some(effect), Some(resource), None, None, None, None)
  }

  /** The same, with the condition StringEquals test = test. */
  function TaggedMarker(id: string, action: string): (m: CompleteMarker)
    ensures m.id == Some(id) && m.action == Some(action)
    ensures m.effect == Some("Allow") && m.resource == Some("*")
    ensures Condition(m).Some?
  {
    assert "StringEquals" in Operators.OperatorNames;
    TestMarker(id, action, "Allow", "*").(conditionOperator := Some("StringEquals"),
                                           conditionKey := Some("test"), conditionValue := Some("test"))
  }

  /** Every tagged marker has the same condition, whatever its id and action. */
  lemma TaggedCondition(id: string, action: string)
    ensures Condition(TaggedMarker(id, action)) == Condition(TaggedMarker("test1", "route53:*"))
  {
  }

  /** The ids AdjustID steps through. */
  lemma TestIds()
    ensures AdjustedId("test") == "test1" && AdjustedId("test1") == "test2"
    ensures AdjustedId("test2") == "test3" && AdjustedId("test3") == "test4"
    ensures AdjustedId("test4") == "test5"
  {
    NextTestId0();
    NextTestId1();
    NextTestId2();
    NextTestId3();
    NextTestId4();
  }

  lemma NextTestId0()
    ensures AdjustedId("test") == "test1"
  {
    AdjustedIdSplit("test", "");
    assert "test" + "" == "test";
    assert Strconv.FormatDecimal(1) == "1";
  }

  lemma NextTestId1()
    ensures AdjustedId("test1") == "test2"
  {
    AdjustedIdSplit("test", "1");
    assert "test" + "1" == "test1";
    assert Strconv.DecimalValue("1") == 1;
    assert Strconv.FormatDecimal(2) == "2";
  }

  lemma NextTestId2()
    ensures AdjustedId("test2") == "test3"
  {
    AdjustedIdSplit("test", "2");
    assert "test" + "2" == "test2";
    assert Strconv.DecimalValue("2") == 2;
    assert Strconv.FormatDecimal(3) == "3";
  }

  lemma NextTestId3()
    ensures AdjustedId("test3") == "test4"
  {
    AdjustedIdSplit("test", "3");
    assert "test" + "3" == "test3";
    assert Strconv.DecimalValue("3") == 3;
    assert Strconv.FormatDecimal(4) == "4";
  }

  lemma NextTestId4()
    ensures AdjustedId("test4") == "test5"
  {
    AdjustedIdSplit("test", "4");
    assert "test" + "4" == "test4";
    assert Strconv.DecimalValue("4") == 4;
    assert Strconv.FormatDecimal(5) == "5";
  }

  // The markers of the test, in order.
  const Ec2 := TestMarker("test", "ec2:*", "Allow", "*")
  const S3 := TestMarker("test", "s3:*", "Allow", "*")
  const Sts := TestMarker("test", "sts:*", "Deny", "*")
  const StsFake := TestMarker("test", "sts:*", "Deny", "thisisfake")
  const Iam := TestMarker("test", "iam:*", "Deny", "*")
  const Kms := TestMarker("test1", "kms:*", "Deny", "*")
  const KmsFake := TestMarker("test1", "kms:*", "Allow", "thisisfake")
  const KmsFake2 := TestMarker("test1", "kms:*", "Allow", "thisisfake2")
  const Route53 := TaggedMarker("test1", "route53:*")
  const Rds := TaggedMarker("test1", "rds:*")

  const TestMarkers: seq<CompleteMarker> := [Ec2, S3, Sts, StsFake, Iam, Kms, KmsFake, KmsFake2, Route53, Rds]

  // The statements the test expects.
  const Test := Statement("test", "Allow", ["ec2:*", "s3:*"], ["*"], None)
  const Test1 := Statement("test1", "Deny", ["sts:*", "iam:*", "kms:*"], ["*"], None)
  const Test2 := Statement("test2", "Deny", ["sts:*"], ["thisisfake"], None)
  const Test3 := Statement("test3", "Allow", ["kms:*"], ["thisisfake"], None)
  const Test4 := Statement("test4", "Allow", ["kms:*"], ["thisisfake2"], None)
  const Test5 := Statement("test5", "Allow", ["route53:*", "rds:*"], ["*"], Condition(Route53))

  const Expected := [Test, Test1, Test2, Test3, Test4, Test5]

  // The statements after each marker.
  const AfterSts := [Test, Statement("test1", "Deny", ["sts:*"], ["*"], None)]
  const AfterStsFake := AfterSts + [Test2]
  const AfterIam := [Test, Statement("test1", "Deny", ["sts:*", "iam:*"], ["*"], None), Test2]
  const AfterKms := [Test, Test1, Test2]
  const AfterKmsFake := AfterKms + [Test3]
  const AfterKmsFake2 := AfterKmsFake + [Test4]
  const AfterRoute53 := AfterKmsFake2 + [Statement("test5", "Allow", ["route53:*"], ["*"], Condition(Route53))]

  /** The test's expectation holds for the splitting fold, which grants exactly what the
      markers ask for; the merge-on-SID fold never produces the SID `test2`. */
  lemma GeneratorTestExpected()
    ensures SplitFold(TestMarkers) == Expected
    ensures Faithful(Expected, TestMarkers)
    ensures Fold(TestMarkers) != Expected
  {
    SplitFoldExpected();
    SplitFoldFaithful(TestMarkers);
    MergeMissesTest2();
  }

  lemma SplitFoldExpected()
    ensures SplitFold(TestMarkers) == Expected
  {
    UpTo10();
    assert TestMarkers == [Ec2, S3, Sts, StsFake, Iam, Kms, KmsFake, KmsFake2, Route53, Rds];
  }

  lemma MergeMissesTest2()
    ensures Fold(TestMarkers) != Expected
  {
    NoFoldedSid(TestMarkers, "test2");
    assert Sids(Expected)[2] == "test2";
  }

  // The fold over ever longer prefixes of the markers.
  lemma UpTo2()
    ensures SplitFold([Ec2, S3]) == [Test]
  {
    SplitFoldSnoc([], Ec2);
    SplitFoldSnoc([Ec2], S3);
    assert [] + [Ec2] == [Ec2] && [Ec2] + [S3] == [Ec2, S3];
    StepsEc2S3();
  }

  lemma UpTo3()
    ensures SplitFold([Ec2, S3, Sts]) == AfterSts
  {
    UpTo2();
    SplitFoldSnoc([Ec2, S3], Sts);
    assert [Ec2, S3] + [Sts] == [Ec2, S3, Sts];
    StepSts();
  }

  lemma UpTo4()
    ensures SplitFold([Ec2, S3, Sts, StsFake]) == AfterStsFake
  {
    UpTo3();
    SplitFoldSnoc([Ec2, S3, Sts], StsFake);
    assert [Ec2, S3, Sts] + [StsFake] == [Ec2, S3, Sts, StsFake];
    StepStsFake();
  }

  lemma UpTo5()
    ensures SplitFold([Ec2, S3, Sts, StsFake, Iam]) == AfterIam
  {
    UpTo4();
    SplitFoldSnoc([Ec2, S3, Sts, StsFake], Iam);
    assert [Ec2, S3, Sts, StsFake] + [Iam] == [Ec2, S3, Sts, StsFake, Iam];
    StepIam();
  }

  lemma UpTo6()
    ensures SplitFold([Ec2, S3, Sts, StsFake, Iam, Kms]) == AfterKms
  {
    UpTo5();
    SplitFoldSnoc([Ec2, S3, Sts, StsFake, Iam], Kms);
    assert [Ec2, S3, Sts, StsFake, Iam] + [Kms] == [Ec2, S3, Sts, StsFake, Iam, Kms];
    StepKms();
  }

  lemma UpTo7()
    ensures SplitFold([Ec2, S3, Sts, StsFake, Iam, Kms, KmsFake]) == AfterKmsFake
  {
    UpTo6();
    SplitFoldSnoc([Ec2, S3, Sts, StsFake, Iam, Kms], KmsFake);
    assert [Ec2, S3, Sts, StsFake, Iam, Kms] + [KmsFake] == [Ec2, S3, Sts, StsFake, Iam, Kms, KmsFake];
    StepKmsFake();
  }

  lemma UpTo8()
    ensures SplitFold([Ec2, S3, Sts, StsFake, Iam, Kms, KmsFake, KmsFake2]) == AfterKmsFake2
  {
    UpTo7();
    SplitFoldSnoc([Ec2, S3, Sts, StsFake, Iam, Kms, KmsFake], KmsFake2);
    assert [Ec2, S3, Sts, StsFake, Iam, Kms, KmsFake] + [KmsFake2] == [Ec2, S3, Sts, StsFake, Iam, Kms, KmsFake, KmsFake2];
    StepKmsFake2();
  }

  lemma UpTo9()
    ensures SplitFold([Ec2, S3, Sts, StsFake, Iam, Kms, KmsFake, KmsFake2, Route53]) == AfterRoute53
  {
    UpTo8();
    SplitFoldSnoc([Ec2, S3, Sts, StsFake, Iam, Kms, KmsFake, KmsFake2], Route53);
    assert [Ec2, S3, Sts, StsFake, Iam, Kms, KmsFake, KmsFake2] + [Route53] == [Ec2, S3, Sts, StsFake, Iam, Kms, KmsFake, KmsFake2, Route53];
    StepRoute53();
  }

  lemma UpTo10()
    ensures SplitFold([Ec2, S3, Sts, StsFake, Iam, Kms, KmsFake, KmsFake2, Route53, Rds]) == Expected
  {
    UpTo9();
    SplitFoldSnoc([Ec2, S3, Sts, StsFake, Iam, Kms, KmsFake, KmsFake2, Route53], Rds);
    assert [Ec2, S3, Sts, StsFake, Iam, Kms, KmsFake, KmsFake2, Route53] + [Rds] == [Ec2, S3, Sts, StsFake, Iam, Kms, KmsFake, KmsFake2, Route53, Rds];
    StepRds();
  }

  lemma SplitFoldSnoc(markers: seq<CompleteMarker>, marker: CompleteMarker)
    ensures SplitFold(markers + [marker]) == AddSplit(SplitFold(markers), marker)
  {
    assert (markers + [marker])[..|markers|] == markers;
  }

  /** A SID that no marker carries is not a SID of the merge-on-SID fold. */
  lemma NoFoldedSid(markers: seq<CompleteMarker>, sid: string)
    requires forall k :: 0 <= k < |markers| ==> markers[k].id.value != sid
    ensures sid !in Sids(Fold(markers))
  {
    FoldGroups(markers);
    assert sid !in Ids(markers);
  }

  /** Steps 1 and 2: the first marker opens `test`, the second joins it. */
  lemma StepsEc2S3()
    ensures AddSplit(AddSplit([], Ec2), S3) == [Test]
  {
    assert AddSplit([], Ec2) == [ToStatement(Ec2)];
    FindAt([ToStatement(Ec2)], "test", 0);
    Join([ToStatement(Ec2)], S3, 0);
    assert WithAction(["ec2:*"], "s3:*") == ["ec2:*", "s3:*"];
    assert WithResource(["*"], "*") == ["*"];
  }

  /** Step 3: Deny clashes with `test` and opens `test1`. */
  lemma StepSts()
    ensures AddSplit([Test], Sts) == AfterSts
  {
    NextTestId0();
    ClashAt([Test], Sts, 0);
    assert Find([Test], "test1").None?;
  }

  /** Step 4: Deny on another resource clashes with `test` and `test1` and opens `test2`. */
  lemma StepStsFake()
    ensures AddSplit(AfterSts, StsFake) == AfterStsFake
  {
    StsFakeAt0();
    StsFakeAt1();
    StsFakeOpens();
  }

  lemma StsFakeOpens()
    ensures AddSplit(AfterSts, StsFake.(id := Some("test2"))) == AfterStsFake
  {
    assert Find(AfterSts, "test2").None?;
  }

  lemma StsFakeAt0()
    ensures AddSplit(AfterSts, StsFake) == AddSplit(AfterSts, StsFake.(id := Some("test1")))
  {
    NextTestId0();
    ClashAt(AfterSts, StsFake, 0);
  }

  lemma StsFakeAt1()
    ensures AddSplit(AfterSts, StsFake.(id := Some("test1"))) == AddSplit(AfterSts, StsFake.(id := Some("test2")))
  {
    NextTestId1();
    assert !HasResource(AfterSts[1], "thisisfake");
    ClashAt(AfterSts, StsFake.(id := Some("test1")), 1);
  }

  /** Step 5: Deny iam clashes with `test` and joins `test1`. */
  lemma StepIam()
    ensures AddSplit(AfterStsFake, Iam) == AfterIam
  {
    IamAt0();
    IamJoins();
  }

  lemma IamJoins()
    ensures AddSplit(AfterStsFake, Iam.(id := Some("test1"))) == AfterIam
  {
    var m := Iam.(id := Some("test1"));
    FindAt(AfterStsFake, "test1", 1);
    Join(AfterStsFake, m, 1);
    assert WithAction(["sts:*"], "iam:*") == ["sts:*", "iam:*"];
    assert WithResource(["*"], "*") == ["*"];
  }

  lemma IamAt0()
    ensures AddSplit(AfterStsFake, Iam) == AddSplit(AfterStsFake, Iam.(id := Some("test1")))
  {
    NextTestId0();
    ClashAt(AfterStsFake, Iam, 0);
  }

  /** Step 6: Deny kms with id `test1` joins `test1` directly. */
  lemma StepKms()
    ensures AddSplit(AfterIam, Kms) == AfterKms
  {
    FindAt(AfterIam, "test1", 1);
    Join(AfterIam, Kms, 1);
    assert WithAction(["sts:*", "iam:*"], "kms:*") == ["sts:*", "iam:*", "kms:*"];
    assert WithResource(["*"], "*") == ["*"];
  }

  /** Step 7: Allow kms clashes with the Deny statements `test1` and `test2` and opens `test3`. */
  lemma StepKmsFake()
    ensures AddSplit(AfterKms, KmsFake) == AfterKmsFake
  {
    KmsFakeAt1();
    KmsFakeAt2();
    KmsFakeOpens();
  }

  lemma KmsFakeOpens()
    ensures AddSplit(AfterKms, KmsFake.(id := Some("test3"))) == AfterKmsFake
  {
    assert Find(AfterKms, "test3").None?;
  }

  lemma KmsFakeAt1()
    ensures AddSplit(AfterKms, KmsFake) == AddSplit(AfterKms, KmsFake.(id := Some("test2")))
  {
    NextTestId1();
    ClashAt(AfterKms, KmsFake, 1);
  }

  lemma KmsFakeAt2()
    ensures AddSplit(AfterKms, KmsFake.(id := Some("test2"))) == AddSplit(AfterKms, KmsFake.(id := Some("test3")))
  {
    NextTestId2();
    ClashAt(AfterKms, KmsFake.(id := Some("test2")), 2);
  }

  /** Step 8: Allow kms on thisisfake2 clashes with `test1` to `test3` and opens `test4`. */
  lemma StepKmsFake2()
    ensures AddSplit(AfterKmsFake, KmsFake2) == AfterKmsFake2
  {
    KmsFake2At1();
    KmsFake2At2();
    KmsFake2At3();
    KmsFake2Opens();
  }

  lemma KmsFake2Opens()
    ensures AddSplit(AfterKmsFake, KmsFake2.(id := Some("test4"))) == AfterKmsFake2
  {
    assert Find(AfterKmsFake, "test4").None?;
  }

  lemma KmsFake2At1()
    ensures AddSplit(AfterKmsFake, KmsFake2) == AddSplit(AfterKmsFake, KmsFake2.(id := Some("test2")))
  {
    NextTestId1();
    ClashAt(AfterKmsFake, KmsFake2, 1);
  }

  lemma KmsFake2At2()
    ensures AddSplit(AfterKmsFake, KmsFake2.(id := Some("test2"))) == AddSplit(AfterKmsFake, KmsFake2.(id := Some("test3")))
  {
    NextTestId2();
    ClashAt(AfterKmsFake, KmsFake2.(id := Some("test2")), 2);
  }

  lemma KmsFake2At3()
    ensures AddSplit(AfterKmsFake, KmsFake2.(id := Some("test3"))) == AddSplit(AfterKmsFake, KmsFake2.(id := Some("test4")))
  {
    NextTestId3();
    assert !HasResource(AfterKmsFake[3], "thisisfake2");
    ClashAt(AfterKmsFake, KmsFake2.(id := Some("test3")), 3);
  }

  /** Step 9: the tagged route53 marker clashes with `test1` to `test4` and opens `test5`. */
  lemma StepRoute53()
    ensures AddSplit(AfterKmsFake2, Route53) == AfterRoute53
  {
    Route53At1();
    Route53At2();
    Route53At3();
    Route53At4();
    Route53Opens();
  }

  lemma Route53Opens()
    ensures AddSplit(AfterKmsFake2, Route53.(id := Some("test5"))) == AfterRoute53
  {
    assert Find(AfterKmsFake2, "test5").None?;
    ConditionIgnoresId(Route53, Some("test5"));
  }

  lemma Route53At1()
    ensures AddSplit(AfterKmsFake2, Route53) == AddSplit(AfterKmsFake2, Route53.(id := Some("test2")))
  {
    NextTestId1();
    ConditionIgnoresId(Route53, Some("test1"));
    ClashAt(AfterKmsFake2, Route53, 1);
  }

  lemma Route53At2()
    ensures AddSplit(AfterKmsFake2, Route53.(id := Some("test2"))) == AddSplit(AfterKmsFake2, Route53.(id := Some("test3")))
  {
    NextTestId2();
    ConditionIgnoresId(Route53, Some("test2"));
    ClashAt(AfterKmsFake2, Route53.(id := Some("test2")), 2);
  }

  lemma Route53At3()
    ensures AddSplit(AfterKmsFake2, Route53.(id := Some("test3"))) == AddSplit(AfterKmsFake2, Route53.(id := Some("test4")))
  {
    NextTestId3();
    ConditionIgnoresId(Route53, Some("test3"));
    ClashAt(AfterKmsFake2, Route53.(id := Some("test3")), 3);
  }

  lemma Route53At4()
    ensures AddSplit(AfterKmsFake2, Route53.(id := Some("test4"))) == AddSplit(AfterKmsFake2, Route53.(id := Some("test5")))
  {
    NextTestId4();
    ConditionIgnoresId(Route53, Some("test4"));
    ClashAt(AfterKmsFake2, Route53.(id := Some("test4")), 4);
  }

  /** Step 10: the tagged rds marker clashes with `test1` to `test4` and joins `test5`. */
  lemma StepRds()
    ensures AddSplit(AfterRoute53, Rds) == Expected
  {
    RdsAt1();
    RdsAt2();
    RdsAt3();
    RdsAt4();
    RdsJoins();
  }

  lemma RdsJoins()
    ensures AddSplit(AfterRoute53, Rds.(id := Some("test5"))) == Expected
  {
    var m := Rds.(id := Some("test5"));
    ConditionIgnoresId(Rds, Some("test5"));
    TaggedCondition("test1", "rds:*");
    FindAt(AfterRoute53, "test5", 5);
    Join(AfterRoute53, m, 5);
    assert WithAction(["route53:*"], "rds:*") == ["route53:*", "rds:*"];
    assert WithResource(["*"], "*") == ["*"];
  }

  lemma RdsAt1()
    ensures AddSplit(AfterRoute53, Rds) == AddSplit(AfterRoute53, Rds.(id := Some("test2")))
  {
    NextTestId1();
    ConditionIgnoresId(Rds, Some("test1"));
    ClashAt(AfterRoute53, Rds, 1);
  }

  lemma RdsAt2()
    ensures AddSplit(AfterRoute53, Rds.(id := Some("test2"))) == AddSplit(AfterRoute53, Rds.(id := Some("test3")))
  {
    NextTestId2();
    ConditionIgnoresId(Rds, Some("test2"));
    ClashAt(AfterRoute53, Rds.(id := Some("test2")), 2);
  }

  lemma RdsAt3()
    ensures AddSplit(AfterRoute53, Rds.(id := Some("test3"))) == AddSplit(AfterRoute53, Rds.(id := Some("test4")))
  {
    NextTestId3();
    ConditionIgnoresId(Rds, Some("test3"));
    ClashAt(AfterRoute53, Rds.(id := Some("test3")), 3);
  }

  lemma RdsAt4()
    ensures AddSplit(AfterRoute53, Rds.(id := Some("test4"))) == AddSplit(AfterRoute53, Rds.(id := Some("test5")))
  {
    NextTestId4();
    ConditionIgnoresId(Rds, Some("test4"));
    ClashAt(AfterRoute53, Rds.(id := Some("test4")), 4);
  }

  /** Only the condition fields decide a marker's condition. */
  lemma ConditionIgnoresId(m: Marker, id: Option<string>)
    ensures Condition(m.(id := id)) == Condition(m)
  {
  }

  /** Find stops at the first statement carrying the SID. */
  lemma FindAt(statements: seq<Statement>, sid: string, i: nat)
    requires i < |statements| && statements[i].sid == sid
    requires forall j :: 0 <= j < i ==> statements[j].sid != sid
    ensures Find(statements, sid) == Some(i)
  {
  }

  /** A clash at the marker's id sends it on to the adjusted id. */
  lemma ClashAt(statements: seq<Statement>, marker: CompleteMarker, i: nat)
    requires i < |statements| && statements[i].sid == marker.id.value
    requires forall j :: 0 <= j < i ==> statements[j].sid != marker.id.value
    requires !Compatible(statements[i], marker)
    ensures AddSplit(statements, marker) == AddSplit(statements, marker.(id := Some(AdjustedId(marker.id.value))))
  {
    FindAt(statements, marker.id.value, i);
  }

  /** A compatible statement at the marker's id takes the marker in. */
  lemma Join(statements: seq<Statement>, marker: CompleteMarker, i: nat)
    requires Find(statements, marker.id.value) == Some(i) && Compatible(statements[i], marker)
    ensures AddSplit(statements, marker) == statements[i := AppendedFor(statements[i], marker)]
  {
  }
}
