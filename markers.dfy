/** The `aws:iam:policy` marker record: validation, defaulting, statement-id adjustment and
    the documentation column accessors. */
module Markers {
  import opened Wrappers
  import opened Strconv
  import Operators
  import Conditions

  const ValidEffectAllow := "Allow"
  const ValidEffectDeny := "Deny"

  // defaults of a statement built from a marker
  const DefaultStatementEffect := ValidEffectAllow
  const DefaultStatementResource := "*"
  const DefaultStatementId := "Default"

  /** The marker struct as a value; every field is an optional Go `*string`. */
  datatype Marker = Marker(
    name: Option<string>,
    id: Option<string>,
    action: Option<string>,
    effect: Option<string>,
    resource: Option<string>,
    reason: Option<string>,
    conditionOperator: Option<string>,
    conditionKey: Option<string>,
    conditionValue: Option<string>
  )

  const EmptyMarker := Marker(None, None, None, None, None, None, None, None, None)

  /** What `ValidateCondition` reports.  A set-but-unknown operator alongside a missing field
      is reported in the same message as the missing fields. */
  datatype ConditionError =
    | InvalidOperator(operator: string)
    | NotMutuallyInclusive(missingKey: bool, missingValue: bool, missingOperator: bool,
                           unknownOperator: Option<string>)

  datatype MarkerError =
    | MissingName
    | MissingAction
    | InvalidName(name: string)
    | InvalidStatementId(id: string)
    | InvalidEffect(effect: string)
    | InvalidCondition(cause: ConditionError)

  /** Non-nil and non-empty. */
  predicate HasStringValue(value: Option<string>) {
    value.Some? && value.value != ""
  }

  /** `^[a-z0-9_-]{1,64}$` */
  predicate MatchesNameRegex(s: string) {
    1 <= |s| <= 64 &&
    forall i :: 0 <= i < |s| ==> ('a' <= s[i] <= 'z' || '0' <= s[i] <= '9' || s[i] == '_' || s[i] == '-')
  }

  /** `^[a-zA-Z0-9]{1,64}$` */
  predicate MatchesStatementIdRegex(s: string) {
    1 <= |s| <= 64 &&
    forall i :: 0 <= i < |s| ==> ('a' <= s[i] <= 'z' || 'A' <= s[i] <= 'Z' || '0' <= s[i] <= '9')
  }

  /** The condition triple is all-or-nothing, and a complete triple names a listed operator. */
  ghost predicate ConditionWellFormed(m: Marker) {
    var k, v, o := HasStringValue(m.conditionKey), HasStringValue(m.conditionValue),
                   HasStringValue(m.conditionOperator);
    (!k && !v && !o) || (k && v && o && m.conditionOperator.value in Operators.OperatorNames)
  }

  /** Everything `Validate` demands, stated field by field. */
  ghost predicate WellFormed(m: Marker) {
    && HasStringValue(m.name)
    && HasStringValue(m.action)
    && MatchesNameRegex(m.name.value)
    && (m.id.Some? ==> MatchesStatementIdRegex(m.id.value))
    && (m.effect.Some? ==> m.effect.value == ValidEffectAllow || m.effect.value == ValidEffectDeny)
    && ConditionWellFormed(m)
  }

  function ValidateCondition(m: Marker): (r: Outcome<ConditionError>)
    ensures r.Pass? <==> ConditionWellFormed(m)
    ensures r.Fail? && r.error.NotMutuallyInclusive? ==>
      && r.error.missingKey == !HasStringValue(m.conditionKey)
      && r.error.missingValue == !HasStringValue(m.conditionValue)
      && r.error.missingOperator == !HasStringValue(m.conditionOperator)
      && (r.error.unknownOperator.Some? <==>
            HasStringValue(m.conditionOperator) && m.conditionOperator.value !in Operators.OperatorNames)
    ensures r.Fail? && r.error.InvalidOperator? ==>
      HasStringValue(m.conditionKey) && HasStringValue(m.conditionValue) &&
      m.conditionOperator == Some(r.error.operator) && r.error.operator !in Operators.OperatorNames
  {
    var hasKey := HasStringValue(m.conditionKey);
    var hasValue := HasStringValue(m.conditionValue);
    var hasOperator := HasStringValue(m.conditionOperator);
    Operators.RecognisedIffListed(m.conditionOperator.GetOr(""));
    if hasKey == hasValue && hasValue == hasOperator then
      if hasOperator && Operators.ToOperatorString(m.conditionOperator.value) == "" then
        Fail(InvalidOperator(m.conditionOperator.value))
      else
        Pass
    else
      var unknown :=
        if hasOperator && Operators.ToOperatorString(m.conditionOperator.value) == ""
        then Some(m.conditionOperator.value) else None;
      Fail(NotMutuallyInclusive(!hasKey, !hasValue, !hasOperator, unknown))
  }

  /** `nameFirst` stands for Go's unspecified map iteration order, which decides whether the
      name or the action is checked first when both are missing. */
  function Validate(m: Marker, nameFirst: bool): (r: Outcome<MarkerError>)
    ensures r.Pass? <==> WellFormed(m)
    ensures !HasStringValue(m.name) && (nameFirst || HasStringValue(m.action)) ==> r == Fail(MissingName)
    ensures !HasStringValue(m.action) && (!nameFirst || HasStringValue(m.name)) ==> r == Fail(MissingAction)
    ensures r == Fail(MissingName) ==> !HasStringValue(m.name)
    ensures r == Fail(MissingAction) ==> !HasStringValue(m.action)
    ensures r.Fail? && r.error.InvalidName? ==>
      && HasStringValue(m.action)
      && m.name == Some(r.error.name) && r.error.name != "" && !MatchesNameRegex(r.error.name)
    ensures r.Fail? && r.error.InvalidStatementId? ==>
      && HasStringValue(m.name) && HasStringValue(m.action) && MatchesNameRegex(m.name.value)
      && m.id == Some(r.error.id) && !MatchesStatementIdRegex(r.error.id)
    ensures r.Fail? && r.error.InvalidEffect? ==>
      && HasStringValue(m.name) && HasStringValue(m.action) && MatchesNameRegex(m.name.value)
      && (m.id.Some? ==> MatchesStatementIdRegex(m.id.value))
      && m.effect == Some(r.error.effect) && r.error.effect != ValidEffectAllow && r.error.effect != ValidEffectDeny
    ensures r.Fail? && r.error.InvalidCondition? ==>
      && HasStringValue(m.name) && HasStringValue(m.action) && MatchesNameRegex(m.name.value)
      && (m.id.Some? ==> MatchesStatementIdRegex(m.id.value))
      && (m.effect.Some? ==> m.effect.value == ValidEffectAllow || m.effect.value == ValidEffectDeny)
      && ValidateCondition(m) == Fail(r.error.cause)
  {
    if nameFirst && !HasStringValue(m.name) then Fail(MissingName)
    else if !HasStringValue(m.action) then Fail(MissingAction)
    else if !HasStringValue(m.name) then Fail(MissingName)
    else if !MatchesNameRegex(m.name.value) then Fail(InvalidName(m.name.value))
    else if m.id.Some? && !MatchesStatementIdRegex(m.id.value) then Fail(InvalidStatementId(m.id.value))
    else if m.effect.Some? && m.effect.value != ValidEffectAllow && m.effect.value != ValidEffectDeny then
      Fail(InvalidEffect(m.effect.value))
    else
      match ValidateCondition(m)
      case Fail(e) => Fail(InvalidCondition(e))
      case Pass => Pass
  }

  /** Whether a marker passes does not depend on the iteration order; only which of the two
      missing-field errors is reported does. */
  lemma ValidateOrderIrrelevant(m: Marker)
    ensures Validate(m, true).Pass? <==> Validate(m, false).Pass?
    ensures Validate(m, true) != Validate(m, false) ==>
      !HasStringValue(m.name) && !HasStringValue(m.action)
  {
  }

  /** The identifier examples of the marker tests. */
  lemma StatementIdExamples()
    ensures !MatchesStatementIdRegex("test-123")
    ensures !MatchesStatementIdRegex("testtesttesttesttesttesttesttesttesttesttesttesttesttesttesttestt")
    ensures MatchesStatementIdRegex("test") && MatchesStatementIdRegex(DefaultStatementId)
    ensures !MatchesNameRegex("Test-1") && MatchesNameRegex("test")
  {
    assert "test-123"[4] == '-';
    assert "Test-1"[0] == 'T';
  }

  /** The marker with every unset effect, resource and id replaced by its default
      (WithDefault, applied to a value). */
  function Defaulted(m: Marker): Marker {
    m.(effect := Some(m.effect.GetOr(DefaultStatementEffect)),
       resource := Some(m.resource.GetOr(DefaultStatementResource)),
       id := Some(m.id.GetOr(DefaultStatementId)))
  }

  /** The fields `ToStatement` dereferences are all set. */
  predicate Complete(m: Marker) {
    m.id.Some? && m.action.Some? && m.effect.Some? && m.resource.Some?
  }

  /** A marker whose id, action, effect and resource are set: what a statement is built
      from.  Dereferencing an unset one is a nil-pointer panic in Go. */
  type CompleteMarker = m: Marker | Complete(m)
    witness Marker(None, Some(""), Some(""), Some(""), Some(""), None, None, None, None)

  /** Defaulting fills exactly the unset effect, resource and id, keeps every set field, is
      idempotent, keeps a valid marker valid and leaves a valid marker complete. */
  lemma DefaultedSpec(m: Marker)
    ensures Defaulted(m).effect == (if m.effect.None? then Some(ValidEffectAllow) else m.effect)
    ensures Defaulted(m).resource == (if m.resource.None? then Some("*") else m.resource)
    ensures Defaulted(m).id == (if m.id.None? then Some("Default") else m.id)
    ensures Defaulted(m).(effect := m.effect, resource := m.resource, id := m.id) == m
    ensures Defaulted(Defaulted(m)) == Defaulted(m)
    ensures m.effect.Some? && m.resource.Some? && m.id.Some? ==> Defaulted(m) == m
  {
  }

  lemma DefaultedKeepsValid(m: Marker, nameFirst: bool)
    requires Validate(m, nameFirst).Pass?
    ensures Validate(Defaulted(m), nameFirst).Pass?
    ensures Complete(Defaulted(m))
  {
    assert MatchesStatementIdRegex(DefaultStatementId);
  }

  /** The example of the defaulting test: an empty marker gets Allow, `*` and Default. */
  lemma DefaultedEmptyExample()
    ensures Defaulted(EmptyMarker) == EmptyMarker.(effect := Some("Allow"), resource := Some("*"), id := Some("Default"))
  {
  }

  function GetName(m: Marker): (r: string)
    ensures m.name.Some? ==> r == m.name.value
    ensures m.name.None? ==> r == ""
  {
    m.name.GetOr("")
  }

  // -------------------------------------------------------------------------------------
  // Conditions and documentation columns

  /** The marker's condition: built only when key, value and operator are all set, and then
      only for a listed operator. */
  function Condition(m: Marker): (r: Option<Conditions.Condition>)
    ensures r.Some? <==>
      HasStringValue(m.conditionKey) && HasStringValue(m.conditionValue) && HasStringValue(m.conditionOperator)
      && m.conditionOperator.value in Operators.OperatorNames
    ensures r.Some? ==>
      Conditions.Field(r.value, m.conditionOperator.value) == map[m.conditionKey.value := m.conditionValue.value]
  {
    if HasStringValue(m.conditionKey) && HasStringValue(m.conditionValue) && HasStringValue(m.conditionOperator)
    then Conditions.NewCondition(m.conditionKey.value, m.conditionValue.value, m.conditionOperator.value)
    else None
  }

  /** A marker that passed validation has a condition exactly when it names a condition key. */
  lemma ValidConditionPresent(m: Marker, nameFirst: bool)
    requires Validate(m, nameFirst).Pass?
    ensures Condition(m).Some? <==> HasStringValue(m.conditionKey)
  {
  }

  function EffectColumn(m: Marker): (r: string)
    ensures r == if m.effect.Some? then m.effect.value else ValidEffectAllow
  {
    m.effect.GetOr(DefaultStatementEffect)
  }

  function PermissionColumn(m: Marker): (r: string)
    ensures r == if m.action.Some? then m.action.value else ""
  {
    m.action.GetOr("")
  }

  function ResourceColumn(m: Marker): (r: string)
    ensures r == if m.resource.Some? then m.resource.value else "*"
  {
    m.resource.GetOr(DefaultStatementResource)
  }

  function ReasonColumn(m: Marker): (r: string)
    ensures r == if m.reason.Some? then m.reason.value else ""
  {
    m.reason.GetOr("")
  }

  /** `render` is the JSON serialisation `Condition.String` performs with `json.Marshal`. */
  function ConditionColumn(m: Marker, render: Conditions.Condition -> string): (r: string)
    ensures Condition(m).None? ==> r == ""
    ensures Condition(m).Some? ==> r == render(Condition(m).value)
  {
    match Condition(m)
    case Some(c) => render(c)
    case None => ""
  }

  /** The documentation columns read the same before and after defaulting: every accessor
      applies the same default that WithDefault would. */
  lemma ColumnsIgnoreDefaulting(m: Marker, render: Conditions.Condition -> string)
    ensures EffectColumn(Defaulted(m)) == EffectColumn(m)
    ensures ResourceColumn(Defaulted(m)) == ResourceColumn(m)
    ensures PermissionColumn(Defaulted(m)) == PermissionColumn(m)
    ensures ReasonColumn(Defaulted(m)) == ReasonColumn(m)
    ensures ConditionColumn(Defaulted(m), render) == ConditionColumn(m, render)
  {
  }

  // -------------------------------------------------------------------------------------
  // Statement id adjustment

  /** Length of the maximal run of decimal digits at the end of `s`. */
  function TrailingDigitCount(s: string): (k: nat)
    ensures k <= |s|
    ensures k < |s| ==> !IsDigit(s[|s| - k - 1])
  {
    if s == [] || !IsDigit(s[|s| - 1]) then 0 else TrailingDigitCount(s[..|s| - 1]) + 1
  }

  /** The trailing run consists of digits. */
  lemma {:induction false} TrailingRunDigits(s: string)
    ensures AllDigits(s[|s| - TrailingDigitCount(s)..])
  {
    if s != [] && IsDigit(s[|s| - 1]) {
      var k := TrailingDigitCount(s[..|s| - 1]);
      TrailingRunDigits(s[..|s| - 1]);
      assert s[|s| - (k + 1)..] == s[..|s| - 1][|s| - 1 - k..] + [s[|s| - 1]];
    }
  }

  /** The text AdjustID keeps: everything before the trailing digit run, or the whole id when
      it has no non-digit. */
  function IdPrefix(id: string): string {
    var k := TrailingDigitCount(id);
    if k == |id| then id else id[..|id| - k]
  }

  /** The trailing digit run. */
  function IdSuffix(id: string): (s: string)
    ensures AllDigits(s)
  {
    TrailingRunDigits(id);
    id[|id| - TrailingDigitCount(id)..]
  }

  /** The numeric value of the trailing digit run (0 when there is none). */
  function TrailValue(id: string): nat {
    DecimalValue(IdSuffix(id))
  }

  /** The id AdjustID produces: the kept prefix followed by the trailing number plus one. */
  function AdjustedId(id: string): string {
    IdPrefix(id) + FormatDecimal(TrailValue(id) + 1)
  }

  /** A digit run at the end lengthens the trailing run by its own length. */
  lemma {:induction false} TrailingDigitCountAppend(p: string, d: string)
    requires AllDigits(d)
    ensures TrailingDigitCount(p + d) == TrailingDigitCount(p) + |d|
    decreases |d|
  {
    if d == [] {
      assert p + d == p;
    } else {
      var d' := d[..|d| - 1];
      assert (p + d)[..|p + d| - 1] == p + d';
      TrailingDigitCountAppend(p, d');
    }
  }

  /** A digit run starting right after a non-digit (or at the start) is the trailing run. */
  lemma {:induction false} TrailingDigitCountExact(s: string, j: nat)
    requires j <= |s| && AllDigits(s[j..]) && (j == 0 || !IsDigit(s[j - 1]))
    ensures TrailingDigitCount(s) == |s| - j
  {
    assert s == s[..j] + s[j..];
    TrailingDigitCountAppend(s[..j], s[j..]);
  }

  /** Where a backward scan stops decides the prefix and the suffix AdjustID keeps. */
  lemma ScanSplitsId(s: string, j: nat)
    requires j <= |s| && AllDigits(s[j..]) && (j == 0 || !IsDigit(s[j - 1]))
    ensures IdSuffix(s) == s[j..]
    ensures IdPrefix(s) == if j == 0 then s else s[..j]
  {
    TrailingDigitCountExact(s, j);
  }

  lemma ProductNonNegative(a: nat, b: nat)
    ensures a * b >= 0
  {
  }

  /** An all-digit id keeps all its digits and gains the new number after them. */
  lemma AllDigitTrail(p: string, f: string)
    requires AllDigits(p) && AllDigits(f)
    ensures TrailValue(p + f) == DecimalValue(p) * Pow10(|f|) + DecimalValue(f)
    ensures TrailValue(p + f) >= DecimalValue(f)
  {
    DecimalValueAppend(p, f);
    ProductNonNegative(DecimalValue(p), Pow10(|f|));
    ScanSplitsId(p + f, 0);
    assert (p + f)[0..] == p + f;
  }

  /** Every adjustment strictly raises the trailing number, so the ids a retry visits never
      repeat, and the adjusted id always differs from the original. */
  lemma TrailValueIncreases(id: string)
    ensures TrailValue(AdjustedId(id)) > TrailValue(id)
    ensures AdjustedId(id) != id
  {
    var v := TrailValue(id);
    var p, f := IdPrefix(id), FormatDecimal(v + 1);
    assert AdjustedId(id) == p + f;
    FormatDecimalValue(v + 1);
    assert DecimalValue(f) == v + 1;
    if TrailingDigitCount(id) == |id| {
      assert AllDigits(p) by {
        TrailingRunDigits(id);
        assert id[0..] == id;
      }
      AllDigitTrail(p, f);
    } else {
      assert p != [] && !IsDigit(p[|p| - 1]);
      SplitAtTrail(p, f);
    }
  }

  /** The trailing run of a text ending in a non-digit followed by the digits `d` is `d`. */
  lemma SplitAtTrail(p: string, d: string)
    requires p != [] && !IsDigit(p[|p| - 1]) && AllDigits(d)
    ensures TrailingDigitCount(p + d) == |d|
    ensures IdPrefix(p + d) == p && IdSuffix(p + d) == d
  {
    TrailingDigitCountAppend(p, d);
    TrailingDigitCountExact(p, |p|);
    assert (p + d)[..|p + d| - |d|] == p;
    assert (p + d)[|p + d| - |d|..] == d;
  }

  /** When the id has a non-digit, the prefix survives the adjustment, so every retry stays in
      the same family of ids (`test`, `test1`, `test2`, ...). */
  lemma AdjustedIdKeepsPrefix(id: string)
    requires TrailingDigitCount(id) < |id|
    ensures IdPrefix(AdjustedId(id)) == IdPrefix(id)
    ensures IdSuffix(AdjustedId(id)) == FormatDecimal(TrailValue(id) + 1)
  {
    var p, f := IdPrefix(id), FormatDecimal(TrailValue(id) + 1);
    assert p != [] && !IsDigit(p[|p| - 1]);
    assert AdjustedId(id) == p + f;
    SplitAtTrail(p, f);
  }

  /** For an id ending in a non-digit followed by the digits `d`. */
  lemma AdjustedIdSplit(p: string, d: string)
    requires p != [] && !IsDigit(p[|p| - 1]) && AllDigits(d)
    ensures AdjustedId(p + d) == p + FormatDecimal(DecimalValue(d) + 1)
  {
    SplitAtTrail(p, d);
  }

  // The AdjustID examples of the marker tests, and the corner cases of the scan.
  lemma AdjustedIdExampleDefault()
    ensures AdjustedId("Default") == "Default1"
  {
    AdjustedIdSplit("Default", "");
    assert "Default" + "" == "Default";
    assert FormatDecimal(1) == "1";
  }

  lemma AdjustedIdExampleDefault9()
    ensures AdjustedId("Default9") == "Default10"
  {
    AdjustedIdSplit("Default", "9");
    assert "Default" + "9" == "Default9";
    assert DecimalValue("9") == 9;
    assert FormatDecimal(10) == "10";
  }

  lemma AdjustedIdExampleLeadingZero()
    ensures AdjustedId("a09") == "a10"
  {
    AdjustedIdSplit("a", "09");
    assert "a" + "09" == "a09";
    assert DecimalValue("09") == 9 by {
      assert "09"[..1] == "0";
    }
    assert FormatDecimal(10) == "10";
  }

  lemma AdjustedIdExampleAllDigits()
    ensures AdjustedId("123") == "123124"
  {
    assert "123"[..2] == "12" && "12"[..1] == "1" && "1"[..0] == "";
    assert TrailingDigitCount("123") == 3 by {
      assert TrailingDigitCount("1") == 1;
      assert TrailingDigitCount("12") == 2;
    }
    assert IdPrefix("123") == "123";
    assert IdSuffix("123") == "123" by {
      assert "123"[0..] == "123";
    }
    assert DecimalValue("123") == 123 by {
      assert DecimalValue("1") == 1;
      assert DecimalValue("12") == 12;
    }
    assert FormatDecimal(124) == "124" by {
      assert FormatDecimal(1) == "1";
      assert FormatDecimal(12) == "12";
    }
  }

  lemma AdjustedIdExampleEmpty()
    ensures AdjustedId("") == "1"
  {
    assert TrailingDigitCount("") == 0;
    assert IdPrefix("") == "" && IdSuffix("") == "";
    assert TrailValue("") == 0;
    assert FormatDecimal(1) == "1";
    assert AdjustedId("") == IdPrefix("") + FormatDecimal(1);
    assert [] + "1" == "1";
  }

  /** The backward scan of AdjustID: collects the trailing digits into `suffix` and stops
      at the first non-digit, whose position ends `prefix`. */
  method SplitTrailingDigits(current: string) returns (prefix: string, suffix: string)
    ensures AllDigits(suffix)
    ensures prefix == IdPrefix(current) && suffix == IdSuffix(current)
  {
    suffix := "";
    prefix := current;
    var i := |prefix| - 1;
    while i >= 0
      invariant -1 <= i < |current|
      invariant forall k :: i < k < |current| ==> IsDigit(current[k])
      invariant suffix == current[i + 1..] && prefix == current
    {
      if !IsDigit(current[i]) {
        prefix := prefix[..i + 1];
        break;
      }
      suffix := [current[i]] + suffix;
      i := i - 1;
    }
    assert forall k :: 0 <= k < |suffix| ==> suffix[k] == current[i + 1 + k];
    ScanSplitsId(current, i + 1);
  }

  // -------------------------------------------------------------------------------------
  // The marker object

  /** A `*Marker`: the record whose fields WithDefault and AdjustID assign in place. */
  class MarkerRef {
    var name: Option<string>
    var id: Option<string>
    var action: Option<string>
    var effect: Option<string>
    var resource: Option<string>
    var reason: Option<string>
    var conditionOperator: Option<string>
    var conditionKey: Option<string>
    var conditionValue: Option<string>

    /** The record the pointer currently points to (`*marker`). */
    function Value(): Marker
      reads this
    {
      Marker(name, id, action, effect, resource, reason, conditionOperator, conditionKey, conditionValue)
    }

    /** `&m` for a marker value. */
    constructor (m: Marker)
      ensures Value() == m
    {
      name, id, action, effect, resource := m.name, m.id, m.action, m.effect, m.resource;
      reason := m.reason;
      conditionOperator, conditionKey, conditionValue := m.conditionOperator, m.conditionKey, m.conditionValue;
    }

    method WithDefault()
      modifies this
      ensures Value() == Defaulted(old(Value()))
    {
      if effect.None? {
        effect := Some(DefaultStatementEffect);
      }
      if resource.None? {
        resource := Some(DefaultStatementResource);
      }
      if id.None? {
        id := Some(DefaultStatementId);
      }
    }

    /** Splits the id into its prefix and trailing digits, then stores the prefix followed by
        the digits' value plus one. */
    method AdjustID()
      requires id.Some?
      modifies this
      ensures Value() == old(Value()).(id := Some(AdjustedId(old(id.value))))
      ensures id.value != old(id.value)
    {
      var current := id.value;
      var prefix, suffix := SplitTrailingDigits(current);
      var value := DecimalValue(suffix);
      value := value + 1;
      id := Some(prefix + FormatDecimal(value));
      TrailValueIncreases(current);
    }
  }
}
