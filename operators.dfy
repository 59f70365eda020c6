/** The closed set of IAM condition operator names (AWS IAM User Guide, "IAM JSON policy
    elements: Condition operators"), and the lookup that recognises them. */
module Operators {

  const StringEqualsOperator := "StringEquals"
  const StringNotEqualsOperator := "StringNotEquals"
  const StringEqualsIgnoreCaseOperator := "StringEqualsIgnoreCase"
  const StringNotEqualsIgnoreCaseOperator := "StringNotEqualsIgnoreCase"
  const StringLikeOperator := "StringLike"
  const StringNotLikeOperator := "StringNotLike"

  const NumericEqualsOperator := "NumericEquals"
  const NumericNotEqualsOperator := "NumericNotEquals"
  const NumericLessThanOperator := "NumericLessThan"
  const NumericLessThanEqualsOperator := "NumericLessThanEquals"
  const NumericGreaterThanOperator := "NumericGreaterThan"
  const NumericGreaterThanEqualsOperator := "NumericGreaterThanEquals"

  const DateEqualsOperator := "DateEquals"
  const DateNotEqualsOperator := "DateNotEquals"
  const DateLessThanOperator := "DateLessThan"
  const DateLessThanEqualsOperator := "DateLessThanEquals"
  const DateGreaterThanOperator := "DateGreaterThan"
  const DateGreaterThanEqualsOperator := "DateGreaterThanEquals"

  const BoolOperator := "Bool"

  const BinaryEqualsOperator := "BinaryEquals"

  const IpAddressOperator := "IpAddress"
  const NotIpAddressOperator := "NotIpAddress"

  const ArnEqualsOperator := "ArnEquals"
  const ArnNotEqualsOperator := "ArnNotEquals"
  const ArnLikeOperator := "ArnLike"
  const ArnNotLikeOperator := "ArnNotLike"

  /** The 26 operator names, in declaration order. */
  const OperatorNames: seq<string> := [
    StringEqualsOperator, StringNotEqualsOperator, StringEqualsIgnoreCaseOperator,
    StringNotEqualsIgnoreCaseOperator, StringLikeOperator, StringNotLikeOperator,
    NumericEqualsOperator, NumericNotEqualsOperator, NumericLessThanOperator,
    NumericLessThanEqualsOperator, NumericGreaterThanOperator, NumericGreaterThanEqualsOperator,
    DateEqualsOperator, DateNotEqualsOperator, DateLessThanOperator,
    DateLessThanEqualsOperator, DateGreaterThanOperator, DateGreaterThanEqualsOperator,
    BoolOperator,
    BinaryEqualsOperator,
    IpAddressOperator, NotIpAddressOperator,
    ArnEqualsOperator, ArnNotEqualsOperator, ArnLikeOperator, ArnNotLikeOperator
  ]

  /** Lookup in the literal name-to-name table; a missing key yields Go's zero string. */
  function ToOperatorString(operator: string): string {
    var table := map[
      StringEqualsOperator := StringEqualsOperator,
      StringNotEqualsOperator := StringNotEqualsOperator,
      StringEqualsIgnoreCaseOperator := StringEqualsIgnoreCaseOperator,
      StringNotEqualsIgnoreCaseOperator := StringNotEqualsIgnoreCaseOperator,
      StringLikeOperator := StringLikeOperator,
      StringNotLikeOperator := StringNotLikeOperator,
      NumericEqualsOperator := NumericEqualsOperator,
      NumericNotEqualsOperator := NumericNotEqualsOperator,
      NumericLessThanOperator := NumericLessThanOperator,
      NumericLessThanEqualsOperator := NumericLessThanEqualsOperator,
      NumericGreaterThanOperator := NumericGreaterThanOperator,
      NumericGreaterThanEqualsOperator := NumericGreaterThanEqualsOperator,
      DateEqualsOperator := DateEqualsOperator,
      DateNotEqualsOperator := DateNotEqualsOperator,
      DateLessThanOperator := DateLessThanOperator,
      DateLessThanEqualsOperator := DateLessThanEqualsOperator,
      DateGreaterThanOperator := DateGreaterThanOperator,
      DateGreaterThanEqualsOperator := DateGreaterThanEqualsOperator,
      BoolOperator := BoolOperator,
      BinaryEqualsOperator := BinaryEqualsOperator,
      IpAddressOperator := IpAddressOperator,
      NotIpAddressOperator := NotIpAddressOperator,
      ArnEqualsOperator := ArnEqualsOperator,
      ArnNotEqualsOperator := ArnNotEqualsOperator,
      ArnLikeOperator := ArnLikeOperator,
      ArnNotLikeOperator := ArnNotLikeOperator
    ];
    if operator in table then table[operator] else ""
  }

  /** The lookup is the identity on the listed names and "" on every other string. */
  lemma ToOperatorStringSpec(operator: string)
    ensures operator in OperatorNames ==> ToOperatorString(operator) == operator
    ensures operator !in OperatorNames ==> ToOperatorString(operator) == ""
  {
    if operator in OperatorNames {
      ListedIdentity(operator);
    } else {
      UnlistedEmpty(operator);
    }
  }

  lemma ListedIdentity(operator: string)
    requires operator in OperatorNames
    ensures ToOperatorString(operator) == operator
  {
  }

  lemma UnlistedEmpty(operator: string)
    requires operator !in OperatorNames
    ensures ToOperatorString(operator) == ""
  {
  }

  /** Recognised exactly when listed. */
  lemma RecognisedIffListed(operator: string)
    ensures ToOperatorString(operator) != "" <==> operator in OperatorNames
  {
    ToOperatorStringSpec(operator);
  }

  /** Applying the lookup twice is applying it once. */
  lemma ToOperatorStringIdempotent(operator: string)
    ensures ToOperatorString(ToOperatorString(operator)) == ToOperatorString(operator)
  {
    ToOperatorStringSpec(operator);
    ToOperatorStringSpec(ToOperatorString(operator));
  }

  /** Matching is case-sensitive. */
  lemma CaseVariantUnrecognised()
    ensures ToOperatorString("stringequals") == ""
    ensures ToOperatorString("StringEquals") == "StringEquals"
  {
    ToOperatorStringSpec("stringequals");
  }

  /** The table has 26 non-empty, pairwise distinct names. */
  lemma OperatorNamesWellFormed()
    ensures |OperatorNames| == 26
    ensures forall i :: 0 <= i < |OperatorNames| ==> OperatorNames[i] != ""
    ensures forall i, j :: 0 <= i < j < |OperatorNames| ==> OperatorNames[i] != OperatorNames[j]
  {
  }
}
