/** The IAM condition record: one key-to-value table per operator, and its constructor. */
module Conditions {
  import opened Wrappers
  import opened Operators
  import Seqs

  /** Go's `Operator map[string]string`. */
  type OperatorMap = map<string, string>

  /** Go's `Condition` struct, which has one field per operator name.  Entry `i` of `fields`
      is the struct field (and JSON key) named `OperatorNames[i]`; an unset field is the
      empty map. */
  datatype Condition = Condition(fields: seq<OperatorMap>)

  /** The zero condition: every field unset. */
  function Empty(): Condition {
    Condition(seq(|OperatorNames|, i => map[]))
  }

  /** The field whose name is `operator`, or the empty map for a name that is no field. */
  function Field(c: Condition, operator: string): OperatorMap {
    match Seqs.IndexOf(OperatorNames, operator)
    case Some(i) => if i < |c.fields| then c.fields[i] else map[]
    case None => map[]
  }

  /** Lookup in the literal operator-to-condition table: the entry for a listed operator is the
      zero condition with that operator's field set to `{key: value}`; a name outside the
      table gives None (Go's nil). */
  function NewCondition(key: string, value: string, operator: string): (r: Option<Condition>)
    ensures r.Some? <==> operator in OperatorNames
    ensures r.Some? ==> Field(r.value, operator) == map[key := value]
    ensures r.Some? ==> forall other :: other != operator ==> Field(r.value, other) == map[]
  {
    match Seqs.IndexOf(OperatorNames, operator)
    case Some(i) => Some(Empty().(fields := Empty().fields[i := map[key := value]]))
    case None => None
  }

  /** A condition exists exactly for the operators the operator lookup recognises,
      because the two literal tables have the same keys. */
  lemma NewConditionIffRecognised(key: string, value: string, operator: string)
    ensures NewCondition(key, value, operator).Some? <==> ToOperatorString(operator) != ""
  {
    RecognisedIffListed(operator);
  }

  /** `NewCondition("test", "test", "StringEquals")` is `{StringEquals: {"test": "test"}}`. */
  lemma NewConditionExample()
    ensures NewCondition("test", "test", "StringEquals").Some?
    ensures Field(NewCondition("test", "test", "StringEquals").value, "StringEquals") == map["test" := "test"]
    ensures Field(NewCondition("test", "test", "StringEquals").value, "StringLike") == map[]
  {
    assert OperatorNames[0] == "StringEquals";
  }
}
