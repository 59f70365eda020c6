/** Turning parsed marker results into validated markers, and markers into documentation
    rows. */
module Processor {
  import opened Wrappers
  import opened Markers

  /** What a parse result decoded a marker annotation into: a marker record, a pointer
      to one, or something else. */
  datatype MarkerObject = ValueObject(record: Marker) | PointerObject(ref: MarkerRef) | OtherObject

  /** A parse result: the annotation's text and the decoded value. */
  datatype ParseResult = ParseResult(markerText: string, parsed: MarkerObject)

  datatype FindError =
    | InvalidType(text: string, position: nat)                         // "invalid marker type"
    | InvalidMarker(text: string, position: nat, cause: MarkerError)   // the error of Validate

  function Pointers(results: seq<ParseResult>): set<MarkerRef> {
    set i | 0 <= i < |results| && results[i].parsed.PointerObject? :: results[i].parsed.ref
  }

  /** The marker record an parsed stands for, if it is a marker at all. */
  function Decoded(parsed: MarkerObject): Option<Marker>
    reads if parsed.PointerObject? then {parsed.ref} else {}
  {
    match parsed
    case ValueObject(m) => Some(m)
    case PointerObject(r) => Some(r.Value())
    case OtherObject => None
  }

  function DecodedAll(results: seq<ParseResult>): (r: seq<Option<Marker>>)
    reads Pointers(results)
    ensures |r| == |results| && forall i :: 0 <= i < |results| ==> r[i] == Decoded(results[i].parsed)
  {
    seq(|results|, i reads Pointers(results) requires 0 <= i < |results| => Decoded(results[i].parsed))
  }

  /** The error for position `i`, if that result is not a valid marker. `nameFirst` stands
      for the unspecified order of Validate's two required-field checks in that call. */
  function ErrorAt(results: seq<ParseResult>, decoded: seq<Option<Marker>>, i: nat, nameFirst: bool): (r: Option<FindError>)
    requires i < |results| == |decoded|
    ensures r.None? <==> decoded[i].Some? && Validate(decoded[i].value, nameFirst).Pass?
    ensures r.Some? ==> r.value.position == i && r.value.text == results[i].markerText
  {
    match decoded[i]
    case None => Some(InvalidType(results[i].markerText, i))
    case Some(m) =>
      match Validate(m, nameFirst)
      case Pass => None
      case Fail(e) => Some(InvalidMarker(results[i].markerText, i, e))
  }

  /** ConvertToMarker: a record is copied behind a new pointer, a pointer is returned as it is. */
  method ConvertToMarker(parsed: MarkerObject) returns (r: Option<MarkerRef>)
    ensures r.None? <==> parsed.OtherObject?
    ensures parsed.PointerObject? ==> r == Some(parsed.ref)
    ensures parsed.ValueObject? ==> r.Some? && fresh(r.value) && r.value.Value() == parsed.record
  {
    match parsed
    case ValueObject(m) =>
      var ref := new MarkerRef(m);
      return Some(ref);
    case PointerObject(ref) =>
      return Some(ref);
    case OtherObject =>
      return None;
  }

  /** Converts and validates each result in order and stops at the first one that is not a
      valid marker, naming its position and text. On success the markers are the decoded
      records, unchanged (in particular not defaulted), each of which passes validation. */
  method FindMarkers(results: seq<ParseResult>, nameFirst: nat -> bool) returns (found: Result<seq<MarkerRef>, FindError>)
    ensures found.Success? <==> forall i :: 0 <= i < |results| ==> old(ErrorAt(results, DecodedAll(results), i, nameFirst(i))).None?
    ensures found.Failure? ==>
      var k := found.error.position;
      && k < |results|
      && (forall i :: 0 <= i < k ==> old(ErrorAt(results, DecodedAll(results), i, nameFirst(i))).None?)
      && Some(found.error) == old(ErrorAt(results, DecodedAll(results), k, nameFirst(k)))
    ensures found.Success? ==>
      && |found.value| == |results|
      && forall i :: 0 <= i < |results| ==>
           && Some(found.value[i].Value()) == old(DecodedAll(results))[i]
           && Validate(found.value[i].Value(), nameFirst(i)).Pass?
           && (results[i].parsed.PointerObject? ==> found.value[i] == results[i].parsed.ref)
           && (results[i].parsed.ValueObject? ==> fresh(found.value[i]))
  {
    ghost var decoded := DecodedAll(results);
    var markers: seq<MarkerRef> := [];
    for i := 0 to |results|
      invariant |markers| == i
      invariant forall j :: 0 <= j < i ==> ErrorAt(results, decoded, j, nameFirst(j)).None?
      invariant forall j :: 0 <= j < i ==>
        && Some(markers[j].Value()) == decoded[j]
        && (results[j].parsed.PointerObject? ==> markers[j] == results[j].parsed.ref)
        && (results[j].parsed.ValueObject? ==> fresh(markers[j]))
    {
      var marker := ConvertToMarker(results[i].parsed);
      if marker.None? {
        assert ErrorAt(results, decoded, i, nameFirst(i)) == Some(InvalidType(results[i].markerText, i));
        return Failure(InvalidType(results[i].markerText, i));
      }
      assert decoded[i] == Some(marker.value.Value());
      var valid := Validate(marker.value.Value(), nameFirst(i));
      if valid.Fail? {
        assert ErrorAt(results, decoded, i, nameFirst(i)) == Some(InvalidMarker(results[i].markerText, i, valid.error));
        return Failure(InvalidMarker(results[i].markerText, i, valid.error));
      }
      markers := markers + [marker.value];
    }
    return Success(markers);
  }

  /** ToDocumentRows: every marker becomes a documentation row, in the same order. */
  method ToDocumentRows(markers: seq<MarkerRef>) returns (rows: seq<MarkerRef>)
    ensures |rows| == |markers| && forall i :: 0 <= i < |markers| ==> rows[i] == markers[i]
  {
    rows := [];
    for i := 0 to |markers|
      invariant |rows| == i
      invariant forall j :: 0 <= j < i ==> rows[j] == markers[j]
    {
      rows := rows + [markers[i]];
    }
  }
}
