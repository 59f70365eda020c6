/** The policy document generator: markers are grouped by output file (one file per marker
    name under the output directory), and each file's markers become one policy document
    once they agree on a single name. */
module Generators {
  import opened Wrappers
  import Seqs
  import opened Markers
  import opened Documents
  import SplitDocuments

  /** A value of the generic marker interface: an AWS marker pointer, or a marker of some
      other kind (the failed `marker.(*Marker)` assertion). */
  datatype PolicyMarker = Aws(ref: MarkerRef) | Other

  datatype GenError =
    | MarkerConvert                                    // ErrMarkerConvert
    | MarkerNameMismatch(first: string, other: string) // "[first/other] - " + ErrMarkerNameMismatch

  // -------------------------------------------------------------------------------------
  // File paths

  /** The output file of a policy: `<directory>/<name>.json`. */
  function PolicyFilePath(directory: string, name: string): string {
    directory + "/" + name + ".json"
  }

  /** Markers share an output file exactly when they share a name. */
  lemma PolicyFilePathInjective(directory: string, a: string, b: string)
    ensures PolicyFilePath(directory, a) == PolicyFilePath(directory, b) <==> a == b
  {
    if PolicyFilePath(directory, a) == PolicyFilePath(directory, b) {
      var p := PolicyFilePath(directory, a);
      assert |a| == |b|;
      assert a == p[|directory| + 1..|directory| + 1 + |a|];
      assert b == PolicyFilePath(directory, b)[|directory| + 1..|directory| + 1 + |b|];
    }
  }

  lemma PolicyFilePathExample()
    ensures PolicyFilePath("test", "test1") == "test/test1.json"
  {
  }

  // -------------------------------------------------------------------------------------
  // Grouping

  /** The items whose key is `key`, in input order. */
  function Select<T>(keys: seq<string>, items: seq<T>, key: string): (r: seq<T>)
    requires |keys| == |items|
    ensures |r| <= |items|
    ensures forall x :: x in r ==> exists i :: 0 <= i < |items| && keys[i] == key && items[i] == x
  {
    if items == [] then []
    else
      var n := |items| - 1;
      Select(keys[..n], items[..n], key) + (if keys[n] == key then [items[n]] else [])
  }

  /** The map the grouping loop builds: each item appended to the list under its key. */
  function GroupBy<T>(keys: seq<string>, items: seq<T>): map<string, seq<T>>
    requires |keys| == |items|
  {
    if items == [] then map[]
    else
      var n := |items| - 1;
      var groups := GroupBy(keys[..n], items[..n]);
      groups[keys[n] := (if keys[n] in groups then groups[keys[n]] else []) + [items[n]]]
  }

  /** The groups are exactly the keys that occur, and each holds the items with that key in
      input order. */
  lemma {:induction false} GroupBySelect<T>(keys: seq<string>, items: seq<T>)
    requires |keys| == |items|
    ensures forall key :: key in GroupBy(keys, items) <==> key in keys
    ensures forall key :: key in GroupBy(keys, items) ==> GroupBy(keys, items)[key] == Select(keys, items, key)
  {
    if items != [] {
      var n := |items| - 1;
      GroupBySelect(keys[..n], items[..n]);
      assert keys == keys[..n] + [keys[n]];
      var groups := GroupBy(keys[..n], items[..n]);
      forall key | key in GroupBy(keys, items)
        ensures GroupBy(keys, items)[key] == Select(keys, items, key)
      {
        if key == keys[n] && key !in groups {
          SelectAbsent(keys[..n], items[..n], key);
        }
      }
    }
  }

  /** Every item lands in the group of its own key. */
  lemma {:induction false} SelectOwnKey<T>(keys: seq<string>, items: seq<T>, i: nat)
    requires |keys| == |items| && i < |items|
    ensures items[i] in Select(keys, items, keys[i])
  {
    var n := |items| - 1;
    if i < n {
      SelectOwnKey(keys[..n], items[..n], i);
    }
  }

  /** The total size of the groups named by `groupKeys`. */
  function SumSizes<T>(groupKeys: seq<string>, keys: seq<string>, items: seq<T>): nat
    requires |keys| == |items|
  {
    if groupKeys == [] then 0
    else |Select(keys, items, groupKeys[0])| + SumSizes(groupKeys[1..], keys, items)
  }

  lemma {:induction false} SumSizesSnocKey<T>(groupKeys: seq<string>, key: string, keys: seq<string>, items: seq<T>)
    requires |keys| == |items|
    ensures SumSizes(groupKeys + [key], keys, items) == SumSizes(groupKeys, keys, items) + |Select(keys, items, key)|
  {
    if groupKeys != [] {
      assert (groupKeys + [key])[1..] == groupKeys[1..] + [key];
      SumSizesSnocKey(groupKeys[1..], key, keys, items);
    }
  }

  /** Appending one item grows exactly the group of its key by one. */
  lemma {:induction false} SumSizesSnocItem<T>(groupKeys: seq<string>, keys: seq<string>, items: seq<T>, key: string, x: T)
    requires |keys| == |items| && Seqs.Distinct(groupKeys)
    ensures SumSizes(groupKeys, keys + [key], items + [x]) ==
      SumSizes(groupKeys, keys, items) + (if key in groupKeys then 1 else 0)
  {
    if groupKeys != [] {
      assert (keys + [key])[..|keys|] == keys && (items + [x])[..|items|] == items;
      assert forall i :: 0 < i < |groupKeys| ==> groupKeys[i] != groupKeys[0];
      SumSizesSnocItem(groupKeys[1..], keys, items, key, x);
    }
  }

  lemma {:induction false} SelectAbsent<T>(keys: seq<string>, items: seq<T>, key: string)
    requires |keys| == |items| && key !in keys
    ensures Select(keys, items, key) == []
  {
    if items != [] {
      var n := |items| - 1;
      assert keys[n] in keys;
      assert forall k :: k in keys[..n] ==> k in keys;
      SelectAbsent(keys[..n], items[..n], key);
    }
  }

  /** Every item lands in exactly one group: the group sizes, taken over the keys in
      first-occurrence order, add up to the number of items. */
  lemma {:induction false} GroupSizes<T>(keys: seq<string>, items: seq<T>)
    requires |keys| == |items|
    ensures SumSizes(Seqs.Dedup(keys), keys, items) == |items|
  {
    if items != [] {
      var n := |items| - 1;
      var ks, xs := keys[..n], items[..n];
      assert keys == ks + [keys[n]] && items == xs + [items[n]];
      GroupSizes(ks, xs);
      Seqs.DedupSnoc(ks, keys[n]);
      var d := Seqs.Dedup(ks);
      SumSizesSnocItem(d, ks, xs, keys[n], items[n]);
      if keys[n] !in d {
        assert keys[n] !in ks;
        SumSizesSnocKey(d, keys[n], keys, items);
        SelectOwnKey(keys, items, n);
        assert Select(keys, items, keys[n]) == Select(ks, xs, keys[n]) + [items[n]];
        SelectAbsent(ks, xs, keys[n]);
      }
    }
  }

  // -------------------------------------------------------------------------------------
  // The markers as seen through the interface

  /** The AWS markers behind the interface values. */
  function Footprint(markers: seq<PolicyMarker>): set<MarkerRef> {
    set i | 0 <= i < |markers| && markers[i].Aws? :: markers[i].ref
  }

  /** The records behind the interface values; None for a marker of another kind. */
  function Values(markers: seq<PolicyMarker>): (r: seq<Option<Marker>>)
    reads Footprint(markers)
    ensures |r| == |markers|
    ensures forall i :: 0 <= i < |markers| ==>
      r[i] == (if markers[i].Aws? then Some(markers[i].ref.Value()) else None)
  {
    seq(|markers|, i reads Footprint(markers) requires 0 <= i < |markers| =>
      if markers[i].Aws? then Some(markers[i].ref.Value()) else None)
  }

  /** The position of the first marker of another kind, or the length. */
  function Stop(markers: seq<PolicyMarker>): (r: nat)
    ensures r <= |markers|
    ensures forall i :: 0 <= i < r ==> markers[i].Aws?
    ensures r < |markers| ==> markers[r].Other?
  {
    if markers == [] || markers[0].Other? then 0 else 1 + Stop(markers[1..])
  }

  function Refs(markers: seq<PolicyMarker>): (r: seq<MarkerRef>)
    requires forall i :: 0 <= i < |markers| ==> markers[i].Aws?
    ensures |r| == |markers| && forall i :: 0 <= i < |markers| ==> r[i] == markers[i].ref
  {
    seq(|markers|, i requires 0 <= i < |markers| => markers[i].ref)
  }

  /** The output file of each marker, from the records' names. */
  function Paths(directory: string, values: seq<Option<Marker>>): (r: seq<string>)
    requires forall i :: 0 <= i < |values| ==> values[i].Some? && values[i].value.name.Some?
    ensures |r| == |values|
    ensures forall i :: 0 <= i < |values| ==> r[i] == PolicyFilePath(directory, values[i].value.name.value)
  {
    seq(|values|, i requires 0 <= i < |values| => PolicyFilePath(directory, values[i].value.name.value))
  }

  /** Each marker's record is its record on entry, defaulted when its pointer occurs among
      the first `n` markers. */
  ghost predicate DefaultedUpTo(markers: seq<PolicyMarker>, entry: seq<Option<Marker>>, n: nat)
    reads Footprint(markers)
  {
    && |entry| == |markers| && n <= |markers|
    && forall j :: 0 <= j < |markers| && markers[j].Aws? ==>
         entry[j].Some? &&
         markers[j].ref.Value() == if markers[j] in markers[..n] then Defaulted(entry[j].value) else entry[j].value
  }

  /** Defaults the n-th marker in place. */
  method DefaultNext(markers: seq<PolicyMarker>, ghost entry: seq<Option<Marker>>, n: nat)
    requires n < |markers| && markers[n].Aws? && DefaultedUpTo(markers, entry, n)
    modifies markers[n].ref
    ensures DefaultedUpTo(markers, entry, n + 1)
    ensures markers[n].ref.Value() == Defaulted(entry[n].value)
    ensures markers[n].ref.name == entry[n].value.name
  {
    var marker := markers[n].ref;
    Step(markers, entry, n);
    marker.WithDefault();
    assert markers[..n + 1] == markers[..n] + [markers[n]];
    forall j | 0 <= j < |markers| && markers[j].Aws?
      ensures markers[j].ref.Value() ==
        if markers[j] in markers[..n + 1] then Defaulted(entry[j].value) else entry[j].value
    {
      if markers[j].ref == marker {
        assert markers[j] == markers[n];
      }
    }
  }

  /** Groups the markers by output file after defaulting each in place. Fails on the first
      marker of another kind, leaving the markers before it defaulted. */
  method ToPolicyMarkerMap(directory: string, markers: seq<PolicyMarker>)
      returns (result: Result<map<string, seq<MarkerRef>>, GenError>)
    requires forall i :: 0 <= i < Stop(markers) ==> markers[i].ref.name.Some?
    modifies Footprint(markers)
    ensures result.Success? <==> Stop(markers) == |markers|
    ensures result.Failure? ==> result.error == MarkerConvert
    ensures forall i :: 0 <= i < |markers| && markers[i].Aws? ==>
      markers[i].ref.Value() ==
        if markers[i] in markers[..Stop(markers)] then Defaulted(old(markers[i].ref.Value()))
        else old(markers[i].ref.Value())
    ensures result.Success? ==>
      result.value == GroupBy(Paths(directory, old(Values(markers))), Refs(markers))
  {
    ghost var entry := Values(markers);
    assert markers[..0] == [];
    var groups: map<string, seq<MarkerRef>> := map[];
    for i := 0 to |markers|
      invariant i <= Stop(markers)
      invariant forall j :: 0 <= j < Stop(markers) ==> entry[j].Some? && entry[j].value.name.Some?
      invariant DefaultedUpTo(markers, entry, i)
      invariant groups == GroupBy(Paths(directory, entry[..i]), Refs(markers[..i]))
    {
      if markers[i].Other? {
        return Failure(MarkerConvert);
      }
      assert i < Stop(markers);
      var marker := markers[i].ref;
      DefaultNext(markers, entry, i);
      var path := PolicyFilePath(directory, marker.name.value);
      assert path == PolicyFilePath(directory, entry[i].value.name.value);
      GroupStep(directory, entry, markers, i);
      assert [] + [marker] == [marker];
      if path !in groups {
        groups := groups[path := [marker]];
        continue;
      }
      if |groups[path]| == 0 {
        assert groups[path] == [];
        groups := groups[path := [marker]];
        continue;
      }
      groups := groups[path := groups[path] + [marker]];
    }
    assert entry[..|markers|] == entry && markers[..|markers|] == markers;
    result := Success(groups);
  }

  /** Before the i-th marker is defaulted, its record is its record on entry, or that record
      defaulted when the same pointer came earlier; either way the name is the original. */
  lemma Step(markers: seq<PolicyMarker>, entry: seq<Option<Marker>>, i: nat)
    requires i < |markers| && |entry| == |markers| && markers[i].Aws? && entry[i].Some?
    ensures Defaulted(Defaulted(entry[i].value)) == Defaulted(entry[i].value)
    ensures Defaulted(entry[i].value).name == entry[i].value.name
  {
    DefaultedSpec(entry[i].value);
  }

  /** One more marker adds its pointer to the group of its file. */
  lemma GroupStep(directory: string, entry: seq<Option<Marker>>, markers: seq<PolicyMarker>, i: nat)
    requires i < |markers| == |entry|
    requires forall j :: 0 <= j <= i ==> markers[j].Aws? && entry[j].Some? && entry[j].value.name.Some?
    ensures var groups := GroupBy(Paths(directory, entry[..i]), Refs(markers[..i]));
      var path := PolicyFilePath(directory, entry[i].value.name.value);
      GroupBy(Paths(directory, entry[..i + 1]), Refs(markers[..i + 1])) ==
        groups[path := (if path in groups then groups[path] else []) + [markers[i].ref]]
  {
    var keys, items := Paths(directory, entry[..i + 1]), Refs(markers[..i + 1]);
    assert keys[..i] == Paths(directory, entry[..i]);
    assert items[..i] == Refs(markers[..i]);
  }

  // -------------------------------------------------------------------------------------
  // Name check

  /** Every name the check dereferences is set: each marker's name up to the first marker
      of another kind or the first mismatch. */
  predicate NamesSet(values: seq<Option<Marker>>, name: string) {
    values == [] || values[0].None? ||
    (values[0].value.name.Some? &&
     var other := values[0].value.name.value;
     (name != "" && name != other) || NamesSet(values[1..], if name != "" then name else other))
  }

  /** The check ToDocument makes before building the document, carrying the first non-empty
      name seen so far: a marker of another kind, or a set name that differs from it, fails;
      otherwise the result is the copied records in order. */
  function CheckNames(values: seq<Option<Marker>>, name: string): (r: Result<seq<Marker>, GenError>)
    requires NamesSet(values, name)
    ensures r.Success? ==> |r.value| == |values| && forall i :: 0 <= i < |values| ==> values[i] == Some(r.value[i])
    ensures r.Failure? && r.error.MarkerNameMismatch? ==> r.error.first != "" && r.error.first != r.error.other
  {
    if values == [] then Success([])
    else if values[0].None? then Failure(MarkerConvert)
    else
      var other := values[0].value.name.value;
      if name != "" && name != other then Failure(MarkerNameMismatch(name, other))
      else match CheckNames(values[1..], if name != "" then name else other)
        case Success(rest) => Success([values[0].value] + rest)
        case Failure(e) => Failure(e)
  }

  /** All non-empty names are equal to each other, and empty ones come only before them. */
  ghost predicate OneName(names: seq<string>) {
    forall i, j :: 0 <= i < j < |names| && names[i] != "" ==> names[j] == names[i]
  }

  function NameList(values: seq<Option<Marker>>): (r: seq<string>)
    requires forall i :: 0 <= i < |values| ==> values[i].Some?
    ensures |r| == |values| && forall i :: 0 <= i < |values| ==> r[i] == GetName(values[i].value)
  {
    seq(|values|, i requires 0 <= i < |values| => GetName(values[i].value))
  }

  lemma OneNameStep(name: string, other: string, rest: seq<string>)
    requires name == "" || name == other
    ensures OneName([name, other] + rest) <==> OneName([if name != "" then name else other] + rest)
  {
    var long, short := [name, other] + rest, [if name != "" then name else other] + rest;
    assert long[1..] == short;
    if OneName(long) {
      forall i, j | 0 <= i < j < |short| && short[i] != ""
        ensures short[j] == short[i]
      {
        assert long[i + 1] == short[i] && long[j + 1] == short[j];
      }
    }
    if OneName(short) {
      forall i, j | 0 <= i < j < |long| && long[i] != ""
        ensures long[j] == long[i]
      {
        if i == 0 {
          assert long[1] == other == short[0];
          if j > 1 {
            assert long[j] == short[j - 1];
          }
        } else {
          assert long[i] == short[i - 1] && long[j] == short[j - 1];
        }
      }
    }
  }

  /** The check passes exactly when every marker is an AWS marker and the markers agree on
      one name (markers with an empty name may precede the first named one). */
  lemma {:induction false} CheckNamesOneName(values: seq<Option<Marker>>, name: string)
    requires NamesSet(values, name)
    ensures CheckNames(values, name).Success? <==>
      (forall i :: 0 <= i < |values| ==> values[i].Some?) && OneName([name] + NameList(values))
  {
    if values != [] && values[0].Some? {
      var other := values[0].value.name.value;
      if name != "" && name != other {
        if forall i :: 0 <= i < |values| ==> values[i].Some? {
          var names := [name] + NameList(values);
          assert names[0] == name && names[1] == other;
          assert !OneName(names);
        }
      } else {
        var next := if name != "" then name else other;
        CheckNamesOneName(values[1..], next);
        var all := forall i :: 0 <= i < |values| ==> values[i].Some?;
        assert all <==> forall i :: 0 <= i < |values[1..]| ==> values[1..][i].Some?;
        if all {
          assert [name] + NameList(values) == [name, other] + NameList(values[1..]);
          OneNameStep(name, other, NameList(values[1..]));
        }
      }
    }
  }

  /** The generator test: markers named `test` and `test2` are refused. */
  lemma CheckNamesMismatchExample(a: Marker, b: Marker)
    requires a.name == Some("test") && b.name == Some("test2")
    ensures CheckNames([Some(a), Some(b)], "") == Failure(MarkerNameMismatch("test", "test2"))
  {
    assert [Some(a), Some(b)][1..] == [Some(b)];
  }

  /** The loop of ToDocument: converts each marker and checks its name against the first
      non-empty one, copying the records into a slice of the same length. */
  method CheckMarkers(markers: seq<PolicyMarker>) returns (result: Result<seq<Marker>, GenError>)
    requires NamesSet(Values(markers), "")
    ensures result == old(CheckNames(Values(markers), ""))
  {
    ghost var entry := Values(markers);
    assert entry[0..] == entry;
    var copies: seq<Marker> := [];
    var name := "";
    assert CheckNames(entry, "").Success? ==> [] + CheckNames(entry, "").value == CheckNames(entry, "").value;
    for i := 0 to |markers|
      invariant NamesSet(entry[i..], name)
      invariant CheckNames(entry, "") == Prefixed(copies, CheckNames(entry[i..], name))
    {
      CheckStep(entry[i..], name);
      assert entry[i..][0] == entry[i] && entry[i..][1..] == entry[i + 1..];
      if markers[i].Other? {
        return Failure(MarkerConvert);
      }
      var marker := markers[i].ref;
      if name != "" {
        if name != marker.name.value {
          return Failure(MarkerNameMismatch(name, marker.name.value));
        }
      } else {
        name := marker.name.value;
      }
      PrefixedSnoc(copies, marker.Value(), CheckNames(entry[i + 1..], name));
      copies := copies + [marker.Value()];
    }
    assert entry[|markers|..] == [];
    assert copies == copies + [];
    return Success(copies);
  }

  /** One step of the check, read off its definition. */
  lemma CheckStep(values: seq<Option<Marker>>, name: string)
    requires values != [] && NamesSet(values, name)
    ensures values[0].None? ==> CheckNames(values, name) == Failure(MarkerConvert)
    ensures values[0].Some? ==> values[0].value.name.Some?
    ensures values[0].Some? && name != "" && name != values[0].value.name.value ==>
      CheckNames(values, name) == Failure(MarkerNameMismatch(name, values[0].value.name.value))
    ensures values[0].Some? && (name == "" || name == values[0].value.name.value) ==>
      var next := if name != "" then name else values[0].value.name.value;
      NamesSet(values[1..], next) &&
      CheckNames(values, name) == Prefixed([values[0].value], CheckNames(values[1..], next))
  {
  }

  /** Checks that the markers are AWS markers sharing one name and builds the document from
      copies of them, in order, with NewPolicyDocument. */
  method ToDocument(markers: seq<PolicyMarker>) returns (result: Result<PolicyDocument, GenError>)
    requires NamesSet(Values(markers), "")
    requires CheckNames(Values(markers), "").Success? ==>
      forall i :: 0 <= i < |markers| && markers[i].Aws? ==> Complete(markers[i].ref.Value())
    ensures result.Failure? <==> old(CheckNames(Values(markers), "")).Failure?
    ensures result.Failure? ==> result.error == old(CheckNames(Values(markers), "")).error
    ensures result.Success? ==>
      && fresh(result.value) && result.value.Valid() && result.value.version == DefaultVersion
      && result.value.Contents() == Fold(old(CompleteCopies(markers)))
  {
    var checked := CheckMarkers(markers);
    if checked.Failure? {
      return Failure(checked.error);
    }
    assert forall i :: 0 <= i < |checked.value| ==> Complete(checked.value[i]);
    var document := NewPolicyDocument(checked.value);
    return Success(document);
  }

  /** The same check as ToDocument, but the document is built with the splitting fold of
      SplitDocuments, which is what the generator tests expect, instead of the merge-on-SID
      fold of NewPolicyDocument that ToDocument uses. */
  method ToDocumentSplit(markers: seq<PolicyMarker>) returns (result: Result<PolicyDocument, GenError>)
    requires NamesSet(Values(markers), "")
    requires CheckNames(Values(markers), "").Success? ==>
      forall i :: 0 <= i < |markers| && markers[i].Aws? ==> Complete(markers[i].ref.Value())
    ensures result.Failure? <==> old(CheckNames(Values(markers), "")).Failure?
    ensures result.Failure? ==> result.error == old(CheckNames(Values(markers), "")).error
    ensures result.Success? ==>
      && fresh(result.value) && result.value.Valid() && result.value.version == DefaultVersion
      && result.value.Contents() == SplitDocuments.SplitFold(old(CompleteCopies(markers)))
  {
    var checked := CheckMarkers(markers);
    if checked.Failure? {
      return Failure(checked.error);
    }
    assert forall i :: 0 <= i < |checked.value| ==> Complete(checked.value[i]);
    var document := SplitDocuments.NewPolicyDocumentSplit(checked.value);
    return Success(document);
  }

  /** The copies a successful check hands to the document builder. */
  function CompleteCopies(markers: seq<PolicyMarker>): (r: seq<CompleteMarker>)
    reads Footprint(markers)
    requires NamesSet(Values(markers), "") && CheckNames(Values(markers), "").Success?
    requires forall i :: 0 <= i < |markers| && markers[i].Aws? ==> Complete(markers[i].ref.Value())
    ensures r == CheckNames(Values(markers), "").value
  {
    var copies := CheckNames(Values(markers), "").value;
    assert forall i :: 0 <= i < |copies| ==> Values(markers)[i] == Some(copies[i]);
    copies
  }

  /** `prefix` put in front of a successful result. */
  function Prefixed(prefix: seq<Marker>, r: Result<seq<Marker>, GenError>): Result<seq<Marker>, GenError> {
    match r
    case Success(rest) => Success(prefix + rest)
    case Failure(e) => Failure(e)
  }

  lemma PrefixedSnoc(prefix: seq<Marker>, m: Marker, r: Result<seq<Marker>, GenError>)
    ensures Prefixed(prefix + [m], r) == Prefixed(prefix, Prefixed([m], r))
  {
    if r.Success? {
      assert prefix + [m] + r.value == prefix + ([m] + r.value);
    }
  }
}
