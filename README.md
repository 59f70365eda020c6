# policy-gen: AWS IAM markers to policy documents

policy-gen reads `+policy-gen:aws:iam:policy:...` markers from source comments. Each marker asks
for one IAM permission: a policy `name`, which picks the output file, an `action`, an `effect`,
a `resource`, a statement `id`, an optional reason and an optional condition (key, value and
operator). The tool turns the markers into one IAM policy document per policy name.

This project models the core of that pipeline in Dafny, together with proofs about it:

- **Markers** (`markers.dfy`). `Marker` is the record value. `MarkerRef` is the `*Marker` that
  `WithDefault` and `AdjustID` update in place. The model covers:
  - validation, with its exact error order;
  - defaulting: effect `Allow`, resource `*`, id `Default`;
  - the documentation columns;
  - the condition built from a marker;
  - the trailing-number bump `AdjustID` makes to a statement id, including the backward scan
    loop (`SplitTrailingDigits`).
- **Conditions and operators** (`operators.dfy`, `conditions.dfy`). These cover the literal table
  of the 26 IAM condition operators and the condition that has only the named operator's field
  set.
- **Statements** (`statement.dfy`). `Statement` is the value and `StatementRef` is a slot in the
  document's list. The model covers lookup by SID, the membership tests, and the ordered-set
  appends. `AppendResource` replaces a lone wildcard resource.
- **Documents** (`document.dfy`). This is `PolicyDocument` and `AddStatementFor` as written: a
  marker whose id is already present is merged into that statement, whatever its effect,
  resource or condition. `Fold` is the reference definition, and the lemmas characterise it: one
  statement per distinct id, in first-seen order, whose actions are the de-duplicated actions of
  the markers with that id.
- **Splitting documents** (`split.dfy`). This is the document construction that the generator's
  tests expect. A marker that is incompatible with the statement holding its id gets its id
  bumped with `AdjustID` until it finds a compatible statement or a free id. The result is proved
  *faithful*:
  - SIDs are distinct;
  - every marker's action is granted under that marker's own effect, resource and condition;
  - no action is granted under an effect, resource and condition that no marker asked for.
- **The generator test's expected document** (`expected.dfy`). The ten markers of the largest
  generator test produce, under the splitting fold, exactly the six statements the test expects.
- **Generator** (`generators.dfy`). `ToPolicyMarkerMap` defaults every marker in place and groups
  the markers by output file path. `ToDocument` checks that one name is used throughout and
  builds a document from the copied records with `NewPolicyDocument`, the merge-on-SID fold.
  `ToDocumentSplit` makes the same check and then uses the splitting construction, the corrected
  half of the finding below.
- **File options** (`options.dfy`). `hasOption`.
- **Processor** (`processor.dfy`). `FindMarkers` converts and validates parsed results, stopping
  at the first bad one with its position and text. `ToDocumentRows` copies the markers into rows.
  `ConvertToMarker` comes from the utils package.

Where the code and its own tests disagree, the model follows the code:

- `document.go` merges on SID alone, while the generator tests expect splitting. That is a
  finding (below), and both behaviours are modelled. `Documents.NewPolicyDocument` and
  `Generators.ToDocument` are the code as written. `SplitDocuments.NewPolicyDocumentSplit` and
  `Generators.ToDocumentSplit` are the corrected construction.

Other modelling choices:

- `defaultVersion` is the literal `"2012=10-17"`, kept as written.
- Markers whose id, action, effect or resource is unset would make `ToStatement` dereference
  nil. The model requires those fields to be set (`CompleteMarker`) rather than modelling a
  panic.

## Model

| member | source | states |
|---|---|---|
| Seqs.Contains | internal/pkg/aws/statement.go:41-53 | the linear scan answers true exactly when the element occurs |
| Seqs.IndexOf | internal/pkg/aws/statement.go:24-38 | the index found holds the element and no earlier slot does; none exactly when absent |
| Seqs.Insert | internal/pkg/aws/statement.go:78-99 | ordered-set insert: the element is present afterwards, old elements keep their places, nothing else is added, distinctness is kept |
| Seqs.Dedup | internal/pkg/aws/statement.go:78-99 | distinct, and has exactly the elements of its input |
| Strconv.FormatDecimalValue | internal/pkg/aws/markers.go:243-247 | parsing the decimal text `%d` prints for n gives n back |
| Strconv.DecimalValueAppend | internal/pkg/aws/markers.go:239-243 | the value of a concatenated digit string is the first part's value shifted by the second part's length plus the second part's value |
| Strconv.DecimalValue | internal/pkg/aws/markers.go:239-243 | `strconv.Atoi` on a digit run (0 for the empty run); no contract of its own: FormatDecimalValue makes it the inverse of FormatDecimal and DecimalValueAppend gives its value on a concatenation |
| Strconv.FormatDecimal | internal/pkg/aws/markers.go:243-247 | `%d` of a natural: the text is non-empty and all digits, and FormatDecimalValue parses it back to the number |
| Operators.ToOperatorStringSpec | internal/pkg/aws/conditions/operators.go:53-94 | the lookup returns a listed operator name unchanged and "" for any other string |
| Operators.ListedIdentity | internal/pkg/aws/conditions/operators.go:53-94 | every listed name maps to itself |
| Operators.UnlistedEmpty | internal/pkg/aws/conditions/operators.go:53-94 | an unlisted name maps to "" |
| Operators.RecognisedIffListed | internal/pkg/aws/conditions/operators.go:53-94 | the lookup is non-empty exactly for the listed names |
| Operators.ToOperatorStringIdempotent | internal/pkg/aws/conditions/operators.go:53-94 | looking up a looked-up name changes nothing |
| Operators.CaseVariantUnrecognised | internal/pkg/aws/conditions/operators.go:53-94 | the lookup is case-sensitive: "stringequals" is not recognised, "StringEquals" is |
| Operators.OperatorNamesWellFormed | internal/pkg/aws/conditions/operators.go:7-47 | there are 26 operator names, none empty, all different |
| Conditions.NewCondition | internal/pkg/aws/conditions/conditions.go:53-97 | a condition exists exactly for a listed operator; its field for that operator is {key: value} and every other field is empty |
| Conditions.NewConditionIffRecognised | internal/pkg/aws/conditions/conditions.go:53-97 | NewCondition and ToOperatorString accept the same operators |
| Conditions.NewConditionExample | internal/pkg/aws/conditions/conditions.go:53-97 | StringEquals test=test sets only the StringEquals field |
| Markers.ValidateCondition | internal/pkg/aws/markers.go:266-305 | passes exactly when key, value and operator are all set or all unset and a set operator is listed; the error names each missing part and an unknown operator |
| Markers.HasStringValue | internal/pkg/aws/markers.go:299-305 | set and non-empty; no contract of its own: Validate's ensures use it for the MissingName and MissingAction cases in both directions |
| Markers.MatchesNameRegex | internal/pkg/aws/markers.go:33 | `^[a-z0-9_-]{1,64}$` as a length bound and character class; no contract of its own: StatementIdExamples pins "test" accepted and "Test-1" rejected |
| Markers.MatchesStatementIdRegex | internal/pkg/aws/statement.go:4 | `^[a-zA-Z0-9]{1,64}$` as a length bound and character class; no contract of its own: StatementIdExamples pins "test" and "Default" accepted, "test-123" and a 65-character id rejected |
| Markers.Validate | internal/pkg/aws/markers.go:70-117 | passes exactly when name and action are set, the name matches `^[a-z0-9_-]{1,64}$`, a set id matches `^[a-zA-Z0-9]{1,64}$`, a set effect is Allow or Deny and the condition is well formed; each error is raised only for its own defect, checked in the source's order |
| Markers.ValidateOrderIrrelevant | internal/pkg/aws/markers.go:72-83 | the map iteration order over the two required fields changes the error only when both are missing, and never whether validation passes |
| Markers.StatementIdExamples | internal/pkg/aws/markers_test.go:229-260 | "test-123" and a 65-character id are rejected, "test" and "Default" are accepted; "Test-1" is not a valid name |
| Markers.Defaulted | internal/pkg/aws/markers.go:119-134 | WithDefault on a value; no contract of its own: DefaultedSpec, DefaultedKeepsValid and ColumnsIgnoreDefaulting state what it sets and keeps |
| Markers.DefaultedSpec | internal/pkg/aws/markers.go:119-134 | defaulting sets exactly the unset effect, resource and id to Allow, * and Default, keeps every other field, is idempotent and leaves a fully set marker unchanged |
| Markers.DefaultedKeepsValid | internal/pkg/aws/markers.go:119-134 | a valid marker stays valid after defaulting and has every field a statement needs |
| Markers.DefaultedEmptyExample | internal/pkg/aws/markers_test.go:344-372 | an empty marker gets Allow, * and Default |
| Markers.GetName | internal/pkg/aws/markers.go:138-145 | the name when set, "" otherwise |
| Markers.Condition | internal/pkg/aws/markers.go:158-164 | present exactly when key, value and operator are non-empty and the operator is listed, and then holds {key: value} under that operator |
| Markers.ValidConditionPresent | internal/pkg/aws/markers.go:158-164 | for a valid marker a condition exists exactly when a condition key is given |
| Markers.EffectColumn | internal/pkg/aws/markers.go:168-174 | the effect, or Allow when unset |
| Markers.PermissionColumn | internal/pkg/aws/markers.go:178-184 | the action, or "" when unset |
| Markers.ResourceColumn | internal/pkg/aws/markers.go:188-194 | the resource, or * when unset |
| Markers.ReasonColumn | internal/pkg/aws/markers.go:198-204 | the reason, or "" when unset |
| Markers.ConditionColumn | internal/pkg/aws/markers.go:209-217 | the rendered condition when there is one, "" otherwise |
| Markers.ColumnsIgnoreDefaulting | internal/pkg/aws/markers.go:119-217 | defaulting a marker changes none of its documentation columns |
| Markers.TrailingDigitCount | internal/pkg/aws/markers.go:227-240 | the run length never exceeds the id, and the character before the run is not a digit |
| Markers.TrailingRunDigits | internal/pkg/aws/markers.go:227-240 | the counted run consists of digits only |
| Markers.IdPrefix | internal/pkg/aws/markers.go:227-240 | the text before the trailing digit run, or the whole id when it is all digits; no contract of its own: ScanSplitsId and SplitAtTrail state how it splits an id |
| Markers.IdSuffix | internal/pkg/aws/markers.go:227-240 | the trailing digit run, which consists of digits only |
| Markers.TrailValue | internal/pkg/aws/markers.go:239-243 | the number the trailing digit run parses to; no contract of its own: TrailValueIncreases shows each adjustment raises it |
| Markers.AdjustedId | internal/pkg/aws/markers.go:219-248 | the id AdjustID sets; no contract of its own: TrailValueIncreases, AdjustedIdKeepsPrefix, AdjustedIdSplit and the AdjustedIdExample lemmas state it |
| Markers.TrailingDigitCountAppend | internal/pkg/aws/markers.go:227-240 | appending digits lengthens the trailing run by exactly their number |
| Markers.TrailingDigitCountExact | internal/pkg/aws/markers.go:227-240 | a maximal digit tail has exactly the counted length |
| Markers.ScanSplitsId | internal/pkg/aws/markers.go:227-240 | the split point the scan stops at yields the model's prefix and suffix; an all-digit id keeps the whole id as its prefix |
| Markers.AllDigitTrail | internal/pkg/aws/markers.go:227-244 | for an all-digit id the trailing number is the whole id's value |
| Markers.TrailValueIncreases | internal/pkg/aws/markers.go:219-248 | the adjusted id ends in a strictly larger number, so it always differs from the old id |
| Markers.SplitAtTrail | internal/pkg/aws/markers.go:227-240 | an id made of a non-digit-terminated prefix and digits splits back into exactly those parts |
| Markers.AdjustedIdKeepsPrefix | internal/pkg/aws/markers.go:219-248 | when the id has a non-digit, adjusting keeps the prefix and replaces the suffix by the incremented number |
| Markers.AdjustedIdSplit | internal/pkg/aws/markers.go:219-248 | prefix p and digits d become p followed by the decimal of d's value plus one |
| Markers.AdjustedIdExampleDefault | internal/pkg/aws/markers.go:219-248 | "Default" becomes "Default1" |
| Markers.AdjustedIdExampleDefault9 | internal/pkg/aws/markers.go:219-248 | "Default9" becomes "Default10" |
| Markers.AdjustedIdExampleLeadingZero | internal/pkg/aws/markers.go:219-248 | "a09" becomes "a10": leading zeros are lost |
| Markers.AdjustedIdExampleAllDigits | internal/pkg/aws/markers.go:219-248 | "123" becomes "123124": an all-digit id is never truncated |
| Markers.AdjustedIdExampleEmpty | internal/pkg/aws/markers.go:219-248 | "" becomes "1" |
| Markers.SplitTrailingDigits | internal/pkg/aws/markers.go:221-240 | the backward scan loop returns exactly the model's prefix and all-digit suffix |
| Markers.MarkerRef.constructor | internal/pkg/aws/markers.go:45-56 | the new reference holds the given record |
| Markers.MarkerRef.WithDefault | internal/pkg/aws/markers.go:119-134 | the record becomes the defaulted old record |
| Markers.MarkerRef.AdjustID | internal/pkg/aws/markers.go:219-248 | only the id changes, to the adjusted id, which differs from the old one |
| Statements.ToStatementOfValidMarker | internal/pkg/aws/markers.go:147-155 | a defaulted valid marker becomes a statement with its id, effect, its single action and resource and its condition; the SID is valid, the effect is Allow or Deny, and a condition exists exactly when a key was given |
| Statements.ToStatement | internal/pkg/aws/markers.go:147-155 | the statement of a complete marker; no contract of its own: ToStatementOfValidMarker states it for every valid marker |
| Statements.Find | internal/pkg/aws/statement.go:24-38 | the first statement with the SID; none exactly when no statement has it |
| Statements.HasAction | internal/pkg/aws/statement.go:41-53 | true exactly when the action is listed |
| Statements.HasResource | internal/pkg/aws/statement.go:56-68 | true exactly when the resource is listed |
| Statements.HasEffect | internal/pkg/aws/statement.go:73-75 | the effect comparison; no contract of its own: it is one conjunct of SplitDocuments.Compatible |
| Statements.WithAction | internal/pkg/aws/statement.go:78-99 | an ordered-set insert of the action: present afterwards, distinctness kept |
| Statements.WithResource | internal/pkg/aws/statement.go:102-127 | the resource is present afterwards; a lone * is replaced, a present resource changes nothing, otherwise an ordered-set insert |
| Statements.AppendedForSpec | internal/pkg/aws/statement.go:130-136 | appending a marker keeps SID, effect and condition, adds its action and resource and loses no action |
| Statements.AppendedFor | internal/pkg/aws/statement.go:130-136 | the statement after AppendFor; no contract of its own: AppendedForSpec and AppendIdempotent state it, and StatementRef.AppendFor is proved against it |
| Statements.AppendIdempotent | internal/pkg/aws/statement.go:78-127 | appending the same action or resource twice equals appending it once |
| Statements.WildcardReplacedExample | internal/pkg/aws/markers_test.go:535-600 | * then thisisfake then thisisfake2 gives [thisisfake, thisisfake2] |
| Statements.StatementRef.constructor | internal/pkg/aws/statement.go:13-20 | the new slot holds the given statement |
| Statements.StatementRef.AppendAction | internal/pkg/aws/statement.go:78-99 | only the action list changes, by WithAction |
| Statements.StatementRef.AppendResource | internal/pkg/aws/statement.go:102-127 | only the resource list changes, by WithResource |
| Statements.StatementRef.AppendFor | internal/pkg/aws/statement.go:130-136 | the statement becomes the statement with the marker's action and resource appended |
| Documents.Sids | internal/pkg/aws/statement.go:13-20 | the statements' SIDs in order |
| Documents.WithId | internal/pkg/aws/document.go:26-47 | the markers sharing a SID, all carrying it |
| Documents.AddFor | internal/pkg/aws/document.go:26-47 | the statements after AddStatementFor; no contract of its own: AddForSpec states its three cases and PolicyDocument.AddStatementFor is proved against it |
| Documents.Fold | internal/pkg/aws/document.go:14-22 | the statements NewPolicyDocument builds; no contract of its own: FoldGroups, FoldSidsDistinct, FoldStatement and FoldCoversActions characterise it |
| Documents.Merge | internal/pkg/aws/document.go:26-47 | one statement built from the markers sharing an id; no contract of its own: MergeHeader, MergeActions and MergeResources state its SID, effect, condition, actions and resources |
| Documents.AddForSpec | internal/pkg/aws/document.go:26-47 | an empty document gets the marker's statement; a new id appends one; a known id updates the first statement with that SID in place and nothing else |
| Documents.FoldGroups | internal/pkg/aws/document.go:14-47 | the SIDs are the distinct ids in first-seen order, and each statement is the merge of the markers with its id |
| Documents.FoldSidsDistinct | internal/pkg/aws/document.go:14-47 | SIDs are distinct, there are no more statements than markers, and every marker's id has a statement |
| Documents.MergeHeader | internal/pkg/aws/document.go:26-47 | a merged statement takes its SID, effect and condition from the first marker of its group |
| Documents.MergeActions | internal/pkg/aws/document.go:26-47 | a merged statement's actions are the group's actions de-duplicated in order |
| Documents.MergeResources | internal/pkg/aws/document.go:26-47 | a merged statement's resources are distinct and include every non-wildcard resource of the group |
| Documents.FoldStatement | internal/pkg/aws/document.go:14-47 | each statement is built from the group with its SID: first marker's effect and condition, the de-duplicated actions, every non-wildcard resource |
| Documents.FoldCoversActions | internal/pkg/aws/document.go:14-47 | every marker's action appears in the statement carrying its id |
| Documents.FoldSameIdExample | internal/pkg/aws/markers_test.go:430-459 | two markers with id test give one statement holding both actions |
| Documents.FoldDistinctIdsExample | internal/pkg/aws/markers_test.go:504-528 | markers with ids test and Default give two statements in that order |
| Documents.PolicyDocument.Contents | internal/pkg/aws/document.go:8-11 | the statement values, slot by slot |
| Documents.PolicyDocument.constructor | internal/pkg/aws/document.go:15 | an empty document with the default version |
| Documents.PolicyDocument.AddStatementFor | internal/pkg/aws/document.go:26-47 | the statements become AddFor of the old statements; existing slots are reused and new ones are fresh |
| Documents.NewPolicyDocument | internal/pkg/aws/document.go:14-22 | a fresh document with version "2012=10-17" whose statements are Fold of the markers |
| SplitDocuments.CountMonotone | internal/pkg/aws/generators_test.go:257-402 | raising the floor never counts more statements (the termination measure for the id search) |
| SplitDocuments.CountDrops | internal/pkg/aws/generators_test.go:257-402 | passing a statement's trailing number lowers the count |
| SplitDocuments.Compatible | internal/pkg/aws/generators_test.go:257-402 | same effect, the marker's resource listed, same condition; no contract of its own: MergeStep shows merging a compatible marker widens nothing |
| SplitDocuments.AddSplit | internal/pkg/aws/generators_test.go:257-402 | one splitting add; no contract of its own: AddSplitStep states what every add keeps and grants, and FindSlot is proved against it |
| SplitDocuments.SplitFold | internal/pkg/aws/generators_test.go:257-402 | the splitting fold over all markers in order; no contract of its own: SplitFoldFaithful proves it faithful and GeneratorTestExpected computes it for the generator test |
| SplitDocuments.NextId | internal/pkg/aws/markers.go:219-248 | the marker with its id adjusted once, ending in a larger number |
| SplitDocuments.NewStatementStep | internal/pkg/aws/generators_test.go:257-402 | a marker with a free id added as a new statement meets the one-step specification |
| SplitDocuments.MergeStep | internal/pkg/aws/generators_test.go:257-402 | merging into a compatible statement meets the one-step specification |
| SplitDocuments.StepSpecIgnoresId | internal/pkg/aws/markers.go:219-248 | changing only the id does not change what a step must grant |
| SplitDocuments.AddSplitStep | internal/pkg/aws/generators_test.go:257-402 | every splitting add keeps SIDs distinct and single-resource, only adds actions to old statements, adds at most one statement, and grants the marker |
| SplitDocuments.GrantedStays | internal/pkg/aws/generators_test.go:257-402 | a marker granted before a step is granted after it |
| SplitDocuments.JustifiedStays | internal/pkg/aws/generators_test.go:257-402 | an action justified before a step stays justified |
| SplitDocuments.JustifiedNew | internal/pkg/aws/generators_test.go:257-402 | the action a step adds is justified by the marker that asked for it |
| SplitDocuments.FaithfulStep | internal/pkg/aws/generators_test.go:257-402 | one step keeps the document faithful to the markers seen so far |
| SplitDocuments.SplitFoldFaithful | internal/pkg/aws/generators_test.go:257-402 | the split document is faithful: distinct SIDs, one resource each, every marker granted under its own effect, resource and condition, and every granted action justified by a marker |
| SplitDocuments.FindSlot | internal/pkg/aws/markers.go:219-248 | the AdjustID search loop ends at a compatible statement or a free id, changes only the id, and agrees with AddSplit |
| SplitDocuments.AddStatementForSplit | internal/pkg/aws/generators_test.go:257-402 | the statements become AddSplit of the old statements |
| SplitDocuments.NewPolicyDocumentSplit | internal/pkg/aws/generators_test.go:257-402 | a fresh document with the default version whose statements are SplitFold of the markers |
| Findings.MergedDenyAsWritten | internal/pkg/aws/document.go:26-47 | as written, Allow ec2:* and Deny sts:* with id test merge into one Allow statement, which is not faithful |
| Findings.SplitDenyCorrected | internal/pkg/aws/generators_test.go:257-402 | with splitting they give test/Allow/ec2:* and test1/Deny/sts:*, which is faithful |
| ExpectedDocument.GeneratorTestExpected | internal/pkg/aws/generators_test.go:257-402 | the ten markers of the test give, under the splitting fold, exactly the six expected statements test to test5, which are faithful to the markers; the merge-on-SID fold does not give them |
| ExpectedDocument.NoFoldedSid | internal/pkg/aws/document.go:14-47 | the merge-on-SID fold never creates a SID that no marker carries |
| Generators.PolicyFilePathInjective | internal/pkg/aws/generators.go:37-38 | two markers share an output path exactly when they share a name |
| Generators.PolicyFilePathExample | internal/pkg/aws/generators_test.go:147-189 | directory test, name test1 gives test/test1.json |
| Generators.PolicyFilePath | internal/pkg/aws/generators.go:37-38 | `<directory>/<name>.json`; no contract of its own: PolicyFilePathInjective and PolicyFilePathExample state it |
| Generators.Select | internal/pkg/aws/generators.go:40-55 | the selected items all come from positions carrying the key |
| Generators.GroupBy | internal/pkg/aws/generators.go:40-55 | the map the grouping loop builds; no contract of its own: GroupBySelect, SelectOwnKey and GroupSizes characterise it |
| Generators.GroupBySelect | internal/pkg/aws/generators.go:21-59 | the map's keys are exactly the paths seen, and each entry is the markers with that path in input order |
| Generators.SelectOwnKey | internal/pkg/aws/generators.go:21-59 | every marker is in the group of its own path |
| Generators.GroupSizes | internal/pkg/aws/generators.go:21-59 | the group sizes add up to the number of markers: none lost, none duplicated |
| Generators.Values | internal/pkg/aws/generators.go:27-32 | each interface value's record, or none for a marker of another kind |
| Generators.Stop | internal/pkg/aws/generators.go:27-32 | the position of the first marker of another kind |
| Generators.Paths | internal/pkg/aws/generators.go:37-38 | one output path per marker, in order: PolicyFilePath of that marker's name |
| Generators.DefaultNext | internal/pkg/aws/generators.go:34-35 | defaulting one marker in place extends the defaulted prefix and keeps its name |
| Generators.ToPolicyMarkerMap | internal/pkg/aws/generators.go:21-59 | succeeds exactly when every marker is an AWS marker, otherwise fails with the conversion error; each marker before the failure point is defaulted in place and the rest untouched; on success the map groups the markers by output path |
| Generators.CheckNames | internal/pkg/aws/generators.go:63-87 | on success the copied records in order; a mismatch reports a set first name and a different second one |
| Generators.OneNameStep | internal/pkg/aws/generators.go:75-81 | one step of carrying the first non-empty name preserves the one-name property |
| Generators.CheckNamesOneName | internal/pkg/aws/generators.go:63-87 | the name check passes exactly when every marker is an AWS marker and every name after the first non-empty one equals it; empty names may only come before it |
| Generators.CheckNamesMismatchExample | internal/pkg/aws/generators_test.go:233-255 | names test and test2 fail with a mismatch naming both |
| Generators.CheckMarkers | internal/pkg/aws/generators.go:64-84 | the validation loop returns exactly the name check's result |
| Generators.ToDocument | internal/pkg/aws/generators.go:63-87 | fails exactly when the name check fails, with its error; otherwise returns a fresh document with the default version whose statements are the merge-on-SID Fold of the copied records, so the Fold lemmas (one statement per distinct id, in first-seen order) describe it |
| Generators.ToDocumentSplit | internal/pkg/aws/generators_test.go:257-402 | the same failures as ToDocument; on success a fresh document with the default version whose statements are the splitting fold of the copied records, hence faithful to them (SplitFoldFaithful) |
| Generators.CompleteCopies | internal/pkg/aws/generators.go:83-86 | the copied records, every one complete |
| Files.HasOption | internal/pkg/files/options.go:11-23 | true exactly when the option is in the list; an empty list has none |
| Files.OptionsDistinct | internal/pkg/files/options.go:5-8 | the two options are different values |
| Files.HasOptionExamples | internal/pkg/files/options_test.go:18-41 | present, absent and empty-list cases |
| Processor.DecodedAll | internal/pkg/processor/processor.go:173-175 | each parsed result's record, or none for an object that is not a marker |
| Processor.ErrorAt | internal/pkg/processor/processor.go:173-193 | no error exactly when the object is a marker that validates; an error carries the position and the marker text |
| Processor.ConvertToMarker | internal/pkg/utils/utils.go:11-20 | a record gives a fresh reference to a copy, a pointer gives itself, anything else gives none |
| Processor.FindMarkers | internal/pkg/processor/processor.go:170-202 | succeeds exactly when every result converts and validates; otherwise returns the error of the first bad position; on success one validated marker per result in order, pointers kept and records copied |
| Processor.ToDocumentRows | internal/pkg/processor/processor.go:206-214 | one row per marker, the same markers in order |

## Left out

- File reading and writing, comment parsing, logging, the documentation writer, the CLI and the
  `Directory` type are outside the model. The output directory is a plain path string.
- `Condition.String` (JSON rendering) is the `render` parameter of `Markers.ConditionColumn`.
  JSON shape and `omitempty` are not modelled.
- Markers.Validate: Go map iteration order over the two required fields is the `nameFirst`
  parameter. In `Processor.FindMarkers` that order may differ per call, so it is a function of the
  position.
- Markers.MarkerRef.AdjustID: `strconv.Atoi` overflow for trailing runs of 19 or more digits is
  not modelled, because the number is an unbounded `nat`. `unicode.IsDigit` on a single byte is
  the ASCII digit test on a character.
- ToStatement, AppendFor, AddStatementFor, ToDocument, AdjustID and ToPolicyMarkerMap
  dereference fields that may be nil, which panics in Go. The model requires those fields to be
  set, so the panic is not modelled:
  - `CompleteMarker` and the `NamesSet` and `Complete` preconditions cover ToStatement,
    AppendFor, AddStatementFor and ToDocument. `CompleteMarker` asks for all four of id,
    action, effect and resource even on the path where AddStatementFor merges into a found
    statement, which in Go reads only the id, action and resource
    (internal/pkg/aws/document.go:35-46, internal/pkg/aws/statement.go:130-136). So a marker with
    a nil effect that would merge is excluded, although Go would accept it. The markers the
    generator passes are defaulted first, so their effect is always set;
  - `Markers.MarkerRef.AdjustID` requires `id.Some?` in place of `*marker.Id`
    (internal/pkg/aws/markers.go:225). No code in the sources calls it; the model calls it only
    from the splitting fold, on complete markers;
  - `Generators.ToPolicyMarkerMap` requires every AWS marker before the first marker of another
    kind to have a name, in place of `*awsMarker.Name` (internal/pkg/aws/generators.go:38). Its
    markers come from `FindMarkers`, which rejects a marker without a name;
  - a typed nil `*aws.Marker` in a parse result passes `ConvertToMarker`
    (internal/pkg/utils/utils.go:15-16) and then panics in `Validate` inside `FindMarkers`
    (internal/pkg/processor/processor.go:186). `PointerObject` of `Processor.MarkerObject` always holds a non-null
    `MarkerRef`, so that case cannot be expressed.
- Nil and empty slices are not distinguished. An unset condition is `None`.
- Generators.CheckMarkers: copies by appending rather than into a preallocated slice. The same
  holds for `Processor.FindMarkers` and `Processor.ToDocumentRows`, which build a `seq` where Go
  fills a slice by index. An early error in Go discards that slice.
- `files.PolicyFilePath` is not part of this model's sources. `Generators.PolicyFilePath` follows
  `files.Path` with the `json` extension and the paths the generator tests expect.
- The older per-file generator paths (`ToPolicyFiles`, `policy.ToFiles`) and the commented-out
  processor tests are not modelled.
- Naming mismatches in the source are modelled with their evident meaning:
  - `markers.go` refers to `statementIDRegex` and `defaultStatementID`, while `statement.go`
    declares `statementIdRegex` and `defaultStatementId`;
  - `Statement` has no `Condition` field although `ToStatement` sets one.
- `policy.Marker` is modelled only through the AWS marker and "another kind" (`PolicyMarker.Other`).
  `docs.Row` is the marker itself.

## Findings

| source | as written | input that shows it | evidently intended | confidence | as-written member | corrected member |
|---|---|---|---|---|---|---|
| internal/pkg/aws/document.go:26-47 | `AddStatementFor` merges a marker into the statement with the same SID regardless of effect, resource or condition | markers name test, id test: ec2:* Allow * and sts:* Deny * | an incompatible marker gets its id bumped by `AdjustID` until it is compatible or new, as the expected output at internal/pkg/aws/generators_test.go:257-402 shows (test and test1); `Generators.ToDocumentSplit` builds documents this way | not executed | Findings.MergedDenyAsWritten | Findings.SplitDenyCorrected |
