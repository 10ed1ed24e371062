/** The field-by-field creation form (`app/components/entry/traditional-form.tsx`): the
    client-side validation of the entry list and the folding of its issues into per-field
    errors, the fields the form submits, and the rules for the submit and remove buttons. */
module TraditionalForm {
  import opened Wrappers
  import opened Strings
  import opened Domain
  import opened Validations
  import ApiEntry
  import opened UseEntryForm

  // ----- Client-side validation -----

  /** The errors shown under the fields: per entry index, per field name, the issue kind
      (whose text is `Message(kind)`). */
  type FormErrors = map<nat, map<string, IssueKind>>

  /** An issue with a path of length two or more points at an index and then a field. */
  predicate Shaped(issue: Issue) {
    |issue.path| >= 2 ==> issue.path[0].Index? && issue.path[1].Field?
  }

  predicate AllShaped(issues: seq<Issue>) {
    forall i :: 0 <= i < |issues| ==> Shaped(issues[i])
  }

  /** `newErrors[index][field] = message` for one issue, creating the index's record when
      it is missing. */
  function Record(errors: FormErrors, issue: Issue): FormErrors
    requires |issue.path| >= 2 && Shaped(issue)
  {
    var index := issue.path[0].index;
    var fields := if index in errors then errors[index] else map[];
    errors[index := fields[issue.path[1].name := issue.kind]]
  }

  /** The `forEach` over the issues: an issue whose path has at least two items is recorded,
      any other is dropped. */
  function Fold(issues: seq<Issue>): FormErrors
    requires AllShaped(issues)
    decreases |issues|
  {
    if issues == [] then map[]
    else
      var before := Fold(issues[..|issues| - 1]);
      var last := issues[|issues| - 1];
      if |last.path| >= 2 then Record(before, last) else before
  }

  /** An issue recorded at this index and field. */
  predicate At(issue: Issue, index: nat, field: string) {
    |issue.path| >= 2 && issue.path[0] == Index(index) && issue.path[1] == Field(field)
  }

  /** An index has errors exactly when some issue with a long enough path names it; a field
      of it has an error exactly when some issue names that index and field, and the error
      kept is that of the last such issue. */
  lemma {:induction false} FoldRecordsLastIssue(issues: seq<Issue>, index: nat, field: string)
    requires AllShaped(issues)
    ensures index in Fold(issues) <==>
      exists i :: 0 <= i < |issues| && |issues[i].path| >= 2 && issues[i].path[0] == Index(index)
    ensures (index in Fold(issues) && field in Fold(issues)[index]) <==>
      exists i :: 0 <= i < |issues| && At(issues[i], index, field)
    ensures forall i ::
      (&& 0 <= i < |issues| && At(issues[i], index, field)
       && (forall j :: i < j < |issues| ==> !At(issues[j], index, field)))
      ==> index in Fold(issues) && field in Fold(issues)[index] && Fold(issues)[index][field] == issues[i].kind
    decreases |issues|
  {
    if issues != [] {
      var init := issues[..|issues| - 1];
      assert forall i :: 0 <= i < |init| ==> init[i] == issues[i];
      FoldRecordsLastIssue(init, index, field);
    }
  }

  /** `FoldIssues`, the loop itself: it fills the record of each index field by field. */
  method FoldIssues(issues: seq<Issue>) returns (errors: FormErrors)
    requires AllShaped(issues)
    ensures errors == Fold(issues)
  {
    errors := map[];
    for n := 0 to |issues|
      invariant errors == Fold(issues[..n])
    {
      var issue := issues[n];
      assert issues[..n + 1][..n] == issues[..n];
      if |issue.path| >= 2 {
        var index := issue.path[0].index;
        if index !in errors {
          errors := errors[index := map[]];
        }
        errors := errors[index := errors[index][issue.path[1].name := issue.kind]];
      }
    }
    assert issues[..|issues|] == issues;
  }

  /** The form's entries as the schema receives them: every field present, `secure` the
      switch state, a boolean. */
  function Raws(entries: seq<FormEntry>): (raws: seq<RawEntry>)
    ensures |raws| == |entries|
  {
    seq(|entries|, i requires 0 <= i < |entries| => RawEntry(Some(entries[i].key), Some(entries[i].value), Flag(entries[i].secure)))
  }

  /** The issues of the schema are shaped: element issues point at an index and a field,
      the uniqueness issue has an empty path. */
  lemma {:induction false} ListIssuesShaped(raws: seq<RawEntry>, coerce: RawSecure -> bool)
    ensures AllShaped(ListIssues(raws, coerce))
  {
    ElementIssuePaths(raws, coerce);
    var element := ElementIssues(raws, coerce);
    assert forall i :: 0 <= i < |element| ==> element[i] in element;
  }

  /** The errors the form shows for its entries, with `coerce` the preprocessing of `secure`. */
  function ClientErrors(entries: seq<FormEntry>, coerce: RawSecure -> bool): FormErrors {
    match SafeParse(Raws(entries), coerce)
    case Ok(_) => map[]
    case Err(issues) =>
      ListIssuesShaped(Raws(entries), coerce);
      Fold(issues)
  }

  /** The effect run on every change of the entries: parse, then fold the issues. */
  method Revalidate(entries: seq<FormEntry>, coerce: RawSecure -> bool) returns (clientErrors: FormErrors)
    ensures clientErrors == ClientErrors(entries, coerce)
  {
    var result := SafeParse(Raws(entries), coerce);
    if result.Ok? {
      clientErrors := map[];
    } else {
      ListIssuesShaped(Raws(entries), coerce);
      clientErrors := FoldIssues(result.error);
    }
  }

  /** The errors are empty exactly when no entry raises an issue of its own: a list rejected
      only for a duplicate key shows no error, because that issue has no field path. */
  lemma {:induction false} ClientErrorsEmptyExactly(entries: seq<FormEntry>, coerce: RawSecure -> bool)
    ensures ClientErrors(entries, coerce) == map[] <==> ElementIssues(Raws(entries), coerce) == []
  {
    var raws := Raws(entries);
    var issues := ListIssues(raws, coerce);
    var element := ElementIssues(raws, coerce);
    ListIssuesShaped(raws, coerce);
    ElementIssuePaths(raws, coerce);
    if element != [] {
      var first := element[0];
      assert issues[0] == first;
      FoldRecordsLastIssue(issues, first.path[0].index, first.path[1].name);
    } else if issues != [] {
      assert issues == [Issue([], DuplicateKeys)];
      assert issues[..0] == [];
      assert Fold(issues) == map[];
      assert SafeParse(raws, coerce) == Err(issues);
    }
  }

  // ----- The finding on the secure switch -----

  /** As written, a secure entry with an empty value shows no error: the switch state is a
      boolean, which the preprocessing turns into `false`. */
  lemma {:induction false} SecureEmptyValueMissedAsWritten(key: string)
    requires key != ""
    ensures ClientErrors([FormEntry(key, "", true)], CoerceSecureAsWritten) == map[]
  {
    var raws := Raws([FormEntry(key, "", true)]);
    assert raws == [RawEntry(Some(key), Some(""), Flag(true))];
    EmptyValueAllowedWhenNotSecure(key, Flag(true), CoerceSecureAsWritten);
  }

  /** With the boolean accepted, the same entry shows the secure-value error under its value. */
  lemma {:induction false} SecureEmptyValueFlagged(key: string)
    requires key != ""
    ensures ClientErrors([FormEntry(key, "", true)], CoerceSecure) == map[0 := map["value" := SecureValueEmpty]]
  {
    var raws := Raws([FormEntry(key, "", true)]);
    assert raws == [RawEntry(Some(key), Some(""), Flag(true))];
    SecureEmptyValueRejected(key, Flag(true), CoerceSecure);
    var issue := Issue([Index(0), Field("value")], SecureValueEmpty);
    assert [issue][..0] == [];
  }

  // ----- Buttons -----

  /** `isSubmitting || !!Object.keys(clientErrors).length`. */
  predicate SubmitDisabled(isSubmitting: bool, clientErrors: FormErrors) {
    isSubmitting || |clientErrors| > 0
  }

  /** A list the schema accepts never disables submission by itself. */
  lemma {:induction false} AcceptedListEnablesSubmit(entries: seq<FormEntry>, coerce: RawSecure -> bool)
    requires SafeParse(Raws(entries), coerce).Ok?
    ensures !SubmitDisabled(false, ClientErrors(entries, coerce))
  {
  }

  /** The remove control is offered only when there is more than one entry. */
  predicate ShowRemove(entries: seq<FormEntry>) {
    |entries| > 1
  }

  /** The form starts with one entry, adding grows the list, and removal is only offered on a
      longer list: the list is never empty. */
  lemma {:induction false} FormKeepsAnEntry(entries: seq<FormEntry>, index: nat)
    requires ShowRemove(entries)
    ensures |RemoveEntry(entries, index)| >= 1
    ensures |AddEntry(entries)| >= 1
  {
    RemoveEntryDropsIndex(entries, index);
  }

  // ----- The submitted fields -----

  /** The directory the keys are submitted under: the current path, with `/` appended only
      when it does not already end with one. */
  function FormPath(currentPath: string): string {
    if EndsWith(currentPath, "/") then currentPath else currentPath + "/"
  }

  /** The hidden `entries[i][key]` value: the directory followed by the entry's key. */
  function HiddenKey(currentPath: string, key: string): string {
    FormPath(currentPath) + key
  }

  /** The hidden key is the entry id `path + "/" + key` of the current path, with a single
      trailing `/` of the path not doubled. */
  lemma {:induction false} HiddenKeyIsEntryId(currentPath: string, key: string)
    ensures !EndsWith(currentPath, "/") ==> HiddenKey(currentPath, key) == EntryId(currentPath, key)
    ensures EndsWith(currentPath, "/") ==>
      HiddenKey(currentPath, key) == EntryId(currentPath[..|currentPath| - 1], key)
  {
    if EndsWith(currentPath, "/") {
      var n := |currentPath| - 1;
      assert currentPath == currentPath[..n] + "/";
    }
  }

  /** The four fields of entry `i`, in document order: the hidden key, the display-only key
      suffix, the value and the hidden secure flag. */
  function EntryFields(currentPath: string, index: nat, e: FormEntry): seq<FormField> {
    [ FormField(FieldName(index, "key"), HiddenKey(currentPath, e.key)),
      FormField(FieldName(index, "key-suffix"), e.key),
      FormField(FieldName(index, "value"), e.value),
      FormField(FieldName(index, "secure"), BoolToString(e.secure)) ]
  }

  /** The FormData of the form element. */
  function FormFields(currentPath: string, entries: seq<FormEntry>): seq<FormField>
    decreases |entries|
  {
    if entries == [] then []
    else
      var n := |entries| - 1;
      FormFields(currentPath, entries[..n]) + EntryFields(currentPath, n, entries[n])
  }

  /** What the form means to submit: each entry under the current directory. */
  function SubmittedBatch(currentPath: string, entries: seq<FormEntry>): (batch: seq<BatchItem>)
    ensures |batch| == |entries|
  {
    seq(|entries|, i requires 0 <= i < |entries| =>
      BatchItem(HiddenKey(currentPath, entries[i].key), entries[i].value, entries[i].secure))
  }

  /** Grouping after four more fields. */
  lemma {:induction false} GroupAppendFour(form: seq<FormField>, a: FormField, b: FormField, c: FormField, d: FormField)
    ensures ApiEntry.Group(form + [a, b, c, d]) ==
      ApiEntry.Absorb(ApiEntry.Absorb(ApiEntry.Absorb(ApiEntry.Absorb(ApiEntry.Group(form), a), b), c), d)
  {
    ApiEntry.GroupSnoc(form, a);
    ApiEntry.GroupSnoc(form + [a], b);
    ApiEntry.GroupSnoc(form + [a, b], c);
    ApiEntry.GroupSnoc(form + [a, b, c], d);
    assert form + [a] + [b] == form + [a, b];
    assert form + [a, b] + [c] == form + [a, b, c];
    assert form + [a, b, c] + [d] == form + [a, b, c, d];
  }

  /** Grouping after three more fields. */
  lemma {:induction false} GroupAppendThreeFields(form: seq<FormField>, a: FormField, c: FormField, d: FormField)
    ensures ApiEntry.Group(form + [a, c, d]) ==
      ApiEntry.Absorb(ApiEntry.Absorb(ApiEntry.Absorb(ApiEntry.Group(form), a), c), d)
  {
    ApiEntry.GroupSnoc(form, a);
    ApiEntry.GroupSnoc(form + [a], c);
    ApiEntry.GroupSnoc(form + [a, c], d);
    assert form + [a] + [c] == form + [a, c];
    assert form + [a, c] + [d] == form + [a, c, d];
  }

  /** Grouping the form after one more entry: its key suffix is skipped. */
  lemma {:induction false} FormFieldsStep(currentPath: string, entries: seq<FormEntry>)
    requires entries != []
    ensures var n := |entries| - 1;
      var f := EntryFields(currentPath, n, entries[n]);
      ApiEntry.Group(FormFields(currentPath, entries)) ==
        ApiEntry.Absorb(ApiEntry.Absorb(ApiEntry.Absorb(ApiEntry.Group(FormFields(currentPath, entries[..n])), f[0]), f[2]), f[3])
  {
    var n := |entries| - 1;
    var f := EntryFields(currentPath, n, entries[n]);
    GroupAppendFour(FormFields(currentPath, entries[..n]), f[0], f[1], f[2], f[3]);
    assert f == [f[0], f[1], f[2], f[3]];
    ApiEntry.KeySuffixIgnored(n);
  }

  /** Grouping an encoded batch after one more item. */
  lemma {:induction false} EncodeBatchStep(batch: seq<BatchItem>)
    requires batch != []
    ensures var n := |batch| - 1;
      var item := EncodeItem(n, batch[n]);
      ApiEntry.Group(EncodeBatch(batch)) ==
        ApiEntry.Absorb(ApiEntry.Absorb(ApiEntry.Absorb(ApiEntry.Group(EncodeBatch(batch[..n])), item[0]), item[1]), item[2])
  {
    var n := |batch| - 1;
    assert batch == batch[..n] + [batch[n]];
    EncodeBatchAppend(batch[..n], batch[n]);
    var item := EncodeItem(n, batch[n]);
    GroupAppendThreeFields(EncodeBatch(batch[..n]), item[0], item[1], item[2]);
    assert item == [item[0], item[1], item[2]];
  }

  /** The endpoint groups the form's fields exactly as it groups the encoded batch: the key
      suffix field is skipped. */
  lemma {:induction false} FormGroupsAsBatch(currentPath: string, entries: seq<FormEntry>)
    ensures ApiEntry.Group(FormFields(currentPath, entries)) ==
      ApiEntry.Group(EncodeBatch(SubmittedBatch(currentPath, entries)))
    decreases |entries|
  {
    if entries != [] {
      var n := |entries| - 1;
      var batch := SubmittedBatch(currentPath, entries);
      FormGroupsAsBatch(currentPath, entries[..n]);
      assert SubmittedBatch(currentPath, entries[..n]) == batch[..n];
      FormFieldsStep(currentPath, entries);
      EncodeBatchStep(batch);
      var f := EntryFields(currentPath, n, entries[n]);
      var item := EncodeItem(n, batch[n]);
      assert item[0] == f[0] && item[1] == f[2] && item[2] == f[3];
    }
  }

  /** So the endpoint hands its schema each entry with the hidden key, its value and its
      flag, in form order. */
  lemma {:induction false} FormReachesSchema(currentPath: string, entries: seq<FormEntry>)
    requires |entries| <= 0xFFFF_FFFF
    ensures ApiEntry.ParseSpec(FormFields(currentPath, entries)) ==
      ApiEntry.SchemaInput(SubmittedBatch(currentPath, entries))
  {
    FormGroupsAsBatch(currentPath, entries);
    ApiEntry.ParseOfEncodeBatch(SubmittedBatch(currentPath, entries));
  }
}
