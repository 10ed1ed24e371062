/** The entry schemas of `app/domain/validations.ts`: per-entry rules (non-empty key, string
    value, `secure` coerced from its raw form, a secure entry needs a value), the array-level
    uniqueness rule, and the issues a failed parse reports. Issue collection follows the
    schema library's rule that a missing field stops the object-level and array-level
    refinements from running, while an empty key does not. */
module Validations {
  import opened Wrappers
  import opened Domain

  /** The raw `secure` input before preprocessing: a form string, or a boolean (the parsed
      FormData defaults it to `false`; the client form passes its switch state). */
  datatype RawSecure = Text(text: string) | Flag(flag: bool)

  /** An entry before schema parsing; a missing field is `None`. */
  datatype RawEntry = RawEntry(key: Option<string>, value: Option<string>, secure: RawSecure)

  /** The preprocess `value === "true" || value === "on"`, as written. */
  function CoerceSecureAsWritten(raw: RawSecure): bool {
    raw.Text? && (raw.text == "true" || raw.text == "on")
  }

  /** The preprocess as evidently intended: the strings "true" and "on", or the boolean true. */
  function CoerceSecure(raw: RawSecure): bool {
    match raw
    case Text(t) => t == "true" || t == "on"
    case Flag(b) => b
  }

  /** As written, only the strings "true" and "on" give a secure entry, and every boolean
      (true included) gives false. */
  lemma {:induction false} AsWrittenCoercion(raw: RawSecure)
    ensures CoerceSecureAsWritten(raw) <==> raw == Text("true") || raw == Text("on")
    ensures raw.Flag? ==> !CoerceSecureAsWritten(raw)
  {
  }

  /** The two coercions agree on every string; they differ on the boolean true alone. */
  lemma {:induction false} CoercionsAgreeOnStrings(raw: RawSecure)
    ensures CoerceSecure(raw) != CoerceSecureAsWritten(raw) <==> raw == Flag(true)
  {
  }

  /** Where in the input an issue points. */
  datatype PathItem = Index(index: nat) | Field(name: string)

  /** The kinds of issue the schemas raise: a missing (non-string) field, the key's minimum
      length, the secure-value refinement and the uniqueness refinement. */
  datatype IssueKind = MissingField | EmptyKey | SecureValueEmpty | DuplicateKeys

  datatype Issue = Issue(path: seq<PathItem>, kind: IssueKind)

  /** The message an issue carries; a missing field carries the schema library's own
      type-error text, which is not modelled. */
  function Message(kind: IssueKind): Option<string> {
    match kind
    case MissingField => None
    case EmptyKey => Some("Key cannot be empty.")
    case SecureValueEmpty => Some("Value cannot be empty when 'secure' is checked.")
    case DuplicateKeys => Some("Keys must be unique. Duplicates are not allowed.")
  }

  /** A missing field aborts the refinements above it. */
  predicate Aborts(raw: RawEntry) {
    raw.key.None? || raw.value.None?
  }

  /** The issues `EntrySchema` raises for the entry at `index`: key, then value, then the
      secure refinement when no field is missing. */
  function EntryIssues(index: nat, raw: RawEntry, coerce: RawSecure -> bool): seq<Issue> {
    var keyIssues :=
      if raw.key.None? then [Issue([Index(index), Field("key")], MissingField)]
      else if raw.key.value == "" then [Issue([Index(index), Field("key")], EmptyKey)]
      else [];
    var valueIssues :=
      if raw.value.None? then [Issue([Index(index), Field("value")], MissingField)] else [];
    var refineIssues :=
      if !Aborts(raw) && coerce(raw.secure) && raw.value.value == ""
      then [Issue([Index(index), Field("value")], SecureValueEmpty)]
      else [];
    keyIssues + valueIssues + refineIssues
  }

  /** The element issues of a list, in element order. */
  function ElementIssues(raws: seq<RawEntry>, coerce: RawSecure -> bool): seq<Issue>
    decreases |raws|
  {
    if raws == [] then []
    else ElementIssues(raws[..|raws| - 1], coerce) + EntryIssues(|raws| - 1, raws[|raws| - 1], coerce)
  }

  /** No two keys are equal. */
  predicate Distinct(keys: seq<string>) {
    forall i, j :: 0 <= i < j < |keys| ==> keys[i] != keys[j]
  }

  /** The keys of a list whose entries all have one. */
  function KeysOf(raws: seq<RawEntry>): (keys: seq<string>)
    requires forall i :: 0 <= i < |raws| ==> raws[i].key.Some?
    ensures |keys| == |raws| && forall i :: 0 <= i < |raws| ==> keys[i] == raws[i].key.value
  {
    seq(|raws|, i requires 0 <= i < |raws| => raws[i].key.value)
  }

  /** The refinement of `EntryArraySchema`: one scan keeping the keys seen so far, stopping
      at the first key seen before. */
  method KeysAreUnique(keys: seq<string>) returns (unique: bool)
    ensures unique <==> Distinct(keys)
  {
    var seen: set<string> := {};
    for n := 0 to |keys|
      invariant seen == set i | 0 <= i < n :: keys[i]
      invariant Distinct(keys[..n])
    {
      if keys[n] in seen {
        var i :| 0 <= i < n && keys[i] == keys[n];
        assert keys[i] == keys[n];
        return false;
      }
      seen := seen + {keys[n]};
      assert forall i :: 0 <= i < n ==> keys[..n + 1][i] == keys[..n][i];
    }
    assert keys[..|keys|] == keys;
    return true;
  }

  /** The issues of the whole list: element issues, then the uniqueness issue (with an empty
      path) when no element aborted and two keys coincide. */
  function ListIssues(raws: seq<RawEntry>, coerce: RawSecure -> bool): seq<Issue> {
    var aborted := exists i :: 0 <= i < |raws| && Aborts(raws[i]);
    ElementIssues(raws, coerce) +
      if !aborted && !Distinct(KeysOf(raws)) then [Issue([], DuplicateKeys)] else []
  }

  /** The parsed entry: unknown fields dropped, `secure` coerced. */
  function ToItem(raw: RawEntry, coerce: RawSecure -> bool): BatchItem
    requires !Aborts(raw)
  {
    BatchItem(raw.key.value, raw.value.value, coerce(raw.secure))
  }

  /** `EntryArraySchema.safeParse`: the parsed list, or every issue raised. */
  function SafeParse(raws: seq<RawEntry>, coerce: RawSecure -> bool): Result<seq<BatchItem>, seq<Issue>> {
    var issues := ListIssues(raws, coerce);
    if issues == [] then
      assert forall i :: 0 <= i < |raws| ==> !Aborts(raws[i]) by {
        ElementIssuesReportAborts(raws, coerce);
      }
      Ok(seq(|raws|, i requires 0 <= i < |raws| => ToItem(raws[i], coerce)))
    else Err(issues)
  }

  /** What the schemas accept, stated entry by entry. */
  predicate Acceptable(raws: seq<RawEntry>, coerce: RawSecure -> bool) {
    && (forall i :: 0 <= i < |raws| ==>
          && raws[i].key.Some? && raws[i].key.value != ""
          && raws[i].value.Some?
          && (coerce(raws[i].secure) ==> raws[i].value.value != ""))
    && Distinct(KeysOf(raws))
  }

  /** An entry without the boolean `true` raises the same issues under both coercions. */
  lemma {:induction false} EntryIssuesCoercionsAgree(index: nat, raw: RawEntry)
    requires raw.secure != Flag(true)
    ensures EntryIssues(index, raw, CoerceSecureAsWritten) == EntryIssues(index, raw, CoerceSecure)
  {
    CoercionsAgreeOnStrings(raw.secure);
  }

  /** Where no entry carries the boolean `true`, the two coercions raise the same element
      issues. */
  lemma {:induction false} ElementIssuesCoercionsAgree(raws: seq<RawEntry>)
    requires forall i :: 0 <= i < |raws| ==> raws[i].secure != Flag(true)
    ensures ElementIssues(raws, CoerceSecureAsWritten) == ElementIssues(raws, CoerceSecure)
    decreases |raws|
  {
    if raws != [] {
      var n := |raws| - 1;
      var init := raws[..n];
      assert forall i :: 0 <= i < n ==> init[i] == raws[i];
      ElementIssuesCoercionsAgree(init);
      EntryIssuesCoercionsAgree(n, raws[n]);
      assert ElementIssues(raws, CoerceSecureAsWritten)
        == ElementIssues(init, CoerceSecureAsWritten) + EntryIssues(n, raws[n], CoerceSecureAsWritten);
      assert ElementIssues(raws, CoerceSecure)
        == ElementIssues(init, CoerceSecure) + EntryIssues(n, raws[n], CoerceSecure);
    }
  }

  /** Where no entry carries the boolean `true`, the two coercions parse alike. */
  lemma {:induction false} SafeParseCoercionsAgree(raws: seq<RawEntry>)
    requires forall i :: 0 <= i < |raws| ==> raws[i].secure != Flag(true)
    ensures SafeParse(raws, CoerceSecureAsWritten) == SafeParse(raws, CoerceSecure)
  {
    ElementIssuesCoercionsAgree(raws);
    assert ListIssues(raws, CoerceSecureAsWritten) == ListIssues(raws, CoerceSecure);
    var a := SafeParse(raws, CoerceSecureAsWritten);
    var c := SafeParse(raws, CoerceSecure);
    if a.Ok? {
      assert |a.value| == |c.value| == |raws|;
      forall i | 0 <= i < |raws| ensures a.value[i] == c.value[i] {
        CoercionsAgreeOnStrings(raws[i].secure);
      }
      assert a.value == c.value;
    }
  }

  /** A list raises no element issue exactly when none of its entries does. */
  lemma {:induction false} ElementIssuesEmpty(raws: seq<RawEntry>, coerce: RawSecure -> bool)
    ensures ElementIssues(raws, coerce) == [] <==>
      forall i :: 0 <= i < |raws| ==> EntryIssues(i, raws[i], coerce) == []
    decreases |raws|
  {
    if raws != [] {
      var init := raws[..|raws| - 1];
      ElementIssuesEmpty(init, coerce);
      assert forall i :: 0 <= i < |init| ==> init[i] == raws[i];
    }
  }

  lemma {:induction false} ElementIssuesReportAborts(raws: seq<RawEntry>, coerce: RawSecure -> bool)
    ensures ElementIssues(raws, coerce) == [] ==> forall i :: 0 <= i < |raws| ==> !Aborts(raws[i])
  {
    ElementIssuesEmpty(raws, coerce);
  }

  /** The list parses exactly when every entry has a non-empty key and a value, a secure
      entry has a non-empty value, and no two keys are equal; the parsed list then holds the
      entries' own keys and values with `secure` coerced. */
  lemma {:induction false} SafeParseAcceptsExactly(raws: seq<RawEntry>, coerce: RawSecure -> bool)
    ensures SafeParse(raws, coerce).Ok? <==> Acceptable(raws, coerce)
    ensures SafeParse(raws, coerce).Ok? ==>
      var items := SafeParse(raws, coerce).value;
      |items| == |raws| &&
      forall i :: 0 <= i < |raws| ==>
        items[i] == BatchItem(raws[i].key.value, raws[i].value.value, coerce(raws[i].secure))
  {
    ElementIssuesEmpty(raws, coerce);
    if Acceptable(raws, coerce) {
      forall i | 0 <= i < |raws| ensures EntryIssues(i, raws[i], coerce) == [] {
      }
    }
  }

  /** An entry with an empty key is rejected, and the issue points at that entry's key. */
  lemma {:induction false} EmptyKeyRejected(raws: seq<RawEntry>, coerce: RawSecure -> bool, i: nat)
    requires i < |raws| && raws[i].key == Some("")
    ensures Issue([Index(i), Field("key")], EmptyKey) in ElementIssues(raws, coerce)
    decreases |raws|
  {
    var init := raws[..|raws| - 1];
    if i < |init| {
      assert init[i] == raws[i];
      EmptyKeyRejected(init, coerce, i);
    }
  }

  /** A duplicate key, with every field present, is reported once, at the end, as an issue of
      the list itself (empty path) under the fixed message. */
  lemma {:induction false} DuplicateReportedAtListLevel(raws: seq<RawEntry>, coerce: RawSecure -> bool, i: nat, j: nat)
    requires forall k :: 0 <= k < |raws| ==> !Aborts(raws[k])
    requires i < j < |raws| && raws[i].key == raws[j].key
    ensures var issues := ListIssues(raws, coerce);
      |issues| > 0 && issues[|issues| - 1] == Issue([], DuplicateKeys)
    ensures Message(DuplicateKeys) == Some("Keys must be unique. Duplicates are not allowed.")
  {
    assert KeysOf(raws)[i] == KeysOf(raws)[j];
  }

  /** Every element issue points at a field of an entry: its path is an index then a field. */
  lemma {:induction false} ElementIssuePaths(raws: seq<RawEntry>, coerce: RawSecure -> bool)
    ensures forall issue :: issue in ElementIssues(raws, coerce) ==>
      |issue.path| == 2 && issue.path[0].Index? && issue.path[0].index < |raws| && issue.path[1].Field?
      && issue.kind != DuplicateKeys
    decreases |raws|
  {
    if raws != [] {
      ElementIssuePaths(raws[..|raws| - 1], coerce);
    }
  }

  /** A non-secure entry may have an empty value. */
  lemma {:induction false} EmptyValueAllowedWhenNotSecure(key: string, raw: RawSecure, coerce: RawSecure -> bool)
    requires key != "" && !coerce(raw)
    ensures SafeParse([RawEntry(Some(key), Some(""), raw)], coerce) == Ok([BatchItem(key, "", false)])
  {
    var raws := [RawEntry(Some(key), Some(""), raw)];
    assert ElementIssues(raws, coerce) == ElementIssues([], coerce) + EntryIssues(0, raws[0], coerce);
    assert Distinct(KeysOf(raws));
    assert ListIssues(raws, coerce) == [];
    SafeParseAcceptsExactly(raws, coerce);
    var items := SafeParse(raws, coerce).value;
    assert items == [BatchItem(key, "", false)];
  }

  /** A secure entry with an empty value is rejected at that entry's value. */
  lemma {:induction false} SecureEmptyValueRejected(key: string, raw: RawSecure, coerce: RawSecure -> bool)
    requires key != "" && coerce(raw)
    ensures SafeParse([RawEntry(Some(key), Some(""), raw)], coerce)
      == Err([Issue([Index(0), Field("value")], SecureValueEmpty)])
  {
    var raws := [RawEntry(Some(key), Some(""), raw)];
    assert ElementIssues(raws, coerce) == ElementIssues([], coerce) + EntryIssues(0, raws[0], coerce);
    assert Distinct(KeysOf(raws));
    assert ListIssues(raws, coerce) == [Issue([Index(0), Field("value")], SecureValueEmpty)];
  }

  /** The response of the entry action: one of exactly three statuses. */
  datatype EntryActionResponse =
    | Success(message: string, savedIds: seq<string>)
    | PartialError(message: string, savedIds: seq<string>, errors: map<string, string>)
    | ValidationError(issues: seq<Issue>)
  {
    /** The HTTP status each response is sent with. */
    function HttpStatus(): (code: int)
      ensures code == 200 <==> Success?
      ensures code == 207 <==> PartialError?
      ensures code == 400 <==> ValidationError?
    {
      match this
      case Success(_, _) => 200
      case PartialError(_, _, _) => 207
      case ValidationError(_) => 400
    }
  }
}
