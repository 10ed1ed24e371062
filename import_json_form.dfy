/** The JSON import form (`app/components/entry/import-json-form.tsx`): the checks run on
    every edit (syntax, then the JSON schema, then duplicate keys) and the FormData a submit
    sends. Parsing the text and the schema validator's own error list are not modelled: what
    `JSON.parse` and the validator produced is a parameter. */
module ImportJsonForm {
  import opened Wrappers
  import opened Strings
  import opened Domain
  import Validations
  import ApiEntry

  /** A parsed JSON value. A number is carried by its JavaScript rendering `String(n)`. */
  datatype Json =
    | JNull
    | JBool(flag: bool)
    | JNumber(rendering: string)
    | JString(text: string)
    | JArray(items: seq<Json>)
    | JObject(members: map<string, Json>)

  /** What `JSON.parse(code)` did: threw with a message, or returned a value. */
  datatype ParseOutcome = SyntaxError(message: string) | Parsed(json: Json)

  /** The first entry of the schema validator's error list. */
  datatype SchemaError = SchemaError(message: string, instancePath: string)

  // ----- The schema -----

  /** An item the schema accepts: an object with string `key` and `value`, and a boolean
      `secure` when that member is present. Other members are allowed. */
  predicate SchemaItem(item: Json) {
    && item.JObject?
    && "key" in item.members && item.members["key"].JString?
    && "value" in item.members && item.members["value"].JString?
    && ("secure" in item.members ==> item.members["secure"].JBool?)
  }

  /** The schema: an array of such items. */
  predicate MatchesSchema(json: Json) {
    json.JArray? && forall i :: 0 <= i < |json.items| ==> SchemaItem(json.items[i])
  }

  /** The string `key` of a conforming item. */
  function KeyText(item: Json): string
    requires SchemaItem(item)
  {
    item.members["key"].text
  }

  /** The keys of a schema-conforming array, in order. */
  function KeysOfItems(items: seq<Json>): (keys: seq<string>)
    requires forall i :: 0 <= i < |items| ==> SchemaItem(items[i])
    ensures |keys| == |items|
    ensures forall i :: 0 <= i < |items| ==> keys[i] == KeyText(items[i])
  {
    seq(|items|, i requires 0 <= i < |items| => KeyText(items[i]))
  }

  // ----- Duplicate keys -----

  /** The first position whose key already occurred at an earlier position. */
  function FirstRepeat(keys: seq<string>): (r: Option<nat>)
    ensures r.Some? ==> r.value < |keys|
    decreases |keys|
  {
    if keys == [] then None
    else
      var init := keys[..|keys| - 1];
      var earlier := FirstRepeat(init);
      if earlier.Some? then earlier
      else if keys[|keys| - 1] in init then Some(|keys| - 1)
      else None
  }

  /** There is no repeat exactly when the keys are distinct; a repeat found is at the
      smallest position whose key occurred before. */
  lemma {:induction false} FirstRepeatIsSmallest(keys: seq<string>)
    ensures FirstRepeat(keys).None? <==> Validations.Distinct(keys)
    ensures FirstRepeat(keys).Some? ==>
      var i := FirstRepeat(keys).value;
      i < |keys| && keys[i] in keys[..i] && Validations.Distinct(keys[..i])
    decreases |keys|
  {
    if keys != [] {
      var n := |keys| - 1;
      var init := keys[..n];
      FirstRepeatIsSmallest(init);
      if FirstRepeat(init).Some? {
        var i := FirstRepeat(init).value;
        assert init[..i] == keys[..i];
        assert !Validations.Distinct(init);
      } else if keys[n] in init {
        assert init == keys[..n];
        var j :| 0 <= j < n && init[j] == keys[n];
        assert keys[j] == keys[n];
      } else {
        forall i, j | 0 <= i < j < |keys| ensures keys[i] != keys[j] {
          if j < n {
            assert init[i] == keys[i] && init[j] == keys[j];
          } else {
            assert init[i] == keys[i];
          }
        }
      }
    }
  }

  /** Once a prefix holds a repeat, longer prefixes report that same repeat. */
  lemma {:induction false} FirstRepeatOfPrefix(keys: seq<string>, n: nat)
    requires n <= |keys| && FirstRepeat(keys[..n]).Some?
    ensures FirstRepeat(keys) == FirstRepeat(keys[..n])
    decreases |keys| - n
  {
    if n < |keys| {
      assert keys[..n + 1][..n] == keys[..n];
      FirstRepeatOfPrefix(keys, n + 1);
    } else {
      assert keys[..n] == keys;
    }
  }

  /** `Duplicate key "<key>" found at index <i>`. */
  function DuplicateKeyMessage(key: string, index: nat): string {
    "Duplicate key \"" + key + "\" found at index " + NatToString(index)
  }

  /** The message `validateUniqueKeys` returns for a list of keys, or `None` for `null`. */
  function DuplicateError(keys: seq<string>): Option<string> {
    match FirstRepeat(keys)
    case None => None
    case Some(i) => Some(DuplicateKeyMessage(keys[i], i))
  }

  /** `validateUniqueKeys`: one scan over the keys with a set of those seen, returning at the
      first key seen before. */
  method ValidateUniqueKeys(keys: seq<string>) returns (error: Option<string>)
    ensures error == DuplicateError(keys)
    ensures error.None? <==> Validations.Distinct(keys)
  {
    FirstRepeatIsSmallest(keys);
    var seen: set<string> := {};
    for i := 0 to |keys|
      invariant seen == set j | 0 <= j < i :: keys[j]
      invariant FirstRepeat(keys[..i]).None?
    {
      var prefix := keys[..i + 1];
      assert prefix[..i] == keys[..i];
      if keys[i] in seen {
        assert keys[i] in keys[..i];
        assert FirstRepeat(prefix) == Some(i);
        FirstRepeatOfPrefix(keys, i + 1);
        return Some(DuplicateKeyMessage(keys[i], i));
      }
      assert keys[i] !in keys[..i];
      seen := seen + {keys[i]};
    }
    assert keys[..|keys|] == keys;
    return None;
  }

  // ----- The checks run on every edit -----

  /** The text shown for a schema failure: the validator's first error, or a fixed text
      when its error list is empty. */
  function SchemaErrorText(errors: seq<SchemaError>): string {
    if |errors| > 0 then "Schema validation error: " + errors[0].message + " at " + errors[0].instancePath
    else "Unknown schema validation error"
  }

  /** `validateJson`: a syntax error first, else the first schema error, else the first
      duplicate key, else no error. `schemaErrors` is the validator's error list. */
  method ValidateJson(parsed: ParseOutcome, schemaErrors: seq<SchemaError>) returns (error: Option<string>)
    ensures parsed.SyntaxError? ==> error == Some("JSON syntax error: " + parsed.message)
    ensures parsed.Parsed? && !MatchesSchema(parsed.json) ==> error == Some(SchemaErrorText(schemaErrors))
    ensures parsed.Parsed? && MatchesSchema(parsed.json) ==> error == DuplicateError(KeysOfItems(parsed.json.items))
    ensures error.None? <==>
      parsed.Parsed? && MatchesSchema(parsed.json) && Validations.Distinct(KeysOfItems(parsed.json.items))
  {
    match parsed {
      case SyntaxError(message) =>
        error := Some("JSON syntax error: " + message);
      case Parsed(json) =>
        if !MatchesSchema(json) {
          error := Some(SchemaErrorText(schemaErrors));
        } else {
          error := ValidateUniqueKeys(KeysOfItems(json.items));
        }
    }
  }

  // ----- Submission -----

  /** `String(v)` for a parsed JSON value: an array renders its elements joined by commas,
      with `null` elements as empty strings; an object renders as `[object Object]`. */
  function JsString(v: Json): string
    decreases v
  {
    match v
    case JNull => "null"
    case JBool(b) => BoolToString(b)
    case JNumber(rendering) => rendering
    case JString(text) => text
    case JArray(items) =>
      Join(seq(|items|, i requires 0 <= i < |items| => if items[i].JNull? then "" else JsString(items[i])), ",")
    case JObject(_) => "[object Object]"
  }

  /** `String(entry[name])` for an item that is not `null`: a missing member reads as
      `undefined`. */
  function MemberText(item: Json, name: string): string
    requires !item.JNull?
  {
    if item.JObject? && name in item.members then JsString(item.members[name]) else "undefined"
  }

  /** `typeof entry.secure === 'boolean' ? entry.secure : false`. */
  function SecureFlag(item: Json): bool
    requires !item.JNull?
  {
    item.JObject? && "secure" in item.members && item.members["secure"].JBool? && item.members["secure"].flag
  }

  /** What item `i` is submitted as: its key as given (no path prepended), its value, and
      its flag. */
  function ImportItem(item: Json): BatchItem
    requires !item.JNull?
  {
    BatchItem(MemberText(item, "key"), MemberText(item, "value"), SecureFlag(item))
  }

  function ImportBatch(items: seq<Json>): (batch: seq<BatchItem>)
    requires forall i :: 0 <= i < |items| ==> !items[i].JNull?
    ensures |batch| == |items|
    ensures forall i :: 0 <= i < |items| ==> batch[i] == ImportItem(items[i])
  {
    seq(|items|, i requires 0 <= i < |items| => ImportItem(items[i]))
  }

  /** One more element encodes as three more fields, numbered with its position. */
  lemma {:induction false} ImportBatchSnoc(items: seq<Json>, index: nat)
    requires index < |items| && forall i :: 0 <= i <= index ==> !items[i].JNull?
    ensures EncodeBatch(ImportBatch(items[..index + 1]))
      == EncodeBatch(ImportBatch(items[..index])) + EncodeItem(index, ImportItem(items[index]))
  {
    var before := ImportBatch(items[..index]);
    assert ImportBatch(items[..index + 1]) == before + [ImportItem(items[index])];
    EncodeBatchAppend(before, ImportItem(items[index]));
  }

  /** The guard of `handleSubmit`: a (non-empty) error, empty code or a submission in
      progress. */
  predicate SubmitBlocked(error: Option<string>, code: string, isSubmitting: bool) {
    (error.Some? && error.value != "") || code == "" || isSubmitting
  }

  /** The parsed code can be submitted: `forEach` exists only on an array, and reading a
      member of a `null` element throws. */
  predicate Submittable(parsed: ParseOutcome) {
    parsed.Parsed? && parsed.json.JArray? && forall i :: 0 <= i < |parsed.json.items| ==> !parsed.json.items[i].JNull?
  }

  /** `handleSubmit`: nothing when blocked; otherwise the `forEach` appending three fields per
      element. A throw (a syntax error, a non-array, a `null` element) sends nothing. */
  method HandleSubmit(error: Option<string>, code: string, isSubmitting: bool, parsed: ParseOutcome)
    returns (sent: Option<seq<FormField>>)
    ensures sent.Some? <==> !SubmitBlocked(error, code, isSubmitting) && Submittable(parsed)
    ensures sent.Some? ==> sent.value == EncodeBatch(ImportBatch(parsed.json.items))
  {
    if SubmitBlocked(error, code, isSubmitting) {
      return None;
    }
    if !parsed.Parsed? || !parsed.json.JArray? {
      return None;
    }
    var items := parsed.json.items;
    var formData: seq<FormField> := [];
    for index := 0 to |items|
      invariant forall i :: 0 <= i < index ==> !items[i].JNull?
      invariant formData == EncodeBatch(ImportBatch(items[..index]))
    {
      if items[index].JNull? {
        return None;
      }
      ImportBatchSnoc(items, index);
      formData := formData + EncodeItem(index, ImportItem(items[index]));
    }
    assert items[..|items|] == items;
    return Some(formData);
  }

  /** For a schema-conforming array, item `i` is submitted with exactly the key and value
      written in the JSON, and `secure` true only when it was the boolean true. */
  lemma {:induction false} SchemaItemsSubmittedAsGiven(items: seq<Json>)
    requires MatchesSchema(JArray(items))
    ensures Submittable(Parsed(JArray(items)))
    ensures forall i :: 0 <= i < |items| ==>
      ImportBatch(items)[i] == BatchItem(
        items[i].members["key"].text,
        items[i].members["value"].text,
        "secure" in items[i].members && items[i].members["secure"].flag)
  {
    assert forall i :: 0 <= i < |items| ==> SchemaItem(items[i]);
  }

  /** The entry endpoint hands its schema the keys of an import exactly as written in the
      JSON, in array order: nothing prepends the current path. */
  lemma {:induction false} ImportReachesSchemaAsGiven(items: seq<Json>)
    requires MatchesSchema(JArray(items)) && |items| <= 0xFFFF_FFFF
    ensures var raws := ApiEntry.ParseSpec(EncodeBatch(ImportBatch(items)));
      |raws| == |items| &&
      forall i :: 0 <= i < |items| ==> raws[i].key == Some(items[i].members["key"].text)
  {
    SchemaItemsSubmittedAsGiven(items);
    ApiEntry.ParseOfEncodeBatch(ImportBatch(items));
  }
}
