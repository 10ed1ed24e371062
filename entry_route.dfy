/** The entry page (`app/routes/entry.tsx`): the entries it lists (directory markers
    excluded), its counters, the JSON export and its file name, and the handling of the entry
    action's response, which invalidates each saved id in the page's own secret cache. */
module EntryRoute {
  import opened Wrappers
  import opened Strings
  import opened Domain
  import EntryRepository
  import Validations
  import RetrieveSecret
  import UseEntry
  import ImportJsonForm

  // ----- The listed entries and the counters -----

  /** `entries.filter((e) => !e.key.endsWith("/"))`. */
  function Displayed(entries: seq<Entry>): (shown: seq<Entry>)
    ensures |shown| <= |entries|
    decreases |entries|
  {
    if entries == [] then []
    else
      var last := entries[|entries| - 1];
      Displayed(entries[..|entries| - 1]) + if EntryRepository.IsDirectoryMarker(last) then [] else [last]
  }

  /** An entry is listed exactly when it is in the listing and is not a directory marker. */
  lemma {:induction false} DisplayedMembers(entries: seq<Entry>, e: Entry)
    ensures e in Displayed(entries) <==> e in entries && !EntryRepository.IsDirectoryMarker(e)
    decreases |entries|
  {
    if entries != [] {
      var init := entries[..|entries| - 1];
      DisplayedMembers(init, e);
      assert entries == init + [entries[|entries| - 1]];
    }
  }

  /** The filter keeps the listing order: filtering a concatenation filters each part. */
  lemma {:induction false} DisplayedAppend(a: seq<Entry>, b: seq<Entry>)
    ensures Displayed(a + b) == Displayed(a) + Displayed(b)
    decreases |b|
  {
    if b == [] {
      assert a + b == a;
    } else {
      var init := b[..|b| - 1];
      DisplayedAppend(a, init);
      assert (a + b)[..|a + b| - 1] == a + init;
      assert b[..|b| - 1] == init;
    }
  }

  /** `filter((e) => e.secure).length`. */
  function SecureCount(shown: seq<Entry>): (n: nat)
    ensures n <= |shown|
    ensures n == 0 <==> forall i :: 0 <= i < |shown| ==> !shown[i].secure
    ensures n == |shown| <==> forall i :: 0 <= i < |shown| ==> shown[i].secure
    decreases |shown|
  {
    if shown == [] then 0
    else
      var init := shown[..|shown| - 1];
      assert forall i :: 0 <= i < |init| ==> init[i] == shown[i];
      SecureCount(init) + if shown[|shown| - 1].secure then 1 else 0
  }

  /** The four numbers the page shows: listed entries, secure ones among them, entries in
      edit mode and pending changes. */
  datatype Counts = Counts(entries: nat, secure: nat, editable: nat, changes: nat)

  function PageCounts(s: UseEntry.State): Counts {
    var shown := Displayed(s.entries);
    Counts(|shown|, SecureCount(shown), |s.editing|, |s.changes|)
  }

  /** The secure count never exceeds the listed count, and directory markers count in
      neither. After a submitting save-all, nothing is in edit mode or pending. */
  lemma {:induction false} CountsOfPage(s: UseEntry.State, marker: Entry)
    requires EntryRepository.IsDirectoryMarker(marker)
    ensures PageCounts(s).secure <= PageCounts(s).entries
    ensures PageCounts(s.(entries := s.entries + [marker])) == PageCounts(s)
    ensures var r := UseEntry.Step(UseEntry.Step(s, UseEntry.FinishGlobalEdit), UseEntry.ClearRevealedSecrets);
      PageCounts(r).editable == 0 && PageCounts(r).changes == 0 && PageCounts(r).entries == PageCounts(s).entries
  {
    DisplayedAppend(s.entries, [marker]);
    assert Displayed([marker]) == [] by {
      assert [marker][..0] == [];
    }
    assert Displayed(s.entries) + [] == Displayed(s.entries);
  }

  // ----- The download -----

  /** The exported item of a listed entry: its full identifier as key, its value and flag. */
  function ExportItem(e: Entry): BatchItem {
    BatchItem(IdOf(e), e.value, e.secure)
  }

  /** The array `handleDownload` serialises: one item per listed entry, in order. */
  function Export(entries: seq<Entry>): (items: seq<BatchItem>)
    ensures var shown := Displayed(entries);
      |items| == |shown| && forall i :: 0 <= i < |shown| ==> items[i] == ExportItem(shown[i])
  {
    var shown := Displayed(entries);
    seq(|shown|, i requires 0 <= i < |shown| => ExportItem(shown[i]))
  }

  /** An exported item as the JSON object `JSON.stringify` writes. */
  function ItemJson(item: BatchItem): ImportJsonForm.Json {
    ImportJsonForm.JObject(map[
      "key" := ImportJsonForm.JString(item.key),
      "value" := ImportJsonForm.JString(item.value),
      "secure" := ImportJsonForm.JBool(item.secure)])
  }

  /** The exported file's content, as the JSON value it denotes. */
  function ExportJson(items: seq<BatchItem>): ImportJsonForm.Json {
    ImportJsonForm.JArray(seq(|items|, i requires 0 <= i < |items| => ItemJson(items[i])))
  }

  /** A downloaded file passes the import form's schema, and importing it submits exactly the
      exported items: full identifiers as keys, values and flags unchanged. */
  lemma {:induction false} ExportImportRoundTrip(entries: seq<Entry>)
    ensures ImportJsonForm.MatchesSchema(ExportJson(Export(entries)))
    ensures ImportJsonForm.Submittable(ImportJsonForm.Parsed(ExportJson(Export(entries))))
    ensures ImportJsonForm.ImportBatch(ExportJson(Export(entries)).items) == Export(entries)
  {
    var items := Export(entries);
    var json := ExportJson(items);
    forall i | 0 <= i < |items|
      ensures ImportJsonForm.SchemaItem(json.items[i])
      ensures ImportJsonForm.ImportItem(json.items[i]) == items[i]
    {
      assert json.items[i] == ItemJson(items[i]);
      ItemJsonImported(items[i]);
    }
  }

  /** One exported object is read back by the import form as the item it came from. */
  lemma {:induction false} ItemJsonImported(item: BatchItem)
    ensures ImportJsonForm.SchemaItem(ItemJson(item))
    ensures ImportJsonForm.ImportItem(ItemJson(item)) == item
  {
    var j := ItemJson(item);
    assert j.members["key"] == ImportJsonForm.JString(item.key);
    assert j.members["value"] == ImportJsonForm.JString(item.value);
    assert j.members["secure"] == ImportJsonForm.JBool(item.secure);
  }

  /** `entries-${prefix?.split("/").slice(0, -1).join("-")}.json`: a missing prefix renders
      as `undefined`. */
  function DownloadName(prefix: Option<string>): string {
    match prefix
    case None => "entries-undefined.json"
    case Some(p) =>
      var segments := Split(p, '/');
      "entries-" + Join(segments[..|segments| - 1], "-") + ".json"
  }

  /** For a directory prefix `a/b/c/`, the name joins its segments with dashes:
      `entries-a-b-c.json`. A prefix without a slash, the empty one included, gives
      `entries-.json`, and no prefix gives `entries-undefined.json`. */
  lemma {:induction false} DownloadNameOfDirectory(segments: seq<string>)
    requires forall i :: 0 <= i < |segments| ==> '/' !in segments[i]
    ensures DownloadName(Some(Join(segments, "/") + "/")) == "entries-" + Join(segments, "-") + ".json"
  {
    var pieces := segments + [""];
    assert forall i :: 0 <= i < |pieces| ==> '/' !in pieces[i];
    SplitOfJoin(pieces, '/');
    if segments == [] {
      assert Join(pieces, "/") == "";
      assert Join(segments, "/") + "/" == "/";
      SplitAround("", '/', "");
      SplitNoSeparator("", '/');
      assert Split("/", '/') == ["", ""];
    } else {
      JoinAppend(segments, [""], "/");
      assert Join(pieces, "/") == Join(segments, "/") + "/";
    }
    assert pieces[..|pieces| - 1] == segments;
  }

  /** The names of the degenerate prefixes. */
  lemma {:induction false} DownloadNameWithoutDirectory(p: string)
    requires '/' !in p
    ensures DownloadName(Some(p)) == "entries-.json"
    ensures DownloadName(None) == "entries-undefined.json"
  {
    SplitNoSeparator(p, '/');
  }

  // ----- The action response -----

  /** The ids a response invalidates: the saved ids of a success or a partial error, none
      for a validation error. */
  function InvalidatedBy(response: Validations.EntryActionResponse): set<string> {
    match response
    case Success(_, savedIds) => set i | 0 <= i < |savedIds| :: savedIds[i]
    case PartialError(_, savedIds, _) => set i | 0 <= i < |savedIds| :: savedIds[i]
    case ValidationError(_) => {}
  }

  /** The effect on the fetcher's data: `savedIds.forEach(id => invalidateSecret(id))` on the
      given cache instance for `success` and `partial_error`; nothing for
      `validation_error`. The toasts are not modelled. */
  method HandleResponse(response: Validations.EntryActionResponse, cache: RetrieveSecret.SecretCache)
    requires cache.Valid()
    modifies cache
    ensures cache.Valid()
    ensures cache.cache == old(cache.cache) - InvalidatedBy(response)
  {
    if response.ValidationError? {
      return;
    }
    var ids := response.savedIds;
    for i := 0 to |ids|
      invariant cache.Valid()
      invariant cache.cache == old(cache.cache) - set j | 0 <= j < i :: ids[j]
    {
      cache.InvalidateSecret(ids[i]);
      assert (set j | 0 <= j < i + 1 :: ids[j]) == (set j | 0 <= j < i :: ids[j]) + {ids[i]};
    }
  }

  /** After a response, no invalidated id is cached, and every other cached id keeps its
      value. */
  lemma {:induction false} InvalidationRemovesOnlySaved(before: map<string, string>, response: Validations.EntryActionResponse, id: string)
    ensures response.ValidationError? ==> before - InvalidatedBy(response) == before
    ensures id in InvalidatedBy(response) ==> id !in before - InvalidatedBy(response)
    ensures id !in InvalidatedBy(response) && id in before ==>
      id in before - InvalidatedBy(response) && (before - InvalidatedBy(response))[id] == before[id]
  {
    if response.ValidationError? {
      assert before - InvalidatedBy(response) == before;
    }
  }

  // ----- A reveal after a save -----

  /** The page as written: the hook holds one cache instance and the page creates another.
      A secure entry is revealed (its old secret is fetched and cached), its value is edited
      and saved, the successful response invalidates the saved id in the page's cache, and
      the entry is revealed again while the endpoint would now answer the new secret. The
      hook's cache still holds the old secret, so the old secret is shown and nothing is
      fetched. */
  method StaleRevealAfterSave(e: Entry, oldSecret: string, newSecret: string) returns (shown: string, fetched: bool)
    requires oldSecret != "" && newSecret != e.value
    ensures shown == oldSecret && !fetched
  {
    var hook := new UseEntry.EntryHook([e]);
    var pageCache := new RetrieveSecret.SecretCache();
    var id := IdOf(e);
    var first, firstFetched := hook.ToggleSecretVisibility(id, RetrieveSecret.Response(true, oldSecret));
    hook.StartEditingEntry(e);
    hook.RecordEntryChange(id, e.key, newSecret, e.secure);
    var sent := hook.SaveEntry(e);
    assert hook.state.revealed == map[];
    HandleResponse(Validations.Success("", [id]), pageCache);
    shown, fetched := hook.ToggleSecretVisibility(id, RetrieveSecret.Response(true, newSecret));
  }

  /** The same steps with the response handled on the hook's own cache instance: the saved
      id is dropped from the cache the reveal reads, so the reveal fetches and shows the new
      secret. */
  method FreshRevealAfterSave(e: Entry, oldSecret: string, newSecret: string) returns (shown: string, fetched: bool)
    requires oldSecret != "" && newSecret != e.value
    ensures shown == newSecret && fetched
  {
    var hook := new UseEntry.EntryHook([e]);
    var id := IdOf(e);
    var first, firstFetched := hook.ToggleSecretVisibility(id, RetrieveSecret.Response(true, oldSecret));
    hook.StartEditingEntry(e);
    hook.RecordEntryChange(id, e.key, newSecret, e.secure);
    var sent := hook.SaveEntry(e);
    assert hook.state.revealed == map[];
    HandleResponse(Validations.Success("", [id]), hook.cache);
    assert [id][0] == id;
    assert InvalidatedBy(Validations.Success("", [id])) == {id};
    shown, fetched := hook.ToggleSecretVisibility(id, RetrieveSecret.Response(true, newSecret));
  }
}
