/** The entry-editing state machine of `app/hooks/use-entry.ts`: the reducer over the editing
    state, the batch the save operations submit, and the hook whose operations dispatch reducer
    steps around the secret fetch and the submission. */
module UseEntry {
  import opened Wrappers
  import opened Domain
  import RetrieveSecret

  const LoadingSecretMessage: string := "Loading secret..."

  /** The reducer state: the entry list, the ids in edit mode, the pending change per id,
      the revealed plaintext per id, and the loading indicator with its message. */
  datatype State = State(
    entries: seq<Entry>,
    editing: set<string>,
    changes: map<string, Change>,
    revealed: map<string, string>,
    isLoading: bool,
    loadingMessage: string)

  /** The reducer's actions, one constructor per case of the source's action union. */
  datatype Action =
    | SetEntries(list: seq<Entry>)
    | UpdateEntryChange(entryId: string, newName: string, newValue: string, newSecure: bool)
    | FinishSingleEdit(id: string)
    | StartLoading(message: string)
    | FinishLoading
    | RevealSecret(id: string, secret: string)
    | HideSecret(id: string)
    | StartEditEntry(id: string)
    | CancelEditEntry(id: string)
    | StartGlobalEdit
    | FinishGlobalEdit
    | ClearRevealedSecrets

  function InitialState(entries: seq<Entry>): State {
    State(entries, {}, map[], map[], false, "")
  }

  /** The identifiers of a list of entries, as `new Set(entries.map(...))` builds them. */
  function IdsOf(entries: seq<Entry>): (ids: set<string>)
    ensures forall e :: e in entries ==> IdOf(e) in ids
    ensures forall id :: id in ids ==> exists e :: e in entries && IdOf(e) == id
  {
    set e | e in entries :: IdOf(e)
  }

  /** `entryReducer`. */
  function Step(s: State, a: Action): State {
    match a
    case SetEntries(list) => s.(entries := list, editing := {}, changes := map[])
    case UpdateEntryChange(id, n, v, sec) => s.(changes := s.changes[id := Change(n, v, sec)])
    case FinishSingleEdit(id) => s.(editing := s.editing - {id}, changes := s.changes - {id})
    case CancelEditEntry(id) => s.(editing := s.editing - {id}, changes := s.changes - {id})
    case StartLoading(m) => s.(isLoading := true, loadingMessage := m)
    case FinishLoading => s.(isLoading := false)
    case RevealSecret(id, v) => s.(revealed := s.revealed[id := v])
    case HideSecret(id) => s.(revealed := s.revealed - {id})
    case StartEditEntry(id) => s.(editing := s.editing + {id})
    case StartGlobalEdit => s.(editing := IdsOf(s.entries))
    case FinishGlobalEdit => s.(editing := {}, changes := map[])
    case ClearRevealedSecrets => s.(revealed := map[])
  }

  /** Each action changes only the components it names: which actions can replace the
      entries, and which can grow the editing set, the changes, the revealed secrets or
      the loading flag and message. */
  lemma {:induction false} StepChangesOnlyItsComponents(s: State, a: Action)
    ensures var r := Step(s, a);
      && (r.entries != s.entries ==> a.SetEntries?)
      && (!(r.editing <= s.editing) ==> a.StartEditEntry? || a.StartGlobalEdit?)
      && (!(r.changes.Keys <= s.changes.Keys) ==> a.UpdateEntryChange?)
      && (!(r.revealed.Keys <= s.revealed.Keys) ==> a.RevealSecret?)
      && (r.isLoading != s.isLoading ==> a.StartLoading? || a.FinishLoading?)
      && (r.loadingMessage != s.loadingMessage ==> a.StartLoading?)
  {
  }

  /** Dispatching a list of actions in order. */
  function Run(s: State, actions: seq<Action>): State
    decreases |actions|
  {
    if actions == [] then s else Run(Step(s, actions[0]), actions[1..])
  }

  // ----- Properties of single transitions -----

  /** Loading a list replaces the entries and ends every edit; revealed secrets and the
      loading indicator are untouched. */
  lemma {:induction false} SetEntriesResetsEditing(s: State, list: seq<Entry>)
    ensures var r := Step(s, SetEntries(list));
      r.entries == list && r.editing == {} && r.changes == map[]
      && r.revealed == s.revealed && r.isLoading == s.isLoading && r.loadingMessage == s.loadingMessage
  {
  }

  /** Recording a change is last-write-wins for its id, leaves other ids' changes alone and
      does not touch the editing set. */
  lemma {:induction false} UpdateChangeLastWriteWins(s: State, id: string, c1: Change, c2: Change, other: string)
    requires other != id
    ensures var r := Step(Step(s, UpdateEntryChange(id, c1.newName, c1.newValue, c1.newSecure)),
                          UpdateEntryChange(id, c2.newName, c2.newValue, c2.newSecure));
      && r == Step(s, UpdateEntryChange(id, c2.newName, c2.newValue, c2.newSecure))
      && r.changes[id] == c2
      && (other in r.changes <==> other in s.changes)
      && (other in s.changes ==> r.changes[other] == s.changes[other])
      && r.editing == s.editing
  {
    var r1 := Step(s, UpdateEntryChange(id, c1.newName, c1.newValue, c1.newSecure));
    assert r1.changes[id := c2] == s.changes[id := c2];
  }

  /** Finishing or cancelling one edit removes exactly that id from the editing set and the
      pending changes, and nothing else changes. */
  lemma {:induction false} EndSingleEditRemovesOnlyThatId(s: State, id: string)
    ensures Step(s, FinishSingleEdit(id)) == Step(s, CancelEditEntry(id))
    ensures var r := Step(s, CancelEditEntry(id));
      && id !in r.editing && id !in r.changes
      && (forall x :: x != id ==> (x in r.editing <==> x in s.editing))
      && (forall x :: x != id && x in s.changes ==> x in r.changes && r.changes[x] == s.changes[x])
      && r.entries == s.entries && r.revealed == s.revealed
      && r.isLoading == s.isLoading && r.loadingMessage == s.loadingMessage
  {
  }

  /** Starting a global edit sets the editing set to exactly the ids of the current entries,
      replacing what was there, and keeps the pending changes. */
  lemma {:induction false} GlobalEditSelectsExactlyCurrentIds(s: State, id: string)
    ensures var r := Step(s, StartGlobalEdit);
      && (id in r.editing <==> exists e :: e in s.entries && IdOf(e) == id)
      && r.changes == s.changes && r.entries == s.entries && r.revealed == s.revealed
  {
  }

  /** Revealing an id that is not revealed and then hiding it restores the revealed map. */
  lemma {:induction false} RevealThenHideRestores(s: State, id: string, secret: string)
    requires id !in s.revealed
    ensures Step(Step(s, RevealSecret(id, secret)), HideSecret(id)).revealed == s.revealed
  {
    assert s.revealed[id := secret] - {id} == s.revealed;
  }

  // ----- Sequences of row edits -----

  /** The last start-edit or cancel action that concerns `id`: Some(true) for a start,
      Some(false) for a cancel, None when no action concerns it. */
  function LastEditDecision(actions: seq<Action>, id: string): Option<bool>
    decreases |actions|
  {
    if actions == [] then None
    else
      var last := actions[|actions| - 1];
      if last.StartEditEntry? && last.id == id then Some(true)
      else if last.CancelEditEntry? && last.id == id then Some(false)
      else LastEditDecision(actions[..|actions| - 1], id)
  }

  predicate IsRowEditAction(a: Action) {
    a.StartEditEntry? || a.CancelEditEntry?
  }

  lemma {:induction false} RunAppend(s: State, actions: seq<Action>, a: Action)
    ensures Run(s, actions + [a]) == Step(Run(s, actions), a)
    decreases |actions|
  {
    if actions != [] {
      assert (actions + [a])[1..] == actions[1..] + [a];
      RunAppend(Step(s, actions[0]), actions[1..], a);
    }
  }

  /** Any sequence of start-edit and cancel actions leaves each id in edit mode exactly when
      the last action about it was a start (or, when none was, when it was in edit mode
      before); a cancelled id's pending change is gone, every other pending change stays. */
  lemma {:induction false} RowEditsNetEffect(s: State, actions: seq<Action>, id: string)
    requires forall i :: 0 <= i < |actions| ==> IsRowEditAction(actions[i])
    ensures var r := Run(s, actions);
      && (id in r.editing <==> LastEditDecision(actions, id).GetOr(id in s.editing))
      && (id in r.changes <==> id in s.changes && (forall i :: 0 <= i < |actions| ==> actions[i] != CancelEditEntry(id)))
      && (id in r.changes ==> r.changes[id] == s.changes[id])
      && r.entries == s.entries && r.revealed == s.revealed
    decreases |actions|
  {
    if actions != [] {
      var init := actions[..|actions| - 1];
      var last := actions[|actions| - 1];
      assert actions == init + [last];
      RunAppend(s, init, last);
      RowEditsNetEffect(s, init, id);
    }
  }

  // ----- What the save operations submit -----

  /** The batch item an entry with a pending change is submitted as: the key rebuilt from
      the entry's path and the new name, with the new value and secure flag. */
  function ItemFor(e: Entry, c: Change): (item: BatchItem)
    ensures item.key == EntryId(e.path, c.newName)
    ensures item.value == c.newValue && item.secure == c.newSecure
  {
    BatchItem(EntryId(e.path, c.newName), c.newValue, c.newSecure)
  }

  /** The batch `saveAllChanges` submits: one item per entry, in list order, whose id has a
      pending change. */
  function PendingBatch(entries: seq<Entry>, changes: map<string, Change>): (batch: seq<BatchItem>)
    ensures |batch| <= |entries|
    decreases |entries|
  {
    if entries == [] then []
    else
      var init := PendingBatch(entries[..|entries| - 1], changes);
      var e := entries[|entries| - 1];
      if IdOf(e) in changes then init + [ItemFor(e, changes[IdOf(e)])] else init
  }

  /** Every item of the batch comes from an entry with a pending change, and every entry with
      a pending change has its item in the batch, identical changes included. */
  lemma {:induction false} PendingBatchItems(entries: seq<Entry>, changes: map<string, Change>)
    ensures forall item :: item in PendingBatch(entries, changes) <==>
      exists e :: e in entries && IdOf(e) in changes && item == ItemFor(e, changes[IdOf(e)])
    decreases |entries|
  {
    if entries != [] {
      var init := entries[..|entries| - 1];
      PendingBatchItems(init, changes);
      assert entries == init + [entries[|entries| - 1]];
    }
  }

  /** The batch has as many items as there are entries with a pending change. */
  function CountPending(entries: seq<Entry>, changes: map<string, Change>): nat
    decreases |entries|
  {
    if entries == [] then 0
    else CountPending(entries[..|entries| - 1], changes) + (if IdOf(entries[|entries| - 1]) in changes then 1 else 0)
  }

  lemma {:induction false} PendingBatchLength(entries: seq<Entry>, changes: map<string, Change>)
    ensures |PendingBatch(entries, changes)| == CountPending(entries, changes)
    decreases |entries|
  {
    if entries != [] {
      PendingBatchLength(entries[..|entries| - 1], changes);
    }
  }

  /** Pending changes for ids that no entry has are dropped: the batch is the one the
      changes restricted to the listed ids would give. */
  lemma {:induction false} PendingBatchIgnoresUnknownIds(entries: seq<Entry>, changes: map<string, Change>)
    ensures PendingBatch(entries, changes) ==
      PendingBatch(entries, map id | id in changes && id in IdsOf(entries) :: changes[id])
    decreases |entries|
  {
    var restricted := map id | id in changes && id in IdsOf(entries) :: changes[id];
    if entries != [] {
      var init := entries[..|entries| - 1];
      PendingBatchIgnoresUnknownIds(init, changes);
      var restrictedInit := map id | id in changes && id in IdsOf(init) :: changes[id];
      PendingBatchDependsOnListedIds(init, restricted, restrictedInit);
    }
  }

  /** Two change maps that agree on the ids of the listed entries give the same batch. */
  lemma {:induction false} PendingBatchDependsOnListedIds(entries: seq<Entry>, c1: map<string, Change>, c2: map<string, Change>)
    requires forall e :: e in entries ==> (IdOf(e) in c1 <==> IdOf(e) in c2)
    requires forall e :: e in entries && IdOf(e) in c1 ==> c1[IdOf(e)] == c2[IdOf(e)]
    ensures PendingBatch(entries, c1) == PendingBatch(entries, c2)
    decreases |entries|
  {
    if entries != [] {
      PendingBatchDependsOnListedIds(entries[..|entries| - 1], c1, c2);
    }
  }

  /** The single item `saveEntry` submits, or None when there is no real change: no pending
      change, or one whose name, value and secure flag all equal the entry's key, value (not
      its revealed value) and secure flag. */
  function SingleSaveItem(e: Entry, changes: map<string, Change>): (r: Option<BatchItem>)
    ensures r.None? <==> IdOf(e) !in changes || changes[IdOf(e)] == Change(e.key, e.value, e.secure)
    ensures r.Some? ==> r.value == ItemFor(e, changes[IdOf(e)])
  {
    var id := IdOf(e);
    if id in changes
       && (changes[id].newName != e.key || changes[id].newValue != e.value || changes[id].newSecure != e.secure)
    then Some(ItemFor(e, changes[id]))
    else None
  }

  /** The loop of `saveAllChanges`: walks the entries, and for each one with a pending change
      appends its three fields at the next index. */
  method BuildSubmission(entries: seq<Entry>, changes: map<string, Change>) returns (form: seq<FormField>, count: nat)
    ensures count == |PendingBatch(entries, changes)|
    ensures form == EncodeBatch(PendingBatch(entries, changes))
  {
    form := [];
    count := 0;
    var i := 0;
    while i < |entries|
      invariant 0 <= i <= |entries|
      invariant count == |PendingBatch(entries[..i], changes)|
      invariant form == EncodeBatch(PendingBatch(entries[..i], changes))
    {
      var original := entries[i];
      var entryId := IdOf(original);
      ghost var done := PendingBatch(entries[..i], changes);
      assert entries[..i + 1][..i] == entries[..i];
      if entryId in changes {
        var pending := changes[entryId];
        var updated := BatchItem(EntryId(original.path, pending.newName), pending.newValue, pending.newSecure);
        assert PendingBatch(entries[..i + 1], changes) == done + [updated];
        EncodeBatchAppend(done, updated);
        form := form + EncodeItem(count, updated);
        count := count + 1;
      } else {
        assert PendingBatch(entries[..i + 1], changes) == done;
      }
      i := i + 1;
    }
    assert entries[..i] == entries;
  }

  /** The hook: the reducer state it holds and its own instance of the secret cache. */
  class EntryHook {
    var state: State
    const cache: RetrieveSecret.SecretCache

    ghost predicate Valid()
      reads this, cache
    {
      cache.Valid()
    }

    constructor (initialEntries: seq<Entry>)
      ensures Valid() && fresh(cache)
      ensures state == InitialState(initialEntries) && cache.cache == map[]
    {
      state := InitialState(initialEntries);
      cache := new RetrieveSecret.SecretCache();
    }

    method Dispatch(a: Action)
      modifies this`state
      ensures state == Step(old(state), a)
    {
      state := Step(state, a);
    }

    /** The effect that reloads the list when the loader's entries change. */
    method LoadEntries(list: seq<Entry>)
      modifies this`state
      ensures state == Step(old(state), SetEntries(list))
    {
      Dispatch(SetEntries(list));
    }

    method StartEditingEntry(entry: Entry)
      modifies this`state
      ensures state == Step(old(state), StartEditEntry(IdOf(entry)))
    {
      Dispatch(StartEditEntry(IdOf(entry)));
    }

    method StartGlobalEditing()
      modifies this`state
      ensures state == Step(old(state), StartGlobalEdit)
    {
      Dispatch(StartGlobalEdit);
    }

    method CancelAllEdits()
      modifies this`state
      ensures state == Step(old(state), FinishGlobalEdit)
    {
      Dispatch(FinishGlobalEdit);
    }

    method CancelEdit(id: string)
      modifies this`state
      ensures state == Step(old(state), CancelEditEntry(id))
    {
      Dispatch(CancelEditEntry(id));
    }

    method RecordEntryChange(entryId: string, newName: string, newValue: string, newSecure: bool)
      modifies this`state
      ensures state == Step(old(state), UpdateEntryChange(entryId, newName, newValue, newSecure))
    {
      Dispatch(UpdateEntryChange(entryId, newName, newValue, newSecure));
    }

    /** `toggleSecretVisibility(id)`: a revealed id is hidden without a fetch. Otherwise the
        loading indicator is raised, the cache is asked (with `response` standing for what the
        endpoint would answer on a miss), a non-empty answer is revealed, and the indicator is
        lowered again, keeping its message. Only `revealed`, `isLoading` and `loadingMessage`
        can change. */
    method ToggleSecretVisibility(id: string, response: RetrieveSecret.SecretResponse) returns (secret: string, fetched: bool)
      requires Valid()
      modifies this`state, cache
      ensures Valid()
      ensures state.entries == old(state.entries) && state.editing == old(state.editing)
      ensures state.changes == old(state.changes)
      ensures id in old(state.revealed) ==>
        && state == Step(old(state), HideSecret(id))
        && !fetched && cache.cache == old(cache.cache)
      ensures id !in old(state.revealed) ==>
        && !state.isLoading && state.loadingMessage == LoadingSecretMessage
        && state.revealed == (if secret != "" then old(state.revealed)[id := secret] else old(state.revealed))
        && (fetched <==> id !in old(cache.cache))
        && (!fetched ==> secret == old(cache.cache)[id])
        && (fetched ==> secret == RetrieveSecret.Retrieve(response).GetOr(""))
        && cache.cache == (if fetched && RetrieveSecret.Retrieve(response).Some? then old(cache.cache)[id := secret] else old(cache.cache))
    {
      if id in state.revealed {
        Dispatch(HideSecret(id));
        return "", false;
      }
      Dispatch(StartLoading(LoadingSecretMessage));
      secret, fetched := cache.GetSecret(id, response);
      if secret != "" {
        Dispatch(RevealSecret(id, secret));
      }
      Dispatch(FinishLoading);
    }

    /** `saveAllChanges()`: with no pending change nothing is submitted and global edit ends.
        Otherwise the pending batch is submitted and editing, pending changes and revealed
        secrets are all emptied. `sent` is the submitted FormData body, if any. */
    method SaveAllChanges() returns (sent: Option<seq<FormField>>)
      modifies this`state
      ensures old(state.changes) == map[] ==> sent.None? && state == Step(old(state), FinishGlobalEdit)
      ensures old(state.changes) != map[] ==>
        && sent == Some(EncodeBatch(PendingBatch(old(state.entries), old(state.changes))))
        && state == Step(Step(old(state), FinishGlobalEdit), ClearRevealedSecrets)
    {
      if |state.changes| == 0 {
        Dispatch(FinishGlobalEdit);
        return None;
      }
      var form, count := BuildSubmission(state.entries, state.changes);
      sent := Some(form);
      Dispatch(FinishGlobalEdit);
      Dispatch(ClearRevealedSecrets);
    }

    /** `saveEntry(entry)`: without a real change only that entry leaves edit mode; with one,
        the single item is submitted at index 0, the entry leaves edit mode and every revealed
        secret is cleared. */
    method SaveEntry(entry: Entry) returns (sent: Option<seq<FormField>>)
      modifies this`state
      ensures SingleSaveItem(entry, old(state.changes)).None? ==>
        sent.None? && state == Step(old(state), FinishSingleEdit(IdOf(entry)))
      ensures SingleSaveItem(entry, old(state.changes)).Some? ==>
        && sent == Some(EncodeBatch([SingleSaveItem(entry, old(state.changes)).value]))
        && state == Step(Step(old(state), FinishSingleEdit(IdOf(entry))), ClearRevealedSecrets)
    {
      var entryId := IdOf(entry);
      var hasRealChanges := entryId in state.changes
        && (state.changes[entryId].newName != entry.key
            || state.changes[entryId].newValue != entry.value
            || state.changes[entryId].newSecure != entry.secure);
      if !hasRealChanges {
        Dispatch(FinishSingleEdit(entryId));
        return None;
      }
      var pending := state.changes[entryId];
      var updated := BatchItem(EntryId(entry.path, pending.newName), pending.newValue, pending.newSecure);
      sent := Some(EncodeItem(0, updated));
      assert EncodeBatch([updated]) == EncodeItem(0, updated);
      Dispatch(FinishSingleEdit(entryId));
      Dispatch(ClearRevealedSecrets);
    }
  }

  // ----- Consequences for the save operations -----

  /** After a submitting `saveAllChanges`, editing, pending changes and revealed secrets are
      all empty and the entries are untouched. */
  lemma {:induction false} SaveAllEmptiesEditingState(s: State)
    ensures var r := Step(Step(s, FinishGlobalEdit), ClearRevealedSecrets);
      r.editing == {} && r.changes == map[] && r.revealed == map[] && r.entries == s.entries
  {
  }

  /** After a submitting `saveEntry`, the entry has left edit mode, its change is gone, other
      rows keep their edit state, and every revealed secret is cleared. */
  lemma {:induction false} SaveEntryClearsRevealed(s: State, e: Entry, other: string)
    requires other != IdOf(e)
    ensures var r := Step(Step(s, FinishSingleEdit(IdOf(e))), ClearRevealedSecrets);
      && IdOf(e) !in r.editing && IdOf(e) !in r.changes && r.revealed == map[]
      && (other in r.editing <==> other in s.editing) && (other in r.changes <==> other in s.changes)
  {
  }

  /** Two rows with different ids: edit all, change the first row's value, save all. Only the
      first row is submitted, under its own id, and the editing state is emptied. */
  lemma {:induction false} GlobalEditScenario(a: Entry, b: Entry, newValue: string)
    requires IdOf(a) != IdOf(b)
    ensures
      var s1 := Step(InitialState([a, b]), StartGlobalEdit);
      var s2 := Step(s1, UpdateEntryChange(IdOf(a), a.key, newValue, a.secure));
      && s1.editing == {IdOf(a), IdOf(b)}
      && PendingBatch(s2.entries, s2.changes) == [BatchItem(IdOf(a), newValue, a.secure)]
      && Step(Step(s2, FinishGlobalEdit), ClearRevealedSecrets).editing == {}
  {
    var s1 := Step(InitialState([a, b]), StartGlobalEdit);
    var s2 := Step(s1, UpdateEntryChange(IdOf(a), a.key, newValue, a.secure));
    TwoIds(a, b);
    assert s2.entries == [a, b] && s2.changes == map[IdOf(a) := Change(a.key, newValue, a.secure)];
    OneChangedRowBatch(a, b, newValue);
  }

  lemma {:induction false} TwoIds(a: Entry, b: Entry)
    ensures IdsOf([a, b]) == {IdOf(a), IdOf(b)}
  {
    assert a in [a, b] && b in [a, b];
  }

  /** With a change recorded for the first of two rows only, the batch is that row's item. */
  lemma {:induction false} OneChangedRowBatch(a: Entry, b: Entry, newValue: string)
    requires IdOf(a) != IdOf(b)
    ensures PendingBatch([a, b], map[IdOf(a) := Change(a.key, newValue, a.secure)])
      == [BatchItem(IdOf(a), newValue, a.secure)]
  {
    assert [a, b][..1] == [a] && [a][..0] == [];
  }
}
