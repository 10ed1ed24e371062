/** One row of the entry table (`app/components/entry/editable-row.tsx`): the values shown
    while editing (the pending change, else the entry's own), the value shown when not
    editing, the reducer action each edit control dispatches, and the row's key bindings. */
module EditableRow {
  import opened Wrappers
  import opened Domain
  import UseEntry

  /** `changes.get(entryId)`. */
  function PendingChange(e: Entry, changes: map<string, Change>): Option<Change> {
    if IdOf(e) in changes then Some(changes[IdOf(e)]) else None
  }

  /** `pendingChange?.newName ?? entry.key`. */
  function CurrentName(e: Entry, pending: Option<Change>): string {
    if pending.Some? then pending.value.newName else e.key
  }

  /** `pendingChange?.newValue ?? entry.actualValue ?? entry.value`. */
  function CurrentValue(e: Entry, pending: Option<Change>): string {
    if pending.Some? then pending.value.newValue else e.actualValue.GetOr(e.value)
  }

  /** `pendingChange?.newSecure ?? entry.secure`. */
  function CurrentSecure(e: Entry, pending: Option<Change>): bool {
    if pending.Some? then pending.value.newSecure else e.secure
  }

  /** A pending change supplies all three shown values, even empty ones; without one the
      row shows the key, the actual value when there is one (else the listed value), and
      the listed flag. */
  lemma {:induction false} PendingChangeWins(e: Entry, pending: Option<Change>)
    ensures pending.Some? ==>
      Change(CurrentName(e, pending), CurrentValue(e, pending), CurrentSecure(e, pending)) == pending.value
    ensures pending.None? ==>
      && CurrentName(e, pending) == e.key
      && CurrentValue(e, pending) == (if e.actualValue.Some? then e.actualValue.value else e.value)
      && CurrentSecure(e, pending) == e.secure
  {
  }

  /** `getDisplayValue`: the listed value, except for a revealed secure entry, which shows
      its revealed secret when that is non-empty and the current value otherwise. */
  function DisplayValue(e: Entry, isRevealed: bool, revealed: map<string, string>, pending: Option<Change>): (shown: string)
    ensures !e.secure || !isRevealed ==> shown == e.value
    ensures e.secure && isRevealed && IdOf(e) in revealed && revealed[IdOf(e)] != "" ==> shown == revealed[IdOf(e)]
    ensures e.secure && isRevealed && (IdOf(e) !in revealed || revealed[IdOf(e)] == "") ==> shown == CurrentValue(e, pending)
  {
    if !e.secure then e.value
    else if isRevealed then
      if IdOf(e) in revealed && revealed[IdOf(e)] != "" then revealed[IdOf(e)] else CurrentValue(e, pending)
    else e.value
  }

  /** The name input's `onChange`: the new name with the current value and flag. */
  function OnNameChange(e: Entry, pending: Option<Change>, newName: string): UseEntry.Action {
    UseEntry.UpdateEntryChange(IdOf(e), newName, CurrentValue(e, pending), CurrentSecure(e, pending))
  }

  /** The value input's `onChange`: the new value with the current name and flag. */
  function OnValueChange(e: Entry, pending: Option<Change>, newValue: string): UseEntry.Action {
    UseEntry.UpdateEntryChange(IdOf(e), CurrentName(e, pending), newValue, CurrentSecure(e, pending))
  }

  /** The switch's `onCheckedChange`: the new flag with the current name and value. */
  function OnSecureChange(e: Entry, pending: Option<Change>, newSecure: bool): UseEntry.Action {
    UseEntry.UpdateEntryChange(IdOf(e), CurrentName(e, pending), CurrentValue(e, pending), newSecure)
  }

  /** Dispatching an edit control's action changes exactly one of the three shown values of
      the row, and keeps the other two as they were shown. */
  lemma {:induction false} EachEditChangesOneField(s: UseEntry.State, e: Entry, name: string, value: string, secure: bool)
    ensures var p := PendingChange(e, s.changes);
      var q := PendingChange(e, UseEntry.Step(s, OnNameChange(e, p, name)).changes);
      CurrentName(e, q) == name && CurrentValue(e, q) == CurrentValue(e, p) && CurrentSecure(e, q) == CurrentSecure(e, p)
    ensures var p := PendingChange(e, s.changes);
      var q := PendingChange(e, UseEntry.Step(s, OnValueChange(e, p, value)).changes);
      CurrentName(e, q) == CurrentName(e, p) && CurrentValue(e, q) == value && CurrentSecure(e, q) == CurrentSecure(e, p)
    ensures var p := PendingChange(e, s.changes);
      var q := PendingChange(e, UseEntry.Step(s, OnSecureChange(e, p, secure)).changes);
      CurrentName(e, q) == CurrentName(e, p) && CurrentValue(e, q) == CurrentValue(e, p) && CurrentSecure(e, q) == secure
  {
  }

  /** The row's save button is disabled while more than one entry is being edited. */
  predicate SaveDisabled(editableCount: nat) {
    editableCount > 1
  }

  /** What a key press in an edit input triggers. */
  datatype RowCommand = Save(entry: Entry) | Cancel(entryId: string)

  /** `handleKeyDown`: Enter saves the entry, Escape cancels the edit of its id, any other
      key does nothing. */
  function KeyDown(e: Entry, key: string): (command: Option<RowCommand>)
    ensures command == Some(Save(e)) <==> key == "Enter"
    ensures command == Some(Cancel(IdOf(e))) <==> key == "Escape"
    ensures command.None? <==> key != "Enter" && key != "Escape"
  {
    if key == "Enter" then Some(Save(e))
    else if key == "Escape" then Some(Cancel(IdOf(e)))
    else None
  }
}
