/** The entry list behind the creation form (`app/hooks/use-entry-form.ts`): add a blank
    entry, remove one by position, update one field of one entry. Every operation returns a
    new list, so each is a function from the old list to the new one. */
module UseEntryForm {

  /** An entry of the form (the source's `Entry` without `actualValue`, which the form never
      sets). */
  datatype FormEntry = FormEntry(key: string, value: string, secure: bool)

  const Blank := FormEntry("", "", false)

  /** One call `updateEntry(index, field, value)`: the field named and a value of its type. */
  datatype FieldUpdate = SetKey(key: string) | SetValue(value: string) | SetSecure(secure: bool)

  /** `addEntry`: the list with one blank entry appended. */
  function AddEntry(entries: seq<FormEntry>): (r: seq<FormEntry>)
    ensures |r| == |entries| + 1
  {
    entries + [Blank]
  }

  /** `removeEntry(index)`: the `filter` keeping every position other than `index`. */
  function RemoveEntry(entries: seq<FormEntry>, index: int): (r: seq<FormEntry>)
    ensures |r| <= |entries|
    decreases |entries|
  {
    if entries == [] then []
    else
      var last := |entries| - 1;
      RemoveEntry(entries[..last], index) + if last == index then [] else [entries[last]]
  }

  /** Removing drops exactly position `index` and keeps the rest in order; an index outside
      the list removes nothing. */
  lemma {:induction false} RemoveEntryDropsIndex(entries: seq<FormEntry>, index: int)
    ensures 0 <= index < |entries| ==> RemoveEntry(entries, index) == entries[..index] + entries[index + 1..]
    ensures !(0 <= index < |entries|) ==> RemoveEntry(entries, index) == entries
    decreases |entries|
  {
    if entries != [] {
      var last := |entries| - 1;
      var init := entries[..last];
      RemoveEntryDropsIndex(init, index);
      if index == last {
        assert entries[index + 1..] == [];
        assert init == entries[..index];
      } else if 0 <= index < last {
        assert init[..index] == entries[..index];
        assert init[index + 1..] + [entries[last]] == entries[index + 1..];
      } else {
        assert init + [entries[last]] == entries;
      }
    }
  }

  /** Removing the entry just added gives the list back. */
  lemma {:induction false} RemoveUndoesAdd(entries: seq<FormEntry>)
    ensures RemoveEntry(AddEntry(entries), |entries|) == entries
  {
    RemoveEntryDropsIndex(AddEntry(entries), |entries|);
    assert AddEntry(entries)[..|entries|] == entries;
  }

  /** The entry with the one named field replaced. */
  function Apply(e: FormEntry, u: FieldUpdate): FormEntry {
    match u
    case SetKey(k) => e.(key := k)
    case SetValue(v) => e.(value := v)
    case SetSecure(b) => e.(secure := b)
  }

  /** `updateEntry(index, field, value)` on a copy of the list. The callers only pass the
      position of a listed entry. */
  function UpdateEntry(entries: seq<FormEntry>, index: nat, u: FieldUpdate): (r: seq<FormEntry>)
    requires index < |entries|
  {
    entries[index := Apply(entries[index], u)]
  }

  /** An update keeps the length and every other entry, and changes only the named field of
      the entry at `index`. */
  lemma {:induction false} UpdateEntryChangesOneField(entries: seq<FormEntry>, index: nat, u: FieldUpdate)
    requires index < |entries|
    ensures var r := UpdateEntry(entries, index, u);
      && |r| == |entries|
      && (forall j :: 0 <= j < |entries| && j != index ==> r[j] == entries[j])
      && (u.SetKey? ==> r[index] == FormEntry(u.key, entries[index].value, entries[index].secure))
      && (u.SetValue? ==> r[index] == FormEntry(entries[index].key, u.value, entries[index].secure))
      && (u.SetSecure? ==> r[index] == FormEntry(entries[index].key, entries[index].value, u.secure))
  {
  }

  /** Two updates of the same field of the same entry: the second one wins. */
  lemma {:induction false} UpdateSameFieldLastWins(entries: seq<FormEntry>, index: nat, u1: FieldUpdate, u2: FieldUpdate)
    requires index < |entries|
    requires (u1.SetKey? && u2.SetKey?) || (u1.SetValue? && u2.SetValue?) || (u1.SetSecure? && u2.SetSecure?)
    ensures UpdateEntry(UpdateEntry(entries, index, u1), index, u2) == UpdateEntry(entries, index, u2)
  {
  }

  /** Adding appends a blank entry after the unchanged earlier ones. */
  lemma {:induction false} AddEntryKeepsEarlier(entries: seq<FormEntry>)
    ensures AddEntry(entries)[..|entries|] == entries
    ensures AddEntry(entries)[|entries|] == FormEntry("", "", false)
  {
  }
}
