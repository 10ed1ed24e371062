/** The entry records of `app/domain/entry.ts`, the identifier every component derives from
    them, and the FormData encoding of a submission batch that the editing hook and the JSON
    import both send to the entry endpoint. */
module Domain {
  import opened Wrappers
  import Strings

  /** An entry as listed under a path (the source's `EntryEditable`). Its `isEditing` flag is
      never read by the core and is not modelled. */
  datatype Entry = Entry(key: string, value: string, secure: bool, actualValue: Option<string>, path: string)

  /** The identifier `path + "/" + key` used for editing state, revealed secrets, the secret
      cache and submission keys. */
  function EntryId(path: string, key: string): (id: string)
    ensures |id| == |path| + 1 + |key|
    ensures id[..|path|] == path && id[|path|] == '/' && id[|path| + 1..] == key
  {
    path + "/" + key
  }

  function IdOf(e: Entry): string {
    EntryId(e.path, e.key)
  }

  /** Under one path, different keys give different identifiers. */
  lemma {:induction false} EntryIdInjective(path: string, k1: string, k2: string)
    ensures EntryId(path, k1) == EntryId(path, k2) <==> k1 == k2
  {
    if EntryId(path, k1) == EntryId(path, k2) {
      assert k1 == EntryId(path, k1)[|path| + 1..];
    }
  }

  /** A pending change to one entry: its new name, value and secure flag. */
  datatype Change = Change(newName: string, newValue: string, newSecure: bool)

  /** One upsert of a submission batch: a fully qualified key, a value and a secure flag. */
  datatype BatchItem = BatchItem(key: string, value: string, secure: bool)

  /** One `(name, value)` pair of a FormData body. */
  datatype FormField = FormField(name: string, value: string)

  /** `String(b)`. */
  function BoolToString(b: bool): string {
    if b then "true" else "false"
  }

  /** The field name `entries[<index>][<field>]`. */
  function FieldName(index: nat, field: string): string {
    "entries[" + Strings.NatToString(index) + "][" + field + "]"
  }

  /** The three fields a batch item is submitted as, at position `index`. */
  function EncodeItem(index: nat, item: BatchItem): (fields: seq<FormField>)
    ensures |fields| == 3
  {
    [ FormField(FieldName(index, "key"), item.key),
      FormField(FieldName(index, "value"), item.value),
      FormField(FieldName(index, "secure"), BoolToString(item.secure)) ]
  }

  /** The FormData body of a batch: item `i` at index `i`, three fields per item. */
  function EncodeBatch(batch: seq<BatchItem>): (form: seq<FormField>)
    ensures |form| == 3 * |batch|
    ensures forall i :: 0 <= i < |batch| ==> form[3 * i..3 * i + 3] == EncodeItem(i, batch[i])
  {
    if batch == [] then []
    else
      var init := EncodeBatch(batch[..|batch| - 1]);
      var r := init + EncodeItem(|batch| - 1, batch[|batch| - 1]);
      assert forall i :: 0 <= i < |batch| - 1 ==> r[3 * i..3 * i + 3] == init[3 * i..3 * i + 3];
      r
  }

  /** Appending an item appends its three fields, numbered with the next index. */
  lemma {:induction false} EncodeBatchAppend(batch: seq<BatchItem>, item: BatchItem)
    ensures EncodeBatch(batch + [item]) == EncodeBatch(batch) + EncodeItem(|batch|, item)
  {
    assert (batch + [item])[..|batch|] == batch;
  }
}
