/** The entry action of `app/routes/api.entry.ts`: FormData fields named
    `entries[<digits>][<word>]` are grouped into records by index, the records are listed in
    the order JavaScript's `Object.values` gives, validated with the entry schemas, upserted,
    and the outcome is classified as success, partial_error or validation_error. */
module ApiEntry {
  import opened Wrappers
  import opened Strings
  import opened Domain
  import opened Validations
  import EntryRepository

  // ----- The field-name pattern /entries\[(\d+)]\[(\w+)]/ -----

  predicate InClass(c: char, digits: bool) {
    if digits then IsDigit(c) else IsWordChar(c)
  }

  /** The length of the longest run of `\d` (or `\w`) characters starting at `i`. */
  function RunLength(s: string, i: nat, digits: bool): (n: nat)
    requires i <= |s|
    ensures i + n <= |s|
    decreases |s| - i
  {
    if i < |s| && InClass(s[i], digits) then 1 + RunLength(s, i + 1, digits) else 0
  }

  /** The run is made of class characters and cannot be extended. */
  lemma {:induction false} RunLengthMaximal(s: string, i: nat, digits: bool)
    requires i <= |s|
    ensures var n := RunLength(s, i, digits);
      && (forall k :: i <= k < i + n ==> InClass(s[k], digits))
      && (i + n == |s| || !InClass(s[i + n], digits))
    decreases |s| - i
  {
    if i < |s| && InClass(s[i], digits) {
      RunLengthMaximal(s, i + 1, digits);
    }
  }

  /** A run of class characters ended by a character outside the class is the longest run. */
  lemma {:induction false} RunLengthExact(s: string, i: nat, n: nat, digits: bool)
    requires i + n < |s|
    requires forall k :: i <= k < i + n ==> InClass(s[k], digits)
    requires !InClass(s[i + n], digits)
    ensures RunLength(s, i, digits) == n
    decreases n
  {
    if n > 0 {
      RunLengthExact(s, i + 1, n - 1, digits);
    }
  }

  const Opening := "entries["

  /** The pattern tried at position `p`. Both runs are greedy, and the character after each run
      must be `]`, which no run character is, so no shorter run can match either. */
  function MatchAt(s: string, p: nat): Option<(string, string)>
    requires p <= |s|
  {
    var a := p + 8;
    if a > |s| || s[p..a] != Opening then None
    else
      var b := a + RunLength(s, a, true);
      if b == a || b + 2 > |s| || s[b] != ']' || s[b + 1] != '[' then None
      else
        var c := b + 2 + RunLength(s, b + 2, false);
        if c == b + 2 || c >= |s| || s[c] != ']' then None
        else Some((s[a..b], s[b + 2..c]))
  }

  /** What the pattern means: at `p`, `entries[`, `d >= 1` digits, `][`, `w >= 1` word
      characters and `]`. */
  predicate Matches(s: string, p: nat, d: nat, w: nat) {
    var a := p + 8;
    var b := a + d;
    var c := b + 2 + w;
    && c < |s| && s[p..a] == Opening
    && d >= 1 && (forall k :: a <= k < b ==> IsDigit(s[k]))
    && s[b] == ']' && s[b + 1] == '['
    && w >= 1 && (forall k :: b + 2 <= k < c ==> IsWordChar(s[k]))
    && s[c] == ']'
  }

  /** When `MatchAt` finds a match, the pattern matches there with the captured runs. */
  lemma {:induction false} MatchAtSound(s: string, p: nat)
    requires p <= |s| && MatchAt(s, p).Some?
    ensures exists d, w :: Matches(s, p, d, w)
  {
    var a := p + 8;
    var b := a + RunLength(s, a, true);
    RunLengthMaximal(s, a, true);
    var c := b + 2 + RunLength(s, b + 2, false);
    RunLengthMaximal(s, b + 2, false);
    assert Matches(s, p, b - a, c - b - 2);
  }

  /** Wherever the pattern matches, `MatchAt` returns the captures of that match, which is
      therefore the only match at `p`. */
  lemma {:induction false} MatchAtComplete(s: string, p: nat, d: nat, w: nat)
    requires Matches(s, p, d, w)
    ensures MatchAt(s, p) == Some((s[p + 8..p + 8 + d], s[p + 10 + d..p + 10 + d + w]))
  {
    var a := p + 8;
    RunLengthExact(s, a, d, true);
    RunLengthExact(s, a + d + 2, w, false);
  }

  /** `MatchAt` finds a match exactly when the pattern matches at `p`. */
  lemma {:induction false} MatchAtIsTheMatch(s: string, p: nat)
    requires p <= |s|
    ensures MatchAt(s, p).Some? <==> exists d, w :: Matches(s, p, d, w)
  {
    if MatchAt(s, p).Some? {
      MatchAtSound(s, p);
    }
    if d, w :| Matches(s, p, d, w) {
      MatchAtComplete(s, p, d, w);
    }
  }

  /** The leftmost match at or after `p`. */
  function MatchFrom(s: string, p: nat): Option<(string, string)>
    requires p <= |s|
    decreases |s| - p
  {
    var m := MatchAt(s, p);
    if m.Some? then m else if p == |s| then None else MatchFrom(s, p + 1)
  }

  /** `name.match(regex)`: the captures of the leftmost match. */
  function Match(s: string): Option<(string, string)> {
    MatchFrom(s, 0)
  }

  lemma {:induction false} MatchFromFindsAny(s: string, p: nat)
    requires p <= |s|
    ensures MatchFrom(s, p).Some? <==> exists q, d, w :: p <= q <= |s| && Matches(s, q, d, w)
    decreases |s| - p
  {
    MatchAtIsTheMatch(s, p);
    if MatchAt(s, p).None? && p < |s| {
      MatchFromFindsAny(s, p + 1);
      forall q, d, w | p <= q <= |s| && Matches(s, q, d, w) ensures p + 1 <= q {
      }
    }
    if MatchAt(s, p).None? && p == |s| {
      forall q, d, w | p <= q <= |s| ensures !Matches(s, q, d, w) {
        assert q == p;
      }
    }
  }

  /** Only names containing `entries[<digits>][<word>]` somewhere match. */
  lemma {:induction false} MatchOnlyOnPattern(s: string)
    ensures Match(s).Some? <==> exists q, d, w :: 0 <= q <= |s| && Matches(s, q, d, w)
  {
    MatchFromFindsAny(s, 0);
  }

  /** A field name `entries[<digits>][<field>]`. */
  function Name(digits: string, field: string): string {
    Opening + digits + "][" + field + "]"
  }

  lemma {:induction false} FieldNameIsName(i: nat, field: string)
    ensures FieldName(i, field) == Name(NatToString(i), field)
  {
  }

  /** Where the parts of `entries[<digits>][<field>]` sit. */
  lemma {:induction false} NameLayout(digits: string, field: string)
    ensures var s := Name(digits, field);
      && |s| == |digits| + |field| + 11
      && s[..8] == Opening
      && (forall k :: 8 <= k < 8 + |digits| ==> s[k] == digits[k - 8])
      && s[8 + |digits|] == ']' && s[9 + |digits|] == '['
      && (forall k :: 10 + |digits| <= k < 10 + |digits| + |field| ==> s[k] == field[k - 10 - |digits|])
      && s[|s| - 1] == ']'
  {
  }

  /** In a name `entries[<digits>][<field>]` whose field has no `[` and does not start with a
      digit, the pattern cannot match after the start: the only `[` followed by a digit is the
      first one. */
  lemma {:induction false} NoMatchAfterStart(digits: string, field: string, p: nat, d: nat, w: nat)
    requires AllDigits(digits) && field != "" && '[' !in field && !IsDigit(field[0])
    requires 1 <= p
    ensures !Matches(Name(digits, field), p, d, w)
  {
    var s := Name(digits, field);
    NameLayout(digits, field);
    if p + 8 < |s| {
      if p <= |digits| {
        assert s[p + 7] == digits[p - 1];
      } else if p == |digits| + 1 {
        assert s[p + 7] == ']';
      } else if p == |digits| + 2 {
        assert s[p + 8] == field[0];
      } else if p + 7 < |s| - 1 {
        assert s[p + 7] == field[p - 3 - |digits|];
      }
    }
  }

  /** For such a name, matching reduces to trying the start. */
  lemma {:induction false} NameMatchesAtStart(digits: string, field: string)
    requires AllDigits(digits) && field != "" && '[' !in field && !IsDigit(field[0])
    ensures Match(Name(digits, field)) == MatchAt(Name(digits, field), 0)
  {
    var s := Name(digits, field);
    if MatchAt(s, 0).None? {
      forall q, d, w | 1 <= q <= |s| ensures !Matches(s, q, d, w) {
        NoMatchAfterStart(digits, field, q, d, w);
      }
      MatchFromFindsAny(s, 1);
    }
  }

  /** A field the `(\w+)` group captures whole: word characters, not starting with a digit. */
  predicate WordField(field: string) {
    field != "" && (forall k :: 0 <= k < |field| ==> IsWordChar(field[k])) && !IsDigit(field[0])
  }

  /** The three fields the encoder writes are word fields. */
  lemma {:induction false} EncodedFieldsAreWords()
    ensures WordField("key") && WordField("value") && WordField("secure")
  {
    assert "key" == ['k', 'e', 'y'];
    assert "value" == ['v', 'a', 'l', 'u', 'e'];
    assert "secure" == ['s', 'e', 'c', 'u', 'r', 'e'];
  }

  /** A name with an index and a word field matches with those two as captures. */
  lemma {:induction false} MatchName(digits: string, field: string)
    requires digits != "" && AllDigits(digits)
    requires WordField(field)
    ensures Match(Name(digits, field)) == Some((digits, field))
  {
    var s := Name(digits, field);
    var d, w := |digits|, |field|;
    assert '[' !in field by {
      forall k | 0 <= k < w ensures field[k] != '[' {
        assert IsWordChar(field[k]);
      }
    }
    NameMatchesAtStart(digits, field);
    NameMatches(digits, field);
    MatchAtCaptures(s, digits, field);
  }

  /** The pattern matches a name at its start, around its digits and its field. */
  lemma {:induction false} NameMatches(digits: string, field: string)
    requires digits != "" && AllDigits(digits)
    requires WordField(field)
    ensures var s := Name(digits, field);
      && Matches(s, 0, |digits|, |field|)
      && s[8..8 + |digits|] == digits && s[10 + |digits|..10 + |digits| + |field|] == field
  {
    var s := Name(digits, field);
    NameLayout(digits, field);
    assert s[0..8] == Opening;
  }

  /** Where the pattern matches at the start around given runs, those runs are captured. */
  lemma {:induction false} MatchAtCaptures(s: string, digits: string, field: string)
    requires Matches(s, 0, |digits|, |field|)
    requires s[8..8 + |digits|] == digits && s[10 + |digits|..10 + |digits| + |field|] == field
    ensures MatchAt(s, 0) == Some((digits, field))
  {
    MatchAtComplete(s, 0, |digits|, |field|);
  }

  /** A name the encoder writes matches with its own index and field as captures. */
  lemma {:induction false} MatchFieldName(i: nat, field: string)
    requires WordField(field)
    ensures Match(FieldName(i, field)) == Some((NatToString(i), field))
  {
    FieldNameIsName(i, field);
    MatchName(NatToString(i), field);
  }

  /** The digit run of a name is its digits. */
  lemma {:induction false} DigitRun(digits: string, field: string)
    requires AllDigits(digits)
    ensures RunLength(Name(digits, field), 8, true) == |digits|
  {
    NameLayout(digits, field);
    RunLengthExact(Name(digits, field), 8, |digits|, true);
  }

  /** The word run of a name stops where its field stops having word characters. */
  lemma {:induction false} WordRun(digits: string, field: string, w: nat)
    requires w < |field| && (forall k :: 0 <= k < w ==> IsWordChar(field[k])) && !IsWordChar(field[w])
    ensures RunLength(Name(digits, field), 10 + |digits|, false) == w
  {
    var s := Name(digits, field);
    var d := |digits|;
    NameLayout(digits, field);
    forall k | 10 + d <= k < 10 + d + w ensures InClass(s[k], false) {
      assert s[k] == field[k - 10 - d];
    }
    assert s[10 + d + w] == field[w];
    RunLengthExact(s, 10 + d, w, false);
  }

  /** The display-only name `entries[<digits>][key-suffix]` does not match at all. */
  lemma {:induction false} KeySuffixNameIgnored(digits: string)
    requires AllDigits(digits)
    ensures Match(Name(digits, "key-suffix")) == None
  {
    KeySuffixShape();
    NameStopsAtNonWord(digits, "key-suffix", 3);
    NameMatchesAtStart(digits, "key-suffix");
  }

  /** `key-suffix` has no `[`, and its word run `key` is followed by `-`. */
  lemma {:induction false} KeySuffixShape()
    ensures var field := "key-suffix";
      && |field| == 10 && '[' !in field && !IsDigit(field[0])
      && (forall k :: 0 <= k < 3 ==> IsWordChar(field[k]))
      && !IsWordChar(field[3]) && field[3] != ']'
  {
    assert "key-suffix" == ['k', 'e', 'y', '-', 's', 'u', 'f', 'f', 'i', 'x'];
  }

  /** The pattern fails at the start of a name whose field has a character other than a word
      character or `]` after its first `w` characters. */
  lemma {:induction false} NameStopsAtNonWord(digits: string, field: string, w: nat)
    requires AllDigits(digits)
    requires w < |field| && (forall k :: 0 <= k < w ==> IsWordChar(field[k]))
    requires !IsWordChar(field[w]) && field[w] != ']'
    ensures MatchAt(Name(digits, field), 0) == None
  {
    var s := Name(digits, field);
    var d := |digits|;
    DigitRun(digits, field);
    WordRun(digits, field, w);
    assert 10 + d + w < |s| && s[..8] == Opening && s[8 + d] == ']' && s[9 + d] == '[' && s[10 + d + w] == field[w] by {
      NameLayout(digits, field);
    }
    MatchAtFailsAfterRuns(s, d, w);
  }

  /** The display-only field `entries[<index>][key-suffix]` of the form is ignored. */
  lemma {:induction false} KeySuffixIgnored(i: nat)
    ensures Match(FieldName(i, "key-suffix")) == None
  {
    FieldNameIsName(i, "key-suffix");
    KeySuffixNameIgnored(NatToString(i));
  }

  /** The pattern fails at the start when the word run is followed by something other
      than `]`. */
  lemma {:induction false} MatchAtFailsAfterRuns(s: string, d: nat, w: nat)
    requires 10 + d + w < |s| && s[..8] == Opening
    requires RunLength(s, 8, true) == d && s[8 + d] == ']' && s[9 + d] == '['
    requires RunLength(s, 10 + d, false) == w && s[10 + d + w] != ']'
    ensures MatchAt(s, 0) == None
  {
    assert s[0..8] == s[..8];
  }

  // ----- Grouping by index -----

  /** The `entries` object under construction: a record per index, and the order in which the
      indices were first seen. */
  datatype Grouped = Grouped(records: map<string, map<string, string>>, order: seq<string>)

  /** The indices listed are exactly the record keys, each once. */
  ghost predicate Consistent(g: Grouped) {
    && (forall k :: k in g.records <==> k in g.order)
    && Distinct(g.order)
  }

  /** One iteration of the loop: a matching field sets `entries[index][key] = value`, creating
      the record on first sight of the index; any other field is skipped. */
  function Absorb(g: Grouped, field: FormField): Grouped {
    match Match(field.name)
    case None => g
    case Some((index, key)) =>
      if index in g.records then Grouped(g.records[index := g.records[index][key := field.value]], g.order)
      else Grouped(g.records[index := map[key := field.value]], g.order + [index])
  }

  /** The grouping loop over the fields of a form, in order. */
  function Group(form: seq<FormField>): Grouped
    decreases |form|
  {
    if form == [] then Grouped(map[], []) else Absorb(Group(form[..|form| - 1]), form[|form| - 1])
  }

  /** Each step keeps the order listing every record's index exactly once. */
  lemma {:induction false} AbsorbConsistent(g: Grouped, field: FormField)
    requires Consistent(g)
    ensures Consistent(Absorb(g, field))
  {
    match Match(field.name)
    case None =>
    case Some((index, key)) =>
      if index !in g.records {
        assert forall i :: 0 <= i < |g.order| ==> g.order[i] != index;
      }
  }

  /** The grouping of any form lists every record's index exactly once. */
  lemma {:induction false} GroupConsistent(form: seq<FormField>)
    ensures Consistent(Group(form))
    decreases |form|
  {
    if form != [] {
      GroupConsistent(form[..|form| - 1]);
      AbsorbConsistent(Group(form[..|form| - 1]), form[|form| - 1]);
    }
  }

  lemma {:induction false} GroupSnoc(form: seq<FormField>, field: FormField)
    ensures Group(form + [field]) == Absorb(Group(form), field)
  {
    assert (form + [field])[..|form|] == form;
  }

  /** Only matching fields contribute: a field the pattern does not match changes nothing. */
  lemma {:induction false} NonMatchingFieldIgnored(form: seq<FormField>, field: FormField)
    requires Match(field.name).None?
    ensures Group(form + [field]) == Group(form)
  {
    GroupSnoc(form, field);
  }

  /** Fields sharing an index land in one record, and a repeated index and field keeps the
      last value; every other record and field is kept. */
  lemma {:induction false} LastValueWins(form: seq<FormField>, field: FormField, index: string, key: string)
    requires Match(field.name) == Some((index, key))
    ensures var before := Group(form); var after := Group(form + [field]);
      && index in after.records && after.records[index][key] == field.value
      && (forall j :: j in before.records && j != index ==> j in after.records && after.records[j] == before.records[j])
      && (index in before.records ==> forall f :: f in before.records[index] && f != key ==>
            f in after.records[index] && after.records[index][f] == before.records[index][f])
  {
    GroupSnoc(form, field);
  }

  // ----- The order of Object.values -----

  /** The numeric value of an array-index key, -1 for any other key. */
  function IndexValue(k: string): int {
    if IsArrayIndex(k) then DigitsValue(k) else -1
  }

  /** Insertion of a key before the first key of larger value. */
  function InsertByIndex(k: string, sorted: seq<string>): (r: seq<string>)
    ensures multiset(r) == multiset(sorted) + multiset{k}
    ensures forall x :: x in r <==> x in sorted || x == k
    decreases |sorted|
  {
    if sorted == [] then [k]
    else if IndexValue(k) < IndexValue(sorted[0]) then [k] + sorted
    else
      assert sorted == [sorted[0]] + sorted[1..];
      [sorted[0]] + InsertByIndex(k, sorted[1..])
  }

  predicate AscendingByIndex(s: seq<string>) {
    forall i, j :: 0 <= i < j < |s| ==> IndexValue(s[i]) <= IndexValue(s[j])
  }

  lemma {:induction false} InsertByIndexSorted(k: string, sorted: seq<string>)
    requires AscendingByIndex(sorted)
    ensures AscendingByIndex(InsertByIndex(k, sorted))
    decreases |sorted|
  {
    if sorted != [] && IndexValue(k) >= IndexValue(sorted[0]) {
      InsertByIndexSorted(k, sorted[1..]);
      var r := InsertByIndex(k, sorted[1..]);
      forall i | 0 <= i < |r| ensures IndexValue(sorted[0]) <= IndexValue(r[i]) {
        assert r[i] in r;
        if r[i] != k {
          var j :| 0 <= j < |sorted[1..]| && sorted[1..][j] == r[i];
          assert sorted[j + 1] == r[i];
        }
      }
    }
  }

  lemma {:induction false} InsertByIndexAtEnd(k: string, sorted: seq<string>)
    requires forall i :: 0 <= i < |sorted| ==> IndexValue(sorted[i]) <= IndexValue(k)
    ensures InsertByIndex(k, sorted) == sorted + [k]
    decreases |sorted|
  {
    if sorted != [] {
      InsertByIndexAtEnd(k, sorted[1..]);
    }
  }

  /** The array-index keys sorted by value (stable). */
  function SortByIndex(keys: seq<string>): (r: seq<string>)
    ensures multiset(r) == multiset(keys)
    decreases |keys|
  {
    if keys == [] then []
    else
      assert keys == keys[..|keys| - 1] + [keys[|keys| - 1]];
      InsertByIndex(keys[|keys| - 1], SortByIndex(keys[..|keys| - 1]))
  }

  lemma {:induction false} SortByIndexSorted(keys: seq<string>)
    ensures AscendingByIndex(SortByIndex(keys))
    decreases |keys|
  {
    if keys != [] {
      SortByIndexSorted(keys[..|keys| - 1]);
      InsertByIndexSorted(keys[|keys| - 1], SortByIndex(keys[..|keys| - 1]));
    }
  }

  /** The keys satisfying (or failing) `IsArrayIndex`, in their order. */
  function FilterIndex(keys: seq<string>, wanted: bool): (r: seq<string>)
    ensures forall i :: 0 <= i < |r| ==> IsArrayIndex(r[i]) == wanted
    decreases |keys|
  {
    if keys == [] then []
    else
      FilterIndex(keys[..|keys| - 1], wanted)
        + if IsArrayIndex(keys[|keys| - 1]) == wanted then [keys[|keys| - 1]] else []
  }

  lemma {:induction false} FilterIndexSplits(keys: seq<string>)
    ensures multiset(FilterIndex(keys, true)) + multiset(FilterIndex(keys, false)) == multiset(keys)
    decreases |keys|
  {
    if keys != [] {
      FilterIndexSplits(keys[..|keys| - 1]);
      assert keys == keys[..|keys| - 1] + [keys[|keys| - 1]];
    }
  }

  /** `Object.values` order: array-index keys by ascending value, then the other keys in the
      order they were first added. */
  function ValuesOrder(order: seq<string>): (r: seq<string>)
    ensures multiset(r) == multiset(order)
    ensures forall k :: k in r <==> k in order
  {
    FilterIndexSplits(order);
    var r := SortByIndex(FilterIndex(order, true)) + FilterIndex(order, false);
    assert forall k :: k in r <==> k in multiset(order);
    r
  }

  /** Records of canonical indices come out by ascending index, ahead of any other key. */
  lemma {:induction false} ValuesOrderAscending(order: seq<string>)
    ensures var r := ValuesOrder(order);
      forall i, j :: 0 <= i < j < |r| && IsArrayIndex(r[j]) ==>
        IsArrayIndex(r[i]) && DigitsValue(r[i]) <= DigitsValue(r[j])
  {
    var sorted := SortByIndex(FilterIndex(order, true));
    SortByIndexSorted(FilterIndex(order, true));
    forall i | 0 <= i < |sorted| ensures IsArrayIndex(sorted[i]) {
      assert sorted[i] in multiset(FilterIndex(order, true));
    }
  }

  /** `{ secure: false, ...entry }` read as a raw entry for the schema. */
  function ToRaw(fields: map<string, string>): (r: RawEntry)
    ensures r.key.Some? <==> "key" in fields
    ensures r.value.Some? <==> "value" in fields
    ensures r.secure.Flag? <==> "secure" !in fields
    ensures r.secure.Flag? ==> !r.secure.flag
  {
    RawEntry(
      if "key" in fields then Some(fields["key"]) else None,
      if "value" in fields then Some(fields["value"]) else None,
      if "secure" in fields then Text(fields["secure"]) else Flag(false))
  }

  /** `Object.values(entries).map(...)` on a grouping. */
  function Values(g: Grouped): (raws: seq<RawEntry>)
    requires Consistent(g)
    ensures |raws| == |g.order|
  {
    var keys := ValuesOrder(g.order);
    assert |keys| == |multiset(g.order)|;
    seq(|keys|, i requires 0 <= i < |keys| => ToRaw(g.records[keys[i]]))
  }

  /** `parseEntriesFromFormData(formData)`, as a function of the fields. */
  function ParseSpec(form: seq<FormField>): seq<RawEntry> {
    GroupConsistent(form);
    Values(Group(form))
  }

  /** `parseEntriesFromFormData`: one pass over the fields filling the `entries` object. */
  method ParseEntriesFromFormData(form: seq<FormField>) returns (raws: seq<RawEntry>)
    ensures raws == ParseSpec(form)
  {
    var records: map<string, map<string, string>> := map[];
    var order: seq<string> := [];
    for i := 0 to |form|
      invariant Grouped(records, order) == Group(form[..i])
    {
      assert form[..i + 1] == form[..i] + [form[i]];
      GroupSnoc(form[..i], form[i]);
      ghost var before := Grouped(records, order);
      var m := Match(form[i].name);
      if m.Some? {
        var (index, key) := m.value;
        if index !in records {
          records := records[index := map[]];
          order := order + [index];
        }
        records := records[index := records[index][key := form[i].value]];
      }
      assert Grouped(records, order) == Absorb(before, form[i]);
    }
    assert form[..|form|] == form;
    GroupConsistent(form);
    raws := Values(Grouped(records, order));
  }

  // ----- Round trip with the encoder -----

  function Indices(n: nat): (r: seq<string>)
    ensures |r| == n
  {
    seq(n, i requires 0 <= i < n => NatToString(i))
  }

  lemma {:induction false} IndicesSnoc(n: nat)
    ensures Indices(n + 1) == Indices(n) + [NatToString(n)]
  {
    var a, b := Indices(n + 1), Indices(n) + [NatToString(n)];
    forall i | 0 <= i < n + 1 ensures a[i] == b[i] {
    }
  }

  /** The record a batch item is submitted as. */
  function ItemFields(item: BatchItem): map<string, string> {
    map["key" := item.key, "value" := item.value, "secure" := BoolToString(item.secure)]
  }

  function ExpectedRecords(batch: seq<BatchItem>): (m: map<string, map<string, string>>)
    ensures forall k :: k in m <==> k in Indices(|batch|)
    decreases |batch|
  {
    if batch == [] then map[]
    else
      var n := |batch| - 1;
      IndicesSnoc(n);
      ExpectedRecords(batch[..n])[NatToString(n) := ItemFields(batch[n])]
  }

  lemma {:induction false} ExpectedRecordsAt(batch: seq<BatchItem>, i: nat)
    requires i < |batch|
    ensures NatToString(i) in ExpectedRecords(batch) && ExpectedRecords(batch)[NatToString(i)] == ItemFields(batch[i])
    decreases |batch|
  {
    var n := |batch| - 1;
    if i < n {
      ExpectedRecordsAt(batch[..n], i);
      NatToStringInjective(i, n);
    }
  }

  /** A matching field whose index is new opens a record holding that field, listed last. */
  lemma {:induction false} AbsorbNew(g: Grouped, f: FormField, index: string, key: string)
    requires index !in g.records && Match(f.name) == Some((index, key))
    ensures Absorb(g, f) == Grouped(g.records[index := map[key := f.value]], g.order + [index])
  {
  }

  /** A matching field whose index has a record sets that field of the record. */
  lemma {:induction false} AbsorbKnown(g: Grouped, f: FormField, index: string, key: string)
    requires index in g.records && Match(f.name) == Some((index, key))
    ensures Absorb(g, f) == Grouped(g.records[index := g.records[index][key := f.value]], g.order)
  {
  }

  /** Three fields naming the key, value and secure flag of one fresh index make one new
      record, listed last. */
  lemma {:induction false} AbsorbThree(g: Grouped, index: string, f0: FormField, f1: FormField, f2: FormField)
    requires index !in g.records
    requires Match(f0.name) == Some((index, "key"))
    requires Match(f1.name) == Some((index, "value"))
    requires Match(f2.name) == Some((index, "secure"))
    ensures Absorb(Absorb(Absorb(g, f0), f1), f2)
      == Grouped(g.records[index := map["key" := f0.value, "value" := f1.value, "secure" := f2.value]], g.order + [index])
  {
    AbsorbNew(g, f0, index, "key");
    var g1 := Absorb(g, f0);
    AbsorbKnown(g1, f1, index, "value");
    var g2 := Absorb(g1, f1);
    AbsorbKnown(g2, f2, index, "secure");
    assert g2.records[index]["secure" := f2.value] == map["key" := f0.value, "value" := f1.value, "secure" := f2.value];
    assert g2.records[index := g2.records[index]["secure" := f2.value]]
      == g.records[index := map["key" := f0.value, "value" := f1.value, "secure" := f2.value]];
  }

  /** Appending such three fields to a form adds that record to its grouping. */
  lemma {:induction false} GroupAppendThree(form: seq<FormField>, index: string, f0: FormField, f1: FormField, f2: FormField)
    requires index !in Group(form).records
    requires Match(f0.name) == Some((index, "key"))
    requires Match(f1.name) == Some((index, "value"))
    requires Match(f2.name) == Some((index, "secure"))
    ensures var g := Group(form);
      Group(form + [f0, f1, f2])
        == Grouped(g.records[index := map["key" := f0.value, "value" := f1.value, "secure" := f2.value]], g.order + [index])
  {
    assert form + [f0, f1, f2] == ((form + [f0]) + [f1]) + [f2];
    GroupSnoc(form, f0);
    GroupSnoc(form + [f0], f1);
    GroupSnoc(form + [f0] + [f1], f2);
    AbsorbThree(Group(form), index, f0, f1, f2);
  }

  /** Encoding one more item adds its record, under the next index, to the grouping. */
  lemma {:induction false} GroupEncodeStep(batch: seq<BatchItem>, item: BatchItem)
    requires NatToString(|batch|) !in Group(EncodeBatch(batch)).records
    ensures var g := Group(EncodeBatch(batch));
      Group(EncodeBatch(batch + [item]))
        == Grouped(g.records[NatToString(|batch|) := ItemFields(item)], g.order + [NatToString(|batch|)])
  {
    var n := |batch|;
    var f := EncodeItem(n, item);
    EncodeBatchAppend(batch, item);
    assert f == [f[0], f[1], f[2]];
    EncodedFieldsAreWords();
    MatchFieldName(n, "key");
    MatchFieldName(n, "value");
    MatchFieldName(n, "secure");
    GroupAppendThree(EncodeBatch(batch), NatToString(n), f[0], f[1], f[2]);
  }

  /** The index of the next item has no record yet. */
  lemma {:induction false} NextIndexIsFresh(batch: seq<BatchItem>)
    ensures NatToString(|batch|) !in ExpectedRecords(batch)
  {
    var n := |batch|;
    if NatToString(n) in ExpectedRecords(batch) {
      var j :| 0 <= j < n && Indices(n)[j] == NatToString(n);
      NatToStringInjective(j, n);
    }
  }

  /** Grouping an encoded batch gives one record per item, keyed and ordered by its index. */
  lemma {:induction false} GroupOfEncodeBatch(batch: seq<BatchItem>)
    ensures Group(EncodeBatch(batch)) == Grouped(ExpectedRecords(batch), Indices(|batch|))
    decreases |batch|
  {
    if batch != [] {
      var n := |batch| - 1;
      var init := batch[..n];
      GroupOfEncodeBatch(init);
      assert batch == init + [batch[n]];
      NextIndexIsFresh(init);
      GroupEncodeStep(init, batch[n]);
      IndicesSnoc(n);
    }
  }

  /** An ascending list is its own sort. */
  lemma {:induction false} SortOfAscending(keys: seq<string>)
    requires AscendingByIndex(keys)
    ensures SortByIndex(keys) == keys
    decreases |keys|
  {
    if keys != [] {
      var init := keys[..|keys| - 1];
      assert AscendingByIndex(init);
      SortOfAscending(init);
      InsertByIndexAtEnd(keys[|keys| - 1], init);
      assert init + [keys[|keys| - 1]] == keys;
    }
  }

  /** A list of array-index keys is kept whole by the index filter, and the other filter keeps
      nothing. */
  lemma {:induction false} FilterOfIndexKeys(keys: seq<string>)
    requires forall i :: 0 <= i < |keys| ==> IsArrayIndex(keys[i])
    ensures FilterIndex(keys, true) == keys && FilterIndex(keys, false) == []
    decreases |keys|
  {
    if keys != [] {
      var init := keys[..|keys| - 1];
      FilterOfIndexKeys(init);
      assert init + [keys[|keys| - 1]] == keys;
    }
  }

  /** The renderings of 0 .. n - 1 are listed by `Object.values` in that order. */
  lemma {:induction false} IndicesInOrder(n: nat)
    requires n <= 0xFFFF_FFFF
    ensures ValuesOrder(Indices(n)) == Indices(n)
  {
    var keys := Indices(n);
    forall i | 0 <= i < n ensures IsArrayIndex(keys[i]) && IndexValue(keys[i]) == i {
      ArrayIndexIsRendering(NatToString(i));
      DigitsValueOfNatToString(i);
    }
    FilterOfIndexKeys(keys);
    SortOfAscending(keys);
  }

  /** What the schema receives for an encoded batch: each item's own key and value, and its
      flag as the string `"true"` or `"false"`, in batch order. */
  function SchemaInput(batch: seq<BatchItem>): (raws: seq<RawEntry>)
    ensures |raws| == |batch|
  {
    seq(|batch|, i requires 0 <= i < |batch| =>
      RawEntry(Some(batch[i].key), Some(batch[i].value), Text(BoolToString(batch[i].secure))))
  }

  lemma {:induction false} ToRawItem(item: BatchItem)
    ensures ToRaw(ItemFields(item)) == RawEntry(Some(item.key), Some(item.value), Text(BoolToString(item.secure)))
  {
  }

  /** Parsing the form of an encoded batch hands the schema exactly its items, in order. */
  lemma {:induction false} ParseOfEncodeBatch(batch: seq<BatchItem>)
    requires |batch| <= 0xFFFF_FFFF
    ensures ParseSpec(EncodeBatch(batch)) == SchemaInput(batch)
  {
    var g := Grouped(ExpectedRecords(batch), Indices(|batch|));
    GroupOfEncodeBatch(batch);
    GroupConsistent(EncodeBatch(batch));
    IndicesInOrder(|batch|);
    var raws := Values(g);
    assert ParseSpec(EncodeBatch(batch)) == raws;
    var expected := SchemaInput(batch);
    forall i | 0 <= i < |batch| ensures raws[i] == expected[i] {
      ExpectedRecordsAt(batch, i);
      ToRawItem(batch[i]);
    }
  }

  /** Items the schema accepts: non-empty keys, a value for every secure item, distinct keys. */
  predicate AcceptableBatch(batch: seq<BatchItem>) {
    && (forall i :: 0 <= i < |batch| ==> batch[i].key != "" && (batch[i].secure ==> batch[i].value != ""))
    && (forall i, j :: 0 <= i < j < |batch| ==> batch[i].key != batch[j].key)
  }

  /** The flag's string form coerces back to the flag. */
  lemma {:induction false} CoerceFlagString(b: bool)
    ensures CoerceSecure(Text(BoolToString(b))) == b
  {
    assert "false" != "true" && "false" != "on" by {
      assert "false"[0] != "true"[0] && |"false"| != |"on"|;
    }
  }

  lemma {:induction false} AcceptableSchemaInput(batch: seq<BatchItem>)
    ensures Acceptable(SchemaInput(batch), CoerceSecure) <==> AcceptableBatch(batch)
  {
    var raws := SchemaInput(batch);
    forall i | 0 <= i < |batch| ensures CoerceSecure(raws[i].secure) == batch[i].secure {
      CoerceFlagString(batch[i].secure);
    }
    var keys := KeysOf(raws);
    assert forall i :: 0 <= i < |batch| ==> keys[i] == batch[i].key;
  }

  /** Encoding a batch, parsing the form and validating it gives the batch back exactly when
      the batch is acceptable. */
  lemma {:induction false} SubmissionRoundTrip(batch: seq<BatchItem>)
    requires |batch| <= 0xFFFF_FFFF
    ensures SafeParse(ParseSpec(EncodeBatch(batch)), CoerceSecure).Ok? <==> AcceptableBatch(batch)
    ensures AcceptableBatch(batch) ==> SafeParse(ParseSpec(EncodeBatch(batch)), CoerceSecure) == Ok(batch)
  {
    ParseOfEncodeBatch(batch);
    var raws := SchemaInput(batch);
    SafeParseAcceptsExactly(raws, CoerceSecure);
    AcceptableSchemaInput(batch);
    if AcceptableBatch(batch) {
      var items := SafeParse(raws, CoerceSecure).value;
      forall i | 0 <= i < |batch| ensures items[i] == batch[i] {
        CoerceFlagString(batch[i].secure);
      }
      assert items == batch;
    }
  }

  // ----- The action -----

  /** `Saved <n> entries.` */
  function SavedPart(n: nat): (part: string)
    ensures part != [] && part[0] == 'S' && part[|part| - 1] == '.'
  {
    "Saved " + NatToString(n) + " entries."
  }

  /** `Failed <m> entries.` */
  function FailedPart(m: nat): (part: string)
    ensures part != [] && part[0] == 'F' && part[|part| - 1] == '.'
  {
    "Failed " + NatToString(m) + " entries."
  }

  /** The summary message, case by case: each part only when its count is positive, separated
      by one space when both are there. */
  function SummaryMessage(saved: nat, failed: nat): string {
    if saved > 0 && failed > 0 then SavedPart(saved) + " " + FailedPart(failed)
    else if saved > 0 then SavedPart(saved)
    else if failed > 0 then FailedPart(failed)
    else ""
  }

  /** The untrimmed message: the saved part with its trailing space, then the failed part. */
  lemma {:induction false} TrimmedSummary(saved: nat, failed: nat, untrimmed: string)
    requires untrimmed ==
      (if saved > 0 then SavedPart(saved) + " " else "") + (if failed > 0 then FailedPart(failed) else "")
    ensures Trim(untrimmed) == SummaryMessage(saved, failed)
  {
    if saved > 0 && failed == 0 {
      assert untrimmed == SavedPart(saved) + " ";
      TrimTrailingSpace(SavedPart(saved));
    } else if saved > 0 {
      TrimBothParts(SavedPart(saved), FailedPart(failed), untrimmed);
    } else if failed > 0 {
      assert untrimmed == FailedPart(failed);
      TrimUnchanged(untrimmed);
    }
  }

  lemma {:induction false} TrimBothParts(a: string, b: string, untrimmed: string)
    requires a != [] && b != [] && a[0] == 'S' && b[|b| - 1] == '.'
    requires untrimmed == a + " " + b
    ensures Trim(untrimmed) == a + " " + b
  {
    TrimUnchanged(untrimmed);
  }

  /** The message built by appending the two parts, then trimmed. */
  method BuildMessage(saved: nat, failed: nat) returns (message: string)
    ensures message == SummaryMessage(saved, failed)
  {
    message := "";
    if saved > 0 {
      var part := SavedPart(saved);
      message := message + part + " ";
      assert message == part + " ";
    }
    ghost var head := message;
    if failed > 0 {
      message := message + FailedPart(failed);
    }
    assert message == head + (if failed > 0 then FailedPart(failed) else "");
    TrimmedSummary(saved, failed, message);
    message := Trim(message);
  }

  /** The response built once the upsert has answered: any error makes it a partial_error,
      otherwise it is a success with no errors. */
  function Classify(outcome: EntryRepository.Outcome): (r: EntryActionResponse)
    ensures r.PartialError? <==> |outcome.errors| > 0
    ensures r.Success? <==> |outcome.errors| == 0
    ensures r.savedIds == outcome.success
    ensures r.message == SummaryMessage(|outcome.success|, |outcome.errors|)
  {
    var message := SummaryMessage(|outcome.success|, |outcome.errors|);
    if |outcome.errors| > 0 then PartialError(message, outcome.success, outcome.errors)
    else Success(message, outcome.success)
  }

  /** The copy of the validated entries that is logged: secure values hidden. */
  function MaskForLogging(items: seq<BatchItem>): (masked: seq<BatchItem>)
    ensures |masked| == |items|
    ensures forall i :: 0 <= i < |items| && !items[i].secure ==> masked[i] == items[i]
    ensures forall i :: 0 <= i < |items| && items[i].secure ==>
      masked[i].key == items[i].key && masked[i].secure && masked[i].value == "********"
  {
    seq(|items|, i requires 0 <= i < |items| =>
      if items[i].secure then items[i].(value := "********") else items[i])
  }

  /** `action`: parse, validate, and either answer validation_error (400, nothing upserted) or
      upsert the validated entries unchanged and classify the reply. `reply` is what the
      upsert endpoint answered. When `Post` throws, the action has no handler of its own and
      builds no response (`None`). The schema coerces `secure` as written. */
  method Action(form: seq<FormField>, reply: EntryRepository.PostReply)
    returns (response: Option<EntryActionResponse>, upserted: Option<seq<BatchItem>>)
    ensures var parsed := SafeParse(ParseSpec(form), CoerceSecureAsWritten);
      && (parsed.Err? ==> response == Some(ValidationError(parsed.error)) && upserted == None)
      && (parsed.Ok? ==>
            && upserted == Some(parsed.value)
            && (response.None? <==> EntryRepository.PostThrows(reply))
            && (response.Some? ==> response.value == Classify(EntryRepository.UpsertOutcome(reply).value)))
    ensures (response.Some? && response.value.HttpStatus() == 400) <==> upserted.None?
  {
    var entriesData := ParseEntriesFromFormData(form);
    var result := SafeParse(entriesData, CoerceSecureAsWritten);
    if result.Err? {
      return Some(ValidationError(result.error)), None;
    }
    var validated := result.value;
    var logged := MaskForLogging(validated);
    var outcome := EntryRepository.Upsert(validated, reply);
    upserted := Some(validated);
    if outcome.None? {
      return None, upserted;
    }
    var savedIds, repoErrors := outcome.value.success, outcome.value.errors;
    var message := BuildMessage(|savedIds|, |repoErrors|);
    if |repoErrors| > 0 {
      response := Some(PartialError(message, savedIds, repoErrors));
    } else {
      response := Some(Success(message, savedIds));
    }
  }

  /** The parser never hands the schema the boolean `true` (a missing `secure` defaults to
      `false`, a present one is a string), so on the endpoint the written coercion and the
      corrected one parse alike. */
  lemma {:induction false} EndpointCoercionsAgree(form: seq<FormField>)
    ensures forall i :: 0 <= i < |ParseSpec(form)| ==> ParseSpec(form)[i].secure != Flag(true)
    ensures SafeParse(ParseSpec(form), CoerceSecureAsWritten) == SafeParse(ParseSpec(form), CoerceSecure)
  {
    var raws := ParseSpec(form);
    assert forall i :: 0 <= i < |raws| ==> raws[i].secure != Flag(true);
    SafeParseCoercionsAgree(raws);
  }

  /** A reply that is not ok throws in `Post`, so no outcome exists. A 2xx reply other than
      200 or 201 is reported as a partial_error with nothing saved and the one `message`
      error; a 200 or 201 reply that is not a list is a success that saved nothing. */
  lemma {:induction false} OtherSuccessStatusIsPartialError(reply: EntryRepository.PostReply)
    ensures EntryRepository.PostThrows(reply) <==> EntryRepository.UpsertOutcome(reply).None?
    ensures !EntryRepository.PostThrows(reply) && reply.status != 200 && reply.status != 201 ==>
      var r := Classify(EntryRepository.UpsertOutcome(reply).value);
      r.PartialError? && r.savedIds == [] && r.message == "Failed 1 entries."
    ensures (reply.status == 200 || reply.status == 201) && reply.body.Object? ==>
      Classify(EntryRepository.UpsertOutcome(reply).value) == Success("", [])
  {
    if !EntryRepository.PostThrows(reply) && reply.status != 200 && reply.status != 201 {
      var o := EntryRepository.UpsertOutcome(reply).value;
      assert |o.errors.Keys| == 1;
    }
  }
}
