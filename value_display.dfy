/** The value cell of a row (`app/components/entry/value-display.tsx`): a value longer than
    `maxLength` (60 unless given) is cut and followed by `...`; the full-value dialog is
    offered only for a cut value, the visibility toggle only for a secure one. Lengths are
    JavaScript's, counted in UTF-16 code units. */
module ValueDisplay {
  import opened Strings

  const DefaultMaxLength: nat := 60

  /** `value.length > maxLength`. */
  predicate ShouldTruncate(value: string, maxLength: nat) {
    Utf16Length(value) > maxLength
  }

  /** How many whole characters of `s`, from its start, fit in `budget` code units. */
  function FittingChars(s: string, budget: nat): (n: nat)
    ensures n <= |s| && Utf16Length(s[..n]) <= budget
    ensures n < |s| ==> Utf16Length(s[..n + 1]) > budget
    decreases |s|
  {
    if s == [] then 0
    else if Utf16Units(s[0]) > budget then
      assert s[..1][1..] == [];
      0
    else
      var m := FittingChars(s[1..], budget - Utf16Units(s[0]));
      assert s[..m + 1][1..] == s[1..][..m];
      assert m < |s| - 1 ==> s[..m + 2][1..] == s[1..][..m + 1];
      m + 1
  }

  /** `shouldTruncate ? value.substring(0, maxLength) + "..." : value`: the cut keeps the
      longest run of whole characters within `maxLength` code units. */
  function Displayed(value: string, maxLength: nat): (shown: string)
    ensures !ShouldTruncate(value, maxLength) ==> shown == value
    ensures ShouldTruncate(value, maxLength) ==>
      && |shown| >= 3 && shown[|shown| - 3..] == "..."
      && var head := shown[..|shown| - 3];
        && |head| < |value| && head == value[..|head|]
        && Utf16Length(head) <= maxLength < Utf16Length(value[..|head| + 1])
  {
    if ShouldTruncate(value, maxLength) then
      var n := FittingChars(value, maxLength);
      assert value[..|value|] == value;
      var shown := value[..n] + "...";
      assert shown[..|shown| - 3] == value[..n];
      shown
    else value
  }

  /** On text without surrogate pairs, code units are characters and the cut is exactly
      `value.substring(0, maxLength)`. */
  lemma {:induction false} DisplayedWithoutSurrogates(value: string, maxLength: nat)
    requires forall i :: 0 <= i < |value| ==> value[i] as int < 0x1_0000
    ensures ShouldTruncate(value, maxLength) <==> |value| > maxLength
    ensures |value| > maxLength ==> Displayed(value, maxLength) == value[..maxLength] + "..."
  {
    if |value| > maxLength {
      var shown := Displayed(value, maxLength);
      var head := shown[..|shown| - 3];
      assert forall i :: 0 <= i < |head| ==> head[i] == value[i];
      assert forall i :: 0 <= i < |head| + 1 ==> value[..|head| + 1][i] == value[i];
      assert |head| == maxLength;
      assert shown == head + "...";
    }
  }

  /** A cut head is followed in the value by a character that would overflow the limit, and that
      character takes at most two code units: the head plus `...` lands on `maxLength + 2` or
      `maxLength + 3` code units. */
  lemma {:induction false} CutLength(head: string, next: char, maxLength: nat)
    requires Utf16Length(head) <= maxLength < Utf16Length(head + [next])
    ensures maxLength + 2 <= Utf16Length(head + "...") <= maxLength + 3
  {
    Utf16LengthSnoc(head, next);
    Utf16LengthAppend(head, "...");
    assert Utf16Length("...") == 3;
  }

  /** An uncut value is at most `maxLength` code units; a cut one shows `maxLength + 2` or
      `maxLength + 3`. */
  lemma {:induction false} DisplayedBounds(value: string, maxLength: nat)
    ensures !ShouldTruncate(value, maxLength) ==> Utf16Length(Displayed(value, maxLength)) <= maxLength
    ensures ShouldTruncate(value, maxLength) ==>
      maxLength + 2 <= Utf16Length(Displayed(value, maxLength)) <= maxLength + 3
  {
    if ShouldTruncate(value, maxLength) {
      var shown := Displayed(value, maxLength);
      var head := shown[..|shown| - 3];
      assert shown == head + "...";
      assert value[..|head| + 1] == head + [value[|head|]];
      CutLength(head, value[|head|], maxLength);
    }
  }

  /** Which controls the cell offers: the full-value dialog and the visibility toggle. */
  datatype Controls = Controls(fullValueDialog: bool, visibilityToggle: bool)

  function ControlsFor(value: string, isSecure: bool, maxLength: nat): (c: Controls)
    ensures c.fullValueDialog <==> Utf16Length(value) > maxLength
    ensures c.visibilityToggle <==> isSecure
  {
    Controls(ShouldTruncate(value, maxLength), isSecure)
  }
}
