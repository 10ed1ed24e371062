/** The template list (`app/routes/template/index.tsx`): the boxes whose service name or some
    stage name contains the search term, ignoring case, ordered by service name. Case folding
    (`toLowerCase`) is the parameter `fold`, and `localeCompare` is `le`, a total preorder on
    names. */
module TemplateIndex {
  import opened Strings

  /** A box: its service name and the names of its stages (`Object.keys(item.stage)`). */
  datatype Box = Box(service: string, stages: seq<string>)

  /** `item.service.toLowerCase().includes(term)` or some stage name does, `term` being
      `searchTerm.toLowerCase()`. */
  predicate Matches(box: Box, searchTerm: string, fold: string -> string) {
    || Contains(fold(box.service), fold(searchTerm))
    || exists i :: 0 <= i < |box.stages| && Contains(fold(box.stages[i]), fold(searchTerm))
  }

  /** `boxes.filter(...)`. */
  function Filter(boxes: seq<Box>, searchTerm: string, fold: string -> string): (kept: seq<Box>)
    ensures |kept| <= |boxes|
    decreases |boxes|
  {
    if boxes == [] then []
    else
      var last := boxes[|boxes| - 1];
      Filter(boxes[..|boxes| - 1], searchTerm, fold) + if Matches(last, searchTerm, fold) then [last] else []
  }

  /** A box is kept exactly when it is in the input and matches: the filter adds none. */
  lemma {:induction false} FilterMembers(boxes: seq<Box>, searchTerm: string, fold: string -> string, b: Box)
    ensures b in Filter(boxes, searchTerm, fold) <==> b in boxes && Matches(b, searchTerm, fold)
    decreases |boxes|
  {
    if boxes != [] {
      var init := boxes[..|boxes| - 1];
      FilterMembers(init, searchTerm, fold, b);
      assert boxes == init + [boxes[|boxes| - 1]];
    }
  }

  /** With a fold that keeps the empty string empty, the empty term keeps every box, in order. */
  lemma {:induction false} EmptyTermKeepsAll(boxes: seq<Box>, fold: string -> string)
    requires fold("") == ""
    ensures Filter(boxes, "", fold) == boxes
    decreases |boxes|
  {
    if boxes != [] {
      var last := boxes[|boxes| - 1];
      EmptyTermKeepsAll(boxes[..|boxes| - 1], fold);
      assert OccursAt(fold(last.service), "", 0);
      assert Matches(last, "", fold);
      assert boxes[..|boxes| - 1] + [last] == boxes;
    }
  }

  /** `le` is what `localeCompare(a, b) <= 0` is assumed to be: transitive and total. */
  ghost predicate TotalPreorder(le: (string, string) -> bool) {
    && (forall a, b, c :: le(a, b) && le(b, c) ==> le(a, c))
    && (forall a, b :: le(a, b) || le(b, a))
  }

  /** Every box's service name is at most every later one's. */
  ghost predicate SortedByService(boxes: seq<Box>, le: (string, string) -> bool) {
    forall i, j :: 0 <= i < j < |boxes| ==> le(boxes[i].service, boxes[j].service)
  }

  /** Places a box before the first box it is at most. */
  function InsertByService(b: Box, sorted: seq<Box>, le: (string, string) -> bool): (r: seq<Box>)
    ensures multiset(r) == multiset(sorted) + multiset{b}
    decreases |sorted|
  {
    if sorted == [] then [b]
    else if le(b.service, sorted[0].service) then [b] + sorted
    else
      assert sorted == [sorted[0]] + sorted[1..];
      [sorted[0]] + InsertByService(b, sorted[1..], le)
  }

  /** `sort((a, b) => a.service.localeCompare(b.service))`, as an insertion sort. */
  function SortByService(boxes: seq<Box>, le: (string, string) -> bool): (r: seq<Box>)
    ensures multiset(r) == multiset(boxes)
    decreases |boxes|
  {
    if boxes == [] then []
    else
      assert boxes == [boxes[0]] + boxes[1..];
      InsertByService(boxes[0], SortByService(boxes[1..], le), le)
  }

  /** Inserting into a sorted list keeps it sorted. */
  lemma {:induction false} InsertKeepsSorted(b: Box, sorted: seq<Box>, le: (string, string) -> bool)
    requires TotalPreorder(le) && SortedByService(sorted, le)
    ensures SortedByService(InsertByService(b, sorted, le), le)
    decreases |sorted|
  {
    var r := InsertByService(b, sorted, le);
    if sorted != [] && !le(b.service, sorted[0].service) {
      var rest := sorted[1..];
      InsertKeepsSorted(b, rest, le);
      var tail := InsertByService(b, rest, le);
      assert r == [sorted[0]] + tail;
      forall j | 0 < j < |r| ensures le(r[0].service, r[j].service) {
        assert r[j] in multiset(tail);
        assert r[j] in multiset(rest) + multiset{b};
        if r[j] != b {
          assert r[j] in rest;
          var k :| 0 <= k < |rest| && rest[k] == r[j];
          assert rest[k] == sorted[k + 1];
        }
      }
    } else if sorted != [] {
      forall j | 0 < j < |r| ensures le(r[0].service, r[j].service) {
        assert r[j] == sorted[j - 1];
        if j > 1 {
          assert le(sorted[0].service, sorted[j - 1].service);
        }
      }
    }
  }

  /** The sort orders the boxes by service name. */
  lemma {:induction false} SortSorts(boxes: seq<Box>, le: (string, string) -> bool)
    requires TotalPreorder(le)
    ensures SortedByService(SortByService(boxes, le), le)
    decreases |boxes|
  {
    if boxes != [] {
      SortSorts(boxes[1..], le);
      InsertKeepsSorted(boxes[0], SortByService(boxes[1..], le), le);
    }
  }

  /** `filteredAndSortedData`. */
  function FilteredAndSorted(boxes: seq<Box>, searchTerm: string, fold: string -> string, le: (string, string) -> bool): seq<Box> {
    SortByService(Filter(boxes, searchTerm, fold), le)
  }

  /** The list shown is ordered by service name, holds each kept box as often as the filter
      kept it, and holds a box exactly when it is an input box that matches the term. */
  lemma {:induction false} FilteredAndSortedSpec(boxes: seq<Box>, searchTerm: string, fold: string -> string, le: (string, string) -> bool, b: Box)
    requires TotalPreorder(le)
    ensures SortedByService(FilteredAndSorted(boxes, searchTerm, fold, le), le)
    ensures multiset(FilteredAndSorted(boxes, searchTerm, fold, le)) == multiset(Filter(boxes, searchTerm, fold))
    ensures b in FilteredAndSorted(boxes, searchTerm, fold, le) <==> b in boxes && Matches(b, searchTerm, fold)
  {
    var kept := Filter(boxes, searchTerm, fold);
    SortSorts(kept, le);
    FilterMembers(boxes, searchTerm, fold, b);
    assert b in SortByService(kept, le) <==> b in multiset(SortByService(kept, le));
  }

  /** With the empty term the shown list is a reordering of all the boxes. */
  lemma {:induction false} EmptyTermShowsAll(boxes: seq<Box>, fold: string -> string, le: (string, string) -> bool)
    requires fold("") == ""
    ensures multiset(FilteredAndSorted(boxes, "", fold, le)) == multiset(boxes)
  {
    EmptyTermKeepsAll(boxes, fold);
  }
}
