/** The path sidebar (`app/components/entry/sidebar.tsx`): the full path of each tree node,
    whether it is active and can expand, the expansion of the current path's ancestors, and
    the toggle of one node. The expanded set is React state; each update is a function from
    the previous set to the next. */
module Sidebar {
  import opened Wrappers
  import opened Strings
  import PathTree

  /** `parentPath ? parentPath + "/" + name : name`. */
  function FullPath(parentPath: string, name: string): string {
    if parentPath != "" then parentPath + "/" + name else name
  }

  /** `currentPath.includes(fullPath)`, with the sidebar's `currentPath || ""`. */
  predicate IsActive(currentPath: Option<string>, fullPath: string) {
    Contains(currentPath.GetOr(""), fullPath)
  }

  /** A node gets an expand button only when it has children. */
  predicate HasExpander(node: PathTree.TreeNode) {
    |node.children| > 0
  }

  /** The sidebar's initial expanded set. */
  const InitiallyExpanded: set<string> := {"global", "global/"}

  // ----- Expansion of the current path's ancestors -----

  /** The successive values of `currentCumulativePath` over `segments`. */
  function Cumulative(segments: seq<string>): (paths: seq<string>)
    ensures |paths| == |segments|
    decreases |segments|
  {
    if segments == [] then []
    else
      var before := Cumulative(segments[..|segments| - 1]);
      var previous := if before == [] then "" else before[|before| - 1];
      before + [FullPath(previous, segments[|segments| - 1])]
  }

  /** The paths the effect adds for a current path: the cumulative paths of every segment but
      the last, when there are at least two segments. */
  function ExpandedBy(currentPath: Option<string>): set<string> {
    if currentPath.None? then {}
    else
      var segments := Split(currentPath.value, '/');
      if |segments| > 1 then
        var ancestors := Cumulative(segments[..|segments| - 1]);
        set x | x in ancestors
      else {}
  }

  /** One more segment adds its cumulative path, built on the previous one. */
  lemma {:induction false} CumulativeStep(segments: seq<string>, i: nat)
    requires i < |segments|
    ensures var c := Cumulative(segments[..i]);
      Cumulative(segments[..i + 1]) == c + [FullPath(if i == 0 then "" else c[i - 1], segments[i])]
  {
    assert segments[..i + 1][..i] == segments[..i];
  }

  /** The elements of a sequence after one more. */
  lemma {:induction false} ElementsSnoc(c: seq<string>, y: string)
    ensures (set x | x in c + [y]) == (set x | x in c) + {y}
  {
    assert forall x :: x in c + [y] <==> x in c || x == y;
  }

  /** The effect on `currentPath`: the loop over all segments but the last, collecting the
      cumulative paths, then their union with the previous set. */
  method ExpandAncestors(currentPath: Option<string>, expanded: set<string>) returns (next: set<string>)
    ensures next == expanded + ExpandedBy(currentPath)
  {
    next := expanded;
    if currentPath.None? {
      return;
    }
    var segments := Split(currentPath.value, '/');
    if |segments| > 1 {
      var ancestors := segments[..|segments| - 1];
      var pathsToExpand: set<string> := {};
      var current := "";
      for i := 0 to |ancestors|
        invariant var c := Cumulative(ancestors[..i]);
          && pathsToExpand == (set x | x in c)
          && current == (if i == 0 then "" else c[i - 1])
      {
        CumulativeStep(ancestors, i);
        ElementsSnoc(Cumulative(ancestors[..i]), FullPath(current, ancestors[i]));
        current := FullPath(current, ancestors[i]);
        pathsToExpand := pathsToExpand + {current};
      }
      assert ancestors[..|ancestors|] == ancestors;
      next := expanded + pathsToExpand;
    }
  }

  /** When the first segment is not empty, the `k`-th cumulative path is the first `k + 1`
      segments joined with `/`. */
  lemma {:induction false} CumulativeJoins(segments: seq<string>, k: nat)
    requires k < |segments| && segments[0] != ""
    ensures Cumulative(segments)[k] == Join(segments[..k + 1], "/")
    decreases |segments|
  {
    var n := |segments| - 1;
    var init := segments[..n];
    if k < n {
      assert init[0] == segments[0] && init[..k + 1] == segments[..k + 1];
      CumulativeJoins(init, k);
    } else if n > 0 {
      CumulativeJoins(init, n - 1);
      assert init[..n] == segments[..n];
      var previous := Cumulative(init)[n - 1];
      if n == 1 {
        assert previous == segments[0];
      } else {
        assert previous != "" by {
          assert Join(segments[..n], "/") == segments[..n][0] + "/" + Join(segments[..n][1..], "/");
        }
      }
      JoinAppend(segments[..n], [segments[n]], "/");
      assert segments[..n] + [segments[n]] == segments[..k + 1];
    }
  }

  /** Joined segments of a prefix of a split are a prefix of the split string. */
  lemma {:induction false} JoinedPrefixIsPrefix(s: string, k: nat)
    requires k < |Split(s, '/')|
    ensures StartsWith(s, Join(Split(s, '/')[..k + 1], "/"))
  {
    var parts := Split(s, '/');
    SplitJoin(s, '/');
    var head := Join(parts[..k + 1], "/");
    if k + 1 < |parts| {
      JoinAppend(parts[..k + 1], parts[k + 1..], "/");
      assert parts[..k + 1] + parts[k + 1..] == parts;
      assert s == head + "/" + Join(parts[k + 1..], "/");
    } else {
      assert parts[..k + 1] == parts;
    }
    assert s[..|head|] == head;
  }

  /** The first `k + 1` segments of a path, joined with `/`. */
  function Ancestor(segments: seq<string>, k: nat): string
    requires k < |segments|
  {
    Join(segments[..k + 1], "/")
  }

  /** A current path not starting with `/` (as every listing prefix is) expands exactly the
      joins of its proper leading segments. */
  lemma {:induction false} ExpandedAreAncestors(currentPath: string)
    requires currentPath == "" || currentPath[0] != '/'
    ensures var segments := Split(currentPath, '/');
      ExpandedBy(Some(currentPath)) == set k | 0 <= k < |segments| - 1 :: Ancestor(segments, k)
  {
    var segments := Split(currentPath, '/');
    if |segments| > 1 {
      var ancestors := segments[..|segments| - 1];
      if segments[0] == "" {
        SplitFirstEmpty(currentPath, '/');
      }
      assert ancestors[0] == segments[0];
      forall k | 0 <= k < |ancestors| ensures Cumulative(ancestors)[k] == Ancestor(segments, k) {
        CumulativeJoins(ancestors, k);
        assert ancestors[..k + 1] == segments[..k + 1];
      }
    }
  }

  /** Every ancestor of the current path is a leading part of it, so the sidebar shows it as
      active. */
  lemma {:induction false} AncestorIsActive(currentPath: string, k: nat)
    requires k < |Split(currentPath, '/')|
    ensures StartsWith(currentPath, Ancestor(Split(currentPath, '/'), k))
    ensures IsActive(Some(currentPath), Ancestor(Split(currentPath, '/'), k))
  {
    JoinedPrefixIsPrefix(currentPath, k);
    assert OccursAt(currentPath, Ancestor(Split(currentPath, '/'), k), 0);
  }

  /** A current path with fewer than two segments, or none at all, expands nothing; in every
      case the expanded set only grows. */
  lemma {:induction false} ShortPathExpandsNothing(currentPath: Option<string>)
    ensures currentPath.None? || |Split(currentPath.value, '/')| < 2 ==> ExpandedBy(currentPath) == {}
    ensures currentPath.Some? && '/' !in currentPath.value ==> ExpandedBy(currentPath) == {}
  {
    if currentPath.Some? && '/' !in currentPath.value {
      SplitNoSeparator(currentPath.value, '/');
    }
  }

  // ----- Toggle -----

  /** `toggleNode(path)`: a copy of the set with that path removed when present, added
      otherwise. */
  function Toggle(expanded: set<string>, path: string): set<string> {
    if path in expanded then expanded - {path} else expanded + {path}
  }

  /** Toggling flips the membership of that one path, and toggling twice restores the set. */
  lemma {:induction false} ToggleFlipsOnePath(expanded: set<string>, path: string, other: string)
    requires other != path
    ensures path in Toggle(expanded, path) <==> path !in expanded
    ensures other in Toggle(expanded, path) <==> other in expanded
    ensures Toggle(Toggle(expanded, path), path) == expanded
  {
  }
}
