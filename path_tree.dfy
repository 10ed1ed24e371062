/** The sidebar's path tree builder of `app/context/tree-builder.ts`: a map-of-maps keyed by
    path segment, grown by get-or-create insertion of `/`-separated paths, and exported as a
    nested list sorted by name at every level. Segment names are compared with `le`, a total
    order standing for `localeCompare`. */
module PathTree {
  import Strings

  /** A node under construction: its name and its children keyed by segment. */
  datatype BuildNode = BuildNode(name: string, children: map<string, BuildNode>)

  /** A node of the exported tree. */
  datatype TreeNode = TreeNode(name: string, children: seq<TreeNode>)

  // ----- Path segments -----

  /** The non-empty pieces of a list of pieces. */
  function NonEmpty(parts: seq<string>): (r: seq<string>)
    ensures forall i :: 0 <= i < |r| ==> r[i] != ""
    ensures forall x :: x in r <==> x in parts && x != ""
  {
    if parts == [] then []
    else (if parts[0] == "" then [] else [parts[0]]) + NonEmpty(parts[1..])
  }

  lemma {:induction false} NonEmptyAppend(a: seq<string>, b: seq<string>)
    ensures NonEmpty(a + b) == NonEmpty(a) + NonEmpty(b)
    decreases |a|
  {
    if a == [] {
      assert a + b == b;
    } else {
      assert (a + b)[0] == a[0];
      assert (a + b)[1..] == a[1..] + b;
      NonEmptyAppend(a[1..], b);
    }
  }

  /** `path.split('/').filter(part => part.length > 0)`. */
  function Segments(path: string): (parts: seq<string>)
    ensures forall i :: 0 <= i < |parts| ==> parts[i] != "" && '/' !in parts[i]
  {
    var pieces := Strings.Split(path, '/');
    var r := NonEmpty(pieces);
    assert forall i :: 0 <= i < |r| ==> r[i] in pieces;
    r
  }

  /** A leading slash does not change the segments. */
  lemma {:induction false} LeadingSlashIgnored(b: string)
    ensures Segments("/" + b) == Segments(b)
  {
    Strings.SplitAround([], '/', b);
    assert [] + ['/'] + b == "/" + b;
    NonEmptyAppend(Strings.Split([], '/'), Strings.Split(b, '/'));
  }

  /** A trailing slash does not change the segments. */
  lemma {:induction false} TrailingSlashIgnored(a: string)
    ensures Segments(a + "/") == Segments(a)
  {
    Strings.SplitAround(a, '/', []);
    assert a + ['/'] + [] == a + "/";
    NonEmptyAppend(Strings.Split(a, '/'), Strings.Split([], '/'));
  }

  /** A doubled slash counts as one. */
  lemma {:induction false} DoubledSlashIgnored(a: string, b: string)
    ensures Segments(a + "//" + b) == Segments(a + "/" + b)
  {
    Strings.SplitAround(a, '/', "/" + b);
    assert a + ['/'] + ("/" + b) == a + "//" + b;
    NonEmptyAppend(Strings.Split(a, '/'), Strings.Split("/" + b, '/'));
    Strings.SplitAround(a, '/', b);
    assert a + ['/'] + b == a + "/" + b;
    NonEmptyAppend(Strings.Split(a, '/'), Strings.Split(b, '/'));
    LeadingSlashIgnored(b);
  }

  /** A path made only of slashes (or empty) has no segments. */
  lemma {:induction false} AllSlashesHaveNoSegments(path: string)
    requires forall i :: 0 <= i < |path| ==> path[i] == '/'
    ensures Segments(path) == []
    decreases |path|
  {
    if path == [] {
      assert Strings.Split(path, '/') == [""];
      assert NonEmpty([""]) == [] + NonEmpty([]);
    } else {
      AllSlashesHaveNoSegments(path[1..]);
      assert path == "/" + path[1..];
      LeadingSlashIgnored(path[1..]);
    }
  }

  /** A single non-empty segment without a slash is its own only segment. */
  lemma {:induction false} SegmentsOfSimplePath(segment: string)
    requires segment != "" && '/' !in segment
    ensures Segments(segment) == [segment]
  {
    Strings.SplitNoSeparator(segment, '/');
    assert NonEmpty([segment]) == [segment] + NonEmpty([]);
  }

  // ----- The map of maps -----

  /** Every node is keyed by its own name, at every level. */
  ghost predicate WellFormed(n: BuildNode) {
    forall k :: k in n.children ==> n.children[k].name == k && WellFormed(n.children[k])
  }

  ghost predicate WellFormedLevel(level: map<string, BuildNode>) {
    WellFormed(BuildNode("", level))
  }

  /** `addSinglePath` on the level `level`: walk the segments, creating each missing node. */
  function Insert(level: map<string, BuildNode>, parts: seq<string>): (r: map<string, BuildNode>)
    ensures parts != [] ==> r.Keys == level.Keys + {parts[0]}
    ensures parts == [] ==> r == level
    decreases |parts|
  {
    if parts == [] then level
    else
      var node := if parts[0] in level then level[parts[0]] else BuildNode(parts[0], map[]);
      level[parts[0] := node.(children := Insert(node.children, parts[1..]))]
  }

  /** Insertion keeps every node keyed by its own name. */
  lemma {:induction false} InsertWellFormed(level: map<string, BuildNode>, parts: seq<string>)
    requires WellFormedLevel(level)
    ensures WellFormedLevel(Insert(level, parts))
    decreases |parts|
  {
    if parts != [] {
      var node := if parts[0] in level then level[parts[0]] else BuildNode(parts[0], map[]);
      assert WellFormed(node) by {
        if parts[0] in level {
          assert level[parts[0]] < BuildNode("", level);
        }
      }
      InsertWellFormed(node.children, parts[1..]);
      var r := Insert(level, parts);
      forall k | k in r
        ensures r[k].name == k && WellFormed(r[k])
      {
        if k == parts[0] {
          assert r[k] == node.(children := Insert(node.children, parts[1..]));
          assert WellFormed(BuildNode("", Insert(node.children, parts[1..])));
        } else {
          assert r[k] == level[k];
        }
      }
    }
  }

  /** The chain of nodes named by `parts` exists from `level` down. */
  function HasChain(level: map<string, BuildNode>, parts: seq<string>): bool
    decreases |parts|
  {
    parts == [] || (parts[0] in level && HasChain(level[parts[0]].children, parts[1..]))
  }

  /** After an insertion the whole chain of its segments exists. */
  lemma {:induction false} InsertCreatesChain(level: map<string, BuildNode>, parts: seq<string>)
    ensures HasChain(Insert(level, parts), parts)
    decreases |parts|
  {
    if parts != [] {
      var node := if parts[0] in level then level[parts[0]] else BuildNode(parts[0], map[]);
      InsertCreatesChain(node.children, parts[1..]);
    }
  }

  /** Tree `a` is contained in tree `b`: same name, and every child of `a` is contained in the
      child of `b` with the same key. */
  ghost predicate Included(a: BuildNode, b: BuildNode) {
    && a.name == b.name
    && forall k :: k in a.children ==> k in b.children && Included(a.children[k], b.children[k])
  }

  lemma {:induction false} IncludedRefl(a: BuildNode)
    ensures Included(a, a)
  {
    forall k | k in a.children ensures Included(a.children[k], a.children[k]) {
      IncludedRefl(a.children[k]);
    }
  }

  /** Insertion never removes or replaces a node: the old tree is contained in the new one. */
  lemma {:induction false} InsertKeepsExistingNodes(level: map<string, BuildNode>, parts: seq<string>)
    ensures Included(BuildNode("", level), BuildNode("", Insert(level, parts)))
    decreases |parts|
  {
    var r := Insert(level, parts);
    if parts == [] {
      IncludedRefl(BuildNode("", level));
    } else {
      var node := if parts[0] in level then level[parts[0]] else BuildNode(parts[0], map[]);
      InsertKeepsExistingNodes(node.children, parts[1..]);
      forall k | k in level
        ensures k in r && Included(level[k], r[k])
      {
        if k == parts[0] {
          assert Included(BuildNode("", node.children), BuildNode("", Insert(node.children, parts[1..])));
          assert r[k] == node.(children := Insert(node.children, parts[1..]));
        } else {
          IncludedRefl(level[k]);
        }
      }
    }
  }

  /** Adding the same path twice gives the same tree as adding it once. */
  lemma {:induction false} InsertIdempotent(level: map<string, BuildNode>, parts: seq<string>)
    ensures Insert(Insert(level, parts), parts) == Insert(level, parts)
    decreases |parts|
  {
    if parts != [] {
      var node := if parts[0] in level then level[parts[0]] else BuildNode(parts[0], map[]);
      var once := Insert(level, parts);
      var node1 := once[parts[0]];
      assert node1 == node.(children := Insert(node.children, parts[1..]));
      InsertIdempotent(node.children, parts[1..]);
      assert node1.(children := Insert(node1.children, parts[1..])) == node1;
      assert once[parts[0] := node1] == once;
    }
  }

  /** `addPath(...paths)`: the paths inserted one at a time, in order. */
  function InsertAll(level: map<string, BuildNode>, paths: seq<string>): map<string, BuildNode>
    decreases |paths|
  {
    if paths == [] then level
    else InsertAll(Insert(level, Segments(paths[0])), paths[1..])
  }

  lemma {:induction false} InsertAllAppend(level: map<string, BuildNode>, paths: seq<string>, path: string)
    ensures InsertAll(level, paths + [path]) == Insert(InsertAll(level, paths), Segments(path))
    decreases |paths|
  {
    if paths != [] {
      assert (paths + [path])[1..] == paths[1..] + [path];
      InsertAllAppend(Insert(level, Segments(paths[0])), paths[1..], path);
    }
  }

  /** Adding a batch of paths is adding the first batch, then the second. */
  lemma {:induction false} InsertAllConcat(level: map<string, BuildNode>, p1: seq<string>, p2: seq<string>)
    ensures InsertAll(level, p1 + p2) == InsertAll(InsertAll(level, p1), p2)
    decreases |p1|
  {
    if p1 == [] {
      assert p1 + p2 == p2;
    } else {
      assert (p1 + p2)[1..] == p1[1..] + p2;
      InsertAllConcat(Insert(level, Segments(p1[0])), p1[1..], p2);
    }
  }

  // ----- The sorted export -----

  /** `le` is a total order on names: the comparison `localeCompare` is assumed to induce. */
  ghost predicate TotalOrder(le: (string, string) -> bool) {
    && (forall a, b :: le(a, b) && le(b, a) ==> a == b)
    && (forall a, b, c :: le(a, b) && le(b, c) ==> le(a, c))
    && (forall a, b :: le(a, b) || le(b, a))
  }

  lemma {:induction false} HasMinimum(keys: set<string>, le: (string, string) -> bool)
    requires TotalOrder(le) && keys != {}
    ensures exists k :: k in keys && forall j :: j in keys ==> le(k, j)
    decreases |keys|
  {
    var x :| x in keys;
    if keys != {x} {
      HasMinimum(keys - {x}, le);
      var m :| m in keys - {x} && forall j :: j in keys - {x} ==> le(m, j);
      if le(m, x) {
        assert forall j :: j in keys ==> le(m, j);
      } else {
        assert forall j :: j in keys ==> le(x, j);
      }
    } else {
      assert forall j :: j in keys ==> le(x, j);
    }
  }

  /** The least key of a non-empty level. */
  function Least(keys: set<string>, le: (string, string) -> bool): (k: string)
    requires TotalOrder(le) && keys != {}
    ensures k in keys && forall j :: j in keys ==> le(k, j)
  {
    HasMinimum(keys, le);
    var k :| k in keys && forall j :: j in keys ==> le(k, j);
    k
  }

  /** The keys of a level, least first. */
  function SortedKeys(keys: set<string>, le: (string, string) -> bool): (r: seq<string>)
    requires TotalOrder(le)
    ensures |r| == |keys|
    ensures forall k :: k in r <==> k in keys
    decreases |keys|
  {
    if keys == {} then []
    else
      var k := Least(keys, le);
      [k] + SortedKeys(keys - {k}, le)
  }

  /** Names in strictly ascending order. */
  predicate StrictlyAscending(names: seq<string>, le: (string, string) -> bool) {
    forall i, j :: 0 <= i < j < |names| ==> le(names[i], names[j]) && names[i] != names[j]
  }

  /** The keys come out in strictly ascending order. */
  lemma {:induction false} SortedKeysAscending(keys: set<string>, le: (string, string) -> bool)
    requires TotalOrder(le)
    ensures StrictlyAscending(SortedKeys(keys, le), le)
    decreases |keys|
  {
    if keys != {} {
      var k := Least(keys, le);
      var rest := SortedKeys(keys - {k}, le);
      SortedKeysAscending(keys - {k}, le);
      var r := SortedKeys(keys, le);
      assert r == [k] + rest;
      forall i, j | 0 <= i < j < |r| ensures le(r[i], r[j]) && r[i] != r[j] {
        assert r[j] == rest[j - 1] && r[j] in keys - {k};
        if i > 0 {
          assert r[i] == rest[i - 1];
          assert le(rest[i - 1], rest[j - 1]) && rest[i - 1] != rest[j - 1];
        }
      }
    }
  }

  /** `convertMapToArray` on the children of `owner`: one exported node per child, sorted
      by name, each with its own children exported the same way. */
  function ExportChildren(owner: BuildNode, le: (string, string) -> bool): (r: seq<TreeNode>)
    requires TotalOrder(le)
    ensures |r| == |owner.children|
    decreases owner
  {
    var ks := SortedKeys(owner.children.Keys, le);
    seq(|ks|, i requires 0 <= i < |ks| =>
      TreeNode(owner.children[ks[i]].name, ExportChildren(owner.children[ks[i]], le)))
  }

  /** Siblings are listed in ascending order of name with no name repeated, at every level. */
  ghost predicate SortedForest(ts: seq<TreeNode>, le: (string, string) -> bool) {
    && (forall i, j :: 0 <= i < j < |ts| ==> le(ts[i].name, ts[j].name) && ts[i].name != ts[j].name)
    && (forall i :: 0 <= i < |ts| ==> SortedForest(ts[i].children, le))
  }

  lemma {:induction false} ExportIsSorted(owner: BuildNode, le: (string, string) -> bool)
    requires TotalOrder(le) && WellFormed(owner)
    ensures SortedForest(ExportChildren(owner, le), le)
    decreases owner
  {
    var r := ExportChildren(owner, le);
    var ks := SortedKeys(owner.children.Keys, le);
    SortedKeysAscending(owner.children.Keys, le);
    forall i, j | 0 <= i < j < |r| ensures le(r[i].name, r[j].name) && r[i].name != r[j].name {
      assert r[i].name == ks[i] && r[j].name == ks[j];
    }
    forall i | 0 <= i < |r|
      ensures r[i].name == ks[i] && SortedForest(r[i].children, le)
    {
      var child := owner.children[ks[i]];
      ExportIsSorted(child, le);
    }
  }

  /** The exported names at one level are exactly the keys of that level. */
  lemma {:induction false} ExportNamesAreKeys(owner: BuildNode, le: (string, string) -> bool, name: string)
    requires TotalOrder(le) && WellFormed(owner)
    ensures (exists i :: 0 <= i < |ExportChildren(owner, le)| && ExportChildren(owner, le)[i].name == name)
            <==> name in owner.children
  {
    var ks := SortedKeys(owner.children.Keys, le);
    if name in owner.children {
      var i :| 0 <= i < |ks| && ks[i] == name;
      assert ExportChildren(owner, le)[i].name == name;
    }
  }

  /** The builder: the root level, updated in place by its methods. */
  class TreeBuilder {
    var root: map<string, BuildNode>

    ghost predicate Valid()
      reads this
    {
      WellFormedLevel(root)
    }

    /** `new TreeBuilder(...initialPaths)`: an empty root, then the initial paths added. */
    constructor (initialPaths: seq<string>)
      ensures Valid() && root == InsertAll(map[], initialPaths)
    {
      root := map[];
      new;
      if |initialPaths| > 0 {
        AddPath(initialPaths);
      }
    }

    /** `addSinglePath(path)`. */
    method AddSinglePath(path: string)
      requires Valid()
      modifies this
      ensures Valid() && root == Insert(old(root), Segments(path))
    {
      InsertWellFormed(root, Segments(path));
      root := Insert(root, Segments(path));
    }

    /** `addPath(...paths)`: each path added in turn. */
    method AddPath(paths: seq<string>)
      requires Valid()
      modifies this
      ensures Valid() && root == InsertAll(old(root), paths)
    {
      for i := 0 to |paths|
        invariant Valid() && InsertAll(old(root), paths) == InsertAll(root, paths[i..])
      {
        assert paths[i..][1..] == paths[i + 1..];
        AddSinglePath(paths[i]);
      }
    }

    /** `getTree()`. */
    method GetTree(le: (string, string) -> bool) returns (tree: seq<TreeNode>)
      requires Valid() && TotalOrder(le)
      ensures tree == ExportChildren(BuildNode("", root), le)
      ensures SortedForest(tree, le)
    {
      tree := ExportChildren(BuildNode("", root), le);
      ExportIsSorted(BuildNode("", root), le);
    }

    /** `clear()`. */
    method Clear()
      modifies this
      ensures Valid() && root == map[]
    {
      root := map[];
    }
  }

  /** Constructing with initial paths is constructing empty and adding them; adding a list of
      paths is adding them one at a time. */
  lemma {:induction false} ConstructThenAddIsAddAll(initial: seq<string>, more: seq<string>)
    ensures InsertAll(InsertAll(map[], initial), more) == InsertAll(map[], initial + more)
  {
    InsertAllConcat(map[], initial, more);
  }
}
