/**
 * src/utils/trie.ts: a tree keyed by path segments.  Each node has a segment,
 * its children in the order they were created, and an optional value.
 *
 * `add` walks (and where needed extends) the path from the root and stores
 * the value at its end; `walk` follows the longest prefix of a segment list
 * that exists in the tree and reports each node it passes, never the root;
 * `collect`, `getLeaf` and `collectNodes` are built on that walk.
 *
 * The tree is a value here: `add` returns the new root.  The `parent` links
 * are not kept, since only the unused `qualifiedPath` reads them.
 */
module Tries {
  import opened Wrappers
  import Seqs

  datatype Node<T> = Node(segment: string, children: seq<Node<T>>, value: Option<T>)

  /** `new Trie()`: the root has the empty segment, no children and no value. */
  function Empty<T>(): (r: Node<T>)
    ensures forall path :: ValueAt(r, path) == None
  {
    Node("", [], None)
  }

  function Segments<T>(children: seq<Node<T>>): (r: seq<string>)
    ensures |r| == |children| && forall i :: 0 <= i < |children| ==> r[i] == children[i].segment
  {
    seq(|children|, i requires 0 <= i < |children| => children[i].segment)
  }

  /** `children.find(x => x.segment === segment)`, as the position of the first match. */
  function FindChild<T>(children: seq<Node<T>>, segment: string): (r: Option<nat>)
    ensures r.Some? ==> r.value < |children| && children[r.value].segment == segment
    ensures r.Some? ==> forall j :: 0 <= j < r.value ==> children[j].segment != segment
    ensures r.None? ==> forall j :: 0 <= j < |children| ==> children[j].segment != segment
  {
    if children == [] then None
    else if children[0].segment == segment then Some(0)
    else
      match FindChild(children[1..], segment)
      case None => None
      case Some(i) => Some(i + 1)
  }

  /** A segment's search gives the same answer when every child keeps its segment. */
  lemma {:induction false} FindChildSameSegments<T>(a: seq<Node<T>>, b: seq<Node<T>>, segment: string)
    requires Segments(a) == Segments(b)
    ensures FindChild(a, segment) == FindChild(b, segment)
    decreases |a|
  {
    if a != [] {
      assert a[0].segment == Segments(a)[0] == Segments(b)[0] == b[0].segment;
      var ta, tb := a[1..], b[1..];
      assert Segments(ta) == Segments(a)[1..];
      assert Segments(tb) == Segments(b)[1..];
      FindChildSameSegments(ta, tb, segment);
    }
  }

  /** Appending a child with another segment leaves a search where it was. */
  lemma {:induction false} FindChildAppend<T>(a: seq<Node<T>>, c: Node<T>, segment: string)
    requires c.segment != segment
    ensures FindChild(a + [c], segment) == FindChild(a, segment)
    decreases |a|
  {
    if a == [] {
      assert [c][1..] == [];
    } else {
      assert (a + [c])[0] == a[0];
      assert (a + [c])[1..] == a[1..] + [c];
      FindChildAppend(a[1..], c, segment);
    }
  }

  /** The child `getOrCreate` makes for a missing segment: no children and no value. */
  function NewChild<T>(segment: string): Node<T> {
    Node(segment, [], None)
  }

  /** The child of `node` with the given segment. */
  function Child<T>(node: Node<T>, segment: string): Option<Node<T>> {
    match FindChild(node.children, segment)
    case None => None
    case Some(i) => Some(node.children[i])
  }

  /**
   * `add(value, ...path)`: follow `path` from `node`, reusing the first child
   * with each segment and appending a new empty child when there is none
   * (`getOrCreate`), then store `value` in the node reached.
   */
  function Add<T>(node: Node<T>, path: seq<string>, value: T): (r: Node<T>)
    ensures r.segment == node.segment
    decreases |path|
  {
    if path == [] then node.(value := Some(value))
    else
      match FindChild(node.children, path[0])
      case Some(i) => node.(children := node.children[i := Add(node.children[i], path[1..], value)])
      case None => node.(children := node.children + [Add(NewChild(path[0]), path[1..], value)])
  }

  /** The node `path` leads to from `node`, if every segment exists. */
  function Lookup<T>(node: Node<T>, path: seq<string>): Option<Node<T>>
    decreases |path|
  {
    if path == [] then Some(node)
    else
      match Child(node, path[0])
      case None => None
      case Some(c) => Lookup(c, path[1..])
  }

  /** The value stored at `path`, with no node and a node without a value alike `None`. */
  function ValueAt<T>(node: Node<T>, path: seq<string>): Option<T> {
    match Lookup(node, path)
    case None => None
    case Some(n) => n.value
  }

  /** After `add(v, ...path)` the node at `path` holds `v`, whatever it held before. */
  lemma {:induction false} AddStores<T>(node: Node<T>, path: seq<string>, value: T)
    ensures ValueAt(Add(node, path, value), path) == Some(value)
    decreases |path|
  {
    if path != [] {
      var r := Add(node, path, value);
      match FindChild(node.children, path[0])
      case Some(i) =>
        AddStores(node.children[i], path[1..], value);
        FindChildSameSegments(r.children, node.children, path[0]);
      case None =>
        var child: Node<T> := NewChild(path[0]);
        AddStores(child, path[1..], value);
        assert r.children[|node.children|] == Add(child, path[1..], value);
        assert FindChild(r.children, path[0]) == Some(|node.children|);
    }
  }

  /** A freshly created child holds no value anywhere. */
  lemma FreshHoldsNothing<T>(segment: string, path: seq<string>)
    ensures ValueAt(NewChild<T>(segment), path) == None
  {
  }

  /** `add(v, ...path)` changes no value stored under any other path. */
  lemma {:induction false} AddKeepsOthers<T>(node: Node<T>, path: seq<string>, value: T, other: seq<string>)
    requires other != path
    ensures ValueAt(Add(node, path, value), other) == ValueAt(node, other)
    decreases |path|
  {
    var r := Add(node, path, value);
    if path == [] {
      assert other != [];
      assert r.children == node.children;
    } else if other != [] {
      var s := path[0];
      var t := other[0];
      ValueAtStep(r, other);
      ValueAtStep(node, other);
      match FindChild(node.children, s)
      case Some(i) =>
        var c := node.children[i];
        assert Segments(r.children) == Segments(node.children);
        FindChildSameSegments(r.children, node.children, t);
        if t == s {
          assert Child(r, t) == Some(Add(c, path[1..], value)) && Child(node, t) == Some(c);
          AddKeepsOthers(c, path[1..], value, other[1..]);
        } else {
          assert Child(r, t) == Child(node, t);
        }
      case None =>
        var child: Node<T> := NewChild(s);
        var added := Add(child, path[1..], value);
        assert r.children == node.children + [added];
        if t == s {
          assert r.children[|node.children|] == added;
          assert FindChild(r.children, s) == Some(|node.children|);
          assert Child(r, t) == Some(added) && Child(node, t) == None;
          AddKeepsOthers(child, path[1..], value, other[1..]);
          FreshHoldsNothing<T>(s, other[1..]);
        } else {
          FindChildAppend(node.children, added, t);
          assert Child(r, t) == Child(node, t);
        }
    }
  }

  /** The value at a non-empty path is the value below the child of its first segment. */
  lemma ValueAtStep<T>(node: Node<T>, path: seq<string>)
    requires path != []
    ensures ValueAt(node, path) == match Child(node, path[0]) case None => None case Some(c) => ValueAt(c, path[1..])
  {
  }

  /**
   * `getOrCreate` keeps sibling order: an existing child with the first
   * segment is reused where it stands, and a new one is appended last.
   */
  lemma AddChildren<T>(node: Node<T>, path: seq<string>, value: T)
    ensures path == [] ==> Add(node, path, value).children == node.children
    ensures path != [] && path[0] in Segments(node.children) ==>
      Segments(Add(node, path, value).children) == Segments(node.children)
    ensures path != [] && path[0] !in Segments(node.children) ==>
      Segments(Add(node, path, value).children) == Segments(node.children) + [path[0]]
  {
    if path != [] {
      var r := Add(node, path, value);
      match FindChild(node.children, path[0])
      case Some(i) =>
        assert Segments(r.children) == Segments(node.children);
      case None =>
        assert path[0] !in Segments(node.children);
        assert Segments(r.children) == Segments(node.children) + [path[0]];
    }
  }

  /** No two children of any node share a segment. */
  predicate UniqueSiblings<T>(node: Node<T>)
    decreases node
  {
    && Seqs.Distinct(Segments(node.children))
    && forall i :: 0 <= i < |node.children| ==> UniqueSiblings(node.children[i])
  }

  /** `add` never creates a second child with a segment already present. */
  lemma {:induction false} AddKeepsUnique<T>(node: Node<T>, path: seq<string>, value: T)
    requires UniqueSiblings(node)
    ensures UniqueSiblings(Add(node, path, value))
    decreases |path|
  {
    if path != [] {
      var r := Add(node, path, value);
      AddChildren(node, path, value);
      match FindChild(node.children, path[0])
      case Some(i) =>
        AddKeepsUnique(node.children[i], path[1..], value);
        assert forall j :: 0 <= j < |r.children| && j != i ==> r.children[j] == node.children[j];
      case None =>
        var child: Node<T> := NewChild(path[0]);
        AddKeepsUnique(child, path[1..], value);
        assert forall j :: 0 <= j < |node.children| ==> r.children[j] == node.children[j];
        var segs := Segments(r.children);
        forall a, b | 0 <= a < b < |segs| ensures segs[a] != segs[b] {
          if b == |node.children| {
            assert segs[a] == Segments(node.children)[a];
          } else {
            assert segs[a] == Segments(node.children)[a] && segs[b] == Segments(node.children)[b];
          }
        }
    }
  }

  // ---------------------------------------------------------------------------
  // Walking a path

  /**
   * The nodes `walk` passes: the child for each segment in turn, stopping at
   * the first segment with no child.
   */
  function Matched<T>(node: Node<T>, segments: seq<string>): (r: seq<Node<T>>)
    ensures |r| <= |segments|
    ensures forall i :: 0 <= i < |r| ==> r[i].segment == segments[i]
    decreases |segments|
  {
    if segments == [] then []
    else
      match Child(node, segments[0])
      case None => []
      case Some(c) => [c] + Matched(c, segments[1..])
  }

  /**
   * The walk follows the longest prefix of `segments` that leads somewhere:
   * its i-th node is the one the first i+1 segments lead to, and when it
   * stops early one segment more leads nowhere.
   */
  lemma MatchedIsLongestPrefix<T>(node: Node<T>, segments: seq<string>)
    ensures var m := Matched(node, segments);
      && (forall i :: 0 <= i < |m| ==> Lookup(node, segments[..i + 1]) == Some(m[i]))
      && (|m| < |segments| ==> Lookup(node, segments[..|m| + 1]) == None)
  {
    var m := Matched(node, segments);
    forall i | 0 <= i < |m| ensures Lookup(node, segments[..i + 1]) == Some(m[i]) {
      MatchedLookupAt(node, segments, i);
    }
    MatchedStopsEarly(node, segments);
  }

  /** The i-th matched node is the one the first i+1 segments lead to. */
  lemma {:induction false} MatchedLookupAt<T>(node: Node<T>, segments: seq<string>, i: nat)
    requires i < |Matched(node, segments)|
    ensures Lookup(node, segments[..i + 1]) == Some(Matched(node, segments)[i])
    decreases i
  {
    var c := Child(node, segments[0]).value;
    var rest := segments[1..];
    assert Matched(node, segments) == [c] + Matched(c, rest);
    LookupPrefixCons(node, c, segments, i + 1);
    if i > 0 {
      MatchedLookupAt(c, rest, i - 1);
      assert rest[..i] == rest[..(i - 1) + 1];
    }
  }

  /** When the walk stops early, the segment after the matched ones leads nowhere. */
  lemma {:induction false} MatchedStopsEarly<T>(node: Node<T>, segments: seq<string>)
    ensures |Matched(node, segments)| < |segments| ==>
      Lookup(node, segments[..|Matched(node, segments)| + 1]) == None
    decreases |segments|
  {
    if segments != [] {
      match Child(node, segments[0])
      case None =>
        assert segments[..1][0] == segments[0];
      case Some(c) =>
        var rest := segments[1..];
        var n := |Matched(c, rest)|;
        assert Matched(node, segments) == [c] + Matched(c, rest);
        MatchedStopsEarly(c, rest);
        if n < |rest| {
          LookupPrefixCons(node, c, segments, n + 2);
        }
    }
  }

  /** Looking up a non-empty prefix goes through the child of its first segment. */
  lemma LookupPrefixCons<T>(node: Node<T>, c: Node<T>, segments: seq<string>, n: nat)
    requires 0 < n <= |segments| && Child(node, segments[0]) == Some(c)
    ensures Lookup(node, segments[..n]) == Lookup(c, segments[1..][..n - 1])
  {
    assert segments[..n][0] == segments[0];
    assert segments[..n][1..] == segments[1..][..n - 1];
  }

  /** One step of the walk: a segment with a child moves to that child. */
  lemma MatchedStep<T>(current: Node<T>, segments: seq<string>, idx: nat, c: Node<T>)
    requires idx < |segments| && Child(current, segments[idx]) == Some(c)
    ensures Matched(current, segments[idx..]) == [c] + Matched(c, segments[idx + 1..])
  {
    assert segments[idx..][0] == segments[idx] && segments[idx..][1..] == segments[idx + 1..];
  }

  /** The walk ends at the first segment without a child. */
  lemma MatchedStop<T>(current: Node<T>, segments: seq<string>, idx: nat)
    requires idx < |segments| && Child(current, segments[idx]).None?
    ensures Matched(current, segments[idx..]) == []
  {
    assert segments[idx..][0] == segments[idx];
  }

  /** Passing one more node keeps the passed nodes a prefix of the walk. */
  lemma PassStep<T>(current: Node<T>, segments: seq<string>, idx: nat, c: Node<T>, passed: seq<Node<T>>, m: seq<Node<T>>)
    requires idx < |segments| && Child(current, segments[idx]) == Some(c)
    requires passed + Matched(current, segments[idx..]) == m
    ensures (passed + [c]) + Matched(c, segments[idx + 1..]) == m
  {
    MatchedStep(current, segments, idx, c);
  }

  /** What the visitor is handed for each node passed. */
  datatype WalkContext<T> = WalkContext(
    node: Node<T>,
    segments: seq<string>,
    pathIndex: nat,
    pathLength: nat,
    isLastSegment: bool)

  /**
   * `walk(segments, collector)`: the contexts handed to the collector, in
   * order.  The i-th is for the i-th node passed, at path index i, and it is
   * the last segment exactly when i is the final index of `segments`.
   */
  method Walk<T>(root: Node<T>, segments: seq<string>) returns (visits: seq<WalkContext<T>>)
    ensures |visits| == |Matched(root, segments)|
    ensures forall i :: 0 <= i < |visits| ==>
      visits[i] == WalkContext(Matched(root, segments)[i], segments, i, |segments|, i == |segments| - 1)
  {
    var passed := WalkNodes(root, segments);
    visits := seq(|passed|, i requires 0 <= i < |passed| =>
      WalkContext(passed[i], segments, i, |segments|, i == |segments| - 1));
  }

  /** The nodes `walk` passes, one per segment, until a segment has no child. */
  method WalkNodes<T>(root: Node<T>, segments: seq<string>) returns (passed: seq<Node<T>>)
    ensures passed == Matched(root, segments)
  {
    ghost var m := Matched(root, segments);
    passed := [];
    var current := root;
    var idx := 0;
    while idx < |segments|
      invariant idx == |passed| <= |segments|
      invariant passed + Matched(current, segments[idx..]) == m
    {
      var segment := segments[idx];
      var found := FindChild(current.children, segment);
      if found.None? {
        MatchedStop(current, segments, idx);
        break;
      }
      var node := current.children[found.value];
      PassStep(current, segments, idx, node, passed, m);
      passed := passed + [node];
      current := node;
      idx := idx + 1;
    }
    assert idx == |segments| ==> segments[idx..] == [];
  }

  /** The values of the nodes that hold one, in order. */
  function PresentValues<T>(nodes: seq<Node<T>>): seq<T> {
    if nodes == [] then []
    else
      var last := nodes[|nodes| - 1];
      PresentValues(nodes[..|nodes| - 1]) + (if last.value.Some? then [last.value.value] else [])
  }

  /** The values stored at the first 1, 2, ..., n segments of `segments`, skipping empty ones. */
  function PathValues<T>(root: Node<T>, segments: seq<string>, n: nat): seq<T>
    requires n <= |segments|
  {
    if n == 0 then []
    else
      var v := ValueAt(root, segments[..n]);
      PathValues(root, segments, n - 1) + (if v.Some? then [v.value] else [])
  }

  /** The values `collect` finds are those stored along the matched prefix of the path. */
  lemma PresentValuesArePathValues<T>(root: Node<T>, segments: seq<string>, n: nat)
    requires n <= |Matched(root, segments)|
    ensures PresentValues(Matched(root, segments)[..n]) == PathValues(root, segments, n)
  {
    var m := Matched(root, segments);
    forall i | 0 <= i < |m| ensures ValueAt(root, segments[..i + 1]) == m[i].value {
      MatchedLookupAt(root, segments, i);
    }
    PresentValuesAlong(root, segments, m, n);
  }

  /** Along nodes that hold the values stored at successive prefixes, the present values are the path values. */
  lemma {:induction false} PresentValuesAlong<T>(root: Node<T>, segments: seq<string>, m: seq<Node<T>>, n: nat)
    requires n <= |m| <= |segments|
    requires forall i :: 0 <= i < |m| ==> ValueAt(root, segments[..i + 1]) == m[i].value
    ensures PresentValues(m[..n]) == PathValues(root, segments, n)
  {
    if n > 0 {
      var last := m[n - 1];
      assert ValueAt(root, segments[..n]) == last.value;
      assert m[..n] == m[..n - 1] + [last];
      PresentValuesSnoc(m[..n - 1], last);
      PresentValuesAlong(root, segments, m, n - 1);
    }
  }

  lemma PresentValuesSnoc<T>(nodes: seq<Node<T>>, last: Node<T>)
    ensures PresentValues(nodes + [last]) == PresentValues(nodes) + (if last.value.Some? then [last.value.value] else [])
  {
    assert (nodes + [last])[..|nodes|] == nodes;
  }

  /**
   * `collect(...segments)`: the values met along the matched prefix, in path
   * order; nodes without a value contribute nothing.
   */
  method Collect<T>(root: Node<T>, segments: seq<string>) returns (values: seq<T>)
    ensures values == PathValues(root, segments, |Matched(root, segments)|)
  {
    ghost var m := Matched(root, segments);
    var visits := Walk(root, segments);
    values := [];
    var i := 0;
    while i < |visits|
      invariant i <= |visits|
      invariant values == PresentValues(m[..i])
    {
      assert m[..i + 1][..i] == m[..i];
      if visits[i].node.value.Some? {
        values := values + [visits[i].node.value.value];
      }
      i := i + 1;
    }
    assert m[..|m|] == m;
    PresentValuesArePathValues(root, segments, |m|);
  }

  /**
   * `getLeaf(...segments)`: the deepest node the segments lead to, even when
   * more segments follow it; `None` when not even the first one has a node.
   */
  method GetLeaf<T>(root: Node<T>, segments: seq<string>) returns (leaf: Option<Node<T>>)
    ensures leaf.None? <==> segments == [] || Child(root, segments[0]).None?
    ensures leaf.Some? ==> var n := |Matched(root, segments)|;
      && 0 < n
      && leaf == Lookup(root, segments[..n])
      && (n < |segments| ==> Lookup(root, segments[..n + 1]) == None)
  {
    ghost var m := Matched(root, segments);
    var visits := Walk(root, segments);
    leaf := None;
    var i := 0;
    while i < |visits|
      invariant i <= |visits|
      invariant leaf == if i == 0 then None else Some(m[i - 1])
    {
      leaf := Some(visits[i].node);
      i := i + 1;
    }
    MatchedIsLongestPrefix(root, segments);
    if leaf.Some? {
      var n := |m|;
      assert Lookup(root, segments[..(n - 1) + 1]) == Some(m[n - 1]);
      assert 0 < n <= |segments| && leaf == Lookup(root, segments[..n])
        && (n < |segments| ==> Lookup(root, segments[..n + 1]) == None);
    }
  }

  function HasValue<T>(): Node<T> -> bool {
    (n: Node<T>) => n.value.Some?
  }

  /** `collectNodes(...paths)`: the nodes along the matched prefix that hold a value, in order. */
  method CollectNodes<T>(root: Node<T>, paths: seq<string>) returns (nodes: seq<Node<T>>)
    ensures nodes == Seqs.Select(Matched(root, paths), HasValue())
  {
    ghost var m := Matched(root, paths);
    ghost var passed: seq<Node<T>> := [];
    var current := root;
    nodes := [];
    var idx := 0;
    while idx < |paths|
      invariant idx == |passed| <= |paths| && passed + Matched(current, paths[idx..]) == m
      invariant nodes == Seqs.Select(passed, HasValue())
    {
      var segment := paths[idx];
      var found := FindChild(current.children, segment);
      if found.None? {
        MatchedStop(current, paths, idx);
        assert passed + [] == passed;
        assert passed == m;
        break;
      }
      var node := current.children[found.value];
      PassStep(current, paths, idx, node, passed, m);
      Seqs.SelectSnoc(passed, node, HasValue());
      if node.value.Some? {
        nodes := nodes + [node];
      }
      passed := passed + [node];
      current := node;
      idx := idx + 1;
    }
    if idx == |paths| {
      assert paths[idx..] == [];
      assert passed + [] == passed;
    }
    assert passed == m;
  }
}
