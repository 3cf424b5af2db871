/**
 The arena of a markup document: one column for each property of its nodes.
 The parents alone determine every link, and in preorder they also determine the tree.
 */
module MarkupTree {
  /** The columns of the nodes; -1 stands for no node. */
  datatype Columns = Columns(kinds: seq<int>, parents: seq<int>, firstChildren: seq<int>, lastChildren: seq<int>,
                             nextSiblings: seq<int>, previousSiblings: seq<int>, childCounts: seq<int>,
                             names: seq<int>, attributeStarts: seq<int>, attributeCounts: seq<int>)

  const ELEMENT := 0
  const TEXT := 1
  const CDATA := 2

  /** The last node before `end` with parent `p`. */
  ghost function LastWith(parents: seq<int>, p: int, end: int): (r: int)
    ensures -1 <= r && (r >= 0 ==> r < end && r < |parents| && parents[r] == p)
    ensures forall k :: r < k < end && 0 <= k < |parents| ==> parents[k] != p
    decreases if end > 0 then end else 0
  {
    if end <= 0 then -1
    else if end - 1 < |parents| && parents[end - 1] == p then end - 1
    else LastWith(parents, p, end - 1)
  }

  /** The first node from `from` on with parent `p`. */
  ghost function FirstWith(parents: seq<int>, p: int, from: nat): (r: int)
    ensures -1 <= r && (r >= 0 ==> from <= r < |parents| && parents[r] == p)
    ensures forall k :: from <= k < |parents| && (r >= 0 ==> k < r) ==> parents[k] != p
    decreases if from < |parents| then |parents| - from else 0
  {
    if from >= |parents| then -1
    else if parents[from] == p then from
    else FirstWith(parents, p, from + 1)
  }

  /** How many of the nodes before `end` have parent `p`. */
  ghost function CountWith(parents: seq<int>, p: int, end: nat): nat {
    if end == 0 then 0
    else CountWith(parents, p, end - 1) + if end - 1 < |parents| && parents[end - 1] == p then 1 else 0
  }

  /**
   The links of node `i` are those the parents determine: its children in order, and its neighbours among its
   parent's.
   */
  ghost predicate LinkedAt(c: Columns, i: int) {
    && 0 <= i < |c.parents| == |c.firstChildren| == |c.lastChildren| == |c.nextSiblings|
    && |c.parents| == |c.previousSiblings| == |c.childCounts|
    && c.firstChildren[i] == FirstWith(c.parents, i, 0)
    && c.lastChildren[i] == LastWith(c.parents, i, |c.parents|)
    && c.childCounts[i] == CountWith(c.parents, i, |c.parents|)
    && (c.parents[i] >= 0 ==> c.previousSiblings[i] == LastWith(c.parents, c.parents[i], i))
    && (c.parents[i] >= 0 ==> c.nextSiblings[i] == FirstWith(c.parents, c.parents[i], i + 1))
    && (c.parents[i] < 0 ==> c.previousSiblings[i] == -1 && c.nextSiblings[i] == -1)
  }

  ghost predicate Linked(c: Columns) {
    forall i :: 0 <= i < |c.parents| ==> LinkedAt(c, i)
  }

  ghost predicate SameLength(c: Columns) {
    && |c.kinds| == |c.parents| == |c.firstChildren| == |c.lastChildren| == |c.nextSiblings|
    && |c.kinds| == |c.previousSiblings| == |c.childCounts| == |c.names| == |c.attributeStarts| == |c.attributeCounts|
  }

  /** Neighbours point at each other. */
  lemma SiblingsMatch(c: Columns, i: int)
    requires SameLength(c) && Linked(c) && 0 <= i < |c.parents| && c.nextSiblings[i] >= 0
    ensures var j := c.nextSiblings[i];
      i < j < |c.parents| && c.parents[j] == c.parents[i] && c.previousSiblings[j] == i
  {
    assert LinkedAt(c, i);
    var j := c.nextSiblings[i];
    assert LinkedAt(c, j);
  }

  /** A node without a next neighbour is its parent's last child, and one without a previous neighbour its first. */
  lemma EndsMatch(c: Columns, i: int)
    requires SameLength(c) && Linked(c) && 0 <= i < |c.parents| && 0 <= c.parents[i] < |c.parents|
    ensures c.nextSiblings[i] == -1 <==> c.lastChildren[c.parents[i]] == i
    ensures c.previousSiblings[i] == -1 <==> c.firstChildren[c.parents[i]] == i
  {
    assert LinkedAt(c, i);
    assert LinkedAt(c, c.parents[i]);
  }

  /** The ancestors of a node and the node itself, from the root. */
  ghost function PathTo(parents: seq<int>, i: int): seq<int>
    decreases if i < 0 then 0 else i + 1
  {
    if i < 0 || i >= |parents| || parents[i] >= i then []
    else PathTo(parents, parents[i]) + [i]
  }

  /**
   Preorder: one root, which comes first, and every other node is a child of
   the node before it or of one of that node's ancestors.
   */
  ghost predicate Preorder(parents: seq<int>) {
    && (parents != [] ==> parents[0] == -1)
    && forall i :: 1 <= i < |parents| ==> Follows(parents, i)
  }

  ghost predicate Follows(parents: seq<int>, i: int) {
    1 <= i < |parents| && 0 <= parents[i] < i && parents[i] in PathTo(parents, i - 1)
  }

  lemma {:induction false} PathToPrefix(parents: seq<int>, more: seq<int>, i: int)
    requires i < |parents|
    ensures PathTo(parents + more, i) == PathTo(parents, i)
    decreases if i < 0 then 0 else i + 1
  {
    if !(i < 0 || parents[i] >= i) { PathToPrefix(parents, more, parents[i]); }
  }

  /** A node more, under one of the last node's path, keeps the preorder. */
  lemma PreorderPush(parents: seq<int>, p: int)
    requires Preorder(parents)
    requires if parents == [] then p == -1 else 0 <= p < |parents| && p in PathTo(parents, |parents| - 1)
    ensures Preorder(parents + [p])
  {
    var r := parents + [p];
    forall i | 1 <= i < |r| ensures Follows(r, i) {
      PathToPrefix(parents, [p], i - 1);
      if i < |parents| { assert Follows(parents, i); }
    }
  }

  /** The open nodes are the first part of the path to the last node. */
  ghost predicate OnPath(parents: seq<int>, open: seq<int>) {
    parents != [] && open <= PathTo(parents, |parents| - 1)
  }

  lemma {:induction false} PathIn(parents: seq<int>, i: int)
    ensures forall k :: 0 <= k < |PathTo(parents, i)| ==>
      0 <= PathTo(parents, i)[k] <= i && PathTo(parents, i)[k] < |parents|
    decreases if i < 0 then 0 else i + 1
  {
    if !(i < 0 || i >= |parents| || parents[i] >= i) { PathIn(parents, parents[i]); }
  }

  /** The path to a node of the path is its part up to that node. */
  lemma {:induction false} PathPart(parents: seq<int>, i: int, k: nat)
    requires k < |PathTo(parents, i)|
    ensures PathTo(parents, PathTo(parents, i)[k]) == PathTo(parents, i)[..k + 1]
    decreases if i < 0 then 0 else i + 1
  {
    var p := PathTo(parents, parents[i]);
    assert PathTo(parents, i) == p + [i];
    if k < |p| {
      PathPart(parents, parents[i], k);
      assert (p + [i])[..k + 1] == p[..k + 1];
    } else {
      assert (p + [i])[..k + 1] == p + [i];
    }
  }

  /** After a node is added under the last open one, the open nodes and the new one are its path. */
  lemma OpenPush(parents: seq<int>, open: seq<int>)
    requires OnPath(parents, open) && open != []
    ensures var n := |parents|; var r := parents + [open[|open| - 1]];
      0 <= open[|open| - 1] < n && open[|open| - 1] in PathTo(parents, n - 1)
      && PathTo(r, n) == open + [n] && OnPath(r, open) && OnPath(r, open + [n])
  {
    var n, k := |parents|, |open| - 1;
    var path := PathTo(parents, n - 1);
    PathIn(parents, n - 1);
    assert open == path[..k + 1] && open[k] == path[k];
    PathPart(parents, n - 1, k);
    PathToPrefix(parents, [open[k]], open[k]);
    assert path[k] in path;
    var r := parents + [open[k]];
    assert PathTo(r, n) == PathTo(r, r[n]) + [n];
  }

  /** The columns after a node is appended and linked behind the last child of its parent. */
  ghost function Appended(c: Columns, kind: int, parent: int, name: int, attributes: int): Columns
    requires SameLength(c) && -1 <= parent < |c.kinds|
    requires parent >= 0 ==> -1 <= c.lastChildren[parent] < |c.kinds|
  {
    var n := |c.kinds|;
    var last := if parent < 0 then -1 else c.lastChildren[parent];
    Columns(c.kinds + [kind], c.parents + [parent],
            (if parent >= 0 && last < 0 then c.firstChildren[parent := n] else c.firstChildren) + [-1],
            (if parent >= 0 then c.lastChildren[parent := n] else c.lastChildren) + [-1],
            (if last >= 0 then c.nextSiblings[last := n] else c.nextSiblings) + [-1],
            c.previousSiblings + [last],
            (if parent >= 0 then c.childCounts[parent := c.childCounts[parent] + 1] else c.childCounts) + [0],
            c.names + [name], c.attributeStarts + [attributes], c.attributeCounts + [0])
  }

  lemma {:induction false} CountPrefix(parents: seq<int>, more: seq<int>, p: int, end: nat)
    requires end <= |parents|
    ensures CountWith(parents + more, p, end) == CountWith(parents, p, end)
  {
    if end > 0 { CountPrefix(parents, more, p, end - 1); }
  }

  lemma {:induction false} NoneCount(parents: seq<int>, p: int, end: nat)
    requires end <= |parents| && forall k :: 0 <= k < end ==> parents[k] != p
    ensures CountWith(parents, p, end) == 0
  {
    if end > 0 { NoneCount(parents, p, end - 1); }
  }

  /** The first and the last of something are what their descriptions say. */
  lemma FirstIs(parents: seq<int>, p: int, from: nat, r: int)
    requires -1 <= r < |parents| && (r >= 0 ==> from <= r && parents[r] == p)
    requires forall k :: from <= k < |parents| && (r >= 0 ==> k < r) ==> parents[k] != p
    ensures FirstWith(parents, p, from) == r
  {
  }

  lemma LastIs(parents: seq<int>, p: int, end: nat, r: int)
    requires end <= |parents| && -1 <= r < end && (r >= 0 ==> parents[r] == p)
    requires forall k :: r < k < end ==> parents[k] != p
    ensures LastWith(parents, p, end) == r
  {
  }

  /** Appending links the new node, and every other node stays linked. */
  lemma AppendedLinked(c: Columns, kind: int, parent: int, name: int, attributes: int)
    requires SameLength(c) && Linked(c) && -1 <= parent < |c.kinds|
    requires forall i :: 0 <= i < |c.parents| ==> c.parents[i] < i
    requires parent >= 0 ==> LinkedAt(c, parent)
    ensures -1 <= (if parent < 0 then -1 else c.lastChildren[parent]) < |c.kinds|
    ensures var d := Appended(c, kind, parent, name, attributes); SameLength(d) && Linked(d)
  {
    var d, n := Appended(c, kind, parent, name, attributes), |c.kinds|;
    forall i | 0 <= i < n + 1 ensures LinkedAt(d, i) {
      if i < n {
        OldLinked(c, d, kind, parent, name, attributes, i);
      } else {
        NewLinked(c, d, kind, parent, name, attributes);
      }
    }
  }

  lemma NewLinked(c: Columns, d: Columns, kind: int, parent: int, name: int, attributes: int)
    requires SameLength(c) && -1 <= parent < |c.kinds| && (forall i :: 0 <= i < |c.parents| ==> c.parents[i] < i)
    requires parent >= 0 ==> LinkedAt(c, parent)
    requires d == Appended(c, kind, parent, name, attributes)
    ensures LinkedAt(d, |c.kinds|)
  {
    var n := |c.kinds|;
    FirstIs(d.parents, n, 0, -1);
    LastIs(d.parents, n, n + 1, -1);
    NoneCount(d.parents, n, n + 1);
    if parent >= 0 {
      LastIs(d.parents, parent, n, c.lastChildren[parent]);
      FirstIs(d.parents, parent, n + 1, -1);
    }
  }

  lemma OldLinked(c: Columns, d: Columns, kind: int, parent: int, name: int, attributes: int, i: int)
    requires SameLength(c) && -1 <= parent < |c.kinds| && Linked(c) && 0 <= i < |c.kinds|
    requires forall k :: 0 <= k < |c.parents| ==> c.parents[k] < k
    requires parent >= 0 ==> LinkedAt(c, parent)
    requires d == Appended(c, kind, parent, name, attributes)
    ensures LinkedAt(d, i)
  {
    assert LinkedAt(c, i);
    OldChildren(c, d, kind, parent, name, attributes, i);
    OldSiblings(c, d, kind, parent, name, attributes, i);
  }

  /** The links of an old node to its children. */
  lemma OldChildren(c: Columns, d: Columns, kind: int, parent: int, name: int, attributes: int, i: int)
    requires SameLength(c) && -1 <= parent < |c.kinds| && 0 <= i < |c.kinds| && LinkedAt(c, i)
    requires parent >= 0 ==> LinkedAt(c, parent)
    requires d == Appended(c, kind, parent, name, attributes)
    ensures d.firstChildren[i] == FirstWith(d.parents, i, 0) && d.lastChildren[i] == LastWith(d.parents, i, |d.parents|)
    ensures d.childCounts[i] == CountWith(d.parents, i, |d.parents|)
  {
    CountPrefix(c.parents, [parent], i, |c.kinds|);
    ChildrenLinked(c, d, parent, i);
  }

  /** Its links to its neighbours. */
  lemma OldSiblings(c: Columns, d: Columns, kind: int, parent: int, name: int, attributes: int, i: int)
    requires SameLength(c) && -1 <= parent < |c.kinds| && Linked(c) && 0 <= i < |c.kinds| && LinkedAt(c, i)
    requires forall k :: 0 <= k < |c.parents| ==> c.parents[k] < k
    requires parent >= 0 ==> LinkedAt(c, parent)
    requires d == Appended(c, kind, parent, name, attributes)
    ensures c.parents[i] >= 0 ==> d.previousSiblings[i] == LastWith(d.parents, c.parents[i], i)
    ensures c.parents[i] >= 0 ==> d.nextSiblings[i] == FirstWith(d.parents, c.parents[i], i + 1)
    ensures c.parents[i] < 0 ==> d.previousSiblings[i] == -1 && d.nextSiblings[i] == -1
  {
    if c.parents[i] >= 0 {
      LastIs(d.parents, c.parents[i], i, c.previousSiblings[i]);
      NextLinked(c, d, parent, i);
    }
  }

  /** The children of an old node: as before, and the new one last when it is its parent. */
  lemma ChildrenLinked(c: Columns, d: Columns, parent: int, i: int)
    requires 0 <= i < |c.parents| && LinkedAt(c, i) && d.parents == c.parents + [parent]
    ensures FirstWith(d.parents, i, 0) ==
      if c.firstChildren[i] < 0 && parent == i then |c.parents| else c.firstChildren[i]
    ensures LastWith(d.parents, i, |c.parents| + 1) == if parent == i then |c.parents| else c.lastChildren[i]
    ensures c.firstChildren[i] < 0 <==> c.lastChildren[i] < 0
  {
    var n := |c.parents|;
    FirstIs(d.parents, i, 0, if c.firstChildren[i] < 0 && parent == i then n else c.firstChildren[i]);
    LastIs(d.parents, i, n + 1, if parent == i then n else c.lastChildren[i]);
  }

  /** The next neighbour of an old node: as before, unless it was its parent's last child. */
  lemma NextLinked(c: Columns, d: Columns, parent: int, i: int)
    requires 0 <= i < |c.parents| && LinkedAt(c, i) && c.parents[i] >= 0 && d.parents == c.parents + [parent]
    requires -1 <= parent < |c.parents| && (parent >= 0 ==> LinkedAt(c, parent))
    ensures FirstWith(d.parents, c.parents[i], i + 1) ==
      if parent >= 0 && c.lastChildren[parent] == i then |c.parents| else c.nextSiblings[i]
  {
    var n, p := |c.parents|, c.parents[i];
    if parent == p {
      assert c.lastChildren[parent] == i <==> c.nextSiblings[i] == -1;
      FirstIs(d.parents, p, i + 1, if c.nextSiblings[i] == -1 then n else c.nextSiblings[i]);
    } else {
      FirstIs(d.parents, p, i + 1, c.nextSiblings[i]);
    }
  }
}
