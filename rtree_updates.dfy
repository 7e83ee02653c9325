/** What an insertion does to the R-tree arena, as functions of the arena:
    the descent to a leaf (`insert(insertBaseNode, entry)`), the recomputed
    boxes on the way back, the split of a node (`splitNode` with its two
    distributions) and the bottom-up adjustment (`adjustTree`). The builder
    class carries these out in place and is proved to match them. */
module RTreeUpdates {
  import opened Wrappers
  import opened RTree
  import opened RTreeDistribution

  // ---------------------------------------------------------------------
  // The shape of the tree

  /** Every element of `s` is a node of the arena. */
  predicate InNodes(nodes: seq<Node>, s: seq<nat>)
  {
    forall k :: 0 <= k < |s| ==> s[k] < |nodes|
  }

  /** A parent reference points up the ranking. */
  ghost predicate ParentsRanked(nodes: seq<Node>, rank: seq<nat>)
  {
    forall n :: 0 <= n < |nodes| && n < |rank| && nodes[n].parent.Some? && nodes[n].parent.value < |rank| ==>
      rank[n] < rank[nodes[n].parent.value]
  }

  /** A node named as a parent has no parent itself and has child nodes. */
  predicate ParentsAtTop(nodes: seq<Node>)
  {
    forall n :: 0 <= n < |nodes| && nodes[n].parent.Some? && nodes[n].parent.value < |nodes| ==>
      nodes[nodes[n].parent.value].parent == None && nodes[nodes[n].parent.value].children != []
  }

  /** A node holds child nodes or index entries, never both. */
  predicate Separated(nodes: seq<Node>)
  {
    forall n :: 0 <= n < |nodes| && nodes[n].children != [] ==> nodes[n].entries == []
  }

  /** The invariant of the builder's tree: the root is a parentless node;
      references stay in the arena and follow a ranking; parents are
      parentless directory nodes; entries are only in leaves; and a node
      holds at least two elements before it is split. */
  ghost predicate Sound(nodes: seq<Node>, rank: seq<nat>, root: nat, max: int)
  {
    |nodes| > 0 && root < |nodes| && nodes[root].parent == None &&
    Closed(nodes) && Ranked(nodes, rank) && ParentsRanked(nodes, rank) &&
    ParentsAtTop(nodes) && Separated(nodes) && max >= 2
  }

  /** A child's parent reference, when set, names the node that lists it. */
  predicate ParentsAgree(nodes: seq<Node>)
  {
    forall y, k :: 0 <= y < |nodes| && 0 <= k < |nodes[y].children| && nodes[y].children[k] < |nodes| &&
                   nodes[nodes[y].children[k]].parent.Some? ==>
      nodes[nodes[y].children[k]].parent.value == y
  }

  /** A node named as a parent has exactly two child nodes. */
  predicate PairedParents(nodes: seq<Node>)
  {
    forall n :: 0 <= n < |nodes| && nodes[n].parent.Some? && nodes[n].parent.value < |nodes| ==>
      |nodes[nodes[n].parent.value].children| == 2
  }

  /** What insertions keep on top of `Sound`, because only the leaf that
      received the entry is ever split. */
  predicate Tidy(nodes: seq<Node>)
  {
    ParentsAgree(nodes) && PairedParents(nodes)
  }

  /** A node that has a parent is among its parent's children. */
  predicate Attached(nodes: seq<Node>, n: nat)
    requires Closed(nodes) && n < |nodes|
  {
    nodes[n].parent.None? || n in nodes[nodes[n].parent.value].children
  }

  /** The same nodes with the same parents and children. */
  predicate SameLinks(a: seq<Node>, b: seq<Node>)
  {
    |a| == |b| &&
    forall n :: 0 <= n < |a| ==> a[n].parent == b[n].parent && a[n].children == b[n].children
  }

  /** The same nodes with the same parents, children and entries: only
      boxes may differ. */
  predicate SameShape(a: seq<Node>, b: seq<Node>)
  {
    SameLinks(a, b) && forall n :: 0 <= n < |a| ==> a[n].entries == b[n].entries
  }

  lemma ShapeKeepsClosed(a: seq<Node>, b: seq<Node>)
    requires SameLinks(a, b) && Closed(a)
    ensures Closed(b)
  {
    forall n | 0 <= n < |b|
      ensures forall k :: 0 <= k < |b[n].children| ==> b[n].children[k] < |b|
    {
      assert b[n].children == a[n].children;
    }
  }

  /** The invariants are about the shape only. */
  lemma LinksKeepRanked(a: seq<Node>, b: seq<Node>, rank: seq<nat>)
    requires SameLinks(a, b) && Ranked(a, rank)
    ensures Ranked(b, rank)
  {
    assert forall n :: 0 <= n < |b| ==> b[n].children == a[n].children;
  }

  lemma ShapeKeepsInvariants(a: seq<Node>, b: seq<Node>, rank: seq<nat>, root: nat, max: int)
    requires SameShape(a, b)
    ensures Sound(a, rank, root, max) ==> Sound(b, rank, root, max)
    ensures Tidy(a) ==> Tidy(b)
  {
    if Closed(a) {
      ShapeKeepsClosed(a, b);
    }
    assert forall n :: 0 <= n < |b| ==> b[n].children == a[n].children && b[n].parent == a[n].parent;
  }

  // ---------------------------------------------------------------------
  // Boxes

  /** `updateBoundingBox` on node `n`. */
  function SetCover(c: Collaborators, nodes: seq<Node>, n: nat): (r: seq<Node>)
    requires Closed(nodes) && n < |nodes|
    ensures SameShape(nodes, r) && Closed(r)
  {
    var r := nodes[n := nodes[n].(box := Cover(c, nodes, n))];
    ShapeKeepsClosed(nodes, r);
    r
  }

  /** `updateBoundingBox` on every node of `stack`, the first one first. */
  function Refresh(c: Collaborators, nodes: seq<Node>, stack: seq<nat>): (r: seq<Node>)
    requires Closed(nodes) && InNodes(nodes, stack)
    ensures SameShape(nodes, r) && Closed(r)
    ensures forall n :: 0 <= n < |nodes| && n !in stack ==> r[n] == nodes[n]
    decreases |stack|
  {
    if stack == [] then nodes
    else
      var r := Refresh(c, SetCover(c, nodes, stack[0]), stack[1..]);
      assert forall n :: n in stack[1..] ==> n in stack;
      r
  }

  /** The box of node `n` only depends on its children's boxes and its
      entries. */
  lemma CoverFrame(c: Collaborators, a: seq<Node>, b: seq<Node>, n: nat)
    requires Closed(a) && SameShape(a, b) && n < |a|
    requires forall k :: 0 <= k < |a[n].children| ==> b[a[n].children[k]].box == a[a[n].children[k]].box
    ensures Cover(c, a, n) == Cover(c, b, n)
  {
    ShapeKeepsClosed(a, b);
    assert ChildBoxes(a, n) == ChildBoxes(b, n);
  }

  /** The nodes of `stack` rank strictly higher further down the stack: a
      path from a leaf up towards the root. */
  ghost predicate Upward(rank: seq<nat>, stack: seq<nat>)
  {
    forall i, j :: 0 <= i < j < |stack| && stack[i] < |rank| && stack[j] < |rank| ==> rank[stack[i]] < rank[stack[j]]
  }

  /** A node ranking no higher than the top of an upward stack is not
      further down it. */
  lemma NotBelowTop(rank: seq<nat>, stack: seq<nat>, x: nat)
    requires Upward(rank, stack) && stack != [] && stack[0] < |rank| && x < |rank| && rank[x] <= rank[stack[0]]
    requires forall k :: 0 <= k < |stack| ==> stack[k] < |rank|
    ensures x !in stack[1..]
  {
    forall j | 1 <= j < |stack|
      ensures stack[j] != x
    {
      assert rank[stack[0]] < rank[stack[j]];
    }
  }

  /** After the boxes of a path are recomputed from the leaf up, every node
      of the path has the cover of its children and entries as its box. */
  lemma {:induction false} RefreshCovers(c: Collaborators, nodes: seq<Node>, rank: seq<nat>, stack: seq<nat>)
    requires Closed(nodes) && Ranked(nodes, rank) && InNodes(nodes, stack) && Upward(rank, stack)
    ensures var r := Refresh(c, nodes, stack);
            forall k :: 0 <= k < |stack| ==> r[stack[k]].box == Cover(c, r, stack[k])
    decreases |stack|
  {
    if stack != [] {
      var n := stack[0];
      var rest := stack[1..];
      var first := SetCover(c, nodes, n);
      var r := Refresh(c, first, rest);
      assert r == Refresh(c, nodes, stack);
      LinksKeepRanked(nodes, first, rank);
      RefreshCovers(c, first, rank, rest);
      NotBelowTop(rank, stack, n);
      TopCovered(c, nodes, rank, stack);
      forall k | 0 <= k < |stack|
        ensures r[stack[k]].box == Cover(c, r, stack[k])
      {
        if k > 0 {
          assert stack[k] == rest[k - 1];
        }
      }
    }
  }

  /** The top of the stack keeps the box it was given while the rest of
      the stack is refreshed. */
  lemma TopCovered(c: Collaborators, nodes: seq<Node>, rank: seq<nat>, stack: seq<nat>)
    requires Closed(nodes) && Ranked(nodes, rank) && InNodes(nodes, stack) && Upward(rank, stack) && stack != []
    ensures var first := SetCover(c, nodes, stack[0]);
            var r := Refresh(c, first, stack[1..]);
            r[stack[0]].box == Cover(c, r, stack[0])
  {
    var n := stack[0];
    var rest := stack[1..];
    var first := SetCover(c, nodes, n);
    var r := Refresh(c, first, rest);
    NotBelowTop(rank, stack, n);
    forall k | 0 <= k < |nodes[n].children|
      ensures r[nodes[n].children[k]].box == first[nodes[n].children[k]].box
    {
      NotBelowTop(rank, stack, nodes[n].children[k]);
    }
    assert forall k :: 0 <= k < |nodes[n].children| ==> nodes[n].children[k] != n;
    CoverFrame(c, nodes, first, n);
    CoverFrame(c, first, r, n);
  }

  // ---------------------------------------------------------------------
  // Insertion below a node

  /** Each node of `stack` but the last is a child of the next one. */
  predicate ChildPath(nodes: seq<Node>, stack: seq<nat>)
  {
    forall i :: 0 <= i < |stack| - 1 && stack[i + 1] < |nodes| ==> stack[i] in nodes[stack[i + 1]].children
  }

  /** The path `insert(insertBaseNode, entry)` takes from node `n`: while
      the node has children, on to the child `findBestNodeForInsert` picks,
      each node pushed on `path`. The result is the leaf and the pushed path,
      the leaf on top; `None` when no child is picked (a `null` pushed). */
  function Descend(c: Collaborators, nodes: seq<Node>, rank: seq<nat>, n: nat, box: Box, path: seq<nat>)
    : (r: Option<(nat, seq<nat>)>)
    requires Closed(nodes) && Ranked(nodes, rank) && n < |nodes|
    requires InNodes(nodes, path) && path != [] && path[0] == n && Upward(rank, path)
    ensures r.Some? ==>
              r.value.0 < |nodes| && IsLeaf(nodes[r.value.0]) &&
              InNodes(nodes, r.value.1) && r.value.1 != [] && r.value.1[0] == r.value.0 && Upward(rank, r.value.1) &&
              (r.value.1 == path || (|r.value.1| >= 2 && r.value.0 in nodes[r.value.1[1]].children))
    decreases rank[n]
  {
    if IsLeaf(nodes[n]) then Some((n, path))
    else
      var pos := c.findBest(ChildBoxes(nodes, n), box);
      if 0 <= pos < |nodes[n].children| then
        var child := nodes[n].children[pos];
        UpwardPush(nodes, rank, child, path);
        var r := Descend(c, nodes, rank, child, box, [child] + path);
        assert r.Some? && r.value.1 == [child] + path ==> r.value.1[1] == n;
        r
      else None
  }

  /** A child of the top pushed on an upward stack keeps it upward. */
  lemma UpwardPush(nodes: seq<Node>, rank: seq<nat>, child: nat, path: seq<nat>)
    requires Closed(nodes) && Ranked(nodes, rank) && InNodes(nodes, path) && path != [] && Upward(rank, path)
    requires path[0] < |nodes| && child in nodes[path[0]].children
    ensures Upward(rank, [child] + path)
  {
    forall i, j | 0 <= i < j < |[child] + path|
      ensures rank[([child] + path)[i]] < rank[([child] + path)[j]]
    {
      if i == 0 && j > 1 {
        assert rank[path[0]] < rank[path[j - 1]];
      }
    }
  }

  /** The descent keeps the bottom of the path and follows child links. */
  lemma DescendPath(c: Collaborators, nodes: seq<Node>, rank: seq<nat>, n: nat, box: Box, path: seq<nat>)
    requires Closed(nodes) && Ranked(nodes, rank) && n < |nodes|
    requires InNodes(nodes, path) && path != [] && path[0] == n && Upward(rank, path)
    requires Descend(c, nodes, rank, n, box, path).Some?
    ensures var r := Descend(c, nodes, rank, n, box, path).value;
            r.1[|r.1| - 1] == path[|path| - 1] && (ChildPath(nodes, path) ==> ChildPath(nodes, r.1))
    decreases rank[n]
  {
    if !IsLeaf(nodes[n]) {
      var pos := c.findBest(ChildBoxes(nodes, n), box);
      var child := nodes[n].children[pos];
      assert child in nodes[n].children;
      UpwardPush(nodes, rank, child, path);
      DescendPath(c, nodes, rank, child, box, [child] + path);
    }
  }

  /** Appending `entry` to the entries of `leaf`. */
  function AddEntry(nodes: seq<Node>, leaf: nat, entry: Entry): (r: seq<Node>)
    requires leaf < |nodes|
    ensures |r| == |nodes|
  {
    nodes[leaf := nodes[leaf].(entries := nodes[leaf].entries + [entry])]
  }

  /** The tree after `insert(insertBaseNode, entry)`: the leaf of the
      descent with the entry appended, then the boxes of the path recomputed
      from the leaf up; or `NullPointerException` when the descent finds no
      child. */
  function InsertBelow(c: Collaborators, nodes: seq<Node>, rank: seq<nat>, base: nat, entry: Entry)
    : (r: Result<(seq<Node>, nat), JavaException>)
    requires Closed(nodes) && Ranked(nodes, rank) && base < |nodes|
    ensures r.Err? ==> r.error == NullPointerException
    ensures r.Ok? ==> |r.value.0| == |nodes| && Closed(r.value.0) && r.value.1 < |nodes|
  {
    match Descend(c, nodes, rank, base, EntryBox(c, entry), [base])
    case None => Err(NullPointerException)
    case Some((leaf, path)) =>
      var added := AddEntry(nodes, leaf, entry);
      ShapeKeepsClosed(nodes, added);
      Ok((Refresh(c, added, path), leaf))
  }

  // ---------------------------------------------------------------------
  // Splitting a node

  /** `remove(node)` on a child list: drops the first occurrence. */
  function RemoveFirst(s: seq<nat>, x: nat): (r: seq<nat>)
    ensures x in s ==> |r| == |s| - 1
    ensures x !in s ==> r == s
    ensures forall y :: y in r ==> y in s
    ensures forall y :: y in s && y != x ==> y in r
  {
    if s == [] then []
    else if s[0] == x then s[1..]
    else
      var r := [s[0]] + RemoveFirst(s[1..], x);
      assert forall y :: y in s ==> y == s[0] || y in s[1..];
      r
  }

  /** The links `splitNode` makes before it distributes: two new nodes and
      a new parent over them, built in that order at the end of the arena;
      the new parent becomes the root when the split node has no parent, and
      otherwise replaces the split node among its parent's children. The
      result is the arena and the root. */
  function Linked(c: Collaborators, nodes: seq<Node>, root: nat, split: nat): (r: (seq<Node>, nat))
    requires Closed(nodes) && split < |nodes|
    ensures |r.0| == |nodes| + 3
  {
    var n1 := |nodes|;
    var n2 := n1 + 1;
    var p := n1 + 2;
    var grown := nodes + [Node(Some(p), [], [], c.emptyBox), Node(Some(p), [], [], c.emptyBox), Node(None, [n1, n2], [], c.emptyBox)];
    match nodes[split].parent
    case None => (grown, p)
    case Some(q) => (grown[q := grown[q].(children := RemoveFirst(grown[q].children + [p], split))], root)
  }

  /** The two seeds `quadraticPickSeeds` picks among `boxes`, or `None`
      when it leaves the seed list short (`get` then fails). */
  function Seeds(c: Collaborators, boxes: seq<Box>): (r: Option<(nat, nat)>)
    ensures r.Some? ==> r.value.0 < |boxes| && r.value.1 < |boxes|
  {
    var s := c.pickSeeds(boxes);
    if 0 <= s.0 < |boxes| && 0 <= s.1 < |boxes| then Some((s.0, s.1)) else None
  }

  /** Every element a distribution hands out was a seed or an item. */
  lemma DistributedFrom<T>(c: Collaborators, boxOf: T -> Box, max: int, items: seq<T>, first: seq<T>, second: seq<T>)
    ensures var r := Distribute(c, boxOf, max, items, 0, first, second);
            forall x :: x in r.0 || x in r.1 ==> x in first || x in second || x in items
  {
    var r := Distribute(c, boxOf, max, items, 0, first, second);
    assert items[0..] == items;
    forall x | x in r.0 || x in r.1
      ensures x in first || x in second || x in items
    {
      assert x in multiset(r.0) + multiset(r.1);
    }
  }

  /** `splitNode(split)`: the links, then the distribution of the split
      node's entries (a leaf) or child nodes (otherwise) between the two new
      nodes, then the boxes of the two new nodes and of the new parent. The
      result is the arena and the root; `IndexOutOfBoundsException` when
      the seed picker finds no two seeds. */
  function SplitNodes(c: Collaborators, nodes: seq<Node>, root: nat, max: int, split: nat)
    : (r: Result<(seq<Node>, nat), JavaException>)
    requires Closed(nodes) && split < |nodes|
    ensures r.Err? ==> r.error == IndexOutOfBoundsException
    ensures r.Ok? ==> |r.value.0| == |nodes| + 3 && Closed(r.value.0) &&
                      (root < |nodes| ==> r.value.1 < |r.value.0|)
  {
    var (linked, newRoot) := Linked(c, nodes, root, split);
    LinkedClosed(c, nodes, root, split);
    var filled :- if IsLeaf(nodes[split]) then DistributeLeaves(c, nodes, linked, max, split)
                  else DistributeChildren(c, nodes, linked, max, split);
    Ok((Refresh(c, filled, [|nodes|, |nodes| + 1, |nodes| + 2]), newRoot))
  }

  /** `distributeLeafData`: the entries of `split` handed out between the
      two new nodes, each seed first. */
  function DistributeLeaves(c: Collaborators, nodes: seq<Node>, linked: seq<Node>, max: int, split: nat)
    : (r: Result<seq<Node>, JavaException>)
    requires split < |nodes| && |linked| == |nodes| + 3 && Closed(linked)
    ensures r.Err? ==> r.error == IndexOutOfBoundsException
    ensures r.Ok? ==> SameLinks(linked, r.value) && Closed(r.value)
    ensures r.Ok? ==> forall n :: 0 <= n < |linked| && n != |nodes| && n != |nodes| + 1 ==> r.value[n] == linked[n]
  {
    var entries := nodes[split].entries;
    match Seeds(c, EntryBoxes(c, entries))
    case None => Err(IndexOutOfBoundsException)
    case Some((s1, s2)) =>
      var d := Distribute(c, LeafBoxOf(c), max, entries, 0, [entries[s1]], [entries[s2]]);
      var n1 := |nodes|;
      var filled := linked[n1 := linked[n1].(entries := d.0)][n1 + 1 := linked[n1 + 1].(entries := d.1)];
      ShapeKeepsClosed(linked, filled);
      Ok(filled)
  }

  /** `distributeIndexData`: the child nodes of `split` handed out between
      the two new nodes, each seed first. */
  function DistributeChildren(c: Collaborators, nodes: seq<Node>, linked: seq<Node>, max: int, split: nat)
    : (r: Result<seq<Node>, JavaException>)
    requires Closed(nodes) && split < |nodes| && |linked| == |nodes| + 3 && Closed(linked)
    ensures r.Err? ==> r.error == IndexOutOfBoundsException
    ensures r.Ok? ==> |r.value| == |linked| && Closed(r.value)
    ensures r.Ok? ==> forall n :: 0 <= n < |linked| && n != |nodes| && n != |nodes| + 1 ==> r.value[n] == linked[n]
    ensures r.Ok? ==> r.value[|nodes|].parent == linked[|nodes|].parent && r.value[|nodes| + 1].parent == linked[|nodes| + 1].parent
    ensures r.Ok? ==> r.value[|nodes|].entries == linked[|nodes|].entries && r.value[|nodes| + 1].entries == linked[|nodes| + 1].entries
    ensures r.Ok? ==> forall x :: x in r.value[|nodes|].children ==> x in nodes[split].children
    ensures r.Ok? ==> forall x :: x in r.value[|nodes| + 1].children ==> x in nodes[split].children
  {
    var children := nodes[split].children;
    match Seeds(c, ChildBoxes(nodes, split))
    case None => Err(IndexOutOfBoundsException)
    case Some((s1, s2)) =>
      var d := Distribute(c, IndexBoxOf(c, nodes), max, children, 0, [children[s1]], [children[s2]]);
      DistributedFrom(c, IndexBoxOf(c, nodes), max, children, [children[s1]], [children[s2]]);
      var n1 := |nodes|;
      var filled := linked[n1 := linked[n1].(children := d.0)][n1 + 1 := linked[n1 + 1].(children := d.1)];
      assert forall x :: x in children ==> x < |nodes|;
      assert children[s1] in children && children[s2] in children;
      assert forall x :: x in d.0 || x in d.1 ==> x in children;
      assert filled[n1].children == d.0 && filled[n1 + 1].children == d.1;
      FilledClosed(linked, filled, n1, n1 + 1, |nodes|);
      Ok(filled)
  }

  /** Giving two nodes child lists from the first `bound` nodes keeps the
      arena closed. */
  lemma FilledClosed(linked: seq<Node>, filled: seq<Node>, n1: nat, n2: nat, bound: nat)
    requires Closed(linked) && n1 < |linked| && n2 < |linked| && |filled| == |linked| && bound <= |linked|
    requires forall n :: 0 <= n < |linked| && n != n1 && n != n2 ==> filled[n] == linked[n]
    requires filled[n1].parent == linked[n1].parent && filled[n2].parent == linked[n2].parent
    requires forall x :: x in filled[n1].children ==> x < bound
    requires forall x :: x in filled[n2].children ==> x < bound
    ensures Closed(filled)
  {
    forall n | 0 <= n < |filled|
      ensures forall k :: 0 <= k < |filled[n].children| ==> filled[n].children[k] < |filled|
    {
      if n == n1 || n == n2 {
        forall k | 0 <= k < |filled[n].children|
          ensures filled[n].children[k] < |filled|
        {
          assert filled[n].children[k] in filled[n].children;
        }
      }
    }
  }

  lemma LinkedClosed(c: Collaborators, nodes: seq<Node>, root: nat, split: nat)
    requires Closed(nodes) && split < |nodes|
    ensures Closed(Linked(c, nodes, root, split).0)
  {
    var linked := Linked(c, nodes, root, split).0;
    var p := |nodes| + 2;
    forall n | 0 <= n < |linked|
      ensures forall k :: 0 <= k < |linked[n].children| ==> linked[n].children[k] < |linked|
      ensures linked[n].parent.Some? ==> linked[n].parent.value < |linked|
    {
      if n < |nodes| {
        if nodes[split].parent == Some(n) {
          assert linked[n].children == RemoveFirst(nodes[n].children + [p], split);
          forall k | 0 <= k < |linked[n].children|
            ensures linked[n].children[k] < |linked|
          {
            assert linked[n].children[k] in nodes[n].children + [p];
          }
        } else {
          assert linked[n] == nodes[n];
        }
      }
    }
  }

  // ---------------------------------------------------------------------
  // What a split keeps

  /** Ranks above `t` move one up, to make room. */
  function Shifted(rank: seq<nat>, t: nat): (r: seq<nat>)
    ensures |r| == |rank|
    ensures forall n :: 0 <= n < |rank| ==> r[n] == if rank[n] > t then rank[n] + 1 else rank[n]
  {
    seq(|rank|, n requires 0 <= n < |rank| => if rank[n] > t then rank[n] + 1 else rank[n])
  }

  /** The ranking after a split: the two new nodes rank with the split
      node, and the new parent just above them. */
  function SplitRank(rank: seq<nat>, split: nat): (r: seq<nat>)
    requires split < |rank|
    ensures |r| == |rank| + 3
  {
    Shifted(rank, rank[split]) + [rank[split], rank[split], rank[split] + 1]
  }

  /** The links a split leaves: the old nodes as they were except the
      split node's parent, which lists the new parent instead of the split
      node; the new parent over the two new nodes; and the root. */
  ghost predicate LinkShape(nodes: seq<Node>, ns: seq<Node>, split: nat, root: nat, newRoot: nat)
    requires split < |nodes|
  {
    var n1 := |nodes|;
    var p := n1 + 2;
    |ns| == |nodes| + 3 &&
    (forall n :: 0 <= n < |nodes| && nodes[split].parent != Some(n) ==>
       ns[n].parent == nodes[n].parent && ns[n].children == nodes[n].children && ns[n].entries == nodes[n].entries) &&
    (nodes[split].parent.Some? ==>
       var q := nodes[split].parent.value;
       q < |nodes| && ns[q].parent == nodes[q].parent && ns[q].entries == nodes[q].entries &&
       ns[q].children == RemoveFirst(nodes[q].children + [p], split) && newRoot == root) &&
    (nodes[split].parent.None? ==> newRoot == p) &&
    ns[n1].parent == Some(p) && ns[n1 + 1].parent == Some(p) &&
    ns[p].parent == None && ns[p].children == [n1, n1 + 1] && ns[p].entries == []
  }

  /** The shape a split leaves: its links, and two new nodes holding
      elements of the split node, child nodes or entries but not both. */
  ghost predicate SplitShape(nodes: seq<Node>, ns: seq<Node>, split: nat, root: nat, newRoot: nat)
    requires split < |nodes|
  {
    var n1 := |nodes|;
    var n2 := n1 + 1;
    LinkShape(nodes, ns, split, root, newRoot) &&
    (forall x :: x in ns[n1].children ==> x in nodes[split].children) &&
    (forall x :: x in ns[n2].children ==> x in nodes[split].children) &&
    (ns[n1].children != [] ==> ns[n1].entries == []) &&
    (ns[n2].children != [] ==> ns[n2].entries == [])
  }

  lemma LinkedShape(c: Collaborators, nodes: seq<Node>, root: nat, split: nat)
    requires Closed(nodes) && split < |nodes|
    ensures var (linked, newRoot) := Linked(c, nodes, root, split);
            LinkShape(nodes, linked, split, root, newRoot) &&
            linked[|nodes|].children == [] && linked[|nodes| + 1].children == [] &&
            linked[|nodes|].entries == [] && linked[|nodes| + 1].entries == []
  {
  }

  /** Filling the two new nodes keeps the links. */
  lemma FilledShape(nodes: seq<Node>, linked: seq<Node>, filled: seq<Node>, split: nat, root: nat, newRoot: nat)
    requires split < |nodes| && LinkShape(nodes, linked, split, root, newRoot) && |filled| == |linked|
    requires forall n :: 0 <= n < |linked| && n != |nodes| && n != |nodes| + 1 ==> filled[n] == linked[n]
    requires filled[|nodes|].parent == linked[|nodes|].parent && filled[|nodes| + 1].parent == linked[|nodes| + 1].parent
    ensures LinkShape(nodes, filled, split, root, newRoot)
  {
  }

  /** Recomputing boxes keeps the shape. */
  lemma ShapeKeepsSplitShape(nodes: seq<Node>, a: seq<Node>, b: seq<Node>, split: nat, root: nat, newRoot: nat)
    requires split < |nodes| && SplitShape(nodes, a, split, root, newRoot) && SameShape(a, b)
    ensures SplitShape(nodes, b, split, root, newRoot)
  {
    assert forall n :: 0 <= n < |a| ==> a[n].parent == b[n].parent && a[n].children == b[n].children && a[n].entries == b[n].entries;
  }

  /** Two filled new nodes, holding elements of the split node and not
      both kinds, complete the shape of a split. */
  lemma FilledSplitShape(nodes: seq<Node>, linked: seq<Node>, filled: seq<Node>, split: nat, root: nat, newRoot: nat)
    requires split < |nodes| && LinkShape(nodes, linked, split, root, newRoot) && |filled| == |linked|
    requires forall n :: 0 <= n < |linked| && n != |nodes| && n != |nodes| + 1 ==> filled[n] == linked[n]
    requires filled[|nodes|].parent == linked[|nodes|].parent && filled[|nodes| + 1].parent == linked[|nodes| + 1].parent
    requires forall x :: x in filled[|nodes|].children ==> x in nodes[split].children
    requires forall x :: x in filled[|nodes| + 1].children ==> x in nodes[split].children
    requires filled[|nodes|].children == [] || filled[|nodes|].entries == []
    requires filled[|nodes| + 1].children == [] || filled[|nodes| + 1].entries == []
    ensures SplitShape(nodes, filled, split, root, newRoot)
  {
    FilledShape(nodes, linked, filled, split, root, newRoot);
  }

  /** Recomputing the boxes of the three new nodes keeps the shape. */
  lemma RefreshedShape(c: Collaborators, nodes: seq<Node>, filled: seq<Node>, split: nat, root: nat, newRoot: nat)
    requires split < |nodes| && Closed(filled) && SplitShape(nodes, filled, split, root, newRoot)
    ensures SplitShape(nodes, Refresh(c, filled, [|nodes|, |nodes| + 1, |nodes| + 2]), split, root, newRoot)
  {
    ShapeKeepsSplitShape(nodes, filled, Refresh(c, filled, [|nodes|, |nodes| + 1, |nodes| + 2]), split, root, newRoot);
  }

  /** A split leaves the shape above. */
  lemma SplitNodesShape(c: Collaborators, nodes: seq<Node>, root: nat, max: int, split: nat)
    requires Closed(nodes) && split < |nodes| && SplitNodes(c, nodes, root, max, split).Ok?
    ensures var r := SplitNodes(c, nodes, root, max, split).value;
            SplitShape(nodes, r.0, split, root, r.1)
  {
    if IsLeaf(nodes[split]) {
      LeafSplitShape(c, nodes, root, max, split);
    } else {
      IndexSplitShape(c, nodes, root, max, split);
    }
  }

  lemma LeafSplitShape(c: Collaborators, nodes: seq<Node>, root: nat, max: int, split: nat)
    requires Closed(nodes) && split < |nodes| && IsLeaf(nodes[split]) && SplitNodes(c, nodes, root, max, split).Ok?
    ensures var r := SplitNodes(c, nodes, root, max, split).value;
            SplitShape(nodes, r.0, split, root, r.1)
  {
    var (linked, newRoot) := Linked(c, nodes, root, split);
    LinkedClosed(c, nodes, root, split);
    LinkedShape(c, nodes, root, split);
    var f := DistributeLeaves(c, nodes, linked, max, split);
    assert f.Ok?;
    FilledSplitShape(nodes, linked, f.value, split, root, newRoot);
    RefreshedShape(c, nodes, f.value, split, root, newRoot);
  }

  lemma IndexSplitShape(c: Collaborators, nodes: seq<Node>, root: nat, max: int, split: nat)
    requires Closed(nodes) && split < |nodes| && !IsLeaf(nodes[split]) && SplitNodes(c, nodes, root, max, split).Ok?
    ensures var r := SplitNodes(c, nodes, root, max, split).value;
            SplitShape(nodes, r.0, split, root, r.1)
  {
    var (linked, newRoot) := Linked(c, nodes, root, split);
    LinkedClosed(c, nodes, root, split);
    LinkedShape(c, nodes, root, split);
    var f := DistributeChildren(c, nodes, linked, max, split);
    assert f.Ok?;
    FilledSplitShape(nodes, linked, f.value, split, root, newRoot);
    RefreshedShape(c, nodes, f.value, split, root, newRoot);
  }

  lemma SplitClosedRanked(nodes: seq<Node>, rank: seq<nat>, root: nat, max: int, split: nat, ns: seq<Node>, newRoot: nat)
    requires Sound(nodes, rank, root, max) && split < |nodes| && SplitShape(nodes, ns, split, root, newRoot)
    ensures Closed(ns) && Ranked(ns, SplitRank(rank, split))
  {
    var r := SplitRank(rank, split);
    var t := rank[split];
    var p := |nodes| + 2;
    forall n | 0 <= n < |ns|
      ensures forall k :: 0 <= k < |ns[n].children| ==> ns[n].children[k] < |ns| && r[ns[n].children[k]] < r[n]
      ensures ns[n].parent.Some? ==> ns[n].parent.value < |ns|
    {
      forall k | 0 <= k < |ns[n].children|
        ensures ns[n].children[k] < |ns| && r[ns[n].children[k]] < r[n]
      {
        var x := ns[n].children[k];
        assert x in ns[n].children;
        if n < |nodes| && nodes[split].parent == Some(n) {
          assert x in nodes[n].children + [p];
          if x != p {
            assert x in nodes[n].children;
            assert rank[x] < rank[n];
          } else {
            assert rank[split] < rank[n];
          }
        } else if n < |nodes| {
          assert x in nodes[n].children;
          assert rank[x] < rank[n];
        } else if n < p {
          assert x in nodes[split].children;
          assert rank[x] < rank[split];
        }
      }
    }
  }

  lemma SplitParents(nodes: seq<Node>, rank: seq<nat>, root: nat, max: int, split: nat, ns: seq<Node>, newRoot: nat)
    requires Sound(nodes, rank, root, max) && split < |nodes| && SplitShape(nodes, ns, split, root, newRoot)
    ensures ParentsRanked(ns, SplitRank(rank, split)) && ParentsAtTop(ns) && Separated(ns)
  {
    var r := SplitRank(rank, split);
    var p := |nodes| + 2;
    forall n | 0 <= n < |ns| && ns[n].parent.Some? && ns[n].parent.value < |ns|
      ensures r[n] < r[ns[n].parent.value]
      ensures ns[ns[n].parent.value].parent == None && ns[ns[n].parent.value].children != []
    {
      var x := ns[n].parent.value;
      if n < |nodes| {
        assert nodes[n].parent == Some(x);
        assert rank[n] < rank[x];
        if nodes[split].parent == Some(x) {
          assert p in nodes[x].children + [p];
        }
      }
    }
    forall n | 0 <= n < |ns| && ns[n].children != []
      ensures ns[n].entries == []
    {
      if n < |nodes| && nodes[split].parent == Some(n) {
        assert nodes[n].children != [];
      }
    }
  }

  /** A split keeps the tree invariant, under the shifted ranking. */
  lemma SplitSound(c: Collaborators, nodes: seq<Node>, rank: seq<nat>, root: nat, max: int, split: nat)
    requires Sound(nodes, rank, root, max) && split < |nodes| && SplitNodes(c, nodes, root, max, split).Ok?
    ensures var r := SplitNodes(c, nodes, root, max, split).value;
            Sound(r.0, SplitRank(rank, split), r.1, max)
  {
    var r := SplitNodes(c, nodes, root, max, split).value;
    SplitNodesShape(c, nodes, root, max, split);
    SplitClosedRanked(nodes, rank, root, max, split, r.0, r.1);
    SplitParents(nodes, rank, root, max, split, r.0, r.1);
  }

  /** Splitting a leaf that is among its parent's children keeps parent
      references naming the node that lists them, and parents with two
      children. */
  lemma SplitTidy(c: Collaborators, nodes: seq<Node>, rank: seq<nat>, root: nat, max: int, split: nat)
    requires Sound(nodes, rank, root, max) && Tidy(nodes) && split < |nodes| && IsLeaf(nodes[split])
    requires Attached(nodes, split) && SplitNodes(c, nodes, root, max, split).Ok?
    ensures Tidy(SplitNodes(c, nodes, root, max, split).value.0)
  {
    var r := SplitNodes(c, nodes, root, max, split).value;
    SplitNodesShape(c, nodes, root, max, split);
    assert r.0[|nodes|].children == [] && r.0[|nodes| + 1].children == [] by {
      assert forall x :: x !in nodes[split].children;
    }
    SplitAgree(nodes, rank, root, max, split, r.0, r.1);
    SplitPaired(nodes, rank, root, max, split, r.0, r.1);
  }

  lemma SplitAgree(nodes: seq<Node>, rank: seq<nat>, root: nat, max: int, split: nat, ns: seq<Node>, newRoot: nat)
    requires Sound(nodes, rank, root, max) && ParentsAgree(nodes) && split < |nodes|
    requires SplitShape(nodes, ns, split, root, newRoot)
    requires ns[|nodes|].children == [] && ns[|nodes| + 1].children == []
    ensures ParentsAgree(ns)
  {
    var p := |nodes| + 2;
    forall y, k | 0 <= y < |ns| && 0 <= k < |ns[y].children| && ns[y].children[k] < |ns| && ns[ns[y].children[k]].parent.Some?
      ensures ns[ns[y].children[k]].parent.value == y
    {
      var x := ns[y].children[k];
      assert x in ns[y].children;
      if y < |nodes| && nodes[split].parent == Some(y) {
        assert x in nodes[y].children + [p];
        if x != p {
          assert x in nodes[y].children;
          assert x != y by {
            assert rank[x] < rank[y];
          }
        }
      } else if y < |nodes| {
        assert x in nodes[y].children;
      }
    }
  }

  lemma SplitPaired(nodes: seq<Node>, rank: seq<nat>, root: nat, max: int, split: nat, ns: seq<Node>, newRoot: nat)
    requires Sound(nodes, rank, root, max) && PairedParents(nodes) && split < |nodes| && Attached(nodes, split)
    requires SplitShape(nodes, ns, split, root, newRoot)
    ensures PairedParents(ns)
  {
    var p := |nodes| + 2;
    forall n | 0 <= n < |ns| && ns[n].parent.Some? && ns[n].parent.value < |ns|
      ensures |ns[ns[n].parent.value].children| == 2
    {
      var x := ns[n].parent.value;
      if n < |nodes| {
        assert nodes[n].parent == Some(x);
        if nodes[split].parent == Some(x) {
          assert split in nodes[x].children + [p];
        }
      }
    }
  }
}
