/** The builder object of the R-tree spatial index
    (`RTreeSpatialIndexBuilder`). It owns the arena of directory nodes and
    the root, and changes them in place as the Java class does; each method
    is proved to leave the state that the functions of `RTreeUpdates` and
    `RTreeAdjustment` describe. */
module RTreeBuilders {
  import opened Wrappers
  import opened Bytes
  import opened RTree
  import opened RTreeDistribution
  import opened RTreeUpdates
  import opened RTreeAdjustment

  /** Two arenas that differ at most in the boxes of `n1` and `n2`. */
  predicate StaleBoxesOnly(a: seq<Node>, b: seq<Node>, n1: nat, n2: nat)
  {
    SameShape(a, b) && forall n :: 0 <= n < |a| && n != n1 && n != n2 ==> a[n] == b[n]
  }

  /** A node none of whose children is `n1` or `n2` gets the same box in
      two arenas that differ only in the boxes of `n1` and `n2`. */
  lemma CoverStale(c: Collaborators, a: seq<Node>, b: seq<Node>, n1: nat, n2: nat, m: nat)
    requires Closed(a) && StaleBoxesOnly(a, b, n1, n2) && m < |a|
    requires forall x :: x in a[m].children ==> x != n1 && x != n2
    ensures Cover(c, a, m) == Cover(c, b, m)
  {
    forall k | 0 <= k < |a[m].children|
      ensures b[a[m].children[k]].box == a[a[m].children[k]].box
    {
      assert a[m].children[k] in a[m].children;
    }
    CoverFrame(c, a, b, m);
  }

  /** Recomputing the boxes of two new nodes and then of their parent
      forgets whatever boxes the two new nodes held before, as long as
      neither is a child of the other. */
  lemma StaleBoxesForgotten(c: Collaborators, a: seq<Node>, b: seq<Node>, n1: nat, n2: nat, p: nat)
    requires Closed(a) && StaleBoxesOnly(a, b, n1, n2)
    requires n1 < |a| && n2 < |a| && p < |a| && n1 != n2 && p != n1 && p != n2
    requires forall x :: x in a[n1].children ==> x != n1 && x != n2
    requires forall x :: x in a[n2].children ==> x != n1 && x != n2
    ensures Closed(b)
    ensures SetCover(c, SetCover(c, SetCover(c, a, n1), n2), p) == Refresh(c, b, [n1, n2, p])
  {
    ShapeKeepsClosed(a, b);
    CoverStale(c, a, b, n1, n2, n1);
    var a1 := SetCover(c, a, n1);
    var b1 := SetCover(c, b, n1);
    assert a1[n1] == b1[n1];
    assert StaleBoxesOnly(a1, b1, n2, n2);
    CoverStale(c, a1, b1, n2, n2, n2);
    var a2 := SetCover(c, a1, n2);
    var b2 := SetCover(c, b1, n2);
    assert a2[n2] == b2[n2];
    assert a2 == b2;
    RefreshThree(c, b, n1, n2, p);
  }

  /** Recomputing the boxes of three nodes, one after the other. */
  lemma RefreshThree(c: Collaborators, nodes: seq<Node>, n1: nat, n2: nat, p: nat)
    requires Closed(nodes) && n1 < |nodes| && n2 < |nodes| && p < |nodes|
    ensures Refresh(c, nodes, [n1, n2, p]) == SetCover(c, SetCover(c, SetCover(c, nodes, n1), n2), p)
  {
    var a1 := SetCover(c, nodes, n1);
    var a2 := SetCover(c, a1, n2);
    assert [n1, n2, p][1..] == [n2, p] && [n2, p][1..] == [p] && [p][1..] == [];
    assert Refresh(c, nodes, [n1, n2, p]) == Refresh(c, a1, [n2, p]);
    assert Refresh(c, a1, [n2, p]) == Refresh(c, a2, [p]);
    assert Refresh(c, a2, [p]) == Refresh(c, SetCover(c, a2, p), []);
  }

  /** The distribution `splitNode` picks: the entries of a leaf, the
      child nodes of any other node. */
  function Filled(c: Collaborators, before: seq<Node>, linked: seq<Node>, max: int, split: nat)
    : Result<seq<Node>, JavaException>
    requires Closed(before) && split < |before| && |linked| == |before| + 3 && Closed(linked)
  {
    if IsLeaf(before[split]) then DistributeLeaves(c, before, linked, max, split)
    else DistributeChildren(c, before, linked, max, split)
  }

  /** Both distributions give the two new nodes only old nodes as
      children. */
  lemma FilledBelow(c: Collaborators, before: seq<Node>, linked: seq<Node>, max: int, split: nat,
                    filled: seq<Node>, n1: nat, n2: nat)
    requires Closed(before) && split < |before| && |linked| == |before| + 3 && Closed(linked)
    requires n1 == |before| && n2 == n1 + 1 && linked[n1].children == [] && linked[n2].children == []
    requires Filled(c, before, linked, max, split) == Ok(filled)
    ensures forall x :: x in filled[n1].children ==> x < |before|
    ensures forall x :: x in filled[n2].children ==> x < |before|
  {
    if !IsLeaf(before[split]) {
      assert forall x :: x in before[split].children ==> x < |before|;
      assert forall x :: x in filled[n1].children ==> x in before[split].children;
      assert forall x :: x in filled[n2].children ==> x in before[split].children;
    }
  }

  /** `SplitNodes` is the distribution with the boxes of the two new
      nodes and of the new parent recomputed. */
  lemma SplitNodesFilled(c: Collaborators, before: seq<Node>, root: nat, max: int, split: nat, filled: seq<Node>)
    requires Closed(before) && split < |before|
    requires var linked := Linked(c, before, root, split).0;
             Closed(linked) && Filled(c, before, linked, max, split) == Ok(filled)
    ensures var n1 := |before|;
            SplitNodes(c, before, root, max, split) == Ok((Refresh(c, filled, [n1, n1 + 1, n1 + 2]), Linked(c, before, root, split).1))
  {
  }

  /** The three box updates at the end of `splitNode`, applied to an
      arena that differs from the distribution only in the boxes of the two
      new nodes, recompute those boxes and the new parent's as on the
      distribution itself. */
  lemma SplitFinished(c: Collaborators, before: seq<Node>, root: nat, max: int, split: nat, filled: seq<Node>, a: seq<Node>,
                      n1: nat, n2: nat, p: nat)
    requires Closed(before) && split < |before| && n1 == |before| && n2 == n1 + 1 && p == n1 + 2
    requires var linked := Linked(c, before, root, split).0;
             Closed(linked) && linked[n1].children == [] && linked[n2].children == [] &&
             Filled(c, before, linked, max, split) == Ok(filled)
    requires StaleBoxesOnly(a, filled, n1, n2)
    ensures Closed(a)
    ensures SetCover(c, SetCover(c, SetCover(c, a, n1), n2), p) == Refresh(c, filled, [n1, n2, p])
  {
    var linked := Linked(c, before, root, split).0;
    FilledBelow(c, before, linked, max, split, filled, n1, n2);
    assert a[n1].children == filled[n1].children && a[n2].children == filled[n2].children;
    ShapeKeepsClosed(filled, a);
    StaleBoxesForgotten(c, a, filled, n1, n2, p);
  }

  /** `insert(insertBaseNode, entry)` on a leaf appends the entry to it,
      recomputes its box and changes no other node. */
  lemma InsertIntoLeaf(c: Collaborators, nodes: seq<Node>, rank: seq<nat>, leaf: nat, entry: Entry)
    requires Closed(nodes) && Ranked(nodes, rank) && leaf < |nodes| && IsLeaf(nodes[leaf])
    ensures InsertBelow(c, nodes, rank, leaf, entry).Ok?
    ensures var (ns, n) := InsertBelow(c, nodes, rank, leaf, entry).value;
            n == leaf && SameLinks(nodes, ns) && ns[leaf].entries == nodes[leaf].entries + [entry] &&
            forall m :: 0 <= m < |nodes| && m != leaf ==> ns[m] == nodes[m]
  {
    var added := AddEntry(nodes, leaf, entry);
    ShapeKeepsClosed(nodes, added);
    assert Descend(c, nodes, rank, leaf, EntryBox(c, entry), [leaf]) == Some((leaf, [leaf]));
    assert [leaf][1..] == [];
    assert Refresh(c, added, [leaf]) == Refresh(c, SetCover(c, added, leaf), []);
  }

  /** Recomputing the box of a leaf gives it the cover of its entries'
      boxes, as the leaf distribution weighs it. */
  lemma LeafCover(c: Collaborators, nodes: seq<Node>, n: nat)
    requires Closed(nodes) && n < |nodes| && IsLeaf(nodes[n])
    ensures SetCover(c, nodes, n) == nodes[n := nodes[n].(box := c.cover(Boxes(LeafBoxOf(c), nodes[n].entries)))]
  {
    assert ChildBoxes(nodes, n) + EntryBoxes(c, nodes[n].entries) == Boxes(LeafBoxOf(c), nodes[n].entries);
  }

  /** Recomputing the box of a node without entries whose children kept
      their boxes from `before` gives it the cover of those boxes, as the
      index distribution weighs it. */
  lemma IndexCover(c: Collaborators, before: seq<Node>, nodes: seq<Node>, n: nat)
    requires Closed(nodes) && n < |nodes| && nodes[n].entries == []
    requires forall x :: x in nodes[n].children ==> x < |before| && x < |nodes| && nodes[x].box == before[x].box
    ensures SetCover(c, nodes, n) == nodes[n := nodes[n].(box := c.cover(Boxes(IndexBoxOf(c, before), nodes[n].children)))]
  {
    var children := nodes[n].children;
    forall k | 0 <= k < |children|
      ensures ChildBoxes(nodes, n)[k] == Boxes(IndexBoxOf(c, before), children)[k]
    {
      assert children[k] in children;
    }
    assert ChildBoxes(nodes, n) + EntryBoxes(c, nodes[n].entries) == Boxes(IndexBoxOf(c, before), children);
  }

  /** The links of a split leave the split node as it was and keep the
      boxes of the old nodes; under the shifted ranking they are ranked. */
  lemma LinkedRanked(c: Collaborators, nodes: seq<Node>, rank: seq<nat>, root: nat, max: int, split: nat)
    requires Sound(nodes, rank, root, max) && split < |nodes|
    ensures var linked := Linked(c, nodes, root, split).0;
            Closed(linked) && Ranked(linked, SplitRank(rank, split)) && linked[split] == nodes[split] &&
            (forall n :: 0 <= n < |nodes| ==> linked[n].box == nodes[n].box) &&
            linked[|nodes|] == Node(Some(|nodes| + 2), [], [], c.emptyBox) &&
            linked[|nodes| + 1] == Node(Some(|nodes| + 2), [], [], c.emptyBox)
  {
    var (linked, newRoot) := Linked(c, nodes, root, split);
    LinkedClosed(c, nodes, root, split);
    LinkedShape(c, nodes, root, split);
    FilledSplitShape(nodes, linked, linked, split, root, newRoot);
    SplitClosedRanked(nodes, rank, root, max, split, linked, newRoot);
    if nodes[split].parent.Some? {
      var q := nodes[split].parent.value;
      assert rank[split] < rank[q];
    }
  }

  /** The arena while `distributeLeafData` runs: the links as `linked`
      made them, and only the two new leaves changed. */
  predicate LeafFilling(linked: seq<Node>, nodes: seq<Node>, n1: nat, n2: nat)
  {
    SameLinks(linked, nodes) && forall n :: 0 <= n < |linked| && n != n1 && n != n2 ==> nodes[n] == linked[n]
  }

  /** Changing one of the two new leaves without touching links keeps the
      arena of `distributeLeafData`. */
  lemma LeafFillingKept(linked: seq<Node>, a: seq<Node>, b: seq<Node>, n1: nat, n2: nat, t: nat)
    requires LeafFilling(linked, a, n1, n2) && SameLinks(a, b) && (t == n1 || t == n2)
    requires forall m :: 0 <= m < |a| && m != t ==> b[m] == a[m]
    ensures LeafFilling(linked, b, n1, n2)
  {
  }

  /** The arena while `distributeIndexData` runs: only the two new nodes
      changed, they keep their parent and hold no entries, and their
      children are old nodes, which keep the boxes they had in `before`. */
  predicate IndexFilling(before: seq<Node>, linked: seq<Node>, nodes: seq<Node>, n1: nat, n2: nat)
  {
    Closed(linked) && |nodes| == |linked| && |before| <= n1 < |linked| && |before| <= n2 < |linked| && n1 != n2 &&
    (forall n :: 0 <= n < |linked| && n != n1 && n != n2 ==> nodes[n] == linked[n]) &&
    (forall n :: 0 <= n < |before| ==> linked[n].box == before[n].box) &&
    nodes[n1].parent == linked[n1].parent && nodes[n2].parent == linked[n2].parent &&
    nodes[n1].entries == [] && nodes[n2].entries == [] &&
    (forall x :: x in nodes[n1].children ==> x < |before|) &&
    (forall x :: x in nodes[n2].children ==> x < |before|)
  }

  /** Each seed set as the only child of its own new node starts the
      arena of `distributeIndexData`. */
  lemma IndexSeedsPlaced(before: seq<Node>, linked: seq<Node>, nodes: seq<Node>, n1: nat, n2: nat, seed1: nat, seed2: nat)
    requires Closed(linked) && |before| <= n1 < |linked| && |before| <= n2 < |linked| && n1 != n2
    requires forall n :: 0 <= n < |before| ==> linked[n].box == before[n].box
    requires linked[n1].entries == [] && linked[n2].entries == []
    requires seed1 < |before| && seed2 < |before|
    requires nodes == linked[n1 := linked[n1].(children := [seed1])][n2 := linked[n2].(children := [seed2])]
    ensures IndexFilling(before, linked, nodes, n1, n2)
  {
  }

  /** A distribution moves on by one element, to the node `GoesFirst`
      picks. */
  lemma DistributeStep<T>(c: Collaborators, boxOf: T -> Box, max: int, items: seq<T>, i: nat, first: seq<T>, second: seq<T>)
    requires i < |items|
    ensures Distribute(c, boxOf, max, items, i, first, second) ==
            if GoesFirst(c, boxOf, max, first, second, |items| - i, items[i])
            then Distribute(c, boxOf, max, items, i + 1, first + [items[i]], second)
            else Distribute(c, boxOf, max, items, i + 1, first, second + [items[i]])
  {
  }

  /** Changing one of the two new nodes, keeping its parent, no entries
      and children among the old nodes, keeps the arena of
      `distributeIndexData`. */
  lemma IndexFillingKept(before: seq<Node>, linked: seq<Node>, a: seq<Node>, b: seq<Node>, n1: nat, n2: nat, t: nat)
    requires IndexFilling(before, linked, a, n1, n2) && |b| == |a| && (t == n1 || t == n2)
    requires forall m :: 0 <= m < |a| && m != t ==> b[m] == a[m]
    requires b[t].parent == a[t].parent && b[t].entries == []
    requires forall x :: x in b[t].children ==> x < |before|
    ensures IndexFilling(before, linked, b, n1, n2)
  {
  }

  /** The arena of `distributeIndexData` is closed, and its old nodes have
      the boxes they had in `before`. */
  lemma IndexFillingClosed(before: seq<Node>, linked: seq<Node>, nodes: seq<Node>, n1: nat, n2: nat)
    requires IndexFilling(before, linked, nodes, n1, n2)
    ensures Closed(nodes)
    ensures forall x :: 0 <= x < |before| ==> nodes[x].box == before[x].box
  {
    FilledClosed(linked, nodes, n1, n2, |before|);
  }

  /** Nothing is left to hand out once the whole list has been walked. */
  lemma DistributeDone<T>(c: Collaborators, boxOf: T -> Box, max: int, items: seq<T>, first: seq<T>, second: seq<T>)
    ensures Distribute(c, boxOf, max, items, |items|, first, second) == (first, second)
  {
  }

  /** The leaf distribution ends in the arena of `DistributeLeaves`, up to
      the boxes of the two new nodes. */
  lemma LeavesDistributed(c: Collaborators, before: seq<Node>, linked: seq<Node>, nodes: seq<Node>, max: int, split: nat,
                          seed1: nat, seed2: nat)
    requires split < |before| && |linked| == |before| + 3 && Closed(linked)
    requires Seeds(c, EntryBoxes(c, before[split].entries)) == Some((seed1, seed2))
    requires LeafFilling(linked, nodes, |before|, |before| + 1)
    requires var entries := before[split].entries;
             (nodes[|before|].entries, nodes[|before| + 1].entries) ==
             Distribute(c, LeafBoxOf(c), max, entries, 0, [entries[seed1]], [entries[seed2]])
    ensures DistributeLeaves(c, before, linked, max, split).Ok?
    ensures StaleBoxesOnly(nodes, DistributeLeaves(c, before, linked, max, split).value, |before|, |before| + 1)
  {
  }

  /** The index distribution ends in the arena of `DistributeChildren`, up
      to the boxes of the two new nodes. */
  lemma ChildrenDistributed(c: Collaborators, before: seq<Node>, linked: seq<Node>, nodes: seq<Node>, max: int, split: nat,
                            seed1: nat, seed2: nat)
    requires Closed(before) && split < |before| && |linked| == |before| + 3
    requires Seeds(c, ChildBoxes(before, split)) == Some((seed1, seed2))
    requires IndexFilling(before, linked, nodes, |before|, |before| + 1)
    requires linked[|before|].entries == [] && linked[|before| + 1].entries == []
    requires var children := before[split].children;
             (nodes[|before|].children, nodes[|before| + 1].children) ==
             Distribute<nat>(c, IndexBoxOf(c, before), max, children, 0, [children[seed1]], [children[seed2]])
    ensures DistributeChildren(c, before, linked, max, split).Ok?
    ensures StaleBoxesOnly(nodes, DistributeChildren(c, before, linked, max, split).value, |before|, |before| + 1)
  {
  }

  /** The parent of a node in a sound and tidy tree is a parentless
      directory node with two children, so `adjustTree` passes it by. */
  lemma ParentSettles(nodes: seq<Node>, rank: seq<nat>, root: nat, max: int, n: nat)
    requires Sound(nodes, rank, root, max) && Tidy(nodes) && n < |nodes| && nodes[n].parent.Some?
    ensures var q := nodes[n].parent.value;
            q < |nodes| && nodes[q].parent == None && Size(nodes[q]) <= max
  {
    var q := nodes[n].parent.value;
    assert |nodes[q].children| == 2 && nodes[q].children != [];
    assert nodes[q].entries == [];
  }

  /** Splitting a leaf over capacity succeeds, and the new parent it
      leaves is a parentless node within capacity. */
  lemma NewParentSettles(c: Collaborators, nodes: seq<Node>, rank: seq<nat>, root: nat, max: int, inserted: nat)
    requires Sound(nodes, rank, root, max) && SeedsInRange(c)
    requires inserted < |nodes| && IsLeaf(nodes[inserted]) && Size(nodes[inserted]) > max
    ensures SplitNodes(c, nodes, root, max, inserted).Ok?
    ensures var ns := SplitNodes(c, nodes, root, max, inserted).value.0;
            |nodes| + 2 < |ns| && ns[|nodes| + 2].parent == None && Size(ns[|nodes| + 2]) <= max
  {
    SplitNodesOk(c, nodes, root, max, inserted);
    SplitPieces(c, nodes, root, max, inserted);
  }

  /** The guard of the constructor as written: only a capacity of zero or
      less is refused. */
  predicate AcceptedAsWritten(maxNodeSize: int)
  {
    maxNodeSize > 0
  }

  /** The constructor's guard lets through the capacity of one, with which
      `adjustTree` never ends on the second insertion. */
  lemma CapacityOneAccepted(c: Collaborators, e1: Entry, e2: Entry, box: Box, k: nat)
    requires SeedsInRange(c)
    ensures AcceptedAsWritten(1)
    ensures var s := Adjusting([Node(None, [], [e1, e2], box)], 0, Some(0));
            AdjustRun(c, s, 1, 0, k).Ok? && AdjustRun(c, s, 1, 0, k).value.next.Some?
  {
    SecondInsertNeverSettles(c, e1, e2, box, k);
  }

  /** The constructor with a capacity check: a capacity below two, for
      which splitting never settles, is refused with
      `IllegalArgumentException`. */
  method Create(maxNodeSize: int, c: Collaborators) returns (r: Result<RTreeSpatialIndexBuilder, JavaException>)
    requires SeedsInRange(c)
    ensures r.Err? <==> maxNodeSize < 2
    ensures r.Err? ==> r.error == IllegalArgumentException
    ensures r.Ok? ==> fresh(r.value) && r.value.Valid() && r.value.maxNodeSize == maxNodeSize &&
                      r.value.nodes == [NewNode(c)] && r.value.rootNode == 0
  {
    if maxNodeSize < 2 {
      return Err(IllegalArgumentException);
    }
    var builder := new RTreeSpatialIndexBuilder(maxNodeSize, c);
    r := Ok(builder);
  }

  class RTreeSpatialIndexBuilder {
    /** The geometry and serialisation of boxes and entries. */
    const c: Collaborators
    const maxNodeSize: int
    var nodes: seq<Node>
    var rootNode: nat
    /** A ranking of the child relation, kept for the proofs. */
    ghost var rank: seq<nat>

    /** The tree invariant, and a seed picker that picks within the list. */
    ghost predicate Valid()
      reads this
    {
      Sound(nodes, rank, rootNode, maxNodeSize) && Tidy(nodes) && SeedsInRange(c)
    }

    /** Everything `writeToStream` writes: the signature, the capacity as
        four bytes, then the pre-order stream of the tree from its root. */
    ghost function TreeStream(): seq<byte>
      requires Valid()
      reads this
    {
      MAGIC_BYTES_SPATIAL_RTREE_INDEX + LowBytes(maxNodeSize, INT_BYTES) + NodeStream(c, nodes, rank, maxNodeSize, rootNode)
    }

    /** A builder whose root is a fresh, empty directory node. A capacity
        below two is refused by `Create`. */
    constructor (maxNodeSize: int, c: Collaborators)
      requires maxNodeSize >= 2 && SeedsInRange(c)
      ensures Valid()
      ensures this.maxNodeSize == maxNodeSize && this.c == c
      ensures nodes == [NewNode(c)] && rootNode == 0
    {
      this.maxNodeSize := maxNodeSize;
      this.c := c;
      nodes := [NewNode(c)];
      rootNode := 0;
      rank := [0];
    }

    /** The builder with the default capacity. */
    constructor Default(c: Collaborators)
      requires SeedsInRange(c)
      ensures Valid()
      ensures maxNodeSize == DEFAULT_NODE_SIZE && this.c == c
      ensures nodes == [NewNode(c)] && rootNode == 0
    {
      this.maxNodeSize := DEFAULT_NODE_SIZE;
      this.c := c;
      nodes := [NewNode(c)];
      rootNode := 0;
      rank := [0];
    }

    /** `getMaxNodeSize`. */
    function GetMaxNodeSize(): (size: int)
      reads this
      requires Valid()
      ensures size >= 2
    {
      maxNodeSize
    }

    /** `bulkInsert(elements)`: every entry inserted in turn; the answer is
        `false` as soon as one insertion answers `false`. An exception from
        an insertion ends it, with the entries before that one inserted and
        the builder still valid. */
    method BulkInsert(elements: seq<Entry>) returns (r: Result<bool, JavaException>)
      requires Valid()
      modifies this
      ensures Valid()
      ensures (nodes, rootNode) == BulkReached(c, old(nodes), old(rank), old(rootNode), maxNodeSize, elements)
      ensures var expected := BulkInserted(c, old(nodes), old(rank), old(rootNode), maxNodeSize, elements);
              if expected.Ok? then r == Ok(expected.value.0) && (nodes, rootNode) == (expected.value.1, expected.value.2)
              else r == Err(expected.error)
    {
      ghost var goal := BulkInserted(c, nodes, rank, rootNode, maxNodeSize, elements);
      ghost var reached := BulkReached(c, nodes, rank, rootNode, maxNodeSize, elements);
      assert elements[0..] == elements;
      var result := true;
      for i := 0 to |elements|
        invariant Valid()
        invariant var rest := BulkInserted(c, nodes, rank, rootNode, maxNodeSize, elements[i..]);
                  goal == if rest.Err? then Err(rest.error) else Ok((result && rest.value.0, rest.value.1, rest.value.2))
        invariant reached == BulkReached(c, nodes, rank, rootNode, maxNodeSize, elements[i..])
      {
        BulkStep(c, nodes, rank, rootNode, maxNodeSize, elements[i..]);
        assert elements[i..][0] == elements[i] && elements[i..][1..] == elements[i + 1..];
        var insertResult := Insert(elements[i]);
        if insertResult.Err? {
          return Err(insertResult.error);
        }
        if !insertResult.value {
          result := false;
        }
      }
      assert elements[|elements|..] == [];
      r := Ok(result);
    }

    /** `insert(entry)`: an entry without a box, or with the empty box, is
        refused with `false`; otherwise it is inserted below the root, the
        tree is adjusted from the leaf that took it, and the answer is
        `true`. A failed descent leaves the tree as it was. */
    method Insert(entry: Entry) returns (r: Result<bool, JavaException>)
      requires Valid()
      modifies this
      ensures Valid()
      ensures var expected := Inserted(c, old(nodes), old(rank), old(rootNode), maxNodeSize, entry);
              if expected.Ok? then r == Ok(expected.value.0) && (nodes, rootNode) == (expected.value.1, expected.value.2) &&
                                   rank == InsertedRank(c, old(nodes), old(rank), old(rootNode), maxNodeSize, entry)
              else r == Err(expected.error) && nodes == old(nodes) && rootNode == old(rootNode) && rank == old(rank)
    {
      if entry.box.None? || entry.box.value == c.emptyBox {
        return Ok(false);
      }
      var childNode := InsertAt(rootNode, entry);
      if childNode.Err? {
        return Err(childNode.error);
      }
      InsertBelowKeeps(c, old(nodes), rank, rootNode, maxNodeSize, entry);
      AdjustTree(childNode.value);
      r := Ok(true);
    }

    /** `adjustTree(insertedNode)`: from the inserted leaf upwards, a node
        over capacity makes the inserted leaf split and the new parent the
        next node to check; any other node passes the check on to its
        parent, until there is none. */
    method AdjustTree(insertedNode: nat)
      requires Valid() && insertedNode < |nodes| && IsLeaf(nodes[insertedNode]) && Attached(nodes, insertedNode)
      modifies this
      ensures Valid()
      ensures var expected := Adjusted(c, old(nodes), old(rootNode), maxNodeSize, insertedNode);
              expected.Ok? && (nodes, rootNode) == expected.value &&
              rank == AdjustedRank(old(nodes), old(rank), maxNodeSize, insertedNode)
    {
      AdjustedKeeps(c, nodes, rank, rootNode, maxNodeSize, insertedNode);
      var nodeToCheck: Option<nat> := Some(insertedNode);
      ghost var first := true;
      while nodeToCheck.Some?
        invariant first ==> nodes == old(nodes) && rank == old(rank) && rootNode == old(rootNode) &&
                            nodeToCheck == Some(insertedNode)
        invariant !first ==> (nodes, rootNode) == Adjusted(c, old(nodes), old(rootNode), maxNodeSize, insertedNode).value &&
                             rank == AdjustedRank(old(nodes), old(rank), maxNodeSize, insertedNode)
        invariant !first && nodeToCheck.Some? ==>
                    nodeToCheck.value < |nodes| && nodes[nodeToCheck.value].parent == None &&
                    Size(nodes[nodeToCheck.value]) <= maxNodeSize
        decreases (if first then 2 else 0) + (if nodeToCheck.Some? then 1 else 0)
      {
        var x := nodeToCheck.value;
        if Size(nodes[x]) > maxNodeSize {
          NewParentSettles(c, nodes, rank, rootNode, maxNodeSize, insertedNode);
          var split := SplitNode(insertedNode);
          nodeToCheck := Some(split.value);
        } else {
          if first && nodes[x].parent.Some? {
            ParentSettles(nodes, rank, rootNode, maxNodeSize, x);
          }
          nodeToCheck := nodes[x].parent;
        }
        first := false;
      }
    }

    /** `writeToStream`: the signature, the node capacity as a 4-byte
        integer, then the stream of the root. The nodes wait on a stack, and
        the child slots of a node are pushed last to first, so they are
        written first to last. An `IOException` from the stream comes back
        as `StorageManagerException`, with what was written before it left
        in the stream. */
    method WriteToStream(outputStream: OutputStream) returns (r: Result<(), JavaException>)
      requires Valid() && outputStream.Valid()
      modifies outputStream
      ensures outputStream.Valid()
      ensures r.Ok? <==> outputStream.Fits(|old(outputStream.written)| + |TreeStream()|)
      ensures r.Ok? ==> outputStream.written == old(outputStream.written) + TreeStream()
      ensures r.Err? ==> r.error == StorageManagerException
                         && outputStream.FailedWriting(old(outputStream.written), TreeStream())
    {
      var tree := nodes;
      ghost var rk := rank;
      var max: nat := maxNodeSize;
      ghost var before := outputStream.written;
      ghost var head := MAGIC_BYTES_SPATIAL_RTREE_INDEX + LowBytes(maxNodeSize, INT_BYTES);
      var ok := WriteConfiguration(outputStream);
      if !ok {
        PrefixExtend(head, head, NodeStream(c, tree, rk, max, rootNode));
        FailedWritingWiden(outputStream, before, head, TreeStream());
        return Err(StorageManagerException);
      }
      ghost var goal := outputStream.written + NodeStream(c, tree, rk, max, rootNode);
      Assoc(before, head, NodeStream(c, tree, rk, max, rootNode));
      assert goal == before + TreeStream();
      var nodesQueue: seq<Item> := [Present(rootNode)];
      assert StackStream(c, tree, rk, max, nodesQueue) == NodeStream(c, tree, rk, max, rootNode) + [];
      while nodesQueue != []
        invariant InArena(tree, nodesQueue)
        invariant outputStream.Valid()
        invariant outputStream.written + StackStream(c, tree, rk, max, nodesQueue) == goal
        decreases |StackStream(c, tree, rk, max, nodesQueue)|
      {
        ok, nodesQueue := WriteTop(outputStream, tree, rk, nodesQueue);
        if !ok {
          return Err(StorageManagerException);
        }
      }
      r := Ok(());
    }

    /** The signature and the capacity as four bytes; false when the
        stream throws. */
    method WriteConfiguration(outputStream: OutputStream) returns (ok: bool)
      requires outputStream.Valid()
      modifies outputStream
      ensures outputStream.Valid()
      ensures ok ==> outputStream.written ==
                       old(outputStream.written) + (MAGIC_BYTES_SPATIAL_RTREE_INDEX + LowBytes(maxNodeSize, INT_BYTES))
      ensures !ok ==> outputStream.FailedWriting(old(outputStream.written),
                        MAGIC_BYTES_SPATIAL_RTREE_INDEX + LowBytes(maxNodeSize, INT_BYTES))
    {
      ghost var before := outputStream.written;
      ok := outputStream.Write(MAGIC_BYTES_SPATIAL_RTREE_INDEX);
      if !ok {
        PrefixExtend(MAGIC_BYTES_SPATIAL_RTREE_INDEX, MAGIC_BYTES_SPATIAL_RTREE_INDEX, LowBytes(maxNodeSize, INT_BYTES));
        FailedWritingWiden(outputStream, before, MAGIC_BYTES_SPATIAL_RTREE_INDEX,
                           MAGIC_BYTES_SPATIAL_RTREE_INDEX + LowBytes(maxNodeSize, INT_BYTES));
        return;
      }
      ok := outputStream.Write(LowBytes(maxNodeSize, INT_BYTES));
      if !ok {
        FailedWritingAfter(outputStream, before, MAGIC_BYTES_SPATIAL_RTREE_INDEX, LowBytes(maxNodeSize, INT_BYTES));
        return;
      }
      Assoc(before, MAGIC_BYTES_SPATIAL_RTREE_INDEX, LowBytes(maxNodeSize, INT_BYTES));
    }

    /** One round of `writeToStream`: the top of the stack is taken off and
        written, or replaced by its child slots after its head is written;
        false when the stream throws. */
    method WriteTop(outputStream: OutputStream, tree: seq<Node>, ghost rk: seq<nat>, nodesQueue: seq<Item>)
      returns (ok: bool, next: seq<Item>)
      requires Closed(tree) && Ranked(tree, rk) && InArena(tree, nodesQueue) && nodesQueue != []
      requires maxNodeSize >= 0 && outputStream.Valid()
      modifies outputStream
      ensures outputStream.Valid()
      ensures InArena(tree, next)
      ensures ok ==> outputStream.written + StackStream(c, tree, rk, maxNodeSize, next) ==
                       old(outputStream.written) + StackStream(c, tree, rk, maxNodeSize, nodesQueue)
      ensures !ok ==> outputStream.FailedWriting(old(outputStream.written), StackStream(c, tree, rk, maxNodeSize, nodesQueue))
      ensures |StackStream(c, tree, rk, maxNodeSize, next)| < |StackStream(c, tree, rk, maxNodeSize, nodesQueue)|
    {
      var node := nodesQueue[0];
      var rest := nodesQueue[1..];
      ghost var before := outputStream.written;
      StackStep(c, tree, rk, maxNodeSize, nodesQueue);
      if node.Absent? {
        ok := outputStream.Write([MAGIC_CHILD_NODE_NOT_EXISTING]);
        Assoc(before, [MAGIC_CHILD_NODE_NOT_EXISTING], StackStream(c, tree, rk, maxNodeSize, rest));
        next := rest;
        if !ok {
          PrefixExtend([MAGIC_CHILD_NODE_NOT_EXISTING], [MAGIC_CHILD_NODE_NOT_EXISTING], StackStream(c, tree, rk, maxNodeSize, rest));
          FailedWritingWiden(outputStream, before, [MAGIC_CHILD_NODE_NOT_EXISTING], StackStream(c, tree, rk, maxNodeSize, nodesQueue));
        }
      } else {
        ghost var nodeHead := [MAGIC_CHILD_NODE_FOLLOWING] + LowBytes(node.n, INT_BYTES) + EntrySlots(c, tree[node.n].entries, maxNodeSize);
        ok := WriteNodeHead(outputStream, tree, node.n);
        next := PushChildSlots(tree, node.n, rest);
        PresentStep(c, tree, rk, maxNodeSize, node.n, rest);
        Assoc(before, nodeHead, StackStream(c, tree, rk, maxNodeSize, next));
        if !ok {
          PrefixExtend(nodeHead, nodeHead, StackStream(c, tree, rk, maxNodeSize, next));
          FailedWritingWiden(outputStream, before, nodeHead, StackStream(c, tree, rk, maxNodeSize, nodesQueue));
        }
      }
    }

    /** The presence marker, id and entry slots of node `n`; false when the
        stream throws. */
    method WriteNodeHead(outputStream: OutputStream, tree: seq<Node>, n: nat) returns (ok: bool)
      requires n < |tree| && maxNodeSize >= 0 && outputStream.Valid()
      modifies outputStream
      ensures outputStream.Valid()
      ensures ok ==> outputStream.written == old(outputStream.written) +
                       ([MAGIC_CHILD_NODE_FOLLOWING] + LowBytes(n, INT_BYTES) + EntrySlots(c, tree[n].entries, maxNodeSize))
      ensures !ok ==> outputStream.FailedWriting(old(outputStream.written),
                        [MAGIC_CHILD_NODE_FOLLOWING] + LowBytes(n, INT_BYTES) + EntrySlots(c, tree[n].entries, maxNodeSize))
    {
      ghost var before := outputStream.written;
      ghost var marker: seq<byte> := [MAGIC_CHILD_NODE_FOLLOWING];
      ghost var id := marker + LowBytes(n, INT_BYTES);
      ghost var whole := id + EntrySlots(c, tree[n].entries, maxNodeSize);
      ok := outputStream.Write([MAGIC_CHILD_NODE_FOLLOWING]);
      if !ok {
        PrefixExtend(marker, marker, LowBytes(n, INT_BYTES));
        PrefixExtend(marker, id, EntrySlots(c, tree[n].entries, maxNodeSize));
        FailedWritingWiden(outputStream, before, marker, whole);
        return;
      }
      ok := outputStream.Write(LowBytes(n, INT_BYTES));
      if !ok {
        FailedWritingAfter(outputStream, before, marker, LowBytes(n, INT_BYTES));
        PrefixExtend(id, id, EntrySlots(c, tree[n].entries, maxNodeSize));
        FailedWritingWiden(outputStream, before, id, whole);
        return;
      }
      ok := WriteEntrySlots(outputStream, tree[n].entries);
      Assoc(before, marker, LowBytes(n, INT_BYTES));
      if !ok {
        FailedWritingAfter(outputStream, before, id, EntrySlots(c, tree[n].entries, maxNodeSize));
        return;
      }
      Assoc(before, id, EntrySlots(c, tree[n].entries, maxNodeSize));
    }

    /** The child slots of node `n` pushed on `rest`, the last slot first,
        so that the first slot is on top. */
    method PushChildSlots(tree: seq<Node>, n: nat, rest: seq<Item>) returns (nodesQueue: seq<Item>)
      requires Closed(tree) && n < |tree| && maxNodeSize >= 0
      requires InArena(tree, rest)
      ensures nodesQueue == SlotItems(tree, maxNodeSize, n, 0) + rest
      ensures InArena(tree, nodesQueue)
    {
      var directoryNodeChilds := tree[n].children;
      nodesQueue := rest;
      var i := maxNodeSize - 1;
      while i >= 0
        invariant -1 <= i < maxNodeSize
        invariant nodesQueue == SlotItems(tree, maxNodeSize, n, i + 1) + rest
      {
        var item := if i < |directoryNodeChilds| then Present(directoryNodeChilds[i]) else Absent;
        Assoc2(item, SlotItems(tree, maxNodeSize, n, i + 1), rest);
        nodesQueue := [item] + nodesQueue;
        i := i - 1;
      }
    }

    /** The entry slots of `writeToStream` for one node; false when the
        stream throws. */
    method WriteEntrySlots(outputStream: OutputStream, indexEntries: seq<Entry>) returns (ok: bool)
      requires maxNodeSize >= 0 && outputStream.Valid()
      modifies outputStream
      ensures outputStream.Valid()
      ensures ok ==> outputStream.written == old(outputStream.written) + EntrySlots(c, indexEntries, maxNodeSize)
      ensures !ok ==> outputStream.FailedWriting(old(outputStream.written), EntrySlots(c, indexEntries, maxNodeSize))
    {
      ghost var before := outputStream.written;
      ok := true;
      for i := 0 to maxNodeSize
        invariant outputStream.Valid()
        invariant outputStream.written == before + EntrySlots(c, indexEntries, i)
      {
        ghost var done := EntrySlots(c, indexEntries, i);
        ghost var slot := if i < |indexEntries| then [MAGIC_CHILD_NODE_FOLLOWING] + c.entryBytes(indexEntries[i])
                          else [MAGIC_CHILD_NODE_NOT_EXISTING];
        if i < |indexEntries| {
          ok := outputStream.Write([MAGIC_CHILD_NODE_FOLLOWING]);
          if ok {
            ok := outputStream.Write(c.entryBytes(indexEntries[i]));
            if !ok {
              FailedWritingAfter(outputStream, before + done, [MAGIC_CHILD_NODE_FOLLOWING], c.entryBytes(indexEntries[i]));
            }
          } else {
            PrefixExtend([MAGIC_CHILD_NODE_FOLLOWING], [MAGIC_CHILD_NODE_FOLLOWING], c.entryBytes(indexEntries[i]));
            FailedWritingWiden(outputStream, before + done, [MAGIC_CHILD_NODE_FOLLOWING], slot);
          }
        } else {
          ok := outputStream.Write([MAGIC_CHILD_NODE_NOT_EXISTING]);
        }
        if !ok {
          FailedWritingAfter(outputStream, before, done, slot);
          EntrySlotsPrefix(c, indexEntries, i + 1, maxNodeSize);
          FailedWritingWiden(outputStream, before, done + slot, EntrySlots(c, indexEntries, maxNodeSize));
          return;
        }
        Assoc(before, done, slot);
      }
    }

    /** `insert(insertBaseNode, entry)`: down from the base node to a leaf,
        the entry appended to the leaf, the boxes of the way recomputed from
        the leaf up. A pick outside the children is a `null` pushed on the
        path, which throws before the tree changes. */
    method InsertAt(insertBaseNode: nat, entry: Entry) returns (r: Result<nat, JavaException>)
      requires Closed(nodes) && Ranked(nodes, rank) && insertBaseNode < |nodes|
      modifies this
      ensures rank == old(rank) && rootNode == old(rootNode)
      ensures var expected := InsertBelow(c, old(nodes), rank, insertBaseNode, entry);
              if expected.Ok? then r == Ok(expected.value.1) && nodes == expected.value.0
              else r == Err(expected.error) && nodes == old(nodes)
    {
      var found := Descent(insertBaseNode, EntryBox(c, entry));
      if found.None? {
        return Err(NullPointerException);
      }
      var (childNode, path) := found.value;
      nodes := nodes[childNode := nodes[childNode].(entries := nodes[childNode].entries + [entry])];
      ShapeKeepsClosed(old(nodes), nodes);
      RefreshPath(path);
      r := Ok(childNode);
    }

    /** The descent of `insert(insertBaseNode, entry)`: while the node has
        children, on to the child `findBestNodeForInsert` picks for `box`,
        each node pushed on the path. The leaf and the path, or `None` when
        no child is picked. */
    method Descent(insertBaseNode: nat, box: Box) returns (found: Option<(nat, seq<nat>)>)
      requires Closed(nodes) && Ranked(nodes, rank) && insertBaseNode < |nodes|
      ensures found == Descend(c, nodes, rank, insertBaseNode, box, [insertBaseNode])
    {
      var childNode: nat := insertBaseNode;
      var path: seq<nat> := [childNode];
      while !IsLeaf(nodes[childNode])
        invariant childNode < |nodes| && InNodes(nodes, path) && path != [] && path[0] == childNode && Upward(rank, path)
        invariant Descend(c, nodes, rank, childNode, box, path) == Descend(c, nodes, rank, insertBaseNode, box, [insertBaseNode])
        decreases rank[childNode]
      {
        var pos := c.findBest(ChildBoxes(nodes, childNode), box);
        if !(0 <= pos < |nodes[childNode].children|) {
          return None;
        }
        var next := nodes[childNode].children[pos];
        UpwardPush(nodes, rank, next, path);
        path := [next] + path;
        childNode := next;
      }
      found := Some((childNode, path));
    }

    /** The pops of `insert(insertBaseNode, entry)`: `updateBoundingBox` on
        every node of the path, the top first. */
    method RefreshPath(path: seq<nat>)
      requires Closed(nodes) && InNodes(nodes, path)
      modifies this
      ensures nodes == Refresh(c, old(nodes), path)
      ensures rank == old(rank) && rootNode == old(rootNode)
    {
      var rest := path;
      while rest != []
        invariant Closed(nodes) && InNodes(nodes, rest)
        invariant Refresh(c, nodes, rest) == Refresh(c, old(nodes), path)
        invariant rank == old(rank) && rootNode == old(rootNode)
        decreases |rest|
      {
        var tmpNode := rest[0];
        rest := rest[1..];
        nodes := SetCover(c, nodes, tmpNode);
      }
    }

    /** The links of `splitNode`: two new nodes and a new parent over them,
        at the end of the arena; the new parent becomes the root when the
        split node has none, and otherwise takes the split node's place among
        its parent's children. */
    method Link(nodeToSplit: nat) returns (newParent: nat)
      requires Closed(nodes) && nodeToSplit < |nodes|
      modifies this
      ensures (nodes, rootNode) == Linked(c, old(nodes), old(rootNode), nodeToSplit)
      ensures newParent == |old(nodes)| + 2
      ensures rank == old(rank)
    {
      var newNode1 := |nodes|;
      var newNode2 := newNode1 + 1;
      newParent := newNode1 + 2;
      var parentNode := nodes[nodeToSplit].parent;
      nodes := nodes + [NewNode(c), NewNode(c), NewNode(c)];
      if parentNode.None? {
        rootNode := newParent;
      } else {
        var q := parentNode.value;
        nodes := nodes[q := nodes[q].(children := nodes[q].children + [newParent])];
        nodes := nodes[q := nodes[q].(children := RemoveFirst(nodes[q].children, nodeToSplit))];
      }
      nodes := nodes[newParent := nodes[newParent].(children := nodes[newParent].children + [newNode1])];
      nodes := nodes[newParent := nodes[newParent].(children := nodes[newParent].children + [newNode2])];
      nodes := nodes[newNode1 := nodes[newNode1].(parent := Some(newParent))];
      nodes := nodes[newNode2 := nodes[newNode2].(parent := Some(newParent))];
      ghost var expected := Linked(c, old(nodes), old(rootNode), nodeToSplit).0;
      forall k | 0 <= k < |nodes|
        ensures nodes[k] == expected[k]
      {
      }
      assert |nodes| == |expected|;
      assert nodes == expected;
      assert rootNode == Linked(c, old(nodes), old(rootNode), nodeToSplit).1;
    }

    /** `splitNode`: the links, the distribution of the split node's
        entries (a leaf) or child nodes (otherwise), and the boxes of the two
        new nodes and of the new parent, which is the result. The seed picker
        finding no two seeds ends it with the links made. */
    method SplitNode(nodeToSplit: nat) returns (r: Result<nat, JavaException>)
      requires Sound(nodes, rank, rootNode, maxNodeSize) && nodeToSplit < |nodes|
      modifies this
      ensures rank == SplitRank(old(rank), nodeToSplit)
      ensures var expected := SplitNodes(c, old(nodes), old(rootNode), maxNodeSize, nodeToSplit);
              if expected.Ok? then r == Ok(|old(nodes)| + 2) && (nodes, rootNode) == expected.value
              else r == Err(expected.error) &&
                   (nodes, rootNode) == Linked(c, old(nodes), old(rootNode), nodeToSplit)
    {
      ghost var before := nodes;
      LinkedRanked(c, nodes, rank, rootNode, maxNodeSize, nodeToSplit);
      var newParent := Link(nodeToSplit);
      rank := SplitRank(rank, nodeToSplit);
      var newNode1 := newParent - 2;
      var newNode2 := newParent - 1;
      var distributed := DistributeData(nodeToSplit, newNode1, newNode2, before);
      if distributed.Err? {
        return Err(distributed.error);
      }
      ghost var filled := Filled(c, before, Linked(c, before, old(rootNode), nodeToSplit).0, maxNodeSize, nodeToSplit).value;
      SplitFinished(c, before, old(rootNode), maxNodeSize, nodeToSplit, filled, nodes, newNode1, newNode2, newParent);
      SplitNodesFilled(c, before, old(rootNode), maxNodeSize, nodeToSplit, filled);
      nodes := SetCover(c, nodes, newNode1);
      nodes := SetCover(c, nodes, newNode2);
      nodes := SetCover(c, nodes, newParent);
      r := Ok(newParent);
    }

    /** The dispatch of `splitNode`: `distributeLeafData` for a leaf,
        `distributeIndexData` otherwise. */
    method DistributeData(nodeToSplit: nat, newNode1: nat, newNode2: nat, ghost before: seq<Node>)
      returns (r: Result<(), JavaException>)
      requires Closed(before) && nodeToSplit < |before|
      requires |nodes| == |before| + 3 && newNode1 == |before| && newNode2 == |before| + 1
      requires Closed(nodes) && Ranked(nodes, rank) && nodes[nodeToSplit] == before[nodeToSplit]
      requires forall n :: 0 <= n < |before| ==> nodes[n].box == before[n].box
      requires IsLeaf(nodes[newNode1]) && IsLeaf(nodes[newNode2])
      requires nodes[newNode1].entries == [] && nodes[newNode2].entries == []
      modifies this
      ensures rank == old(rank) && rootNode == old(rootNode)
      ensures var expected := Filled(c, before, old(nodes), maxNodeSize, nodeToSplit);
              if expected.Ok? then r == Ok(()) && StaleBoxesOnly(nodes, expected.value, newNode1, newNode2)
              else r == Err(expected.error) && nodes == old(nodes)
    {
      if IsLeaf(nodes[nodeToSplit]) {
        r := DistributeLeafData(nodeToSplit, newNode1, newNode2, before);
      } else {
        r := DistributeIndexData(nodeToSplit, newNode1, newNode2, before);
      }
    }

    /** `distributeLeafData`: the two seeds and then every entry of the
        split node, seeds included, inserted into one of the two new leaves.
        The result differs from `DistributeLeaves` only in the boxes of the
        new nodes, which `splitNode` recomputes next. */
    method DistributeLeafData(nodeToSplit: nat, newNode1: nat, newNode2: nat, ghost before: seq<Node>)
      returns (r: Result<(), JavaException>)
      requires nodeToSplit < |before| && |nodes| == |before| + 3 && newNode1 == |before| && newNode2 == |before| + 1
      requires Closed(nodes) && Ranked(nodes, rank)
      requires nodes[nodeToSplit].entries == before[nodeToSplit].entries
      requires IsLeaf(nodes[newNode1]) && IsLeaf(nodes[newNode2])
      requires nodes[newNode1].entries == [] && nodes[newNode2].entries == []
      modifies this
      ensures rank == old(rank) && rootNode == old(rootNode)
      ensures var expected := DistributeLeaves(c, before, old(nodes), maxNodeSize, nodeToSplit);
              if expected.Ok? then r == Ok(()) && StaleBoxesOnly(nodes, expected.value, newNode1, newNode2)
              else r == Err(expected.error) && nodes == old(nodes)
    {
      var dataToDistribute := nodes[nodeToSplit].entries;
      var seeds := Seeds(c, EntryBoxes(c, dataToDistribute));
      if seeds.None? {
        return Err(IndexOutOfBoundsException);
      }
      var (seed1, seed2) := seeds.value;
      ghost var linked := nodes;
      ghost var goal := Distribute(c, LeafBoxOf(c), maxNodeSize, dataToDistribute, 0,
                                   [dataToDistribute[seed1]], [dataToDistribute[seed2]]);
      PlaceLeafSeeds(newNode1, newNode2, dataToDistribute[seed1], dataToDistribute[seed2]);
      FillLeaves(newNode1, newNode2, dataToDistribute, linked);
      assert (nodes[newNode1].entries, nodes[newNode2].entries) == goal;
      assert Seeds(c, EntryBoxes(c, before[nodeToSplit].entries)) == Some((seed1, seed2));
      LeavesDistributed(c, before, linked, nodes, maxNodeSize, nodeToSplit, seed1, seed2);
      r := Ok(());
    }

    /** The start of `distributeLeafData`: each seed inserted into its own
        new, empty leaf. */
    method PlaceLeafSeeds(newNode1: nat, newNode2: nat, seed1: Entry, seed2: Entry)
      requires Closed(nodes) && Ranked(nodes, rank)
      requires newNode1 < |nodes| && newNode2 < |nodes| && newNode1 != newNode2
      requires IsLeaf(nodes[newNode1]) && IsLeaf(nodes[newNode2])
      requires nodes[newNode1].entries == [] && nodes[newNode2].entries == []
      modifies this
      ensures LeafFilling(old(nodes), nodes, newNode1, newNode2)
      ensures nodes[newNode1].entries == [seed1] && nodes[newNode2].entries == [seed2]
      ensures rank == old(rank) && rootNode == old(rootNode)
    {
      ghost var linked := nodes;
      InsertIntoLeaf(c, nodes, rank, newNode1, seed1);
      var inserted := InsertAt(newNode1, seed1);
      ghost var mid := nodes;
      LinksKeepRanked(linked, nodes, rank);
      ShapeKeepsClosed(linked, nodes);
      InsertIntoLeaf(c, nodes, rank, newNode2, seed2);
      inserted := InsertAt(newNode2, seed2);
      assert SameLinks(mid, nodes);
    }

    /** The loop of `distributeLeafData`: every entry of `data`, in order,
        handed to one of the two new leaves by `DistributeLeafRound`. */
    method FillLeaves(newNode1: nat, newNode2: nat, data: seq<Entry>, ghost linked: seq<Node>)
      requires Closed(linked) && Ranked(linked, rank) && LeafFilling(linked, nodes, newNode1, newNode2)
      requires newNode1 < |linked| && newNode2 < |linked| && newNode1 != newNode2
      requires IsLeaf(linked[newNode1]) && IsLeaf(linked[newNode2])
      modifies this
      ensures LeafFilling(linked, nodes, newNode1, newNode2)
      ensures (nodes[newNode1].entries, nodes[newNode2].entries) ==
              Distribute(c, LeafBoxOf(c), maxNodeSize, data, 0, old(nodes)[newNode1].entries, old(nodes)[newNode2].entries)
      ensures rank == old(rank) && rootNode == old(rootNode)
    {
      ghost var goal := Distribute(c, LeafBoxOf(c), maxNodeSize, data, 0, nodes[newNode1].entries, nodes[newNode2].entries);
      for i := 0 to |data|
        invariant LeafFilling(linked, nodes, newNode1, newNode2)
        invariant Distribute(c, LeafBoxOf(c), maxNodeSize, data, i, nodes[newNode1].entries, nodes[newNode2].entries) == goal
        invariant rank == old(rank) && rootNode == old(rootNode)
      {
        DistributeStep(c, LeafBoxOf(c), maxNodeSize, data, i, nodes[newNode1].entries, nodes[newNode2].entries);
        DistributeLeafRound(newNode1, newNode2, data[i], |data| - i, linked);
      }
      DistributeDone(c, LeafBoxOf(c), maxNodeSize, data, nodes[newNode1].entries, nodes[newNode2].entries);
    }

    /** One round of `distributeLeafData`: the boxes of both new leaves
        recomputed, then `entry` inserted into the one the rule picks. */
    method DistributeLeafRound(newNode1: nat, newNode2: nat, entry: Entry, remainingObjects: nat, ghost linked: seq<Node>)
      requires Closed(linked) && Ranked(linked, rank) && LeafFilling(linked, nodes, newNode1, newNode2)
      requires newNode1 < |linked| && newNode2 < |linked| && newNode1 != newNode2
      requires IsLeaf(linked[newNode1]) && IsLeaf(linked[newNode2])
      modifies this
      ensures LeafFilling(linked, nodes, newNode1, newNode2)
      ensures var first := old(nodes)[newNode1].entries;
              var second := old(nodes)[newNode2].entries;
              if GoesFirst(c, LeafBoxOf(c), maxNodeSize, first, second, remainingObjects, entry)
              then nodes[newNode1].entries == first + [entry] && nodes[newNode2].entries == second
              else nodes[newNode1].entries == first && nodes[newNode2].entries == second + [entry]
      ensures rank == old(rank) && rootNode == old(rootNode)
    {
      ghost var first := nodes[newNode1].entries;
      ghost var second := nodes[newNode2].entries;
      ShapeKeepsClosed(linked, nodes);
      LeafCover(c, nodes, newNode1);
      ghost var mid := nodes;
      nodes := SetCover(c, nodes, newNode1);
      LeafFillingKept(linked, mid, nodes, newNode1, newNode2, newNode1);
      ShapeKeepsClosed(linked, nodes);
      LeafCover(c, nodes, newNode2);
      mid := nodes;
      nodes := SetCover(c, nodes, newNode2);
      LeafFillingKept(linked, mid, nodes, newNode1, newNode2, newNode2);
      assert nodes[newNode1].box == c.cover(Boxes(LeafBoxOf(c), first));
      assert nodes[newNode2].box == c.cover(Boxes(LeafBoxOf(c), second));
      ShapeKeepsClosed(linked, nodes);
      LinksKeepRanked(linked, nodes, rank);
      assert LeafBoxOf(c)(entry) == EntryBox(c, entry);
      var toFirst: bool;
      if |nodes[newNode1].entries| + remainingObjects <= maxNodeSize / 2 {
        toFirst := true;
      } else if |nodes[newNode2].entries| + remainingObjects <= maxNodeSize / 2 {
        toFirst := false;
      } else {
        var node1Enlargement := c.enlargement(nodes[newNode1].box, EntryBox(c, entry));
        var node2Enlargement := c.enlargement(nodes[newNode2].box, EntryBox(c, entry));
        if node1Enlargement == node2Enlargement {
          toFirst := |nodes[newNode1].entries| < |nodes[newNode2].entries|;
        } else {
          toFirst := node1Enlargement < node2Enlargement;
        }
      }
      assert toFirst == GoesFirst(c, LeafBoxOf(c), maxNodeSize, first, second, remainingObjects, entry);
      var target := if toFirst then newNode1 else newNode2;
      InsertIntoLeaf(c, nodes, rank, target, entry);
      mid := nodes;
      var inserted := InsertAt(target, entry);
      LeafFillingKept(linked, mid, nodes, newNode1, newNode2, target);
    }

    /** `distributeIndexData`: the two seeds and then every child node of
        the split node, seeds included, added to one of the two new nodes.
        Adding a child neither sets its parent nor recomputes a box. */
    method DistributeIndexData(nodeToSplit: nat, newNode1: nat, newNode2: nat, ghost before: seq<Node>)
      returns (r: Result<(), JavaException>)
      requires nodeToSplit < |before| && |nodes| == |before| + 3 && newNode1 == |before| && newNode2 == |before| + 1
      requires Closed(before) && Closed(nodes)
      requires nodes[nodeToSplit].children == before[nodeToSplit].children
      requires forall n :: 0 <= n < |before| ==> nodes[n].box == before[n].box
      requires IsLeaf(nodes[newNode1]) && IsLeaf(nodes[newNode2])
      requires nodes[newNode1].entries == [] && nodes[newNode2].entries == []
      modifies this
      ensures rank == old(rank) && rootNode == old(rootNode)
      ensures var expected := DistributeChildren(c, before, old(nodes), maxNodeSize, nodeToSplit);
              if expected.Ok? then r == Ok(()) && StaleBoxesOnly(nodes, expected.value, newNode1, newNode2)
              else r == Err(expected.error) && nodes == old(nodes)
    {
      var dataToDistribute := nodes[nodeToSplit].children;
      assert ChildBoxes(nodes, nodeToSplit) == ChildBoxes(before, nodeToSplit);
      var seeds := Seeds(c, ChildBoxes(nodes, nodeToSplit));
      if seeds.None? {
        return Err(IndexOutOfBoundsException);
      }
      var (seed1, seed2) := seeds.value;
      ghost var linked := nodes;
      ghost var goal := Distribute<nat>(c, IndexBoxOf(c, before), maxNodeSize, dataToDistribute, 0,
                                        [dataToDistribute[seed1]], [dataToDistribute[seed2]]);
      assert forall x :: x in dataToDistribute ==> x < |before|;
      nodes := nodes[newNode1 := nodes[newNode1].(children := [dataToDistribute[seed1]])];
      nodes := nodes[newNode2 := nodes[newNode2].(children := [dataToDistribute[seed2]])];
      IndexSeedsPlaced(before, linked, nodes, newNode1, newNode2, dataToDistribute[seed1], dataToDistribute[seed2]);
      FillChildren(newNode1, newNode2, dataToDistribute, before, linked);
      assert (nodes[newNode1].children, nodes[newNode2].children) == goal;
      ChildrenDistributed(c, before, linked, nodes, maxNodeSize, nodeToSplit, seed1, seed2);
      r := Ok(());
    }

    /** The loop of `distributeIndexData`: every child of `data`, in order,
        handed to one of the two new nodes by `DistributeIndexRound`. */
    method FillChildren(newNode1: nat, newNode2: nat, data: seq<nat>, ghost before: seq<Node>, ghost linked: seq<Node>)
      requires IndexFilling(before, linked, nodes, newNode1, newNode2)
      requires forall x :: x in data ==> x < |before|
      modifies this
      ensures IndexFilling(before, linked, nodes, newNode1, newNode2)
      ensures (nodes[newNode1].children, nodes[newNode2].children) ==
              Distribute<nat>(c, IndexBoxOf(c, before), maxNodeSize, data, 0,
                              old(nodes)[newNode1].children, old(nodes)[newNode2].children)
      ensures rank == old(rank) && rootNode == old(rootNode)
    {
      ghost var goal := Distribute<nat>(c, IndexBoxOf(c, before), maxNodeSize, data, 0,
                                        nodes[newNode1].children, nodes[newNode2].children);
      for i := 0 to |data|
        invariant IndexFilling(before, linked, nodes, newNode1, newNode2)
        invariant Distribute<nat>(c, IndexBoxOf(c, before), maxNodeSize, data, i,
                                  nodes[newNode1].children, nodes[newNode2].children) == goal
        invariant rank == old(rank) && rootNode == old(rootNode)
      {
        DistributeStep<nat>(c, IndexBoxOf(c, before), maxNodeSize, data, i,
                            nodes[newNode1].children, nodes[newNode2].children);
        assert data[i] in data;
        DistributeIndexRound(newNode1, newNode2, data[i], |data| - i, before, linked);
      }
      DistributeDone<nat>(c, IndexBoxOf(c, before), maxNodeSize, data, nodes[newNode1].children, nodes[newNode2].children);
    }

    /** One round of `distributeIndexData`: the boxes of both new nodes
        recomputed, then `entry` added to the children of the one the rule
        picks. */
    method DistributeIndexRound(newNode1: nat, newNode2: nat, entry: nat, remainingObjects: nat,
                                ghost before: seq<Node>, ghost linked: seq<Node>)
      requires entry < |before| && IndexFilling(before, linked, nodes, newNode1, newNode2)
      modifies this
      ensures IndexFilling(before, linked, nodes, newNode1, newNode2)
      ensures var first := old(nodes)[newNode1].children;
              var second := old(nodes)[newNode2].children;
              if GoesFirst<nat>(c, IndexBoxOf(c, before), maxNodeSize, first, second, remainingObjects, entry)
              then nodes[newNode1].children == first + [entry] && nodes[newNode2].children == second
              else nodes[newNode1].children == first && nodes[newNode2].children == second + [entry]
      ensures rank == old(rank) && rootNode == old(rootNode)
    {
      ghost var first := nodes[newNode1].children;
      ghost var second := nodes[newNode2].children;
      IndexFillingClosed(before, linked, nodes, newNode1, newNode2);
      IndexCover(c, before, nodes, newNode1);
      ghost var mid := nodes;
      nodes := SetCover(c, nodes, newNode1);
      IndexFillingKept(before, linked, mid, nodes, newNode1, newNode2, newNode1);
      IndexFillingClosed(before, linked, nodes, newNode1, newNode2);
      IndexCover(c, before, nodes, newNode2);
      mid := nodes;
      nodes := SetCover(c, nodes, newNode2);
      IndexFillingKept(before, linked, mid, nodes, newNode1, newNode2, newNode2);
      IndexFillingClosed(before, linked, nodes, newNode1, newNode2);
      assert nodes[newNode1].box == c.cover(Boxes(IndexBoxOf(c, before), first));
      assert nodes[newNode2].box == c.cover(Boxes(IndexBoxOf(c, before), second));
      assert nodes[entry].box == IndexBoxOf(c, before)(entry);
      var toFirst: bool;
      if |nodes[newNode1].children| + remainingObjects <= maxNodeSize / 2 {
        toFirst := true;
      } else if |nodes[newNode2].children| + remainingObjects <= maxNodeSize / 2 {
        toFirst := false;
      } else {
        var node1Enlargement := c.enlargement(nodes[newNode1].box, nodes[entry].box);
        var node2Enlargement := c.enlargement(nodes[newNode2].box, nodes[entry].box);
        if node1Enlargement == node2Enlargement {
          toFirst := |nodes[newNode1].children| < |nodes[newNode2].children|;
        } else {
          toFirst := node1Enlargement < node2Enlargement;
        }
      }
      assert toFirst == GoesFirst<nat>(c, IndexBoxOf(c, before), maxNodeSize, first, second, remainingObjects, entry);
      var target := if toFirst then newNode1 else newNode2;
      mid := nodes;
      nodes := nodes[target := nodes[target].(children := nodes[target].children + [entry])];
      IndexFillingKept(before, linked, mid, nodes, newNode1, newNode2, target);
    }
  }
}
