/** `adjustTree` and the whole of `insert(entry)`, as functions of the
    arena. The loop of `adjustTree` checks a node, and when that node holds
    more than the capacity it splits the node the entry was inserted into
    (not the checked one) and checks the new parent next; otherwise it goes
    on to the checked node's parent, until there is none. */
module RTreeAdjustment {
  import opened Wrappers
  import opened RTree
  import opened RTreeUpdates

  /** The state of `adjustTree`'s loop: the arena, the root and the node
      to check next (`null` is `None`). */
  datatype Adjusting = Adjusting(nodes: seq<Node>, root: nat, next: Option<nat>)

  /** The references of the loop state stay in the arena. */
  predicate Runnable(s: Adjusting, inserted: nat)
  {
    Closed(s.nodes) && inserted < |s.nodes| && (s.next.Some? ==> s.next.value < |s.nodes|)
  }

  /** One round of the loop, on a state with a node to check. */
  function AdjustStep(c: Collaborators, s: Adjusting, max: int, inserted: nat): (r: Result<Adjusting, JavaException>)
    requires Runnable(s, inserted) && s.next.Some?
    ensures r.Ok? ==> Runnable(r.value, inserted)
    ensures r.Err? ==> r.error == IndexOutOfBoundsException
    ensures Size(s.nodes[s.next.value]) <= max ==> r == Ok(s.(next := s.nodes[s.next.value].parent))
    ensures Size(s.nodes[s.next.value]) > max && SplitNodes(c, s.nodes, s.root, max, inserted).Ok? ==>
              var split := SplitNodes(c, s.nodes, s.root, max, inserted).value;
              r == Ok(Adjusting(split.0, split.1, Some(|s.nodes| + 2)))
  {
    var x := s.next.value;
    if Size(s.nodes[x]) > max then
      match SplitNodes(c, s.nodes, s.root, max, inserted)
      case Err(e) => Err(e)
      case Ok((ns, newRoot)) => Ok(Adjusting(ns, newRoot, Some(|s.nodes| + 2)))
    else
      Ok(s.(next := s.nodes[x].parent))
  }

  /** The loop state after at most `k` rounds; the loop stops once there
      is no node to check. */
  function AdjustRun(c: Collaborators, s: Adjusting, max: int, inserted: nat, k: nat): (r: Result<Adjusting, JavaException>)
    requires Runnable(s, inserted)
    ensures r.Ok? ==> Runnable(r.value, inserted)
    decreases k
  {
    if k == 0 || s.next.None? then Ok(s)
    else
      var t :- AdjustStep(c, s, max, inserted);
      AdjustRun(c, t, max, inserted, k - 1)
  }

  /** A run of `j + 1` rounds is a round followed by a run of `j`. */
  lemma RunStep(c: Collaborators, s: Adjusting, max: int, inserted: nat, j: nat)
    requires Runnable(s, inserted) && s.next.Some? && AdjustStep(c, s, max, inserted).Ok?
    ensures AdjustRun(c, s, max, inserted, j + 1) == AdjustRun(c, AdjustStep(c, s, max, inserted).value, max, inserted, j)
  {
  }

  /** A split finds its seeds when the split node holds two elements of
      the kind it distributes. */
  lemma SplitNodesOk(c: Collaborators, nodes: seq<Node>, root: nat, max: int, split: nat)
    requires SeedsInRange(c) && Closed(nodes) && split < |nodes|
    requires if IsLeaf(nodes[split]) then |nodes[split].entries| >= 2 else |nodes[split].children| >= 2
    ensures SplitNodes(c, nodes, root, max, split).Ok?
  {
    var linked := Linked(c, nodes, root, split).0;
    LinkedClosed(c, nodes, root, split);
    if IsLeaf(nodes[split]) {
      assert Seeds(c, EntryBoxes(c, nodes[split].entries)).Some?;
      assert DistributeLeaves(c, nodes, linked, max, split).Ok?;
    } else {
      assert Seeds(c, ChildBoxes(nodes, split)).Some?;
      assert DistributeChildren(c, nodes, linked, max, split).Ok?;
    }
  }

  /** What a split leaves that the loop looks at: the split node as it
      was, unless it names itself as parent, and a parentless new parent
      over the two new nodes. */
  lemma SplitPieces(c: Collaborators, nodes: seq<Node>, root: nat, max: int, split: nat)
    requires Closed(nodes) && split < |nodes| && SplitNodes(c, nodes, root, max, split).Ok?
    ensures var ns := SplitNodes(c, nodes, root, max, split).value.0;
            var p := |nodes| + 2;
            |ns| == |nodes| + 3 &&
            (nodes[split].parent != Some(split) ==>
               ns[split].parent == nodes[split].parent && ns[split].children == nodes[split].children &&
               ns[split].entries == nodes[split].entries) &&
            ns[p].parent == None && ns[p].children == [|nodes|, |nodes| + 1] && ns[p].entries == []
  {
    SplitNodesShape(c, nodes, root, max, split);
  }

  /** The state in which a capacity of one never lets the loop end: the
      inserted node is a parentless leaf with two entries, and the node to
      check holds two elements. */
  predicate Stuck(s: Adjusting, inserted: nat)
    requires Runnable(s, inserted)
  {
    s.nodes[inserted].parent == None && IsLeaf(s.nodes[inserted]) && |s.nodes[inserted].entries| >= 2 &&
    s.next.Some? && Size(s.nodes[s.next.value]) >= 2
  }

  /** With a capacity of one, a round from such a state splits the same
      leaf again and moves on to a new parent holding the two new nodes. */
  lemma StuckStep(c: Collaborators, s: Adjusting, inserted: nat)
    requires SeedsInRange(c) && Runnable(s, inserted) && Stuck(s, inserted)
    ensures AdjustStep(c, s, 1, inserted).Ok?
    ensures Stuck(AdjustStep(c, s, 1, inserted).value, inserted)
  {
    SplitNodesOk(c, s.nodes, s.root, 1, inserted);
    StuckSplit(c, s, inserted);
  }

  lemma StuckSplit(c: Collaborators, s: Adjusting, inserted: nat)
    requires Runnable(s, inserted) && Stuck(s, inserted) && SplitNodes(c, s.nodes, s.root, 1, inserted).Ok?
    ensures AdjustStep(c, s, 1, inserted).Ok?
    ensures Stuck(AdjustStep(c, s, 1, inserted).value, inserted)
  {
    var x := s.next.value;
    assert Size(s.nodes[x]) > 1;
    SplitPieces(c, s.nodes, s.root, 1, inserted);
  }

  /** With a capacity of one, the loop never ends from such a state: after
      any number of rounds there is still a node to check. */
  lemma {:induction false} NeverSettles(c: Collaborators, s: Adjusting, inserted: nat, k: nat)
    requires SeedsInRange(c) && Runnable(s, inserted) && Stuck(s, inserted)
    ensures AdjustRun(c, s, 1, inserted, k).Ok? && AdjustRun(c, s, 1, inserted, k).value.next.Some?
    decreases k
  {
    if k > 0 {
      StuckStep(c, s, inserted);
      var j: nat := k - 1;
      RunStep(c, s, 1, inserted, j);
      NeverSettles(c, AdjustStep(c, s, 1, inserted).value, inserted, j);
    }
  }

  /** The second entry inserted into a builder of capacity one: the root
      leaf holds two entries and `adjustTree` is still running after any
      number of rounds. */
  lemma SecondInsertNeverSettles(c: Collaborators, e1: Entry, e2: Entry, box: Box, k: nat)
    requires SeedsInRange(c)
    ensures var s := Adjusting([Node(None, [], [e1, e2], box)], 0, Some(0));
            AdjustRun(c, s, 1, 0, k).Ok? && AdjustRun(c, s, 1, 0, k).value.next.Some?
  {
    NeverSettles(c, Adjusting([Node(None, [], [e1, e2], box)], 0, Some(0)), 0, k);
  }

  /** What `adjustTree` leaves when it ends: the inserted node split when
      it holds more than the capacity, the tree as it was otherwise. */
  function Adjusted(c: Collaborators, nodes: seq<Node>, root: nat, max: int, inserted: nat)
    : (r: Result<(seq<Node>, nat), JavaException>)
    requires Closed(nodes) && inserted < |nodes|
    ensures r.Ok? ==> Closed(r.value.0) && (root < |nodes| ==> r.value.1 < |r.value.0|)
  {
    if Size(nodes[inserted]) > max then SplitNodes(c, nodes, root, max, inserted) else Ok((nodes, root))
  }

  /** The ranking that goes with `Adjusted`. */
  function AdjustedRank(nodes: seq<Node>, rank: seq<nat>, max: int, inserted: nat): seq<nat>
    requires inserted < |nodes| && inserted < |rank|
  {
    if Size(nodes[inserted]) > max then SplitRank(rank, inserted) else rank
  }

  /** A run with no node to check stays where it is. */
  lemma RunStops(c: Collaborators, s: Adjusting, max: int, inserted: nat, k: nat)
    requires Runnable(s, inserted) && s.next.None?
    ensures AdjustRun(c, s, max, inserted, k) == Ok(s)
  {
  }

  /** With a capacity of at least two, on a sound and tidy tree whose
      inserted leaf is attached, the loop ends within three rounds, without
      error, in the state `Adjusted` describes. */
  lemma AdjustSettles(c: Collaborators, nodes: seq<Node>, rank: seq<nat>, root: nat, max: int, inserted: nat)
    requires Sound(nodes, rank, root, max) && Tidy(nodes) && SeedsInRange(c)
    requires inserted < |nodes| && IsLeaf(nodes[inserted]) && Attached(nodes, inserted)
    ensures Adjusted(c, nodes, root, max, inserted).Ok?
    ensures var r := AdjustRun(c, Adjusting(nodes, root, Some(inserted)), max, inserted, 3);
            r.Ok? && r.value.next == None &&
            (r.value.nodes, r.value.root) == Adjusted(c, nodes, root, max, inserted).value
  {
    if Size(nodes[inserted]) > max {
      SettlesAfterSplit(c, nodes, rank, root, max, inserted);
    } else {
      SettlesWithoutSplit(c, nodes, rank, root, max, inserted);
    }
  }

  /** A leaf over capacity: the first round splits it and goes on to the
      new parent, which holds two nodes and has no parent, so the second
      round ends the loop. */
  lemma SettlesAfterSplit(c: Collaborators, nodes: seq<Node>, rank: seq<nat>, root: nat, max: int, inserted: nat)
    requires Sound(nodes, rank, root, max) && SeedsInRange(c)
    requires inserted < |nodes| && IsLeaf(nodes[inserted]) && Size(nodes[inserted]) > max
    ensures SplitNodes(c, nodes, root, max, inserted).Ok?
    ensures var r := AdjustRun(c, Adjusting(nodes, root, Some(inserted)), max, inserted, 3);
            r.Ok? && r.value.next == None &&
            (r.value.nodes, r.value.root) == SplitNodes(c, nodes, root, max, inserted).value
  {
    var s := Adjusting(nodes, root, Some(inserted));
    SplitNodesOk(c, nodes, root, max, inserted);
    SplitPieces(c, nodes, root, max, inserted);
    var t := AdjustStep(c, s, max, inserted).value;
    RunStep(c, s, max, inserted, 2);
    var u := AdjustStep(c, t, max, inserted).value;
    assert u == t.(next := None);
    RunStep(c, t, max, inserted, 1);
    RunStops(c, u, max, inserted, 1);
  }

  /** A leaf within capacity: the loop goes on to its parent, if any,
      which holds two nodes and has no parent, and ends there. */
  lemma SettlesWithoutSplit(c: Collaborators, nodes: seq<Node>, rank: seq<nat>, root: nat, max: int, inserted: nat)
    requires Sound(nodes, rank, root, max) && Tidy(nodes)
    requires inserted < |nodes| && Size(nodes[inserted]) <= max
    ensures var r := AdjustRun(c, Adjusting(nodes, root, Some(inserted)), max, inserted, 3);
            r == Ok(Adjusting(nodes, root, None))
  {
    var s := Adjusting(nodes, root, Some(inserted));
    var t := AdjustStep(c, s, max, inserted).value;
    assert t == s.(next := nodes[inserted].parent);
    RunStep(c, s, max, inserted, 2);
    if nodes[inserted].parent.Some? {
      var q := nodes[inserted].parent.value;
      assert |nodes[q].children| == 2 && nodes[q].entries == [];
      assert nodes[q].parent == None;
      var u := AdjustStep(c, t, max, inserted).value;
      assert u == t.(next := None);
      RunStep(c, t, max, inserted, 1);
      RunStops(c, u, max, inserted, 1);
    } else {
      RunStops(c, t, max, inserted, 2);
    }
  }

  /** `adjustTree` keeps the tree sound and tidy, and leaves the root
      without parent. */
  lemma AdjustedKeeps(c: Collaborators, nodes: seq<Node>, rank: seq<nat>, root: nat, max: int, inserted: nat)
    requires Sound(nodes, rank, root, max) && Tidy(nodes) && SeedsInRange(c)
    requires inserted < |nodes| && IsLeaf(nodes[inserted]) && Attached(nodes, inserted)
    ensures Adjusted(c, nodes, root, max, inserted).Ok?
    ensures var r := Adjusted(c, nodes, root, max, inserted).value;
            Sound(r.0, AdjustedRank(nodes, rank, max, inserted), r.1, max) && Tidy(r.0)
  {
    if Size(nodes[inserted]) > max {
      SplitNodesOk(c, nodes, root, max, inserted);
      SplitSound(c, nodes, rank, root, max, inserted);
      SplitTidy(c, nodes, rank, root, max, inserted);
    }
  }

  // ---------------------------------------------------------------------
  // insert(entry)

  /** Appending an entry to a leaf keeps the invariants: it touches
      neither references nor the rule that entries sit in leaves. */
  lemma AddEntryKeeps(nodes: seq<Node>, rank: seq<nat>, root: nat, max: int, leaf: nat, entry: Entry)
    requires Sound(nodes, rank, root, max) && leaf < |nodes| && IsLeaf(nodes[leaf])
    ensures SameLinks(nodes, AddEntry(nodes, leaf, entry))
    ensures Sound(AddEntry(nodes, leaf, entry), rank, root, max)
    ensures Tidy(nodes) ==> Tidy(AddEntry(nodes, leaf, entry))
  {
    var added := AddEntry(nodes, leaf, entry);
    assert forall n :: 0 <= n < |nodes| ==> added[n].children == nodes[n].children && added[n].parent == nodes[n].parent;
    ShapeKeepsClosed(nodes, added);
    LinksKeepRanked(nodes, added, rank);
  }

  /** `insert(insertBaseNode, entry)` from the root keeps the tree sound
      and tidy, and returns a leaf that is among its parent's children. */
  lemma InsertBelowKeeps(c: Collaborators, nodes: seq<Node>, rank: seq<nat>, root: nat, max: int, entry: Entry)
    requires Sound(nodes, rank, root, max) && Tidy(nodes) && InsertBelow(c, nodes, rank, root, entry).Ok?
    ensures var r := InsertBelow(c, nodes, rank, root, entry).value;
            Sound(r.0, rank, root, max) && Tidy(r.0) && IsLeaf(r.0[r.1]) && Attached(r.0, r.1)
  {
    var d := Descend(c, nodes, rank, root, EntryBox(c, entry), [root]).value;
    var leaf := d.0;
    var added := AddEntry(nodes, leaf, entry);
    AddEntryKeeps(nodes, rank, root, max, leaf, entry);
    var ns := Refresh(c, added, d.1);
    ShapeKeepsInvariants(added, ns, rank, root, max);
    assert ns[leaf].parent == nodes[leaf].parent && ns[leaf].children == [];
    if d.1 != [root] && nodes[leaf].parent.Some? {
      var y := d.1[1];
      var k :| 0 <= k < |nodes[y].children| && nodes[y].children[k] == leaf;
      assert nodes[leaf].parent.value == y;
      assert ns[y].children == nodes[y].children;
    }
  }

  /** `insert(insertBaseNode, entry)`: it fails exactly when the descent
      meets a node for which no child is picked; otherwise the entry is
      appended to one leaf, reached from the base node by child links, all
      other entries and all references stay, the nodes on the way get the
      cover of their contents as box and the others keep theirs. */
  lemma InsertBelowEffect(c: Collaborators, nodes: seq<Node>, rank: seq<nat>, base: nat, entry: Entry)
    requires Closed(nodes) && Ranked(nodes, rank) && base < |nodes|
    ensures InsertBelow(c, nodes, rank, base, entry).Err? <==>
            Descend(c, nodes, rank, base, EntryBox(c, entry), [base]).None?
    ensures InsertBelow(c, nodes, rank, base, entry).Ok? ==>
              var (ns, leaf) := InsertBelow(c, nodes, rank, base, entry).value;
              var path := Descend(c, nodes, rank, base, EntryBox(c, entry), [base]).value.1;
              SameLinks(nodes, ns) && IsLeaf(nodes[leaf]) &&
              path[0] == leaf && path[|path| - 1] == base && ChildPath(nodes, path) &&
              ns[leaf].entries == nodes[leaf].entries + [entry] &&
              (forall n :: 0 <= n < |nodes| && n != leaf ==> ns[n].entries == nodes[n].entries) &&
              (forall k :: 0 <= k < |path| ==> ns[path[k]].box == Cover(c, ns, path[k])) &&
              (forall n :: 0 <= n < |nodes| && n !in path ==> ns[n].box == nodes[n].box)
  {
    var box := EntryBox(c, entry);
    if Descend(c, nodes, rank, base, box, [base]).Some? {
      var d := Descend(c, nodes, rank, base, box, [base]).value;
      DescendPath(c, nodes, rank, base, box, [base]);
      var added := AddEntry(nodes, d.0, entry);
      assert SameLinks(nodes, added);
      ShapeKeepsClosed(nodes, added);
      LinksKeepRanked(nodes, added, rank);
      RefreshCovers(c, added, rank, d.1);
    }
  }

  /** Whether `insert(entry)` refuses the entry: it has no box, or the
      empty box. */
  predicate Refused(c: Collaborators, entry: Entry)
  {
    entry.box.None? || entry.box.value == c.emptyBox
  }

  /** `insert(entry)`: a refused entry gives `false` and leaves the tree;
      otherwise the insertion below the root, then `adjustTree` from the
      leaf, and `true`. The result is the answer, the arena and the root. */
  function Inserted(c: Collaborators, nodes: seq<Node>, rank: seq<nat>, root: nat, max: int, entry: Entry)
    : (r: Result<(bool, seq<Node>, nat), JavaException>)
    requires Closed(nodes) && Ranked(nodes, rank) && root < |nodes|
  {
    if Refused(c, entry) then Ok((false, nodes, root))
    else
      var ins :- InsertBelow(c, nodes, rank, root, entry);
      var adj :- Adjusted(c, ins.0, root, max, ins.1);
      Ok((true, adj.0, adj.1))
  }

  /** The ranking that goes with `Inserted`. */
  function InsertedRank(c: Collaborators, nodes: seq<Node>, rank: seq<nat>, root: nat, max: int, entry: Entry): seq<nat>
    requires Closed(nodes) && Ranked(nodes, rank) && root < |nodes| && |rank| == |nodes|
  {
    if Refused(c, entry) then rank
    else match InsertBelow(c, nodes, rank, root, entry)
      case Err(_) => rank
      case Ok((ns, leaf)) => AdjustedRank(ns, rank, max, leaf)
  }

  /** `insert(entry)` on a sound and tidy tree answers `false` exactly for
      a refused entry, fails only where the descent does, and leaves a sound
      and tidy tree. */
  lemma InsertedKeeps(c: Collaborators, nodes: seq<Node>, rank: seq<nat>, root: nat, max: int, entry: Entry)
    requires Sound(nodes, rank, root, max) && Tidy(nodes) && SeedsInRange(c) && |rank| == |nodes|
    ensures var r := Inserted(c, nodes, rank, root, max, entry);
            (r.Err? <==> !Refused(c, entry) && InsertBelow(c, nodes, rank, root, entry).Err?) &&
            (r.Err? ==> r.error == NullPointerException) &&
            (r.Ok? ==> (r.value.0 <==> !Refused(c, entry)) &&
                       Sound(r.value.1, InsertedRank(c, nodes, rank, root, max, entry), r.value.2, max) &&
                       Tidy(r.value.1) &&
                       |InsertedRank(c, nodes, rank, root, max, entry)| == |r.value.1|)
  {
    if !Refused(c, entry) && InsertBelow(c, nodes, rank, root, entry).Ok? {
      var ins := InsertBelow(c, nodes, rank, root, entry).value;
      InsertBelowKeeps(c, nodes, rank, root, max, entry);
      AdjustedKeeps(c, ins.0, rank, root, max, ins.1);
    }
  }

  /** `bulkInsert(elements)`: every entry inserted in turn, each answer
      and-ed into the result. An exception from an insertion ends the
      whole. */
  function BulkInserted(c: Collaborators, nodes: seq<Node>, rank: seq<nat>, root: nat, max: int, entries: seq<Entry>)
    : (r: Result<(bool, seq<Node>, nat), JavaException>)
    requires Sound(nodes, rank, root, max) && Tidy(nodes) && SeedsInRange(c) && |rank| == |nodes|
    decreases |entries|
  {
    if entries == [] then Ok((true, nodes, root))
    else
      InsertedKeeps(c, nodes, rank, root, max, entries[0]);
      var first :- Inserted(c, nodes, rank, root, max, entries[0]);
      var rest :- BulkInserted(c, first.1, InsertedRank(c, nodes, rank, root, max, entries[0]), first.2, max, entries[1..]);
      Ok((first.0 && rest.0, rest.1, rest.2))
  }

  /** The tree `bulkInsert(elements)` leaves, whether it ends normally or
      with an exception: the entries are inserted in turn, and the first
      insertion that throws leaves the tree as it found it. */
  function BulkReached(c: Collaborators, nodes: seq<Node>, rank: seq<nat>, root: nat, max: int, entries: seq<Entry>)
    : (seq<Node>, nat)
    requires Sound(nodes, rank, root, max) && Tidy(nodes) && SeedsInRange(c) && |rank| == |nodes|
    decreases |entries|
  {
    if entries == [] then (nodes, root)
    else
      InsertedKeeps(c, nodes, rank, root, max, entries[0]);
      match Inserted(c, nodes, rank, root, max, entries[0])
      case Err(_) => (nodes, root)
      case Ok(first) =>
        BulkReached(c, first.1, InsertedRank(c, nodes, rank, root, max, entries[0]), first.2, max, entries[1..])
  }

  /** `bulkInsert` of a non-empty list, unfolded once. */
  lemma BulkStep(c: Collaborators, nodes: seq<Node>, rank: seq<nat>, root: nat, max: int, entries: seq<Entry>)
    requires Sound(nodes, rank, root, max) && Tidy(nodes) && SeedsInRange(c) && |rank| == |nodes| && entries != []
    ensures var first := Inserted(c, nodes, rank, root, max, entries[0]);
            first.Err? ==> BulkInserted(c, nodes, rank, root, max, entries) == Err(first.error)
    ensures var first := Inserted(c, nodes, rank, root, max, entries[0]);
            first.Ok? ==>
              (InsertedKeeps(c, nodes, rank, root, max, entries[0]);
               var rest := BulkInserted(c, first.value.1, InsertedRank(c, nodes, rank, root, max, entries[0]), first.value.2, max, entries[1..]);
               BulkInserted(c, nodes, rank, root, max, entries) ==
                 if rest.Err? then Err(rest.error) else Ok((first.value.0 && rest.value.0, rest.value.1, rest.value.2)))
    ensures var first := Inserted(c, nodes, rank, root, max, entries[0]);
            first.Err? ==> BulkReached(c, nodes, rank, root, max, entries) == (nodes, root)
    ensures var first := Inserted(c, nodes, rank, root, max, entries[0]);
            first.Ok? ==>
              (InsertedKeeps(c, nodes, rank, root, max, entries[0]);
               BulkReached(c, nodes, rank, root, max, entries) ==
                 BulkReached(c, first.value.1, InsertedRank(c, nodes, rank, root, max, entries[0]), first.value.2, max, entries[1..]))
  {
    InsertedKeeps(c, nodes, rank, root, max, entries[0]);
  }

  /** `bulkInsert` fails only with the exception of an insertion. */
  lemma {:induction false} BulkInsertedFails(c: Collaborators, nodes: seq<Node>, rank: seq<nat>, root: nat, max: int,
                                             entries: seq<Entry>)
    requires Sound(nodes, rank, root, max) && Tidy(nodes) && SeedsInRange(c) && |rank| == |nodes|
    ensures var r := BulkInserted(c, nodes, rank, root, max, entries);
            r.Err? ==> r.error == NullPointerException
    decreases |entries|
  {
    if entries != [] {
      InsertedKeeps(c, nodes, rank, root, max, entries[0]);
      BulkStep(c, nodes, rank, root, max, entries);
      var first := Inserted(c, nodes, rank, root, max, entries[0]);
      if first.Ok? {
        var rank' := InsertedRank(c, nodes, rank, root, max, entries[0]);
        BulkInsertedFails(c, first.value.1, rank', first.value.2, max, entries[1..]);
      }
    }
  }

  /** When `bulkInsert` ends normally, the tree it leaves is the one it
      answers with. */
  lemma {:induction false} BulkReachedOnSuccess(c: Collaborators, nodes: seq<Node>, rank: seq<nat>, root: nat, max: int,
                                                entries: seq<Entry>)
    requires Sound(nodes, rank, root, max) && Tidy(nodes) && SeedsInRange(c) && |rank| == |nodes|
    ensures var r := BulkInserted(c, nodes, rank, root, max, entries);
            r.Ok? ==> BulkReached(c, nodes, rank, root, max, entries) == (r.value.1, r.value.2)
    decreases |entries|
  {
    if entries != [] {
      InsertedKeeps(c, nodes, rank, root, max, entries[0]);
      BulkStep(c, nodes, rank, root, max, entries);
      var first := Inserted(c, nodes, rank, root, max, entries[0]);
      if first.Ok? {
        var rank' := InsertedRank(c, nodes, rank, root, max, entries[0]);
        BulkReachedOnSuccess(c, first.value.1, rank', first.value.2, max, entries[1..]);
      }
    }
  }

  /** `bulkInsert` of a list whose first entry goes in normally succeeds
      exactly when the rest does, on the tree the first leaves, and then
      leaves the same tree. */
  lemma BulkAfterFirst(c: Collaborators, nodes: seq<Node>, rank: seq<nat>, root: nat, max: int, entries: seq<Entry>)
    requires Sound(nodes, rank, root, max) && Tidy(nodes) && SeedsInRange(c) && |rank| == |nodes| && entries != []
    requires Inserted(c, nodes, rank, root, max, entries[0]).Ok?
    ensures (InsertedKeeps(c, nodes, rank, root, max, entries[0]);
            var first := Inserted(c, nodes, rank, root, max, entries[0]).value;
            var rest := BulkInserted(c, first.1, InsertedRank(c, nodes, rank, root, max, entries[0]), first.2, max, entries[1..]);
            var all := BulkInserted(c, nodes, rank, root, max, entries);
            (all.Ok? <==> rest.Ok?) && (rest.Ok? ==> all.value.1 == rest.value.1 && all.value.2 == rest.value.2))
  {
    BulkStep(c, nodes, rank, root, max, entries);
  }

  /** When `bulkInsert` throws, some entry `k` is the first whose insertion
      throws: the entries before it go in normally, and the tree left is
      the one they give. */
  lemma {:induction false} BulkReachedOnFailure(c: Collaborators, nodes: seq<Node>, rank: seq<nat>, root: nat, max: int,
                                                entries: seq<Entry>)
    returns (k: nat)
    requires Sound(nodes, rank, root, max) && Tidy(nodes) && SeedsInRange(c) && |rank| == |nodes|
    requires BulkInserted(c, nodes, rank, root, max, entries).Err?
    ensures k < |entries|
    ensures BulkInserted(c, nodes, rank, root, max, entries[..k]).Ok?
    ensures BulkInserted(c, nodes, rank, root, max, entries[..k + 1]).Err?
    ensures var before := BulkInserted(c, nodes, rank, root, max, entries[..k]).value;
            BulkReached(c, nodes, rank, root, max, entries) == (before.1, before.2)
    decreases |entries|
  {
    InsertedKeeps(c, nodes, rank, root, max, entries[0]);
    BulkStep(c, nodes, rank, root, max, entries);
    if Inserted(c, nodes, rank, root, max, entries[0]).Err? {
      k := 0;
      assert entries[..0] == [];
      assert entries[..1][0] == entries[0];
      BulkStep(c, nodes, rank, root, max, entries[..1]);
    } else {
      var first := Inserted(c, nodes, rank, root, max, entries[0]).value;
      var rank' := InsertedRank(c, nodes, rank, root, max, entries[0]);
      var k' := BulkReachedOnFailure(c, first.1, rank', first.2, max, entries[1..]);
      k := k' + 1;
      assert entries[..k][0] == entries[0] && entries[..k][1..] == entries[1..][..k'];
      assert entries[..k + 1][0] == entries[0] && entries[..k + 1][1..] == entries[1..][..k' + 1];
      BulkAfterFirst(c, nodes, rank, root, max, entries[..k]);
      BulkAfterFirst(c, nodes, rank, root, max, entries[..k + 1]);
    }
  }

  /** No entry of a list is refused when the first is not and no entry
      of the rest is. */
  lemma NoneRefused(c: Collaborators, entries: seq<Entry>)
    requires entries != []
    ensures (forall k :: 0 <= k < |entries| ==> !Refused(c, entries[k])) <==>
            !Refused(c, entries[0]) && forall k :: 0 <= k < |entries[1..]| ==> !Refused(c, entries[1..][k])
  {
    assert forall k :: 1 <= k < |entries| ==> entries[k] == entries[1..][k - 1];
  }

  /** `bulkInsert` answers `true` exactly when no entry is refused. */
  lemma {:induction false} BulkInsertedAnswer(c: Collaborators, nodes: seq<Node>, rank: seq<nat>, root: nat, max: int,
                                              entries: seq<Entry>)
    requires Sound(nodes, rank, root, max) && Tidy(nodes) && SeedsInRange(c) && |rank| == |nodes|
    ensures var r := BulkInserted(c, nodes, rank, root, max, entries);
            r.Ok? ==> (r.value.0 <==> forall k :: 0 <= k < |entries| ==> !Refused(c, entries[k]))
    decreases |entries|
  {
    if entries != [] {
      InsertedKeeps(c, nodes, rank, root, max, entries[0]);
      BulkStep(c, nodes, rank, root, max, entries);
      var first := Inserted(c, nodes, rank, root, max, entries[0]);
      if first.Ok? {
        var rank' := InsertedRank(c, nodes, rank, root, max, entries[0]);
        var rest := BulkInserted(c, first.value.1, rank', first.value.2, max, entries[1..]);
        BulkInsertedAnswer(c, first.value.1, rank', first.value.2, max, entries[1..]);
        NoneRefused(c, entries);
      }
    }
  }
}
