/** The R-tree builder of the spatial index (`RTreeSpatialIndexBuilder`):
    insertion down to a leaf, the quadratic split with its distribution
    rules, and the serialisation of the tree.

    The directory nodes live in an arena: a node is its index in `nodes`, and
    its node id is that index (the node factory numbers nodes in the order it
    builds them). A node holds its parent, its child nodes, its index entries
    and its bounding box. */
module RTree {
  import opened Wrappers
  import opened Bytes

  /** A bounding box, kept as its encoding; its geometry belongs to the
      collaborators below. */
  type Box = seq<byte>

  /** The signature of a serialised index. Its value is not part of this model. */
  const MAGIC_BYTES_SPATIAL_RTREE_INDEX: seq<byte>

  const DEFAULT_NODE_SIZE: int := 64
  const MAGIC_CHILD_NODE_NOT_EXISTING: byte := 0
  const MAGIC_CHILD_NODE_FOLLOWING: byte := 1

  /** A spatial index entry: the key it refers to and its box, `None` when
      the entry has no box (`null`). */
  datatype Entry = Entry(key: seq<byte>, box: Option<Box>)

  /** The code the builder calls but that is not part of this model:
      `emptyBox` is `BoundingBox.EMPTY_BOX` and the box of a new node;
      `cover(boxes)` is the box `updateBoundingBox` computes from the boxes
      of a node's children and entries; `enlargement(box, other)` is
      `calculateEnlargement`, whose values are only compared, so an integer
      stands for the double; `findBest(childBoxes, box)` is the position
      among a node's children that `findBestNodeForInsert` picks, any other
      number standing for `null`; `pickSeeds(boxes)` is the positions of the
      two seeds `quadraticPickSeeds` picks; and `entryBytes(entry)` is what an
      entry's `writeToStream` writes. */
  datatype Collaborators = Collaborators(
    emptyBox: Box,
    cover: seq<Box> -> Box,
    enlargement: (Box, Box) -> int,
    findBest: (seq<Box>, Box) -> int,
    pickSeeds: seq<Box> -> (int, int),
    entryBytes: Entry -> seq<byte>)

  /** The seed picker finds two seeds in every list of at least two. */
  ghost predicate SeedsInRange(c: Collaborators)
  {
    forall boxes: seq<Box> :: |boxes| >= 2 ==>
      0 <= c.pickSeeds(boxes).0 < |boxes| && 0 <= c.pickSeeds(boxes).1 < |boxes|
  }

  /** A directory node (`RTreeDirectoryNode`). */
  datatype Node = Node(parent: Option<nat>, children: seq<nat>, entries: seq<Entry>, box: Box)

  /** A node as the factory builds it. */
  function NewNode(c: Collaborators): Node
  {
    Node(None, [], [], c.emptyBox)
  }

  /** `isLeafNode`: a node without child nodes. */
  predicate IsLeaf(node: Node)
  {
    node.children == []
  }

  /** `getSize`: child nodes and entries together. */
  function Size(node: Node): nat
  {
    |node.children| + |node.entries|
  }

  function EntryBox(c: Collaborators, e: Entry): Box
  {
    if e.box.Some? then e.box.value else c.emptyBox
  }

  function EntryBoxes(c: Collaborators, entries: seq<Entry>): (boxes: seq<Box>)
    ensures |boxes| == |entries|
    ensures forall k :: 0 <= k < |entries| ==> boxes[k] == EntryBox(c, entries[k])
  {
    seq(|entries|, k requires 0 <= k < |entries| => EntryBox(c, entries[k]))
  }

  /** Every child and parent reference of every node is a node. */
  predicate Closed(nodes: seq<Node>)
  {
    forall n :: 0 <= n < |nodes| ==>
      (forall k :: 0 <= k < |nodes[n].children| ==> nodes[n].children[k] < |nodes|) &&
      (nodes[n].parent.Some? ==> nodes[n].parent.value < |nodes|)
  }

  /** `rank` orders the child relation: every child ranks below its parent,
      so following children always ends. */
  ghost predicate Ranked(nodes: seq<Node>, rank: seq<nat>)
  {
    |rank| == |nodes| &&
    forall n, k :: 0 <= n < |nodes| && 0 <= k < |nodes[n].children| && nodes[n].children[k] < |nodes| ==>
      rank[nodes[n].children[k]] < rank[n]
  }

  /** The boxes of the child nodes of `n`. */
  function ChildBoxes(nodes: seq<Node>, n: nat): (boxes: seq<Box>)
    requires Closed(nodes) && n < |nodes|
    ensures |boxes| == |nodes[n].children|
    ensures forall k :: 0 <= k < |boxes| ==> boxes[k] == nodes[nodes[n].children[k]].box
  {
    var children := nodes[n].children;
    seq(|children|, k requires 0 <= k < |children| => nodes[children[k]].box)
  }

  /** The box `updateBoundingBox` gives node `n`: the cover of its children's
      and its entries' boxes. */
  function Cover(c: Collaborators, nodes: seq<Node>, n: nat): Box
    requires Closed(nodes) && n < |nodes|
  {
    c.cover(ChildBoxes(nodes, n) + EntryBoxes(c, nodes[n].entries))
  }

  /** The `i` first entry slots of a node: a present entry is a marker and
      the entry, a missing one a single zero. */
  function EntrySlots(c: Collaborators, entries: seq<Entry>, i: nat): (bs: seq<byte>)
    ensures |bs| >= i
  {
    if i == 0 then []
    else EntrySlots(c, entries, i - 1) +
         if i - 1 < |entries| then [MAGIC_CHILD_NODE_FOLLOWING] + c.entryBytes(entries[i - 1])
         else [MAGIC_CHILD_NODE_NOT_EXISTING]
  }

  /** The first `i` entry slots begin the first `j`, for `i <= j`. */
  lemma {:induction false} EntrySlotsPrefix(c: Collaborators, entries: seq<Entry>, i: nat, j: nat)
    requires i <= j
    ensures EntrySlots(c, entries, i) <= EntrySlots(c, entries, j)
    decreases j
  {
    if i < j {
      EntrySlotsPrefix(c, entries, i, j - 1);
      PrefixExtend(EntrySlots(c, entries, i), EntrySlots(c, entries, j - 1),
                   if j - 1 < |entries| then [MAGIC_CHILD_NODE_FOLLOWING] + c.entryBytes(entries[j - 1])
                   else [MAGIC_CHILD_NODE_NOT_EXISTING]);
    }
  }

  /** The stream of node `n`: a presence marker, the node id, `max` entry
      slots, then `max` child slots, each child written the same way in
      order and a missing child as a single zero (preorder, depth first). */
  function NodeStream(c: Collaborators, nodes: seq<Node>, rank: seq<nat>, max: nat, n: nat): (bs: seq<byte>)
    requires Closed(nodes) && Ranked(nodes, rank) && n < |nodes|
    ensures |bs| > 0
    decreases rank[n], max + 1
  {
    [MAGIC_CHILD_NODE_FOLLOWING] + LowBytes(n, INT_BYTES) + EntrySlots(c, nodes[n].entries, max) +
    ChildSlots(c, nodes, rank, max, n, 0)
  }

  /** Child slots `i` to `max - 1` of node `n`. */
  function ChildSlots(c: Collaborators, nodes: seq<Node>, rank: seq<nat>, max: nat, n: nat, i: nat): seq<byte>
    requires Closed(nodes) && Ranked(nodes, rank) && n < |nodes|
    decreases rank[n], max - i
  {
    if i >= max then []
    else
      (if i < |nodes[n].children| then NodeStream(c, nodes, rank, max, nodes[n].children[i])
       else [MAGIC_CHILD_NODE_NOT_EXISTING]) +
      ChildSlots(c, nodes, rank, max, n, i + 1)
  }

  /** An element of the serialisation stack: a node, or the stand-in for
      a missing child. */
  datatype Item = Absent | Present(n: nat)

  function ItemStream(c: Collaborators, nodes: seq<Node>, rank: seq<nat>, max: nat, item: Item): (bs: seq<byte>)
    requires Closed(nodes) && Ranked(nodes, rank)
    requires item.Present? ==> item.n < |nodes|
    ensures |bs| > 0
  {
    match item
    case Absent => [MAGIC_CHILD_NODE_NOT_EXISTING]
    case Present(n) => NodeStream(c, nodes, rank, max, n)
  }

  /** What a stack still has to write, top first. */
  function StackStream(c: Collaborators, nodes: seq<Node>, rank: seq<nat>, max: nat, stack: seq<Item>): seq<byte>
    requires Closed(nodes) && Ranked(nodes, rank)
    requires forall k :: 0 <= k < |stack| && stack[k].Present? ==> stack[k].n < |nodes|
  {
    if stack == [] then []
    else ItemStream(c, nodes, rank, max, stack[0]) + StackStream(c, nodes, rank, max, stack[1..])
  }

  /** The stack items for child slots `i` to `max - 1` of node `n`. */
  function SlotItems(nodes: seq<Node>, max: nat, n: nat, i: nat): (items: seq<Item>)
    requires Closed(nodes) && n < |nodes|
    ensures forall k :: 0 <= k < |items| && items[k].Present? ==> items[k].n < |nodes|
    decreases max - i
  {
    if i >= max then []
    else [if i < |nodes[n].children| then Present(nodes[n].children[i]) else Absent] + SlotItems(nodes, max, n, i + 1)
  }

  /** The stream of a stack is the streams of its parts, in order. */
  lemma {:induction false} StackStreamAppend(c: Collaborators, nodes: seq<Node>, rank: seq<nat>, max: nat, a: seq<Item>, b: seq<Item>)
    requires Closed(nodes) && Ranked(nodes, rank)
    requires forall k :: 0 <= k < |a| && a[k].Present? ==> a[k].n < |nodes|
    requires forall k :: 0 <= k < |b| && b[k].Present? ==> b[k].n < |nodes|
    ensures StackStream(c, nodes, rank, max, a + b) == StackStream(c, nodes, rank, max, a) + StackStream(c, nodes, rank, max, b)
  {
    if a == [] {
      assert a + b == b;
    } else {
      var head := ItemStream(c, nodes, rank, max, a[0]);
      assert (a + b)[0] == a[0];
      assert (a + b)[1..] == a[1..] + b;
      StackStreamAppend(c, nodes, rank, max, a[1..], b);
      Assoc(head, StackStream(c, nodes, rank, max, a[1..]), StackStream(c, nodes, rank, max, b));
    }
  }

  /** The child slot items of `n` write its child slots. */
  lemma {:induction false} SlotItemsStream(c: Collaborators, nodes: seq<Node>, rank: seq<nat>, max: nat, n: nat, i: nat)
    requires Closed(nodes) && Ranked(nodes, rank) && n < |nodes|
    ensures StackStream(c, nodes, rank, max, SlotItems(nodes, max, n, i)) == ChildSlots(c, nodes, rank, max, n, i)
    decreases max - i
  {
    if i < max {
      var items := SlotItems(nodes, max, n, i);
      assert items[1..] == SlotItems(nodes, max, n, i + 1);
      SlotItemsStream(c, nodes, rank, max, n, i + 1);
    }
  }

  /** Every node on the stack is in the arena. */
  predicate InArena(nodes: seq<Node>, stack: seq<Item>)
  {
    forall k :: 0 <= k < |stack| && stack[k].Present? ==> stack[k].n < |nodes|
  }

  /** The stream of a stack is its top item's stream, then the rest's. */
  lemma StackStep(c: Collaborators, nodes: seq<Node>, rank: seq<nat>, max: nat, stack: seq<Item>)
    requires Closed(nodes) && Ranked(nodes, rank) && stack != []
    requires forall k :: 0 <= k < |stack| && stack[k].Present? ==> stack[k].n < |nodes|
    ensures StackStream(c, nodes, rank, max, stack) ==
              ItemStream(c, nodes, rank, max, stack[0]) + StackStream(c, nodes, rank, max, stack[1..])
    ensures |StackStream(c, nodes, rank, max, stack[1..])| < |StackStream(c, nodes, rank, max, stack)|
  {
  }

  /** Replacing a node on top of the stack by its child slot items leaves
      the node's header and entry slots to be written before them. */
  lemma PresentStep(c: Collaborators, nodes: seq<Node>, rank: seq<nat>, max: nat, n: nat, rest: seq<Item>)
    requires Closed(nodes) && Ranked(nodes, rank) && n < |nodes|
    requires forall k :: 0 <= k < |rest| && rest[k].Present? ==> rest[k].n < |nodes|
    ensures NodeStream(c, nodes, rank, max, n) + StackStream(c, nodes, rank, max, rest) ==
              ([MAGIC_CHILD_NODE_FOLLOWING] + LowBytes(n, INT_BYTES) + EntrySlots(c, nodes[n].entries, max)) +
              StackStream(c, nodes, rank, max, SlotItems(nodes, max, n, 0) + rest)
  {
    var head := [MAGIC_CHILD_NODE_FOLLOWING] + LowBytes(n, INT_BYTES) + EntrySlots(c, nodes[n].entries, max);
    StackStreamAppend(c, nodes, rank, max, SlotItems(nodes, max, n, 0), rest);
    SlotItemsStream(c, nodes, rank, max, n, 0);
    Assoc(head, ChildSlots(c, nodes, rank, max, n, 0), StackStream(c, nodes, rank, max, rest));
  }

  lemma Assoc2(x: Item, a: seq<Item>, b: seq<Item>)
    ensures [x] + (a + b) == ([x] + a) + b
  {
  }
}
