/** How a quadratic split shares the elements of an overflowing node between
    its two new nodes (`distributeLeafData` for index entries,
    `distributeIndexData` for child nodes). Both walk the whole element list
    of the split node, seeds included, and send every element to one of the
    two new nodes by the same rule. */
module RTreeDistribution {
  import opened RTree

  /** The boxes of `items`. */
  function Boxes<T>(boxOf: T -> Box, items: seq<T>): (boxes: seq<Box>)
    ensures |boxes| == |items|
    ensures forall k :: 0 <= k < |items| ==> boxes[k] == boxOf(items[k])
  {
    seq(|items|, k requires 0 <= k < |items| => boxOf(items[k]))
  }

  /** The box of an index entry. */
  function LeafBoxOf(c: Collaborators): Entry -> Box
  {
    e => EntryBox(c, e)
  }

  /** The box of a child node in the arena `nodes`. */
  function IndexBoxOf(c: Collaborators, nodes: seq<Node>): nat -> Box
  {
    (k: nat) => if k < |nodes| then nodes[k].box else c.emptyBox
  }

  /** The rule for one element, given the sizes of the two new nodes, the
      number of elements not yet handed out (this one included) and the
      enlargement each node's box would need to take it: whether it goes to
      the first node. A node that needs every remaining element to reach
      half the capacity gets it, the first node before the second; otherwise
      the smaller enlargement wins, and on equal enlargement the first node
      only when it is strictly smaller. */
  predicate ToFirst(max: int, size1: nat, size2: nat, remaining: nat, enlargement1: int, enlargement2: int)
  {
    if size1 + remaining <= max / 2 then true
    else if size2 + remaining <= max / 2 then false
    else if enlargement1 == enlargement2 then size1 < size2
    else enlargement1 < enlargement2
  }

  /** Whether `item` goes to the first of two nodes holding `first` and
      `second`, with `remaining` elements (this one included) still to hand
      out; a node's box is the cover of its elements' boxes when the item is
      weighed. */
  predicate GoesFirst<T>(c: Collaborators, boxOf: T -> Box, max: int, first: seq<T>, second: seq<T>, remaining: nat, item: T)
  {
    ToFirst(max, |first|, |second|, remaining,
            c.enlargement(c.cover(Boxes(boxOf, first)), boxOf(item)),
            c.enlargement(c.cover(Boxes(boxOf, second)), boxOf(item)))
  }

  /** The elements `items[i..]` handed out in order to two nodes holding
      `first` and `second`; a node's box is the cover of its elements'
      boxes when an element is weighed. Every element ends in exactly one
      of the two, after the elements already there. */
  function Distribute<T>(c: Collaborators, boxOf: T -> Box, max: int, items: seq<T>, i: nat, first: seq<T>, second: seq<T>)
    : (r: (seq<T>, seq<T>))
    requires i <= |items|
    ensures multiset(r.0) + multiset(r.1) == multiset(first) + multiset(second) + multiset(items[i..])
    ensures |r.0| >= |first| && r.0[..|first|] == first
    ensures |r.1| >= |second| && r.1[..|second|] == second
    decreases |items| - i
  {
    if i == |items| then
      assert first[..|first|] == first && second[..|second|] == second;
      (first, second)
    else
      var item := items[i];
      assert items[i..] == [item] + items[i + 1..];
      if GoesFirst(c, boxOf, max, first, second, |items| - i, item) then
        var r := Distribute(c, boxOf, max, items, i + 1, first + [item], second);
        assert r.0[..|first|] == (first + [item])[..|first|];
        r
      else
        var r := Distribute(c, boxOf, max, items, i + 1, first, second + [item]);
        assert r.1[..|second|] == (second + [item])[..|second|];
        r
  }

  /** Minimum fill: once the first node needs every remaining element to
      reach half the capacity, it receives all of them. */
  lemma {:induction false} FirstTakesTheRest<T>(c: Collaborators, boxOf: T -> Box, max: int, items: seq<T>, i: nat,
                                                 first: seq<T>, second: seq<T>)
    requires i <= |items|
    requires |first| + (|items| - i) <= max / 2
    ensures Distribute(c, boxOf, max, items, i, first, second) == (first + items[i..], second)
    decreases |items| - i
  {
    if i == |items| {
      assert items[i..] == [];
      assert first + items[i..] == first;
    } else {
      FirstTakesTheRest(c, boxOf, max, items, i + 1, first + [items[i]], second);
      assert (first + [items[i]]) + items[i + 1..] == first + items[i..];
    }
  }

  /** With seeds taken from the list and the whole list handed out after
      them, the two nodes together hold every element once and the two
      seeds a second time. The seed picker is assumed not to remove the
      seeds from the list it is given. */
  lemma SeedsTwice<T>(c: Collaborators, boxOf: T -> Box, max: int, items: seq<T>, seed1: nat, seed2: nat)
    requires seed1 < |items| && seed2 < |items|
    ensures var r := Distribute(c, boxOf, max, items, 0, [items[seed1]], [items[seed2]]);
            |r.0| + |r.1| == |items| + 2 &&
            multiset(r.0) + multiset(r.1) == multiset(items) + multiset{items[seed1], items[seed2]}
  {
    var r := Distribute(c, boxOf, max, items, 0, [items[seed1]], [items[seed2]]);
    assert items[0..] == items;
    assert |multiset(r.0) + multiset(r.1)| == |r.0| + |r.1|;
  }
}
