/** The k-way merge of sorted tables (`SSTableCompactor`): one buffered head
    per input, and in each round the smallest head under `Tuple.compareTo`
    wins, every head with the same key is dropped, and the winner is written
    unless it is a deletion marker in a major compaction. */
module SSTableCompactor {
  import opened Wrappers
  import opened Entities

  /** The buffered heads, one per input; `None` is Java's `null`. */
  type Slots = seq<Option<Tuple>>

  // ---------------------------------------------------------------------
  // Orders

  /** A sorted table: keys strictly ascending. */
  predicate Ascending(ts: seq<Tuple>)
  {
    forall p, q :: 0 <= p < q < |ts| ==> KeyLess(ts[p].key, ts[q].key)
  }

  predicate AllAscending(inputs: seq<seq<Tuple>>)
  {
    forall i :: 0 <= i < |inputs| ==> Ascending(inputs[i])
  }

  // ---------------------------------------------------------------------
  // Choosing the smallest head

  /** The choice made by `getTupleWithTheLowestKey`, scanning the heads in
      order: an empty slot is skipped, the first full slot is taken, and a
      later head replaces the choice only when the choice compares greater. */
  function Lowest(s: Slots): Option<Tuple>
  {
    if s == [] then None
    else
      var prev := Lowest(s[..|s| - 1]);
      var next := s[|s| - 1];
      if next.None? then prev
      else if prev.None? then next
      else if Compare(prev.value, next.value) > 0 then next
      else prev
  }

  /** `t` sits in slot `i`, compares at most equal to every head, and strictly
      below every head in an earlier slot. */
  predicate FirstMinimal(s: Slots, i: int, t: Tuple)
  {
    0 <= i < |s| && s[i] == Some(t) &&
    (forall j :: 0 <= j < |s| && s[j].Some? ==> Compare(t, s[j].value) <= 0) &&
    (forall j :: 0 <= j < i && s[j].Some? ==> Compare(t, s[j].value) < 0)
  }

  /** The choice is empty exactly when every slot is, and otherwise it is the
      smallest head, the earliest one among equals. */
  lemma {:induction false} LowestIsFirstMinimal(s: Slots)
    ensures Lowest(s).None? <==> forall j :: 0 <= j < |s| ==> s[j].None?
    ensures Lowest(s).Some? ==> exists i :: FirstMinimal(s, i, Lowest(s).value)
  {
    if s != [] {
      var n := |s| - 1;
      var init := s[..n];
      LowestIsFirstMinimal(init);
      var prev, next := Lowest(init), s[n];
      if next.None? {
        if prev.Some? {
          var i :| FirstMinimal(init, i, prev.value);
          assert FirstMinimal(s, i, prev.value);
        }
      } else if prev.None? {
        assert FirstMinimal(s, n, next.value);
      } else {
        var i :| FirstMinimal(init, i, prev.value);
        var p, t := prev.value, next.value;
        if Compare(p, t) > 0 {
          CompareAntisymmetric(p, t);
          forall j | 0 <= j < n && s[j].Some?
            ensures Compare(t, s[j].value) < 0
          {
            assert init[j] == s[j];
            CompareTransitive(t, p, s[j].value);
          }
          assert FirstMinimal(s, n, t);
        } else {
          assert FirstMinimal(s, i, p);
        }
      }
    }
  }

  /** Only one slot can hold the first smallest head. */
  lemma FirstMinimalUnique(s: Slots, i: int, t: Tuple, i2: int, t2: Tuple)
    requires FirstMinimal(s, i, t) && FirstMinimal(s, i2, t2)
    ensures i == i2 && t == t2
  {
    CompareAntisymmetric(t, t2);
    CompareAntisymmetric(t2, t);
  }

  lemma LowestOfFirstMinimal(s: Slots, i: int, t: Tuple)
    requires FirstMinimal(s, i, t)
    ensures Lowest(s) == Some(t)
  {
    LowestIsFirstMinimal(s);
    var i2 :| FirstMinimal(s, i2, Lowest(s).value);
    FirstMinimalUnique(s, i, t, i2, Lowest(s).value);
  }

  // ---------------------------------------------------------------------
  // The winning version of a key

  /** The first tuple of `ts` with key `k`. */
  function Find(ts: seq<Tuple>, k: Key): (r: Option<Tuple>)
    ensures r.None? <==> forall p :: 0 <= p < |ts| ==> ts[p].key != k
    ensures r.Some? ==> r.value.key == k && exists p :: 0 <= p < |ts| && ts[p] == r.value
  {
    if ts == [] then None
    else if ts[0].key == k then Some(ts[0])
    else
      var r := Find(ts[1..], k);
      assert forall p :: 1 <= p < |ts| ==> ts[p] == ts[1..][p - 1];
      r
  }

  /** In a sorted table a key occurs at most once. */
  lemma AscendingDistinct(ts: seq<Tuple>)
    requires Ascending(ts)
    ensures forall p, q :: 0 <= p < |ts| && 0 <= q < |ts| && ts[p].key == ts[q].key ==> p == q
  {
    forall p, q | 0 <= p < |ts| && 0 <= q < |ts| && p != q
      ensures ts[p].key != ts[q].key
    {
      if p < q {
        assert KeyLess(ts[p].key, ts[q].key);
      } else {
        assert KeyLess(ts[q].key, ts[p].key);
      }
    }
  }

  lemma FindInAscending(ts: seq<Tuple>, p: int)
    requires Ascending(ts) && 0 <= p < |ts|
    ensures Find(ts, ts[p].key) == Some(ts[p])
  {
    AscendingDistinct(ts);
  }

  /** Each input's version of key `k`, in input order. */
  function KeyCandidates(inputs: seq<seq<Tuple>>, k: Key): (r: Slots)
    ensures |r| == |inputs|
  {
    seq(|inputs|, i requires 0 <= i < |inputs| => Find(inputs[i], k))
  }

  /** The version of `k` a compaction keeps: the one the head selection would
      pick among the inputs' versions of `k`. */
  function Winner(inputs: seq<seq<Tuple>>, k: Key): Option<Tuple>
  {
    Lowest(KeyCandidates(inputs, k))
  }

  /** A key has a winner iff it occurs in some input; the winner is an input
      tuple with that key, the newest version of it, and among equally new
      versions the one from the earliest input. */
  lemma WinnerIsNewest(inputs: seq<seq<Tuple>>, k: Key)
    requires AllAscending(inputs)
    ensures Winner(inputs, k).None? <==>
            forall i, p :: 0 <= i < |inputs| && 0 <= p < |inputs[i]| ==> inputs[i][p].key != k
    ensures Winner(inputs, k).Some? ==>
            var w := Winner(inputs, k).value;
            w.key == k &&
            exists i0 :: 0 <= i0 < |inputs| && Find(inputs[i0], k) == Some(w) &&
              (forall i, p :: 0 <= i < |inputs| && 0 <= p < |inputs[i]| && inputs[i][p].key == k ==>
                 inputs[i][p].timestamp <= w.timestamp) &&
              (forall i, p :: 0 <= i < i0 && 0 <= p < |inputs[i]| && inputs[i][p].key == k ==>
                 inputs[i][p].timestamp < w.timestamp)
  {
    var c := KeyCandidates(inputs, k);
    LowestIsFirstMinimal(c);
    if Winner(inputs, k).Some? {
      var w := Winner(inputs, k).value;
      var i0 :| FirstMinimal(c, i0, w);
      forall i, p | 0 <= i < |inputs| && 0 <= p < |inputs[i]| && inputs[i][p].key == k
        ensures inputs[i][p].timestamp <= w.timestamp
        ensures i < i0 ==> inputs[i][p].timestamp < w.timestamp
      {
        FindInAscending(inputs[i], p);
        assert c[i] == Some(inputs[i][p]);
      }
    } else {
      forall i, p | 0 <= i < |inputs| && 0 <= p < |inputs[i]|
        ensures inputs[i][p].key != k
      {
        assert c[i].None?;
      }
    }
  }

  // ---------------------------------------------------------------------
  // What a compaction writes

  function Keys(ts: seq<Tuple>): (r: seq<Key>)
    ensures |r| == |ts| && forall m :: 0 <= m < |ts| ==> r[m] == ts[m].key
  {
    seq(|ts|, m requires 0 <= m < |ts| => ts[m].key)
  }

  predicate StrictlyAscending(out: seq<Tuple>)
  {
    forall m, n :: 0 <= m < n < |out| ==> KeyLess(out[m].key, out[n].key)
  }

  predicate NoTombstones(out: seq<Tuple>)
  {
    forall m :: 0 <= m < |out| ==> !out[m].DeletedTuple?
  }

  /** Key `k` is accounted for in `out`: written, or dropped because its
      winner is a deletion marker and the compaction is major. */
  predicate Covered(inputs: seq<seq<Tuple>>, out: seq<Tuple>, major: bool, k: Key)
  {
    k in Keys(out) || (major && Winner(inputs, k).Some? && Winner(inputs, k).value.DeletedTuple?)
  }

  /** The result of compacting sorted inputs: strictly ascending keys, each
      tuple the winning version of its key, every key of the inputs covered,
      and no deletion marker when the compaction is major. */
  predicate Merged(inputs: seq<seq<Tuple>>, out: seq<Tuple>, major: bool)
  {
    StrictlyAscending(out) &&
    (forall m :: 0 <= m < |out| ==> Winner(inputs, out[m].key) == Some(out[m])) &&
    (forall i, p :: 0 <= i < |inputs| && 0 <= p < |inputs[i]| ==> Covered(inputs, out, major, inputs[i][p].key)) &&
    (major ==> NoTombstones(out))
  }

  /** Two ascending sequences of winners with the same keys are equal. */
  lemma {:induction false} SameKeysSameWinners(inputs: seq<seq<Tuple>>, a: seq<Tuple>, b: seq<Tuple>)
    requires StrictlyAscending(a) && StrictlyAscending(b)
    requires forall m :: 0 <= m < |a| ==> Winner(inputs, a[m].key) == Some(a[m])
    requires forall m :: 0 <= m < |b| ==> Winner(inputs, b[m].key) == Some(b[m])
    requires forall k :: k in Keys(a) <==> k in Keys(b)
    ensures a == b
    decreases |a|
  {
    if a == [] {
      FirstKey(b);
    } else {
      assert a[0].key in Keys(a);
      assert b != [];
      assert b[0].key in Keys(b);
      HeadIsLeast(a, b[0].key);
      HeadIsLeast(b, a[0].key);
      KeyTrichotomy(a[0].key, b[0].key);
      assert a[0] == b[0];
      forall k
        ensures k in Keys(a[1..]) <==> k in Keys(b[1..])
      {
        TailKeys(a, k);
        TailKeys(b, k);
      }
      TailWinners(inputs, a);
      TailWinners(inputs, b);
      SameKeysSameWinners(inputs, a[1..], b[1..]);
      assert a == [a[0]] + a[1..] && b == [b[0]] + b[1..];
    }
  }

  lemma TailWinners(inputs: seq<seq<Tuple>>, a: seq<Tuple>)
    requires a != [] && StrictlyAscending(a)
    requires forall m :: 0 <= m < |a| ==> Winner(inputs, a[m].key) == Some(a[m])
    ensures StrictlyAscending(a[1..])
    ensures forall m :: 0 <= m < |a[1..]| ==> Winner(inputs, a[1..][m].key) == Some(a[1..][m])
  {
    assert forall m :: 0 <= m < |a[1..]| ==> a[1..][m] == a[m + 1];
  }

  lemma FirstKey(a: seq<Tuple>)
    ensures a != [] ==> a[0].key in Keys(a)
  {
  }

  /** No key of an ascending sequence is below its first key. */
  lemma HeadIsLeast(a: seq<Tuple>, k: Key)
    requires StrictlyAscending(a) && k in Keys(a)
    ensures !KeyLess(k, a[0].key)
  {
    var m :| 0 <= m < |a| && Keys(a)[m] == k;
    if m > 0 {
      assert KeyLess(a[0].key, k);
      CompareKeysAntisymmetric(a[0].key, k);
    }
  }

  lemma TailKeys(a: seq<Tuple>, k: Key)
    requires StrictlyAscending(a) && a != []
    ensures k in Keys(a[1..]) <==> k in Keys(a) && k != a[0].key
  {
    if k in Keys(a[1..]) {
      var m :| 0 <= m < |a| - 1 && Keys(a[1..])[m] == k;
      assert a[1..][m] == a[m + 1];
    }
    if k in Keys(a) && k != a[0].key {
      var m :| 0 <= m < |a| && Keys(a)[m] == k;
      assert Keys(a[1..])[m - 1] == k;
    }
  }

  /** The inputs determine the result of a compaction. */
  lemma MergedUnique(inputs: seq<seq<Tuple>>, out1: seq<Tuple>, out2: seq<Tuple>, major: bool)
    requires AllAscending(inputs)
    requires Merged(inputs, out1, major) && Merged(inputs, out2, major)
    ensures out1 == out2
  {
    forall k | k in Keys(out1)
      ensures k in Keys(out2)
    {
      MergedKeyCovered(inputs, out1, out2, major, k);
    }
    forall k | k in Keys(out2)
      ensures k in Keys(out1)
    {
      MergedKeyCovered(inputs, out2, out1, major, k);
    }
    SameKeysSameWinners(inputs, out1, out2);
  }

  lemma MergedKeyCovered(inputs: seq<seq<Tuple>>, out1: seq<Tuple>, out2: seq<Tuple>, major: bool, k: Key)
    requires AllAscending(inputs)
    requires Merged(inputs, out1, major) && Merged(inputs, out2, major)
    requires k in Keys(out1)
    ensures k in Keys(out2)
  {
    var m :| 0 <= m < |out1| && Keys(out1)[m] == k;
    WinnerIsNewest(inputs, k);
    var i, p :| 0 <= i < |inputs| && 0 <= p < |inputs[i]| && inputs[i][p].key == k;
    assert Covered(inputs, out2, major, inputs[i][p].key);
  }

  /** Compacting one sorted table on its own in a minor compaction gives the
      same tuples in the same order. */
  lemma CompactingOneTable(ts: seq<Tuple>, out: seq<Tuple>)
    requires Ascending(ts) && Merged([ts], out, false)
    ensures out == ts
  {
    forall m | 0 <= m < |ts|
      ensures Winner([ts], ts[m].key) == Some(ts[m])
    {
      FindInAscending(ts, m);
      var c := KeyCandidates([ts], ts[m].key);
      assert c[0] == Find(ts, ts[m].key);
      assert c[..0] == [];
      assert Lowest(c[..0]) == None;
    }
    forall p | 0 <= p < |ts|
      ensures Covered([ts], ts, false, [ts][0][p].key)
    {
      assert Keys(ts)[p] == ts[p].key;
    }
    assert Merged([ts], ts, false);
    MergedUnique([ts], out, ts, false);
  }

  // ---------------------------------------------------------------------
  // The state of the merge between rounds

  function Held(o: Option<Tuple>): nat
  {
    if o.Some? then 1 else 0
  }

  function Sum(c: seq<nat>): nat
  {
    if c == [] then 0 else Sum(c[..|c| - 1]) + c[|c| - 1]
  }

  /** How many slots are full. */
  function CountSome(s: Slots): nat
  {
    if s == [] then 0 else CountSome(s[..|s| - 1]) + Held(s[|s| - 1])
  }

  /** How many tuples the inputs hold together. */
  function TotalSize(inputs: seq<seq<Tuple>>): nat
  {
    if inputs == [] then 0 else TotalSize(inputs[..|inputs| - 1]) + |inputs[|inputs| - 1]|
  }

  /** Input `i`'s iterator has handed out its first `c[i]` tuples, and a full
      slot holds the last of them. */
  predicate Heads(inputs: seq<seq<Tuple>>, c: seq<nat>, s: Slots)
  {
    |c| == |inputs| && |s| == |inputs| &&
    forall i :: 0 <= i < |inputs| ==>
      c[i] <= |inputs[i]| && (s[i].Some? ==> 1 <= c[i] && s[i].value == inputs[i][c[i] - 1])
  }

  /** An empty slot after a refresh means its iterator has no next tuple. */
  predicate Exhausted(inputs: seq<seq<Tuple>>, c: seq<nat>, s: Slots)
    requires |c| == |inputs| && |s| == |inputs|
  {
    forall i :: 0 <= i < |inputs| ==> s[i].None? ==> c[i] == |inputs[i]|
  }

  /** How many tuples of each input are dealt with: read and no longer in a slot. */
  function Taken(c: seq<nat>, s: Slots): (r: seq<int>)
    requires |c| == |s|
    ensures |r| == |c|
  {
    seq(|c|, i requires 0 <= i < |c| => c[i] - Held(s[i]))
  }

  /** `k` is at or below the last key dealt with. */
  predicate Below(k: Key, last: Option<Key>)
  {
    last.Some? && !KeyLess(last.value, k)
  }

  /** The tuples dealt with are exactly those with keys up to `last`. */
  predicate Frontier(inputs: seq<seq<Tuple>>, taken: seq<int>, last: Option<Key>)
    requires |taken| == |inputs|
  {
    forall i, p :: 0 <= i < |inputs| && 0 <= p < |inputs[i]| ==>
      (p < taken[i] <==> Below(inputs[i][p].key, last))
  }

  /** The output so far: ascending winners, none above `last`. */
  predicate SoFar(inputs: seq<seq<Tuple>>, out: seq<Tuple>, last: Option<Key>)
  {
    StrictlyAscending(out) &&
    forall m :: 0 <= m < |out| ==> Winner(inputs, out[m].key) == Some(out[m]) && Below(out[m].key, last)
  }

  /** Every key dealt with is covered by the output so far. */
  predicate Complete(inputs: seq<seq<Tuple>>, taken: seq<int>, out: seq<Tuple>, major: bool)
    requires |taken| == |inputs|
  {
    forall i, p :: 0 <= i < |inputs| && 0 <= p < |inputs[i]| && p < taken[i] ==>
      Covered(inputs, out, major, inputs[i][p].key)
  }

  /** `refreshTuple` at one slot, for an input, its cursor and its slot
      before and after: an empty slot whose iterator has a next tuple takes
      it; everything else stays. */
  predicate RefilledAt(input: seq<Tuple>, c0: nat, s0: Option<Tuple>, c1: nat, s1: Option<Tuple>)
  {
    if s0.None? && c0 < |input| then s1 == Some(input[c0]) && c1 == c0 + 1
    else s1 == s0 && c1 == c0
  }

  predicate Refilled(inputs: seq<seq<Tuple>>, c0: seq<nat>, s0: Slots, c1: seq<nat>, s1: Slots)
    requires |c0| == |s0| == |c1| == |s1| == |inputs|
  {
    forall i :: 0 <= i < |inputs| ==> RefilledAt(inputs[i], c0[i], s0[i], c1[i], s1[i])
  }

  /** Moving one cursor on by one adds one to the sum. */
  lemma {:induction false} SumIncrement(c: seq<nat>, i: int)
    requires 0 <= i < |c|
    ensures Sum(c[i := c[i] + 1]) == Sum(c) + 1
    decreases |c|
  {
    var d := c[i := c[i] + 1];
    if i == |c| - 1 {
      assert d[..|c| - 1] == c[..|c| - 1];
    } else {
      assert d[..|c| - 1] == c[..|c| - 1][i := c[i] + 1];
      SumIncrement(c[..|c| - 1], i);
    }
  }

  /** After a refresh the heads are still the tuples before the cursors, and
      a slot left empty has no tuple to read. */
  lemma RefilledHeads(inputs: seq<seq<Tuple>>, c0: seq<nat>, s0: Slots, c1: seq<nat>, s1: Slots)
    requires Heads(inputs, c0, s0) && |c1| == |s1| == |inputs|
    requires Refilled(inputs, c0, s0, c1, s1)
    ensures Heads(inputs, c1, s1) && Exhausted(inputs, c1, s1)
  {
  }

  /** A refresh reads exactly as many tuples as it fills slots, and deals
      with none. */
  lemma RefreshAccounting(inputs: seq<seq<Tuple>>, c0: seq<nat>, s0: Slots, c1: seq<nat>, s1: Slots)
    requires |c0| == |s0| == |c1| == |s1| == |inputs|
    requires Refilled(inputs, c0, s0, c1, s1)
    ensures Sum(c1) + CountSome(s0) == Sum(c0) + CountSome(s1)
    ensures Taken(c1, s1) == Taken(c0, s0)
  {
    BalanceKept(c0, s0, c1, s1);
  }

  /** Consuming the chosen key keeps the heads in place and empties at least
      one slot. */
  lemma ConsumeAccounting(inputs: seq<seq<Tuple>>, c: seq<nat>, s: Slots, i0: int, t: Tuple)
    requires Heads(inputs, c, s) && 0 <= i0 < |s| && s[i0] == Some(t)
    ensures Heads(inputs, c, Consume(s, t.key))
    ensures CountSome(Consume(s, t.key)) < CountSome(s)
  {
    ConsumeEmptiesKey(s, t.key);
    DropCount(s, Consume(s, t.key), i0);
  }

  /** The sorted-input part of the merge state. */
  predicate Progress(inputs: seq<seq<Tuple>>, c: seq<nat>, s: Slots, out: seq<Tuple>, last: Option<Key>, major: bool)
    requires |c| == |inputs| && |s| == |inputs|
  {
    Frontier(inputs, Taken(c, s), last) && SoFar(inputs, out, last) && Complete(inputs, Taken(c, s), out, major)
  }

  /** `consumeTuplesForKey`: every slot holding key `k` is emptied. */
  function Consume(s: Slots, k: Key): Slots
  {
    seq(|s|, i requires 0 <= i < |s| => if s[i].Some? && s[i].value.key == k then None else s[i])
  }

  /** Consuming a key empties every slot holding it and leaves the others alone. */
  lemma ConsumeEmptiesKey(s: Slots, k: Key)
    ensures |Consume(s, k)| == |s|
    ensures forall i :: 0 <= i < |s| ==> (Consume(s, k)[i].None? <==> s[i].None? || s[i].value.key == k)
    ensures forall i :: 0 <= i < |s| && Consume(s, k)[i].Some? ==> Consume(s, k)[i] == s[i]
  {
  }

  // Counting

  lemma {:induction false} BalanceKept(c0: seq<nat>, s0: Slots, c1: seq<nat>, s1: Slots)
    requires |c0| == |s0| == |c1| == |s1|
    requires forall i :: 0 <= i < |c0| ==> c1[i] + Held(s0[i]) == c0[i] + Held(s1[i])
    ensures Sum(c1) + CountSome(s0) == Sum(c0) + CountSome(s1)
    decreases |c0|
  {
    if c0 != [] {
      var n := |c0| - 1;
      BalanceKept(c0[..n], s0[..n], c1[..n], s1[..n]);
    }
  }

  lemma {:induction false} DropCount(s: Slots, s2: Slots, i0: int)
    requires |s| == |s2| && forall i :: 0 <= i < |s| ==> s2[i] == s[i] || s2[i].None?
    ensures CountSome(s2) <= CountSome(s)
    ensures 0 <= i0 < |s| && s[i0].Some? && s2[i0].None? ==> CountSome(s2) < CountSome(s)
    decreases |s|
  {
    if s != [] {
      var n := |s| - 1;
      DropCount(s[..n], s2[..n], i0);
    }
  }

  lemma {:induction false} SumBound(inputs: seq<seq<Tuple>>, c: seq<nat>)
    requires |c| == |inputs| && forall i :: 0 <= i < |c| ==> c[i] <= |inputs[i]|
    ensures Sum(c) <= TotalSize(inputs)
    ensures (forall i :: 0 <= i < |c| ==> c[i] == |inputs[i]|) ==> Sum(c) == TotalSize(inputs)
    decreases |c|
  {
    if c != [] {
      var n := |c| - 1;
      SumBound(inputs[..n], c[..n]);
    }
  }

  lemma {:induction false} ZeroCounts(c: seq<nat>, s: Slots)
    requires forall i :: 0 <= i < |c| ==> c[i] == 0
    requires forall i :: 0 <= i < |s| ==> s[i].None?
    ensures Sum(c) == 0 && CountSome(s) == 0
    decreases |c| + |s|
  {
    if c != [] {
      ZeroCounts(c[..|c| - 1], s);
    } else if s != [] {
      ZeroCounts(c, s[..|s| - 1]);
    }
  }

  // One round

  /** Under sorted inputs, the head chosen in a round is the winning version
      of its key, and its key lies above every key dealt with before. */
  lemma PickIsWinner(inputs: seq<seq<Tuple>>, c: seq<nat>, s: Slots, last: Option<Key>, i0: int, t: Tuple)
    requires AllAscending(inputs) && Heads(inputs, c, s) && Exhausted(inputs, c, s)
    requires Frontier(inputs, Taken(c, s), last) && FirstMinimal(s, i0, t)
    ensures Winner(inputs, t.key) == Some(t)
    ensures last.None? || KeyLess(last.value, t.key)
  {
    var k := t.key;
    var taken := Taken(c, s);
    assert taken[i0] == c[i0] - 1 && inputs[i0][c[i0] - 1] == t;
    assert !Below(k, last);
    var cands := KeyCandidates(inputs, k);
    forall j | 0 <= j < |inputs| && cands[j].Some?
      ensures cands[j] == s[j]
    {
      CandidateIsHead(inputs, c, s, last, i0, t, j);
    }
    FindInAscending(inputs[i0], c[i0] - 1);
    assert FirstMinimal(cands, i0, t);
    LowestOfFirstMinimal(cands, i0, t);
  }

  /** Any input's version of the chosen key is in that input's slot. */
  lemma CandidateIsHead(inputs: seq<seq<Tuple>>, c: seq<nat>, s: Slots, last: Option<Key>, i0: int, t: Tuple, j: int)
    requires AllAscending(inputs) && Heads(inputs, c, s) && Exhausted(inputs, c, s)
    requires Frontier(inputs, Taken(c, s), last) && FirstMinimal(s, i0, t)
    requires !Below(t.key, last)
    requires 0 <= j < |inputs| && Find(inputs[j], t.key).Some?
    ensures s[j] == Find(inputs[j], t.key)
  {
    var k := t.key;
    var taken := Taken(c, s);
    var u := Find(inputs[j], k).value;
    var q :| 0 <= q < |inputs[j]| && inputs[j][q] == u;
    assert q >= taken[j];
    assert s[j].Some?;
    var v := s[j].value;
    assert Compare(t, v) <= 0;
    CompareKeysAntisymmetric(k, v.key);
    assert q == c[j] - 1;
  }

  /** After the chosen key is consumed, the tuples dealt with are those up to it. */
  lemma FrontierStep(inputs: seq<seq<Tuple>>, c: seq<nat>, s: Slots, last: Option<Key>, i0: int, t: Tuple)
    requires AllAscending(inputs) && Heads(inputs, c, s) && Exhausted(inputs, c, s)
    requires Frontier(inputs, Taken(c, s), last) && FirstMinimal(s, i0, t)
    requires last.None? || KeyLess(last.value, t.key)
    ensures Heads(inputs, c, Consume(s, t.key))
    ensures Frontier(inputs, Taken(c, Consume(s, t.key)), Some(t.key))
  {
    var k := t.key;
    var taken, taken2 := Taken(c, s), Taken(c, Consume(s, k));
    forall i, p | 0 <= i < |inputs| && 0 <= p < |inputs[i]|
      ensures p < taken2[i] <==> !KeyLess(k, inputs[i][p].key)
    {
      var kp := inputs[i][p].key;
      if p < taken[i] {
        KeyLessAfterAtMost(kp, last.value, k);
        CompareKeysAntisymmetric(kp, k);
      } else {
        assert s[i].Some?;
        var v := s[i].value;
        assert Compare(t, v) <= 0;
        CompareKeysAntisymmetric(k, v.key);
        if p == c[i] - 1 {
          CompareKeysAntisymmetric(k, kp);
        } else {
          assert KeyLess(v.key, kp);
          KeyLessAfterAtMost(k, v.key, kp);
          CompareKeysAntisymmetric(k, kp);
        }
      }
    }
  }

  /** Writing the chosen winner keeps the output ascending. */
  lemma SoFarStep(inputs: seq<seq<Tuple>>, out: seq<Tuple>, last: Option<Key>, t: Tuple)
    requires SoFar(inputs, out, last) && Winner(inputs, t.key) == Some(t)
    requires last.None? || KeyLess(last.value, t.key)
    ensures SoFar(inputs, out, Some(t.key)) && SoFar(inputs, out + [t], Some(t.key))
  {
    var k := t.key;
    forall m | 0 <= m < |out|
      ensures KeyLess(out[m].key, k) && Below(out[m].key, Some(k))
    {
      KeyLessAfterAtMost(out[m].key, last.value, k);
      CompareKeysAntisymmetric(out[m].key, k);
    }
    var out2 := out + [t];
    assert forall m :: 0 <= m < |out| ==> out2[m] == out[m];
  }

  lemma KeysAppend(out: seq<Tuple>, t: Tuple)
    ensures Keys(out + [t]) == Keys(out) + [t.key]
  {
  }

  /** The key consumed in a round is covered: written, or dropped as a
      deletion marker in a major compaction. */
  lemma CompleteStep(inputs: seq<seq<Tuple>>, c: seq<nat>, s: Slots, out: seq<Tuple>, out2: seq<Tuple>, major: bool, t: Tuple)
    requires Heads(inputs, c, s) && Complete(inputs, Taken(c, s), out, major)
    requires Winner(inputs, t.key) == Some(t)
    requires out2 == out + [t] || (out2 == out && major && t.DeletedTuple?)
    ensures Complete(inputs, Taken(c, Consume(s, t.key)), out2, major)
  {
    var taken, taken2 := Taken(c, s), Taken(c, Consume(s, t.key));
    KeysAppend(out, t);
    forall i, p | 0 <= i < |inputs| && 0 <= p < |inputs[i]| && p < taken2[i]
      ensures Covered(inputs, out2, major, inputs[i][p].key)
    {
      if p < taken[i] {
        assert Covered(inputs, out, major, inputs[i][p].key);
      } else {
        assert inputs[i][p].key == t.key;
      }
    }
  }

  /** One round over sorted inputs: after a refresh, the chosen head is
      consumed and possibly written, and the merge state moves to its key. */
  lemma RoundStep(inputs: seq<seq<Tuple>>, c0: seq<nat>, s0: Slots, c1: seq<nat>, s1: Slots,
                  out: seq<Tuple>, out2: seq<Tuple>, last: Option<Key>, major: bool, i0: int, t: Tuple)
    requires AllAscending(inputs) && Heads(inputs, c0, s0) && Heads(inputs, c1, s1) && Exhausted(inputs, c1, s1)
    requires Taken(c1, s1) == Taken(c0, s0) && Progress(inputs, c0, s0, out, last, major)
    requires FirstMinimal(s1, i0, t)
    requires out2 == out + [t] || (out2 == out && major && t.DeletedTuple?)
    ensures Heads(inputs, c1, Consume(s1, t.key))
    ensures Progress(inputs, c1, Consume(s1, t.key), out2, Some(t.key), major)
  {
    PickIsWinner(inputs, c1, s1, last, i0, t);
    FrontierStep(inputs, c1, s1, last, i0, t);
    SoFarStep(inputs, out, last, t);
    CompleteStep(inputs, c1, s1, out, out2, major, t);
  }

  /** What holds between two rounds of `executeCompactation`: the heads and
      the counts agree, a major compaction has written no deletion marker,
      and over sorted inputs the output is the merge so far. */
  ghost predicate Merging(inputs: seq<seq<Tuple>>, c: seq<nat>, s: Slots, out: seq<Tuple>, last: Option<Key>, major: bool)
  {
    Heads(inputs, c, s) &&
    |out| + CountSome(s) <= Sum(c) <= TotalSize(inputs) &&
    (major ==> NoTombstones(out)) &&
    (AllAscending(inputs) ==> Progress(inputs, c, s, out, last, major))
  }

  /** A refresh keeps the merge state and moves as many tuples into slots as
      it reads. */
  lemma RefreshKeepsMerging(inputs: seq<seq<Tuple>>, c0: seq<nat>, s0: Slots, c1: seq<nat>, s1: Slots,
                            out: seq<Tuple>, last: Option<Key>, major: bool)
    requires Merging(inputs, c0, s0, out, last, major)
    requires Heads(inputs, c1, s1) && Refilled(inputs, c0, s0, c1, s1)
    ensures Merging(inputs, c1, s1, out, last, major)
    ensures Sum(c1) - CountSome(s1) == Sum(c0) - CountSome(s0)
  {
    RefreshAccounting(inputs, c0, s0, c1, s1);
    SumBound(inputs, c1);
  }

  /** A round that picks `t` keeps the merge state and deals with at least
      one more tuple. */
  lemma RoundKeepsMerging(inputs: seq<seq<Tuple>>, c0: seq<nat>, s0: Slots, c1: seq<nat>, s1: Slots,
                          out: seq<Tuple>, out2: seq<Tuple>, last: Option<Key>, major: bool, i0: int, t: Tuple)
    requires Merging(inputs, c0, s0, out, last, major)
    requires Heads(inputs, c1, s1) && Exhausted(inputs, c1, s1) && Refilled(inputs, c0, s0, c1, s1)
    requires FirstMinimal(s1, i0, t)
    requires (out2 == out + [t] && !(major && t.DeletedTuple?)) || (out2 == out && major && t.DeletedTuple?)
    ensures Merging(inputs, c1, Consume(s1, t.key), out2, Some(t.key), major)
    ensures Sum(c1) - CountSome(Consume(s1, t.key)) > Sum(c0) - CountSome(s0)
    ensures |out| < TotalSize(inputs)
  {
    RefreshAccounting(inputs, c0, s0, c1, s1);
    SumBound(inputs, c1);
    ConsumeAccounting(inputs, c1, s1, i0, t);
    if major {
      assert NoTombstones(out2) by {
        forall m | 0 <= m < |out2| ensures !out2[m].DeletedTuple? {
          if m == |out| { assert out2[m] == t; } else { assert out2[m] == out[m]; }
        }
      }
    }
    if AllAscending(inputs) {
      RoundStep(inputs, c0, s0, c1, s1, out, out2, last, major, i0, t);
    }
  }

  // ---------------------------------------------------------------------
  // The writer and the compactor

  /** The output table's writer (`SSTableWriter`), reduced to what the merge
      sees: the tuples appended since `open`, and the three calls that can
      fail with a `StorageManagerException` (reported here as `false`). */
  class SSTableWriter {
    const failsOnOpen: bool
    /** `addNextTuple` fails once the file holds this many tuples. */
    const capacity: nat
    const failsOnClose: bool
    var written: seq<Tuple>
    var isOpen: bool

    constructor (failsOnOpen: bool, capacity: nat, failsOnClose: bool)
      ensures this.failsOnOpen == failsOnOpen && this.capacity == capacity && this.failsOnClose == failsOnClose
      ensures written == [] && !isOpen
    {
      this.failsOnOpen := failsOnOpen;
      this.capacity := capacity;
      this.failsOnClose := failsOnClose;
      written := [];
      isOpen := false;
    }

    method Open() returns (ok: bool)
      modifies this
      ensures ok == !failsOnOpen
      ensures ok ==> isOpen && written == []
      ensures !ok ==> written == old(written) && isOpen == old(isOpen)
    {
      ok := !failsOnOpen;
      if ok {
        written := [];
        isOpen := true;
      }
    }

    method AddNextTuple(t: Tuple) returns (ok: bool)
      modifies this
      ensures ok == (|old(written)| < capacity)
      ensures written == if ok then old(written) + [t] else old(written)
      ensures isOpen == old(isOpen)
    {
      ok := |written| < capacity;
      if ok {
        written := written + [t];
      }
    }

    method Close() returns (ok: bool)
      modifies this
      ensures ok == !failsOnClose && !isOpen && written == old(written)
    {
      ok := !failsOnClose;
      isOpen := false;
    }
  }

  /** Each input is the tuple sequence its reader's iterator yields, in order. */
  class SSTableCompactor {
    const inputs: seq<seq<Tuple>>
    const writer: SSTableWriter
    /** In a major compaction deletion markers are not written. */
    var majorCompaction: bool
    var readTuples: nat
    var writtenTuples: nat

    ghost predicate Valid()
      reads this
    {
      writtenTuples <= readTuples
    }

    constructor (inputs: seq<seq<Tuple>>, writer: SSTableWriter)
      ensures Valid()
      ensures this.inputs == inputs && this.writer == writer
      ensures !majorCompaction && readTuples == 0 && writtenTuples == 0
    {
      this.inputs := inputs;
      this.writer := writer;
      majorCompaction := false;
      readTuples := 0;
      writtenTuples := 0;
    }

    function IsMajorCompaction(): bool
      reads this
    {
      majorCompaction
    }

    method SetMajorCompaction(major: bool)
      modifies this
      ensures majorCompaction == major
      ensures readTuples == old(readTuples) && writtenTuples == old(writtenTuples)
    {
      majorCompaction := major;
    }

    function GetReadTuples(): nat
      reads this
    {
      readTuples
    }

    function GetWrittenTuples(): nat
      reads this
    {
      writtenTuples
    }

    /** `consumeTuplesForKey`: the heads are Java's list `tuples`, which the
        source updates in place; here the updated list is returned. */
    method ConsumeTuplesForKey(slots: Slots, key: Key) returns (r: Slots)
      ensures r == Consume(slots, key)
    {
      r := slots;
      var i := 0;
      while i < |r|
        invariant 0 <= i <= |r| == |slots|
        invariant forall j :: 0 <= j < i ==> r[j] == Consume(slots, key)[j]
        invariant forall j :: i <= j < |r| ==> r[j] == slots[j]
      {
        var next := r[i];
        if next.Some? && key == next.value.key {
          r := r[i := None];
        }
        i := i + 1;
      }
    }

    /** `getTupleWithTheLowestKey`. */
    method GetTupleWithTheLowestKey(slots: Slots) returns (r: Option<Tuple>)
      ensures r == Lowest(slots)
      ensures r.None? <==> forall i :: 0 <= i < |slots| ==> slots[i].None?
      ensures r.Some? ==> exists i :: FirstMinimal(slots, i, r.value)
    {
      r := None;
      var i := 0;
      while i < |slots|
        invariant 0 <= i <= |slots|
        invariant r == Lowest(slots[..i])
      {
        assert slots[..i + 1][..i] == slots[..i];
        var next := slots[i];
        if next.Some? {
          if r.None? {
            r := next;
          } else if Compare(r.value, next.value) > 0 {
            r := next;
          }
        }
        i := i + 1;
      }
      assert slots[..i] == slots;
      LowestIsFirstMinimal(slots);
    }

    /** `refreshTuple`: fill every empty slot whose iterator has a next tuple,
        counting each tuple read, and report whether every slot is empty. An
        iterator is the position `cursors[i]` in its input; the updated
        iterators and heads are returned. */
    method RefreshTuple(cursors: seq<nat>, slots: Slots) returns (done: bool, cursors': seq<nat>, slots': Slots)
      requires Heads(inputs, cursors, slots)
      modifies this
      ensures Heads(inputs, cursors', slots') && Exhausted(inputs, cursors', slots')
      ensures Refilled(inputs, cursors, slots, cursors', slots')
      ensures readTuples == old(readTuples) + Sum(cursors') - Sum(cursors)
      ensures majorCompaction == old(majorCompaction) && writtenTuples == old(writtenTuples)
      ensures done <==> forall i :: 0 <= i < |slots'| ==> slots'[i].None?
    {
      cursors', slots' := cursors, slots;
      done := true;
      var i := 0;
      while i < |inputs|
        invariant 0 <= i <= |inputs| && |cursors'| == |slots'| == |inputs|
        invariant forall j :: 0 <= j < i ==> RefilledAt(inputs[j], cursors[j], slots[j], cursors'[j], slots'[j])
        invariant forall j :: i <= j < |inputs| ==> cursors'[j] == cursors[j] && slots'[j] == slots[j]
        invariant readTuples == old(readTuples) + Sum(cursors') - Sum(cursors)
        invariant majorCompaction == old(majorCompaction) && writtenTuples == old(writtenTuples)
        invariant done <==> forall j :: 0 <= j < i ==> slots'[j].None?
      {
        if slots'[i].None? && cursors'[i] < |inputs[i]| {
          slots' := slots'[i := Some(inputs[i][cursors'[i]])];
          SumIncrement(cursors', i);
          cursors' := cursors'[i := cursors'[i] + 1];
          readTuples := readTuples + 1;
        }
        if done && slots'[i].Some? {
          done := false;
        }
        i := i + 1;
      }
      RefilledHeads(inputs, cursors, slots, cursors', slots');
    }

    /** One pass of the loop in `executeCompactation`: refresh the heads
        (`heads` is the result), take the lowest head `t` (the first of the
        lowest, in slot `i0`), drop every head with its key, and write `t`
        unless a major compaction drops deletion markers. `done` when no head
        was left; `ok` is false when the writer refused the tuple. */
    method CompactionStep(cursors: seq<nat>, slots: Slots)
      returns (ok: bool, done: bool, cursors': seq<nat>, slots': Slots, ghost heads: Slots, ghost i0: int, ghost t: Tuple)
      requires Heads(inputs, cursors, slots) && writer.isOpen
      modifies this, writer
      ensures majorCompaction == old(majorCompaction) && writer.isOpen
      ensures Heads(inputs, cursors', heads) && Exhausted(inputs, cursors', heads)
      ensures Refilled(inputs, cursors, slots, cursors', heads)
      ensures readTuples == old(readTuples) + Sum(cursors') - Sum(cursors)
      ensures writtenTuples == old(writtenTuples) + |writer.written| - |old(writer.written)|
      ensures done <==> forall i :: 0 <= i < |heads| ==> heads[i].None?
      ensures done ==> ok && slots' == heads && writer.written == old(writer.written)
      ensures !done ==> FirstMinimal(heads, i0, t) && slots' == Consume(heads, t.key)
      ensures !done && ok ==>
                writer.written == if majorCompaction && t.DeletedTuple? then old(writer.written) else old(writer.written) + [t]
      ensures !ok ==> |old(writer.written)| >= writer.capacity && writer.written == old(writer.written)
    {
      ok, i0, t := true, 0, DeletedTuple([], 0);
      var refreshed;
      done, cursors', refreshed := RefreshTuple(cursors, slots);
      heads, slots' := refreshed, refreshed;
      var tuple := GetTupleWithTheLowestKey(refreshed);
      assert done == tuple.None?;
      if tuple.Some? {
        var lowest := tuple.value;
        t := lowest;
        i0 :| FirstMinimal(heads, i0, t);
        slots' := ConsumeTuplesForKey(refreshed, lowest.key);
        if !(majorCompaction && lowest.DeletedTuple?) {
          ok := writer.AddNextTuple(lowest);
          if !ok {
            return;
          }
          writtenTuples := writtenTuples + 1;
        }
      }
    }

    /** `executeCompactation`: merge the inputs into the writer. It fails, and
        reports `false`, exactly where the writer fails. */
    method ExecuteCompactation() returns (success: bool)
      requires Valid()
      modifies this, writer
      ensures Valid()
      ensures majorCompaction == old(majorCompaction)
      ensures writer.failsOnOpen ==>
                !success && writer.written == old(writer.written) &&
                readTuples == old(readTuples) && writtenTuples == old(writtenTuples)
      ensures success ==> !writer.failsOnOpen && !writer.failsOnClose && !writer.isOpen
      ensures !writer.failsOnOpen && !writer.failsOnClose && TotalSize(inputs) <= writer.capacity ==> success
      ensures success ==>
                readTuples == old(readTuples) + TotalSize(inputs) &&
                writtenTuples == old(writtenTuples) + |writer.written|
      ensures majorCompaction && !writer.failsOnOpen ==> NoTombstones(writer.written)
      ensures success && AllAscending(inputs) ==> Merged(inputs, writer.written, majorCompaction)
    {
      var cursors: seq<nat> := seq(|inputs|, _ => 0);
      var slots: Slots := seq(|inputs|, _ => None);
      ZeroCounts(cursors, slots);
      var openOk := writer.Open();
      if !openOk {
        return false;
      }
      ghost var last: Option<Key> := None;
      var done := false;
      while !done
        invariant Merging(inputs, cursors, slots, writer.written, last, majorCompaction)
        invariant majorCompaction == old(majorCompaction) && writer.isOpen
        invariant readTuples == old(readTuples) + Sum(cursors)
        invariant writtenTuples == old(writtenTuples) + |writer.written|
        invariant done ==> forall i :: 0 <= i < |inputs| ==> slots[i].None? && cursors[i] == |inputs[i]|
        decreases TotalSize(inputs) - Sum(cursors) + CountSome(slots) + (if done then 0 else 1)
      {
        ghost var c0, s0, out := cursors, slots, writer.written;
        var ok;
        ghost var heads, i0, t;
        ok, done, cursors, slots, heads, i0, t := CompactionStep(cursors, slots);
        RefreshKeepsMerging(inputs, c0, s0, cursors, heads, out, last, majorCompaction);
        if !done {
          ghost var out2 := if majorCompaction && t.DeletedTuple? then out else out + [t];
          RoundKeepsMerging(inputs, c0, s0, cursors, heads, out, out2, last, majorCompaction, i0, t);
          if !ok {
            return false;
          }
          last := Some(t.key);
        }
      }
      SumBound(inputs, cursors);
      success := writer.Close();
    }
  }
}
