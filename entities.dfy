/** The stored record: a value tuple (key, bounding box, payload, timestamp)
    or a deletion marker for a key, and the order tables are sorted by. */
module Entities {
  import opened Bytes

  /** Keys are kept as their byte encoding; comparing them byte by byte is
      `String.compareTo` for keys in a single-byte character set. */
  type Key = seq<byte>

  datatype Tuple =
    | Tuple(key: Key, box: seq<byte>, data: seq<byte>, timestamp: int)
    | DeletedTuple(key: Key, timestamp: int)

  /** Lexicographic comparison: negative, zero or positive. */
  function CompareKeys(a: Key, b: Key): (r: int)
    ensures r == 0 <==> a == b
    ensures -1 <= r <= 1
  {
    if a == [] && b == [] then 0
    else if a == [] then -1
    else if b == [] then 1
    else if a[0] < b[0] then -1
    else if a[0] > b[0] then 1
    else
      var r := CompareKeys(a[1..], b[1..]);
      assert r == 0 ==> a == [a[0]] + a[1..] == [b[0]] + b[1..] == b;
      r
  }

  predicate KeyLess(a: Key, b: Key)
  {
    CompareKeys(a, b) < 0
  }

  lemma {:induction false} CompareKeysAntisymmetric(a: Key, b: Key)
    ensures CompareKeys(a, b) == -CompareKeys(b, a)
  {
    if a != [] && b != [] && a[0] == b[0] {
      CompareKeysAntisymmetric(a[1..], b[1..]);
    }
  }

  lemma {:induction false} KeyLessTransitive(a: Key, b: Key, c: Key)
    requires KeyLess(a, b) && KeyLess(b, c)
    ensures KeyLess(a, c)
  {
    if a != [] && b != [] && c != [] && a[0] == b[0] == c[0] {
      KeyLessTransitive(a[1..], b[1..], c[1..]);
    }
  }

  /** The key order is total: exactly one of less, equal, greater. */
  lemma KeyTrichotomy(a: Key, b: Key)
    ensures KeyLess(a, b) || a == b || KeyLess(b, a)
  {
    CompareKeysAntisymmetric(a, b);
  }

  /** `Tuple.compareTo`: by key, then the newer timestamp first. */
  function Compare(a: Tuple, b: Tuple): (r: int)
    ensures r < 0 <==> KeyLess(a.key, b.key) || (a.key == b.key && a.timestamp > b.timestamp)
    ensures r == 0 <==> a.key == b.key && a.timestamp == b.timestamp
  {
    var c := CompareKeys(a.key, b.key);
    if c != 0 then c
    else if a.timestamp > b.timestamp then -1
    else if a.timestamp < b.timestamp then 1
    else 0
  }

  lemma CompareAntisymmetric(a: Tuple, b: Tuple)
    ensures Compare(a, b) > 0 <==> Compare(b, a) < 0
  {
    CompareKeysAntisymmetric(a.key, b.key);
  }

  /** `Compare` is a total preorder: "not after" and "before" chain. */
  lemma CompareTransitive(a: Tuple, b: Tuple, c: Tuple)
    ensures Compare(a, b) <= 0 && Compare(b, c) <= 0 ==> Compare(a, c) <= 0
    ensures Compare(a, b) < 0 && Compare(b, c) <= 0 ==> Compare(a, c) < 0
    ensures Compare(a, b) <= 0 && Compare(b, c) < 0 ==> Compare(a, c) < 0
  {
    if KeyLess(a.key, b.key) && KeyLess(b.key, c.key) {
      KeyLessTransitive(a.key, b.key, c.key);
    }
  }

  /** A key at or below `b` is below anything above `b`. */
  lemma KeyLessAfterAtMost(a: Key, b: Key, c: Key)
    requires !KeyLess(b, a) && KeyLess(b, c)
    ensures KeyLess(a, c)
  {
    KeyTrichotomy(a, b);
    if a != b {
      KeyLessTransitive(a, b, c);
    }
  }
}
