/** Bytes, Java's fixed-width integers in big-endian (network) order, and the
    two stream objects the codecs use: a `ByteBuffer` with an advancing position
    and an append-only `OutputStream`. */
module Bytes {
  import opened Wrappers

  type byte = b: int | 0 <= b < 256

  /** A Java `short`. */
  type Short = x: int | -0x8000 <= x < 0x8000

  const SHORT_BYTES: nat := 2
  const INT_BYTES: nat := 4
  const LONG_BYTES: nat := 8

  function Pow256(n: nat): (r: nat)
    ensures r >= 1
  {
    if n == 0 then 1 else 256 * Pow256(n - 1)
  }

  lemma Pow256Values()
    ensures Pow256(1) == 0x100 && Pow256(2) == 0x1_0000
    ensures Pow256(4) == 0x1_0000_0000 && Pow256(8) == 0x1_0000_0000_0000_0000
  {
  }

  /** The unsigned value of `bs`, most significant byte first. */
  function Unsigned(bs: seq<byte>): nat
  {
    if bs == [] then 0 else Unsigned(bs[..|bs| - 1]) * 256 + bs[|bs| - 1]
  }

  /** The `n` low-order bytes of `v`, most significant first: what Java's
      `putShort`/`putInt`/`putLong` write for an `n`-byte integer, and what a
      narrowing cast keeps. `%` is Euclidean, which is two's complement here. */
  function LowBytes(v: int, n: nat): (r: seq<byte>)
    ensures |r| == n
    decreases n
  {
    if n == 0 then [] else LowBytes(v / 256, n - 1) + [v % 256]
  }

  /** The two's complement value of `bs`: what `getShort`/`getInt`/`getLong` read. */
  function Signed(bs: seq<byte>): int
  {
    var u := Unsigned(bs);
    if 2 * u >= Pow256(|bs|) then u - Pow256(|bs|) else u
  }

  /** `v` fits a Java integer of `n` bytes. */
  predicate InSignedRange(v: int, n: nat)
  {
    -(Pow256(n) as int) <= 2 * v < Pow256(n)
  }

  lemma {:induction false} UnsignedBound(bs: seq<byte>)
    ensures Unsigned(bs) < Pow256(|bs|)
  {
    if bs != [] {
      UnsignedBound(bs[..|bs| - 1]);
    }
  }

  /** Reading back the low bytes gives the value modulo 256^n. */
  lemma {:induction false} UnsignedOfLowBytes(v: int, n: nat)
    ensures Unsigned(LowBytes(v, n)) == v % Pow256(n)
    decreases n
  {
    if n > 0 {
      var r := LowBytes(v, n);
      assert r[..n - 1] == LowBytes(v / 256, n - 1);
      UnsignedOfLowBytes(v / 256, n - 1);
      ModOfProduct(v, Pow256(n - 1));
    }
  }

  /** The remainder modulo 256 * p, split into its low byte and the rest. */
  lemma ModOfProduct(v: int, p: int)
    requires p > 0
    ensures v % (256 * p) == (v / 256) % p * 256 + v % 256
  {
    var q := v / 256;
    var a, b := q / p, q % p;
    assert q == a * p + b;
    assert v == q * 256 + v % 256;
    calc {
      q * 256;
      (a * p + b) * 256;
      { assert (a * p + b) * 256 == a * p * 256 + b * 256; }
      a * p * 256 + b * 256;
      { assert a * p * 256 == a * (256 * p); }
      a * (256 * p) + b * 256;
    }
    assert 0 <= b * 256 + v % 256 < 256 * p by {
      assert b <= p - 1;
      assert b * 256 <= (p - 1) * 256;
    }
    ModUnique(v, 256 * p, a, b * 256 + v % 256);
  }

  lemma ModUnique(v: int, m: int, k: int, r: int)
    requires m > 0 && 0 <= r < m && v == k * m + r
    ensures v % m == r && v / m == k
  {
    var q, s := v / m, v % m;
    assert (q - k) * m == r - s;
    if q > k {
      MulAtLeast(q - k, m);
    } else if q < k {
      MulAtLeast(k - q, m);
    }
  }

  lemma MulAtLeast(a: int, m: int)
    requires a >= 1 && m > 0
    ensures a * m >= m
  {
    assert a * m == (a - 1) * m + m;
  }

  /** Writing an in-range value and reading it back as a signed integer is the identity. */
  lemma SignedOfLowBytes(v: int, n: nat)
    requires InSignedRange(v, n)
    ensures Signed(LowBytes(v, n)) == v
  {
    UnsignedOfLowBytes(v, n);
    var p := Pow256(n);
    if v >= 0 {
      ModUnique(v, p, 0, v);
    } else {
      ModUnique(v, p, -1, v + p);
    }
  }

  /** Bytes are determined by their unsigned value and length. */
  lemma {:induction false} LowBytesOfUnsigned(bs: seq<byte>)
    ensures LowBytes(Unsigned(bs), |bs|) == bs
  {
    if bs != [] {
      var n := |bs|;
      var init := bs[..n - 1];
      var u := Unsigned(bs);
      assert u == Unsigned(init) * 256 + bs[n - 1];
      ModUnique(u, 256, Unsigned(init), bs[n - 1]);
      assert u / 256 == Unsigned(init);
      LowBytesOfUnsigned(init);
      assert bs == init + [bs[n - 1]];
    }
  }

  /** A Java narrowing cast to an `n`-byte integer, e.g. `(short) x` for n = 2. */
  function Narrow(v: int, n: nat): (r: int)
  {
    Signed(LowBytes(v, n))
  }

  lemma NarrowInRange(v: int, n: nat)
    requires InSignedRange(v, n)
    ensures Narrow(v, n) == v
  {
    SignedOfLowBytes(v, n);
  }

  /** A relative bulk `get` of `n` bytes at offset `pos` into a fresh
      `byte[n]`, as a value: the bytes read and the offset after them. A
      negative `n` fails in the allocation, too few bytes with an underflow. */
  function GetAt(data: seq<byte>, pos: nat, n: int): (r: Result<(seq<byte>, nat), JavaException>)
    ensures r.Ok? ==> 0 <= n && |r.value.0| == n && r.value.1 == pos + n <= |data|
  {
    if n < 0 then Err(NegativeArraySizeException)
    else if pos + n > |data| then Err(BufferUnderflowException)
    else Ok((data[pos..pos + n], pos + n))
  }

  lemma Assoc(a: seq<byte>, b: seq<byte>, c: seq<byte>)
    ensures (a + b) + c == a + (b + c)
  {
  }

  /** Where `a + b` starts at `pos`, `a` and then `b` are found there. */
  lemma SplitAt(data: seq<byte>, pos: nat, a: seq<byte>, b: seq<byte>)
    requires pos <= |data| && data[pos..] == a + b
    ensures pos + |a| <= |data| && data[pos..pos + |a|] == a && data[pos + |a|..] == b
  {
    assert data[pos..pos + |a|] == data[pos..][..|a|];
    assert data[pos + |a|..] == data[pos..][|a|..];
  }

  /** The bytes from `pos` on are `a`, then `b`, then `c`: `a` ends at `next`. */
  lemma SplitFront(data: seq<byte>, pos: nat, a: seq<byte>, b: seq<byte>, c: seq<byte>, next: nat)
    requires pos <= |data| && data[pos..] == (a + b) + c && next == pos + |a|
    ensures next <= |data| && data[pos..next] == a && data[next..] == b + c
  {
    Assoc(a, b, c);
    SplitAt(data, pos, a, b + c);
  }

  /** A slice of a slice is a slice. */
  lemma Subslice(data: seq<byte>, p: nat, n: nat, i: nat, j: nat)
    requires p + n <= |data| && i <= j <= n
    ensures data[p..p + n][i..j] == data[p + i..p + j]
  {
    var outer := data[p..p + n];
    assert forall k :: 0 <= k < j - i ==> outer[i..j][k] == outer[i + k];
  }

  /** A two-byte read is a `short`. */
  lemma SignedShort(bs: seq<byte>)
    requires |bs| == SHORT_BYTES
    ensures -0x8000 <= Signed(bs) < 0x8000
  {
    UnsignedBound(bs);
    Pow256Values();
  }

  /** A `java.nio.ByteBuffer` over a fixed byte array: every relative `get`
      reads at `position` and advances it, and throws
      `BufferUnderflowException` when too few bytes remain. */
  class ByteBuffer {
    const data: seq<byte>
    var position: nat

    ghost predicate Valid()
      reads this
    {
      position <= |data|
    }

    constructor Wrap(bytes: seq<byte>)
      ensures Valid() && data == bytes && position == 0
    {
      data := bytes;
      position := 0;
    }

    function Remaining(): (r: nat)
      reads this
      requires Valid()
      ensures position + r == |data|
    {
      |data| - position
    }

    /** `get(byte[] dst, 0, n)` into a fresh `byte[n]`: a negative `n` fails in
        the allocation, too few remaining bytes fail with an underflow and leave
        the position where it was. */
    method GetBytes(n: int) returns (r: Result<seq<byte>, JavaException>)
      requires Valid()
      modifies this
      ensures Valid()
      ensures n < 0 ==> r == Err(NegativeArraySizeException) && position == old(position)
      ensures 0 <= n && old(position) + n <= |data| ==>
                r == Ok(data[old(position)..old(position) + n]) && position == old(position) + n
      ensures 0 <= n && old(position) + n > |data| ==> r == Err(BufferUnderflowException) && position == old(position)
    {
      if n < 0 {
        return Err(NegativeArraySizeException);
      }
      if n > |data| - position {
        return Err(BufferUnderflowException);
      }
      r := Ok(data[position..position + n]);
      position := position + n;
    }

    /** `getShort()`, `getInt()` for `n` = 2, 4: the two's complement value of
        the next `n` bytes. */
    method GetSigned(n: nat) returns (r: Result<int, JavaException>)
      requires Valid()
      modifies this
      ensures Valid()
      ensures old(position) + n <= |data| ==>
                r == Ok(Signed(data[old(position)..old(position) + n])) && position == old(position) + n
      ensures old(position) + n > |data| ==> r == Err(BufferUnderflowException) && position == old(position)
    {
      var bytes := GetBytes(n);
      if bytes.Err? {
        return Err(bytes.error);
      }
      r := Ok(Signed(bytes.value));
    }
  }

  /** An output stream: writing appends. A bounded stream (a file on a
      full disk, a connection whose peer stops reading) takes `room` bytes in
      all; a write that would go past them throws `IOException` and adds
      nothing. An unbounded stream, such as a `ByteArrayOutputStream`, never
      fails. */
  class OutputStream {
    var written: seq<byte>
    const bounded: bool
    const room: nat

    /** What has been written so far fits the stream. */
    ghost predicate Valid()
      reads this
    {
      Fits(|written|)
    }

    /** Whether `n` bytes in all fit the stream. */
    predicate Fits(n: nat)
    {
      !bounded || n <= room
    }

    /** A write of `intended` after `before` stopped with an `IOException`:
        the stream holds a prefix of the whole, and the whole does not fit. */
    ghost predicate FailedWriting(before: seq<byte>, intended: seq<byte>)
      reads this
    {
      written <= before + intended && !Fits(|before| + |intended|)
    }

    /** An unbounded stream. */
    constructor ()
      ensures Valid() && written == [] && !bounded
    {
      written := [];
      bounded := false;
    }

    /** A stream that takes `room` bytes. */
    constructor Bounded(room: nat)
      ensures Valid() && written == [] && bounded && this.room == room
    {
      written := [];
      bounded := true;
      this.room := room;
    }

    /** `write(bytes)`: false stands for the `IOException`. */
    method Write(bytes: seq<byte>) returns (ok: bool)
      requires Valid()
      modifies this
      ensures Valid()
      ensures ok <==> Fits(|old(written)| + |bytes|)
      ensures written == if ok then old(written) + bytes else old(written)
    {
      ok := Fits(|written| + |bytes|);
      if ok {
        written := written + bytes;
      }
    }
  }

  /** Writing more never un-does a prefix. */
  lemma PrefixExtend(a: seq<byte>, b: seq<byte>, c: seq<byte>)
    requires a <= b
    ensures a <= b + c
  {
    assert (b + c)[..|a|] == b[..|a|];
  }

  /** A stream that stopped while writing `x` stopped while writing any
      `y` that `x` begins. */
  lemma FailedWritingWiden(s: OutputStream, before: seq<byte>, x: seq<byte>, y: seq<byte>)
    requires s.FailedWriting(before, x) && x <= y
    ensures s.FailedWriting(before, y)
  {
    assert y == x + y[|x|..];
    Assoc(before, x, y[|x|..]);
    PrefixExtend(s.written, before + x, y[|x|..]);
  }

  /** A stream that stopped while writing `y` after `before + x` stopped
      while writing `x + y` after `before`. */
  lemma FailedWritingAfter(s: OutputStream, before: seq<byte>, x: seq<byte>, y: seq<byte>)
    requires s.FailedWriting(before + x, y)
    ensures s.FailedWriting(before, x + y)
  {
    Assoc(before, x, y);
  }

}
