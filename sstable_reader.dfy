/** Reading a sorted table file (`SSTableReader`): the file starts with a
    signature, followed by records
    `keyLength:2 | boxLength:4 | dataLength:4 | timestamp:8 | key | box | data`
    in ascending key order. The reader keeps one input stream and four reused
    header buffers; a lookup scans the records from the first one on. */
module SSTableReader {
  import opened Wrappers
  import opened Bytes
  import opened Strings
  import opened Entities
  import SSTableHelper

  /** The file signature. Its bytes are not part of this model. */
  const MAGIC_BYTES: seq<byte>

  function Min(a: int, b: int): int
  {
    if a <= b then a else b
  }

  function Zeros(n: nat): (r: seq<byte>)
    ensures |r| == n
  {
    seq(n, _ => 0)
  }

  /** `InputStream.read(buf, 0, buf.length)` at offset `pos` of `data`: as many
      bytes as remain (at most the buffer's length) are copied to the front of
      the buffer, the rest of the buffer keeps its old contents. */
  function ReadInto(data: seq<byte>, pos: nat, buf: seq<byte>): (r: (seq<byte>, nat))
    ensures |r.0| == |buf| && r.1 >= pos
    ensures pos < |data| && |buf| > 0 ==> r.1 > pos
    ensures pos + |buf| <= |data| ==> r == (data[pos..pos + |buf|], pos + |buf|)
  {
    if pos > |data| then (buf, pos)
    else if pos + |buf| <= |data| then (data[pos..pos + |buf|], pos + |buf|)
    else (data[pos..] + buf[|data| - pos..], |data|)
  }

  /** The contents of the four reused header buffers. */
  datatype Header = Header(keyLength: seq<byte>, boxLength: seq<byte>, dataLength: seq<byte>, timestamp: seq<byte>)
  {
    predicate Valid()
    {
      |keyLength| == SHORT_BYTES && |boxLength| == INT_BYTES &&
      |dataLength| == INT_BYTES && |timestamp| == LONG_BYTES
    }
  }

  /** What one `decodeTuple` call produces, where the stream then stands,
      and what the header buffers then hold. */
  datatype Decoded = Decoded(result: Result<Tuple, JavaException>, next: nat, header: Header)

  /** The four header reads of `decodeTuple`, from offset `pos` into buffers `h`. */
  function ReadHeader(data: seq<byte>, pos: nat, h: Header): (r: (Header, nat))
    requires h.Valid()
    ensures r.0.Valid() && r.1 >= pos
    ensures pos < |data| ==> r.1 > pos
  {
    var (k, p1) := ReadInto(data, pos, h.keyLength);
    var (b, p2) := ReadInto(data, p1, h.boxLength);
    var (l, p3) := ReadInto(data, p2, h.dataLength);
    var (t, p4) := ReadInto(data, p3, h.timestamp);
    (Header(k, b, l, t), p4)
  }

  /** `new byte[n]` filled by one read from offset `pos`; a negative size fails. */
  function ReadArray(data: seq<byte>, pos: nat, n: int): (r: Result<(seq<byte>, nat), JavaException>)
    ensures r.Ok? ==> r.value.1 >= pos
  {
    if n < 0 then Err(NegativeArraySizeException) else Ok(ReadInto(data, pos, Zeros(n)))
  }

  /** The rest of `decodeTuple` once the header buffers `h` are filled: fresh
      arrays of the decoded lengths for key, box and payload, filled from
      offset `pos`. A negative length fails when its array is allocated. */
  function DecodeBody(data: seq<byte>, pos: nat, h: Header): (d: Decoded)
    requires h.Valid()
    ensures d.header == h && d.next >= pos
  {
    match ReadArray(data, pos, Signed(h.keyLength))
    case Err(e) => Decoded(Err(e), pos, h)
    case Ok((key, p1)) =>
      match ReadArray(data, p1, Signed(h.boxLength))
      case Err(e) => Decoded(Err(e), p1, h)
      case Ok((box, p2)) =>
        match ReadArray(data, p2, Signed(h.dataLength))
        case Err(e) => Decoded(Err(e), p2, h)
        case Ok((payload, p3)) => Decoded(Ok(Tuple(key, box, payload, Signed(h.timestamp))), p3, h)
  }

  /** `decodeTuple` on the bytes `data` from offset `pos`, with header buffers `h`. */
  function DecodeAt(data: seq<byte>, pos: nat, h: Header): (d: Decoded)
    requires h.Valid()
    ensures d.header.Valid() && d.next >= pos
    ensures pos < |data| ==> d.next > pos
  {
    var (h', p) := ReadHeader(data, pos, h);
    DecodeBody(data, p, h')
  }

  /** What a lookup returns, where the stream then stands, and the header buffers. */
  datatype Scanned = Scanned(result: Result<Option<Tuple>, JavaException>, next: nat, header: Header)

  /** The loop of `scanForTuple` from offset `pos`: decode records while bytes
      remain, stop with nothing at the first key above `key`, stop with the
      record at the first key equal to it. */
  function ScanFrom(data: seq<byte>, pos: nat, h: Header, key: Key): (s: Scanned)
    requires h.Valid()
    decreases |data| - pos
  {
    if pos >= |data| then Scanned(Ok(None), pos, h)
    else
      var d := DecodeAt(data, pos, h);
      if d.result.Err? then Scanned(Err(d.result.error), d.next, d.header)
      else if CompareKeys(d.result.value.key, key) > 0 then Scanned(Ok(None), d.next, d.header)
      else if d.result.value.key == key then Scanned(Ok(Some(d.result.value)), d.next, d.header)
      else ScanFrom(data, d.next, d.header, key)
  }

  /** The signature check: the first bytes, read into a zeroed buffer of the
      signature's length, equal the signature. */
  predicate MagicMatches(data: seq<byte>)
  {
    ReadInto(data, 0, Zeros(|MAGIC_BYTES|)).0 == MAGIC_BYTES
  }

  /** `extractSequenceFromFilename` of the reader: remove the table prefix and
      the data suffix (the index suffix is kept), then parse. */
  function SequenceFromFilename(name: string, filename: string): (r: Result<int, JavaException>)
    ensures r.Ok? ==> IsInt32(r.value)
    ensures r.Err? ==> r.error == StorageManagerException
  {
    var sequence := ReplaceAll(ReplaceAll(filename, SSTableHelper.SST_FILE_PREFIX + name + "_", ""),
                               SSTableHelper.SST_FILE_SUFFIX, "");
    match ParseInt(sequence)
    case Ok(v) => Ok(v)
    case Err(_) => Err(StorageManagerException)
  }

  class SSTableReader {
    const tablebumber: int
    const name: string
    const directory: string
    /** The file's path; its bytes, or `None` when there is no such file. */
    const file: string
    const contents: Option<seq<byte>>

    /** Whether `fileInputStream` (and with it `reader`) has been created. */
    var streamOpen: bool
    /** The offset in the file at which the next read starts. */
    var position: nat

    const keyLengthBytes: array<byte>
    const boxLengthBytes: array<byte>
    const dataLengthBytes: array<byte>
    const timestampBytes: array<byte>

    ghost predicate Valid()
      reads this
    {
      keyLengthBytes.Length == SHORT_BYTES && boxLengthBytes.Length == INT_BYTES &&
      dataLengthBytes.Length == INT_BYTES && timestampBytes.Length == LONG_BYTES &&
      boxLengthBytes != dataLengthBytes &&
      (streamOpen ==> contents.Some?)
    }

    function HeaderNow(): (h: Header)
      reads this, keyLengthBytes, boxLengthBytes, dataLengthBytes, timestampBytes
      requires Valid()
      ensures h.Valid()
    {
      Header(keyLengthBytes[..], boxLengthBytes[..], dataLengthBytes[..], timestampBytes[..])
    }

    function Data(): seq<byte>
      reads this
      requires Valid() && streamOpen
    {
      contents.value
    }

    /** `isReady`: the stream has been created. */
    predicate IsReady()
      reads this
    {
      streamOpen
    }

    constructor (name: string, directory: string, file: string, contents: Option<seq<byte>>, tablebumber: int)
      ensures Valid() && !streamOpen
      ensures this.name == name && this.directory == directory && this.file == file
      ensures this.contents == contents && this.tablebumber == tablebumber
      ensures fresh(keyLengthBytes) && fresh(boxLengthBytes) && fresh(dataLengthBytes) && fresh(timestampBytes)
    {
      this.name := name;
      this.directory := directory;
      this.file := file;
      this.contents := contents;
      this.tablebumber := tablebumber;
      streamOpen := false;
      position := 0;
      keyLengthBytes := new byte[SHORT_BYTES](_ => 0);
      boxLengthBytes := new byte[INT_BYTES](_ => 0);
      dataLengthBytes := new byte[INT_BYTES](_ => 0);
      timestampBytes := new byte[LONG_BYTES](_ => 0);
    }

    /** The constructor of the source: the table number is parsed from the file
        name, and a name that does not parse makes construction fail. */
    static method Open(name: string, directory: string, file: string, contents: Option<seq<byte>>)
      returns (r: Result<SSTableReader, JavaException>)
      ensures r.Err? <==> SequenceFromFilename(name, LastSegment(file)).Err?
      ensures r.Err? ==> r.error == StorageManagerException
      ensures r.Ok? ==> fresh(r.value) && r.value.Valid() && !r.value.streamOpen &&
                        r.value.tablebumber == SequenceFromFilename(name, LastSegment(file)).value &&
                        r.value.name == name && r.value.file == file && r.value.contents == contents
    {
      var n := SequenceFromFilename(name, LastSegment(file));
      if n.Err? {
        return Err(n.error);
      }
      var reader := new SSTableReader(name, directory, file, contents, n.value);
      return Ok(reader);
    }

    /** `reader.read(buf, 0, buf.length)`. */
    method Read(buf: array<byte>)
      requires Valid() && streamOpen
      modifies this`position, buf
      ensures (buf[..], position) == ReadInto(Data(), old(position), old(buf[..]))
    {
      var data := Data();
      if position > |data| {
        return;
      }
      var start := position;
      var k := Min(buf.Length, |data| - start);
      ghost var before := buf[..];
      for i := 0 to k
        invariant forall m :: 0 <= m < i ==> buf[m] == data[start + m]
        invariant forall m :: i <= m < buf.Length ==> buf[m] == before[m]
      {
        buf[i] := data[start + i];
      }
      position := start + k;
      if start + buf.Length <= |data| {
        assert buf[..] == data[start..start + buf.Length];
      } else {
        assert buf[..] == data[start..] + before[|data| - start..];
      }
    }

    /** The four header reads of `decodeTuple`. */
    method ReadHeaderFields()
      requires Valid() && streamOpen
      modifies this`position, keyLengthBytes, boxLengthBytes, dataLengthBytes, timestampBytes
      ensures Valid()
      ensures (HeaderNow(), position) == ReadHeader(Data(), old(position), old(HeaderNow()))
    {
      Read(keyLengthBytes);
      Read(boxLengthBytes);
      Read(dataLengthBytes);
      Read(timestampBytes);
    }

    /** `new byte[n]` filled by one read; a negative size fails. */
    method ReadFresh(n: int) returns (r: Result<seq<byte>, JavaException>)
      requires Valid() && streamOpen
      modifies this`position
      ensures n < 0 ==> r == Err(NegativeArraySizeException) && position == old(position)
      ensures n >= 0 ==> (r.Ok? && (r.value, position) == ReadInto(Data(), old(position), Zeros(n)))
    {
      if n < 0 {
        return Err(NegativeArraySizeException);
      }
      var bytes := new byte[n](_ => 0);
      assert bytes[..] == Zeros(n);
      Read(bytes);
      return Ok(bytes[..]);
    }

    /** `decodeTuple`: the four header fields into the reused buffers, then
        fresh arrays of the decoded lengths for key, box and payload. */
    method DecodeTuple() returns (r: Result<Tuple, JavaException>)
      requires Valid() && streamOpen
      modifies this`position, keyLengthBytes, boxLengthBytes, dataLengthBytes, timestampBytes
      ensures Valid()
      ensures var d := DecodeAt(Data(), old(position), old(HeaderNow()));
              r == d.result && position == d.next && HeaderNow() == d.header
    {
      ReadHeaderFields();
      ghost var h := HeaderNow();
      ghost var p := position;
      var keyLength := Signed(keyLengthBytes[..]);
      var boxLength := Signed(boxLengthBytes[..]);
      var dataLength := Signed(dataLengthBytes[..]);
      var timestamp := Signed(timestampBytes[..]);
      var keyBytes := ReadFresh(keyLength);
      if keyBytes.Err? {
        return Err(keyBytes.error);
      }
      var boxBytes := ReadFresh(boxLength);
      if boxBytes.Err? {
        return Err(boxBytes.error);
      }
      var dataBytes := ReadFresh(dataLength);
      if dataBytes.Err? {
        return Err(dataBytes.error);
      }
      r := Ok(Tuple(keyBytes.value, boxBytes.value, dataBytes.value, timestamp));
    }

    /** `scanForTuple`: reposition at the first record, then decode while bytes
        remain. Without an opened stream the call fails on the missing stream. */
    method ScanForTuple(key: Key) returns (r: Result<Option<Tuple>, JavaException>)
      requires Valid()
      modifies this`position, keyLengthBytes, boxLengthBytes, dataLengthBytes, timestampBytes
      ensures Valid()
      ensures !streamOpen ==> r == Err(NullPointerException) && position == old(position) &&
                              HeaderNow() == old(HeaderNow())
      ensures streamOpen ==> var s := ScanFrom(Data(), |MAGIC_BYTES|, old(HeaderNow()), key);
                             r == s.result && position == s.next && HeaderNow() == s.header
    {
      if !streamOpen {
        return Err(NullPointerException);
      }
      ghost var h0 := HeaderNow();
      position := |MAGIC_BYTES|;
      while position < |Data()|
        invariant Valid()
        invariant ScanFrom(Data(), |MAGIC_BYTES|, h0, key) == ScanFrom(Data(), position, HeaderNow(), key)
        decreases |Data()| - position
      {
        var t := DecodeTuple();
        if t.Err? {
          return Err(t.error);
        }
        if CompareKeys(t.value.key, key) > 0 {
          return Ok(None);
        }
        if t.value.key == key {
          return Ok(Some(t.value));
        }
      }
      return Ok(None);
    }

    /** `getTupleAtPosition`: decode one record at byte offset `p`. A negative
        offset is refused by the channel. */
    method GetTupleAtPosition(p: int) returns (r: Result<Tuple, JavaException>)
      requires Valid()
      modifies this`position, keyLengthBytes, boxLengthBytes, dataLengthBytes, timestampBytes
      ensures Valid()
      ensures !streamOpen ==> r == Err(NullPointerException) && position == old(position)
      ensures streamOpen && p < 0 ==> r == Err(IllegalArgumentException) && position == old(position)
      ensures streamOpen && p >= 0 ==> var d := DecodeAt(Data(), p, old(HeaderNow()));
                                       r == d.result && position == d.next && HeaderNow() == d.header
    {
      if !streamOpen {
        return Err(NullPointerException);
      }
      if p < 0 {
        return Err(IllegalArgumentException);
      }
      position := p;
      r := DecodeTuple();
    }

    /** `openAndValidateFile`: open the stream at the start of the file and
        compare the first bytes with the signature. A missing file fails before
        anything is opened; a wrong signature fails with the stream left open. */
    method OpenAndValidateFile() returns (r: Result<(), JavaException>)
      requires Valid()
      modifies this`streamOpen, this`position
      ensures Valid()
      ensures contents.None? ==> r == Err(StorageManagerException) &&
                                 streamOpen == old(streamOpen) && position == old(position)
      ensures contents.Some? ==> streamOpen &&
                                 position == Min(|MAGIC_BYTES|, |contents.value|) &&
                                 (r.Ok? <==> MagicMatches(contents.value)) &&
                                 (r.Err? ==> r.error == StorageManagerException)
    {
      if contents.None? {
        return Err(StorageManagerException);
      }
      streamOpen := true;
      position := 0;
      var magicBytes := new byte[|MAGIC_BYTES|](_ => 0);
      Read(magicBytes);
      if magicBytes[..] != MAGIC_BYTES {
        return Err(StorageManagerException);
      }
      return Ok(());
    }

    /** `init`: open and validate, swallowing the failure. */
    method Init()
      requires Valid()
      modifies this`streamOpen, this`position
      ensures Valid()
      ensures contents.Some? ==> streamOpen && position == Min(|MAGIC_BYTES|, |contents.value|)
      ensures contents.None? ==> streamOpen == old(streamOpen) && position == old(position)
    {
      var _ := OpenAndValidateFile();
    }
  }

  /** A record as the table writer lays it out. */
  function EncodeRecord(t: Tuple): (bs: seq<byte>)
    requires t.Tuple?
    ensures |bs| == 18 + |t.key| + |t.box| + |t.data|
  {
    HeaderBytes(HeaderOf(t)) + t.key + t.box + t.data
  }

  /** The four header fields one after the other. */
  function HeaderBytes(h: Header): (bs: seq<byte>)
    requires h.Valid()
    ensures |bs| == 18
  {
    h.keyLength + h.boxLength + h.dataLength + h.timestamp
  }

  /** A value tuple whose lengths fit their fields and whose timestamp fits a `long`. */
  predicate Encodable(t: Tuple)
  {
    t.Tuple? && 2 * |t.key| < Pow256(SHORT_BYTES) && 2 * |t.box| < Pow256(INT_BYTES) &&
    2 * |t.data| < Pow256(INT_BYTES) && InSignedRange(t.timestamp, LONG_BYTES)
  }

  function HeaderOf(t: Tuple): (h: Header)
    requires t.Tuple?
    ensures h.Valid()
  {
    Header(LowBytes(|t.key|, SHORT_BYTES), LowBytes(|t.box|, INT_BYTES),
           LowBytes(|t.data|, INT_BYTES), LowBytes(t.timestamp, LONG_BYTES))
  }

  /** The records of `ts` one after the other. */
  function Records(ts: seq<Tuple>): (bs: seq<byte>)
    requires forall t :: t in ts ==> Encodable(t)
  {
    if ts == [] then [] else assert ts[0] in ts && Encodable(ts[0]); EncodeRecord(ts[0]) + Records(ts[1..])
  }

  predicate AscendingKeys(ts: seq<Tuple>)
  {
    forall i, j :: 0 <= i < j < |ts| ==> KeyLess(ts[i].key, ts[j].key)
  }

  /** The first tuple of `ts` with key `key`. */
  function Lookup(ts: seq<Tuple>, key: Key): (r: Option<Tuple>)
    ensures r.Some? ==> r.value in ts && r.value.key == key
    ensures r.None? ==> forall t :: t in ts ==> t.key != key
  {
    if ts == [] then None else if ts[0].key == key then Some(ts[0]) else Lookup(ts[1..], key)
  }

  lemma ReadIntoFits(data: seq<byte>, pos: nat, buf: seq<byte>, piece: seq<byte>)
    requires |piece| == |buf| && pos + |piece| <= |data| && data[pos..pos + |piece|] == piece
    ensures ReadInto(data, pos, buf) == (piece, pos + |piece|)
  {
  }

  /** Decoding an encoded record reads it back whole, consuming exactly
      18 bytes plus the key, box and payload lengths, whatever the header
      buffers held before. */
  lemma DecodeEncoded(data: seq<byte>, pos: nat, h: Header, t: Tuple)
    requires h.Valid() && Encodable(t)
    requires pos + |EncodeRecord(t)| <= |data| && data[pos..pos + |EncodeRecord(t)|] == EncodeRecord(t)
    ensures DecodeAt(data, pos, h) == Decoded(Ok(t), pos + |EncodeRecord(t)|, HeaderOf(t))
  {
    HeaderOfEncoded(data, pos, h, t);
    BodyOfEncoded(data, pos, t);
  }

  lemma HeaderOfEncoded(data: seq<byte>, pos: nat, h: Header, t: Tuple)
    requires h.Valid() && Encodable(t)
    requires pos + |EncodeRecord(t)| <= |data| && data[pos..pos + |EncodeRecord(t)|] == EncodeRecord(t)
    ensures ReadHeader(data, pos, h) == (HeaderOf(t), pos + 18)
  {
    var e := EncodeRecord(t);
    var hd := HeaderOf(t);
    assert e[..18] == HeaderBytes(hd);
    SliceOfSlice(data, pos, e, 0, 18);
    ReadHeaderBack(data, pos, h, hd);
  }

  /** Header bytes in the file are read back into the header buffers. */
  lemma ReadHeaderBack(data: seq<byte>, pos: nat, h: Header, h2: Header)
    requires h.Valid() && h2.Valid()
    requires pos + 18 <= |data| && data[pos..pos + 18] == HeaderBytes(h2)
    ensures ReadHeader(data, pos, h) == (h2, pos + 18)
  {
    var hb := HeaderBytes(h2);
    var front := h2.keyLength + h2.boxLength + h2.dataLength;
    assert hb == front + h2.timestamp;
    assert hb[10..18] == h2.timestamp;
    assert hb[..10] == front;
    assert hb[0..2] == h2.keyLength;
    assert hb[2..6] == h2.boxLength;
    assert hb[6..10] == h2.dataLength;
    SliceOfSlice(data, pos, hb, 0, 2);
    SliceOfSlice(data, pos, hb, 2, 6);
    SliceOfSlice(data, pos, hb, 6, 10);
    SliceOfSlice(data, pos, hb, 10, 18);
  }

  lemma SignedHeader(t: Tuple)
    requires Encodable(t)
    ensures var hd := HeaderOf(t);
            Signed(hd.keyLength) == |t.key| && Signed(hd.boxLength) == |t.box| &&
            Signed(hd.dataLength) == |t.data| && Signed(hd.timestamp) == t.timestamp
  {
    SignedOfLowBytes(|t.key|, SHORT_BYTES);
    SignedOfLowBytes(|t.box|, INT_BYTES);
    SignedOfLowBytes(|t.data|, INT_BYTES);
    SignedOfLowBytes(t.timestamp, LONG_BYTES);
  }

  /** Where the key, box and payload lie in a record: `i1` and `i2` are
      the offsets after the key and after the box. */
  lemma RecordPieces(t: Tuple, i1: nat, i2: nat)
    requires t.Tuple? && i1 == 18 + |t.key| && i2 == i1 + |t.box|
    ensures var e := EncodeRecord(t);
            e[18..i1] == t.key && e[i1..i2] == t.box && e[i2..|e|] == t.data
  {
    var e := EncodeRecord(t);
    var hb := HeaderBytes(HeaderOf(t));
    assert e == hb + t.key + t.box + t.data;
  }

  lemma BodyOfEncoded(data: seq<byte>, pos: nat, t: Tuple)
    requires Encodable(t)
    requires pos + |EncodeRecord(t)| <= |data| && data[pos..pos + |EncodeRecord(t)|] == EncodeRecord(t)
    ensures DecodeBody(data, pos + 18, HeaderOf(t)) == Decoded(Ok(t), pos + |EncodeRecord(t)|, HeaderOf(t))
  {
    var p1 := pos + 18 + |t.key|;
    var p2 := p1 + |t.box|;
    var p3 := p2 + |t.data|;
    SignedHeader(t);
    PiecesRead(data, pos, t, p1, p2, p3);
    DecodeBodyOk(data, pos + 18, HeaderOf(t), t.key, t.box, t.data, p1, p2, p3);
  }

  /** The key, box and payload of a record in the file are read back one
      after the other by buffers of their sizes. */
  lemma PiecesRead(data: seq<byte>, pos: nat, t: Tuple, p1: nat, p2: nat, p3: nat)
    requires t.Tuple?
    requires pos + |EncodeRecord(t)| <= |data| && data[pos..pos + |EncodeRecord(t)|] == EncodeRecord(t)
    requires p1 == pos + 18 + |t.key| && p2 == p1 + |t.box| && p3 == p2 + |t.data|
    ensures ReadInto(data, pos + 18, Zeros(|t.key|)) == (t.key, p1)
    ensures ReadInto(data, p1, Zeros(|t.box|)) == (t.box, p2)
    ensures ReadInto(data, p2, Zeros(|t.data|)) == (t.data, p3)
  {
    var e := EncodeRecord(t);
    var i1 := 18 + |t.key|;
    var i2 := i1 + |t.box|;
    RecordPieces(t, i1, i2);
    PieceOfRecord(data, pos, e, 18, i1, t.key, pos + 18, p1);
    PieceOfRecord(data, pos, e, i1, i2, t.box, p1, p2);
    PieceOfRecord(data, pos, e, i2, |e|, t.data, p2, p3);
  }

  /** The body decodes when each of its three arrays is read in full. */
  lemma DecodeBodyOk(data: seq<byte>, pos: nat, h: Header, key: seq<byte>, box: seq<byte>, payload: seq<byte>,
                     p1: nat, p2: nat, p3: nat)
    requires h.Valid()
    requires Signed(h.keyLength) == |key| && Signed(h.boxLength) == |box| && Signed(h.dataLength) == |payload|
    requires ReadInto(data, pos, Zeros(|key|)) == (key, p1)
    requires ReadInto(data, p1, Zeros(|box|)) == (box, p2)
    requires ReadInto(data, p2, Zeros(|payload|)) == (payload, p3)
    ensures DecodeBody(data, pos, h) == Decoded(Ok(Tuple(key, box, payload, Signed(h.timestamp))), p3, h)
  {
  }

  /** A piece of a record in the file is read back by a buffer of its size. */
  lemma PieceOfRecord(data: seq<byte>, pos: nat, e: seq<byte>, i: nat, j: nat, piece: seq<byte>, start: nat, end: nat)
    requires pos + |e| <= |data| && data[pos..pos + |e|] == e
    requires i <= j <= |e| && e[i..j] == piece && start == pos + i && end == pos + j
    ensures ReadInto(data, start, Zeros(|piece|)) == (piece, end)
  {
    SliceOfSlice(data, pos, e, i, j);
  }

  lemma SliceOfSlice(data: seq<byte>, pos: nat, e: seq<byte>, i: nat, j: nat)
    requires pos + |e| <= |data| && data[pos..pos + |e|] == e && i <= j <= |e|
    ensures data[pos + i..pos + j] == e[i..j]
  {
    forall k | 0 <= k < j - i
      ensures data[pos + i..pos + j][k] == e[i..j][k]
    {
      assert e[i + k] == data[pos..pos + |e|][i + k];
    }
  }

  /** A file of ascending records: a lookup finds the record with the key, or
      nothing when there is none. The bytes after the file's records matter
      only when every key is below the one searched for; in particular the
      scan decodes nothing past the first record whose key is not below it. */
  lemma {:induction false} ScanSorted(data: seq<byte>, pos: nat, ts: seq<Tuple>, tail: seq<byte>, h: Header, key: Key)
    requires h.Valid() && AscendingKeys(ts)
    requires forall t :: t in ts ==> Encodable(t)
    requires pos <= |data| && data[pos..] == Records(ts) + tail
    requires tail == [] || exists i :: 0 <= i < |ts| && !KeyLess(ts[i].key, key)
    ensures ScanFrom(data, pos, h, key).result == Ok(Lookup(ts, key))
    decreases |ts|
  {
    if ts != [] {
      var t, rest := ts[0], ts[1..];
      assert t in ts;
      var next := pos + |EncodeRecord(t)|;
      SplitRecords(data, pos, ts, tail, t, next);
      ScanFirst(data, pos, h, key, t, next);
      if CompareKeys(t.key, key) > 0 {
        CompareKeysAntisymmetric(t.key, key);
        AboveFirstMissing(ts, key);
      } else if t.key != key {
        RestSorted(ts, tail, key);
        ScanSorted(data, next, rest, tail, HeaderOf(t), key);
      }
    }
  }

  /** Past a first record whose key is below `key`, the rest of the
      records are still ascending, the lookup goes on in them, and one of
      them is not below `key` when bytes follow the records. */
  lemma RestSorted(ts: seq<Tuple>, tail: seq<byte>, key: Key)
    requires ts != [] && AscendingKeys(ts) && CompareKeys(ts[0].key, key) <= 0 && ts[0].key != key
    requires tail == [] || exists i :: 0 <= i < |ts| && !KeyLess(ts[i].key, key)
    ensures AscendingKeys(ts[1..]) && Lookup(ts, key) == Lookup(ts[1..], key)
    ensures tail == [] || exists i :: 0 <= i < |ts[1..]| && !KeyLess(ts[1..][i].key, key)
  {
    var rest := ts[1..];
    AscendingRest(ts);
    if tail != [] {
      var i :| 0 <= i < |ts| && !KeyLess(ts[i].key, key);
      assert i != 0 && rest[i - 1] == ts[i];
    }
  }

  /** One round of the scan over an encoded record: it is decoded and
      compared, and the scan goes on after it. */
  lemma ScanFirst(data: seq<byte>, pos: nat, h: Header, key: Key, t: Tuple, next: nat)
    requires h.Valid() && Encodable(t) && next == pos + |EncodeRecord(t)|
    requires next <= |data| && data[pos..next] == EncodeRecord(t)
    ensures ScanFrom(data, pos, h, key) ==
            if CompareKeys(t.key, key) > 0 then Scanned(Ok(None), next, HeaderOf(t))
            else if t.key == key then Scanned(Ok(Some(t)), next, HeaderOf(t))
            else ScanFrom(data, next, HeaderOf(t), key)
  {
    DecodeEncoded(data, pos, h, t);
    ScanStep(data, pos, h, key, t, next, HeaderOf(t));
  }

  /** The first record of the remaining bytes, and what follows it. */
  lemma SplitRecords(data: seq<byte>, pos: nat, ts: seq<Tuple>, tail: seq<byte>, t: Tuple, next: nat)
    requires ts != [] && forall t :: t in ts ==> Encodable(t)
    requires t == ts[0] && Encodable(t) && next == pos + |EncodeRecord(t)|
    requires pos <= |data| && data[pos..] == Records(ts) + tail
    ensures next <= |data| && data[pos..next] == EncodeRecord(t) && data[next..] == Records(ts[1..]) + tail
  {
    RecordsFirst(ts);
    SplitFront(data, pos, EncodeRecord(t), Records(ts[1..]), tail, next);
  }

  lemma RecordsFirst(ts: seq<Tuple>)
    requires ts != [] && forall t :: t in ts ==> Encodable(t)
    ensures Encodable(ts[0]) && Records(ts) == EncodeRecord(ts[0]) + Records(ts[1..])
  {
    assert ts[0] in ts;
  }

  /** One round of the scan once a record has been decoded. */
  lemma ScanStep(data: seq<byte>, pos: nat, h: Header, key: Key, t: Tuple, next: nat, h': Header)
    requires h.Valid() && pos < |data| && DecodeAt(data, pos, h) == Decoded(Ok(t), next, h')
    ensures ScanFrom(data, pos, h, key) ==
            if CompareKeys(t.key, key) > 0 then Scanned(Ok(None), next, h')
            else if t.key == key then Scanned(Ok(Some(t)), next, h')
            else ScanFrom(data, next, h', key)
  {
  }

  lemma AscendingRest(ts: seq<Tuple>)
    requires ts != [] && AscendingKeys(ts)
    ensures AscendingKeys(ts[1..])
  {
    var rest := ts[1..];
    forall i, j | 0 <= i < j < |rest| ensures KeyLess(rest[i].key, rest[j].key) {
      assert rest[i] == ts[i + 1] && rest[j] == ts[j + 1];
    }
  }

  /** In ascending records, a key below the first one is nowhere. */
  lemma AboveFirstMissing(ts: seq<Tuple>, key: Key)
    requires ts != [] && AscendingKeys(ts) && KeyLess(key, ts[0].key)
    ensures Lookup(ts, key) == None
  {
    forall u | u in ts ensures u.key != key {
      var j :| 0 <= j < |ts| && ts[j] == u;
      if j > 0 {
        KeyLessTransitive(key, ts[0].key, u.key);
      }
    }
  }

  /** A lookup in a well-formed table file: the signature, then ascending records. */
  lemma LookupInTableFile(ts: seq<Tuple>, h: Header, key: Key)
    requires h.Valid() && AscendingKeys(ts)
    requires forall t :: t in ts ==> Encodable(t)
    ensures ScanFrom(MAGIC_BYTES + Records(ts), |MAGIC_BYTES|, h, key).result == Ok(Lookup(ts, key))
  {
    var data := MAGIC_BYTES + Records(ts);
    assert data[|MAGIC_BYTES|..] == Records(ts) + [];
    ScanSorted(data, |MAGIC_BYTES|, ts, [], h, key);
  }

  /** A file that starts with the signature passes the check; a file that
      passes and is long enough starts with the signature. */
  lemma MagicCheck(data: seq<byte>)
    ensures |data| >= |MAGIC_BYTES| ==> (MagicMatches(data) <==> data[..|MAGIC_BYTES|] == MAGIC_BYTES)
  {
  }

  /** The reader parses the table number back out of the data file's name. */
  lemma SequenceFromDataFilename(directory: string, name: string, n: int)
    requires IsInt32(n) && '/' !in name
    ensures SequenceFromFilename(name, LastSegment(SSTableHelper.SSTableFilename(directory, name, n))) == Ok(n)
  {
    var digits := IntToString(n);
    SSTableHelper.NumberChars(n);
    SSTableHelper.LastSegmentIsLocalName(directory, name, n, SSTableHelper.SST_FILE_SUFFIX);
    SSTableHelper.StripPrefix(name, n, SSTableHelper.SST_FILE_SUFFIX);
    var s1 := digits + SSTableHelper.SST_FILE_SUFFIX;
    ReplaceSkipsPrefix(digits, SSTableHelper.SST_FILE_SUFFIX, SSTableHelper.SST_FILE_SUFFIX, "");
    ReplaceWhole(SSTableHelper.SST_FILE_SUFFIX, "");
    assert ReplaceAll(s1, SSTableHelper.SST_FILE_SUFFIX, "") == digits;
    ParseIntToString(n);
  }

  /** Unlike the helper's version, the reader's parse refuses an index file's name. */
  lemma SequenceFromIndexFilenameFails(directory: string, name: string, n: int)
    requires '/' !in name
    ensures SequenceFromFilename(name, LastSegment(SSTableHelper.SSTableIndexFilename(directory, name, n)))
            == Err(StorageManagerException)
  {
    var digits := IntToString(n);
    var idx := SSTableHelper.SST_INDEX_SUFFIX;
    SSTableHelper.NumberChars(n);
    SSTableHelper.LastSegmentIsLocalName(directory, name, n, idx);
    SSTableHelper.StripPrefix(name, n, idx);
    var s1 := digits + idx;
    ReplaceSkipsPrefix(digits, idx, SSTableHelper.SST_FILE_SUFFIX, "");
    ReplaceAbsent(idx, SSTableHelper.SST_FILE_SUFFIX, "", 's');
    assert ReplaceAll(s1, SSTableHelper.SST_FILE_SUFFIX, "") == s1;
    ParseIntNeedsFinalDigit(s1);
  }
}
