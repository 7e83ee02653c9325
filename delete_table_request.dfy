/** The request to delete a table (`DeleteTableRequest`), sent after the
    common request header. The body is a 4-byte body length, a 2-byte table
    name length and the table name, in the application's big-endian byte
    order. */
module DeleteTableRequests {
  import opened Wrappers
  import opened Bytes

  /** The package type of this request. Its value is not part of this model. */
  const REQUEST_TYPE_DELETE_TABLE: byte

  /** The table name is kept as its bytes; `None` is a `null` name, which
      only a caller can build: decoding always yields a name. */
  datatype DeleteTableRequest = DeleteTableRequest(table: Option<seq<byte>>)

  /** The common request header, which the package encoder and decoder own:
      `write(sequenceNumber, packageType)` is what
      `getOutputStreamForRequestPackage` has written when it hands over the
      stream, and `validate(data, packageType)` is
      `validateRequestPackageHeader` on a buffer wrapping `data`: whether the
      header is valid, and the offset after the header and the body length
      it reads. */
  datatype HeaderCodec = HeaderCodec(
    write: (Short, byte) -> seq<byte>,
    validate: (seq<byte>, byte) -> (bool, nat))

  /** The body of a request for table bytes `t`: the body length, the
      length of `t` narrowed to a `short`, then `t`. */
  function Body(t: seq<byte>): (bs: seq<byte>)
    ensures |bs| == INT_BYTES + SHORT_BYTES + |t|
  {
    LowBytes(SHORT_BYTES + |t|, INT_BYTES) + LowBytes(|t|, SHORT_BYTES) + t
  }

  /** `getByteArray`: the header, then the body. A `null` name fails when
      its bytes are taken. */
  function Encode(req: DeleteTableRequest, sequenceNumber: Short, codec: HeaderCodec): (r: Result<seq<byte>, JavaException>)
    ensures req.table.None? <==> r == Err(NullPointerException)
    ensures r.Ok? ==> r.value == codec.write(sequenceNumber, REQUEST_TYPE_DELETE_TABLE) + Body(req.table.value)
  {
    match req.table
    case None => Err(NullPointerException)
    case Some(t) => Ok(codec.write(sequenceNumber, REQUEST_TYPE_DELETE_TABLE) + Body(t))
  }

  /** `decodeTuple` on the bytes `data`. The header's validity is not
      checked and bytes after the name are ignored, so the only failures are
      a negative length in the allocation and too few bytes. */
  function Decode(data: seq<byte>, codec: HeaderCodec): (r: Result<DeleteTableRequest, JavaException>)
    ensures r.Err? ==> r.error == BufferUnderflowException || r.error == NegativeArraySizeException
    ensures r.Ok? ==>
              var pos := codec.validate(data, REQUEST_TYPE_DELETE_TABLE).1;
              r.value.table.Some? &&
              var t := r.value.table.value;
              pos + SHORT_BYTES + |t| <= |data| &&
              Signed(data[pos..pos + SHORT_BYTES]) == |t| &&
              data[pos + SHORT_BYTES..pos + SHORT_BYTES + |t|] == t
  {
    var pos := codec.validate(data, REQUEST_TYPE_DELETE_TABLE).1;
    if pos + SHORT_BYTES > |data| then Err(BufferUnderflowException)
    else
      var table :- GetAt(data, pos + SHORT_BYTES, Signed(data[pos..pos + SHORT_BYTES]));
      Ok(DeleteTableRequest(Some(table.0)))
  }

  /** The header decoder skips exactly what the header encoder wrote, and
      the body length after it. */
  predicate HeaderSkipped(codec: HeaderCodec, sequenceNumber: Short, rest: seq<byte>)
  {
    var header := codec.write(sequenceNumber, REQUEST_TYPE_DELETE_TABLE);
    codec.validate(header + rest, REQUEST_TYPE_DELETE_TABLE).1 == |header| + INT_BYTES
  }

  /** Round trip: decoding an encoded request gives its table name back for
      a name shorter than 32768 bytes, whatever bytes follow. */
  lemma DecodeEncoded(t: seq<byte>, sequenceNumber: Short, codec: HeaderCodec, extra: seq<byte>)
    requires |t| < 0x8000
    requires HeaderSkipped(codec, sequenceNumber, Body(t) + extra)
    ensures Encode(DeleteTableRequest(Some(t)), sequenceNumber, codec).Ok?
    ensures Decode(Encode(DeleteTableRequest(Some(t)), sequenceNumber, codec).value + extra, codec)
         == Ok(DeleteTableRequest(Some(t)))
  {
    var header := codec.write(sequenceNumber, REQUEST_TYPE_DELETE_TABLE);
    Assoc(header, Body(t), extra);
    Layout(t, sequenceNumber, codec, extra);
    ShortLength(|t|);
    DecodeName(header + Body(t) + extra, |header| + INT_BYTES, t, codec);
  }

  /** A name shorter than 32768 bytes has its length read back as a `short`. */
  lemma ShortLength(n: nat)
    requires n < 0x8000
    ensures Signed(LowBytes(n, SHORT_BYTES)) == n
  {
    Pow256Values();
    SignedOfLowBytes(n, SHORT_BYTES);
  }

  /** A name stored with its length at the offset the header decoder
      reaches is read back. */
  lemma DecodeName(data: seq<byte>, pos: nat, t: seq<byte>, codec: HeaderCodec)
    requires codec.validate(data, REQUEST_TYPE_DELETE_TABLE).1 == pos
    requires pos + SHORT_BYTES + |t| <= |data| && Signed(data[pos..pos + SHORT_BYTES]) == |t|
    requires data[pos + SHORT_BYTES..pos + SHORT_BYTES + |t|] == t
    ensures Decode(data, codec) == Ok(DeleteTableRequest(Some(t)))
  {
  }

  /** Where the name length and the name lie in an encoded request followed
      by `extra`. */
  lemma Layout(t: seq<byte>, sequenceNumber: Short, codec: HeaderCodec, extra: seq<byte>)
    ensures var header := codec.write(sequenceNumber, REQUEST_TYPE_DELETE_TABLE);
            var data := header + Body(t) + extra;
            var pos := |header| + INT_BYTES;
            pos + SHORT_BYTES + |t| <= |data| &&
            data[pos..pos + SHORT_BYTES] == LowBytes(|t|, SHORT_BYTES) &&
            data[pos + SHORT_BYTES..pos + SHORT_BYTES + |t|] == t
  {
    var header := codec.write(sequenceNumber, REQUEST_TYPE_DELETE_TABLE);
    var len := LowBytes(|t|, SHORT_BYTES);
    var bodyLength := LowBytes(SHORT_BYTES + |t|, INT_BYTES);
    var data := header + Body(t) + extra;
    Assoc(header, Body(t), extra);
    Assoc(bodyLength + len, t, extra);
    Assoc(bodyLength, len, t + extra);
    Assoc(header, bodyLength, len + (t + extra));
    assert data == (header + bodyLength) + (len + (t + extra));
    SplitAt(data, 0, header + bodyLength, len + (t + extra));
    assert data[0..] == data;
    var pos := |header| + INT_BYTES;
    SplitAt(data, pos, len, t + extra);
    SplitAt(data, pos + SHORT_BYTES, t, extra);
  }

  /** A name of 32768 to 65535 bytes is announced with a negative length,
      so its request cannot be decoded. */
  lemma LongNameNotDecoded(t: seq<byte>, sequenceNumber: Short, codec: HeaderCodec)
    requires 0x8000 <= |t| < 0x1_0000
    requires HeaderSkipped(codec, sequenceNumber, Body(t))
    ensures Decode(Encode(DeleteTableRequest(Some(t)), sequenceNumber, codec).value, codec)
         == Err(NegativeArraySizeException)
  {
    var header := codec.write(sequenceNumber, REQUEST_TYPE_DELETE_TABLE);
    var len := LowBytes(|t|, SHORT_BYTES);
    var bodyLength := LowBytes(SHORT_BYTES + |t|, INT_BYTES);
    var data := header + Body(t);
    Assoc(bodyLength, len, t);
    Assoc(header, bodyLength, len + t);
    SplitAt(data, 0, header + bodyLength, len + t);
    assert data[0..] == data;
    SplitAt(data, |header| + INT_BYTES, len, t);
    Pow256Values();
    UnsignedOfLowBytes(|t|, SHORT_BYTES);
    ModUnique(|t|, 0x1_0000, 0, |t|);
  }

  /** `getByteArray` on a fresh output stream. */
  method GetByteArray(req: DeleteTableRequest, sequenceNumber: Short, codec: HeaderCodec)
    returns (r: Result<seq<byte>, JavaException>)
    ensures r == Encode(req, sequenceNumber, codec)
  {
    var bos := new OutputStream();
    var ok := bos.Write(codec.write(sequenceNumber, REQUEST_TYPE_DELETE_TABLE));
    assert bos.written == codec.write(sequenceNumber, REQUEST_TYPE_DELETE_TABLE);
    if req.table.None? {
      return Err(NullPointerException);
    }
    var tableBytes := req.table.value;
    var bb := LowBytes(|tableBytes|, SHORT_BYTES);
    var bodyLength := |bb| + |tableBytes|;
    ok := bos.Write(LowBytes(bodyLength, INT_BYTES));
    ok := bos.Write(bb);
    ok := bos.Write(tableBytes);
    ghost var header := codec.write(sequenceNumber, REQUEST_TYPE_DELETE_TABLE);
    assert bodyLength == SHORT_BYTES + |tableBytes|;
    assert Body(tableBytes) == LowBytes(bodyLength, INT_BYTES) + bb + tableBytes;
    Assoc(header + LowBytes(bodyLength, INT_BYTES), bb, tableBytes);
    Assoc(header, LowBytes(bodyLength, INT_BYTES), bb + tableBytes);
    Assoc(LowBytes(bodyLength, INT_BYTES), bb, tableBytes);
    assert bos.written == header + LowBytes(bodyLength, INT_BYTES) + bb + tableBytes;
    assert bos.written == header + Body(tableBytes);
    r := Ok(bos.written);
  }

  /** `decodeTuple` on a buffer wrapping `encodedPackage`. */
  method DecodeTuple(encodedPackage: seq<byte>, codec: HeaderCodec) returns (r: Result<DeleteTableRequest, JavaException>)
    ensures r == Decode(encodedPackage, codec)
  {
    var bb := new ByteBuffer.Wrap(encodedPackage);
    var header := codec.validate(encodedPackage, REQUEST_TYPE_DELETE_TABLE);
    if header.1 > |encodedPackage| {
      return Err(BufferUnderflowException);
    }
    bb.position := header.1;
    var tableLength :- bb.GetSigned(SHORT_BYTES);
    var tableBytes :- bb.GetBytes(tableLength);
    r := Ok(DeleteTableRequest(Some(tableBytes)));
  }

  /** `equals` against another request, or `null` (`None`). */
  function Equals(req: DeleteTableRequest, obj: Option<DeleteTableRequest>): (r: bool)
    ensures r <==> obj.Some? && obj.value.table == req.table
  {
    if obj.None? then false
    else if req.table.None? then obj.value.table.None?
    else obj.value.table.Some? && req.table.value == obj.value.table.value
  }

  /** `String.hashCode` of the name's characters, with Java's 32-bit
      wrap-around after every step. */
  function StringHash(s: seq<byte>): (h: int)
    ensures InSignedRange(h, INT_BYTES)
  {
    if s == [] then 0
    else
      var h := Narrow(31 * StringHash(s[..|s| - 1]) + s[|s| - 1], INT_BYTES);
      NarrowRange(31 * StringHash(s[..|s| - 1]) + s[|s| - 1], INT_BYTES);
      h
  }

  /** A narrowing cast lands in the target type's range. */
  lemma NarrowRange(v: int, n: nat)
    ensures InSignedRange(Narrow(v, n), n)
  {
    UnsignedBound(LowBytes(v, n));
  }

  /** `hashCode`: 31 plus the name's hash, or 31 for a `null` name, in 32-bit
      arithmetic. */
  function HashCode(req: DeleteTableRequest): (h: int)
    ensures InSignedRange(h, INT_BYTES)
  {
    var h := Narrow(31 * 1 + (if req.table.None? then 0 else StringHash(req.table.value)), INT_BYTES);
    NarrowRange(31 * 1 + (if req.table.None? then 0 else StringHash(req.table.value)), INT_BYTES);
    h
  }

  /** Equal requests have equal hash codes. */
  lemma HashCodeConsistent(a: DeleteTableRequest, b: DeleteTableRequest)
    requires Equals(a, Some(b))
    ensures HashCode(a) == HashCode(b)
  {
  }

  /** `equals` is an equivalence on requests. */
  lemma EqualsEquivalence(a: DeleteTableRequest, b: DeleteTableRequest, c: DeleteTableRequest)
    ensures Equals(a, Some(a))
    ensures Equals(a, Some(b)) <==> Equals(b, Some(a))
    ensures Equals(a, Some(b)) && Equals(b, Some(c)) ==> Equals(a, Some(c))
    ensures !Equals(a, None)
  {
  }
}
