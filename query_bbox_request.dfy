/** The bounding-box query request (`QueryBoundingBoxRequest`): a table, a
    query box and paging settings, sent after the common request header.
    The body is a 12-byte block
    `queryType:1 | paging:1 | tuplesPerPage:2 | tableLength:2 | unused:2 | boxLength:4`
    followed by the table name and the box, in the application's big-endian
    byte order. */
module QueryBoundingBoxRequests {
  import opened Wrappers
  import opened Bytes

  /** The package type of every query request, and the code of this query.
      Their values are not part of this model. */
  const REQUEST_TYPE_QUERY: byte
  const REQUEST_QUERY_BBOX: byte
  /** The filler of the two unused bytes. */
  const UNUSED_BYTE: byte

  const BLOCK_LENGTH: nat := 12

  /** The table is kept as its full name's bytes and the box as its byte
      encoding. */
  datatype QueryBoundingBoxRequest = QueryBoundingBoxRequest(
    sequenceNumber: Short,
    table: seq<byte>,
    box: seq<byte>,
    pagingEnabled: bool,
    tuplesPerPage: Short)

  /** The common request header, which the package encoder and decoder own:
      `write(sequenceNumber, bodyLength, packageType)` is what
      `appendRequestPackageHeader` writes for an unrouted package;
      `requestId(data)` is `getRequestIDFromRequestPackage`; and
      `validate(data, start, packageType)` is `validateRequestPackageHeader`
      reading from offset `start`: whether the header is valid, and the offset
      after it. */
  datatype HeaderCodec = HeaderCodec(
    write: (Short, int, byte) -> seq<byte>,
    requestId: seq<byte> -> Short,
    validate: (seq<byte>, nat, byte) -> (bool, nat))

  /** The 12-byte block at the start of the body. */
  function Block(req: QueryBoundingBoxRequest): (bs: seq<byte>)
    ensures |bs| == BLOCK_LENGTH
  {
    [REQUEST_QUERY_BBOX, if req.pagingEnabled then 1 else 0] +
    LowBytes(req.tuplesPerPage, SHORT_BYTES) +
    LowBytes(|req.table|, SHORT_BYTES) +
    [UNUSED_BYTE, UNUSED_BYTE] +
    LowBytes(|req.box|, INT_BYTES)
  }

  function Body(req: QueryBoundingBoxRequest): seq<byte>
  {
    Block(req) + req.table + req.box
  }

  /** The body length announced in the header. */
  function BodyLength(req: QueryBoundingBoxRequest): (n: nat)
    ensures n == |Body(req)|
  {
    BLOCK_LENGTH + |req.table| + |req.box|
  }

  /** Everything `writeToOutputStream` writes: the header, then the body. */
  function Encoded(req: QueryBoundingBoxRequest, codec: HeaderCodec): seq<byte>
  {
    codec.write(req.sequenceNumber, BodyLength(req), REQUEST_TYPE_QUERY) + Body(req)
  }

  /** `decodeTuple` on the bytes `data`, whose header starts at `start`. A bad
      header, another query type or bytes left over are rejected as a
      `PackageEncodeException`; a negative length fails in the allocation and
      a short body with an underflow. */
  function Decode(data: seq<byte>, start: nat, codec: HeaderCodec): (r: Result<QueryBoundingBoxRequest, JavaException>)
    ensures !codec.validate(data, start, REQUEST_TYPE_QUERY).0 ==> r == Err(PackageEncodeException)
    ensures r.Ok? ==>
              var pos := codec.validate(data, start, REQUEST_TYPE_QUERY).1;
              pos + BLOCK_LENGTH <= |data| &&
              data[pos] == REQUEST_QUERY_BBOX &&
              (r.value.pagingEnabled <==> data[pos + 1] != 0) &&
              r.value.sequenceNumber == codec.requestId(data) &&
              data[pos + BLOCK_LENGTH..] == r.value.table + r.value.box
  {
    var sequenceNumber := codec.requestId(data);
    var header := codec.validate(data, start, REQUEST_TYPE_QUERY);
    var pos := header.1;
    if !header.0 then Err(PackageEncodeException)
    else if pos + 1 > |data| then Err(BufferUnderflowException)
    else if data[pos] != REQUEST_QUERY_BBOX then Err(PackageEncodeException)
    else if pos + BLOCK_LENGTH > |data| then Err(BufferUnderflowException)
    else
      var block := data[pos..pos + BLOCK_LENGTH];
      var table :- GetAt(data, pos + BLOCK_LENGTH, Signed(block[4..6]));
      var box :- GetAt(data, table.1, Signed(block[8..12]));
      if box.1 != |data| then Err(PackageEncodeException)
      else
        SignedShort(block[2..4]);
        assert data[pos + BLOCK_LENGTH..] == table.0 + box.0;
        Ok(QueryBoundingBoxRequest(sequenceNumber, table.0, box.0, block[1] != 0, Signed(block[2..4])))
  }

  /** The header decoder reads back what the header encoder wrote in front of
      `body`: the sequence number, and a valid header ending where the body
      starts. */
  predicate HeaderReadBack(codec: HeaderCodec, sequenceNumber: Short, bodyLength: int, body: seq<byte>)
  {
    var header := codec.write(sequenceNumber, bodyLength, REQUEST_TYPE_QUERY);
    codec.requestId(header + body) == sequenceNumber &&
    codec.validate(header + body, 0, REQUEST_TYPE_QUERY) == (true, |header|)
  }

  /** The fields of the block read back as what was written. */
  lemma BlockFields(req: QueryBoundingBoxRequest)
    requires |req.table| < 0x8000 && |req.box| < 0x8000_0000
    ensures var b := Block(req);
            b[0] == REQUEST_QUERY_BBOX && (b[1] != 0 <==> req.pagingEnabled) &&
            Signed(b[2..4]) == req.tuplesPerPage && Signed(b[4..6]) == |req.table| &&
            Signed(b[8..12]) == |req.box|
  {
    var b := Block(req);
    Pow256Values();
    assert b[2..4] == LowBytes(req.tuplesPerPage, SHORT_BYTES);
    assert b[4..6] == LowBytes(|req.table|, SHORT_BYTES);
    assert b[8..12] == LowBytes(|req.box|, INT_BYTES);
    SignedOfLowBytes(req.tuplesPerPage, SHORT_BYTES);
    SignedOfLowBytes(|req.table|, SHORT_BYTES);
    SignedOfLowBytes(|req.box|, INT_BYTES);
  }

  /** Round trip: decoding what `writeToOutputStream` wrote gives the request
      back, for a table name that fits the 2-byte length and a box that fits
      the 4-byte length. */
  lemma DecodeEncoded(req: QueryBoundingBoxRequest, codec: HeaderCodec)
    requires |req.table| < 0x8000 && |req.box| < 0x8000_0000
    requires HeaderReadBack(codec, req.sequenceNumber, BodyLength(req), Body(req))
    ensures Decode(Encoded(req, codec), 0, codec) == Ok(req)
  {
    assert Body(req) + [] == Body(req);
    assert Encoded(req, codec) + [] == Encoded(req, codec);
    DecodeBody(req, codec, []);
  }

  /** Bytes after the body make the decoder fail. */
  lemma TrailingBytesRejected(req: QueryBoundingBoxRequest, codec: HeaderCodec, extra: seq<byte>)
    requires |req.table| < 0x8000 && |req.box| < 0x8000_0000 && extra != []
    requires HeaderReadBack(codec, req.sequenceNumber, BodyLength(req), Body(req) + extra)
    ensures Decode(Encoded(req, codec) + extra, 0, codec) == Err(PackageEncodeException)
  {
    DecodeBody(req, codec, extra);
  }

  /** Decoding the encoded request followed by `extra`: every field reads
      back, and only the final length check depends on `extra`. */
  lemma DecodeBody(req: QueryBoundingBoxRequest, codec: HeaderCodec, extra: seq<byte>)
    requires |req.table| < 0x8000 && |req.box| < 0x8000_0000
    requires HeaderReadBack(codec, req.sequenceNumber, BodyLength(req), Body(req) + extra)
    ensures Decode(Encoded(req, codec) + extra, 0, codec) == if extra == [] then Ok(req) else Err(PackageEncodeException)
  {
    Layout(req, codec, extra);
    BlockFields(req);
  }

  /** Where the header, the block, the table and the box lie in the encoded
      request followed by `extra`. */
  lemma Layout(req: QueryBoundingBoxRequest, codec: HeaderCodec, extra: seq<byte>)
    ensures var header := codec.write(req.sequenceNumber, BodyLength(req), REQUEST_TYPE_QUERY);
            var data := Encoded(req, codec) + extra;
            var t := |header| + BLOCK_LENGTH;
            data == header + (Body(req) + extra) &&
            |data| == t + |req.table| + |req.box| + |extra| &&
            data[|header|..t] == Block(req) &&
            data[t..t + |req.table|] == req.table &&
            data[t + |req.table|..t + |req.table| + |req.box|] == req.box
  {
    var header := codec.write(req.sequenceNumber, BodyLength(req), REQUEST_TYPE_QUERY);
    var b := Block(req);
    var data := Encoded(req, codec) + extra;
    var h := |header|;
    Assoc(header, Body(req), extra);
    assert data == header + (Body(req) + extra);
    Assoc(b + req.table, req.box, extra);
    Assoc(b, req.table, req.box + extra);
    assert Body(req) + extra == b + (req.table + (req.box + extra));
    SplitAt(data, 0, header, Body(req) + extra);
    assert data[0..] == data;
    SplitAt(data, h, b, req.table + (req.box + extra));
    var t := h + BLOCK_LENGTH;
    SplitAt(data, t, req.table, req.box + extra);
    SplitAt(data, t + |req.table|, req.box, extra);
  }

  /** `writeToOutputStream`: the header for the body's length, then the
      12-byte block, the table and the box. An `IOException` from the
      stream comes back as `PackageEncodeException`, with what was written
      before it left in the stream. */
  method WriteToOutputStream(req: QueryBoundingBoxRequest, codec: HeaderCodec, outputStream: OutputStream)
    returns (r: Result<(), JavaException>)
    requires outputStream.Valid()
    modifies outputStream
    ensures outputStream.Valid()
    ensures r.Ok? <==> outputStream.Fits(|old(outputStream.written)| + |Encoded(req, codec)|)
    ensures r.Ok? ==> outputStream.written == old(outputStream.written) + Encoded(req, codec)
    ensures r.Err? ==> r.error == PackageEncodeException
                       && outputStream.FailedWriting(old(outputStream.written), Encoded(req, codec))
  {
    var paging: byte := if req.pagingEnabled then 1 else 0;
    var block := [REQUEST_QUERY_BBOX, paging] +
                 LowBytes(req.tuplesPerPage, SHORT_BYTES) +
                 LowBytes(|req.table|, SHORT_BYTES) +
                 [UNUSED_BYTE, UNUSED_BYTE] +
                 LowBytes(|req.box|, INT_BYTES);
    var bodyLength := |block| + |req.table| + |req.box|;
    var header := codec.write(req.sequenceNumber, bodyLength, REQUEST_TYPE_QUERY);
    ghost var before := outputStream.written;
    ghost var whole := before + header + block + req.table + req.box;
    assert whole == before + Encoded(req, codec) by {
      assert block == Block(req);
      Assoc(before + header, block, req.table);
      Assoc(before + header, block + req.table, req.box);
      Assoc(before, header, Body(req));
    }
    PrefixExtend(before + header + block + req.table, before + header + block + req.table, req.box);
    PrefixExtend(before + header + block, before + header + block + req.table, req.box);
    PrefixExtend(before + header, before + header + block + req.table, req.box);
    PrefixExtend(before, before + header + block + req.table, req.box);
    var ok := outputStream.Write(header);
    if !ok {
      return Err(PackageEncodeException);
    }
    ok := outputStream.Write(block);
    if !ok {
      return Err(PackageEncodeException);
    }
    ok := outputStream.Write(req.table);
    if !ok {
      return Err(PackageEncodeException);
    }
    ok := outputStream.Write(req.box);
    if !ok {
      return Err(PackageEncodeException);
    }
    r := Ok(());
  }

  /** The fields of the block after the query type, as read. */
  datatype BlockRest = BlockRest(paging: byte, tuplesPerPage: seq<byte>, tableLength: seq<byte>, boxLength: seq<byte>)

  /** The gets of `decodeTuple` for the eleven bytes after the query type:
      paging flag, tuples per page, table length, two unused bytes and box
      length. They fail with an underflow exactly when fewer bytes remain. */
  method GetBlockRest(bb: ByteBuffer) returns (r: Result<BlockRest, JavaException>)
    requires bb.Valid()
    modifies bb
    ensures bb.Valid()
    ensures var p := old(bb.position);
            if p + BLOCK_LENGTH - 1 <= |bb.data| then
              r == Ok(BlockRest(bb.data[p], bb.data[p + 1..p + 3], bb.data[p + 3..p + 5], bb.data[p + 7..p + 11])) &&
              bb.position == p + BLOCK_LENGTH - 1
            else r == Err(BufferUnderflowException)
  {
    var paging :- bb.GetBytes(1);
    var tuplesPerPage :- bb.GetBytes(SHORT_BYTES);
    var tableLength :- bb.GetBytes(SHORT_BYTES);
    var unused :- bb.GetBytes(2);
    var boxLength :- bb.GetBytes(INT_BYTES);
    r := Ok(BlockRest(paging[0], tuplesPerPage, tableLength, boxLength));
  }

  /** `decodeTuple` on a buffer whose header starts at its position. */
  method DecodeTuple(encodedPackage: ByteBuffer, codec: HeaderCodec) returns (r: Result<QueryBoundingBoxRequest, JavaException>)
    requires encodedPackage.Valid()
    modifies encodedPackage
    ensures r == Decode(encodedPackage.data, old(encodedPackage.position), codec)
  {
    var sequenceNumber := codec.requestId(encodedPackage.data);
    var header := codec.validate(encodedPackage.data, encodedPackage.position, REQUEST_TYPE_QUERY);
    if !header.0 {
      return Err(PackageEncodeException);
    }
    if header.1 > |encodedPackage.data| {
      return Err(BufferUnderflowException);
    }
    encodedPackage.position := header.1;
    ghost var data, p := encodedPackage.data, header.1;
    var queryType :- encodedPackage.GetBytes(1);
    if queryType[0] != REQUEST_QUERY_BBOX {
      return Err(PackageEncodeException);
    }
    var block :- GetBlockRest(encodedPackage);
    var pagingEnabled := false;
    if block.paging != 0 {
      pagingEnabled := true;
    }
    ghost var bytes := data[p..p + BLOCK_LENGTH];
    Subslice(data, p, BLOCK_LENGTH, 2, 4);
    Subslice(data, p, BLOCK_LENGTH, 4, 6);
    Subslice(data, p, BLOCK_LENGTH, 8, 12);
    assert block.tuplesPerPage == bytes[2..4] && block.tableLength == bytes[4..6] && block.boxLength == bytes[8..12];
    var table :- encodedPackage.GetBytes(Signed(block.tableLength));
    var box :- encodedPackage.GetBytes(Signed(block.boxLength));
    if encodedPackage.Remaining() != 0 {
      return Err(PackageEncodeException);
    }
    SignedShort(block.tuplesPerPage);
    r := Ok(QueryBoundingBoxRequest(sequenceNumber, table, box, pagingEnabled, Signed(block.tuplesPerPage)));
  }
}
