/** The packets of the MQTT RPC backend.
    Request: type (1) | reply topic (1) | request id, 4 bytes | pair count (1) | pairs (2 each) | message.
    Response: type (1) | the same 4 bytes | status code, 4 bytes | message. */
module RpcPackets {
  import opened Buffer
  import opened Packets
  import opened Seqs
  import opened Wrappers

  const UINT32: nat := 0x1_0000_0000

  /** `id` is the four bytes as they stand: the server never looks inside. */
  datatype Request = Request(ty: Bytes, replyTopic: Bytes, id: Bytes, meta: seq<Bytes>, message: Bytes)

  datatype Response = Response(ty: Bytes, id: nat, code: nat, message: Bytes)

  function RequestHead(ty: Bytes, replyTopic: Bytes, id: nat): Bytes {
    EncodeString(ty, 1) + EncodeString(replyTopic, 1) + Encode(id, 4)
  }

  function EncodeRequest(ty: Bytes, replyTopic: Bytes, id: nat, meta: seq<Bytes>, message: Bytes): Bytes {
    RequestHead(ty, replyTopic, id) + ([|meta| / 2 % 0x100] + EncodeStrings(meta) + message)
  }

  function EncodeResponse(ty: Bytes, rawId: Bytes, code: nat, message: Bytes): Bytes {
    EncodeString(ty, 1) + rawId + Encode(code, 4) + message
  }

  predicate Sendable(ty: Bytes, replyTopic: Bytes, meta: seq<Bytes>) {
    |replyTopic| < 0x100 && Encodable(ty, meta)
  }

  function TakeBytes(data: Bytes, n: nat): Result<(Bytes, Bytes)> {
    if |data| < n then Err(OutOfBounds) else Ok((data[..n], data[n..]))
  }

  function ParseRequest(data: Bytes): Result<Request> {
    var ty :- TakeString(data, 1);
    var topic :- TakeString(ty.1, 1);
    var id :- TakeBytes(topic.1, 4);
    if id.1 == [] then Err(OutOfBounds)
    else
      var count: nat := id.1[0];
      var meta :- TakeStrings(id.1[1..], 2 * count);
      Ok(Request(ty.0, topic.0, id.0, meta.0, meta.1))
  }

  function ParseResponse(data: Bytes): Result<Response> {
    var ty :- TakeString(data, 1);
    var id :- TakeBytes(ty.1, 4);
    var code :- TakeBytes(id.1, 4);
    Ok(Response(ty.0, Decode(id.0), Decode(code.0), code.1))
  }

  /** The server reads what Invoke wrote, the id as its four raw bytes. */
  lemma RequestRoundTrip(ty: Bytes, replyTopic: Bytes, id: nat, meta: seq<Bytes>, message: Bytes)
    requires Sendable(ty, replyTopic, meta) && |meta| % 2 == 0
    ensures
      ParseRequest(EncodeRequest(ty, replyTopic, id, meta, message))
      == Ok(Request(ty, replyTopic, Encode(id, 4), meta, message))
  {
    hide TakeString, EncodeString, Encode, Limit, EncodeStrings, TakeStrings;
    Limits();
    var n := |meta| / 2;
    var behindId := [n] + (EncodeStrings(meta) + message);
    var behindTopic := Encode(id, 4) + behindId;
    var behindType := EncodeString(replyTopic, 1) + behindTopic;
    assert EncodeRequest(ty, replyTopic, id, meta, message) == EncodeString(ty, 1) + behindType;
    TakeEncoded(ty, 1, behindType);
    TakeEncoded(replyTopic, 1, behindTopic);
    assert behindTopic[..4] == Encode(id, 4) && behindTopic[4..] == behindId;
    assert behindId[1..] == EncodeStrings(meta) + message;
    TakeEncodedStrings(meta, message);
  }

  /** Echoing the raw bytes gives the client back the number it sent. */
  lemma ResponseRoundTrip(ty: Bytes, id: nat, code: nat, message: Bytes)
    requires |ty| < 0x100 && id < UINT32 && code < UINT32
    ensures ParseResponse(EncodeResponse(ty, Encode(id, 4), code, message)) == Ok(Response(ty, id, code, message))
  {
    hide TakeString, EncodeString, Encode, Decode, Limit;
    Limits();
    DecodeEncode(id, 4);
    DecodeEncode(code, 4);
    SmallMod(id, UINT32);
    SmallMod(code, UINT32);
    var behindId := Encode(code, 4) + message;
    var behindType := Encode(id, 4) + behindId;
    assert EncodeResponse(ty, Encode(id, 4), code, message) == EncodeString(ty, 1) + behindType;
    TakeEncoded(ty, 1, behindType);
    assert behindType[..4] == Encode(id, 4) && behindType[4..] == behindId;
    assert behindId[..4] == Encode(code, 4) && behindId[4..] == message;
  }

  /** Only responses can be read, and the parts give back the very bytes. */
  lemma ResponseOfParse(data: Bytes)
    requires ParseResponse(data).Ok?
    ensures
      var r := ParseResponse(data).value;
      |r.ty| < 0x100 && data == EncodeResponse(r.ty, Encode(r.id, 4), r.code, r.message)
  {
    hide Encode, Decode, Limit, TakeString, EncodeString;
    Limits();
    TakenIsEncoded(data, 1);
    var (ty, behindType) := TakeString(data, 1).value;
    EncodeDecode(behindType[..4]);
    var behindId := behindType[4..];
    EncodeDecode(behindId[..4]);
    assert behindType == behindType[..4] + (behindId[..4] + behindId[4..]);
  }

  /** The same for requests, whose id stays raw. */
  lemma RequestOfParse(data: Bytes)
    requires ParseRequest(data).Ok?
    ensures
      var r := ParseRequest(data).value;
      && |r.ty| < 0x100 && |r.replyTopic| < 0x100 && |r.id| == 4 && |r.meta| % 2 == 0 && |r.meta| / 2 < 0x100
      && data == EncodeString(r.ty, 1) + (EncodeString(r.replyTopic, 1)
         + (r.id + ([|r.meta| / 2] + (EncodeStrings(r.meta) + r.message))))
  {
    hide Encode, Decode, Limit, TakeString, EncodeString, TakeStrings, EncodeStrings;
    Limits();
    TakenIsEncoded(data, 1);
    var (ty, behindType) := TakeString(data, 1).value;
    TakenIsEncoded(behindType, 1);
    var (topic, behindTopic) := TakeString(behindType, 1).value;
    var behindId := behindTopic[4..];
    var count: nat := behindId[0];
    TakenStringsAreEncoded(behindId[1..], 2 * count);
    assert behindTopic == behindTopic[..4] + behindId;
    assert behindId == [behindId[0]] + behindId[1..];
  }

  /** The bytes on the wire. */
  lemma RequestBytes(ty: Bytes, replyTopic: Bytes, id: nat, meta: seq<Bytes>, message: Bytes)
    ensures EncodeRequest(ty, replyTopic, id, meta, message)
      == [|ty| % 0x100] + ty + [|replyTopic| % 0x100] + replyTopic
      + [id % 0x100, id / 0x100 % 0x100, id / 0x1_0000 % 0x100, id / 0x100_0000 % 0x100]
      + ([|meta| / 2 % 0x100] + EncodeStrings(meta) + message)
  {
    hide Encode, EncodeStrings;
    LittleEndian(|ty|);
    LittleEndian(|replyTopic|);
    LittleEndian(id);
    Assoc([|ty| % 0x100] + ty, [|replyTopic| % 0x100], replyTopic);
  }

  lemma ResponseBytes(ty: Bytes, rawId: Bytes, code: nat, message: Bytes)
    ensures EncodeResponse(ty, rawId, code, message)
      == [|ty| % 0x100] + ty + rawId
      + [code % 0x100, code / 0x100 % 0x100, code / 0x1_0000 % 0x100, code / 0x100_0000 % 0x100] + message
  {
    hide Encode;
    LittleEndian(|ty|);
    LittleEndian(code);
  }

  // ---------------------------------------------------------------- building and reading

  /** The part of Invoke that fills the buffer; the size was computed and the buffer allocated before. */
  method BuildRequest(ty: Bytes, replyTopic: Bytes, id: nat, meta: seq<Bytes>, bufs: seq<Bytes>)
    returns (r: Result<Bytes>)
    requires |meta| / 2 < 0x100 && id < UINT32
    ensures r.Ok? <==> Sendable(ty, replyTopic, meta)
    ensures r.Ok? ==> r.value == EncodeRequest(ty, replyTopic, id, meta, Flatten(bufs))
  {
    hide EncodeString, Encode, Limit, EncodeStrings, Flatten;
    Limits();
    EncodeByte(|meta| / 2);
    var metaSize := MetaSize(meta);
    var msgSize := FlattenedSize(bufs);
    var size := 1 + |ty| + 1 + |replyTopic| + 4 + metaSize + msgSize;
    var msg := new Byte[size](_ => 0);
    var op := new BufferOperator(msg);
    var _ :- WriteRequestHead(op, ty, replyTopic, id);
    var n := op.SetUint(|meta| / 2, 1);
    var _ :- WriteMeta(op, meta);
    var w := WriteBuffers(op, bufs);
    assert op.Written() == msg[..];
    RequestPieces(ty, replyTopic, id, meta, Flatten(bufs));
    return Ok(msg[..]);
  }

  method WriteRequestHead(op: BufferOperator, ty: Bytes, replyTopic: Bytes, id: nat) returns (r: Result<()>)
    requires op.Valid() && op.cur == 0 && |RequestHead(ty, replyTopic, id)| <= op.buf.Length && id < UINT32
    modifies op`cur, op.buf
    ensures op.Valid() && (r.Ok? <==> |ty| < 0x100 && |replyTopic| < 0x100)
    ensures r.Ok? ==> op.cur == |RequestHead(ty, replyTopic, id)| && op.Written() == RequestHead(ty, replyTopic, id)
  {
    hide EncodeString, Encode, Limit;
    Limits();
    var _ :- op.SetString(ty, 1);
    var _ :- op.SetString(replyTopic, 1);
    var n := op.SetUint(id, 4);
    return Ok(());
  }

  lemma RequestPieces(ty: Bytes, replyTopic: Bytes, id: nat, meta: seq<Bytes>, message: Bytes)
    ensures
      EncodeRequest(ty, replyTopic, id, meta, message)
      == RequestHead(ty, replyTopic, id) + [|meta| / 2 % 0x100] + EncodeStrings(meta) + message
  {
    hide RequestHead, EncodeStrings;
    var head, count, strings := RequestHead(ty, replyTopic, id), [|meta| / 2 % 0x100], EncodeStrings(meta);
    Assoc(head, count + strings, message);
    Assoc(head, count, strings);
  }

  /** The service callback's response, and with no buffers ReturnRspWithStatusCode. */
  method BuildResponse(ty: Bytes, rawId: Bytes, code: nat, bufs: seq<Bytes>) returns (r: Result<Bytes>)
    requires |rawId| == 4 && code < UINT32
    ensures r.Ok? <==> |ty| < 0x100
    ensures r.Ok? ==> r.value == EncodeResponse(ty, rawId, code, Flatten(bufs))
  {
    hide EncodeString, Encode, Limit, Flatten;
    Limits();
    var msgSize := FlattenedSize(bufs);
    var size := 1 + |ty| + 4 + 4 + msgSize;
    var msg := new Byte[size](_ => 0);
    var op := new BufferOperator(msg);
    var _ :- WriteResponseHead(op, ty, rawId, code);
    var w := WriteBuffers(op, bufs);
    assert op.Written() == msg[..];
    return Ok(msg[..]);
  }

  method WriteResponseHead(op: BufferOperator, ty: Bytes, rawId: Bytes, code: nat) returns (r: Result<()>)
    requires op.Valid() && op.cur == 0 && 1 + |ty| + 8 <= op.buf.Length && |rawId| == 4 && code < UINT32
    modifies op`cur, op.buf
    ensures op.Valid() && (r.Ok? <==> |ty| < 0x100)
    ensures r.Ok? ==> op.cur == 1 + |ty| + 8 && op.Written() == EncodeString(ty, 1) + rawId + Encode(code, 4)
  {
    hide EncodeString, Encode, Limit;
    Limits();
    var _ :- op.SetString(ty, 1);
    var i := op.SetBuffer(rawId);
    var c := op.SetUint(code, 4);
    return Ok(());
  }

  /** The client's response handler, up to the lookup of the call. */
  method ReadResponse(data: Bytes) returns (r: Result<Response>)
    ensures r == ParseResponse(data)
  {
    hide TakeString, Decode;
    Limits();
    var op := new ConstBufferOperator(data);
    assert data[0..] == data;
    var ty :- op.GetString(1);
    ghost var behindType := data[op.cur..];
    var id :- op.GetUint(4);
    assert behindType[..4] == data[op.cur - 4..op.cur] && behindType[4..] == data[op.cur..];
    ghost var behindId := data[op.cur..];
    var code :- op.GetUint(4);
    assert behindId[..4] == data[op.cur - 4..op.cur] && behindId[4..] == data[op.cur..];
    var message := op.GetRemainingBuffer();
    return Ok(Response(ty, id, code, message));
  }

  /** The service handler, up to the deserialization of the request. */
  method ReadRequest(data: Bytes) returns (r: Result<Request>)
    ensures r == ParseRequest(data)
  {
    hide TakeString, Decode, TakeStrings;
    Limits();
    var op := new ConstBufferOperator(data);
    assert data[0..] == data;
    var ty :- op.GetString(1);
    var topic :- op.GetString(1);
    ghost var behindTopic := data[op.cur..];
    var id :- op.GetBuffer(4);
    assert behindTopic[..4] == id && behindTopic[4..] == data[op.cur..];
    ghost var behindId := data[op.cur..];
    var count :- op.GetUint(1);
    assert behindId[..1] == data[op.cur - 1..op.cur] && behindId[1..] == data[op.cur..];
    DecodeByte(behindId[..1]);
    var meta :- GetPairs(op, count);
    var message := op.GetRemainingBuffer();
    return Ok(Request(ty, topic, id, meta, message));
  }

  // ---------------------------------------------------------------- the service

  /** What lies outside the backend: whether the request deserializes, the status the service reports,
      and its response, if that serializes. */
  datatype Service = Service(deserializes: bool, status: nat, serializes: bool, response: seq<Bytes>)

  const SVR_UNKNOWN: nat := 1000
  const SVR_SERIALIZATION_FAILED: nat := 1005
  const SVR_DESERIALIZATION_FAILED: nat := 1007

  datatype Published = Silence | Published(topic: Bytes, packet: Bytes)

  /** The handler of the request topics: silent on a malformed request, and otherwise one response to the
      request's reply topic with the request's own four bytes. A client can read it. It says OK, and then
      has the service's response, exactly if the service says so, the response serializes and the packet is
      within the limit; each failure has its own code. */
  method HandleRequest(data: Bytes, s: Service, maxPkgSize: nat) returns (r: Published)
    requires s.status < UINT32
    ensures r.Published? <==> ParseRequest(data).Ok?
    ensures r.Published? ==> r.topic == ParseRequest(data).value.replyTopic && ParseResponse(r.packet).Ok?
    ensures r.Published? ==> ParseResponse(r.packet).value.id == Decode(ParseRequest(data).value.id)
    ensures r.Published? ==>
      var ty := ParseRequest(data).value.ty;
      var a := ParseResponse(r.packet).value;
      var size := 1 + |ty| + 4 + 4 + |Flatten(s.response)|;
      && (a.code == 0 <==> s.deserializes && s.status == 0 && s.serializes && size <= maxPkgSize)
      && (!s.deserializes ==> a.code == 1007)
      && (s.deserializes && s.status != 0 ==> a.code == s.status)
      && (s.deserializes && s.status == 0 && !s.serializes ==> a.code == 1005)
      && (s.deserializes && s.status == 0 && s.serializes && size > maxPkgSize ==> a.code == 1000)
      && a.ty == ty && a.message == (if a.code == 0 then Flatten(s.response) else [])
      && |r.packet| == 1 + |ty| + 4 + 4 + |a.message|
  {
    hide ParseRequest, ParseResponse, EncodeResponse, Flatten, Encode, Decode, EncodeString, Limit;
    var request := ReadRequest(data);
    if request.Err? {
      return Silence;
    }
    var q := request.value;
    RequestFields(data);
    var code := 0;
    if !s.deserializes {
      code := SVR_DESERIALIZATION_FAILED;
    } else if s.status != 0 {
      code := s.status;
    } else if !s.serializes {
      code := SVR_SERIALIZATION_FAILED;
    } else {
      var size := FlattenedSize(s.response);
      if 1 + |q.ty| + 4 + 4 + size > maxPkgSize {
        code := SVR_UNKNOWN;
      }
    }
    var packet := BuildResponse(q.ty, q.id, code, if code == 0 then s.response else []);
    EncodeDecode(q.id);
    Limits();
    ResponseRoundTrip(q.ty, Decode(q.id), code, Flatten(if code == 0 then s.response else []));
    FlattenNone<Byte>();
    ResponseSize(q.ty, q.id, code, Flatten(if code == 0 then s.response else []));
    return Published(q.replyTopic, packet.value);
  }

  lemma RequestFields(data: Bytes)
    requires ParseRequest(data).Ok?
    ensures |ParseRequest(data).value.ty| < 0x100 && |ParseRequest(data).value.id| == 4
  {
    hide TakeString, TakeStrings, Limit;
    Limits();
    TakenIsEncoded(data, 1);
  }

  lemma ResponseSize(ty: Bytes, rawId: Bytes, code: nat, message: Bytes)
    requires |rawId| == 4
    ensures |EncodeResponse(ty, rawId, code, message)| == 1 + |ty| + 8 + |message|
  {}
}
