/** The packet shared by the MQTT and iceoryx channels:
    type (1-byte length) | pair count (1 byte) | key, value, ... (2-byte lengths) | message. */
module Packets {
  import opened Buffer
  import opened Seqs
  import opened Wrappers

  datatype Refusal = TooManyPairs | TooLarge | Unwritable(e: Error)

  datatype Built<T> = Built(value: T) | Refused(why: Refusal)

  datatype Content = Content(serializationType: Bytes, meta: seq<Bytes>, message: Bytes)

  function EncodeStrings(kvs: seq<Bytes>): Bytes {
    if kvs == [] then [] else EncodeString(kvs[0], 2) + EncodeStrings(kvs[1..])
  }

  /** What precedes the message. `meta` alternates keys and values. */
  function Header(ty: Bytes, meta: seq<Bytes>): Bytes {
    EncodeString(ty, 1) + [|meta| / 2 % 0x100] + EncodeStrings(meta)
  }

  function Packet(c: Content): Bytes {
    Header(c.serializationType, c.meta) + c.message
  }

  /** Whether every length fits its prefix. */
  predicate Encodable(ty: Bytes, meta: seq<Bytes>) {
    |ty| < 0x100 && |meta| / 2 < 0x100 && forall i :: 0 <= i < |meta| ==> |meta[i]| < 0x1_0000
  }

  /** `n` strings in a row. */
  function TakeStrings(data: Bytes, n: nat): Result<(seq<Bytes>, Bytes)> {
    if n == 0 then Ok(([], data))
    else
      var first :- TakeString(data, 2);
      var more :- TakeStrings(first.1, n - 1);
      Ok(([first.0] + more.0, more.1))
  }

  function Parse(data: Bytes): Result<Content> {
    var ty :- TakeString(data, 1);
    if ty.1 == [] then Err(OutOfBounds)
    else
      var count: nat := ty.1[0];
      var meta :- TakeStrings(ty.1[1..], 2 * count);
      Ok(Content(ty.0, meta.0, meta.1))
  }

  // ---------------------------------------------------------------- strings in a row

  lemma {:induction false} EncodeStringsAppend(a: seq<Bytes>, b: seq<Bytes>)
    ensures EncodeStrings(a + b) == EncodeStrings(a) + EncodeStrings(b)
  {
    hide EncodeString;
    if a == [] {
      assert a + b == b;
    } else {
      EncodeStringsAppend(a[1..], b);
      assert (a + b)[1..] == a[1..] + b && (a + b)[0] == a[0];
      Assoc(EncodeString(a[0], 2), EncodeStrings(a[1..]), EncodeStrings(b));
    }
  }

  lemma EncodeOne(s: Bytes)
    ensures EncodeStrings([s]) == EncodeString(s, 2)
  {
    hide EncodeString;
    assert EncodeStrings([s]) == EncodeString(s, 2) + EncodeStrings([]);
  }

  lemma {:induction false} TakeEncodedStrings(kvs: seq<Bytes>, rest: Bytes)
    requires forall i :: 0 <= i < |kvs| ==> |kvs[i]| < 0x1_0000
    ensures TakeStrings(EncodeStrings(kvs) + rest, |kvs|) == Ok((kvs, rest))
  {
    hide TakeString, EncodeString, Limit;
    if kvs == [] {
      assert EncodeStrings(kvs) + rest == rest;
    } else {
      TakeEncodedStrings(kvs[1..], rest);
      Limits();
      TakeEncoded(kvs[0], 2, EncodeStrings(kvs[1..]) + rest);
      assert EncodeStrings(kvs) + rest == EncodeString(kvs[0], 2) + (EncodeStrings(kvs[1..]) + rest);
      assert [kvs[0]] + kvs[1..] == kvs;
    }
  }

  lemma {:induction false} TakenStringsAreEncoded(data: Bytes, n: nat)
    requires TakeStrings(data, n).Ok?
    ensures
      var (kvs, rest) := TakeStrings(data, n).value;
      |kvs| == n && data == EncodeStrings(kvs) + rest && forall i :: 0 <= i < |kvs| ==> |kvs[i]| < 0x1_0000
    decreases n
  {
    hide TakeString, EncodeString, Limit;
    if n > 0 {
      Limits();
      TakenIsEncoded(data, 2);
      var first := TakeString(data, 2).value;
      TakenStringsAreEncoded(first.1, n - 1);
      var more := TakeStrings(first.1, n - 1).value;
      var kvs := [first.0] + more.0;
      assert kvs[1..] == more.0;
      assert data == EncodeString(first.0, 2) + (EncodeStrings(more.0) + more.1);
      assert EncodeStrings(kvs) == EncodeString(first.0, 2) + EncodeStrings(more.0);
    }
  }

  // ---------------------------------------------------------------- the format

  /** The subscriber reads pairs, so with a stray last string that string opens the message. */
  lemma ParseOfPacket(c: Content)
    requires Encodable(c.serializationType, c.meta)
    ensures
      var pairs := |c.meta| / 2 * 2;
      Parse(Packet(c))
      == Ok(Content(c.serializationType, c.meta[..pairs], EncodeStrings(c.meta[pairs..]) + c.message))
  {
    hide TakeString, EncodeString, Limit, EncodeStrings, TakeStrings, Parse;
    var n := |c.meta| / 2;
    var pairs, stray := c.meta[..n * 2], c.meta[n * 2..];
    assert c.meta == pairs + stray;
    EncodeStringsAppend(pairs, stray);
    var behind := EncodeStrings(stray) + c.message;
    Regroup(EncodeString(c.serializationType, 1), [n], EncodeStrings(pairs), EncodeStrings(stray), c.message);
    ParsePieces(c.serializationType, pairs, behind);
  }

  lemma Regroup(a: Bytes, b: Bytes, c: Bytes, d: Bytes, e: Bytes)
    ensures a + b + (c + d) + e == a + (b + (c + (d + e)))
  {}

  lemma ParsePieces(ty: Bytes, pairs: seq<Bytes>, behind: Bytes)
    requires Encodable(ty, pairs) && |pairs| % 2 == 0
    ensures
      Parse(EncodeString(ty, 1) + ([|pairs| / 2] + (EncodeStrings(pairs) + behind))) == Ok(Content(ty, pairs, behind))
  {
    hide TakeString, EncodeString, Limit, EncodeStrings, TakeStrings, Parse;
    Limits();
    var count: Byte := |pairs| / 2;
    var afterType := [count] + (EncodeStrings(pairs) + behind);
    var data := EncodeString(ty, 1) + afterType;
    TakeEncoded(ty, 1, afterType);
    TakeEncodedStrings(pairs, behind);
    assert afterType[1..] == EncodeStrings(pairs) + behind;
    ParseStep(data, ty, afterType, pairs, behind);
  }

  lemma ParseStep(data: Bytes, ty: Bytes, afterType: Bytes, meta: seq<Bytes>, message: Bytes)
    requires TakeString(data, 1) == Ok((ty, afterType)) && afterType != []
    requires TakeStrings(afterType[1..], 2 * (afterType[0] as nat)) == Ok((meta, message))
    ensures Parse(data) == Ok(Content(ty, meta, message))
  {
    hide TakeString, TakeStrings;
  }

  /** Only packets can be parsed, and the parts determine the packet. */
  lemma PacketOfParse(data: Bytes)
    requires Parse(data).Ok?
    ensures var c := Parse(data).value; Encodable(c.serializationType, c.meta) && |c.meta| % 2 == 0 && data == Packet(c)
  {
    hide TakeString, EncodeString, Limit, EncodeStrings, TakeStrings;
    Limits();
    TakenIsEncoded(data, 1);
    var ty := TakeString(data, 1).value;
    var count: nat := ty.1[0];
    TakenStringsAreEncoded(ty.1[1..], 2 * count);
    var meta := TakeStrings(ty.1[1..], 2 * count).value;
    assert ty.1 == [ty.1[0]] + (EncodeStrings(meta.0) + meta.1);
    assert Packet(Content(ty.0, meta.0, meta.1))
      == EncodeString(ty.0, 1) + ([ty.1[0]] + (EncodeStrings(meta.0) + meta.1));
  }

  /** A content survives the packet exactly when its lengths fit and its metadata comes in pairs. */
  lemma PacketRoundTrip(c: Content)
    ensures Parse(Packet(c)) == Ok(c) <==> Encodable(c.serializationType, c.meta) && |c.meta| % 2 == 0
  {
    hide TakeString, EncodeString, Limit, EncodeStrings, TakeStrings, Packet, Parse;
    if Encodable(c.serializationType, c.meta) {
      ParseOfPacket(c);
      var pairs := |c.meta| / 2 * 2;
      if |c.meta| % 2 == 0 {
        assert c.meta[..pairs] == c.meta && c.meta[pairs..] == [];
        NoStrings();
        assert [] + c.message == c.message;
      }
    }
    if Parse(Packet(c)) == Ok(c) {
      PacketOfParse(Packet(c));
    }
  }

  lemma NoStrings()
    ensures EncodeStrings([]) == []
  {}

  /** The bytes on the wire: one for the type's length, one for the number of pairs, two for each string's. */
  lemma PacketBytes(c: Content)
    ensures Packet(c)
      == [|c.serializationType| % 0x100] + c.serializationType + [|c.meta| / 2 % 0x100]
      + EncodeStrings(c.meta) + c.message
  {
    hide Encode, EncodeStrings;
    LittleEndian(|c.serializationType|);
  }

  lemma StringBytes(kvs: seq<Bytes>)
    ensures EncodeStrings(kvs) ==
      if kvs == [] then [] else [|kvs[0]| % 0x100, |kvs[0]| / 0x100 % 0x100] + kvs[0] + EncodeStrings(kvs[1..])
  {
    hide Encode;
    if kvs != [] {
      LittleEndian(|kvs[0]|);
    }
  }

  // ---------------------------------------------------------------- MQTT

  /** The size Publish computes before it writes anything. */
  method MetaSize(meta: seq<Bytes>) returns (size: nat)
    ensures size == 1 + |EncodeStrings(meta)|
  {
    size := 1;
    for i := 0 to |meta|
      invariant size == 1 + |EncodeStrings(meta[..i])|
    {
      assert meta[..i + 1] == meta[..i] + [meta[i]];
      EncodeStringsAppend(meta[..i], [meta[i]]);
      EncodeOne(meta[i]);
      size := size + 2 + |meta[i]|;
    }
    assert meta[..|meta|] == meta;
  }

  method WriteHeader(op: BufferOperator, ty: Bytes, meta: seq<Bytes>) returns (r: Result<()>)
    requires op.Valid() && |meta| / 2 < 0x100
    modifies op`cur, op.buf
    ensures op.Valid()
    ensures r.Ok? <==> old(op.cur) + |Header(ty, meta)| <= op.buf.Length && Encodable(ty, meta)
    ensures r.Ok? ==> op.cur == old(op.cur) + |Header(ty, meta)|
    ensures r.Ok? ==> op.Written() == old(op.Written()) + Header(ty, meta)
    ensures r.Ok? ==> op.buf[op.cur..] == old(op.buf[op.cur + |Header(ty, meta)|..])
  {
    hide Encode, EncodeString, EncodeStrings, Limit, Header;
    ghost var before, all := op.Written(), op.buf[op.cur..];
    HeaderParts(ty, meta, before, all);
    r := WriteTypeAndCount(op, ty, |meta| / 2);
    if r.Err? {
      return;
    }
    r := WriteMeta(op, meta);
  }

  method WriteTypeAndCount(op: BufferOperator, ty: Bytes, count: Byte) returns (r: Result<()>)
    requires op.Valid()
    modifies op`cur, op.buf
    ensures op.Valid()
    ensures r.Ok? <==> old(op.cur) + 1 + |ty| + 1 <= op.buf.Length && |ty| < 0x100
    ensures r.Ok? ==> op.cur == old(op.cur) + 1 + |ty| + 1
    ensures r.Ok? ==> op.Written() == old(op.Written()) + EncodeString(ty, 1) + [count]
    ensures r.Ok? ==> op.buf[op.cur..] == old(op.buf[op.cur..])[1 + |ty|..][1..]
  {
    hide Encode, EncodeString, Limit;
    Limits();
    ghost var all := op.buf[op.cur..];
    r := op.SetString(ty, 1);
    if r.Err? {
      return;
    }
    assert op.buf[op.cur..] == all[1 + |ty|..];
    r := op.SetUint(count, 1);
    EncodeByte(count);
  }

  /** Its three parts, one behind the other, and what is left of the buffer behind them. */
  lemma HeaderParts(ty: Bytes, meta: seq<Bytes>, before: Bytes, all: Bytes)
    ensures |Header(ty, meta)| == 1 + |ty| + 1 + |EncodeStrings(meta)|
    ensures before + EncodeString(ty, 1) + [|meta| / 2 % 0x100] + EncodeStrings(meta) == before + Header(ty, meta)
    ensures |meta| / 2 < 0x100 ==> |meta| / 2 % 0x100 == |meta| / 2
    ensures |Header(ty, meta)| <= |all| ==>
      all[1 + |ty|..][1..][|EncodeStrings(meta)|..] == all[|Header(ty, meta)|..]
  {
    hide Encode, EncodeStrings;
    Assoc(before, EncodeString(ty, 1), [|meta| / 2 % 0x100]);
    Assoc(before, EncodeString(ty, 1) + [|meta| / 2 % 0x100], EncodeStrings(meta));
    if |Header(ty, meta)| <= |all| {
      DropDrop(all, 1 + |ty|, 1);
      DropDrop(all, 2 + |ty|, |EncodeStrings(meta)|);
    }
  }

  method WriteMeta(op: BufferOperator, meta: seq<Bytes>) returns (r: Result<()>)
    requires op.Valid()
    modifies op`cur, op.buf
    ensures op.Valid()
    ensures r.Ok? <==>
        old(op.cur) + |EncodeStrings(meta)| <= op.buf.Length && forall i :: 0 <= i < |meta| ==> |meta[i]| < 0x1_0000
    ensures r.Ok? ==> op.cur == old(op.cur) + |EncodeStrings(meta)|
    ensures r.Ok? ==> op.Written() == old(op.Written()) + EncodeStrings(meta)
    ensures r.Ok? ==> op.buf[op.cur..] == old(op.buf[op.cur + |EncodeStrings(meta)|..])
  {
    hide MetaDone, EncodeStrings, EncodeString, Limit, Encode;
    ghost var before, all := op.buf[..op.cur], op.buf[op.cur..];
    NothingDone(op, meta, before, all);
    for i := 0 to |meta|
      invariant op.Valid() && MetaDone(op.buf[..], op.cur, meta, i, before, all)
      invariant forall k :: 0 <= k < i ==> |meta[k]| < 0x1_0000
    {
      r := WriteMetaString(op, meta, i, before, all);
      if r.Err? {
        return;
      }
    }
    AllDone(op, meta, before, all);
    return Ok(());
  }

  /** The buffer behind `before` holds the first `i` strings, and behind them what it held. */
  ghost predicate MetaDone(buf: Bytes, cur: nat, meta: seq<Bytes>, i: nat, before: Bytes, all: Bytes) {
    && i <= |meta| && |before| <= cur <= |buf| == |before| + |all|
    && buf[..cur] == before + EncodeStrings(meta[..i])
    && buf[cur..] == all[cur - |before|..]
  }

  lemma NothingDone(op: BufferOperator, meta: seq<Bytes>, before: Bytes, all: Bytes)
    requires op.Valid() && before == op.buf[..op.cur] && all == op.buf[op.cur..]
    ensures MetaDone(op.buf[..], op.cur, meta, 0, before, all)
  {
    assert meta[..0] == [];
    assert op.buf[..][..op.cur] == before + EncodeStrings([]);
  }

  lemma AllDone(op: BufferOperator, meta: seq<Bytes>, before: Bytes, all: Bytes)
    requires op.Valid() && MetaDone(op.buf[..], op.cur, meta, |meta|, before, all)
    ensures op.cur == |before| + |EncodeStrings(meta)|
    ensures op.Written() == before + EncodeStrings(meta) && op.buf[op.cur..] == all[|EncodeStrings(meta)|..]
  {
    assert meta[..|meta|] == meta;
    assert op.buf[..][..op.cur] == op.buf[..op.cur] && op.buf[..][op.cur..] == op.buf[op.cur..];
  }

  method WriteMetaString(op: BufferOperator, meta: seq<Bytes>, i: nat, ghost before: Bytes, ghost all: Bytes)
    returns (r: Result<()>)
    requires op.Valid() && i < |meta| && MetaDone(op.buf[..], op.cur, meta, i, before, all)
    modifies op`cur, op.buf
    ensures op.Valid()
    ensures r.Ok? ==> |meta[i]| < 0x1_0000 && MetaDone(op.buf[..], op.cur, meta, i + 1, before, all)
    ensures r.Err? ==> |meta[i]| >= 0x1_0000 || |before| + |EncodeStrings(meta)| > op.buf.Length
  {
    hide Encode, EncodeString, EncodeStrings, Limit;
    Limits();
    EncodeStringsNext(meta, i);
    ghost var was := op.buf[..];
    ghost var at := op.cur;
    assert was[..at] == op.Written() && was[at..] == op.buf[at..];
    r := op.SetString(meta[i], 2);
    if r.Ok? {
      assert op.buf[..][..op.cur] == op.Written();
      assert op.buf[..][op.cur..] == op.buf[op.cur..] == was[op.cur..] == was[at..][2 + |meta[i]|..];
      Assoc(before, EncodeStrings(meta[..i]), EncodeString(meta[i], 2));
    }
  }

  lemma EncodeStringsNext(meta: seq<Bytes>, i: nat)
    requires i < |meta|
    ensures EncodeStrings(meta[..i + 1]) == EncodeStrings(meta[..i]) + EncodeString(meta[i], 2)
    ensures |EncodeStrings(meta[..i + 1])| <= |EncodeStrings(meta)|
  {
    hide EncodeString, EncodeStrings;
    assert meta == meta[..i + 1] + meta[i + 1..];
    EncodeStringsAppend(meta[..i + 1], meta[i + 1..]);
    assert meta[..i + 1] == meta[..i] + [meta[i]];
    EncodeStringsAppend(meta[..i], [meta[i]]);
    EncodeOne(meta[i]);
  }

  lemma EncodeByte(n: nat)
    ensures Encode(n, 1) == [n % 0x100]
  {
    assert Encode(n / 0x100, 0) == [];
  }

  lemma OneMoreBuffer(bufs: seq<Bytes>, i: nat)
    requires i < |bufs|
    ensures Flatten(bufs[..i + 1]) == Flatten(bufs[..i]) + bufs[i]
    ensures |Flatten(bufs[..i + 1])| <= |Flatten(bufs)|
  {
    hide Flatten;
    assert bufs == bufs[..i] + [bufs[i]] + bufs[i + 1..];
    FlattenAppend(bufs[..i] + [bufs[i]], bufs[i + 1..]);
    FlattenAppend(bufs[..i], [bufs[i]]);
    FlattenOne(bufs[i]);
    assert bufs[..i + 1] == bufs[..i] + [bufs[i]];
  }

  lemma NextBuffer(bufs: seq<Bytes>, i: nat, before: Bytes, all: Bytes)
    requires i < |bufs| && |Flatten(bufs)| <= |all|
    ensures
      var now, next := Flatten(bufs[..i]), Flatten(bufs[..i + 1]);
      && |now| + |bufs[i]| == |next| <= |Flatten(bufs)| && (before + now) + bufs[i] == before + next
      && all[|now|..][|bufs[i]|..] == all[|next|..]
  {
    hide Flatten;
    OneMoreBuffer(bufs, i);
    DropDrop(all, |Flatten(bufs[..i])|, |bufs[i]|);
    Assoc(before, Flatten(bufs[..i]), bufs[i]);
  }

  method WriteBuffers(op: BufferOperator, bufs: seq<Bytes>) returns (r: Result<()>)
    requires op.Valid() && op.cur + |Flatten(bufs)| <= op.buf.Length
    modifies op`cur, op.buf
    ensures op.Valid() && r.Ok? && op.cur == old(op.cur) + |Flatten(bufs)|
    ensures op.Written() == old(op.Written()) + Flatten(bufs)
    ensures op.buf[op.cur..] == old(op.buf[op.cur + |Flatten(bufs)|..])
  {
    hide Flatten;
    ghost var before, all := op.Written(), op.buf[op.cur..];
    ghost var from := op.cur;
    FlattenNone<Byte>();
    assert bufs[..0] == [];
    for i := 0 to |bufs|
      invariant op.Valid() && op.cur == from + |Flatten(bufs[..i])|
      invariant op.Written() == before + Flatten(bufs[..i])
      invariant op.buf[op.cur..] == all[|Flatten(bufs[..i])|..]
    {
      NextBuffer(bufs, i, before, all);
      r := op.SetBuffer(bufs[i]);
      if r.Err? {
        assert false;
        return;
      }
    }
    assert bufs[..|bufs|] == bufs;
    return Ok(());
  }

  /** MqttChannelBackend::Publish: the buffer allocated from the computed size is filled to the last byte. */
  method BuildMqtt(ty: Bytes, meta: seq<Bytes>, bufs: seq<Bytes>, maxPkgSize: nat) returns (r: Built<Bytes>)
    ensures r.Built? <==> Encodable(ty, meta) && |Packet(Content(ty, meta, Flatten(bufs)))| <= maxPkgSize
    ensures r.Built? ==> r.value == Packet(Content(ty, meta, Flatten(bufs)))
    ensures r == Refused(TooManyPairs) <==> |meta| / 2 > 255
  {
    hide EncodeStrings, Flatten, EncodeString;
    if |meta| / 2 > 255 {
      return Refused(TooManyPairs);
    }
    var metaSize := MetaSize(meta);
    var msgSize := FlattenedSize(bufs);
    var size := 1 + |ty| + metaSize + msgSize;
    if size > maxPkgSize {
      return Refused(TooLarge);
    }
    var msg := new Byte[size](_ => 0);
    var op := new BufferOperator(msg);
    var h := WriteHeader(op, ty, meta);
    if h.Err? {
      return Refused(Unwritable(h.error));
    }
    var b := WriteBuffers(op, bufs);
    var left := op.GetRemainingSize();
    assert left == 0;
    assert op.Written() == msg[..] == Packet(Content(ty, meta, Flatten(bufs)));
    return Built(msg[..]);
  }

  /** BufferSize of the serialized message. */
  method FlattenedSize(bufs: seq<Bytes>) returns (size: nat)
    ensures size == |Flatten(bufs)|
  {
    size := 0;
    for i := 0 to |bufs|
      invariant size == |Flatten(bufs[..i])|
    {
      assert bufs[..i + 1] == bufs[..i] + [bufs[i]];
      FlattenAppend(bufs[..i], [bufs[i]]);
      FlattenOne(bufs[i]);
      size := size + |bufs[i]|;
    }
    assert bufs[..|bufs|] == bufs;
  }

  /** The subscriber's handler, up to the user callback. */
  method ParsePacket(data: Bytes) returns (r: Result<Content>)
    ensures r == Parse(data)
  {
    hide TakeString, Decode, TakeStrings;
    Limits();
    var op := new ConstBufferOperator(data);
    assert data[0..] == data;
    var ty :- op.GetString(1);
    ghost var afterType := data[op.cur..];
    var count :- op.GetUint(1);
    assert afterType[..1] == data[op.cur - 1..op.cur];
    DecodeByte(afterType[..1]);
    assert afterType[1..] == data[op.cur..];
    var meta :- GetPairs(op, count);
    var message := op.GetRemainingBuffer();
    return Ok(Content(ty, meta, message));
  }

  /** `count` keys, each followed by its value. */
  method GetPairs(op: ConstBufferOperator, count: nat) returns (r: Result<seq<Bytes>>)
    requires op.Valid()
    modifies op`cur
    ensures op.Valid()
    ensures match TakeStrings(op.data[old(op.cur)..], 2 * count)
            case Ok((meta, rest)) => r == Ok(meta) && op.data[op.cur..] == rest
            case Err(e) => r == Err(e)
  {
    hide TakeString, TakeStrings;
    ghost var pairs := op.data[op.cur..];
    TakeStringsStep(pairs, 0);
    var meta: seq<Bytes> := [];
    for i := 0 to count
      invariant op.Valid() && |meta| == 2 * i
      invariant TakeStrings(pairs, 2 * i) == Ok((meta, op.data[op.cur..]))
    {
      TakeStringsFail(pairs, 2 * i + 1, 2 * count);
      TakeStringsFail(pairs, 2 * i + 2, 2 * count);
      TakeStringsStep(pairs, 2 * i);
      var key :- op.GetString(2);
      TakeStringsStep(pairs, 2 * i + 1);
      var val :- op.GetString(2);
      assert (meta + [key]) + [val] == meta + [key, val];
      meta := meta + [key, val];
    }
    return Ok(meta);
  }

  lemma DecodeByte(b: Bytes)
    requires |b| == 1
    ensures Decode(b) == b[0]
  {
    assert Decode(b[1..]) == 0;
  }

  /** One more string, taken from the far end. */
  lemma {:induction false} TakeStringsStep(data: Bytes, n: nat)
    ensures TakeStrings(data, 0) == Ok(([], data))
    ensures TakeStrings(data, n).Err? ==> TakeStrings(data, n + 1) == TakeStrings(data, n)
    ensures (TakeStrings(data, n).Ok? && TakeString(TakeStrings(data, n).value.1, 2).Err?) ==>
        TakeStrings(data, n + 1) == Err(TakeString(TakeStrings(data, n).value.1, 2).error)
    ensures (TakeStrings(data, n).Ok? && TakeString(TakeStrings(data, n).value.1, 2).Ok?) ==>
        (var (kvs, rest) := TakeStrings(data, n).value;
         var (s, more) := TakeString(rest, 2).value;
         TakeStrings(data, n + 1) == Ok((kvs + [s], more)))
    decreases n
  {
    hide TakeString;
    var first := TakeString(data, 2);
    if n == 0 {
      if first.Ok? {
        assert TakeStrings(first.value.1, 0) == Ok(([], first.value.1));
        assert [first.value.0] + [] == [] + [first.value.0];
      }
    } else if first.Ok? {
      TakeStringsStep(first.value.1, n - 1);
      var init := TakeStrings(first.value.1, n - 1);
      if init.Ok? && TakeString(init.value.1, 2).Ok? {
        var s := TakeString(init.value.1, 2).value.0;
        assert [first.value.0] + (init.value.0 + [s]) == ([first.value.0] + init.value.0) + [s];
      }
    }
  }

  lemma {:induction false} TakeStringsFail(data: Bytes, n: nat, m: nat)
    requires n <= m
    ensures TakeStrings(data, n).Err? ==> TakeStrings(data, m) == TakeStrings(data, n)
    decreases m
  {
    hide TakeString;
    if n < m {
      TakeStringsFail(data, n, m - 1);
      TakeStringsStep(data, m - 1);
    }
  }
}
