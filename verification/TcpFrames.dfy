/** The TCP framing: 'Y', 'T', a 4-byte length, the body. */
module TcpFrames {
  import opened Buffer
  import opened Seqs

  const HEAD_SIZE: nat := 6
  const UINT32: nat := 0x1_0000_0000
  const HEAD_BYTE_1: Byte := 89
  const HEAD_BYTE_2: Byte := 84

  /** The length is cast to 32 bits. */
  function Head(body: Bytes): (h: Bytes)
    ensures |h| == HEAD_SIZE
  {
    [HEAD_BYTE_1, HEAD_BYTE_2] + Encode(|body| % UINT32, 4)
  }

  function Frame(body: Bytes): (f: Bytes)
    ensures |f| == HEAD_SIZE + |body|
  {
    Head(body) + body
  }

  /** The bytes on the wire. */
  lemma FrameBytes(body: Bytes)
    ensures
      var n := |body| % 0x1_0000_0000;
      Frame(body) == [89, 84, n % 0x100, n / 0x100 % 0x100, n / 0x1_0000 % 0x100, n / 0x100_0000 % 0x100] + body
    ensures Frame([]) == [89, 84, 0, 0, 0, 0]
  {
    hide Encode;
    LittleEndian(|body| % UINT32);
    LittleEndian(0);
  }

  function Stream(bodies: seq<Bytes>): Bytes {
    if bodies == [] then [] else Frame(bodies[0]) + Stream(bodies[1..])
  }

  /** The messages the receive loop posts from the bytes that have arrived: it waits for the rest of an
      incomplete frame, and stops for good at a bad head or at a length above the limit. */
  function Posts(bytes: Bytes, max: nat): seq<Bytes>
    decreases |bytes|
  {
    if |bytes| < HEAD_SIZE || bytes[0] != HEAD_BYTE_1 || bytes[1] != HEAD_BYTE_2 then []
    else
      var n := Decode(bytes[2..HEAD_SIZE]);
      if n > max || |bytes| < HEAD_SIZE + n then []
      else [bytes[HEAD_SIZE..HEAD_SIZE + n]] + Posts(bytes[HEAD_SIZE + n..], max)
  }

  lemma {:induction false} StreamAppend(a: seq<Bytes>, b: seq<Bytes>)
    ensures Stream(a + b) == Stream(a) + Stream(b)
  {
    hide Frame;
    if a == [] {
      assert a + b == b;
    } else {
      StreamAppend(a[1..], b);
      assert (a + b)[1..] == a[1..] + b && (a + b)[0] == a[0];
      Assoc(Frame(a[0]), Stream(a[1..]), Stream(b));
    }
  }

  lemma StreamOne(body: Bytes)
    ensures Stream([body]) == Frame(body)
  {
    hide Frame;
    assert Stream([body]) == Frame(body) + Stream([]);
  }

  /** The length the receiver reads from a head. */
  lemma HeadLength(body: Bytes, rest: Bytes)
    ensures
      var b := Head(body) + rest;
      b[0] == HEAD_BYTE_1 && b[1] == HEAD_BYTE_2 && Decode(b[2..HEAD_SIZE]) == |body| % UINT32
  {
    hide Encode, Decode, Limit;
    var b := Head(body) + rest;
    assert b[2..HEAD_SIZE] == Encode(|body| % UINT32, 4);
    Limits();
    DecodeEncode(|body| % UINT32, 4);
    SmallMod(|body| % UINT32, UINT32);
  }

  /** One frame at the front of what has arrived. */
  lemma PostsFrame(body: Bytes, arrived: Bytes, behind: Bytes, max: nat)
    requires arrived <= Frame(body) + behind
    ensures
      |body| >= UINT32
      || |arrived| < |Frame(body)|
      || |body| > max
      || (arrived[|Frame(body)|..] <= behind && Posts(arrived, max) == [body] + Posts(arrived[|Frame(body)|..], max))
    ensures |body| < UINT32 && (|arrived| < |Frame(body)| || |body| > max) ==> Posts(arrived, max) == []
  {
    hide Encode, Decode, Head;
    if |arrived| >= HEAD_SIZE {
      var all := Frame(body) + behind;
      assert all == Head(body) + (body + behind);
      assert arrived == all[..|arrived|];
      HeadLength(body, arrived[HEAD_SIZE..]);
      assert arrived[..HEAD_SIZE] == Head(body);
      assert arrived == Head(body) + arrived[HEAD_SIZE..];
      if |body| < UINT32 {
        SmallMod(|body|, UINT32);
        if |arrived| >= |Frame(body)| {
          assert arrived[HEAD_SIZE..HEAD_SIZE + |body|] == body;
          assert all[|Frame(body)|..] == behind;
          assert arrived[|Frame(body)|..] == behind[..|arrived| - |Frame(body)|];
        }
      }
    }
  }

  /** Whatever part of the stream has arrived, what was posted is the bodies in order, each once. */
  lemma {:induction false} PostsInOrder(bodies: seq<Bytes>, arrived: Bytes, max: nat)
    requires forall i :: 0 <= i < |bodies| ==> |bodies[i]| < UINT32
    requires arrived <= Stream(bodies)
    ensures Posts(arrived, max) <= bodies
    decreases |bodies|
  {
    hide Frame, Posts;
    if bodies == [] {
      NothingPosted(arrived, max);
    } else {
      PostsFrame(bodies[0], arrived, Stream(bodies[1..]), max);
      if |arrived| >= |Frame(bodies[0])| && |bodies[0]| <= max {
        PostsInOrder(bodies[1..], arrived[|Frame(bodies[0])|..], max);
        assert bodies == [bodies[0]] + bodies[1..];
      }
    }
  }

  lemma NothingPosted(arrived: Bytes, max: nat)
    requires arrived == []
    ensures Posts(arrived, max) == []
  {}

  /** Once the whole stream has arrived every body has been posted, if none is above the limit. */
  lemma {:induction false} PostsAll(bodies: seq<Bytes>, max: nat)
    requires max < UINT32 && forall i :: 0 <= i < |bodies| ==> |bodies[i]| <= max
    ensures Posts(Stream(bodies), max) == bodies
    decreases |bodies|
  {
    hide Frame, Posts;
    if bodies == [] {
      NothingPosted([], max);
    } else {
      PostsAll(bodies[1..], max);
      PostsFrame(bodies[0], Stream(bodies), Stream(bodies[1..]), max);
      assert Stream(bodies)[|Frame(bodies[0])|..] == Stream(bodies[1..]);
      assert bodies == [bodies[0]] + bodies[1..];
    }
  }

  /** No body whose cast length would be let through comes before the stream is given up. */
  predicate Survives(bodies: seq<Bytes>, max: nat) {
    if bodies == [] then true
    else if |bodies[0]| <= max then Survives(bodies[1..], max)
    else |bodies[0]| < UINT32 || |bodies[0]| % UINT32 > max
  }

  /** Without a bound on the bodies: what arrives is what was sent exactly if no body of 4 GiB or more
      is cut by the cast to a length the receiver accepts. */
  lemma {:induction false} InOrderIff(bodies: seq<Bytes>, max: nat)
    requires max < UINT32
    ensures Posts(Stream(bodies), max) <= bodies <==> Survives(bodies, max)
    decreases |bodies|
  {
    hide Frame, Posts;
    if bodies == [] {
      NothingPosted([], max);
    } else {
      var rest := Stream(bodies[1..]);
      assert bodies == [bodies[0]] + bodies[1..];
      if |bodies[0]| < UINT32 {
        InOrderIff(bodies[1..], max);
        PostsFrame(bodies[0], Stream(bodies), rest, max);
        assert Stream(bodies)[|Frame(bodies[0])|..] == rest;
        if |bodies[0]| <= max {
          assert Posts(Stream(bodies), max)[1..] == Posts(rest, max);
        }
      } else {
        CutBody(bodies[0], rest, max);
      }
    }
  }

  lemma CutBody(body: Bytes, behind: Bytes, max: nat)
    requires |body| >= UINT32
    ensures
      var n := |body| % UINT32;
      if n > max then Posts(Frame(body) + behind, max) == []
      else |Posts(Frame(body) + behind, max)| > 0 && |Posts(Frame(body) + behind, max)[0]| == n
  {
    hide Encode, Decode, Head;
    HeadLength(body, body + behind);
    assert Frame(body) + behind == Head(body) + (body + behind);
  }

  // ---------------------------------------------------------------- the loops

  /** The sender's buffers for one batch: a head per message, in one vector, each followed by its body. */
  method GatherBatch(list: seq<Bytes>) returns (bufs: seq<Bytes>)
    ensures Flatten(bufs) == Stream(list)
  {
    hide Frame, Head, Encode;
    var heads := new Byte[|list| * HEAD_SIZE](_ => 0);
    bufs := [];
    for ct := 0 to |list|
      invariant Flatten(bufs) == Stream(list[..ct])
    {
      var h := WriteHead(heads, ct, |list[ct]| % UINT32);
      assert list[..ct + 1] == list[..ct] + [list[ct]];
      StreamAppend(list[..ct], [list[ct]]);
      StreamOne(list[ct]);
      FramePieces(list[ct], h);
      FlattenAppend(bufs, [h, list[ct]]);
      bufs := bufs + [h, list[ct]];
    }
    assert list[..|list|] == list;
  }

  lemma FramePieces(body: Bytes, head: Bytes)
    requires head == [HEAD_BYTE_1, HEAD_BYTE_2] + Encode(|body| % UINT32, 4)
    ensures Flatten([head, body]) == Frame(body)
  {
    hide Encode;
    FlattenAppend([head], [body]);
    assert [head] + [body] == [head, body];
    FlattenOne(head);
    FlattenOne(body);
  }

  method WriteHead(heads: array<Byte>, ct: nat, n: nat) returns (head: Bytes)
    requires (ct + 1) * HEAD_SIZE <= heads.Length && n < UINT32
    modifies heads
    ensures head == [HEAD_BYTE_1, HEAD_BYTE_2] + Encode(n, 4)
  {
    hide Encode;
    var at := ct * HEAD_SIZE;
    heads[at] := HEAD_BYTE_1;
    heads[at + 1] := HEAD_BYTE_2;
    Limits();
    ghost var front := heads[..at + 2];
    SetBufFromUint(heads, at + 2, n, 4);
    assert heads[..at + 2] == heads[..][..at + 2] == front;
    assert heads[at + 2..at + 6] == heads[..][at + 2..at + 6] == Encode(n, 4);
    head := heads[at..at + HEAD_SIZE];
    assert head == heads[at..at + 2] + heads[at + 2..at + 6];
    assert heads[at..at + 2] == front[at..] == [HEAD_BYTE_1, HEAD_BYTE_2];
  }

  /** The receive loop over the bytes that arrive before the connection ends. */
  method Receive(bytes: Bytes, max: nat) returns (posted: seq<Bytes>)
    ensures posted == Posts(bytes, max)
  {
    hide Decode, Posts;
    posted := [];
    var at := 0;
    assert bytes[0..] == bytes;
    while |bytes| - at >= HEAD_SIZE
      invariant at <= |bytes| && posted + Posts(bytes[at..], max) == Posts(bytes, max)
      decreases |bytes| - at
    {
      ghost var left := bytes[at..];
      var head := bytes[at..at + HEAD_SIZE];
      assert head == left[..HEAD_SIZE];
      PostsNext(left, max);
      if head[0] != HEAD_BYTE_1 || head[1] != HEAD_BYTE_2 {
        return;
      }
      var n := GetUintFromBuf(head[2..]);
      assert head[2..] == left[2..HEAD_SIZE];
      if n > max || |bytes| - at < HEAD_SIZE + n {
        return;
      }
      var body := bytes[at + HEAD_SIZE..at + HEAD_SIZE + n];
      assert body == left[HEAD_SIZE..HEAD_SIZE + n] && bytes[at + HEAD_SIZE + n..] == left[HEAD_SIZE + n..];
      AssocPosts(posted, body, Posts(left[HEAD_SIZE + n..], max));
      posted := posted + [body];
      at := at + HEAD_SIZE + n;
    }
    PostsNext(bytes[at..], max);
  }

  lemma AssocPosts(posted: seq<Bytes>, body: Bytes, more: seq<Bytes>)
    ensures posted + ([body] + more) == (posted + [body]) + more
  {}

  /** The cases of the receive loop. */
  lemma PostsNext(left: Bytes, max: nat)
    ensures |left| < 6 ==> Posts(left, max) == []
    ensures |left| >= 6 && (left[0] != 89 || left[1] != 84) ==> Posts(left, max) == []
    ensures
      |left| >= 6 && (Decode(left[2..6]) > max || |left| < 6 + Decode(left[2..6])) ==>
        Posts(left, max) == []
    ensures
      (|left| >= 6 && left[0] == 89 && left[1] == 84
       && Decode(left[2..6]) <= max
       && |left| >= 6 + Decode(left[2..6])) ==>
        (var n := Decode(left[2..6]);
         Posts(left, max) == [left[6..6 + n]] + Posts(left[6 + n..], max))
  {
    hide Decode;
  }
}
