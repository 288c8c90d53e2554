/** Iceoryx channel: publishing through loaned shared memory, and reading the chunk back.
    A chunk starts with the length of what was written, in 4 bytes, then the packet. */
module Iceoryx {
  import opened Buffer
  import opened Packets
  import opened IceoryxLoans
  import opened Seqs
  import opened Wrappers

  // ---------------------------------------------------------------- the chunk

  const UINT32: nat := 0x1_0000_0000

  /** The length is stored as a 32-bit integer; whatever the chunk holds behind is not looked at. */
  ghost predicate Filled(chunk: Bytes, c: Content) {
    var total := 4 + |Packet(c)|;
    total <= |chunk| && chunk[..total] == Encode(total % UINT32, 4) + Packet(c)
  }

  /** With a stored length outside 4..|chunk| the reader would run past the chunk. */
  function ParseChunk(chunk: Bytes): Result<Content>
    requires |chunk| >= 4
  {
    var total := Decode(chunk[..4]);
    if total < 4 || total > |chunk| then Err(OutOfBounds) else Parse(chunk[4..total])
  }

  /** The subscriber sees what was published exactly when the whole chunk's length fits 32 bits. */
  lemma ChunkRoundTrip(chunk: Bytes, c: Content)
    requires Filled(chunk, c) && Encodable(c.serializationType, c.meta) && |c.meta| % 2 == 0
    ensures ParseChunk(chunk) == Ok(c) <==> 4 + |Packet(c)| < UINT32
  {
    hide Encode, Decode, Limit, Packet, Parse, Encodable;
    var total := 4 + |Packet(c)|;
    Limits();
    DecodeEncode(total % UINT32, 4);
    SmallMod(total % UINT32, UINT32);
    var stored := Decode(chunk[..4]);
    assert chunk[..4] == chunk[..total][..4] == Encode(total % UINT32, 4);
    assert stored == total % UINT32;
    if total < UINT32 {
      SmallMod(total, UINT32);
      assert chunk[4..total] == chunk[..total][4..] == Packet(c);
      PacketRoundTrip(c);
    } else if ParseChunk(chunk) == Ok(c) {
      PacketOfParse(chunk[4..stored]);
    }
  }

  /** The length in front counts itself, lowest byte first; the packet follows. */
  lemma ChunkBytes(chunk: Bytes, c: Content)
    requires Filled(chunk, c)
    ensures
      var n := 4 + |Packet(c)|;
      && n <= |chunk| && chunk[4..n] == Packet(c)
      && var m := n % 0x1_0000_0000;
        chunk[..4] == [m % 0x100, m / 0x100 % 0x100, m / 0x1_0000 % 0x100, m / 0x100_0000 % 0x100]
  {
    hide Encode, Packet;
    var n := 4 + |Packet(c)|;
    LittleEndian(n % UINT32);
    assert chunk[..4] == chunk[..n][..4];
    assert chunk[4..n] == chunk[..n][4..];
  }

  datatype Fill = Written | OutOfMemory | Bad

  /** One pass of the publishing loop over a chunk that has room for the header. */
  method FillChunk(mem: array<Byte>, ty: Bytes, meta: seq<Bytes>, message: Bytes) returns (r: Fill)
    requires |meta| / 2 < 0x100 && 4 + |Header(ty, meta)| <= mem.Length
    modifies mem
    ensures r == Bad <==> !Encodable(ty, meta)
    ensures r.Written? <==> Encodable(ty, meta) && 4 + |Packet(Content(ty, meta, message))| <= mem.Length
    ensures r.Written? ==> Filled(mem[..], Content(ty, meta, message))
  {
    hide Header, Encodable, Encode, Limit, Packet, Filled;
    HeaderOfPacket(ty, meta, message);
    var op := new BufferOperator(mem);
    var n := op.Skip(4);
    ghost var head := op.Written();
    var w := WriteHeader(op, ty, meta);
    if w.Err? {
      return Bad;
    }
    var min := op.cur;
    assert op.Written()[4..] == Header(ty, meta);
    if |message| > mem.Length - min {
      return OutOfMemory;
    }
    var total := min + |message|;
    WriteMessage(mem, min, message, ty, meta);
    ghost var was := mem[4..];
    var j := op.JumpTo(0);
    Limits();
    var u := op.SetUint(total % UINT32, 4);
    assert mem[..4] == Encode(total % UINT32, 4) && mem[4..] == was;
    FilledFrom(mem[..], Content(ty, meta, message));
    return Fill.Written;
  }

  method WriteMessage(mem: array<Byte>, min: nat, message: Bytes, ty: Bytes, meta: seq<Bytes>)
    requires 4 <= min && min + |message| <= mem.Length && mem[..min][4..] == Header(ty, meta)
    modifies mem
    ensures mem[4..][..min + |message| - 4] == Packet(Content(ty, meta, message))
  {
    hide Header;
    ghost var was := mem[..];
    assert was[4..min] == Header(ty, meta);
    forall i | 0 <= i < |message| {
      mem[min + i] := message[i];
    }
    assert mem[4..][..min + |message| - 4] == was[4..min] + message;
  }

  lemma FilledFrom(mem: Bytes, c: Content)
    requires
      var total := 4 + |Packet(c)|;
      total <= |mem| && mem[..4] == Encode(total % UINT32, 4) && mem[4..][..total - 4] == Packet(c)
    ensures Filled(mem, c)
  {
    hide Packet, Encode;
    var total := 4 + |Packet(c)|;
    assert mem[..total] == mem[..4] + mem[4..][..total - 4];
  }

  // ---------------------------------------------------------------- the subscriber

  /** Whether the handler gets to the release of a chunk: the packet parses and the callback returns. */
  predicate HandledWell(chunk: Bytes, callbackThrows: Bytes -> bool)
    requires |chunk| >= 4
  {
    ParseChunk(chunk).Ok? && !callbackThrows(chunk)
  }

  /** The first chunk whose handling throws, or the number of chunks. */
  function FirstThrow(chunks: seq<Bytes>, callbackThrows: Bytes -> bool): (k: nat)
    requires forall i :: 0 <= i < |chunks| ==> |chunks[i]| >= 4
    ensures k <= |chunks|
  {
    if chunks == [] || !HandledWell(chunks[0], callbackThrows) then 0
    else 1 + FirstThrow(chunks[1..], callbackThrows)
  }

  lemma {:induction false} FirstThrowThrows(chunks: seq<Bytes>, callbackThrows: Bytes -> bool)
    requires forall i :: 0 <= i < |chunks| ==> |chunks[i]| >= 4
    ensures
      var k := FirstThrow(chunks, callbackThrows);
      && (k < |chunks| ==> !HandledWell(chunks[k], callbackThrows))
      && (forall i :: 0 <= i < k ==> HandledWell(chunks[i], callbackThrows))
    decreases |chunks|
  {
    hide HandledWell;
    if chunks != [] && HandledWell(chunks[0], callbackThrows) {
      FirstThrowThrows(chunks[1..], callbackThrows);
    }
  }

  lemma {:induction false} FirstThrowIs(chunks: seq<Bytes>, callbackThrows: Bytes -> bool, k: nat)
    requires forall i :: 0 <= i < |chunks| ==> |chunks[i]| >= 4
    requires k <= |chunks| && (k < |chunks| ==> !HandledWell(chunks[k], callbackThrows))
    requires forall i :: 0 <= i < k ==> HandledWell(chunks[i], callbackThrows)
    ensures FirstThrow(chunks, callbackThrows) == k
    decreases k
  {
    if k > 0 {
      FirstThrowIs(chunks[1..], callbackThrows, k - 1);
    }
  }

  /** The listener's handler: takes the waiting chunks one by one and releases each after the user's
      callback. Chunks are named by their place; an exception ends the loop. So each taken chunk is
      released, exactly once, if and only if nothing throws; otherwise the last one taken never is. */
  method HandleData(chunks: seq<Bytes>, callbackThrows: Bytes -> bool)
    returns (taken: seq<nat>, released: seq<nat>, delivered: seq<Content>)
    requires forall i :: 0 <= i < |chunks| ==> |chunks[i]| >= 4
    ensures
      var k := FirstThrow(chunks, callbackThrows);
      && released == seq(k, i => i)
      && taken == (if k < |chunks| then released + [k] else released)
      && k <= |delivered| <= |taken| && (forall i :: 0 <= i < |delivered| ==> ParseChunk(chunks[i]) == Ok(delivered[i]))
    ensures taken == released <==>
      forall i :: 0 <= i < |chunks| ==> ParseChunk(chunks[i]).Ok? && !callbackThrows(chunks[i])
  {
    hide ParseChunk, FirstThrow;
    taken, released, delivered := [], [], [];
    for i := 0 to |chunks|
      invariant taken == released == seq(i, j => j) && |delivered| == i
      invariant forall j :: 0 <= j < i ==> HandledWell(chunks[j], callbackThrows)
      invariant forall j :: 0 <= j < i ==> ParseChunk(chunks[j]) == Ok(delivered[j])
    {
      assert seq(i + 1, j => j) == seq(i, j => j) + [i];
      taken := taken + [i];
      var c := ParseChunk(chunks[i]);
      if c.Err? {
        FirstThrowIs(chunks, callbackThrows, i);
        return;
      }
      delivered := delivered + [c.value];
      if callbackThrows(chunks[i]) {
        FirstThrowIs(chunks, callbackThrows, i);
        return;
      }
      released := released + [i];
    }
    FirstThrowIs(chunks, callbackThrows, |chunks|);
  }

  // ---------------------------------------------------------------- the publisher

  /** ptr_ and size_, with the number the handle has in the ledger. */
  class IoxLoanedShm {
    ghost const h: nat
    var ptr: array?<Byte>
    var size: nat

    constructor (ghost h: nat, ptr: array<Byte>)
      ensures this.h == h && this.ptr == ptr && size == ptr.Length
    {
      this.h := h;
      this.ptr := ptr;
      this.size := ptr.Length;
    }
  }

  class IoxPublisher {
    const capacity: nat
    var shmSize: nat
    ghost var ledger: State

    /** The pool's largest chunk is far below the address range. */
    ghost predicate Valid()
      reads this
    {
      2 * capacity <= HALF_SIZE_T && ledger.shmSize == shmSize && Inv(ledger, capacity)
    }

    /** The handle object agrees with the ledger. */
    ghost predicate Tracks(shm: IoxLoanedShm)
      reads this, shm
    {
      && shm.h in ledger.phase && ledger.phase[shm.h] == Open
      && (shm.ptr != null <==> shm.h in ledger.held)
      && (shm.ptr != null ==> shm.ptr.Length == shm.size && shm.h in ledger.size && ledger.size[shm.h] == shm.size)
    }

    constructor (shmSize: nat, capacity: nat)
      requires 0 < shmSize < SIZE_T && 2 * capacity <= HALF_SIZE_T
      ensures Valid() && this.capacity == capacity && ledger == Init(shmSize)
    {
      this.capacity := capacity;
      this.shmSize := shmSize;
      this.ledger := Init(shmSize);
      InitInv(shmSize, capacity);
    }

    /** `available`: whether the pool has a free chunk, if the size is one it serves. Null: the assertion
        on the loan threw. */
    method LoanShm(ghost h: nat, min: nat, available: bool) returns (shm: IoxLoanedShm?)
      requires Valid() && h !in ledger.phase && min <= HALF_SIZE_T
      modifies this`shmSize, this`ledger
      ensures Valid() && Enabled(old(ledger), Loan(h, min, shm != null), capacity)
      ensures ledger == Next(old(ledger), Loan(h, min, shm != null), capacity)
      ensures shm != null <==> available && shmSize <= capacity
      ensures shm != null ==>
          fresh(shm) && shm.h == h && shm.ptr != null && fresh(shm.ptr) && shm.size == shmSize && Tracks(shm)
    {
      hide Inv, Grow;
      StartPositive(ledger, capacity);
      shmSize := GrowInPlace(shmSize, min);
      ghost var granted := available && shmSize <= capacity;
      StepKeepsInv(ledger, Loan(h, min, granted), capacity);
      ledger := Next(ledger, Loan(h, min, granted), capacity);
      if !available || shmSize > capacity {
        return null;
      }
      var mem := new Byte[shmSize](_ => 0);
      shm := new IoxLoanedShm(h, mem);
    }

    /** Releases first: when the second loan fails the handle is left without a chunk. */
    method UpdateLoanShm(shm: IoxLoanedShm, available: bool) returns (ok: bool)
      requires Valid() && Tracks(shm) && shm.ptr != null
      modifies this`shmSize, this`ledger, shm
      ensures Valid() && Tracks(shm) && Enabled(old(ledger), Update(shm.h, ok), capacity)
      ensures ledger == Next(old(ledger), Update(shm.h, ok), capacity)
      ensures shm.h in old(ledger.held) && ledger.published == old(ledger.published)
      ensures ledger.released == old(ledger.released) + [old(ledger.held)[shm.h]]
      ensures ok == (shm.ptr != null) == (available && shmSize <= capacity)
      ensures ok ==> fresh(shm.ptr) && shm.size == shmSize
    {
      hide Inv, Grow;
      StartPositive(ledger, capacity);
      SizeWithinCapacity(ledger, shm.h, capacity);
      shmSize := GrowInPlace(shmSize, 2 * shm.size);
      ok := available && shmSize <= capacity;
      StepKeepsInv(ledger, Update(shm.h, ok), capacity);
      ledger := Next(ledger, Update(shm.h, ok), capacity);
      shm.ptr := null;
      if ok {
        shm.ptr := new Byte[shmSize](_ => 0);
        shm.size := shmSize;
      }
    }

    method PublishShm(shm: IoxLoanedShm)
      requires Valid() && Tracks(shm) && shm.ptr != null
      modifies this`ledger, shm`ptr
      ensures Valid() && Tracks(shm) && shm.ptr == null
      ensures Enabled(old(ledger), Step.Publish(shm.h), capacity)
      ensures ledger == Next(old(ledger), Step.Publish(shm.h), capacity)
      ensures shm.h in old(ledger.held) && ledger.released == old(ledger.released)
      ensures ledger.published == old(ledger.published) + [old(ledger.held)[shm.h]]
    {
      hide Inv;
      StartPositive(ledger, capacity);
      StepKeepsInv(ledger, Step.Publish(shm.h), capacity);
      ledger := Next(ledger, Step.Publish(shm.h), capacity);
      shm.ptr := null;
    }

    /** ~IoxLoanedShm, on every way out of Publish. */
    method Destroy(shm: IoxLoanedShm)
      requires Valid() && Tracks(shm)
      modifies this`ledger, shm`ptr
      ensures Valid() && shm.ptr == null && Enabled(old(ledger), Step.Destroy(shm.h), capacity)
      ensures ledger == Next(old(ledger), Step.Destroy(shm.h), capacity)
      ensures ledger.published == old(ledger.published)
      ensures ledger.released == old(ledger.released) +
        if shm.h in old(ledger.held) then [old(ledger.held)[shm.h]] else []
    {
      hide Inv;
      StartPositive(ledger, capacity);
      StepKeepsInv(ledger, Step.Destroy(shm.h), capacity);
      ledger := Next(ledger, Step.Destroy(shm.h), capacity);
      shm.ptr := null;
    }
  }

  lemma StartPositive(s: State, capacity: nat)
    requires Inv(s, capacity)
    ensures 0 < s.shmSize < SIZE_T
  {}

  lemma SizeWithinCapacity(s: State, h: nat, capacity: nat)
    requires Inv(s, capacity) && h in s.held
    ensures h in s.phase && h in s.size && h in s.retries && s.size[h] <= capacity
  {}

  // ---------------------------------------------------------------- Publish

  datatype Outcome = Sent(chunk: Bytes) | TooMany | NoShm | CannotWrite | CannotSerialize

  /** A chunk at least twice as large for the one at hand. */
  method Exchange(p: IoxPublisher, shm: IoxLoanedShm, ghost needed: nat, available: bool) returns (ok: bool)
    requires p.Valid() && p.Tracks(shm) && shm.ptr != null && 0 < shm.size <= p.capacity && shm.size < needed
    modifies p`shmSize, p`ledger, shm
    ensures p.Valid() && p.Tracks(shm) && p.ledger.published == old(p.ledger.published)
    ensures ok == (shm.ptr != null) == (available && p.shmSize <= p.capacity)
    ensures ok ==> fresh(shm.ptr) && 2 * old(shm.size) <= shm.size == p.shmSize == shm.ptr.Length
    ensures old(shm.size) == old(p.shmSize) ==>
      && p.shmSize == 2 * old(shm.size) < 2 * needed
      && (Fits(old(p.shmSize), needed, p.capacity) <==> Fits(p.shmSize, needed, p.capacity))
      && (!ok && available ==> !Fits(old(p.shmSize), needed, p.capacity))
  {
    hide Inv, Grow, Next, Enabled;
    ghost var before := p.ledger;
    GrowIsFrugal(before, p.capacity, 2 * shm.size, 0);
    FitsDoubled(shm.size, needed, p.capacity);
    ok := p.UpdateLoanShm(shm, available);
    StepEffects(before, Update(shm.h, ok), p.capacity);
  }

  /** The loop of Publish: write, and while the serializer runs out of space, exchange the chunk for
      one at least twice as large. Other calls may have let the publisher's size grow in between. */
  method FillWithRetry(
      p: IoxPublisher, shm: IoxLoanedShm, ty: Bytes, meta: seq<Bytes>, message: Bytes, serializable: bool,
      available: nat -> bool)
    returns (r: Outcome)
    requires p.Valid() && p.Tracks(shm) && shm.ptr != null
    requires |meta| / 2 < 0x100 && 4 + |Header(ty, meta)| <= shm.size
    modifies p`shmSize, p`ledger, shm, shm.ptr
    ensures p.Valid() && p.Tracks(shm) && p.ledger.published == old(p.ledger.published)
    ensures old(shm.size) == old(p.shmSize) ==>
      p.shmSize == old(p.shmSize) || p.shmSize < 2 * (4 + |Packet(Content(ty, meta, message))|)
    ensures r.Sent? ==> serializable && Encodable(ty, meta) && shm.ptr != null && r.chunk == shm.ptr[..]
    ensures r.Sent? ==> Filled(r.chunk, Content(ty, meta, message))
    ensures
      var fits := Fits(old(p.shmSize), 4 + |Packet(Content(ty, meta, message))|, p.capacity);
      old(shm.size) == old(p.shmSize) ==>
        && (r.Sent? ==> fits)
        && ((forall i :: available(i)) && Encodable(ty, meta) && serializable && fits ==> r.Sent?)
    ensures !r.TooMany?
    ensures r.CannotWrite? ==> !Encodable(ty, meta)
    ensures r.CannotSerialize? ==> !serializable
    ensures r.NoShm? ==> (exists i :: !available(i)) || p.shmSize > p.capacity
  {
    hide Inv, Header, Encodable, Filled, Grow, Packet, Encode, Next, Enabled, Fits;
    HeaderOfPacket(ty, meta, message);
    SizeWithinCapacity(p.ledger, shm.h, p.capacity);
    assert shm.ptr.Length == shm.size;
    hide IoxPublisher.Valid, IoxPublisher.Tracks;
    ghost var needed := 4 + |Packet(Content(ty, meta, message))|;
    var i := 1;
    while true
      invariant p.Valid() && p.Tracks(shm) && shm.ptr != null && (shm.ptr == old(shm.ptr) || fresh(shm.ptr))
      invariant 4 + |Header(ty, meta)| <= shm.size <= p.capacity && shm.ptr.Length == shm.size
      invariant old(shm.size) == old(p.shmSize) ==>
        && shm.size == p.shmSize
        && (Fits(shm.size, needed, p.capacity) <==> Fits(old(p.shmSize), needed, p.capacity))
      invariant old(shm.size) == old(p.shmSize) ==> p.shmSize == old(p.shmSize) || p.shmSize < 2 * needed
      invariant p.ledger.published == old(p.ledger.published)
      decreases p.capacity - shm.size
    {
      var f := FillChunk(shm.ptr, ty, meta, if serializable then message else []);
      match f {
        case Bad =>
          return CannotWrite;
        case Written =>
          if !serializable {
            return CannotSerialize;
          }
          FitsDoubled(shm.size, needed, p.capacity);
          return Sent(shm.ptr[..]);
        case OutOfMemory =>
          if !serializable {
            return CannotSerialize;
          }
          var ok := Exchange(p, shm, needed, available(i));
          i := i + 1;
          if !ok {
            return NoShm;
          }
      }
    }
  }

  /** Publish without a cached serialization. `message` is what the serializer writes, unless it fails
      for another reason than space. `available(i)` answers the i-th request to the pool. */
  method Publish(
      p: IoxPublisher, ghost h: nat, ty: Bytes, meta: seq<Bytes>, message: Bytes, serializable: bool,
      available: nat -> bool)
    returns (r: Outcome)
    requires p.Valid() && h !in p.ledger.phase
    requires 4 + |Packet(Content(ty, meta, message))| <= HALF_SIZE_T
    modifies p`shmSize, p`ledger
    ensures p.Valid() && h !in p.ledger.held
    ensures r.TooMany? <==> |meta| / 2 > 255
    ensures !r.TooMany? ==> h in p.ledger.phase && p.ledger.phase[h] == Closed
    ensures r.Sent? ==> Encodable(ty, meta) && Filled(r.chunk, Content(ty, meta, message))
    ensures r.Sent? ==> exists c :: p.ledger.published == old(p.ledger.published) + [c]
    ensures !r.Sent? ==> p.ledger.published == old(p.ledger.published)
    ensures p.shmSize == old(p.shmSize) || p.shmSize < 2 * (4 + |Packet(Content(ty, meta, message))|)
    ensures
      var fits := Fits(old(p.shmSize), 4 + |Packet(Content(ty, meta, message))|, p.capacity);
      && (r.Sent? ==> Encodable(ty, meta) && serializable && fits)
      && ((forall i :: available(i)) && Encodable(ty, meta) && serializable && fits ==> r.Sent?)
    ensures (forall i :: available(i)) && r.NoShm? ==> p.shmSize > p.capacity
  {
    hide Inv, Header, Encodable, Filled, Grow, Packet, Encode, Next, Enabled, EncodeStrings, Fits;
    HeaderOfPacket(ty, meta, message);
    NewHandleIsEmpty(p.ledger, h, p.capacity);
    if |meta| / 2 > 255 {
      return TooMany;
    }
    var metaSize := MetaSize(meta);
    var minShmSize := 4 + 1 + |ty| + metaSize;
    ghost var before := p.ledger;
    ghost var needed := 4 + |Packet(Content(ty, meta, message))|;
    GrowIsFrugal(before, p.capacity, minShmSize, needed);
    FitsFromHere(before.shmSize, minShmSize, needed, p.capacity);
    if Grow(before.shmSize, minShmSize) > p.capacity {
      TooBig(before.shmSize, minShmSize, needed, p.capacity);
    }
    var shm := p.LoanShm(h, minShmSize, available(0));
    StepEffects(before, Loan(h, minShmSize, shm != null), p.capacity);
    if shm == null {
      return NoShm;
    }
    r := FillWithRetry(p, shm, ty, meta, message, serializable, available);
    if r.Sent? {
      before := p.ledger;
      p.PublishShm(shm);
      StepEffects(before, Step.Publish(h), p.capacity);
    }
    before := p.ledger;
    p.Destroy(shm);
    StepEffects(before, Step.Destroy(h), p.capacity);
  }

  /** Publish when the message was serialized before: one loan of the exact size, filled in order. */
  method PublishCached(p: IoxPublisher, ghost h: nat, ty: Bytes, meta: seq<Bytes>, bufs: seq<Bytes>, available: bool)
    returns (r: Outcome)
    requires p.Valid() && h !in p.ledger.phase
    requires 4 + |Packet(Content(ty, meta, Flatten(bufs)))| <= HALF_SIZE_T
    modifies p`shmSize, p`ledger
    ensures p.Valid() && h !in p.ledger.held
    ensures r.TooMany? <==> |meta| / 2 > 255
    ensures !r.TooMany? ==> h in p.ledger.phase && p.ledger.phase[h] == Closed
    ensures r.Sent? ==> Encodable(ty, meta) && Filled(r.chunk, Content(ty, meta, Flatten(bufs)))
    ensures r.Sent? ==> exists c :: p.ledger.published == old(p.ledger.published) + [c]
    ensures !r.Sent? ==> p.ledger.published == old(p.ledger.published)
    ensures r.Sent? <==>
      && available && Encodable(ty, meta)
      && Fits(old(p.shmSize), 4 + |Packet(Content(ty, meta, Flatten(bufs)))|, p.capacity)
    ensures available && r.NoShm? ==> p.shmSize > p.capacity
  {
    hide Inv, Header, Encodable, Filled, Grow, Packet, Encode, Next, Enabled, EncodeStrings, Flatten;
    HeaderOfPacket(ty, meta, Flatten(bufs));
    NewHandleIsEmpty(p.ledger, h, p.capacity);
    if |meta| / 2 > 255 {
      return TooMany;
    }
    var metaSize := MetaSize(meta);
    var msgSize := FlattenedSize(bufs);
    var shmSize := 4 + 1 + |ty| + metaSize + msgSize;
    ghost var before := p.ledger;
    GrowIsFrugal(before, p.capacity, shmSize, shmSize);
    assert Fits(before.shmSize, shmSize, p.capacity) <==> Grow(before.shmSize, shmSize) <= p.capacity;
    var shm := p.LoanShm(h, shmSize, available);
    StepEffects(before, Loan(h, shmSize, shm != null), p.capacity);
    if shm == null {
      return NoShm;
    }
    var ok := FillCached(shm.ptr, shmSize, ty, meta, bufs);
    r := CannotWrite;
    if ok {
      r := Sent(shm.ptr[..]);
      before := p.ledger;
      p.PublishShm(shm);
      StepEffects(before, Step.Publish(h), p.capacity);
    }
    before := p.ledger;
    p.Destroy(shm);
    StepEffects(before, Step.Destroy(h), p.capacity);
  }

  method FillCached(mem: array<Byte>, size: nat, ty: Bytes, meta: seq<Bytes>, bufs: seq<Bytes>) returns (ok: bool)
    requires |meta| / 2 < 0x100 && size == 4 + |Packet(Content(ty, meta, Flatten(bufs)))| <= mem.Length
    modifies mem
    ensures ok <==> Encodable(ty, meta)
    ensures ok ==> Filled(mem[..], Content(ty, meta, Flatten(bufs)))
  {
    hide Header, Encodable, Filled, Packet, Encode, Limit, EncodeStrings, Flatten;
    HeaderOfPacket(ty, meta, Flatten(bufs));
    Limits();
    var op := new BufferOperator(mem);
    var u := op.SetUint(size % UINT32, 4);
    var w := WriteHeader(op, ty, meta);
    if w.Err? {
      return false;
    }
    var b := WriteBuffers(op, bufs);
    ghost var c := Content(ty, meta, Flatten(bufs));
    PacketIs(c);
    Assoc(Encode(size % UINT32, 4), Header(ty, meta), Flatten(bufs));
    assert mem[..size] == op.Written() == [] + Encode(size % UINT32, 4) + Header(ty, meta) + Flatten(bufs);
    FilledIs(mem[..], c);
    return true;
  }

  lemma PacketIs(c: Content)
    ensures Packet(c) == Header(c.serializationType, c.meta) + c.message
  {
    hide Header;
  }

  lemma FilledIs(mem: Bytes, c: Content)
    requires var total := 4 + |Packet(c)|; total <= |mem| && mem[..total] == Encode(total % UINT32, 4) + Packet(c)
    ensures Filled(mem, c)
  {
    hide Packet, Encode;
  }

  lemma NewHandleIsEmpty(s: State, h: nat, capacity: nat)
    requires Inv(s, capacity) && h !in s.phase
    ensures h !in s.held
  {}

  lemma StepEffects(s: State, step: Step, capacity: nat)
    requires Enabled(s, step, capacity)
    ensures
      var t := Next(s, step, capacity);
      t.published == if step.Publish? then s.published + [s.held[step.h]] else s.published
    ensures step.Destroy? ==> step.h !in Next(s, step, capacity).held
    ensures (step.Destroy? || (step.Loan? && !step.granted)) ==>
        step.h in Next(s, step, capacity).phase && Next(s, step, capacity).phase[step.h] == Closed
    ensures step.Loan? && !step.granted ==> Next(s, step, capacity).held == s.held
    ensures step.Loan? ==> Next(s, step, capacity).shmSize == Grow(s.shmSize, step.min)
    ensures step.Update? ==> Next(s, step, capacity).shmSize == Grow(s.shmSize, 2 * s.size[step.h])
    ensures step.Destroy? || step.Publish? ==> Next(s, step, capacity).shmSize == s.shmSize
  {
    hide Grow;
  }

  lemma TooBig(size: nat, min: nat, needed: nat, capacity: nat)
    requires 0 < size < SIZE_T && min <= needed && min <= HALF_SIZE_T && Grow(size, min) > capacity
    ensures !Fits(size, needed, capacity)
  {
    FitsFromHere(size, min, needed, capacity);
  }

  lemma HeaderOfPacket(ty: Bytes, meta: seq<Bytes>, message: Bytes)
    ensures |Packet(Content(ty, meta, message))| == |Header(ty, meta)| + |message|
    ensures |Header(ty, meta)| == 1 + |ty| + 1 + |EncodeStrings(meta)|
    ensures |meta| / 2 > 255 ==> !Encodable(ty, meta)
  {
    hide EncodeStrings;
  }

  lemma GrowIsFrugal(s: State, capacity: nat, min: nat, needed: nat)
    requires Inv(s, capacity) && min <= HALF_SIZE_T
    ensures 0 < s.shmSize < SIZE_T && Grow(s.shmSize, min) >= min
    ensures min <= needed ==> Grow(s.shmSize, min) == s.shmSize || Grow(s.shmSize, min) < 2 * needed
    ensures min == 2 * s.shmSize && s.shmSize < needed ==> Grow(s.shmSize, min) < 2 * needed
  {
    if min > s.shmSize {
      assert Grow(s.shmSize, min) == Grow(2 * s.shmSize, min);
    }
  }
}
