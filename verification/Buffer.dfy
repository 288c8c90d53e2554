/** Little-endian integers, length-prefixed strings and the two cursor classes over a byte buffer. */
module Buffer {
  import opened Wrappers

  type Byte = b: int | 0 <= b < 0x100

  type Bytes = seq<Byte>

  datatype Error = OutOfBounds | LengthRange

  type Result<+T> = Outcome<T, Error>

  /** Number of values a `w`-byte integer can take. */
  function Limit(w: nat): (r: nat)
    ensures r > 0
  {
    if w == 0 then 1 else 0x100 * Limit(w - 1)
  }

  /** The low `w` bytes of `n`, lowest first. */
  function Encode(n: nat, w: nat): (bytes: seq<Byte>)
    ensures |bytes| == w
  {
    if w == 0 then [] else [n % 0x100] + Encode(n / 0x100, w - 1)
  }

  function Decode(bytes: seq<Byte>): (n: nat)
    ensures n < Limit(|bytes|)
  {
    if bytes == [] then 0 else bytes[0] + 0x100 * Decode(bytes[1..])
  }

  lemma {:induction false} DecodeEncode(n: nat, w: nat)
    ensures Decode(Encode(n, w)) == n % Limit(w)
  {
    if w > 0 {
      DecodeEncode(n / 0x100, w - 1);
      assert Encode(n, w)[1..] == Encode(n / 0x100, w - 1);
      SplitMod(n, Limit(w - 1));
    }
  }

  lemma SplitMod(n: nat, m: nat)
    requires m > 0
    ensures n % 0x100 + 0x100 * (n / 0x100 % m) == n % (0x100 * m)
  {
    var q := n / 0x100 / m;
    var low := n % 0x100 + 0x100 * (n / 0x100 % m);
    assert n / 0x100 == m * q + n / 0x100 % m;
    assert n == 0x100 * (n / 0x100) + n % 0x100;
    assert n == (0x100 * m) * q + low by {
      assert 0x100 * (m * q) == (0x100 * m) * q;
    }
    assert 0 <= low < 0x100 * m;
    ModUnique(n, 0x100 * m, q, low);
  }

  lemma SmallMod(n: nat, m: nat)
    requires n < m
    ensures n % m == n
  {}

  lemma ModUnique(n: nat, m: nat, q: int, r: nat)
    requires 0 <= r < m && n == m * q + r
    ensures n % m == r
  {
    var q2 := n / m;
    assert m * (q - q2) == n % m - r;
    if q > q2 {
      MulAtLeast(m, q - q2);
      assert false;
    } else if q < q2 {
      MulAtLeast(m, q2 - q);
      assert false;
    }
  }

  lemma MulAtLeast(m: int, k: int)
    requires m >= 0
    requires k > 0
    ensures m * k >= m
  {
    assert m * k == m + m * (k - 1);
  }

  lemma {:induction false} EncodeDecode(bytes: seq<Byte>)
    ensures Encode(Decode(bytes), |bytes|) == bytes
  {
    if bytes != [] {
      EncodeDecode(bytes[1..]);
      assert Decode(bytes) % 0x100 == bytes[0] && Decode(bytes) / 0x100 == Decode(bytes[1..]);
      assert bytes == [bytes[0]] + bytes[1..];
    }
  }

  lemma Limits()
    ensures Limit(1) == 0x100 && Limit(2) == 0x1_0000 && Limit(4) == 0x1_0000_0000
    ensures Limit(8) == 0x1_0000_0000_0000_0000
  {
    assert Limit(4) == 0x100 * (0x100 * (0x100 * (0x100 * Limit(0))));
    assert Limit(8) == 0x100 * (0x100 * (0x100 * (0x100 * Limit(4))));
  }

  /** On the wire the lowest byte comes first. */
  lemma LittleEndian(n: nat)
    ensures Encode(n, 1) == [n % 0x100]
    ensures Encode(n, 2) == [n % 0x100, n / 0x100 % 0x100]
    ensures Encode(n, 4) == [n % 0x100, n / 0x100 % 0x100, n / 0x1_0000 % 0x100, n / 0x100_0000 % 0x100]
  {
    assert n / 0x100 / 0x100 == n / 0x1_0000;
    assert n / 0x1_0000 / 0x100 == n / 0x100_0000;
    assert Encode(n / 0x100, 1) == [n / 0x100 % 0x100] + Encode(n / 0x1_0000, 0);
    assert Encode(n / 0x1_0000, 2) == [n / 0x1_0000 % 0x100] + Encode(n / 0x100_0000, 1);
    assert Encode(n / 0x100_0000, 1) == [n / 0x100_0000 % 0x100] + Encode(n / 0x100_0000 / 0x100, 0);
    assert Encode(n / 0x100, 3) == [n / 0x100 % 0x100] + Encode(n / 0x1_0000, 2);
  }

  /** A string with its length in front, in `w` bytes. */
  function EncodeString(s: seq<Byte>, w: nat): (bytes: seq<Byte>)
    ensures |bytes| == w + |s|
  {
    Encode(|s|, w) + s
  }

  /** GetString at the front of `data`: the string, and the data behind it. */
  function TakeString(data: seq<Byte>, w: nat): (r: Result<(seq<Byte>, seq<Byte>)>)
    ensures r.Ok? ==> |r.value.0| + w + |r.value.1| == |data|
  {
    if |data| < w then Err(OutOfBounds)
    else
      var n := Decode(data[..w]);
      if |data| < w + n then Err(OutOfBounds)
      else Ok((data[w..w + n], data[w + n..]))
  }

  /** Reading back a string that fits its length prefix. */
  lemma TakeEncoded(s: seq<Byte>, w: nat, rest: seq<Byte>)
    requires |s| < Limit(w)
    ensures TakeString(EncodeString(s, w) + rest, w) == Ok((s, rest))
  {
    hide Encode, Decode, Limit;
    DecodeEncode(|s|, w);
    SmallMod(|s|, Limit(w));
    var data := EncodeString(s, w) + rest;
    assert data[..w] == Encode(|s|, w);
    assert data[w..w + |s|] == s;
    assert data[w + |s|..] == rest;
  }

  /** Only an encoding can be read: what is taken, encoded again, is what was there. */
  lemma TakenIsEncoded(data: seq<Byte>, w: nat)
    requires TakeString(data, w).Ok?
    ensures var (s, rest) := TakeString(data, w).value; |s| < Limit(w) && data == EncodeString(s, w) + rest
  {
    hide Encode, Decode, Limit;
    EncodeDecode(data[..w]);
    var (s, rest) := TakeString(data, w).value;
    assert data == data[..w] + s + rest;
  }

  /** SetBufFromUint16, SetBufFromUint32, SetBufFromUint64: one byte per shift. */
  method SetBufFromUint(p: array<Byte>, at: nat, n: nat, w: nat)
    requires at + w <= p.Length && n < Limit(w)
    modifies p
    ensures p[..] == old(p[..at]) + Encode(n, w) + old(p[at + w..])
  {
    hide Encode;
    var shifted := n;
    ghost var all := Encode(n, w);
    ghost var was := p[..];
    for i := 0 to w
      invariant Encode(shifted, w - i) == all[i..]
      invariant p[..] == was[..at] + all[..i] + was[at + i..]
    {
      EncodeStep(shifted, w - i);
      assert all[i..][0] == all[i] && all[i..][1..] == all[i + 1..];
      PutByte(p, at, all, was, i, shifted % 0x100);
      shifted := shifted / 0x100;
    }
    assert all[..w] == all;
  }

  lemma EncodeStep(n: nat, w: nat)
    requires w > 0
    ensures Encode(n, w)[0] == n % 0x100 && Encode(n, w)[1..] == Encode(n / 0x100, w - 1)
  {}

  method PutByte(p: array<Byte>, at: nat, ghost all: seq<Byte>, ghost was: seq<Byte>, i: nat, b: Byte)
    requires i < |all| && at + |all| <= p.Length == |was| && b == all[i]
    requires p[..] == was[..at] + all[..i] + was[at + i..]
    modifies p
    ensures p[..] == was[..at] + all[..i + 1] + was[at + i + 1..]
  {
    ghost var before := p[..];
    p[at + i] := b;
    assert p[..] == before[at + i := b];
    assert all[..i + 1] == all[..i] + [all[i]];
    assert before == was[..at] + all[..i] + [was[at + i]] + was[at + i + 1..];
  }

  /** GetUint16FromBuf, GetUint32FromBuf, GetUint64FromBuf: each byte added in at its own weight. */
  method GetUintFromBuf(p: seq<Byte>) returns (n: nat)
    ensures n == Decode(p)
  {
    hide Decode;
    n := 0;
    var weight: nat := 1;
    assert p[0..] == p;
    for i := 0 to |p|
      invariant Decode(p) == n + weight * Decode(p[i..])
    {
      DecodeStep(p, i, n, weight);
      n := n + weight * p[i];
      weight := weight * 0x100;
    }
    DecodeNone(p[|p|..], weight);
  }

  lemma DecodeStep(p: seq<Byte>, i: nat, n: nat, weight: nat)
    requires i < |p| && Decode(p) == n + weight * Decode(p[i..])
    ensures Decode(p) == (n + weight * p[i]) + (weight * 0x100) * Decode(p[i + 1..])
  {
    hide Decode;
    DecodeTail(p, i);
    var d: int := Decode(p[i + 1..]);
    MulShift(weight, p[i], d);
    assert weight * Decode(p[i..]) == weight * (p[i] + 0x100 * d);
  }

  lemma DecodeTail(p: seq<Byte>, i: nat)
    requires i < |p|
    ensures Decode(p[i..]) == p[i] + 0x100 * Decode(p[i + 1..])
  {
    assert p[i..][1..] == p[i + 1..];
  }

  lemma MulShift(w: int, b: int, d: int)
    ensures w * (b + 0x100 * d) == w * b + (w * 0x100) * d
  {}

  lemma DecodeNone(bytes: seq<Byte>, weight: nat)
    requires bytes == []
    ensures Decode(bytes) == 0 && weight * Decode(bytes) == 0
  {}

  class BufferOperator {
    const buf: array<Byte>
    var cur: nat

    ghost predicate Valid()
      reads this
    {
      cur <= buf.Length
    }

    /** What has been written so far. */
    ghost function Written(): seq<Byte>
      reads this, buf
      requires Valid()
    {
      buf[..cur]
    }

    constructor (buf: array<Byte>)
      ensures Valid() && this.buf == buf && cur == 0
    {
      this.buf := buf;
      cur := 0;
    }

    method GetRemainingSize() returns (n: nat)
      requires Valid()
      ensures n == buf.Length - cur
    {
      n := buf.Length - cur;
    }

    method JumpTo(pos: nat) returns (r: Result<()>)
      requires Valid()
      modifies this`cur
      ensures Valid()
      ensures r == if pos <= buf.Length then Ok(()) else Err(OutOfBounds)
      ensures cur == if pos <= buf.Length then pos else old(cur)
    {
      if pos > buf.Length {
        return Err(OutOfBounds);
      }
      cur := pos;
      return Ok(());
    }

    method Skip(len: nat) returns (r: Result<nat>)
      requires Valid()
      modifies this`cur
      ensures Valid()
      ensures r == if old(cur) + len <= buf.Length then Ok(cur) else Err(OutOfBounds)
      ensures cur == if old(cur) + len <= buf.Length then old(cur) + len else old(cur)
    {
      if cur + len > buf.Length {
        return Err(OutOfBounds);
      }
      cur := cur + len;
      return Ok(cur);
    }

    /** SetUint8, SetUint16, SetUint32, SetUint64 with `w` 1, 2, 4, 8. */
    method SetUint(n: nat, w: nat) returns (r: Result<()>)
      requires Valid() && n < Limit(w)
      modifies this`cur, buf
      ensures Valid()
      ensures r == if old(cur) + w <= buf.Length then Ok(()) else Err(OutOfBounds)
      ensures r.Ok? ==> cur == old(cur) + w && Written() == old(Written()) + Encode(n, w)
      ensures r.Ok? ==> buf[cur..] == old(buf[cur + w..])
      ensures r.Err? ==> cur == old(cur) && buf[..] == old(buf[..])
    {
      if cur + w > buf.Length {
        return Err(OutOfBounds);
      }
      SetBufFromUint(buf, cur, n, w);
      cur := cur + w;
      ghost var front := old(buf[..cur]) + Encode(n, w);
      assert buf[..] == front + old(buf[cur + w..]);
      assert buf[..cur] == buf[..][..cur] == front;
      assert buf[cur..] == buf[..][cur..] == old(buf[cur + w..]);
      return Ok(());
    }

    method SetBuffer(data: seq<Byte>) returns (r: Result<()>)
      requires Valid()
      modifies this`cur, buf
      ensures Valid()
      ensures r == if old(cur) + |data| <= buf.Length then Ok(()) else Err(OutOfBounds)
      ensures r.Ok? ==> cur == old(cur) + |data| && Written() == old(Written()) + data
      ensures r.Ok? ==> buf[cur..] == old(buf[cur + |data|..])
      ensures r.Err? ==> cur == old(cur) && buf[..] == old(buf[..])
    {
      if cur + |data| > buf.Length {
        return Err(OutOfBounds);
      }
      forall i | 0 <= i < |data| {
        buf[cur + i] := data[i];
      }
      cur := cur + |data|;
      return Ok(());
    }

    /** The bounds of prefix and text together are checked first, then whether the prefix can hold
        the length. */
    method SetString(s: seq<Byte>, w: nat) returns (r: Result<()>)
      requires Valid()
      modifies this`cur, buf
      ensures Valid()
      ensures r.Ok? <==> old(cur) + w + |s| <= buf.Length && |s| < Limit(w)
      ensures r == Err(OutOfBounds) <==> old(cur) + w + |s| > buf.Length
      ensures r.Ok? ==> cur == old(cur) + w + |s| && Written() == old(Written()) + EncodeString(s, w)
      ensures r.Ok? ==> buf[cur..] == old(buf[cur + w + |s|..])
      ensures r.Err? ==> cur == old(cur) && buf[..] == old(buf[..])
    {
      if cur + w + |s| > buf.Length {
        return Err(OutOfBounds);
      }
      if |s| >= Limit(w) {
        return Err(LengthRange);
      }
      ghost var front := Written();
      r := SetUint(|s|, w);
      ghost var middle := buf[cur..];
      r := SetBuffer(s);
      assert front + Encode(|s|, w) + s == front + EncodeString(s, w);
      assert buf[cur..] == middle[|s|..];
    }
  }

  class ConstBufferOperator {
    const data: seq<Byte>
    var cur: nat

    ghost predicate Valid()
      reads this
    {
      cur <= |data|
    }

    constructor (data: seq<Byte>)
      ensures Valid() && this.data == data && cur == 0
    {
      this.data := data;
      cur := 0;
    }

    method GetUint(w: nat) returns (r: Result<nat>)
      requires Valid()
      modifies this`cur
      ensures Valid()
      ensures old(cur) + w <= |data| ==> r == Ok(Decode(data[old(cur)..old(cur) + w])) && cur == old(cur) + w
      ensures old(cur) + w > |data| ==> r == Err(OutOfBounds) && cur == old(cur)
    {
      if cur + w > |data| {
        return Err(OutOfBounds);
      }
      var n := GetUintFromBuf(data[cur..cur + w]);
      cur := cur + w;
      return Ok(n);
    }

    method GetBuffer(len: nat) returns (r: Result<seq<Byte>>)
      requires Valid()
      modifies this`cur
      ensures Valid()
      ensures old(cur) + len <= |data| ==> r == Ok(data[old(cur)..old(cur) + len]) && cur == old(cur) + len
      ensures old(cur) + len > |data| ==> r == Err(OutOfBounds) && cur == old(cur)
    {
      if cur + len > |data| {
        return Err(OutOfBounds);
      }
      cur := cur + len;
      return Ok(data[cur - len..cur]);
    }

    method GetString(w: nat) returns (r: Result<seq<Byte>>)
      requires Valid()
      modifies this`cur
      ensures Valid()
      ensures match TakeString(data[old(cur)..], w)
              case Ok((s, rest)) => r == Ok(s) && data[cur..] == rest
              case Err(e) => r == Err(e)
    {
      ghost var from := data[cur..];
      var n :- GetUint(w);
      assert from[..w] == data[old(cur)..old(cur) + w];
      r := GetBuffer(n);
      if r.Ok? {
        assert r.value == data[old(cur) + w..old(cur) + w + n] == from[w..w + n];
        assert from[w + n..] == data[cur..];
      }
    }

    method GetRemainingBuffer() returns (rest: seq<Byte>)
      requires Valid()
      modifies this`cur
      ensures Valid() && rest == data[old(cur)..] && cur == |data|
    {
      var r := GetBuffer(|data| - cur);
      rest := r.value;
    }
  }
}
