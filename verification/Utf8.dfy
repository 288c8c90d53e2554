/** Truncating UTF-8 text without cutting a character. */
module Utf8 {
  import opened Buffer

  predicate Continuation(b: Byte) {
    0x80 <= b < 0xC0
  }

  /** Bytes in the character a lead byte starts (section 4 of RFC 3629), 0 for a byte that starts none. */
  function Width(lead: Byte): nat {
    if lead < 0x80 then 1
    else if 0xC2 <= lead <= 0xDF then 2
    else if 0xE0 <= lead <= 0xEF then 3
    else if 0xF0 <= lead <= 0xF4 then 4
    else 0
  }

  /** The second byte's range is narrower behind four of the lead bytes. */
  predicate SecondFits(lead: Byte, second: Byte) {
    && Continuation(second)
    && (lead == 0xE0 ==> second >= 0xA0)
    && (lead == 0xED ==> second <= 0x9F)
    && (lead == 0xF0 ==> second >= 0x90)
    && (lead == 0xF4 ==> second <= 0x8F)
  }

  predicate Character(s: Bytes) {
    && s != [] && Width(s[0]) == |s|
    && (|s| > 1 ==> SecondFits(s[0], s[1]))
    && (forall i :: 2 <= i < |s| ==> Continuation(s[i]))
  }

  /** A sequence of whole characters. */
  predicate Valid(s: Bytes)
    decreases |s|
  {
    s == [] || (var w := Width(s[0]); 0 < w <= |s| && Character(s[..w]) && Valid(s[w..]))
  }

  // ---------------------------------------------------------------- what valid text is

  /** The numbers that characters have: all below 0x110000 but the surrogates. */
  predicate Scalar(c: nat) {
    c < 0xD800 || 0xE000 <= c < 0x11_0000
  }

  /** The encoding of one character (section 3 of RFC 3629). */
  function EncodePoint(c: nat): (s: Bytes)
    requires Scalar(c)
    ensures s != []
  {
    if c < 0x80 then [c]
    else if c < 0x800 then [0xC0 + c / 0x40, 0x80 + c % 0x40]
    else if c < 0x1_0000 then [0xE0 + c / 0x1000, 0x80 + c / 0x40 % 0x40, 0x80 + c % 0x40]
    else [0xF0 + c / 0x4_0000, 0x80 + c / 0x1000 % 0x40, 0x80 + c / 0x40 % 0x40, 0x80 + c % 0x40]
  }

  ghost predicate Scalars(cs: seq<nat>) {
    forall i :: 0 <= i < |cs| ==> Scalar(cs[i])
  }

  function EncodePoints(cs: seq<nat>): Bytes
    requires forall i :: 0 <= i < |cs| ==> Scalar(cs[i])
  {
    if cs == [] then [] else EncodePoint(cs[0]) + EncodePoints(cs[1..])
  }

  lemma PointIsCharacter(c: nat)
    requires Scalar(c)
    ensures Character(EncodePoint(c))
  {}

  lemma Digits(a: nat, b: nat)
    requires b < 0x40
    ensures (a * 0x40 + b) / 0x40 == a && (a * 0x40 + b) % 0x40 == b
  {}

  lemma CharacterIsPoint(s: Bytes) returns (c: nat)
    requires Character(s)
    ensures Scalar(c) && EncodePoint(c) == s
  {
    var b: seq<int> := s;
    if |s| == 1 {
      c := b[0];
    } else if |s| == 2 {
      Digits(b[0] - 0xC0, b[1] - 0x80);
      c := (b[0] - 0xC0) * 0x40 + (b[1] - 0x80);
    } else if |s| == 3 {
      c := ThreeBytes(b[0], b[1], b[2]);
      assert s == [s[0], s[1], s[2]];
    } else {
      c := FourBytes(b[0], b[1], b[2], b[3]);
      assert s == [s[0], s[1], s[2], s[3]];
    }
  }

  lemma ThreeBytes(x: Byte, y: Byte, z: Byte) returns (c: nat)
    requires 0xE0 <= x <= 0xEF && SecondFits(x, y) && Continuation(z)
    ensures Scalar(c) && EncodePoint(c) == [x, y, z]
  {
    var p: nat, q: nat, r: nat := x as int - 0xE0, y as int - 0x80, z as int - 0x80;
    var high := p * 0x40 + q;
    c := high * 0x40 + r;
    Digits(p, q);
    Digits(high, r);
    assert c / 0x40 == high && c / 0x1000 == high / 0x40;
    assert 0x800 <= c < 0x1_0000;
  }

  lemma FourBytes(x: Byte, y: Byte, z: Byte, w: Byte) returns (c: nat)
    requires 0xF0 <= x <= 0xF4 && SecondFits(x, y) && Continuation(z) && Continuation(w)
    ensures Scalar(c) && EncodePoint(c) == [x, y, z, w]
  {
    var p: nat, q: nat, r: nat, t: nat := x as int - 0xF0, y as int - 0x80, z as int - 0x80, w as int - 0x80;
    var top := p * 0x40 + q;
    var high := top * 0x40 + r;
    c := high * 0x40 + t;
    Digits(p, q);
    Digits(top, r);
    Digits(high, t);
    assert c / 0x40 == high && c / 0x1000 == high / 0x40 && c / 0x4_0000 == top / 0x40;
    assert 0x1_0000 <= c < 0x11_0000;
  }

  /** Valid text is exactly the encoding of a sequence of characters. */
  lemma ValidIff(s: Bytes)
    ensures Valid(s) <==> exists cs | Scalars(cs) :: EncodePoints(cs) == s
  {
    hide Valid;
    if Valid(s) {
      var cs := ValidIsEncoded(s);
    }
    forall cs | Scalars(cs) ensures Valid(EncodePoints(cs)) {
      EncodedIsValid(cs);
    }
  }

  lemma {:induction false} EncodedIsValid(cs: seq<nat>)
    requires Scalars(cs)
    ensures Valid(EncodePoints(cs))
    decreases |cs|
  {
    if cs != [] {
      hide EncodePoint, Character;
      EncodedIsValid(cs[1..]);
      PointIsCharacter(cs[0]);
      OneMoreCharacter(EncodePoint(cs[0]), EncodePoints(cs[1..]));
    }
  }

  lemma OneMoreCharacter(first: Bytes, rest: Bytes)
    requires Character(first) && Valid(rest)
    ensures Valid(first + rest)
  {
    var s := first + rest;
    assert s[..|first|] == first && s[|first|..] == rest;
  }

  lemma {:induction false} ValidIsEncoded(s: Bytes) returns (cs: seq<nat>)
    requires Valid(s)
    ensures Scalars(cs) && EncodePoints(cs) == s
    decreases |s|
  {
    hide EncodePoint, Character;
    cs := [];
    if s != [] {
      var w := Width(s[0]);
      var c := CharacterIsPoint(s[..w]);
      var more := ValidIsEncoded(s[w..]);
      cs := [c] + more;
      assert cs[1..] == more;
      assert s == s[..w] + s[w..];
    }
  }

  /** SafeUtf8TruncationLength: steps back over continuation bytes. */
  method SafeTruncationLength(s: Bytes, desired: nat) returns (n: nat)
    ensures n == Cut(s, desired)
  {
    if desired >= |s| {
      return |s|;
    }
    n := desired;
    if !Continuation(s[n]) {
      return;
    }
    while n > 0 && Continuation(s[n])
      invariant n <= desired && Cut(s, n) == Cut(s, desired)
    {
      n := n - 1;
    }
  }

  function Cut(s: Bytes, desired: nat): (n: nat)
    ensures n <= |s| && n <= desired
  {
    if desired >= |s| then |s|
    else if desired == 0 || !Continuation(s[desired]) then desired
    else Cut(s, desired - 1)
  }

  lemma {:induction false} CutSteps(s: Bytes, desired: nat)
    requires desired < |s|
    ensures
      var n := Cut(s, desired);
      (n == 0 || !Continuation(s[n])) && forall i :: n < i <= desired ==> Continuation(s[i])
    decreases desired
  {
    if desired > 0 && Continuation(s[desired]) {
      CutSteps(s, desired - 1);
    }
  }

  /** In valid text a prefix is valid exactly if it does not stop before a continuation byte. */
  lemma {:induction false} ValidPrefixIff(s: Bytes, k: nat)
    requires Valid(s) && k <= |s|
    ensures Valid(s[..k]) <==> (k == |s| || !Continuation(s[k]))
    decreases |s|
  {
    if s != [] && k > 0 {
      var w := Width(s[0]);
      if k >= w {
        ValidPrefixIff(s[w..], k - w);
        assert s[w..][..k - w] == s[..k][w..];
        assert s[..k][..w] == s[..w];
      } else {
        InsideCharacter(s[..w], k);
        assert s[k] == s[..w][k];
      }
    } else if s != [] {
      assert s[..0] == [];
      LeadIsNoContinuation(s[0]);
    }
  }

  lemma LeadIsNoContinuation(b: Byte)
    requires Width(b) > 0
    ensures !Continuation(b)
  {}

  lemma InsideCharacter(s: Bytes, k: nat)
    requires Character(s) && 0 < k < |s|
    ensures Continuation(s[k])
  {}

  /** Four continuation bytes never follow each other. */
  lemma {:induction false} FewContinuations(s: Bytes, a: nat, b: nat)
    requires Valid(s) && a <= b < |s| && forall i :: a <= i <= b ==> Continuation(s[i])
    ensures b - a < 3
    decreases |s|
  {
    var w := Width(s[0]);
    LeadIsNoContinuation(s[0]);
    if w < |s| {
      NextIsLead(s);
    }
    if a >= w {
      forall i | a - w <= i <= b - w ensures Continuation(s[w..][i]) {
        assert s[w..][i] == s[i + w];
      }
      FewContinuations(s[w..], a - w, b - w);
    }
  }

  lemma NextIsLead(s: Bytes)
    requires Valid(s) && s != [] && Width(s[0]) < |s|
    ensures !Continuation(s[Width(s[0])])
  {
    var rest := s[Width(s[0])..];
    assert rest[0] == s[Width(s[0])];
    LeadIsNoContinuation(rest[0]);
  }

  /** The result is the length of the longest valid prefix within the limit, and at most three bytes
      are given up for it. */
  lemma LongestValidPrefix(s: Bytes, desired: nat)
    requires Valid(s)
    ensures var n := Cut(s, desired); Valid(s[..n]) && forall k :: n < k <= |s| && k <= desired ==> !Valid(s[..k])
    ensures (if desired < |s| then desired else |s|) - Cut(s, desired) <= 3
  {
    var n := Cut(s, desired);
    if desired >= |s| {
      assert s[..n] == s;
    } else {
      CutSteps(s, desired);
      ValidPrefixIff(s, n);
      if n == 0 {
        assert s[..0] == [];
      }
      forall k | n < k <= desired ensures !Valid(s[..k]) {
        ValidPrefixIff(s, k);
      }
      if n < desired {
        FewContinuations(s, n + 1, desired);
      }
    }
  }
}
