/** Percent-encoding of bytes (sections 2.1 and 2.3 of RFC 3986), in two forms: for URLs, where a space
    becomes '+', and for HTTP header names. And the MQTT topics built from encoded names. */
module Url {
  import opened Buffer

  datatype Form = UrlForm | HeaderForm

  const PERCENT: Byte := 37
  const PLUS: Byte := 43
  const SPACE: Byte := 32
  const SLASH: Byte := 47
  const HASH: Byte := 35

  predicate Alnum(c: Byte) {
    48 <= c <= 57 || 65 <= c <= 90 || 97 <= c <= 122
  }

  /** The bytes that stand for themselves: '-', and for URLs also '.', '_' and '~'. */
  predicate Plain(form: Form, c: Byte) {
    Alnum(c) || c == 45 || (form.UrlForm? && (c == 46 || c == 95 || c == 126))
  }

  function ToHex(x: Byte, up: bool): Byte
    requires x < 16
  {
    if x > 9 then x + (if up then 65 else 97) - 10 else x + 48
  }

  /** Anything that is not a digit counts as zero. */
  function FromHex(x: Byte): (d: Byte)
    ensures d < 16
  {
    if 48 <= x <= 57 then x - 48
    else if 65 <= x <= 70 then x - 65 + 10
    else if 97 <= x <= 102 then x - 97 + 10
    else 0
  }

  function EncodeByte(form: Form, c: Byte, up: bool): Bytes {
    if Plain(form, c) then [c]
    else if form.UrlForm? && c == SPACE then [PLUS]
    else [PERCENT, ToHex(c / 16, up), ToHex(c % 16, up)]
  }

  function Encoded(form: Form, s: Bytes, up: bool): Bytes {
    if s == [] then [] else EncodeByte(form, s[0], up) + Encoded(form, s[1..], up)
  }

  /** A '%' without two bytes behind it ends the decoding. */
  function Decoded(form: Form, s: Bytes): Bytes {
    if s == [] then []
    else if form.UrlForm? && s[0] == PLUS then [SPACE] + Decoded(form, s[1..])
    else if s[0] == PERCENT then
      if |s| < 3 then [] else [FromHex(s[1]) * 16 + FromHex(s[2])] + Decoded(form, s[3..])
    else [s[0]] + Decoded(form, s[1..])
  }

  /** A character's code. */
  function Code(c: char): Byte
    requires c < 128 as char
  {
    c as int
  }

  const UPPER_DIGITS := "0123456789ABCDEF"
  const LOWER_DIGITS := "0123456789abcdef"

  /** The characters that section 2.3 of RFC 3986 leaves as they are. */
  predicate Unreserved(c: Byte) {
    || Code('A') <= c <= Code('Z') || Code('a') <= c <= Code('z') || Code('0') <= c <= Code('9')
    || c == Code('-') || c == Code('.') || c == Code('_') || c == Code('~')
  }

  /** One byte encoded, in characters: for URLs the unreserved ones stay and a space becomes a plus, for
      headers only letters, digits and the hyphen stay; the rest is a percent sign and two hex digits. */
  lemma ByteIsWritten(c: Byte, up: bool)
    ensures
      var digits := if up then UPPER_DIGITS else LOWER_DIGITS;
      var escaped := [Code('%'), Code(digits[c / 16]), Code(digits[c % 16])];
      && Encoded(UrlForm, [c], up) ==
         (if Unreserved(c) then [c] else if c == Code(' ') then [Code('+')] else escaped)
      && Encoded(HeaderForm, [c], up) ==
         (if Unreserved(c) && c != Code('.') && c != Code('_') && c != Code('~') then [c] else escaped)
  {
    HexDigit(c / 16, up);
    HexDigit(c % 16, up);
    hide ToHex;
    EncodedOne(UrlForm, c, up);
    EncodedOne(HeaderForm, c, up);
  }

  lemma EncodedOne(form: Form, c: Byte, up: bool)
    ensures Encoded(form, [c], up) == EncodeByte(form, c, up)
  {
    hide EncodeByte;
    assert [c][1..] == [];
    assert Encoded(form, [], up) == [];
  }

  lemma HexDigit(x: Byte, up: bool)
    requires x < 16
    ensures ToHex(x, up) == Code((if up then UPPER_DIGITS else LOWER_DIGITS)[x])
  {}

  /** A hex digit in either case has its value; anything else counts as zero. */
  lemma HexValue(x: Byte)
    ensures forall i :: 0 <= i < 16 && (x == Code(UPPER_DIGITS[i]) || x == Code(LOWER_DIGITS[i])) ==> FromHex(x) == i
    ensures (forall i :: 0 <= i < 16 ==> x != ToHex(i, true) && x != ToHex(i, false)) ==> FromHex(x) == 0
  {
    forall i | 0 <= i < 16 ensures Code(UPPER_DIGITS[i]) == ToHex(i, true) && Code(LOWER_DIGITS[i]) == ToHex(i, false) {
      HexDigit(i, true);
      HexDigit(i, false);
    }
    forall i | 0 <= i < 16 && (x == ToHex(i, true) || x == ToHex(i, false)) ensures FromHex(x) == i {
      HexRoundTrip(i, true);
      HexRoundTrip(i, false);
    }
    var d := FromHex(x);
    if d > 0 {
      assert x == ToHex(d, true) || x == ToHex(d, false);
    }
  }

  /** Encoding is byte by byte. */
  lemma {:induction false} EncodedAppend(form: Form, s: Bytes, t: Bytes, up: bool)
    ensures Encoded(form, s + t, up) == Encoded(form, s, up) + Encoded(form, t, up)
    decreases |s|
  {
    hide EncodeByte;
    if s == [] {
      assert s + t == t;
    } else {
      EncodedAppend(form, s[1..], t, up);
      assert (s + t)[1..] == s[1..] + t;
      Assoc3(EncodeByte(form, s[0], up), Encoded(form, s[1..], up), Encoded(form, t, up));
    }
  }

  lemma HexRoundTrip(x: Byte, up: bool)
    requires x < 16
    ensures FromHex(ToHex(x, up)) == x && Alnum(ToHex(x, up))
  {}

  lemma DecodeOne(form: Form, c: Byte, up: bool, rest: Bytes)
    ensures Decoded(form, EncodeByte(form, c, up) + rest) == [c] + Decoded(form, rest)
  {
    var s := EncodeByte(form, c, up) + rest;
    HexRoundTrip(c / 16, up);
    HexRoundTrip(c % 16, up);
    if Plain(form, c) || (form.UrlForm? && c == SPACE) {
      assert s[1..] == rest;
    } else {
      assert s[3..] == rest;
    }
  }

  /** Decoding undoes encoding, in either hex case, on every byte string. */
  lemma {:induction false} RoundTrip(form: Form, s: Bytes, up: bool)
    ensures Decoded(form, Encoded(form, s, up)) == s
    decreases |s|
  {
    hide Decoded, EncodeByte;
    if s == [] {
      DecodeNothing(form);
    } else {
      RoundTrip(form, s[1..], up);
      DecodeOne(form, s[0], up, Encoded(form, s[1..], up));
      assert s == [s[0]] + s[1..];
    }
  }

  lemma DecodeNothing(form: Form)
    ensures Decoded(form, []) == []
  {}

  /** Different texts have different encodings, whatever the hex cases. */
  lemma EncodingIsInjective(form: Form, s: Bytes, t: Bytes, up: bool, up2: bool)
    requires Encoded(form, s, up) == Encoded(form, t, up2)
    ensures s == t
  {
    RoundTrip(form, s, up);
    RoundTrip(form, t, up2);
  }

  /** What an encoding is made of: no '/' and no '#', and a '+' exactly where there was a space. */
  lemma {:induction false} EncodedAlphabet(form: Form, s: Bytes, up: bool)
    ensures forall c :: c in Encoded(form, s, up) ==> Plain(form, c) || c == PERCENT || (form.UrlForm? && c == PLUS)
    ensures form.UrlForm? ==> (PLUS in Encoded(form, s, up) <==> SPACE in s)
    ensures SLASH !in Encoded(form, s, up) && HASH !in Encoded(form, s, up)
    decreases |s|
  {
    if s != [] {
      EncodedAlphabet(form, s[1..], up);
      var one, rest := EncodeByte(form, s[0], up), Encoded(form, s[1..], up);
      ByteAlphabet(form, s[0], up);
      hide EncodeByte, Plain;
      assert forall c :: c in one + rest ==> c in one || c in rest;
      assert SPACE in s <==> s[0] == SPACE || SPACE in s[1..];
      assert PLUS in one + rest <==> PLUS in one || PLUS in rest;
    }
  }

  lemma ByteAlphabet(form: Form, b: Byte, up: bool)
    ensures forall c :: c in EncodeByte(form, b, up) ==> Plain(form, c) || c == PERCENT || (form.UrlForm? && c == PLUS)
    ensures form.UrlForm? ==> (PLUS in EncodeByte(form, b, up) <==> b == SPACE)
    ensures SLASH !in EncodeByte(form, b, up) && HASH !in EncodeByte(form, b, up)
  {
    HexRoundTrip(b / 16, up);
    HexRoundTrip(b % 16, up);
  }

  // ---------------------------------------------------------------- the loops

  lemma Assoc3(a: Bytes, b: Bytes, c: Bytes)
    ensures a + (b + c) == (a + b) + c
  {}

  method Encode(form: Form, str: Bytes, up: bool) returns (ret: Bytes)
    ensures ret == Encoded(form, str, up)
  {
    hide Encoded, Plain, ToHex;
    ret := [];
    assert str[0..] == str;
    for i := 0 to |str|
      invariant ret + Encoded(form, str[i..], up) == Encoded(form, str, up)
    {
      var c := str[i];
      EncodedStep(form, str, i, up);
      Assoc3(ret, EncodeByte(form, c, up), Encoded(form, str[i + 1..], up));
      if Plain(form, c) {
        ret := ret + [c];
      } else if form.UrlForm? && c == SPACE {
        ret := ret + [PLUS];
      } else {
        ret := ret + [PERCENT, ToHex(c / 16, up), ToHex(c % 16, up)];
      }
    }
    EncodeNothing(form, str[|str|..], up);
  }

  lemma EncodedStep(form: Form, s: Bytes, i: nat, up: bool)
    requires i < |s|
    ensures Encoded(form, s[i..], up) == EncodeByte(form, s[i], up) + Encoded(form, s[i + 1..], up)
  {
    hide EncodeByte;
    assert s[i..][1..] == s[i + 1..];
  }

  lemma EncodeNothing(form: Form, s: Bytes, up: bool)
    requires s == []
    ensures Encoded(form, s, up) == []
  {}

  method Decode(form: Form, str: Bytes) returns (ret: Bytes)
    ensures ret == Decoded(form, str)
  {
    hide Decoded, FromHex;
    ret := [];
    var i := 0;
    assert str[0..] == str;
    while i < |str|
      invariant i <= |str| && ret + Decoded(form, str[i..]) == Decoded(form, str)
    {
      DecodedStep(form, str, i);
      if form.UrlForm? && str[i] == PLUS {
        Assoc3(ret, [SPACE], Decoded(form, str[i + 1..]));
        ret := ret + [SPACE];
        i := i + 1;
      } else if str[i] == PERCENT {
        if i + 2 >= |str| {
          return;
        }
        var b: Byte := FromHex(str[i + 1]) * 16 + FromHex(str[i + 2]);
        Assoc3(ret, [b], Decoded(form, str[i + 3..]));
        ret := ret + [b];
        i := i + 3;
      } else {
        Assoc3(ret, [str[i]], Decoded(form, str[i + 1..]));
        ret := ret + [str[i]];
        i := i + 1;
      }
    }
    assert str[i..] == [];
    DecodeNothing(form);
  }

  lemma DecodedStep(form: Form, s: Bytes, i: nat)
    requires i < |s|
    ensures form.UrlForm? && s[i] == PLUS ==> Decoded(form, s[i..]) == [SPACE] + Decoded(form, s[i + 1..])
    ensures s[i] == PERCENT && i + 2 >= |s| ==> Decoded(form, s[i..]) == []
    ensures s[i] == PERCENT && i + 2 < |s| ==>
        Decoded(form, s[i..]) == [FromHex(s[i + 1]) * 16 + FromHex(s[i + 2])] + Decoded(form, s[i + 3..])
    ensures s[i] != PERCENT && !(form.UrlForm? && s[i] == PLUS) ==>
        Decoded(form, s[i..]) == [s[i]] + Decoded(form, s[i + 1..])
  {
    hide FromHex;
    assert s[i..][1..] == s[i + 1..];
    if i + 2 < |s| {
      assert s[i..][3..] == s[i + 3..];
    }
  }

  // ---------------------------------------------------------------- topics

  /** "/channel/". */
  const CHANNEL: Bytes := [47, 99, 104, 97, 110, 110, 101, 108, 47]

  /** "aimrt_rpc_req/". */
  const REQUESTS: Bytes := [97, 105, 109, 114, 116, 95, 114, 112, 99, 95, 114, 101, 113, 47]

  function Codes(s: string): Bytes
    requires forall i :: 0 <= i < |s| ==> s[i] < 128 as char
  {
    seq(|s|, i requires 0 <= i < |s| => Code(s[i]))
  }

  /** The topics as they go to the broker: names in upper-case hex, levels joined by slashes. */
  lemma TopicsAreWritten(a: Bytes, b: Bytes)
    ensures ChannelTopic(a, b)
      == Codes("/channel/") + Encoded(UrlForm, a, true) + Codes("/") + Encoded(UrlForm, b, true)
    ensures SharedRequestTopic(a) == Codes("aimrt_rpc_req/") + Encoded(UrlForm, a, true)
    ensures ClientRequestTopic(a, b)
      == Codes("aimrt_rpc_req/") + Encoded(UrlForm, a, true) + Codes("/") + Encoded(UrlForm, b, true)
  {
    hide Encoded;
    assert Codes("/channel/") == CHANNEL;
    assert Codes("aimrt_rpc_req/") == REQUESTS;
    assert Codes("/") == [SLASH];
  }

  function Name(s: Bytes): Bytes {
    Encoded(UrlForm, s, true)
  }

  function ChannelTopic(topic: Bytes, msgType: Bytes): Bytes {
    CHANNEL + (Name(topic) + [SLASH] + Name(msgType))
  }

  function SharedRequestTopic(func: Bytes): Bytes {
    REQUESTS + Name(func)
  }

  function ClientRequestTopic(client: Bytes, func: Bytes): Bytes {
    REQUESTS + (Name(client) + [SLASH] + Name(func))
  }

  lemma NameHasNoSlash(s: Bytes)
    ensures SLASH !in Name(s)
  {
    EncodedAlphabet(UrlForm, s, true);
  }

  /** Two texts without '/', joined by one, can be told apart again. */
  lemma SplitAtSlash(a: Bytes, b: Bytes, c: Bytes, d: Bytes)
    requires SLASH !in a && SLASH !in c && a + [SLASH] + b == c + [SLASH] + d
    ensures a == c && b == d
  {
    var whole := a + [SLASH] + b;
    assert whole[|a|] == SLASH;
    assert (c + [SLASH] + d)[|c|] == SLASH;
    assert forall i :: 0 <= i < |c| ==> whole[i] == c[i] && c[i] in c;
    assert forall i :: 0 <= i < |a| ==> whole[i] == a[i] && a[i] in a;
    assert a == whole[..|a|] == c;
    assert b == whole[|a| + 1..] == d;
  }

  lemma SamePrefix(p: Bytes, a: Bytes, b: Bytes)
    requires p + a == p + b
    ensures a == b
  {
    assert a == (p + a)[|p|..] && b == (p + b)[|p|..];
  }

  /** No two channels share a topic. */
  lemma ChannelTopicIsInjective(topic: Bytes, msgType: Bytes, topic2: Bytes, msgType2: Bytes)
    requires ChannelTopic(topic, msgType) == ChannelTopic(topic2, msgType2)
    ensures topic == topic2 && msgType == msgType2
  {
    hide Name;
    SamePrefix(CHANNEL, Name(topic) + [SLASH] + Name(msgType), Name(topic2) + [SLASH] + Name(msgType2));
    NameHasNoSlash(topic);
    NameHasNoSlash(topic2);
    SplitAtSlash(Name(topic), Name(msgType), Name(topic2), Name(msgType2));
    NameIsInjective(topic, topic2);
    NameIsInjective(msgType, msgType2);
  }

  lemma NameIsInjective(s: Bytes, t: Bytes)
    ensures Name(s) == Name(t) ==> s == t
  {
    if Name(s) == Name(t) {
      EncodingIsInjective(UrlForm, s, t, true, true);
    }
  }

  /** Requests to one named server never meet those any server may take, and neither meet each other. */
  lemma RequestTopicsAreDisjoint(client: Bytes, func: Bytes, client2: Bytes, func2: Bytes)
    ensures ClientRequestTopic(client, func) != SharedRequestTopic(func2)
    ensures
      ClientRequestTopic(client, func) == ClientRequestTopic(client2, func2) ==> client == client2 && func == func2
    ensures SharedRequestTopic(func) == SharedRequestTopic(func2) ==> func == func2
  {
    hide Name;
    NameHasNoSlash(func2);
    NameHasNoSlash(client);
    NameHasNoSlash(client2);
    var own := Name(client) + [SLASH] + Name(func);
    assert SLASH in own by {
      assert own[|Name(client)|] == SLASH;
    }
    if ClientRequestTopic(client, func) == SharedRequestTopic(func2) {
      SamePrefix(REQUESTS, own, Name(func2));
    }
    if ClientRequestTopic(client, func) == ClientRequestTopic(client2, func2) {
      SamePrefix(REQUESTS, own, Name(client2) + [SLASH] + Name(func2));
      SplitAtSlash(Name(client), Name(func), Name(client2), Name(func2));
      NameIsInjective(client, client2);
      NameIsInjective(func, func2);
    }
    if SharedRequestTopic(func) == SharedRequestTopic(func2) {
      SamePrefix(REQUESTS, Name(func), Name(func2));
      NameIsInjective(func, func2);
    }
  }

  /** MQTT reads a topic level that is a lone '+' as "any level" (section 4.7.1.3 of MQTT 3.1.1). An
      encoded name is such a level exactly when the name is a single space. */
  lemma WildcardIff(s: Bytes)
    ensures Name(s) == [PLUS] <==> s == [SPACE]
  {
    assert Encoded(UrlForm, [SPACE], true) == [PLUS] by {
      assert Encoded(UrlForm, [SPACE][1..], true) == [];
    }
    NameIsInjective(s, [SPACE]);
  }
}
