/** ROS message <-> JSON tree, driven by recursive member descriptors. */
module JsonConvert {
  import opened Wrappers

  datatype Error = Rejected | OutOfBounds

  type Result<+T> = Outcome<T, Error>

  datatype Basic =
    | Float | Double | Char | WChar | Boolean | Octet
    | UInt8 | Int8 | UInt16 | Int16 | UInt32 | Int32 | UInt64 | Int64
    | Text | WText

  datatype Type = Prim(b: Basic) | Nested(members: seq<Member>)

  datatype Member = Member(name: string, ty: Type, isArray: bool, arraySize: nat, isUpperBound: bool)

  /** A C++ value: Msg holds one field per member of the descriptor, List an array or a vector. */
  datatype Value =
    | Num(n: int) | Real(r: real) | Flag(b: bool) | Str(s: string)
    | List(items: seq<Value>) | Msg(fields: seq<Value>)

  datatype Json =
    | JNull | JBool(b: bool) | JInt(n: int) | JReal(r: real) | JStr(s: string)
    | JArray(items: seq<Json>) | JObject(m: map<string, Json>)

  // ---------------------------------------------------------------- types

  predicate IsSequence(m: Member) {
    (m.isArray && m.arraySize == 0) || m.isUpperBound
  }

  function Low(b: Basic): int {
    match b
    case Int8 => -0x80
    case Int16 => -0x8000
    case Int32 => -0x8000_0000
    case Int64 => -0x8000_0000_0000_0000
    case _ => 0
  }

  function High(b: Basic): int {
    match b
    case Int8 => 0x80
    case Int16 => 0x8000
    case Int32 => 0x8000_0000
    case Int64 => 0x8000_0000_0000_0000
    case UInt64 => 0x1_0000_0000_0000_0000
    case UInt32 => 0x1_0000_0000
    case UInt16 => 0x1_0000
    case WChar => 0x1_0000
    case _ => 0x100
  }

  predicate TypedBasic(b: Basic, v: Value) {
    match b
    case Float => v.Real?
    case Double => v.Real?
    case Boolean => v.Flag?
    case Text => v.Str?
    case WText => v.Str?
    case _ => v.Num? && Low(b) <= v.n < High(b)
  }

  predicate Typed(ty: Type, v: Value)
    decreases ty
  {
    match ty
    case Prim(b) => TypedBasic(b, v)
    case Nested(ms) =>
      v.Msg? && |v.fields| == |ms| && forall i :: 0 <= i < |ms| ==> TypedMember(ms[i], v.fields[i])
  }

  predicate TypedMember(m: Member, v: Value)
    decreases m
  {
    if !m.isArray then Typed(m.ty, v)
    else
      && v.List?
      && (forall i :: 0 <= i < |v.items| ==> Typed(m.ty, v.items[i]))
      && (m.isUpperBound ==> |v.items| <= m.arraySize)
      && (!IsSequence(m) ==> |v.items| == m.arraySize)
  }

  /** Descriptors the generator produces and the converter supports: no wide strings, member names
      distinct, and an upper bound only on arrays. */
  predicate Supported(ty: Type)
    decreases ty
  {
    match ty
    case Prim(b) => b != WText
    case Nested(ms) =>
      && (forall i, j :: 0 <= i < j < |ms| ==> ms[i].name != ms[j].name)
      && (forall i :: 0 <= i < |ms| ==> SupportedMember(ms[i]))
  }

  predicate SupportedMember(m: Member)
    decreases m
  {
    Supported(m.ty) && (m.isUpperBound ==> m.isArray)
  }

  /** A message to read into: right shape, every sequence in it still empty. */
  predicate Blank(ty: Type, v: Value)
    decreases ty
  {
    match ty
    case Prim(_) => true
    case Nested(ms) =>
      v.Msg? && |v.fields| == |ms| && forall i :: 0 <= i < |ms| ==> BlankMember(ms[i], v.fields[i])
  }

  predicate BlankMember(m: Member, v: Value)
    decreases m
  {
    if IsSequence(m) then v == List([])
    else if m.isArray then
      v.List? && |v.items| == m.arraySize && forall i :: 0 <= i < |v.items| ==> Blank(m.ty, v.items[i])
    else Blank(m.ty, v)
  }

  function Default(ty: Type): Value
    decreases ty
  {
    match ty
    case Prim(b) =>
      (match b
       case Float => Real(0.0)
       case Double => Real(0.0)
       case Boolean => Flag(false)
       case Text => Str("")
       case WText => Str("")
       case _ => Num(0))
    case Nested(ms) => Msg(seq(|ms|, i requires 0 <= i < |ms| => DefaultMember(ms[i])))
  }

  function DefaultMember(m: Member): Value
    decreases m
  {
    if IsSequence(m) then List([])
    else if m.isArray then List(seq(m.arraySize, i => Default(m.ty)))
    else Default(m.ty)
  }

  // ---------------------------------------------------------------- message to JSON

  function BasicToJson(b: Basic, v: Value): Result<Json> {
    match (b, v)
    case (WText, _) => Err(Rejected)
    case (Float, Real(r)) => Ok(JReal(r))
    case (Double, Real(r)) => Ok(JReal(r))
    case (Boolean, Flag(f)) => Ok(JBool(f))
    case (Text, Str(s)) => Ok(JStr(s))
    case (_, Num(n)) => Ok(JInt(n))
    case _ => Err(Rejected)
  }

  function TypeToJson(ty: Type, v: Value): Result<Json>
    decreases ty, 2
  {
    match ty
    case Prim(b) => BasicToJson(b, v)
    case Nested(ms) =>
      if !v.Msg? || |v.fields| != |ms| then Err(Rejected)
      else if ms == [] then Ok(JNull)
      else
        var m :- FieldsToJson(ms, v.fields);
        Ok(JObject(m))
  }

  /** node[name] = value, member after member. */
  function FieldsToJson(ms: seq<Member>, fields: seq<Value>): Result<map<string, Json>>
    requires |fields| == |ms|
    decreases ms, 0
  {
    if ms == [] then Ok(map[])
    else
      var n := |ms| - 1;
      var node :- FieldsToJson(ms[..n], fields[..n]);
      var j :- MemberToJson(ms[n], fields[n]);
      Ok(node[ms[n].name := j])
  }

  function MemberToJson(m: Member, v: Value): Result<Json>
    decreases m, 3
  {
    if m.isArray then
      if !v.List? || (!IsSequence(m) && |v.items| != m.arraySize) then Err(Rejected)
      else
        var items :- ItemsToJson(m.ty, v.items);
        Ok(JArray(items))
    else TypeToJson(m.ty, v)
  }

  function ItemsToJson(ty: Type, items: seq<Value>): Result<seq<Json>>
    decreases ty, 3, items
  {
    if items == [] then Ok([])
    else
      var n := |items| - 1;
      var init :- ItemsToJson(ty, items[..n]);
      var j :- TypeToJson(ty, items[n]);
      Ok(init + [j])
  }

  // ---------------------------------------------------------------- JSON to message

  /** asInt, asUInt, asInt64, asUInt64: a number within [lo, hi), else an exception. */
  function AsInteger(j: Json, lo: int, hi: int): Result<int> {
    match j
    case JNull => Ok(0)
    case JBool(b) => Ok(if b then 1 else 0)
    case JInt(n) => if lo <= n < hi then Ok(n) else Err(Rejected)
    case JReal(r) =>
      if lo as real <= r <= (hi - 1) as real then Ok(if r < 0.0 then -(-r).Floor else r.Floor) else Err(Rejected)
    case _ => Err(Rejected)
  }

  /** A conversion to the member's own, possibly narrower, integer type. */
  function Narrow(b: Basic, n: int): int {
    (n - Low(b)) % (High(b) - Low(b)) + Low(b)
  }

  function GetJsonValue(b: Basic, j: Json): Result<Value> {
    match b
    case WText => Err(Rejected)
    case Text =>
      (match j
       case JNull => Ok(Str(""))
       case JBool(f) => Ok(Str(if f then "true" else "false"))
       case JStr(s) => Ok(Str(s))
       case _ => Err(Rejected))
    case Boolean =>
      (match j
       case JNull => Ok(Flag(false))
       case JBool(f) => Ok(Flag(f))
       case JInt(n) => Ok(Flag(n != 0))
       case JReal(r) => Ok(Flag(r != 0.0))
       case _ => Err(Rejected))
    case Float => AsReal(j)
    case Double => AsReal(j)
    case Int8 => AsNumber(b, j, Low(Int32), High(Int32))
    case Int16 => AsNumber(b, j, Low(Int32), High(Int32))
    case Int32 => AsNumber(b, j, Low(Int32), High(Int32))
    case Int64 => AsNumber(b, j, Low(Int64), High(Int64))
    case UInt64 => AsNumber(b, j, 0, High(UInt64))
    case _ => AsNumber(b, j, 0, High(UInt32))
  }

  function AsNumber(b: Basic, j: Json, lo: int, hi: int): Result<Value> {
    var n :- AsInteger(j, lo, hi);
    Ok(Num(Narrow(b, n)))
  }

  function AsReal(j: Json): Result<Value> {
    match j
    case JNull => Ok(Real(0.0))
    case JBool(b) => Ok(Real(if b then 1.0 else 0.0))
    case JInt(n) => Ok(Real(n as real))
    case JReal(r) => Ok(Real(r))
    case _ => Err(Rejected)
  }

  /** The extra checks that pushing onto a vector makes for bool and octet elements. */
  predicate MayPush(b: Basic, j: Json) {
    match b
    case Boolean => j.JBool?
    case Octet => || (j.JInt? && 0 <= j.n < High(UInt32))
                  || (j.JReal? && 0.0 <= j.r < High(UInt32) as real && j.r.Floor as real == j.r)
    case _ => true
  }

  function PushItems(b: Basic, js: seq<Json>, into: seq<Value>): Result<seq<Value>>
    decreases js
  {
    if js == [] then Ok(into)
    else
      var n := |js| - 1;
      var init :- PushItems(b, js[..n], into);
      if !MayPush(b, js[n]) then Err(Rejected)
      else
        var v :- GetJsonValue(b, js[n]);
        Ok(init + [v])
  }

  /** Writes one value over `cur`. */
  function WriteType(ty: Type, j: Json, cur: Value): Result<Value>
    decreases ty, 2
  {
    match ty
    case Prim(b) => GetJsonValue(b, j)
    case Nested(ms) =>
      if !cur.Msg? || |cur.fields| != |ms| then Err(Rejected)
      else
        var fields :- WriteFields(ms, j, cur.fields);
        Ok(Msg(fields))
  }

  /** One JSON element per element of the target. */
  function WriteItems(ty: Type, js: seq<Json>, cur: seq<Value>): Result<seq<Value>>
    requires |js| <= |cur|
    decreases ty, 3, js
  {
    if js == [] then Ok(cur)
    else
      var n := |js| - 1;
      var init :- WriteItems(ty, js[..n], cur);
      if n >= |init| then Err(OutOfBounds)
      else
        var v :- WriteType(ty, js[n], init[n]);
        Ok(init[n := v])
  }

  /** resize_function: keeps the front, fills with default-constructed elements. */
  function Resize(ty: Type, cur: seq<Value>, n: nat): (r: seq<Value>)
    ensures |r| == n
  {
    seq(n, i requires 0 <= i < n => if i < |cur| then cur[i] else Default(ty))
  }

  function WriteMember(m: Member, j: Json, cur: Value): Result<Value>
    decreases m, 3
  {
    if m.ty == Prim(WText) then Err(Rejected)
    else if IsSequence(m) then
      if !j.JArray? || !cur.List? then Err(Rejected)
      else if m.isUpperBound && |j.items| > m.arraySize then Err(Rejected)
      else
        match m.ty
        case Prim(b) =>
          var items :- PushItems(b, j.items, cur.items);
          Ok(List(items))
        case Nested(_) =>
          var items :- WriteItems(m.ty, j.items, Resize(m.ty, cur.items, |j.items|));
          Ok(List(items))
    else if m.isArray then
      if !cur.List? then Err(Rejected)
      else if m.ty.Prim? && (!j.JArray? || |j.items| != m.arraySize) then Err(Rejected)
      else if j.JObject? && j.m != map[] then Err(Rejected)
      else if !j.JArray? then Ok(cur)
      else if |j.items| > |cur.items| then Err(OutOfBounds)
      else
        var items :- WriteItems(m.ty, j.items, cur.items);
        Ok(List(items))
    else WriteType(m.ty, j, cur)
  }

  /** Members absent from the JSON object keep what they had. */
  function WriteFields(ms: seq<Member>, root: Json, fields: seq<Value>): Result<seq<Value>>
    requires |fields| == |ms|
    decreases ms, 0
  {
    if ms == [] then Ok([])
    else
      var n := |ms| - 1;
      var init :- WriteFields(ms[..n], root, fields[..n]);
      match root
      case JNull => Ok(init + [fields[n]])
      case JObject(m) =>
        if ms[n].name !in m then Ok(init + [fields[n]])
        else
          var v :- WriteMember(ms[n], m[ms[n].name], fields[n]);
          Ok(init + [v])
      case _ => Err(Rejected)
  }

  // ---------------------------------------------------------------- default-constructed messages

  lemma {:induction false} DefaultIsBlank(ty: Type)
    ensures Blank(ty, Default(ty))
    decreases ty
  {
    match ty
    case Prim(_) =>
    case Nested(ms) =>
      forall i | 0 <= i < |ms| ensures BlankMember(ms[i], Default(ty).fields[i]) {
        DefaultMemberIsBlank(ms[i]);
      }
  }

  lemma {:induction false} DefaultMemberIsBlank(m: Member)
    ensures BlankMember(m, DefaultMember(m))
    decreases m
  {
    DefaultIsBlank(m.ty);
  }

  /** The kind of JSON each basic value is written as; wide strings are refused. */
  lemma BasicIsWritten(b: Basic, v: Value)
    requires TypedBasic(b, v)
    ensures b == WText ==> BasicToJson(b, v) == Err(Rejected)
    ensures b == Text ==> BasicToJson(b, v) == Ok(JStr(v.s))
    ensures b == Boolean ==> BasicToJson(b, v) == Ok(JBool(v.b))
    ensures b == Float || b == Double ==> BasicToJson(b, v) == Ok(JReal(v.r))
    ensures Whole(b) ==> BasicToJson(b, v) == Ok(JInt(v.n))
  {}

  // ---------------------------------------------------------------- what a reader accepts

  /** A JSON integer becomes the same number in a real member. */
  lemma IntegerInReal(n: int)
    ensures GetJsonValue(Double, JInt(n)) == GetJsonValue(Float, JInt(n)) == Ok(Real(n as real))
  {}

  predicate Signed(b: Basic) {
    b == Int8 || b == Int16 || b == Int32 || b == Int64
  }

  predicate Whole(b: Basic) {
    b != Float && b != Double && b != Boolean && b != Text && b != WText
  }

  predicate Wide(b: Basic) {
    b == Int64 || b == UInt64
  }

  /** How many values the member's type has. */
  function Values(b: Basic): nat {
    match b
    case Int64 => 0x1_0000_0000_0000_0000
    case UInt64 => 0x1_0000_0000_0000_0000
    case Int32 => 0x1_0000_0000
    case UInt32 => 0x1_0000_0000
    case Int16 => 0x1_0000
    case UInt16 => 0x1_0000
    case WChar => 0x1_0000
    case _ => 0x100
  }

  /** The range of a signed or unsigned type with so many values. */
  predicate Fits(signed: bool, values: nat, n: int) {
    if signed then -(values / 2) <= n < values / 2 else 0 <= n < values
  }

  lemma ReadRange(b: Basic, n: int)
    requires Whole(b)
    ensures GetJsonValue(b, JInt(n)) ==
      if Fits(Signed(b), if Wide(b) then 0x1_0000_0000_0000_0000 else 0x1_0000_0000, n) then Ok(Num(Narrow(b, n)))
      else Err(Rejected)
  {
    hide Narrow;
  }

  lemma OwnRange(b: Basic)
    requires Whole(b)
    ensures Values(b) == High(b) - Low(b) && Low(b) == if Signed(b) then -(Values(b) / 2) else 0
  {}

  lemma Cut(low: int, width: nat, n: int)
    requires width > 0
    ensures
      var r := (n - low) % width + low;
      low <= r < low + width && (r - n) % width == 0 && (r == n <==> low <= n < low + width)
  {
    var q := (n - low) / width;
    assert n - low == width * q + (n - low) % width;
    Multiple(width, -q);
    assert (n - low) % width + low - n == width * (-q);
    if low <= n < low + width {
      SmallDivision(n - low, width);
    }
  }

  lemma SmallDivision(a: int, width: nat)
    requires 0 <= a < width
    ensures a % width == a
  {}

  lemma {:induction false} Multiple(width: nat, q: int)
    requires width > 0
    ensures (width * q) % width == 0
    decreases if q < 0 then -q else q
  {
    var a := width * q;
    var k, r := a / width, a % width;
    assert a == width * k + r;
    assert width * (q - k) == r;
    if q - k > 0 {
      AtLeast(width, q - k);
    } else if q - k < 0 {
      assert width * (k - q) == -r;
      AtLeast(width, k - q);
    }
  }

  lemma AtLeast(width: int, k: int)
    requires width > 0 && k > 0
    ensures width * k >= width
  {
    assert width * k == width + width * (k - 1);
  }

  /** A JSON integer is read as itself exactly within the member's own range. A narrow member takes any other
      number modulo its width, up to what a 32-bit read accepts; beyond, and for 64-bit members at once, the
      reader refuses. */
  lemma IntegerReads(b: Basic, n: int)
    requires Whole(b)
    ensures GetJsonValue(b, JInt(n)) == Ok(Num(n)) <==> Fits(Signed(b), Values(b), n)
    ensures GetJsonValue(b, JInt(n)).Ok? <==>
      Fits(Signed(b), if Wide(b) then 0x1_0000_0000_0000_0000 else 0x1_0000_0000, n)
    ensures GetJsonValue(b, JInt(n)).Ok? ==>
      var v := GetJsonValue(b, JInt(n)).value;
      v.Num? && Fits(Signed(b), Values(b), v.n) && (v.n - n) % Values(b) == 0
  {
    hide *;
    ReadRange(b, n);
    NarrowCuts(b, n);
    WiderFits(b, n);
  }

  lemma NarrowCuts(b: Basic, n: int)
    requires Whole(b)
    ensures Values(b) > 0 && Fits(Signed(b), Values(b), Narrow(b, n)) && (Narrow(b, n) - n) % Values(b) == 0
    ensures Narrow(b, n) == n <==> Fits(Signed(b), Values(b), n)
  {
    hide Low, High, Values, Signed, Whole;
    OwnRange(b);
    ValuesAreEven(b);
    Cut(Low(b), Values(b), n);
  }

  lemma ValuesAreEven(b: Basic)
    ensures Values(b) / 2 + Values(b) / 2 == Values(b) > 0
  {}

  lemma WiderFits(b: Basic, n: int)
    requires Whole(b)
    ensures Fits(Signed(b), Values(b), n) ==>
      Fits(Signed(b), if Wide(b) then 0x1_0000_0000_0000_0000 else 0x1_0000_0000, n)
  {}

  /** A real number is read into a whole member cut toward zero, if it is within the range of the read. */
  lemma RealReads(b: Basic, r: real)
    requires Whole(b)
    ensures
      var limit := if Wide(b) then 0x1_0000_0000_0000_0000 else 0x1_0000_0000;
      var low, high := if Signed(b) then -limit / 2 else 0, if Signed(b) then limit / 2 - 1 else limit - 1;
      var n := if r < 0.0 then -(-r).Floor else r.Floor;
      GetJsonValue(b, JReal(r)) == if low as real <= r <= high as real then Ok(Num(Narrow(b, n))) else Err(Rejected)
  {
    hide Narrow;
  }

  /** The other kinds of JSON: null is the zero of the type, true and false are 1 and 0 in a number, text is
      no number, and an array or an object is no basic value. */
  lemma OtherKinds(b: Basic, j: Json)
    requires b != WText
    ensures j.JNull? ==> GetJsonValue(b, j) == Ok(Default(Prim(b)))
    ensures j.JBool? && Whole(b) ==> GetJsonValue(b, j) == Ok(Num(if j.b then 1 else 0))
    ensures j.JBool? && (b == Float || b == Double) ==> GetJsonValue(b, j) == Ok(Real(if j.b then 1.0 else 0.0))
    ensures j.JInt? && b == Boolean ==> GetJsonValue(b, j) == Ok(Flag(j.n != 0))
    ensures j.JReal? && b == Boolean ==> GetJsonValue(b, j) == Ok(Flag(j.r != 0.0))
    ensures j.JReal? && (b == Float || b == Double) ==> GetJsonValue(b, j) == Ok(Real(j.r))
    ensures j.JBool? && b == Boolean ==> GetJsonValue(b, j) == Ok(Flag(j.b))
    ensures j.JBool? && b == Text ==> GetJsonValue(b, j) == Ok(Str(if j.b then "true" else "false"))
    ensures j.JStr? ==> GetJsonValue(b, j) == if b == Text then Ok(Str(j.s)) else Err(Rejected)
    ensures j.JArray? || j.JObject? ==> GetJsonValue(b, j).Err?
  {
    hide Narrow;
    if Whole(b) {
      NarrowKeeps(b, 0);
      NarrowKeeps(b, 1);
    }
  }

  /** What may be pushed onto a vector: onto one of booleans only booleans, onto one of bytes only numbers
      that are whole and fit 32 bits unsigned, onto others whatever their reader takes. */
  lemma PushedKinds(b: Basic, j: Json, into: seq<Value>)
    ensures b == Boolean && !j.JBool? ==> PushItems(b, [j], into) == Err(Rejected)
    ensures b == Octet && !j.JReal? && !(j.JInt? && 0 <= j.n <= 4_294_967_295) ==>
      PushItems(b, [j], into) == Err(Rejected)
    ensures b == Octet && j.JReal? && !(0.0 <= j.r <= 4_294_967_295.0 && j.r == j.r.Floor as real) ==>
      PushItems(b, [j], into) == Err(Rejected)
    ensures GetJsonValue(b, j).Ok? && b != Boolean && b != Octet ==>
      PushItems(b, [j], into) == Ok(into + [GetJsonValue(b, j).value])
    ensures GetJsonValue(b, j).Ok? && ((b == Boolean && j.JBool?) || (b == Octet && j.JInt?)) ==>
      PushItems(b, [j], into) == Ok(into + [GetJsonValue(b, j).value])
    ensures b == Octet && j.JReal? && 0.0 <= j.r <= 4_294_967_295.0 && j.r == j.r.Floor as real ==>
      GetJsonValue(b, j).Ok? && PushItems(b, [j], into) == Ok(into + [GetJsonValue(b, j).value])
  {
    hide Narrow;
    assert [j][..0] == [];
    assert PushItems(b, [j][..0], into) == Ok(into);
  }

  /** The members: all those named in the object are read, each into its own place, and all others keep what
      they had; it fails exactly if one of the named ones does. A null root names none. */
  lemma {:induction false} NamedAreRead(ms: seq<Member>, m: map<string, Json>, fields: seq<Value>)
    requires |fields| == |ms|
    ensures
      var r := WriteFields(ms, JObject(m), fields);
      && (r.Ok? <==> forall i :: 0 <= i < |ms| && ms[i].name in m ==> WriteMember(ms[i], m[ms[i].name], fields[i]).Ok?)
      && (r.Ok? ==>
            && |r.value| == |ms|
            && forall i :: 0 <= i < |ms| ==>
                 r.value[i] ==
                 if ms[i].name in m then WriteMember(ms[i], m[ms[i].name], fields[i]).value else fields[i])
    decreases |ms|
  {
    hide WriteMember;
    if ms != [] {
      var n := |ms| - 1;
      NamedAreRead(ms[..n], m, fields[..n]);
    }
  }

  lemma {:induction false} NullKeepsAll(ms: seq<Member>, fields: seq<Value>)
    requires |fields| == |ms|
    ensures WriteFields(ms, JNull, fields) == Ok(fields)
    decreases |ms|
  {
    if ms != [] {
      var n := |ms| - 1;
      NullKeepsAll(ms[..n], fields[..n]);
      assert fields == fields[..n] + [fields[n]];
    }
  }

  /** What arrays demand of the JSON: a sequence needs an array, within its bound if it has one; a fixed
      array of basic elements needs exactly its length; of messages it takes no more than its length. */
  lemma ArrayShapes(m: Member, j: Json, cur: Value)
    requires m.ty != Prim(WText) && cur.List?
    ensures ((m.isArray && m.arraySize == 0) || m.isUpperBound) && !j.JArray? ==> WriteMember(m, j, cur).Err?
    ensures m.isUpperBound && j.JArray? && |j.items| > m.arraySize ==> WriteMember(m, j, cur) == Err(Rejected)
    ensures
      m.isArray && m.arraySize > 0 && !m.isUpperBound && m.ty.Prim? && (!j.JArray? || |j.items| != m.arraySize) ==>
        WriteMember(m, j, cur) == Err(Rejected)
    ensures m.isArray && m.arraySize > 0 && !m.isUpperBound && m.ty.Nested? && j.JArray? && |j.items| > |cur.items| ==>
      WriteMember(m, j, cur) == Err(OutOfBounds)
    ensures m.isArray && m.arraySize > 0 && !m.isUpperBound && m.ty.Nested? && !j.JArray? ==>
      WriteMember(m, j, cur) == if j.JObject? && j.m != map[] then Err(Rejected) else Ok(cur)
  {
    hide WriteItems, PushItems, WriteType;
  }

  // ---------------------------------------------------------------- one level of the tree

  lemma NarrowKeeps(b: Basic, n: int)
    requires Low(b) <= n < High(b)
    ensures Narrow(b, n) == n
  {
    hide Low, High;
  }

  /** Every value of a supported basic type survives, alone and as an element of a vector. */
  lemma BasicRoundTrip(b: Basic, v: Value)
    requires b != WText && TypedBasic(b, v)
    ensures BasicToJson(b, v).Ok? && !BasicToJson(b, v).value.JArray?
    ensures MayPush(b, BasicToJson(b, v).value)
    ensures GetJsonValue(b, BasicToJson(b, v).value) == Ok(v)
  {
    hide Narrow;
    if v.Num? {
      NarrowKeeps(b, v.n);
    }
  }

  lemma {:induction false} ItemsAsJson(ty: Type, items: seq<Value>)
    requires forall i :: 0 <= i < |items| ==> TypeToJson(ty, items[i]).Ok?
    ensures ItemsToJson(ty, items).Ok? && |ItemsToJson(ty, items).value| == |items|
    ensures forall i :: 0 <= i < |items| ==> ItemsToJson(ty, items).value[i] == TypeToJson(ty, items[i]).value
    decreases |items|
  {
    if items != [] {
      var init := items[..|items| - 1];
      assert forall i :: 0 <= i < |init| ==> TypeToJson(ty, init[i]).Ok?;
      ItemsAsJson(ty, init);
    }
  }

  /** Distinct names: each member's node is still there when the object is complete. */
  lemma {:induction false} FieldsAsJson(ms: seq<Member>, fields: seq<Value>)
    requires |fields| == |ms|
    requires forall i, j :: 0 <= i < j < |ms| ==> ms[i].name != ms[j].name
    requires forall i :: 0 <= i < |ms| ==> MemberToJson(ms[i], fields[i]).Ok?
    ensures FieldsToJson(ms, fields).Ok?
    ensures FieldsToJson(ms, fields).value.Keys == set i | 0 <= i < |ms| :: ms[i].name
    ensures
      forall i ::
        0 <= i < |ms| ==>
          (ms[i].name in FieldsToJson(ms, fields).value
           && FieldsToJson(ms, fields).value[ms[i].name] == MemberToJson(ms[i], fields[i]).value)
    decreases |ms|
  {
    hide MemberToJson, AllNodes;
    if ms != [] {
      var n := |ms| - 1;
      FieldsAsJson(ms[..n], fields[..n]);
      var init := FieldsToJson(ms[..n], fields[..n]).value;
      NodesAre(ms[..n], fields[..n], init);
      OneMoreNode(ms, fields, init);
      assert FieldsToJson(ms, fields).value == init[ms[n].name := MemberToJson(ms[n], fields[n]).value];
      NodesAre(ms, fields, FieldsToJson(ms, fields).value);
    } else {
      assert ms[..0] == [];
    }
  }

  /** The object holds each member's node and nothing else. */
  ghost predicate AllNodes(ms: seq<Member>, fields: seq<Value>, m: map<string, Json>)
    requires |fields| == |ms|
  {
    && m.Keys == (set i | 0 <= i < |ms| :: ms[i].name)
    && forall i :: 0 <= i < |ms| ==>
         ms[i].name in m && MemberToJson(ms[i], fields[i]).Ok?
         && m[ms[i].name] == MemberToJson(ms[i], fields[i]).value
  }

  lemma NodesAre(ms: seq<Member>, fields: seq<Value>, m: map<string, Json>)
    requires |fields| == |ms| && forall i :: 0 <= i < |ms| ==> MemberToJson(ms[i], fields[i]).Ok?
    ensures AllNodes(ms, fields, m) <==>
      && m.Keys == (set i | 0 <= i < |ms| :: ms[i].name)
      && forall i :: 0 <= i < |ms| ==>
           ms[i].name in m && m[ms[i].name] == MemberToJson(ms[i], fields[i]).value
  {
    hide MemberToJson;
  }

  lemma OneMoreNode(ms: seq<Member>, fields: seq<Value>, init: map<string, Json>)
    requires |fields| == |ms| > 0
    requires forall i, j :: 0 <= i < j < |ms| ==> ms[i].name != ms[j].name
    requires MemberToJson(ms[|ms| - 1], fields[|ms| - 1]).Ok?
    requires AllNodes(ms[..|ms| - 1], fields[..|ms| - 1], init)
    ensures AllNodes(ms, fields, init[ms[|ms| - 1].name := MemberToJson(ms[|ms| - 1], fields[|ms| - 1]).value])
  {
    hide MemberToJson;
    var n := |ms| - 1;
    assert forall i :: 0 <= i < n ==> ms[..n][i] == ms[i] && fields[..n][i] == fields[i];
  }

  lemma {:induction false} PushRebuilds(b: Basic, js: seq<Json>, into: seq<Value>, items: seq<Value>)
    requires |js| == |items|
    requires forall i :: 0 <= i < |js| ==> MayPush(b, js[i]) && GetJsonValue(b, js[i]) == Ok(items[i])
    ensures PushItems(b, js, into) == Ok(into + items)
    decreases |js|
  {
    if js == [] {
      assert into + items == into;
    } else {
      var n := |js| - 1;
      PushRebuilds(b, js[..n], into, items[..n]);
      assert (into + items[..n]) + [items[n]] == into + items;
    }
  }

  lemma {:induction false} WriteItemsRebuilds(ty: Type, js: seq<Json>, cur: seq<Value>, items: seq<Value>)
    requires |js| == |items| <= |cur|
    requires forall i :: 0 <= i < |js| ==> WriteType(ty, js[i], cur[i]) == Ok(items[i])
    ensures WriteItems(ty, js, cur) == Ok(items + cur[|js|..])
    decreases |js|
  {
    if js == [] {
      assert items + cur[0..] == cur;
    } else {
      var n := |js| - 1;
      WriteItemsRebuilds(ty, js[..n], cur, items[..n]);
      var init := items[..n] + cur[n..];
      assert init[n] == cur[n];
      assert init[n := items[n]] == items + cur[|js|..];
    }
  }

  lemma {:induction false} WriteFieldsRebuilds(
      ms: seq<Member>, m: map<string, Json>, cur: seq<Value>, fields: seq<Value>)
    requires |ms| == |cur| == |fields|
    requires forall i :: 0 <= i < |ms| ==> ms[i].name in m && WriteMember(ms[i], m[ms[i].name], cur[i]) == Ok(fields[i])
    ensures WriteFields(ms, JObject(m), cur) == Ok(fields)
    decreases |ms|
  {
    hide WriteMember;
    if ms != [] {
      var n := |ms| - 1;
      WriteFieldsRebuilds(ms[..n], m, cur[..n], fields[..n]);
      assert fields[..n] + [fields[n]] == fields;
    }
  }

  // ---------------------------------------------------------------- the round trip

  /** Reading what was written, into any message whose sequences are empty, rebuilds the value. */
  lemma {:induction false} RoundTrip(ty: Type, v: Value, cur: Value)
    requires Supported(ty) && Typed(ty, v) && Blank(ty, cur)
    ensures TypeToJson(ty, v).Ok? && !TypeToJson(ty, v).value.JArray?
    ensures WriteType(ty, TypeToJson(ty, v).value, cur) == Ok(v)
    decreases ty, 2
  {
    match ty
    case Prim(b) => BasicRoundTrip(b, v);
    case Nested(ms) =>
      if ms == [] {
        assert v.fields == [];
      } else {
        forall i | 0 <= i < |ms|
          ensures MemberToJson(ms[i], v.fields[i]).Ok?
          ensures WriteMember(ms[i], MemberToJson(ms[i], v.fields[i]).value, cur.fields[i]) == Ok(v.fields[i])
        {
          MemberRoundTrip(ms[i], v.fields[i], cur.fields[i]);
        }
        FieldsAsJson(ms, v.fields);
        WriteFieldsRebuilds(ms, FieldsToJson(ms, v.fields).value, cur.fields, v.fields);
      }
  }

  lemma {:induction false} MemberRoundTrip(m: Member, v: Value, cur: Value)
    requires SupportedMember(m) && TypedMember(m, v) && BlankMember(m, cur)
    ensures MemberToJson(m, v).Ok?
    ensures WriteMember(m, MemberToJson(m, v).value, cur) == Ok(v)
    decreases m, 3
  {
    hide TypeToJson, WriteType, Typed, Supported, Blank, Default, ItemsToJson, WriteItems, PushItems;
    if !m.isArray {
      RoundTrip(m.ty, v, cur);
      SupportedIsNotWText(m.ty);
    } else {
      var from := if IsSequence(m) then Resize(m.ty, [], |v.items|) else cur.items;
      DefaultIsBlank(m.ty);
      ItemsRoundTrip(m.ty, v.items, from);
      var js := ItemsToJson(m.ty, v.items).value;
      SupportedIsNotWText(m.ty);
      assert v.items + from[|v.items|..] == v.items;
      assert [] + v.items == v.items;
    }
  }

  lemma SupportedIsNotWText(ty: Type)
    requires Supported(ty)
    ensures ty != Prim(WText)
  {}

  /** The elements of an array, written over `from` or, for basic ones, pushed onto a vector. */
  lemma {:induction false} ItemsRoundTrip(ty: Type, items: seq<Value>, from: seq<Value>)
    requires Supported(ty) && |from| >= |items|
    requires forall i :: 0 <= i < |items| ==> Typed(ty, items[i]) && Blank(ty, from[i])
    ensures ItemsToJson(ty, items).Ok? && |ItemsToJson(ty, items).value| == |items|
    ensures WriteItems(ty, ItemsToJson(ty, items).value, from) == Ok(items + from[|items|..])
    ensures ty.Prim? ==> PushItems(ty.b, ItemsToJson(ty, items).value, []) == Ok([] + items)
    decreases ty, 3
  {
    hide Typed, Supported, Blank, WriteItems, PushItems;
    forall i | 0 <= i < |items|
      ensures TypeToJson(ty, items[i]).Ok?
      ensures WriteType(ty, TypeToJson(ty, items[i]).value, from[i]) == Ok(items[i])
      ensures ty.Prim? ==> MayPush(ty.b, TypeToJson(ty, items[i]).value)
    {
      hide TypeToJson, WriteType;
      RoundTrip(ty, items[i], from[i]);
      if ty.Prim? {
        BasicItemMayBePushed(ty.b, items[i]);
      }
    }
    ItemsAsJson(ty, items);
    WriteItemsRebuilds(ty, ItemsToJson(ty, items).value, from, items);
    if ty.Prim? {
      PushRebuilds(ty.b, ItemsToJson(ty, items).value, [], items);
    }
  }

  lemma BasicItemMayBePushed(b: Basic, v: Value)
    requires Supported(Prim(b)) && Typed(Prim(b), v)
    ensures TypeToJson(Prim(b), v).Ok? && MayPush(b, TypeToJson(Prim(b), v).value)
  {
    BasicRoundTrip(b, v);
  }

  /** The contract of the two entry points: a fresh message filled from the JSON equals the original. */
  lemma DefaultRoundTrip(ty: Type, v: Value)
    requires Supported(ty) && Typed(ty, v)
    ensures TypeToJson(ty, v).Ok?
    ensures WriteType(ty, TypeToJson(ty, v).value, Default(ty)) == Ok(v)
  {
    DefaultIsBlank(ty);
    RoundTrip(ty, v, Default(ty));
  }

  // ---------------------------------------------------------------- where the hypotheses matter

  /** A member survives exactly when an upper bound is only set on arrays: the writer asks for an array
      only if `is_array_` is set, the reader also if `is_upper_bound_` is. */
  lemma BoundNeedsArray(m: Member, v: Value, cur: Value)
    requires Supported(m.ty) && TypedMember(m, v) && BlankMember(m, cur)
    ensures MemberToJson(m, v).Ok?
    ensures WriteMember(m, MemberToJson(m, v).value, cur) == Ok(v) <==> (m.isUpperBound ==> m.isArray)
  {
    if m.isUpperBound && !m.isArray {
      DefaultIsBlank(m.ty);
      RoundTrip(m.ty, v, Default(m.ty));
    } else {
      MemberRoundTrip(m, v, cur);
    }
  }

  /** Vectors of basic elements are appended to, never cleared: on a target that is not empty the
      old elements stay in front. */
  lemma BasicSequenceAppends(m: Member, v: Value, before: seq<Value>)
    requires m.ty.Prim? && SupportedMember(m) && IsSequence(m) && TypedMember(m, v)
    ensures MemberToJson(m, v).Ok?
    ensures WriteMember(m, MemberToJson(m, v).value, List(before)) == Ok(List(before + v.items))
  {
    forall i | 0 <= i < |v.items|
      ensures TypeToJson(m.ty, v.items[i]).Ok?
      ensures GetJsonValue(m.ty.b, TypeToJson(m.ty, v.items[i]).value) == Ok(v.items[i])
      ensures MayPush(m.ty.b, TypeToJson(m.ty, v.items[i]).value)
    {
      BasicRoundTrip(m.ty.b, v.items[i]);
    }
    ItemsAsJson(m.ty, v.items);
    PushRebuilds(m.ty.b, ItemsToJson(m.ty, v.items).value, before, v.items);
  }

  // ---------------------------------------------------------------- the loops

  lemma FieldsToJsonPrefix(ms: seq<Member>, fields: seq<Value>, k: nat)
    requires |fields| == |ms| && k <= |ms|
    ensures FieldsToJson(ms[..k], fields[..k]).Err? ==> FieldsToJson(ms, fields) == FieldsToJson(ms[..k], fields[..k])
    decreases |ms|
  {
    if k < |ms| {
      var n := |ms| - 1;
      FieldsToJsonPrefix(ms[..n], fields[..n], k);
      assert ms[..n][..k] == ms[..k] && fields[..n][..k] == fields[..k];
    } else {
      assert ms[..k] == ms && fields[..k] == fields;
    }
  }

  lemma ItemsToJsonPrefix(ty: Type, items: seq<Value>, k: nat)
    requires k <= |items|
    ensures ItemsToJson(ty, items[..k]).Err? ==> ItemsToJson(ty, items) == ItemsToJson(ty, items[..k])
    decreases |items|
  {
    if k < |items| {
      var n := |items| - 1;
      ItemsToJsonPrefix(ty, items[..n], k);
      assert items[..n][..k] == items[..k];
    } else {
      assert items[..k] == items;
    }
  }

  lemma PushItemsPrefix(b: Basic, js: seq<Json>, into: seq<Value>, k: nat)
    requires k <= |js|
    ensures PushItems(b, js[..k], into).Err? ==> PushItems(b, js, into) == PushItems(b, js[..k], into)
    decreases |js|
  {
    if k < |js| {
      var n := |js| - 1;
      PushItemsPrefix(b, js[..n], into, k);
      assert js[..n][..k] == js[..k];
    } else {
      assert js[..k] == js;
    }
  }

  lemma WriteItemsPrefix(ty: Type, js: seq<Json>, cur: seq<Value>, k: nat)
    requires k <= |js| <= |cur|
    ensures WriteItems(ty, js[..k], cur).Err? ==> WriteItems(ty, js, cur) == WriteItems(ty, js[..k], cur)
    ensures WriteItems(ty, js[..k], cur).Ok? ==> |WriteItems(ty, js[..k], cur).value| == |cur|
    decreases |js|
  {
    if 0 < |js| {
      var n := |js| - 1;
      if k < |js| {
        WriteItemsPrefix(ty, js[..n], cur, k);
        assert js[..n][..k] == js[..k];
      } else {
        WriteItemsPrefix(ty, js[..n], cur, n);
        assert js[..n][..n] == js[..n];
        assert js[..k] == js;
      }
    }
  }

  lemma WriteFieldsPrefix(ms: seq<Member>, root: Json, fields: seq<Value>, k: nat)
    requires |fields| == |ms| && k <= |ms|
    ensures WriteFields(ms[..k], root, fields[..k]).Err? ==>
        WriteFields(ms, root, fields) == WriteFields(ms[..k], root, fields[..k])
    ensures WriteFields(ms[..k], root, fields[..k]).Ok? ==> |WriteFields(ms[..k], root, fields[..k]).value| == k
    decreases |ms|
  {
    if 0 < |ms| {
      var n := |ms| - 1;
      if k < |ms| {
        WriteFieldsPrefix(ms[..n], root, fields[..n], k);
        assert ms[..n][..k] == ms[..k] && fields[..n][..k] == fields[..k];
      } else {
        WriteFieldsPrefix(ms[..n], root, fields[..n], n);
        assert ms[..n][..n] == ms[..n] && fields[..n][..n] == fields[..n];
        assert ms[..k] == ms && fields[..k] == fields;
      }
    }
  }

  method MessageToJsonImpl(ms: seq<Member>, fields: seq<Value>) returns (r: Result<Json>)
    requires |fields| == |ms|
    ensures r == TypeToJson(Nested(ms), Msg(fields))
    decreases ms, 0
  {
    hide MemberToJson;
    var node := JNull;
    for i := 0 to |ms|
      invariant FieldsToJson(ms[..i], fields[..i]).Ok?
      invariant node == if i == 0 then JNull else JObject(FieldsToJson(ms[..i], fields[..i]).value)
    {
      assert ms[..i + 1][..i] == ms[..i] && fields[..i + 1][..i] == fields[..i];
      FieldsToJsonPrefix(ms, fields, i + 1);
      var j := WriteMemberNode(ms[i], fields[i]);
      if j.Err? {
        return Err(j.error);
      }
      node := JObject((if node.JObject? then node.m else map[])[ms[i].name := j.value]);
    }
    assert ms[..|ms|] == ms && fields[..|ms|] == fields;
    return Ok(node);
  }

  /** MemberToJson: an array node for vectors and C arrays, the value itself otherwise. */
  method WriteMemberNode(m: Member, v: Value) returns (r: Result<Json>)
    ensures r == MemberToJson(m, v)
    decreases m, 3
  {
    if m.isArray {
      if !v.List? || (!IsSequence(m) && |v.items| != m.arraySize) {
        return Err(Rejected);
      }
      var nodes := [];
      for i := 0 to |v.items|
        invariant ItemsToJson(m.ty, v.items[..i]) == Ok(nodes)
      {
        assert v.items[..i + 1][..i] == v.items[..i];
        ItemsToJsonPrefix(m.ty, v.items, i + 1);
        var j := WriteItemNode(m.ty, v.items[i]);
        if j.Err? {
          return Err(j.error);
        }
        nodes := nodes + [j.value];
      }
      assert v.items[..|v.items|] == v.items;
      return Ok(JArray(nodes));
    }
    r := WriteItemNode(m.ty, v);
  }

  method WriteItemNode(ty: Type, v: Value) returns (r: Result<Json>)
    ensures r == TypeToJson(ty, v)
    decreases ty, 2
  {
    match ty
    case Prim(b) => r := BasicToJson(b, v);
    case Nested(ms) =>
      if !v.Msg? || |v.fields| != |ms| {
        return Err(Rejected);
      }
      r := MessageToJsonImpl(ms, v.fields);
  }

  method JsonToMessageImpl(root: Json, ms: seq<Member>, fields: seq<Value>) returns (r: Result<seq<Value>>)
    requires |fields| == |ms|
    ensures r == WriteFields(ms, root, fields)
    decreases ms, 0
  {
    hide WriteMember;
    var buffer := fields;
    for i := 0 to |ms|
      invariant |buffer| == |ms| && buffer[i..] == fields[i..]
      invariant WriteFields(ms[..i], root, fields[..i]) == Ok(buffer[..i])
    {
      assert ms[..i + 1][..i] == ms[..i] && fields[..i + 1][..i] == fields[..i];
      WriteFieldsPrefix(ms, root, fields, i + 1);
      assert buffer[i] == buffer[i..][0] == fields[i..][0] == fields[i];
      ghost var before := buffer;
      match root {
        case JNull =>
        case JObject(m) =>
          if ms[i].name in m {
            var v := JsonToMember(ms[i], m[ms[i].name], buffer[i]);
            if v.Err? {
              return Err(v.error);
            }
            buffer := buffer[i := v.value];
          }
        case _ =>
          return Err(Rejected);
      }
      assert buffer[..i + 1] == before[..i] + [buffer[i]];
      assert buffer[i + 1..] == before[i..][1..] == fields[i..][1..] == fields[i + 1..];
    }
    assert ms[..|ms|] == ms && fields[..|ms|] == fields && buffer[..|ms|] == buffer;
    return Ok(buffer);
  }

  /** WriteMember and WriteMemberNested. */
  method JsonToMember(m: Member, j: Json, cur: Value) returns (r: Result<Value>)
    ensures r == WriteMember(m, j, cur)
    decreases m, 3
  {
    hide WriteItems, WriteType, PushItems;
    if m.ty == Prim(WText) {
      return Err(Rejected);
    }
    if IsSequence(m) {
      if !j.JArray? || !cur.List? || (m.isUpperBound && |j.items| > m.arraySize) {
        return Err(Rejected);
      }
      var items;
      if m.ty.Prim? {
        items := WriteSequence(m.ty.b, j.items, cur.items);
      } else {
        items := JsonToItems(m.ty, j.items, Resize(m.ty, cur.items, |j.items|));
      }
      return if items.Err? then Err(items.error) else Ok(List(items.value));
    }
    if m.isArray {
      if !cur.List? || (m.ty.Prim? && (!j.JArray? || |j.items| != m.arraySize)) || (j.JObject? && j.m != map[]) {
        return Err(Rejected);
      }
      if !j.JArray? {
        return Ok(cur);
      }
      if |j.items| > |cur.items| {
        return Err(OutOfBounds);
      }
      var items := JsonToItems(m.ty, j.items, cur.items);
      return if items.Err? then Err(items.error) else Ok(List(items.value));
    }
    r := JsonToValue(m.ty, j, cur);
  }

  method WriteSequence(b: Basic, js: seq<Json>, into: seq<Value>) returns (r: Result<seq<Value>>)
    ensures r == PushItems(b, js, into)
  {
    hide GetJsonValue, MayPush;
    var items := into;
    for i := 0 to |js|
      invariant PushItems(b, js[..i], into) == Ok(items)
    {
      assert js[..i + 1][..i] == js[..i];
      PushItemsPrefix(b, js, into, i + 1);
      if !MayPush(b, js[i]) {
        return Err(Rejected);
      }
      var v := GetJsonValue(b, js[i]);
      if v.Err? {
        return Err(v.error);
      }
      items := items + [v.value];
    }
    assert js[..|js|] == js;
    return Ok(items);
  }

  method JsonToItems(ty: Type, js: seq<Json>, cur: seq<Value>) returns (r: Result<seq<Value>>)
    requires |js| <= |cur|
    ensures r == WriteItems(ty, js, cur)
    decreases ty, 3
  {
    hide WriteType;
    var items := cur;
    for i := 0 to |js|
      invariant |items| == |cur| && WriteItems(ty, js[..i], cur) == Ok(items)
    {
      assert js[..i + 1][..i] == js[..i];
      WriteItemsPrefix(ty, js, cur, i + 1);
      var v := JsonToValue(ty, js[i], items[i]);
      if v.Err? {
        return Err(v.error);
      }
      items := items[i := v.value];
    }
    assert js[..|js|] == js;
    return Ok(items);
  }

  method JsonToValue(ty: Type, j: Json, cur: Value) returns (r: Result<Value>)
    ensures r == WriteType(ty, j, cur)
    decreases ty, 2
  {
    match ty
    case Prim(b) => r := GetJsonValue(b, j);
    case Nested(ms) =>
      if !cur.Msg? || |cur.fields| != |ms| {
        return Err(Rejected);
      }
      var fields := JsonToMessageImpl(j, ms, cur.fields);
      r := if fields.Err? then Err(fields.error) else Ok(Msg(fields.value));
  }
}
