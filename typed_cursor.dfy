/**
  The typed keyset cursor of the list-query helper: the last row's sort
  value and id, written as the JSON object `{value, type, id}` (the value
  as a string, the type saying how to read it back), UTF-8 encoded and
  then base64url encoded.
 */
module TypedCursor {
  import opened Wrappers
  import opened JsNumber
  import opened JsDate
  import opened JsonCodec
  import opened JsValues
  import Base64Url
  import Utf8

  /** The exceptions encoding and decoding can raise. */
  datatype CursorError = RangeError | SyntaxError | TypeError

  /** A sort value the cursor carries: a string, a number or a `Date`. */
  datatype CursorValue = StringValue(s: string) | NumberValue(n: SafeInt) | DateObject(d: DateValue)

  datatype ValueType = StringType | NumberType | DateType

  function TypeName(t: ValueType): (name: string)
    ensures name == "string" || name == "number" || name == "date"
  {
    match t
    case StringType => "string"
    case NumberType => "number"
    case DateType => "date"
  }

  /** What the cursor stores: the sort value, and the id as `JSON.stringify` would write it. */
  datatype Payload = Payload(value: CursorValue, id: Json)

  /** What decoding gives back: the value read according to its type tag, and the id as parsed. */
  datatype Decoded = Decoded(value: JsValue, id: JsValue)

  /** `Date` objects are "date", numbers "number", everything else "string". */
  function DetectValueType(v: CursorValue): (t: ValueType)
    ensures t == DateType <==> v.DateObject?
    ensures t == NumberType <==> v.NumberValue?
  {
    match v
    case DateObject(_) => DateType
    case NumberValue(_) => NumberType
    case StringValue(_) => StringType
  }

  /**
    The value as a string with its type tag. A `Date` is written with
    `toISOString`, which throws a RangeError for an invalid date.
   */
  function SerializeValue(v: CursorValue): (r: Result<(string, ValueType), CursorError>)
    ensures r.Failure? <==> v == DateObject(Invalid)
    ensures r.Failure? ==> r.error == RangeError
    ensures r.Success? ==> r.value.1 == DetectValueType(v)
    ensures v.StringValue? ==> r == Success((v.s, StringType))
  {
    match v
    case StringValue(s) => Success((s, StringType))
    case NumberValue(n) => Success((ToString(n), NumberType))
    case DateObject(d) =>
      match ToIsoString(d)
      case Failure(_) => Failure(RangeError)
      case Success(text) => Success((text, DateType))
  }

  /** The object `{ value, type, id }`, in that property order. */
  function Serialized(text: string, t: ValueType, id: Json): Json
  {
    JObject([Field("value", JString(text)), Field("type", JString(TypeName(t))), Field("id", id)])
  }

  /** `encodeCursor`: base64url of the UTF-8 bytes of the JSON text; the token only holds URL-safe characters. */
  function Encode(p: Payload): (r: Result<string, CursorError>)
    requires Printable(p.id)
    ensures r.Failure? <==> p.value == DateObject(Invalid)
    ensures r.Failure? ==> r.error == RangeError
    ensures r.Success? ==> r.value != [] && forall i :: 0 <= i < |r.value| ==> Base64Url.UrlSafe(r.value[i])
  {
    match SerializeValue(p.value)
    case Failure(e) => Failure(e)
    case Success((text, t)) =>
      var j := Serialized(text, t, p.id);
      assert Printable(j);
      Success(Base64Url.Encode(Utf8.Encode(Stringify(j))))
  }

  /** `deserializeValue`: "date" goes through `new Date`, "number" through `Number`, any other tag leaves the value as it is. */
  function DeserializeValue(value: JsValue, t: JsValue): (r: JsValue)
    ensures t == Str("date") ==> r == NewDate(value)
    ensures t == Str("number") ==> r == ToNumber(value)
    ensures t != Str("date") && t != Str("number") ==> r == value
  {
    if t == Str("date") then NewDate(value)
    else if t == Str("number") then ToNumber(value)
    else value
  }

  /** The JSON text a token carries: decoding base64url and UTF-8 never fails. */
  function TokenText(token: string): string
  {
    Utf8.Decode(Base64Url.Decode(token))
  }

  /**
    `decodeCursor`: text that is not JSON is a SyntaxError and the JSON
    value `null` a TypeError; any other JSON value decodes, with missing
    properties read as `undefined`.
   */
  function Decode(token: string): (r: Result<Decoded, CursorError>)
    ensures r == Failure(SyntaxError) <==> Parse(TokenText(token)).Failure?
    ensures r == Failure(TypeError) <==> Parse(TokenText(token)) == Success(JNull)
    ensures r.Failure? ==> r.error == SyntaxError || r.error == TypeError
  {
    match Parse(TokenText(token))
    case Failure(_) => Failure(SyntaxError)
    case Success(j) =>
      var serialized := FromJson(j);
      match GetProperty(serialized, "value")
      case None => Failure(TypeError)
      case Some(value) =>
        var t := GetProperty(serialized, "type").value;
        var id := GetProperty(serialized, "id").value;
        Success(Decoded(DeserializeValue(value, t), id))
  }

  /** The value a cursor value decodes to. */
  function Expected(v: CursorValue): (r: JsValue)
    ensures v.StringValue? ==> r == Str(v.s)
    ensures v.NumberValue? ==> r == Num(Int(v.n))
    ensures v.DateObject? ==> r == Date(v.d)
  {
    match v
    case StringValue(s) => Str(s)
    case NumberValue(n) => Num(Int(n))
    case DateObject(d) => Date(d)
  }

  lemma NotIndex(k: string)
    requires k != [] && !('0' <= k[0] <= '9')
    ensures !IsArrayIndex(k)
  {
    assert !Decimal.IsDigit(k[0]);
  }

  lemma SerializedCanonical(text: string, t: ValueType, id: Json)
    requires Canonical(id)
    ensures Canonical(Serialized(text, t, id))
  {
    NotIndex("value");
    NotIndex("type");
    NotIndex("id");
    var fs := [Field("value", JString(text)), Field("type", JString(TypeName(t))), Field("id", id)];
    assert Ordered(fs);
  }

  /** Reading back the properties of the serialized object. */
  lemma SerializedProperties(text: string, t: ValueType, id: Json)
    ensures GetProperty(FromJson(Serialized(text, t, id)), "value") == Some(Str(text))
    ensures GetProperty(FromJson(Serialized(text, t, id)), "type") == Some(Str(TypeName(t)))
    ensures GetProperty(FromJson(Serialized(text, t, id)), "id") == Some(FromJson(id))
  {
    var fs := [Field("value", JString(text)), Field("type", JString(TypeName(t))), Field("id", id)];
    assert Get(fs, "type") == Some(JString(TypeName(t))) by {
      assert fs[1..] == [Field("type", JString(TypeName(t))), Field("id", id)];
    }
    assert Get(fs, "id") == Some(id) by {
      assert fs[1..][1..] == [Field("id", id)];
      assert Get(fs[1..][1..], "id") == Some(id);
      assert Get(fs[1..], "id") == Some(id);
    }
  }

  /** Reading the serialized value back by its type tag gives the original value. */
  lemma DeserializeSerialized(v: CursorValue)
    requires v != DateObject(Invalid)
    ensures DeserializeValue(Str(SerializeValue(v).value.0), Str(TypeName(SerializeValue(v).value.1))) == Expected(v)
  {
    match v
    case StringValue(s) =>
    case NumberValue(n) =>
      StringToNumberToString(n);
    case DateObject(d) =>
      ParseToIsoString(d.time);
  }

  /**
    A token made from a safe integer, a string or a valid date, with an
    id that survives JSON, decodes to that value and that id.
   */
  lemma RoundTrip(p: Payload)
    requires Canonical(p.id) && p.value != DateObject(Invalid)
    ensures Encode(p).Success?
    ensures Decode(Encode(p).value) == Success(Decoded(Expected(p.value), FromJson(p.id)))
  {
    var (text, t) := SerializeValue(p.value).value;
    var j := Serialized(text, t, p.id);
    SerializedCanonical(text, t, p.id);
    JsonCodec.RoundTrip(j);
    var bytes := Utf8.Encode(Stringify(j));
    Utf8.RoundTrip(Stringify(j));
    Base64Url.RoundTrip(bytes);
    assert TokenText(Encode(p).value) == Stringify(j);
    SerializedProperties(text, t, p.id);
    DeserializeSerialized(p.value);
  }
}
