/**
  The API's generic opaque cursor: a flat record of primitive values written
  as JSON, the JSON text as UTF-8 and the bytes as unpadded base64url.
  Decoding performs no shape check: whatever JSON the token carries is
  handed back, and every way of failing becomes the one "Invalid cursor"
  error.
 */
module JsonCursor {
  import opened Wrappers
  import opened JsNumber
  import opened JsonCodec
  import Base64Url
  import Utf8

  /** `new Error("Invalid cursor")`, the only error `decodeCursor` raises. */
  datatype CursorError = InvalidCursor

  /** `string | number | boolean | null`. */
  predicate IsCursorValue(v: Json)
  {
    v.JString? || v.JNumber? || v.JBool? || v.JNull?
  }

  /**
    A `Record<string, CursorValue>` as JavaScript holds it: its own properties
    in property order. Fractions and infinities are not modelled, so a number
    is an integer or NaN.
   */
  predicate IsPayload(fs: seq<Field>)
  {
    Ordered(fs) && forall i :: 0 <= i < |fs| ==> IsCursorValue(fs[i].value) && fs[i].value != JNumber(OtherNumber)
  }

  /** `encodeCursor`: JSON text, as UTF-8 bytes, in base64url. */
  function Encode(fs: seq<Field>): (token: string)
    requires IsPayload(fs)
    ensures token != []
    ensures forall i :: 0 <= i < |token| ==> Base64Url.UrlSafe(token[i])
  {
    assert Printable(JObject(fs));
    var text := Stringify(JObject(fs));
    assert text[0] == '{';
    Base64Url.Encode(Utf8.Encode(text))
  }

  /** The text a token stands for: its bytes, read leniently, as UTF-8 with replacement. */
  function TokenText(token: string): string
  {
    Utf8.Decode(Base64Url.Decode(token))
  }

  /** `decodeCursor`: the parsed JSON, whatever its shape, or `InvalidCursor`. */
  function Decode(token: string): (r: Result<Json, CursorError>)
    ensures r.Failure? <==> Parse(TokenText(token)).Failure?
    ensures r.Success? ==> Parse(TokenText(token)) == Success(r.value)
  {
    match Parse(TokenText(token))
    case Failure(_) => Failure(InvalidCursor)
    case Success(v) => Success(v)
  }

  /** The payload's own record comes back when every number in it is an integer. */
  lemma RoundTrip(fs: seq<Field>)
    requires IsPayload(fs)
    requires forall i :: 0 <= i < |fs| ==> fs[i].value != JNumber(NaN)
    ensures Decode(Encode(fs)) == Success(JObject(fs))
  {
    var v := JObject(fs);
    assert Canonical(v) by {
      forall i | 0 <= i < |fs|
        ensures Exact(fs[i].value) && Printable(fs[i].value)
      {
        assert fs[i].value != JNumber(OtherNumber);
      }
    }
    Base64Url.RoundTrip(Utf8.Encode(Stringify(v)));
    Utf8.RoundTrip(Stringify(v));
    JsonCodec.RoundTrip(v);
  }

  /** `JSON.stringify` writes NaN as `null`, so a NaN property comes back as `null`. */
  lemma NaNBecomesNull(k: string)
    ensures Decode(Encode([Field(k, JNumber(NaN))])) == Success(JObject([Field(k, JNull)]))
  {
    assert Stringify(JNumber(NaN)) == Stringify(JNull);
    assert StringifyFields([Field(k, JNumber(NaN))]) == StringifyFields([Field(k, JNull)]);
    RoundTrip([Field(k, JNull)]);
  }

  /** No shape check: a token carrying any canonical JSON value, an array or a bare number included, decodes to it. */
  lemma AnyShape(v: Json)
    requires Canonical(v)
    ensures Decode(Base64Url.Encode(Utf8.Encode(Stringify(v)))) == Success(v)
  {
    Base64Url.RoundTrip(Utf8.Encode(Stringify(v)));
    Utf8.RoundTrip(Stringify(v));
    JsonCodec.RoundTrip(v);
  }

  /** The empty token stands for empty text, which `JSON.parse` rejects. */
  lemma EmptyTokenInvalid()
    ensures Decode("") == Failure(InvalidCursor)
  {
    assert Base64Url.Decode("") == [];
  }
}
