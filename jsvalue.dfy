/**
  The JavaScript values the cursor codecs handle, and the coercions
  `Number(v)` and `new Date(v)` applied to them.
 */
module JsValues {
  import opened Wrappers
  import opened JsNumber
  import opened JsDate
  import opened JsonCodec

  /**
    A JavaScript value. `Composite` is an array or object as `JSON.parse`
    builds it; `Unknown` is the result of a coercion the model does not
    compute (for instance `Number` of an array, or `new Date` of a string
    that is not in the Date Time String Format).
   */
  datatype JsValue =
    | Undefined
    | Null
    | Bool(b: bool)
    | Num(n: Number)
    | Str(s: string)
    | Date(d: DateValue)
    | Composite(j: Json)
    | Unknown

  /** The value `JSON.parse` produces for a JSON value. */
  function FromJson(j: Json): (v: JsValue)
    ensures v.Composite? <==> j.JArray? || j.JObject?
    ensures v != Undefined && v != Unknown && !v.Date?
  {
    match j
    case JNull => Null
    case JBool(b) => Bool(b)
    case JNumber(n) => Num(n)
    case JString(s) => Str(s)
    case _ => Composite(j)
  }

  /** Reading property `key` of `v` (`v.key`); reading a property of null or undefined throws a TypeError. */
  function GetProperty(v: JsValue, key: string): (r: Option<JsValue>)
    requires key == "value" || key == "type" || key == "id"
    ensures r.None? <==> v == Null || v == Undefined
  {
    match v
    case Null => None
    case Undefined => None
    case Composite(JObject(fs)) =>
      (match Get(fs, key)
       case Some(x) => Some(FromJson(x))
       case None => Some(Undefined))
    case _ => Some(Undefined)
  }

  /** `Number(v)`. */
  function ToNumber(v: JsValue): (r: JsValue)
    ensures r.Num? || r == Unknown
  {
    match v
    case Undefined => Num(NaN)
    case Null => Num(Int(0))
    case Bool(b) => Num(Int(if b then 1 else 0))
    case Num(n) => Num(n)
    case Str(s) => Num(StringToNumber(s))
    case _ => Unknown
  }

  /** `new Date(v)` for one argument. */
  function NewDate(v: JsValue): (r: JsValue)
    ensures r.Date? || r == Unknown
  {
    match v
    case Str(s) =>
      (match ParseIso(s)
       case Some(d) => Date(d)
       case None => Unknown)
    case Date(d) => Date(d)
    case _ =>
      match ToNumber(v)
      case Num(Int(n)) => Date(TimeClip(n))
      case Num(NaN) => Date(Invalid)
      case _ => Unknown
  }

  /** ToBoolean: what an `if` or `&&` makes of a value; `Unknown` has no defined truth value here. */
  function Truthy(v: JsValue): (b: bool)
    requires v != Unknown
    ensures (v == Undefined || v == Null || v == Bool(false) || v == Num(Int(0)) || v == Num(NaN) || v == Str("")) <==> !b
  {
    match v
    case Undefined => false
    case Null => false
    case Bool(b) => b
    case Num(n) => n != Int(0) && n != NaN
    case Str(s) => s != ""
    case _ => true
  }
}
