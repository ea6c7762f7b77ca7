/** The run-time values that reach the header layer through `Object` and
    generic `V` parameters, and the two ways the layer turns them into text:
    the `HTTPHeaderValue` capability and `String.valueOf`. */
module JavaValues {
  import opened Outcomes
  import Decimal
  import MimeTypes

  /** A value as Java sees it at run time: null, a String, a boxed Integer or
      Long, or a MIMETypes constant (the one HTTPHeaderValue in the library). */
  datatype JavaValue =
    | Null
    | Str(s: string)
    | Int(i: int32)
    | Long(l: int64)
    | Mime(m: MimeTypes.MimeType)

  /** `v instanceof HTTPHeaderValue hv ? Some(hv.getHTTPHeaderValue()) : None`. */
  function HeaderValueOf(v: JavaValue): (r: Option<string>)
    ensures r.Some? <==> v.Mime?
    ensures v.Mime? ==> r.value == MimeTypes.Wire(v.m)
  {
    match v
    case Mime(m) => Some(MimeTypes.Wire(m))
    case _ => None
  }

  /** The text `HTTPHeader.getString` makes of a value: its own wire string
      when it implements HTTPHeaderValue, `String.valueOf(v)` otherwise. */
  function HeaderString(v: JavaValue): string {
    match HeaderValueOf(v)
    case Some(w) => w
    case None => ValueOf(v)
  }

  /** `String.valueOf(v)`: "null" for null, the text of a String, the decimal
      form of a number, and the constant's name for an enum. */
  function ValueOf(v: JavaValue): (r: string)
    ensures v.Null? ==> r == "null"
    ensures v.Int? ==> Decimal.IsSignedDigits(r) && Decimal.SignedValue(r) == v.i
    ensures v.Long? ==> Decimal.IsSignedDigits(r) && Decimal.SignedValue(r) == v.l
  {
    match v
    case Null => "null"
    case Str(s) => s
    case Int(i) => Decimal.ToDecimal(i)
    case Long(l) => Decimal.ToDecimal(l)
    case Mime(m) => MimeTypes.Name(m)
  }
}
