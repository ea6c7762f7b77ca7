/** HTTPHeader: a header name bound to the parser that reads its values, and
    the four headers the library predefines. */
module Header {
  import opened Outcomes
  import opened JavaValues
  import opened HeaderParsers
  import MimeTypes

  datatype Header = Header(name: string, parser: HeaderParser)

  /** `HTTPHeader.of(name, parser)`. */
  function OfParser(name: string, parser: HeaderParser): (h: Header)
    ensures GetName(h) == name
    ensures forall s :: GetValue(h, s) == Parse(parser, s)
  {
    Header(name, parser)
  }

  /** `HTTPHeader.of(name, values...)`: no values gives the null parser,
      otherwise a mapped parser over the values (whose construction throws on
      a null element). */
  function OfValues(name: string, values: seq<JavaValue>): (r: Outcome<Header>)
    requires MappableValues(values)
    ensures r.Ok? <==> Null !in values
    ensures r.Ok? ==> GetName(r.value) == name
    ensures |values| == 0 ==> r.Ok? && r.value.parser == NullParser
    ensures |values| > 0 && r.Ok? ==> r.value.parser == Mapped(MappedTable(values))
  {
    if |values| == 0 then Ok(Header(name, NullParser))
    else if Null in values then Fail(NullDereference)
    else Ok(Header(name, Mapped(MappedTable(values))))
  }

  /** `getName()`. */
  function GetName(h: Header): string {
    h.name
  }

  /** `getString(value)`: the same for every header, since it looks only at
      the value. */
  function GetString(h: Header, v: JavaValue): (s: string)
    ensures v.Mime? ==> s == MimeTypes.Wire(v.m)
    ensures !v.Mime? ==> s == ValueOf(v)
  {
    HeaderString(v)
  }

  /** `getValue(s)`: the header's parser applied to `s`, failures included. */
  function GetValue(h: Header, s: Option<string>): Outcome<JavaValue> {
    Parse(h.parser, s)
  }

  /** The MIME constants as the values `MIMETypes.values()` passes in. */
  const MimeValues: seq<JavaValue> := seq(|MimeTypes.Values|, i requires 0 <= i < |MimeTypes.Values| => Mime(MimeTypes.Values[i]))

  const USER_AGENT: Header := OfParser("User-Agent", StringParser)
  const AUTHORIZATION: Header := OfParser("Authorization", StringParser)
  const ACCEPT: Header := Header("Accept", Mapped(MappedTable(MimeValues)))
  const CONTENT_TYPE: Header := Header("Content-Type", Mapped(MappedTable(MimeValues)))

  /** `ACCEPT` and `CONTENT_TYPE` are what `of(name, MIMETypes.values())`
      builds. */
  lemma MimeHeadersAreMapped()
    ensures OfValues("Accept", MimeValues) == Ok(ACCEPT)
    ensures OfValues("Content-Type", MimeValues) == Ok(CONTENT_TYPE)
  {
    MimeTypes.ValuesEnumerateAll();
    assert MimeValues[0] == Mime(MimeTypes.Values[0]);
  }

  /** The plain-text headers pass strings through unchanged both ways. */
  lemma StringHeadersIdentity(h: Header, s: string)
    requires h == USER_AGENT || h == AUTHORIZATION
    ensures GetValue(h, Some(s)) == Ok(Str(s))
    ensures GetString(h, Str(s)) == s
  {
  }

  /** The MIME wire strings of `values()` are pairwise distinct. */
  lemma MimeValuesDistinctWires()
    ensures forall i, j :: 0 <= i < j < |MimeValues| ==> HeaderString(MimeValues[i]) != HeaderString(MimeValues[j])
  {
    MimeTypes.ValuesEnumerateAll();
    forall i, j | 0 <= i < j < |MimeValues|
      ensures HeaderString(MimeValues[i]) != HeaderString(MimeValues[j])
    {
      if HeaderString(MimeValues[i]) == HeaderString(MimeValues[j]) {
        MimeTypes.WireInjective(MimeTypes.Values[i], MimeTypes.Values[j]);
      }
    }
  }

  /** For the MIME-typed headers, `getValue(getString(m)) == m` for every
      constant. */
  lemma MimeHeaderRoundTrip(h: Header, m: MimeTypes.MimeType)
    requires h == ACCEPT || h == CONTENT_TYPE
    ensures GetValue(h, Some(GetString(h, Mime(m)))) == Ok(Mime(m))
  {
    MimeValuesContains(m);
    MimeValuesDistinctWires();
    MappedRoundTrip(MimeValues, Mime(m));
  }

  /** Every constant is among the values the MIME headers are built from. */
  lemma MimeValuesContains(m: MimeTypes.MimeType)
    ensures Mime(m) in MimeValues
  {
    MimeTypes.ValuesEnumerateAll();
    assert MimeValues[MimeTypes.Ordinal(m)] == Mime(m);
  }

  /** For the MIME-typed headers, a string that is no constant's wire string,
      and null, read as null rather than failing. */
  lemma MimeHeaderUnknown(h: Header, s: Option<string>)
    requires h == ACCEPT || h == CONTENT_TYPE
    requires s.Some? ==> forall m :: MimeTypes.Wire(m) != s.value
    ensures GetValue(h, s) == Ok(Null)
  {
    MappedMiss(MimeValues, s);
  }

  /** A header made from no values fails to read anything, null included. */
  lemma NoValuesHeaderAlwaysFails(name: string, s: Option<string>)
    ensures OfValues(name, []).Ok?
    ensures GetValue(OfValues(name, []).value, s) == Fail(HttpFailure(NULL_PARSER_MESSAGE))
  {
  }
}
