/** HTTPBody and HTTPBodyParser: an immutable byte payload and the parsers
    that read it as bytes, as text, or as JSON through the text. */
module Body {
  import opened Outcomes
  import Utf8

  /** A body parser: `parse(bytes)`, which may fail. */
  datatype BodyParser<V> = BodyParser(parse: seq<Byte> -> Outcome<V>)

  /** `BYTES`: the bytes themselves. */
  function BytesParser(): (p: BodyParser<seq<Byte>>)
    ensures forall bs :: p.parse(bs) == Ok(bs)
  {
    BodyParser(bs => Ok(bs))
  }

  /** `STRING`: the bytes decoded in the default charset; it never fails. */
  function StringParser(): (p: BodyParser<string>)
    ensures forall bs :: p.parse(bs).Ok?
  {
    BodyParser(bs => Ok(Utf8.Decode(bs)))
  }

  /** `JSON_OBJECT` and `JSON_ARRAY`: `STRING` followed by the JSON library's
      `JSON.object` or `JSON.array`, given here as `json`. */
  function JsonParser<J>(json: string -> Outcome<J>): (p: BodyParser<J>)
    ensures forall s :: p.parse(Utf8.Encode(s)) == json(s)
    ensures forall bs, cs :: Utf8.Decode(bs) == Utf8.Decode(cs) ==> p.parse(bs) == p.parse(cs)
  {
    var p := BodyParser(bs => json(Utf8.Decode(bs)));
    assert forall bs :: p.parse(bs) == json(Utf8.Decode(bs));
    Utf8.DecodeEncodeAll();
    p
  }

  datatype Body = Body(bytes: seq<Byte>)

  /** `HTTPBody.of()`: no bytes. */
  function Empty(): (b: Body)
    ensures Get(b, BytesParser()) == Ok([])
    ensures Get(b, StringParser()) == Ok("")
  {
    Body([])
  }

  /** `HTTPBody.of(bytes)`. */
  function Of(bytes: seq<Byte>): (b: Body)
    ensures Get(b, BytesParser()) == Ok(bytes)
  {
    Body(bytes)
  }

  /** `get(parser)`: the parser applied to the body's bytes. */
  function Get<V>(b: Body, p: BodyParser<V>): Outcome<V> {
    p.parse(b.bytes)
  }

  /** A body made from a string's bytes reads back as that string. */
  lemma StringRoundTrip(s: string)
    ensures Get(Of(Utf8.Encode(s)), StringParser()) == Ok(s)
  {
    Utf8.DecodeEncode(s);
  }

  /** A body made from a JSON value's text reads back as that value whenever
      the JSON library parses what it prints. */
  lemma JsonRoundTrip<J>(j: J, toString: J -> string, json: string -> Outcome<J>)
    requires json(toString(j)) == Ok(j)
    ensures Get(Of(Utf8.Encode(toString(j))), JsonParser(json)) == Ok(j)
  {
    StringRoundTrip(toString(j));
  }
}
