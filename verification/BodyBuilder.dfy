/** HTTPBodyBuilder: a growing byte buffer that strings and JSON values are
    appended to in the default charset, snapshotted into an HTTPBody. */
module BodyBuilder {
  import opened Outcomes
  import opened Body
  import Utf8

  /** The bounds `ByteArrayOutputStream.write(value, off, len)` accepts:
      the slice must lie within the array. */
  predicate SliceInBounds(length: nat, off: int, len: int) {
    0 <= off && 0 <= len && off + len <= length
  }

  class BodyBuilder {
    var bytes: seq<Byte>

    /** `HTTPBody.builder()`: an empty buffer. */
    constructor()
      ensures bytes == []
    {
      bytes := [];
    }

    /** `append(value, off, len)`: appends `len` bytes of `value` from `off`;
        a slice outside the array throws IndexOutOfBoundsException and writes
        nothing. */
    method AppendSlice(value: seq<Byte>, off: int32, len: int32) returns (r: Outcome<()>)
      modifies this
      ensures r.Ok? <==> SliceInBounds(|value|, off, len)
      ensures r.Fail? ==> r.failure == IndexOutOfBounds && bytes == old(bytes)
      ensures r.Ok? ==> bytes == old(bytes) + value[off..off + len]
    {
      if off < 0 || len < 0 || len > |value| - off {
        return Fail(IndexOutOfBounds);
      }
      bytes := bytes + value[off..off + len];
      return Ok(());
    }

    /** `append(value)`: the whole array. A Java array's length is an `int`. */
    method Append(value: seq<Byte>)
      requires |value| <= INT_MAX
      modifies this
      ensures bytes == old(bytes) + value
    {
      var r := AppendSlice(value, 0, |value|);
      assert r.Ok?;
      assert value[0..|value|] == value;
    }

    /** `append(string)`: the string's bytes in the default charset. */
    method AppendString(value: string)
      requires |Utf8.Encode(value)| <= INT_MAX
      modifies this
      ensures bytes == old(bytes) + Utf8.Encode(value)
    {
      Append(Utf8.Encode(value));
    }

    /** `append(json)`: the bytes of the JSON value's `toString()`, which the
        JSON library supplies as `toString`. */
    method AppendJson<J>(value: J, toString: J -> string)
      requires |Utf8.Encode(toString(value))| <= INT_MAX
      modifies this
      ensures bytes == old(bytes) + Utf8.Encode(toString(value))
    {
      AppendString(toString(value));
    }

    /** `build()`: a body holding a copy of the bytes written so far. */
    method Build() returns (b: Body)
      ensures b.bytes == bytes
      ensures Get(b, BytesParser()) == Ok(bytes)
    {
      b := Of(bytes);
    }
  }

  /** Text appended piece by piece reads back, through `STRING`, as the
      concatenation of the pieces. */
  lemma AppendedStringsRead(s: string, t: string)
    ensures Get(Of(Utf8.Encode(s) + Utf8.Encode(t)), StringParser()) == Ok(s + t)
  {
    Utf8.EncodeAppend(s, t);
    StringRoundTrip(s + t);
  }

  /** A builder given two strings builds a body whose text is both, and a
      body built earlier keeps only what had been written by then. */
  method BuildTwice(s: string, t: string) returns (first: Body, second: Body)
    requires |Utf8.Encode(s)| + |Utf8.Encode(t)| <= INT_MAX
    ensures Get(first, StringParser()) == Ok(s)
    ensures Get(second, StringParser()) == Ok(s + t)
  {
    var builder := new BodyBuilder();
    builder.AppendString(s);
    first := builder.Build();
    assert first.bytes == Utf8.Encode(s);
    builder.AppendString(t);
    second := builder.Build();
    assert second.bytes == Utf8.Encode(s) + Utf8.Encode(t);
    StringRoundTrip(s);
    AppendedStringsRead(s, t);
  }
}
