/** The header value parsers: the stateless `STRING`, `INT` and `LONG`
    constants of HTTPHeaderParser, the table-driven MappedHTTPHeaderParser and
    the always-failing NullHTTPHeaderParser. A parser takes the raw header
    text, which is null when the header or index is missing. */
module HeaderParsers {
  import opened Outcomes
  import opened JavaValues
  import Decimal
  import MimeTypes

  const NULL_PARSER_MESSAGE: string := "Null header parser!"

  datatype HeaderParser =
    | StringParser                               // HTTPHeaderParser.STRING
    | IntParser                                  // HTTPHeaderParser.INT
    | LongParser                                 // HTTPHeaderParser.LONG
    | Mapped(table: map<string, JavaValue>)      // MappedHTTPHeaderParser
    | NullParser                                 // NullHTTPHeaderParser

  /** `parser.parse(s)`. Only the null parser throws HTTPException; the
      number parsers throw NumberFormatException; the others never fail. */
  function Parse(p: HeaderParser, s: Option<string>): (r: Outcome<JavaValue>)
    ensures p.NullParser? ==> r == Fail(HttpFailure(NULL_PARSER_MESSAGE))
    ensures p.StringParser? || p.Mapped? ==> r.Ok?
    ensures (p.IntParser? || p.LongParser?) && r.Fail? ==> r.failure == NumberFormat
    ensures (p.IntParser? || p.LongParser?) && s.None? ==> r.Fail?
    ensures p.IntParser? && r.Ok? ==> r.value.Int?
    ensures p.LongParser? && r.Ok? ==> r.value.Long?
  {
    match p
    case StringParser => Ok(if s.Some? then Str(s.value) else Null)
    case IntParser =>
      (match Decimal.ParseDecimal(s, INT_MIN, INT_MAX)
       case Ok(n) => Ok(Int(n))
       case Fail(f) => Fail(f))
    case LongParser =>
      (match Decimal.ParseDecimal(s, LONG_MIN, LONG_MAX)
       case Ok(n) => Ok(Long(n))
       case Fail(f) => Fail(f))
    case Mapped(table) => Ok(if s.Some? && s.value in table then table[s.value] else Null)
    case NullParser => Fail(HttpFailure(NULL_PARSER_MESSAGE))
  }

  /** `STRING` hands the text back unchanged. */
  lemma StringParserIdentity(s: Option<string>)
    ensures Parse(StringParser, s) == Ok(if s.Some? then Str(s.value) else Null)
  {
  }

  /** `INT.parse(String.valueOf(n)) == n` for every Java `int`. */
  lemma IntRoundTrip(n: int32)
    ensures Parse(IntParser, Some(ValueOf(Int(n)))) == Ok(Int(n))
  {
    Decimal.ParseToDecimal(n, INT_MIN, INT_MAX);
  }

  /** `LONG.parse(String.valueOf(n)) == n` for every Java `long`. */
  lemma LongRoundTrip(n: int64)
    ensures Parse(LongParser, Some(ValueOf(Long(n)))) == Ok(Long(n))
  {
    Decimal.ParseToDecimal(n, LONG_MIN, LONG_MAX);
  }

  /** `INT` rejects the decimal form of a `long` outside the `int` range. */
  lemma IntRejectsOutOfRange(n: int64)
    requires n < INT_MIN || INT_MAX < n
    ensures Parse(IntParser, Some(ValueOf(Long(n)))) == Fail(NumberFormat)
  {
    Decimal.ParseToDecimal(n, INT_MIN, INT_MAX);
  }

  /** The values a mapped parser may be built from: each element of a
      `V[]` with `V extends HTTPHeaderValue` is such a value or null. */
  predicate MappableValues(values: seq<JavaValue>) {
    forall v <- values :: v.Null? || v.Mime?
  }

  /** The map a loop of `map.put(key(v), v)` over `values` leaves behind:
      later values overwrite earlier ones with the same key. */
  function TableOf<V>(values: seq<V>, key: V -> string): map<string, V> {
    if values == [] then map[]
    else TableOf(values[..|values| - 1], key)[key(values[|values| - 1]) := values[|values| - 1]]
  }

  /** The table `new MappedHTTPHeaderParser(values)` builds, keyed by each
      value's `getHTTPHeaderValue()`. */
  function MappedTable(values: seq<JavaValue>): map<string, JavaValue> {
    TableOf(values, HeaderString)
  }

  /** The constructor's loop. A null element throws NullPointerException
      when its `getHTTPHeaderValue()` is called. */
  method BuildMappedTable(values: seq<JavaValue>) returns (r: Outcome<map<string, JavaValue>>)
    requires MappableValues(values)
    ensures r.Fail? <==> Null in values
    ensures r.Fail? ==> r.failure == NullDereference
    ensures r.Ok? ==> r.value == MappedTable(values)
  {
    var table: map<string, JavaValue> := map[];
    var i := 0;
    while i < |values|
      invariant 0 <= i <= |values|
      invariant Null !in values[..i]
      invariant table == TableOf(values[..i], HeaderString)
    {
      var v := values[i];
      if v.Null? {
        return Fail(NullDereference);
      }
      var wire := HeaderValueOf(v).value;
      TableStep(values, HeaderString, i);
      table := table[wire := v];
      i := i + 1;
    }
    assert values[..i] == values;
    return Ok(table);
  }

  /** One more iteration of the constructor's loop puts one more entry. */
  lemma TableStep<V>(values: seq<V>, key: V -> string, i: nat)
    requires i < |values|
    ensures TableOf(values[..i + 1], key) == TableOf(values[..i], key)[key(values[i]) := values[i]]
  {
    assert values[..i + 1][..i] == values[..i];
  }

  /** The table's keys are exactly the keys of the values. */
  lemma {:induction false} TableKeys<V>(values: seq<V>, key: V -> string)
    ensures TableOf(values, key).Keys == set v <- values :: key(v)
  {
    if values != [] {
      var init := values[..|values| - 1];
      TableKeys(init, key);
      assert values == init + [values[|values| - 1]];
    }
  }

  /** Under each key the table holds the last value, in array order, that
      has that key. */
  lemma {:induction false} TableLastWins<V>(values: seq<V>, key: V -> string, k: nat)
    requires k < |values|
    requires forall j :: k < j < |values| ==> key(values[j]) != key(values[k])
    ensures key(values[k]) in TableOf(values, key)
    ensures TableOf(values, key)[key(values[k])] == values[k]
  {
    var init := values[..|values| - 1];
    if k < |values| - 1 {
      assert forall j :: k < j < |init| ==> init[j] == values[j];
      TableLastWins(init, key, k);
    }
  }

  /** When no two values share a key, a value's key looks that value up. */
  lemma TableRoundTrip<V>(values: seq<V>, key: V -> string, v: V)
    requires forall i, j :: 0 <= i < j < |values| ==> key(values[i]) != key(values[j])
    requires v in values
    ensures key(v) in TableOf(values, key) && TableOf(values, key)[key(v)] == v
  {
    var k :| 0 <= k < |values| && values[k] == v;
    TableLastWins(values, key, k);
  }

  /** A mapped parser whose values have distinct wire strings parses each
      value's wire string back to that value. */
  lemma MappedRoundTrip(values: seq<JavaValue>, v: JavaValue)
    requires forall i, j :: 0 <= i < j < |values| ==> HeaderString(values[i]) != HeaderString(values[j])
    requires v in values
    ensures Parse(Mapped(MappedTable(values)), Some(HeaderString(v))) == Ok(v)
  {
    TableRoundTrip(values, HeaderString, v);
  }

  /** A string that is no value's wire string, or null, parses to null. */
  lemma MappedMiss(values: seq<JavaValue>, s: Option<string>)
    requires s.Some? ==> forall v <- values :: HeaderString(v) != s.value
    ensures Parse(Mapped(MappedTable(values)), s) == Ok(Null)
  {
    TableKeys(values, HeaderString);
  }
}
