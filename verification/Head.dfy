/** HTTPHead: an immutable multimap from header name to the ordered list of
    that header's raw values, read raw or through a typed Header. */
module Head {
  import opened Outcomes
  import opened JavaValues
  import opened HeaderParsers
  import opened Header

  datatype Head = Head(headers: map<string, seq<string>>)

  /** `HTTPHead.of()`: no headers at all. */
  function Empty(): (h: Head)
    ensures forall name :: GetAll(h, name) == None
  {
    Head(map[])
  }

  /** `HTTPHead.of(map)`: a head holding a copy of the map's entries. */
  function Of(m: map<string, seq<string>>): (h: Head)
    ensures forall name :: GetAll(h, name) == if name in m then Some(m[name]) else None
  {
    Head(m)
  }

  /** `getAll(name)`: the stored list, or null when the name is absent. */
  function GetAll(h: Head, name: string): (r: Option<seq<string>>)
    ensures r.Some? <==> name in h.headers
    ensures forall i: int32 :: 0 <= i ==>
      Get(h, name, i) == if r.Some? && i < |r.value| then Ok(Some(r.value[i])) else Ok(None)
  {
    if name in h.headers then Some(h.headers[name]) else None
  }

  /** `get(name, index)`: the value at `index`, or null when the name is
      absent or the list is too short. A negative index on a present name
      reaches `list.get` and throws. */
  function Get(h: Head, name: string, index: int32): (r: Outcome<Option<string>>)
    ensures r.Fail? <==> name in h.headers && index < 0
    ensures r.Fail? ==> r.failure == IndexOutOfBounds
    ensures r.Ok? ==> (r.value.Some? <==> name in h.headers && 0 <= index < |h.headers[name]|)
    ensures r.Ok? && r.value.Some? ==> r.value.value == h.headers[name][index]
  {
    if name !in h.headers then Ok(None)
    else
      var list := h.headers[name];
      if |list| > index then
        if index < 0 then Fail(IndexOutOfBounds) else Ok(Some(list[index]))
      else Ok(None)
  }

  /** `get(name)`: the first value or null; it never fails. */
  function GetFirst(h: Head, name: string): (r: Outcome<Option<string>>)
    ensures r.Ok?
    ensures r.value.Some? <==> name in h.headers && h.headers[name] != []
    ensures r.value.Some? ==> r.value.value == h.headers[name][0]
  {
    Get(h, name, 0)
  }

  /** `get(header, index)`: the raw value at `index` (null if missing) handed
      to the header's parser. */
  function GetTyped(h: Head, header: Header, index: int32): (r: Outcome<JavaValue>)
    ensures index >= 0 ==> r == Parse(header.parser, GetRaw(h, header.name, index))
    ensures index < 0 && header.name in h.headers ==> r == Fail(IndexOutOfBounds)
  {
    match Get(h, header.name, index)
    case Fail(f) => Fail(f)
    case Ok(raw) => GetValue(header, raw)
  }

  /** The raw text at a non-negative index, or null. */
  function GetRaw(h: Head, name: string, index: nat): Option<string> {
    if name in h.headers && index < |h.headers[name]| then Some(h.headers[name][index]) else None
  }

  /** `get(header)`: the typed first value. */
  function GetTypedFirst(h: Head, header: Header): (r: Outcome<JavaValue>)
    ensures r == Parse(header.parser, GetRaw(h, header.name, 0))
  {
    GetTyped(h, header, 0)
  }

  /** `getAll(header)`: every stored value of the header parsed in order;
      the first value that fails to parse ends the loop with its failure, and
      an absent header throws NullPointerException when its list is iterated. */
  method GetAllTyped(h: Head, header: Header) returns (r: Outcome<seq<JavaValue>>)
    ensures header.name !in h.headers ==> r == Fail(NullDereference)
    ensures header.name in h.headers ==>
      var raw := h.headers[header.name];
      && (r.Ok? <==> forall i :: 0 <= i < |raw| ==> Parse(header.parser, Some(raw[i])).Ok?)
      && (r.Ok? ==> |r.value| == |raw|
                    && forall i :: 0 <= i < |raw| ==> Parse(header.parser, Some(raw[i])) == Ok(r.value[i]))
      && (r.Fail? ==> exists k :: 0 <= k < |raw| && Parse(header.parser, Some(raw[k])) == Fail(r.failure)
                                 && forall j :: 0 <= j < k ==> Parse(header.parser, Some(raw[j])).Ok?)
  {
    if header.name !in h.headers {
      return Fail(NullDereference);
    }
    var raw := h.headers[header.name];
    var list: seq<JavaValue> := [];
    var i := 0;
    while i < |raw|
      invariant 0 <= i <= |raw|
      invariant |list| == i
      invariant forall j :: 0 <= j < i ==> Parse(header.parser, Some(raw[j])) == Ok(list[j])
    {
      var parsed := GetValue(header, Some(raw[i]));
      if parsed.Fail? {
        return Fail(parsed.failure);
      }
      list := list + [parsed.value];
      i := i + 1;
    }
    return Ok(list);
  }

  /** Reading a header that is not there hands null to the parser: the
      string and mapped parsers give null, the number parsers and the null
      parser fail. */
  lemma TypedMissingIsParsedNull(h: Head, header: Header, index: int32)
    requires header.name !in h.headers
    ensures GetTyped(h, header, index) == Parse(header.parser, None)
    ensures header.parser.StringParser? || header.parser.Mapped? ==> GetTyped(h, header, index) == Ok(Null)
    ensures header.parser.IntParser? ==> GetTyped(h, header, index) == Fail(NumberFormat)
  {
  }
}
