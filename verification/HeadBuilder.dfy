/** HTTPHeadBuilder: a mutable multimap that collects header values in
    insertion order and snapshots them into an HTTPHead. */
module HeadBuilder {
  import opened Outcomes
  import opened JavaValues
  import opened Header
  import opened Head
  import MimeTypes
  import Decimal
  import opened Seqs

  /** The list stored under `k`, the empty list standing for an absent key. */
  function Lookup(m: map<string, seq<string>>, k: string): seq<string> {
    if k in m then m[k] else []
  }

  /** The map after `vs` has been appended, in order, to the list under `k`,
      which is created when absent. */
  function Appended(m: map<string, seq<string>>, k: string, vs: seq<string>): (r: map<string, seq<string>>)
    ensures r.Keys == m.Keys + {k}
  {
    m[k := Lookup(m, k) + vs]
  }

  /** The map after every entry of `n` has been appended to `m`'s list under
      the same name. */
  function Merged(m: map<string, seq<string>>, n: map<string, seq<string>>): (r: map<string, seq<string>>)
  {
    map k | k in m.Keys + n.Keys :: Lookup(m, k) + Lookup(n, k)
  }

  /** `String.valueOf` of each value, in order. */
  function ValueStrings(values: seq<JavaValue>): (r: seq<string>)
    ensures |r| == |values|
  {
    seq(|values|, i requires 0 <= i < |values| => ValueOf(values[i]))
  }

  /** `header.getString` of each value, in order. */
  function HeaderStrings(header: Header, values: seq<JavaValue>): (r: seq<string>)
    ensures |r| == |values|
  {
    seq(|values|, i requires 0 <= i < |values| => GetString(header, values[i]))
  }

  /** One more value adds its text at the end. */
  lemma ValueStringsStep(values: seq<JavaValue>, i: nat)
    requires i < |values|
    ensures ValueStrings(values[..i + 1]) == ValueStrings(values[..i]) + [ValueOf(values[i])]
  {
    assert ValueStrings(values[..i + 1]) == ValueStrings(values[..i]) + [ValueOf(values[i])];
  }

  /** One more value adds its header text at the end. */
  lemma HeaderStringsStep(header: Header, values: seq<JavaValue>, i: nat)
    requires i < |values|
    ensures HeaderStrings(header, values[..i + 1]) == HeaderStrings(header, values[..i]) + [GetString(header, values[i])]
  {
    assert HeaderStrings(header, values[..i + 1]) == HeaderStrings(header, values[..i]) + [GetString(header, values[i])];
  }

  class HeadBuilder {
    var headers: map<string, seq<string>>

    /** `HTTPHead.builder()`: no headers yet. */
    constructor()
      ensures headers == map[]
    {
      headers := map[];
    }

    /** `getOrCreate(name)`: the list under `name`, an empty one being stored
        first when there is none. */
    method GetOrCreate(name: string) returns (list: seq<string>)
      modifies this
      ensures list == Lookup(old(headers), name)
      ensures headers == old(headers)[name := list]
    {
      if name in headers {
        return headers[name];
      }
      list := [];
      headers := headers[name := list];
    }

    /** `add(name, values...)`: appends `String.valueOf` of each value. */
    method Add(name: string, values: seq<JavaValue>)
      modifies this
      ensures headers == Appended(old(headers), name, ValueStrings(values))
    {
      var list := GetOrCreate(name);
      var i := 0;
      while i < |values|
        invariant 0 <= i <= |values|
        invariant list == Lookup(old(headers), name) + ValueStrings(values[..i])
        invariant headers == old(headers)[name := list]
      {
        ValueStringsStep(values, i);
        ConcatAssociative(Lookup(old(headers), name), ValueStrings(values[..i]), [ValueOf(values[i])]);
        list := list + [ValueOf(values[i])];
        headers := headers[name := list];
        i := i + 1;
      }
      assert values[..i] == values;
    }

    /** `add(header, values...)`: appends the header's text for each value
        under the header's name. */
    method AddHeader(header: Header, values: seq<JavaValue>)
      modifies this
      ensures headers == Appended(old(headers), GetName(header), HeaderStrings(header, values))
    {
      var list := GetOrCreate(GetName(header));
      var i := 0;
      while i < |values|
        invariant 0 <= i <= |values|
        invariant list == Lookup(old(headers), header.name) + HeaderStrings(header, values[..i])
        invariant headers == old(headers)[header.name := list]
      {
        HeaderStringsStep(header, values, i);
        ConcatAssociative(Lookup(old(headers), header.name), HeaderStrings(header, values[..i]), [GetString(header, values[i])]);
        list := list + [GetString(header, values[i])];
        headers := headers[header.name := list];
        i := i + 1;
      }
      assert values[..i] == values;
    }

    /** `add(head)`: appends every list of `head` under its name. The entries
        are visited in the hash map's unspecified order; the result does not
        depend on it. */
    method AddHead(head: Head)
      modifies this
      ensures headers == Merged(old(headers), head.headers)
    {
      var todo := head.headers.Keys;
      ghost var start := headers;
      ghost var done: map<string, seq<string>> := map[];
      MergedIdentity(start);
      while todo != {}
        invariant todo <= head.headers.Keys
        invariant done.Keys == head.headers.Keys - todo
        invariant forall k | k in done :: done[k] == head.headers[k]
        invariant headers == Merged(start, done)
        decreases todo
      {
        var name :| name in todo;
        MergeStep(start, done, name, head.headers[name]);
        var list := GetOrCreate(name);
        headers := headers[name := list + head.headers[name]];
        done := done[name := head.headers[name]];
        todo := todo - {name};
      }
      SameEntries(done, head.headers);
    }

    /** `remove(name)`: drops the name and all of its values. */
    method Remove(name: string)
      modifies this
      ensures headers == old(headers) - {name}
    {
      headers := headers - {name};
    }

    /** `build()`: a head holding the current entries. */
    method Build() returns (h: Head)
      ensures forall name :: GetAll(h, name) == if name in headers then Some(headers[name]) else None
    {
      h := Of(headers);
    }
  }

  /** Two maps with the same names and the same list under each are equal. */
  lemma SameLookups(a: map<string, seq<string>>, b: map<string, seq<string>>)
    requires a.Keys == b.Keys
    requires forall k | k in a :: Lookup(a, k) == Lookup(b, k)
    ensures a == b
  {
    forall k | k in a
      ensures a[k] == b[k]
    {
      assert Lookup(a, k) == Lookup(b, k);
    }
  }

  /** Merging in one more entry whose name the merged part lacks appends its
      list under that name. */
  lemma MergedAddEntry(m: map<string, seq<string>>, done: map<string, seq<string>>, k: string, vs: seq<string>)
    requires k !in done
    ensures Merged(m, done[k := vs]) == Merged(m, done)[k := Lookup(m, k) + vs]
  {
    var lhs := Merged(m, done[k := vs]);
    var rhs := Merged(m, done)[k := Lookup(m, k) + vs];
    forall j | j in lhs
      ensures Lookup(lhs, j) == Lookup(rhs, j)
    {
      if j != k {
        assert Lookup(done[k := vs], j) == Lookup(done, j);
      }
    }
    SameLookups(lhs, rhs);
  }

  /** One step of `add(head)`: appending the next entry's list to what the
      merged part holds under that name is merging in one more entry. */
  lemma MergeStep(m: map<string, seq<string>>, done: map<string, seq<string>>, k: string, vs: seq<string>)
    requires k !in done
    ensures Lookup(Merged(m, done), k) == Lookup(m, k)
    ensures Merged(m, done)[k := Lookup(Merged(m, done), k) + vs] == Merged(m, done[k := vs])
  {
    MergedLookup(m, done, k);
    ConcatEmpty(Lookup(m, k));
    MergedAddEntry(m, done, k, vs);
  }

  /** Two maps with the same keys and the same value under each are equal. */
  lemma SameEntries(a: map<string, seq<string>>, b: map<string, seq<string>>)
    requires a.Keys == b.Keys
    requires forall k | k in a :: a[k] == b[k]
    ensures a == b
  {
  }

  /** Reading the merge of two maps under any name gives the first map's
      values followed by the second's. */
  lemma MergedLookup(m: map<string, seq<string>>, n: map<string, seq<string>>, k: string)
    ensures Lookup(Merged(m, n), k) == Lookup(m, k) + Lookup(n, k)
  {
  }

  /** Adding an empty head changes nothing, and adding a head to an empty
      builder copies it. */
  lemma MergedIdentity(m: map<string, seq<string>>)
    ensures Merged(m, map[]) == m
    ensures Merged(map[], m) == m
  {
    forall k | k in m
      ensures Lookup(Merged(m, map[]), k) == Lookup(m, k) == Lookup(Merged(map[], m), k)
    {
      ConcatEmpty(Lookup(m, k));
    }
    SameLookups(Merged(m, map[]), m);
    SameLookups(Merged(map[], m), m);
  }

  /** Adding two heads one after the other is adding their merge. */
  lemma MergedAssociative(m: map<string, seq<string>>, n: map<string, seq<string>>, p: map<string, seq<string>>)
    ensures Merged(Merged(m, n), p) == Merged(m, Merged(n, p))
  {
    forall k | k in Merged(Merged(m, n), p)
      ensures Lookup(Merged(Merged(m, n), p), k) == Lookup(Merged(m, Merged(n, p)), k)
    {
      MergedAssociativeAt(m, n, p, k);
    }
    SameLookups(Merged(Merged(m, n), p), Merged(m, Merged(n, p)));
  }

  lemma MergedAssociativeAt(m: map<string, seq<string>>, n: map<string, seq<string>>, p: map<string, seq<string>>, k: string)
    ensures Lookup(Merged(Merged(m, n), p), k) == Lookup(Merged(m, Merged(n, p)), k)
  {
    var a, b, c := Lookup(m, k), Lookup(n, k), Lookup(p, k);
    var mn, np := Merged(m, n), Merged(n, p);
    MergedLookup(m, n, k);
    MergedLookup(n, p, k);
    MergedLookup(mn, p, k);
    MergedLookup(m, np, k);
    ConcatAssociative(a, b, c);
  }

  /** `add(name, values)` has the effect of adding a head whose only entry is
      `name` with those values. */
  lemma AppendedIsMergeOfOne(m: map<string, seq<string>>, k: string, vs: seq<string>)
    ensures Appended(m, k, vs) == Merged(m, map[k := vs])
  {
    var lhs := Appended(m, k, vs);
    var rhs := Merged(m, map[k := vs]);
    forall j | j in lhs
      ensures Lookup(lhs, j) == Lookup(rhs, j)
    {
      if j != k {
        ConcatEmpty(Lookup(m, j));
      }
    }
    SameLookups(lhs, rhs);
  }

  /** Appending leaves every other name as it was, and reading the name
      gives the old values followed by the new ones. */
  lemma AppendedLookup(m: map<string, seq<string>>, k: string, vs: seq<string>, j: string)
    ensures Lookup(Appended(m, k, vs), j) == if j == k then Lookup(m, k) + vs else Lookup(m, j)
  {
  }

  /** Values added under a name read back from a built head in the order
      given; after the name is removed, a later build no longer has it, while
      the head built earlier keeps its values. */
  method AddThenRemove(name: string, values: seq<JavaValue>) returns (before: Head, after: Head)
    ensures GetAll(before, name) == Some(ValueStrings(values))
    ensures GetAll(after, name) == None
  {
    var b := new HeadBuilder();
    b.Add(name, values);
    ConcatEmpty(ValueStrings(values));
    before := b.Build();
    b.Remove(name);
    after := b.Build();
  }

  /** The head of a request that accepts HTML and JSON and carries a count. */
  const ExampleHeaders: map<string, seq<string>> :=
    map["Accept" := ["text/html", "application/json"], "X-Count" := ["3"]]

  /** A builder fed two MIME constants under an Accept header and an int
      under a count header builds that head. Adding through a header uses
      only its name and `getString`, so any header named Accept does. */
  method BuildExample(accept: Header) returns (h: Head)
    requires GetName(accept) == "Accept"
    ensures GetAll(h, "Accept") == Some(["text/html", "application/json"])
    ensures GetAll(h, "X-Count") == Some(["3"])
    ensures h.headers == ExampleHeaders
  {
    var b := new HeadBuilder();
    var accepted := [Mime(MimeTypes.TextHtml), Mime(MimeTypes.ApplicationJson)];
    b.AddHeader(accept, accepted);
    MimeTypes.WellKnownWires();
    assert HeaderStrings(accept, accepted) == ["text/html", "application/json"];
    ConcatEmpty(HeaderStrings(accept, accepted));
    assert b.headers == map["Accept" := ["text/html", "application/json"]];
    b.Add("X-Count", [Int(3)]);
    assert ValueStrings([Int(3)]) == ["3"] by {
      assert Decimal.NatToDigits(3) == [Decimal.DigitChar(3)];
    }
    ConcatEmpty(ValueStrings([Int(3)]));
    assert b.headers == ExampleHeaders;
    h := b.Build();
  }

  /** Read through ACCEPT, that head gives back the MIME constant it was
      built from, and null past the end of the list. */
  lemma ExampleAcceptReads()
    ensures GetTyped(Of(ExampleHeaders), ACCEPT, 1) == Ok(Mime(MimeTypes.ApplicationJson))
    ensures GetTyped(Of(ExampleHeaders), ACCEPT, 2) == Ok(Null)
  {
    MimeTypes.WellKnownWires();
    MimeHeaderRoundTrip(ACCEPT, MimeTypes.ApplicationJson);
    MimeHeaderUnknown(ACCEPT, None);
  }

  /** Read through an INT header, the count header gives back the number. */
  lemma ExampleCountRead()
    ensures GetTyped(Of(ExampleHeaders), Header("X-Count", HeaderParsers.IntParser), 0) == Ok(Int(3))
  {
    HeaderParsers.IntRoundTrip(3);
    assert ValueOf(Int(3)) == "3" by {
      assert Decimal.NatToDigits(3) == [Decimal.DigitChar(3)];
    }
  }
}
