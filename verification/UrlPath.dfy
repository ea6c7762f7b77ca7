/** URLPath: a protocol and a list of path components, with the text form
    `protocol://c1/c2/.../cn`, a trailing slash marking a directory or a
    lone component. */
module UrlPath {
  import opened Outcomes
  import opened Seqs

  const SEPARATOR: string := "://"
  const INVALID_MESSAGE: string := "Invalid URL path!"

  datatype UrlPath = UrlPath(protocol: string, components: seq<string>, path: string)

  /** A component as `getComponents` makes them: non-empty, without '/'. */
  predicate IsComponent(c: string) {
    c != [] && '/' !in c
  }

  predicate AllComponents(cs: seq<string>) {
    forall i :: 0 <= i < |cs| ==> IsComponent(cs[i])
  }

  predicate EndsWithSlash(s: string) {
    s != [] && s[|s| - 1] == '/'
  }

  /** `String.join("/", cs)`. */
  function Join(cs: seq<string>): string {
    if cs == [] then ""
    else if |cs| == 1 then cs[0]
    else cs[0] + "/" + Join(cs[1..])
  }

  /** The text the private constructor stores as `path`. */
  function PathText(protocol: string, cs: seq<string>, directory: bool): string {
    protocol + SEPARATOR + Join(cs) + (if directory || |cs| == 1 then "/" else "")
  }

  /** The private constructor `URLPath(protocol, components, directory)`. */
  function New(protocol: string, cs: seq<string>, directory: bool): UrlPath {
    UrlPath(protocol, cs, PathText(protocol, cs, directory))
  }

  /** The number of characters before the first '/' (all of them if none). */
  function RunLength(s: string): (n: nat)
    ensures n <= |s|
    ensures '/' !in s[..n]
    ensures n < |s| ==> s[n] == '/'
  {
    if s == [] || s[0] == '/' then 0
    else
      var n := 1 + RunLength(s[1..]);
      assert s[..n] == [s[0]] + s[1..][..n - 1];
      n
  }

  /** The maximal runs of characters other than '/', in order: the value
      `getComponents` computes. */
  function Components(s: string): (cs: seq<string>)
    ensures AllComponents(cs)
    decreases |s|
  {
    if s == [] then []
    else if s[0] == '/' then Components(s[1..])
    else
      var n := RunLength(s);
      [s[..n]] + Components(s[n..])
  }

  /** A run of non-slash characters followed by nothing or by a slash is one
      component. */
  lemma {:induction false} ComponentsRun(run: string, rest: string)
    requires IsComponent(run)
    requires rest == [] || rest[0] == '/'
    ensures Components(run + rest) == [run] + Components(rest)
  {
    RunLengthOf(run, rest);
    assert (run + rest)[..|run|] == run;
    assert (run + rest)[|run|..] == rest;
  }

  lemma {:induction false} RunLengthOf(run: string, rest: string)
    requires '/' !in run
    requires rest == [] || rest[0] == '/'
    ensures RunLength(run + rest) == |run|
  {
    if run != [] {
      assert (run + rest)[1..] == run[1..] + rest;
      RunLengthOf(run[1..], rest);
    }
  }

  /** `getComponents(path)`: scans the characters, collecting each run
      between slashes that is not empty. */
  method GetComponents(path: string) returns (list: seq<string>)
    ensures list == Components(path)
  {
    list := [];
    var sb: string := [];
    var i := 0;
    ScanStart(path);
    while i < |path|
      invariant 0 <= i <= |path|
      invariant '/' !in sb
      invariant list + Components(sb + path[i..]) == Components(path)
    {
      var c := path[i];
      if c != '/' {
        ScanChar(list, sb, path, i);
        sb := sb + [c];
        i := i + 1;
        continue;
      }
      ScanSlash(list, sb, path, i);
      if |sb| > 0 {
        list := list + [sb];
        sb := [];
      }
      i := i + 1;
    }
    ScanEnd(list, sb, path);
    if |sb| > 0 {
      list := list + [sb];
    }
  }

  /** Before the scan nothing is collected and the whole path is pending. */
  lemma ScanStart(path: string)
    ensures [] + Components([] + path[0..]) == Components(path)
  {
    assert [] + path[0..] == path;
    ConcatEmpty(Components(path));
  }

  /** A character other than '/' extends the pending run. */
  lemma ScanChar(list: seq<string>, sb: string, path: string, i: nat)
    requires i < |path| && path[i] != '/'
    ensures list + Components(sb + path[i..]) == list + Components((sb + [path[i]]) + path[i + 1..])
  {
    assert sb + path[i..] == (sb + [path[i]]) + path[i + 1..];
  }

  /** A '/' ends the pending run, which is collected when it is not empty. */
  lemma ScanSlash(list: seq<string>, sb: string, path: string, i: nat)
    requires i < |path| && path[i] == '/'
    requires '/' !in sb
    ensures var list' := if |sb| > 0 then list + [sb] else list;
      list + Components(sb + path[i..]) == list' + Components([] + path[i + 1..])
  {
    var rest := path[i..];
    assert rest[1..] == path[i + 1..];
    assert [] + path[i + 1..] == path[i + 1..];
    ComponentsSlash(rest);
    if |sb| > 0 {
      ComponentsRun(sb, rest);
      ConcatAssociative(list, [sb], Components(path[i + 1..]));
    } else {
      assert sb + rest == rest;
    }
  }

  /** At the end of the path the pending run, if any, is the last component. */
  lemma ScanEnd(list: seq<string>, sb: string, path: string)
    requires IsComponent(sb) || sb == []
    ensures list + Components(sb + path[|path|..]) == if |sb| > 0 then list + [sb] else list
  {
    assert path[|path|..] == [];
    assert sb + path[|path|..] == sb + [];
    if |sb| > 0 {
      ComponentsRun(sb, []);
      assert sb + [] == sb;
    } else {
      assert sb + [] == [];
    }
    ConcatEmpty(list);
  }

  /** A leading slash separates nothing. */
  lemma ComponentsSlash(s: string)
    requires s != [] && s[0] == '/'
    ensures Components(s) == Components(s[1..])
  {
  }

  /** The separator "://" starts at index `i` of `s`. */
  predicate SeparatorAt(s: string, i: nat) {
    i + 3 <= |s| && s[i] == ':' && s[i + 1] == '/' && s[i + 2] == '/'
  }

  /** The leftmost start of the separator at or after `from`. */
  function FindSeparator(s: string, from: nat): (r: Option<nat>)
    ensures r.Some? ==> from <= r.value && SeparatorAt(s, r.value)
    ensures r.Some? ==> forall j :: from <= j < r.value ==> !SeparatorAt(s, j)
    ensures r.None? ==> forall j :: from <= j ==> !SeparatorAt(s, j)
    decreases |s| - from
  {
    if from + 3 > |s| then None
    else if SeparatorAt(s, from) then Some(from)
    else FindSeparator(s, from + 1)
  }

  /** The pieces between successive separators from `from` on, empty pieces
      included. */
  function SplitFrom(s: string, from: nat): (pieces: seq<string>)
    requires from <= |s|
    ensures |pieces| >= 1
    decreases |s| - from
  {
    match FindSeparator(s, from)
    case None => [s[from..]]
    case Some(i) => [s[from..i]] + SplitFrom(s, i + 3)
  }

  /** Drops empty pieces from the end, as `split` with no limit does. */
  function StripTrailingEmpty(pieces: seq<string>): (r: seq<string>)
    ensures r <= pieces
    ensures r == [] || r[|r| - 1] != ""
    ensures forall i :: |r| <= i < |pieces| ==> pieces[i] == ""
  {
    if pieces != [] && pieces[|pieces| - 1] == "" then StripTrailingEmpty(pieces[..|pieces| - 1])
    else pieces
  }

  /** `s.split("://")`: the input itself when the separator does not occur,
      otherwise the pieces around every occurrence, trailing empty ones
      dropped. */
  function JavaSplit(s: string): seq<string> {
    if FindSeparator(s, 0).None? then [s] else StripTrailingEmpty(SplitFrom(s, 0))
  }

  /** `URLPath.of(path)`: exactly two pieces are required; the first is the
      protocol and the second gives the components. */
  function Of(path: string): (r: Outcome<UrlPath>)
    ensures r.Ok? <==> |JavaSplit(path)| == 2
    ensures r.Fail? ==> r.failure == RuntimeFailure(INVALID_MESSAGE)
    ensures r.Ok? ==> r.value.protocol == JavaSplit(path)[0] && AllComponents(r.value.components)
    ensures r.Ok? ==> (EndsWithSlash(r.value.path) <==> EndsWithSlash(path) || |r.value.components| <= 1)
    ensures r.Ok? ==> r.value.components == Components(JavaSplit(path)[1])
    ensures r.Ok? ==> r.value.path == PathText(r.value.protocol, r.value.components, EndsWithSlash(path))
  {
    var split := JavaSplit(path);
    if |split| != 2 then Fail(RuntimeFailure(INVALID_MESSAGE))
    else
      var u := New(split[0], Components(split[1]), EndsWithSlash(path));
      SlashEnding(u.protocol, u.components, EndsWithSlash(path));
      Ok(u)
  }

  /** `derive(suffix)`: the suffix's components after the receiver's; a
      directory when the suffix ends with '/'. */
  function Derive(u: UrlPath, suffix: string): (r: UrlPath)
    ensures r.protocol == u.protocol
    ensures |r.components| == |u.components| + |Components(suffix)|
    ensures r.components[..|u.components|] == u.components
    ensures r.components[|u.components|..] == Components(suffix)
    ensures r.path == PathText(u.protocol, r.components, EndsWithSlash(suffix))
  {
    var r := New(u.protocol, u.components + Components(suffix), EndsWithSlash(suffix));
    assert r.components[..|u.components|] == u.components;
    r
  }

  /** `parent()`: null for a single component; the components but the last,
      as a directory, otherwise. With no components the removal at index -1
      throws. */
  function Parent(u: UrlPath): (r: Outcome<Option<UrlPath>>)
    ensures r.Fail? <==> u.components == []
    ensures r.Fail? ==> r.failure == IndexOutOfBounds
    ensures r.Ok? ==> (r.value.None? <==> |u.components| == 1)
    ensures r.Ok? && r.value.Some? ==>
      && r.value.value.protocol == u.protocol
      && r.value.value.components == u.components[..|u.components| - 1]
      && EndsWithSlash(r.value.value.path)
      && r.value.value.path == PathText(u.protocol, u.components[..|u.components| - 1], true)
  {
    var size := |u.components|;
    if size == 1 then Ok(None)
    else if size == 0 then Fail(IndexOutOfBounds)
    else
      var p := New(u.protocol, u.components[..size - 1], true);
      assert p.path[|p.path| - 1] == '/';
      Ok(Some(p))
  }

  /** `getPath()` and `toString()`. */
  function ToString(u: UrlPath): string {
    u.path
  }

  /** A derived path's text ends with '/' exactly when the suffix does or the
      result has at most one component. */
  lemma DeriveSlashEnding(u: UrlPath, suffix: string)
    requires AllComponents(u.components)
    ensures EndsWithSlash(Derive(u, suffix).path) <==> EndsWithSlash(suffix) || |Derive(u, suffix).components| <= 1
  {
    var r := Derive(u, suffix);
    assert r.components == u.components + Components(suffix);
    assert AllComponents(r.components);
    SlashEnding(u.protocol, r.components, EndsWithSlash(suffix));
  }

  /** A joined path of components ends with a slash only when it is empty. */
  lemma {:induction false} JoinEnding(cs: seq<string>)
    requires AllComponents(cs)
    ensures cs != [] ==> !EndsWithSlash(Join(cs)) && Join(cs) != []
  {
    if |cs| > 1 {
      JoinEnding(cs[1..]);
    }
  }

  /** A path's text ends with a slash exactly when it is a directory, has
      one component, or has none (its text then ends with the separator). */
  lemma SlashEnding(protocol: string, cs: seq<string>, directory: bool)
    requires AllComponents(cs)
    ensures EndsWithSlash(PathText(protocol, cs, directory)) <==> directory || |cs| <= 1
  {
    JoinEnding(cs);
  }

  /** Splitting the joined components again, with anything after them that
      starts with a slash, gives the components back. */
  lemma {:induction false} ComponentsOfJoin(cs: seq<string>, tail: string)
    requires AllComponents(cs)
    requires tail == [] || tail[0] == '/'
    ensures Components(Join(cs) + tail) == cs + Components(tail)
  {
    if cs == [] {
      ConcatEmpty(tail);
      ConcatEmpty(Components(tail));
    } else if |cs| == 1 {
      ComponentsRun(cs[0], tail);
    } else {
      var j := Join(cs[1..]);
      var rest := "/" + (j + tail);
      ConcatAssociative(cs[0] + "/", j, tail);
      ConcatAssociative(cs[0], "/", j + tail);
      assert Join(cs) + tail == cs[0] + rest;
      ComponentsRun(cs[0], rest);
      ComponentsSlash(rest);
      assert rest[1..] == j + tail;
      ComponentsOfJoin(cs[1..], tail);
      ConcatAssociative([cs[0]], cs[1..], Components(tail));
      assert cs == [cs[0]] + cs[1..];
    }
  }

  /** `getComponents(String.join("/", cs)) == cs` for a list of components. */
  lemma JoinComponents(cs: seq<string>)
    requires AllComponents(cs)
    ensures Components(Join(cs)) == cs
  {
    ComponentsOfJoin(cs, "");
    assert Join(cs) + "" == Join(cs);
  }

  /** No two slashes are adjacent in `s`. */
  predicate NoDoubleSlash(s: string) {
    forall i :: 0 <= i < |s| - 1 ==> !(s[i] == '/' && s[i + 1] == '/')
  }

  lemma {:induction false} JoinNoDoubleSlash(cs: seq<string>)
    requires AllComponents(cs)
    ensures NoDoubleSlash(Join(cs))
  {
    if |cs| > 1 {
      JoinNoDoubleSlash(cs[1..]);
      JoinEnding(cs[1..]);
      var s := cs[0] + "/" + Join(cs[1..]);
      forall i | 0 <= i < |s| - 1
        ensures !(s[i] == '/' && s[i + 1] == '/')
      {
        if i < |cs[0]| {
          assert s[i] == cs[0][i];
        } else if i > |cs[0]| {
          assert s[i] == Join(cs[1..])[i - |cs[0]| - 1];
          assert s[i + 1] == Join(cs[1..])[i - |cs[0]|];
        } else {
          assert s[i + 1] == Join(cs[1..])[0];
        }
      }
    }
  }

  /** A protocol free of the separator, followed by the separator and a rest
      with no adjacent slashes, splits into exactly those two pieces. */
  lemma SplitAtProtocol(protocol: string, rest: string)
    requires forall j :: !SeparatorAt(protocol, j)
    requires NoDoubleSlash(rest)
    requires rest != []
    ensures JavaSplit(protocol + SEPARATOR + rest) == [protocol, rest]
  {
    var s := protocol + SEPARATOR + rest;
    var p := |protocol|;
    forall j | 0 <= j < p
      ensures !SeparatorAt(s, j)
    {
      if j + 3 <= p {
        assert !SeparatorAt(protocol, j);
      }
    }
    assert SeparatorAt(s, p);
    assert FindSeparator(s, 0) == Some(p);
    forall j | p + 3 <= j
      ensures !SeparatorAt(s, j)
    {
    }
    assert FindSeparator(s, p + 3).None?;
    assert s[..p] == protocol;
    assert s[p + 3..] == rest;
    assert SplitFrom(s, 0) == [protocol, rest];
  }

  /** `URLPath.of(u.getPath())` rebuilds the same path, for a protocol free
      of the separator and a path that has components or is a directory
      (`protocol://` alone has a single piece and is refused). */
  lemma OfPathRoundTrip(protocol: string, cs: seq<string>, directory: bool)
    requires forall j :: !SeparatorAt(protocol, j)
    requires AllComponents(cs)
    requires cs != [] || directory
    ensures Of(New(protocol, cs, directory).path) == Ok(New(protocol, cs, directory))
  {
    var trail := if directory || |cs| == 1 then "/" else "";
    var rest := Join(cs) + trail;
    var path := PathText(protocol, cs, directory);
    JoinNoDoubleSlash(cs);
    JoinEnding(cs);
    assert NoDoubleSlash(rest) by {
      if trail == "/" && cs != [] {
        assert rest[|rest| - 2] == Join(cs)[|Join(cs)| - 1];
      }
    }
    ConcatAssociative(protocol + SEPARATOR, Join(cs), trail);
    assert path == protocol + SEPARATOR + rest;
    SplitAtProtocol(protocol, rest);
    ComponentsOfJoin(cs, trail);
    assert Components(trail) == [] by {
      if trail == "/" {
        ComponentsSlash(trail);
      }
    }
    ConcatEmpty(cs);
    assert Components(rest) == cs;
    SlashEnding(protocol, cs, directory);
    assert PathText(protocol, cs, EndsWithSlash(path)) == path;
  }

  /** The parent of a path derived by one component has the original
      components and is a directory; when the original was a directory it is
      the original path. */
  lemma ParentOfDerive(u: UrlPath, c: string)
    requires IsComponent(c)
    requires u.components != []
    ensures Parent(Derive(u, c)) == Ok(Some(New(u.protocol, u.components, true)))
    ensures u == New(u.protocol, u.components, true) ==> Parent(Derive(u, c)) == Ok(Some(u))
  {
    JoinComponents([c]);
    assert Components(c) == [c];
    assert (u.components + [c])[..|u.components|] == u.components;
  }

  /** The path of a derived path is the receiver's path, a slash unless it
      already ends with one, then the joined suffix components. */
  lemma DerivePath(protocol: string, cs: seq<string>, directory: bool, more: seq<string>)
    requires AllComponents(cs) && AllComponents(more)
    requires cs != [] && more != []
    ensures var u := New(protocol, cs, directory);
      Derive(u, Join(more)).path
        == (if EndsWithSlash(u.path) then u.path else u.path + "/") + Join(more)
  {
    var u := New(protocol, cs, directory);
    var head := protocol + SEPARATOR + Join(cs);
    JoinComponents(more);
    JoinEnding(more);
    JoinEnding(cs);
    JoinAppend(cs, more);
    SlashEnding(protocol, cs, directory);
    assert AllComponents(cs + more);
    var d := Derive(u, Join(more));
    assert d.components == cs + more;
    assert d.path == protocol + SEPARATOR + Join(cs + more) + "";
    ConcatEmpty(protocol + SEPARATOR + Join(cs + more));
    ConcatAssociative(protocol + SEPARATOR, Join(cs) + "/", Join(more));
    ConcatAssociative(protocol + SEPARATOR, Join(cs), "/");
    assert d.path == head + "/" + Join(more);
    if EndsWithSlash(u.path) {
      assert u.path == head + "/";
    } else {
      assert u.path == head + "";
      ConcatEmpty(head);
    }
  }

  /** Joining two non-empty lists puts one slash between their joins. */
  lemma {:induction false} JoinAppend(cs: seq<string>, more: seq<string>)
    requires cs != [] && more != []
    ensures Join(cs + more) == Join(cs) + "/" + Join(more)
  {
    if |cs| == 1 {
      assert (cs + more)[1..] == more;
    } else {
      assert (cs + more)[1..] == cs[1..] + more;
      JoinAppend(cs[1..], more);
    }
  }

  /** For a path text with at least one component, no trailing slash and no
      empty segment, deriving one more component appends a slash and the
      component to the text: `of("p://host").derive("c")` is `p://host/c`. */
  lemma OfDeriveAppends(protocol: string, cs: seq<string>, c: string)
    requires forall j :: !SeparatorAt(protocol, j)
    requires AllComponents(cs) && IsComponent(c)
    requires cs != []
    ensures var p := protocol + SEPARATOR + Join(cs);
      Of(p).Ok? && Derive(Of(p).value, c).path == p + "/" + c
  {
    var p := protocol + SEPARATOR + Join(cs);
    var u := New(protocol, cs, false);
    OfJoined(protocol, cs);
    DerivePath(protocol, cs, false, [c]);
    assert Join([c]) == c;
    if |cs| == 1 {
      assert u.path == p + "/";
    } else {
      assert u.path == p + "";
      ConcatEmpty(p);
    }
  }

  /** A path text without a trailing slash parses to the path that is not
      a directory. */
  lemma OfJoined(protocol: string, cs: seq<string>)
    requires forall j :: !SeparatorAt(protocol, j)
    requires AllComponents(cs) && cs != []
    ensures Of(protocol + SEPARATOR + Join(cs)) == Ok(New(protocol, cs, false))
  {
    var p := protocol + SEPARATOR + Join(cs);
    JoinNoDoubleSlash(cs);
    JoinEnding(cs);
    SplitAtProtocol(protocol, Join(cs));
    JoinComponents(cs);
    assert p[|p| - 1] == Join(cs)[|Join(cs)| - 1];
  }

  /** Text without a colon holds no separator. */
  lemma NoColonNoSeparator(s: string)
    requires ':' !in s
    ensures forall j :: !SeparatorAt(s, j)
  {
    forall j: nat | SeparatorAt(s, j)
      ensures false
    {
    }
  }

  /** A host alone gains the trailing slash of a single component, as
      `https://example.com` becomes `https://example.com/`. */
  lemma HostOnly(protocol: string, host: string)
    requires ':' !in protocol
    requires IsComponent(host)
    ensures Of(protocol + SEPARATOR + host) == Ok(UrlPath(protocol, [host], protocol + SEPARATOR + host + "/"))
  {
    NoColonNoSeparator(protocol);
    SplitAtProtocol(protocol, host);
    JoinComponents([host]);
  }

  /** `of("p://a/b/c").parent().parent()` is `p://a/`, which has no parent. */
  lemma ParentChain(protocol: string, a: string, b: string, c: string)
    requires ':' !in protocol
    requires IsComponent(a) && IsComponent(b) && IsComponent(c)
    ensures var r := Of(protocol + SEPARATOR + Join([a, b, c]));
      && r.Ok?
      && Parent(r.value).Ok? && Parent(r.value).value.Some?
      && var p1 := Parent(r.value).value.value;
      && Parent(p1).Ok? && Parent(p1).value.Some?
      && var p2 := Parent(p1).value.value;
      && p2.path == protocol + SEPARATOR + a + "/"
      && Parent(p2) == Ok(None)
  {
    NoColonNoSeparator(protocol);
    JoinNoDoubleSlash([a, b, c]);
    JoinEnding([a, b, c]);
    SplitAtProtocol(protocol, Join([a, b, c]));
    JoinComponents([a, b, c]);
    assert [a, b, c][..2] == [a, b];
    assert [a, b][..1] == [a];
  }

  /** The leftmost separator from `from` on is the first one found there. */
  lemma {:induction false} FindSeparatorIs(s: string, from: nat, i: nat)
    requires from <= i && SeparatorAt(s, i)
    requires forall j :: from <= j < i ==> !SeparatorAt(s, j)
    ensures FindSeparator(s, from) == Some(i)
    decreases i - from
  {
    if from < i {
      FindSeparatorIs(s, from + 1, i);
    }
  }

  /** Searching past a prefix is searching the rest. */
  lemma {:induction false} FindSeparatorShift(pre: string, t: string, k: nat)
    ensures FindSeparator(pre + t, |pre| + k)
      == if FindSeparator(t, k).Some? then Some(|pre| + FindSeparator(t, k).value) else None
    decreases |t| - k
  {
    var s := pre + t;
    if k + 3 <= |t| {
      assert SeparatorAt(s, |pre| + k) <==> SeparatorAt(t, k) by {
        assert s[|pre| + k] == t[k] && s[|pre| + k + 1] == t[k + 1] && s[|pre| + k + 2] == t[k + 2];
      }
      if !SeparatorAt(t, k) {
        FindSeparatorShift(pre, t, k + 1);
      }
    }
  }

  /** Splitting past a prefix is splitting the rest. */
  lemma {:induction false} SplitFromShift(pre: string, t: string, k: nat)
    requires k <= |t|
    ensures SplitFrom(pre + t, |pre| + k) == SplitFrom(t, k)
    decreases |t| - k
  {
    match FindSeparator(t, k)
    case None =>
      SplitFromShiftLast(pre, t, k);
    case Some(i) =>
      SplitFromShift(pre, t, i + 3);
      SplitFromShiftNext(pre, t, k, i);
  }

  /** The last piece is the same with or without the prefix. */
  lemma SplitFromShiftLast(pre: string, t: string, k: nat)
    requires k <= |t| && FindSeparator(t, k).None?
    ensures SplitFrom(pre + t, |pre| + k) == SplitFrom(t, k)
  {
    var s := pre + t;
    assert FindSeparator(s, |pre| + k).None? by {
      FindSeparatorShift(pre, t, k);
    }
    SplitFromLast(s, |pre| + k);
    SplitFromLast(t, k);
    assert s[|pre| + k..] == t[k..];
  }

  /** A piece that ends at a separator is the same with or without the
      prefix, and so is everything after it once the rest is. */
  lemma SplitFromShiftNext(pre: string, t: string, k: nat, i: nat)
    requires k <= |t| && FindSeparator(t, k) == Some(i)
    requires i + 3 <= |t| ==> SplitFrom(pre + t, |pre| + (i + 3)) == SplitFrom(t, i + 3)
    ensures SplitFrom(pre + t, |pre| + k) == SplitFrom(t, k)
  {
    var s := pre + t;
    assert FindSeparator(s, |pre| + k) == Some(|pre| + i) by {
      FindSeparatorShift(pre, t, k);
    }
    SplitFromNext(s, |pre| + k, |pre| + i);
    SplitFromNext(t, k, i);
    var after := SplitFrom(t, i + 3);
    assert SplitFrom(s, |pre| + i + 3) == after;
    assert s[|pre| + k..|pre| + i] == t[k..i];
    assert SplitFrom(s, |pre| + k) == [t[k..i]] + after;
  }

  /** With no separator left, the rest is the last piece. */
  lemma SplitFromLast(s: string, from: nat)
    requires from <= |s| && FindSeparator(s, from).None?
    ensures SplitFrom(s, from) == [s[from..]]
  {
  }

  /** A separator at `i` ends the current piece. */
  lemma SplitFromNext(s: string, from: nat, i: nat)
    requires from <= |s| && FindSeparator(s, from) == Some(i)
    ensures i + 3 <= |s|
    ensures SplitFrom(s, from) == [s[from..i]] + SplitFrom(s, i + 3)
  {
  }

  /** A colon-free first piece is split off at the first separator. */
  lemma SplitHead(x: string, rest: string)
    requires ':' !in x
    ensures SplitFrom(x + SEPARATOR + rest, 0) == [x] + SplitFrom(rest, 0)
  {
    var s := x + SEPARATOR + rest;
    forall j | 0 <= j < |x|
      ensures !SeparatorAt(s, j)
    {
      assert s[j] == x[j];
    }
    FindSeparatorIs(s, 0, |x|);
    assert s[0..|x|] == x;
    SplitFromShift(x + SEPARATOR, rest, 0);
  }

  /** Colon-free text is a single piece. */
  lemma SplitNone(x: string)
    requires ':' !in x
    ensures SplitFrom(x, 0) == [x]
  {
    NoColonNoSeparator(x);
    assert x[0..] == x;
  }

  /** Splitting `p://a://b` finds both separators and three pieces. */
  lemma SplitTwoSeparators(protocol: string, a: string, b: string)
    requires ':' !in protocol && ':' !in a && ':' !in b
    ensures SplitFrom(protocol + SEPARATOR + a + SEPARATOR + b, 0) == [protocol, a, b]
  {
    var tail := a + SEPARATOR + b;
    ConcatAssociative(protocol + SEPARATOR, a, SEPARATOR);
    ConcatAssociative(protocol + SEPARATOR, a + SEPARATOR, b);
    assert protocol + SEPARATOR + a + SEPARATOR + b == protocol + SEPARATOR + tail;
    SplitHead(protocol, tail);
    SplitHead(a, b);
    SplitNone(b);
  }

  /** Text without the separator is refused. */
  lemma NoSeparatorRejected(s: string)
    requires forall j :: !SeparatorAt(s, j)
    ensures Of(s) == Fail(RuntimeFailure(INVALID_MESSAGE))
  {
  }

  /** The separator with nothing after it leaves only the protocol once the
      empty last piece is dropped, and is refused: `of("p://")` throws. The
      root `p:///` is accepted with no components (`OfPathRoundTrip` with no
      components and `directory` set). */
  lemma SeparatorOnlyRejected(protocol: string)
    requires ':' !in protocol
    ensures Of(protocol + SEPARATOR) == Fail(RuntimeFailure(INVALID_MESSAGE))
  {
    var s := protocol + SEPARATOR;
    SplitHead(protocol, "");
    SplitNone("");
    assert s + "" == s;
    assert SeparatorAt(s, |protocol|);
    assert FindSeparator(s, 0).Some?;
    assert [protocol] + [""] == [protocol, ""];
    assert [protocol, ""][..1] == [protocol];
  }

  /** Two separators with text after the second give three pieces, and the
      path is refused. */
  lemma TwoSeparatorsRejected(protocol: string, a: string, b: string)
    requires ':' !in protocol && ':' !in a && ':' !in b
    requires b != ""
    ensures Of(protocol + SEPARATOR + a + SEPARATOR + b) == Fail(RuntimeFailure(INVALID_MESSAGE))
  {
    var s := protocol + SEPARATOR + a + SEPARATOR + b;
    SplitTwoSeparators(protocol, a, b);
    assert SeparatorAt(s, |protocol|);
    assert StripTrailingEmpty([protocol, a, b]) == [protocol, a, b];
  }

  /** A second separator at the very end leaves an empty last piece, which
      `split` drops: `of("p://a://")` is accepted as the directory `p://a/`. */
  lemma TrailingSeparatorAccepted(protocol: string, a: string)
    requires ':' !in protocol && ':' !in a
    requires IsComponent(a)
    ensures Of(protocol + SEPARATOR + a + SEPARATOR) == Ok(UrlPath(protocol, [a], protocol + SEPARATOR + a + "/"))
  {
    var s := protocol + SEPARATOR + a + SEPARATOR;
    SplitTwoSeparators(protocol, a, "");
    assert s + "" == s;
    assert SeparatorAt(s, |s| - 3);
    assert FindSeparator(s, 0).Some?;
    assert [protocol, a, ""][..2] == [protocol, a];
    assert StripTrailingEmpty([protocol, a]) == [protocol, a];
    assert StripTrailingEmpty([protocol, a, ""]) == [protocol, a];
    JoinComponents([a]);
  }
}
