# fluff-http core, modelled in Dafny

This project models the data layer of the fluff-http library. It covers:

- **URLPath**: parses `protocol://a/b/c` into a protocol, a list of path components and a canonical path text. It also derives children and walks to parents.
- **HTTPHead**: an immutable multimap from header name to an ordered list of raw values. Values are read raw, or through a typed `HTTPHeader` whose parser turns the text into a value.
- **HTTPHeadBuilder**: the mutable builder behind HTTPHead. It appends values, merges whole heads, removes names and builds.
- **HTTPHeader** with its parsers:
  - `STRING`, `INT` and `LONG`;
  - the table-driven `MappedHTTPHeaderParser`;
  - `NullHTTPHeaderParser`, which always throws;
  - the 42 `MIMETypes` constants that back the `Accept` and `Content-Type` headers.
- **HTTPBody**, **HTTPBodyBuilder** and **HTTPBodyParser**: a body is a byte array. The builder appends byte slices, strings and JSON text. The parsers read the bytes back as bytes, as a string, or as JSON.

Java's null is `Option.None` throughout, and a thrown exception is `Outcome.Fail` with the failure's kind (module `Outcomes`). The generic value type `V` of headers is the datatype `JavaValue`. The modelled kinds are null, String, Integer, Long and a MIMETypes constant. These are the values the library's own headers and parsers produce.

The two builders update their state in place in the source. Here they are classes whose methods state the builder's whole new state. The values they build are datatypes.

Module layout:

- `Outcomes`: shared vocabulary.
- `Seqs`: two sequence facts.
- `Decimal`: `String.valueOf` and `parseInt`/`parseLong`.
- `Utf8`: the default charset.
- `MimeTypes`, `JavaValues`, `HeaderParsers`, `Header`, `Head` and `HeadBuilder`.
- `Body` and `BodyBuilder`.
- `UrlPath`.

Where the documented behaviour of the library and its code disagree, the model follows the code:

- `URLPath.of` does not demand exactly one `://`. Java's `split` drops trailing empty pieces, so `p://a://` is accepted and parsed as if it were `p://a` (`UrlPath.TrailingSeparatorAccepted`).
- `parent()` assumes at least one component, but `of("p:///")` builds a path with none (`UrlPath.OfPathRoundTrip` with no components). Calling `parent()` on it throws IndexOutOfBoundsException (`UrlPath.Parent`). `of("p://")` is refused outright: `split` drops the empty last piece and leaves only `p` (`UrlPath.SeparatorOnlyRejected`).
- `HTTPHead.get(name, index)` with a negative index on a present name reaches `List.get` and throws (`Head.Get`).
- `HTTPHead.getAll(header)` on an absent name throws NullPointerException (`Head.GetAllTyped`).
- `of(p).derive(c).getPath() == p + "/" + c` does not hold for every `p`. It fails for `p://a/b/`, whose child is `p://a/b/c`, and for `p://a//b`, which is read as `p://a/b`. It holds when `p` has at least one component, no trailing slash and no empty segment, `p://host` included (`UrlPath.OfDeriveAppends`).

## Model

| member | source | states |
|---|---|---|
| UrlPath.RunLength | src/main/java/fluff/http/path/URLPath.java:104-110 | the run of characters the loop collects before a slash is slash-free and ends at the first slash or at the end |
| UrlPath.Components | src/main/java/fluff/http/path/URLPath.java:100-124 | the components of a path text are all non-empty and slash-free |
| UrlPath.ComponentsRun | src/main/java/fluff/http/path/URLPath.java:107-115 | a non-empty slash-free run followed by a slash (or the end) is emitted as one component before the rest |
| UrlPath.GetComponents | src/main/java/fluff/http/path/URLPath.java:100-124 | the loop with its string buffer computes exactly the component list of the path |
| UrlPath.ComponentsSlash | src/main/java/fluff/http/path/URLPath.java:112-115 | a leading slash contributes no component (empty segments are skipped) |
| UrlPath.FindSeparator | src/main/java/fluff/http/path/URLPath.java:88 | finds the first occurrence of `://` at or after a position, or reports that there is none |
| UrlPath.SplitFrom | src/main/java/fluff/http/path/URLPath.java:88 | splitting at every `://` always gives at least one piece |
| UrlPath.StripTrailingEmpty | src/main/java/fluff/http/path/URLPath.java:88 | Java's split drops trailing empty pieces: the result is a prefix of the pieces, does not end in an empty one, and every piece it drops is empty |
| UrlPath.JavaSplit | src/main/java/fluff/http/path/URLPath.java:88 | `path.split("://")`; specified by `SplitAtProtocol`, `SplitNone`, `SplitTwoSeparators` and the rejection lemmas below |
| UrlPath.Of | src/main/java/fluff/http/path/URLPath.java:87-92 | succeeds exactly when the split has two pieces, otherwise throws RuntimeException("Invalid URL path!"); the protocol is the first piece, the components are `getComponents` of the second piece (all proper components), the path text is the constructor's text with the directory flag `path.endsWith("/")`, and it ends in a slash iff the input did or there is at most one component |
| UrlPath.Derive | src/main/java/fluff/http/path/URLPath.java:39-44 | the child keeps the protocol, its components are the parent's followed by the suffix's components, and its text is the constructor's text with the directory flag `suffix.endsWith("/")` |
| UrlPath.Parent | src/main/java/fluff/http/path/URLPath.java:51-59 | throws for no components, is null for exactly one, otherwise keeps the protocol, drops the last component, and its text is the constructor's text as a directory (so it ends in a slash) |
| UrlPath.PathText | src/main/java/fluff/http/path/URLPath.java:25-30 | the text the private constructor stores; its slash ending is stated by `SlashEnding` and its parse by `OfPathRoundTrip` |
| UrlPath.New | src/main/java/fluff/http/path/URLPath.java:22-31 | the private constructor; `OfPathRoundTrip` states that parsing its text gives it back |
| UrlPath.ToString | src/main/java/fluff/http/path/URLPath.java:66-78 | `getPath()` and `toString()` return the stored text; `OfPathRoundTrip` is its round trip with `of` |
| UrlPath.DeriveSlashEnding | src/main/java/fluff/http/path/URLPath.java:39-44 | a child's text ends in a slash iff the suffix does or the child has at most one component |
| UrlPath.JoinEnding | src/main/java/fluff/http/path/URLPath.java:28 | joining proper components gives non-empty text that does not end in a slash |
| UrlPath.SlashEnding | src/main/java/fluff/http/path/URLPath.java:25-30 | the built path ends in a slash iff the directory flag is set or there is at most one component |
| UrlPath.ComponentsOfJoin | src/main/java/fluff/http/path/URLPath.java:28 | reading components back from joined components (plus a slash-led tail) gives those components first |
| UrlPath.JoinComponents | src/main/java/fluff/http/path/URLPath.java:28 | `getComponents(String.join("/", cs)) == cs` for proper components |
| UrlPath.JoinNoDoubleSlash | src/main/java/fluff/http/path/URLPath.java:28 | joined components never contain `//` |
| UrlPath.SplitAtProtocol | src/main/java/fluff/http/path/URLPath.java:88 | a separator-free protocol, `://` and a non-empty rest without `//` split into exactly those two pieces |
| UrlPath.OfPathRoundTrip | src/main/java/fluff/http/path/URLPath.java:22-31 | parsing the path text of any URLPath gives that same URLPath back (protocol, components and text) |
| UrlPath.ParentOfDerive | src/main/java/fluff/http/path/URLPath.java:39-59 | the parent of a one-component child is the directory form of the original, and is the original when that is already in directory form |
| UrlPath.DerivePath | src/main/java/fluff/http/path/URLPath.java:39-44 | a child's path is the parent's path, a slash if it lacks one, then the joined suffix components |
| UrlPath.OfJoined | src/main/java/fluff/http/path/URLPath.java:87-92 | `of("p://" + String.join("/", cs))` is the non-directory path with components `cs`, for one or more proper components |
| UrlPath.JoinAppend | src/main/java/fluff/http/path/URLPath.java:41 | joining two non-empty component lists puts one slash between their joins |
| UrlPath.OfDeriveAppends | src/main/java/fluff/http/path/URLPath.java:39-44 | for `p` = protocol, `://` and one or more proper components joined by `/` (no trailing slash, no empty segment), `of(p)` succeeds and `of(p).derive(c).getPath() == p + "/" + c` |
| UrlPath.NoColonNoSeparator | src/main/java/fluff/http/path/URLPath.java:88 | text without a colon contains no `://` |
| UrlPath.HostOnly | src/main/java/fluff/http/path/URLPath.java:87-92 | `of("p://host")` has the one component `host` and the path `p://host/` |
| UrlPath.ParentChain | src/main/java/fluff/http/path/URLPath.java:51-59 | from `p://a/b/c` two parent steps reach `p://a/` and a third gives null |
| UrlPath.FindSeparatorIs | src/main/java/fluff/http/path/URLPath.java:88 | the separator search finds a given occurrence when none comes earlier |
| UrlPath.SplitHead | src/main/java/fluff/http/path/URLPath.java:88 | a colon-free piece before `://` is split off as the first piece |
| UrlPath.SplitNone | src/main/java/fluff/http/path/URLPath.java:88 | colon-free text splits into itself alone |
| UrlPath.SplitTwoSeparators | src/main/java/fluff/http/path/URLPath.java:88 | text with two separators splits into three pieces |
| UrlPath.NoSeparatorRejected | src/main/java/fluff/http/path/URLPath.java:88-89 | a path in which `://` occurs nowhere is rejected with "Invalid URL path!" |
| UrlPath.TwoSeparatorsRejected | src/main/java/fluff/http/path/URLPath.java:89 | a path with two separators and a non-empty tail is rejected with "Invalid URL path!" |
| UrlPath.TrailingSeparatorAccepted | src/main/java/fluff/http/path/URLPath.java:88-91 | `p://a://` is accepted as `p://a/`, because the trailing empty piece is dropped |
| UrlPath.SeparatorOnlyRejected | src/main/java/fluff/http/path/URLPath.java:88-89 | `of(protocol + "://")` is rejected with "Invalid URL path!" |
| Head.Empty | src/main/java/fluff/http/head/HTTPHead.java:108-110 | the empty head has no list for any name |
| Head.Of | src/main/java/fluff/http/head/HTTPHead.java:17-19 | `getAll(name)` on the built head is the map's list for that name, or null when the name is absent |
| Head.GetAll | src/main/java/fluff/http/head/HTTPHead.java:27-29 | the list is present iff the name is, and for every non-negative index `get(name, index)` is its element there, or null past its end |
| Head.Get | src/main/java/fluff/http/head/HTTPHead.java:38-41 | null when the name is absent or the list is too short; the element at the index otherwise; IndexOutOfBounds when the name is present and the index negative |
| Head.GetFirst | src/main/java/fluff/http/head/HTTPHead.java:49-51 | never throws; gives the first value iff the name has a non-empty list |
| Head.GetTyped | src/main/java/fluff/http/head/HTTPHead.java:78-80 | the header's parser applied to the raw value at the index (null if missing); a negative index on a present name throws |
| Head.GetTypedFirst | src/main/java/fluff/http/head/HTTPHead.java:90-92 | the header's parser applied to the first raw value, or to null |
| Head.GetAllTyped | src/main/java/fluff/http/head/HTTPHead.java:61-67 | NullPointerException for an absent name; otherwise succeeds iff every value parses, with the parsed values in order, and fails with the failure of the first value that does not parse, every earlier value having parsed |
| Head.TypedMissingIsParsedNull | src/main/java/fluff/http/head/HTTPHead.java:78-80 | reading an absent header hands null to the parser: STRING and mapped parsers give null, INT fails with NumberFormatException |
| HeadBuilder.Appended | src/main/java/fluff/http/head/HTTPHeadBuilder.java:36-43 | appending to a name adds that name to the keys and nothing else |
| HeadBuilder.Lookup | src/main/java/fluff/http/head/HTTPHeadBuilder.java:21-27 | the list under a name, empty when absent, as `getOrCreate` sees it; `MergedLookup` and `AppendedLookup` state reads through it |
| HeadBuilder.Merged | src/main/java/fluff/http/head/HTTPHeadBuilder.java:51-58 | the headers after `add(head)`; specified by `MergedLookup`, `MergedIdentity` and `MergedAssociative` |
| HeadBuilder.ValueStrings | src/main/java/fluff/http/head/HTTPHeadBuilder.java:39-41 | one string per value |
| HeadBuilder.HeaderStrings | src/main/java/fluff/http/head/HTTPHeadBuilder.java:71-73 | one string per value |
| HeadBuilder.HeadBuilder.constructor | src/main/java/fluff/http/head/HTTPHeadBuilder.java:13 | a new builder holds no headers |
| HeadBuilder.HeadBuilder.GetOrCreate | src/main/java/fluff/http/head/HTTPHeadBuilder.java:21-27 | returns the name's list (empty if new) and ensures the name is present, changing nothing else |
| HeadBuilder.HeadBuilder.Add | src/main/java/fluff/http/head/HTTPHeadBuilder.java:36-43 | the name's list gains `String.valueOf` of each value in order; other names are unchanged |
| HeadBuilder.HeadBuilder.AddHeader | src/main/java/fluff/http/head/HTTPHeadBuilder.java:68-75 | the header name's list gains the header's `getString` of each value in order; other names are unchanged |
| HeadBuilder.HeadBuilder.AddHead | src/main/java/fluff/http/head/HTTPHeadBuilder.java:51-58 | the new headers are the old ones merged with the head's: every name's list is the old list followed by the head's list |
| HeadBuilder.HeadBuilder.Remove | src/main/java/fluff/http/head/HTTPHeadBuilder.java:83-86 | the name is gone and every other entry is unchanged |
| HeadBuilder.HeadBuilder.Build | src/main/java/fluff/http/head/HTTPHeadBuilder.java:93-95 | the built head answers `getAll` with exactly the builder's lists |
| HeadBuilder.MergeStep | src/main/java/fluff/http/head/HTTPHeadBuilder.java:52-56 | one iteration of the merge loop (getOrCreate, then addAll) extends the merge by one entry of the head |
| HeadBuilder.MergedLookup | src/main/java/fluff/http/head/HTTPHeadBuilder.java:51-58 | after a merge each name's list is the first list followed by the second |
| HeadBuilder.MergedIdentity | src/main/java/fluff/http/head/HTTPHeadBuilder.java:51-58 | merging with an empty head on either side changes nothing |
| HeadBuilder.MergedAssociative | src/main/java/fluff/http/head/HTTPHeadBuilder.java:51-58 | adding head n then head p equals adding the merge of n and p |
| HeadBuilder.AppendedIsMergeOfOne | src/main/java/fluff/http/head/HTTPHeadBuilder.java:36-58 | adding values to one name equals adding a head with that single entry |
| HeadBuilder.AppendedLookup | src/main/java/fluff/http/head/HTTPHeadBuilder.java:36-43 | after appending, the name's list is the old list plus the new values, and other names keep theirs |
| HeadBuilder.AddThenRemove | src/main/java/fluff/http/head/HTTPHeadBuilder.java:36-95 | a head built after `add` lists the values, and one built after `remove` of the same name has no list |
| HeadBuilder.BuildExample | src/main/java/fluff/http/head/HTTPHeadBuilder.java:68-95 | adding `TEXT_HTML, APPLICATION_JSON` to `Accept` and the number 3 to `X-Count` builds exactly those two lists |
| HeadBuilder.ExampleAcceptReads | src/main/java/fluff/http/head/HTTPHead.java:78-80 | on that head, `get(ACCEPT, 1)` is APPLICATION_JSON and `get(ACCEPT, 2)` is null |
| HeadBuilder.ExampleCountRead | src/main/java/fluff/http/head/HTTPHead.java:78-80 | on that head, an INT-typed `X-Count` header reads the number 3 |
| Header.OfParser | src/main/java/fluff/http/head/HTTPHeader.java:95-97 | the header has the given name, and `getValue` is the given parser |
| Header.OfValues | src/main/java/fluff/http/head/HTTPHeader.java:83-85 | no values give the null parser; otherwise a mapped parser over the values, and construction throws iff some value is null |
| Header.GetString | src/main/java/fluff/http/head/HTTPHeader.java:60-62 | an HTTPHeaderValue gives its wire string; anything else gives `String.valueOf` |
| Header.GetName | src/main/java/fluff/http/head/HTTPHeader.java:50-52 | the header's name; `OfParser` and `OfValues` state that it is the name given at construction |
| Header.GetValue | src/main/java/fluff/http/head/HTTPHeader.java:71-73 | the header's parser applied to the text; specified through `Parse` and the round-trip lemmas below |
| Header.MimeHeadersAreMapped | src/main/java/fluff/http/head/HTTPHeader.java:30-35 | ACCEPT and CONTENT_TYPE are what `of(name, MIMETypes.values())` builds |
| Header.StringHeadersIdentity | src/main/java/fluff/http/head/HTTPHeader.java:20-25 | USER_AGENT and AUTHORIZATION pass strings through unchanged both ways |
| Header.MimeValuesDistinctWires | src/main/java/fluff/http/head/value/values/MIMETypes.java:9-50 | no two MIME constants share a header string |
| Header.MimeValuesContains | src/main/java/fluff/http/head/HTTPHeader.java:30-35 | every MIME constant is among the values ACCEPT and CONTENT_TYPE are built from |
| Header.MimeHeaderRoundTrip | src/main/java/fluff/http/head/HTTPHeader.java:30-35 | for ACCEPT and CONTENT_TYPE, `getValue(getString(m)) == m` for every MIME constant |
| Header.MimeHeaderUnknown | src/main/java/fluff/http/head/value/parsers/MappedHTTPHeaderParser.java:31-33 | for ACCEPT and CONTENT_TYPE, an unknown string or null reads as null |
| Header.NoValuesHeaderAlwaysFails | src/main/java/fluff/http/head/value/parsers/NullHTTPHeaderParser.java:13-16 | a header made from no values throws "Null header parser!" on every input |
| HeaderParsers.Parse | src/main/java/fluff/http/head/value/HTTPHeaderParser.java:15-30 | the null parser always throws HTTPException; STRING and mapped parsers never fail; INT and LONG fail only with NumberFormatException, always on null, and yield an Integer or a Long |
| HeaderParsers.StringParserIdentity | src/main/java/fluff/http/head/value/HTTPHeaderParser.java:15 | STRING returns its argument (null included) |
| HeaderParsers.IntRoundTrip | src/main/java/fluff/http/head/value/HTTPHeaderParser.java:20 | INT reads back `String.valueOf` of every int |
| HeaderParsers.LongRoundTrip | src/main/java/fluff/http/head/value/HTTPHeaderParser.java:30 | LONG reads back `String.valueOf` of every long |
| HeaderParsers.IntRejectsOutOfRange | src/main/java/fluff/http/head/value/HTTPHeaderParser.java:20 | INT throws NumberFormatException on the decimal text of a long outside the int range |
| HeaderParsers.BuildMappedTable | src/main/java/fluff/http/head/value/parsers/MappedHTTPHeaderParser.java:24-28 | the constructor's loop throws iff some value is null, and otherwise builds the table keyed by each value's wire string |
| HeaderParsers.TableOf | src/main/java/fluff/http/head/value/parsers/MappedHTTPHeaderParser.java:24-28 | the map a loop of `put`s leaves; specified by `TableKeys` and `TableLastWins` |
| HeaderParsers.MappedTable | src/main/java/fluff/http/head/value/parsers/MappedHTTPHeaderParser.java:24-28 | the table keyed by each value's wire string; specified by `MappedRoundTrip` and `MappedMiss` |
| HeaderParsers.TableStep | src/main/java/fluff/http/head/value/parsers/MappedHTTPHeaderParser.java:25-27 | one more iteration of the loop puts one more entry under the value's key |
| HeaderParsers.TableKeys | src/main/java/fluff/http/head/value/parsers/MappedHTTPHeaderParser.java:25-27 | the table's keys are exactly the values' keys |
| HeaderParsers.TableLastWins | src/main/java/fluff/http/head/value/parsers/MappedHTTPHeaderParser.java:25-27 | a key maps to the last value carrying it (later `put`s overwrite) |
| HeaderParsers.TableRoundTrip | src/main/java/fluff/http/head/value/parsers/MappedHTTPHeaderParser.java:24-33 | with distinct keys every value is found under its own key |
| HeaderParsers.MappedRoundTrip | src/main/java/fluff/http/head/value/parsers/MappedHTTPHeaderParser.java:24-33 | with distinct wire strings, parsing a value's wire string gives the value |
| HeaderParsers.MappedMiss | src/main/java/fluff/http/head/value/parsers/MappedHTTPHeaderParser.java:31-33 | a string no value carries, or null, parses to null |
| JavaValues.HeaderValueOf | src/main/java/fluff/http/head/HTTPHeader.java:61 | a value has a header value iff it is an HTTPHeaderValue (a MIME constant), and that value is its wire string |
| JavaValues.HeaderString | src/main/java/fluff/http/head/HTTPHeader.java:61 | the wire string of an HTTPHeaderValue, `String.valueOf` otherwise; its contract is the one stated on `Header.GetString` |
| JavaValues.ValueOf | src/main/java/fluff/http/head/HTTPHeadBuilder.java:40 | `String.valueOf`: null prints as `null`, and an Integer or Long prints as a numeral denoting its value |
| MimeTypes.FromOrdinalOrdinal | src/main/java/fluff/http/head/value/values/MIMETypes.java:9-50 | every constant's ordinal is below 42 and identifies it |
| MimeTypes.OrdinalFromOrdinal | src/main/java/fluff/http/head/value/values/MIMETypes.java:9-50 | ordinals 0 to 41 each name a constant without gaps |
| MimeTypes.ValuesEnumerateAll | src/main/java/fluff/http/head/value/values/MIMETypes.java:9-50 | `values()` has 42 entries, lists every constant at its ordinal, and has no repeats |
| MimeTypes.PartsInjective | src/main/java/fluff/http/head/value/values/MIMETypes.java:9-50 | no two constants have the same type and subtype |
| MimeTypes.WireInjective | src/main/java/fluff/http/head/value/values/MIMETypes.java:52-61 | no two constants share a wire string |
| MimeTypes.Wire | src/main/java/fluff/http/head/value/values/MIMETypes.java:52-61 | `getHTTPHeaderValue()`; specified by `WireInjective`, `WireHasOneSlash` and `WellKnownWires` |
| MimeTypes.Name | src/main/java/fluff/http/head/value/values/MIMETypes.java:9-50 | the enum constant's name, what `String.valueOf` prints for it |
| MimeTypes.SubtypeIsToken | src/main/java/fluff/http/head/value/values/MIMETypes.java:9-50 | every subtype is non-empty and slash-free |
| MimeTypes.WireHasOneSlash | src/main/java/fluff/http/head/value/values/MIMETypes.java:9-61 | every wire string holds exactly one slash, right after the top-level type |
| MimeTypes.MediaTypeIsToken | src/main/java/fluff/http/head/value/values/MIMETypes.java:9-50 | every top-level type is non-empty and slash-free |
| MimeTypes.WellKnownWires | src/main/java/fluff/http/head/value/values/MIMETypes.java:9-15 | ANY, APPLICATION_JSON and TEXT_HTML have the wire strings `*/*`, `application/json` and `text/html` |
| Decimal.NatToDigits | src/main/java/fluff/http/head/HTTPHeadBuilder.java:40 | the decimal text of a number is non-empty digits without a leading zero |
| Decimal.ToDecimal | src/main/java/fluff/http/head/HTTPHeadBuilder.java:40 | `String.valueOf` of an int or long is a numeral denoting that number, starting with `-` iff it is negative |
| Decimal.ParseDecimal | src/main/java/fluff/http/head/value/HTTPHeaderParser.java:20-30 | succeeds iff the text is present, is an optional `-` or `+` followed by one or more ASCII digits, and denotes a value within the target type's range; the result is that value; every failure is NumberFormatException |
| Decimal.ParseEdgeCases | src/main/java/fluff/http/head/value/HTTPHeaderParser.java:20 | `+5`, `007` and `-0` parse to 5, 7 and 0; `abc`, `-`, `1x` and the empty string throw NumberFormatException |
| Decimal.DigitsRoundTrip | src/main/java/fluff/http/head/value/HTTPHeaderParser.java:20-30 | reading back the digits of n gives n |
| Decimal.ParseToDecimal | src/main/java/fluff/http/head/value/HTTPHeaderParser.java:20-30 | parsing `String.valueOf(n)` gives n when it fits the type, and NumberFormatException otherwise |
| Decimal.ToDecimalInjective | src/main/java/fluff/http/head/HTTPHeadBuilder.java:40 | distinct numbers print differently |
| Utf8.EncodeChar | src/main/java/fluff/http/body/HTTPBodyBuilder.java:43-45 | one character encodes to one to four bytes |
| Utf8.Encode | src/main/java/fluff/http/body/HTTPBodyBuilder.java:43-45 | `getBytes()` gives one to four bytes per character; `DecodeEncode` is its inverse |
| Utf8.Decode | src/main/java/fluff/http/body/HTTPBodyParser.java:23 | `new String(bytes)` gives at most one character per byte; `DecodeEncode` states that it inverts `Encode` |
| Utf8.DecodeHeadEncodeChar | src/main/java/fluff/http/body/HTTPBodyParser.java:23 | decoding the encoding of a character gives that character and consumes exactly its bytes |
| Utf8.DecodeEncode | src/main/java/fluff/http/body/HTTPBodyParser.java:23 | `new String(s.getBytes()) == s` |
| Utf8.DecodeEncodeAll | src/main/java/fluff/http/body/HTTPBodyParser.java:23 | `new String(s.getBytes()) == s` for every string at once |
| Utf8.EncodeAppend | src/main/java/fluff/http/body/HTTPBodyBuilder.java:43-45 | encoding distributes over concatenation |
| Utf8.EncodeAscii | src/main/java/fluff/http/body/HTTPBodyBuilder.java:43-45 | ASCII text encodes to one byte per character, equal to its code |
| Body.BytesParser | src/main/java/fluff/http/body/HTTPBodyParser.java:18 | BYTES returns the bytes unchanged |
| Body.StringParser | src/main/java/fluff/http/body/HTTPBodyParser.java:23 | STRING never fails |
| Body.JsonParser | src/main/java/fluff/http/body/HTTPBodyParser.java:28-33 | the JSON parsers read the bytes of any string `s` as the JSON reader's result on `s`, and bytes that decode to the same text read the same |
| Body.Empty | src/main/java/fluff/http/body/HTTPBody.java:33-35 | the empty body reads as no bytes and as the empty string |
| Body.Of | src/main/java/fluff/http/body/HTTPBody.java:43-45 | a body reads back through BYTES as the bytes it was made of |
| Body.Get | src/main/java/fluff/http/body/HTTPBody.java:24-26 | the parser applied to the body's bytes; `Empty`, `Of`, `StringRoundTrip` and `JsonRoundTrip` state what it reads |
| Body.StringRoundTrip | src/main/java/fluff/http/body/HTTPBodyParser.java:23 | a body made of a string's bytes reads back through STRING as that string |
| Body.JsonRoundTrip | src/main/java/fluff/http/body/HTTPBodyParser.java:28-33 | a body made of a JSON value's text reads back as that value whenever the JSON reader reads its own output |
| BodyBuilder.BodyBuilder.constructor | src/main/java/fluff/http/body/HTTPBodyBuilder.java:12 | a new builder holds no bytes |
| BodyBuilder.BodyBuilder.AppendSlice | src/main/java/fluff/http/body/HTTPBodyBuilder.java:22-25 | succeeds iff `off` and `len` select a slice of the array, appending exactly that slice; otherwise throws IndexOutOfBounds and changes nothing |
| BodyBuilder.BodyBuilder.Append | src/main/java/fluff/http/body/HTTPBodyBuilder.java:33-35 | appends the whole array |
| BodyBuilder.BodyBuilder.AppendString | src/main/java/fluff/http/body/HTTPBodyBuilder.java:43-45 | appends the string's UTF-8 bytes |
| BodyBuilder.BodyBuilder.AppendJson | src/main/java/fluff/http/body/HTTPBodyBuilder.java:53-55 | appends the UTF-8 bytes of the JSON value's text |
| BodyBuilder.BodyBuilder.Build | src/main/java/fluff/http/body/HTTPBodyBuilder.java:62-64 | the built body holds exactly the bytes written so far |
| BodyBuilder.AppendedStringsRead | src/main/java/fluff/http/body/HTTPBodyBuilder.java:43-45 | the bytes of two appended strings read back through STRING as their concatenation |
| BodyBuilder.BuildTwice | src/main/java/fluff/http/body/HTTPBodyBuilder.java:43-64 | building, appending more and building again gives two bodies that read as the first string and as both strings |

## Left out

- `HTTPHeaderParser.FLOAT` and `DOUBLE` are not modelled: Java's floating-point parsing has no counterpart here.
- The JSON library (`fluff.json`) is not part of this model. `JSON.object`, `JSON.array` and `JSONObject.toString` are function parameters. `JSON_OBJECT` and `JSON_ARRAY` are one composition, `Body.JsonParser`, applied to the chosen reader.
- `Utf8.Decode`: the platform default charset is fixed to UTF-8. A malformed sequence is replaced one byte at a time, whereas the JDK decoder may replace a longer maximal subpart with one U+FFFD. The round trips are stated only for well-formed input, where the two agree.
- Java strings are UTF-16 and can hold lone surrogates. A Dafny `char` is a Unicode scalar value, so strings with lone surrogates (which `getBytes` turns into `?`) are not modelled.
- `Decimal.ParseDecimal`: only ASCII digits are read. `Integer.parseInt` also accepts other Unicode decimal digits.
- Null arrays, null strings passed to the builders, null maps, and null value lists inside a map are not modelled. Every argument is a value, and only the nulls the library itself produces or checks are `None`.
- Aliasing is not modelled. A built HTTPHead shares its value lists with the builder that built it, `getHeaders()` exposes the head's mutable map, `BYTES` returns the body's own array, and `URLPath` keeps the component list it was given. The model copies values, so a later mutation through such an alias is not seen.
- `HeadBuilder.HeadBuilder.AddHead` walks the head's entries in an order chosen nondeterministically in place of HashMap iteration order. The result does not depend on that order.
- The builders' `return this` for call chaining is not modelled. The methods update the builder and return nothing.
- `BodyBuilder.BodyBuilder.Append`, `AppendString` and `AppendJson` require the array to fit a Java `int` length. `ByteArrayOutputStream`'s growth failure (OutOfMemoryError) is not modelled.
- The generic value type `V` is erased to `JavaValue`. A mismatch between a header's `V` and the values passed in, which Java's type checker forbids, is not modelled.
- Exceptions are kept by kind and message, not by Java class hierarchy. HTTPException's cause chain is not modelled.
- `HTTPHeaderValue` is modelled only through its one implementation in the library, `MIMETypes`.
- `HTTPHeadBuilder.add(String, Object...)` accepts any Object and stores its `String.valueOf`. Only null, String, Integer, Long and MIMETypes values are modelled. Other Objects (a Boolean, a Double, a user class with its own `toString`) are not.
- `HTTP`, `HTTPRequest`, `HTTPRequestMethod`, `HTTPResponse` and the socket transport are not part of this model.
