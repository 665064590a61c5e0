# paginated-connection, modelled in Dafny

A model of the `paginated-connection` library: forward-only, Relay-style
pagination (`first` / `after`) over a caller-supplied data loader. It has three
layers, and each one becomes a module of pure functions over immutable
datatypes.

- **Cursor codec** (`src/cursor`). `encodeCursor` writes the fields of
  `getCursor(node)` as form pairs `key=<JSON text of value>`, serializes them
  `application/x-www-form-urlencoded`, UTF-8 encodes the text and writes it
  as base64url without padding. `decodeCursor` runs the pipeline backwards and
  builds an object with `Object.fromEntries`. It never parses the JSON, so
  every decoded value is a string.
  - Each stage is its own module: `Base64Url`, `Utf8`, `FormUrlEncoded`,
    `Json`, all composed in `CursorCodec`.
  - Each stage carries its own inverse lemma.
- **Generic orchestrator** (`src/paginatedConnection.ts`, module
  `PaginatedConnection`). It does the following:
  - clamps `first` against the safe limit (`getPaginationLimit`);
  - decodes a non-empty `after`;
  - calls the data loader with the decoded fields and the page size;
  - returns the loader's edges and `hasNextPage`;
  - sets `endCursor` to the last edge's cursor;
  - keeps a deferred `totalCount`.
- **Adapters.**
  - `MysqlAdapter` (`src/paginatedConnectionMysql.ts`) over-fetches by one to
    decide `hasNextPage`, drops the extra edge and recomputes `endCursor`. Its
    codec writes values as plain text, so it round-trips for string fields.
  - `MongoDbAdapter` (`src/paginatedConnectionMongoDb.ts`) is the orchestrator
    with a codec that carries a single `after` field.

Other modules:
- `CodecExamples` derives the tokens from the repository's codec tests from the
  general definitions.
- `Scenarios` states the orchestrators' results on in-memory lists, with the
  data loader the repository's tests use.
- `CursorTypes` holds the cursor value union (`string | number | boolean`,
  numbers restricted to integers).
- `Wrappers` holds the small shared helpers: `Option`, the `byte` type, the
  last element of a sequence, JavaScript's `slice(0, end)`, and the value and
  character of a hexadecimal digit (used by both percent-escapes and JSON
  `\u00XX` escapes).

Loaders, count loaders, `getCursor` and `getAfterValue` are function
parameters. A connection stores the decoded cursor that `totalCount()` would
pass to the count loader, and `TotalCount` applies a count loader to it.

The stages follow the platform's behaviour on every text the encoders write,
and on most others:
- **Base64url decoding** is Node's lenient decoder on Latin-1 text (characters
  below U+0100). It skips characters outside the alphabet, accepts `+` and `/`,
  stops at `=`, and drops a trailing lone sextet.
- **UTF-8 decoding** replaces every maximal ill-formed subpart with U+FFFD, as
  the WHATWG decoder does.
- **Form parsing** follows the WHATWG URL Standard, section 5.1 (Node departs
  from it on one kind of malformed input, listed under "Left out"):
  - a leading `?` is stripped;
  - the input is split on `&`, and empty pieces are skipped;
  - each piece is split at the first `=`;
  - `+` becomes a space and percent-escapes are decoded.
- **Form serializing** keeps `*-._` and alphanumerics, writes a space as `+`,
  and percent-escapes everything else in upper-case hex.
- **JSON strings** are escaped as `JSON.stringify` does (section 7 of RFC 8259):
  `\"`, `\\`, `\b \f \n \r \t`, and `\u00XX` in lower-case hex for the other
  control characters.

Consequences of modelling the whole pipeline:
- The codec lemmas hold for all strings, not only ASCII ones.
- The decoder is total as a function, and no input reaches the `catch` branch.
  That branch is unreachable for string tokens, since none of `Buffer.from`,
  `URLSearchParams` or `Object.fromEntries` throws on a string.

## Model

| member | source | states |
|---|---|---|
| Base64Url.Encode | src/cursor/encodeCursor.ts:15 | a token uses only `A-Z a-z 0-9 - _` and never contains `=` padding |
| Base64Url.DecodeEncode | src/cursor/decodeCursor.ts:3-5 | Node's lenient base64url decoder gives back exactly the bytes the encoder wrote |
| Base64Url.EncodeAppend | src/cursor/encodeCursor.ts:15 | encoding works three bytes at a time: bytes cut at a multiple of three encode to the two halves' encodings, concatenated |
| Base64Url.EncodeLength | src/cursor/encodeCursor.ts:15 | n bytes take ⌈4n/3⌉ characters (unpadded) |
| Utf8.DecodeEncode | src/cursor/decodeCursor.ts:3-5 | `Buffer.toString()` (UTF-8 with replacement) inverts `Buffer.from(string)` for every string |
| FormUrlEncoded.ParseSerialize | src/cursor/decodeCursor.ts:3-5 | `new URLSearchParams(params.toString())` gives back the same name/value pairs in the same order, for any names and values |
| FormUrlEncoded.DecodeComponentEncode | src/cursor/encodeCursor.ts:13 | a form-encoded name or value decodes back to itself (spaces, `+`, `%`, `&`, `=` and non-ASCII included) |
| FormUrlEncoded.Get | src/paginatedConnectionMongoDb.ts:49 | `get(name)` is absent exactly when no pair has that name, otherwise the value of the first such pair |
| Json.ParseStringify | src/cursor/encodeCursor.ts:12-13 | the JSON text of a string, integer or boolean reads back as the same value, type included |
| Json.StringifyInjective | src/cursor/encodeCursor.ts:13 | different values have different JSON texts, so `'1'` (`"1"`) and `1` (`1`) differ |
| CursorCodec.EncodeCursor | src/cursor/encodeCursor.ts:3-16 | the token is url-safe base64 with no padding |
| CursorCodec.TokenDependsOnlyOnFields | src/cursor/encodeCursor.ts:9 | nodes with the same `getCursor(node)` get the same token; no other node field matters |
| CursorCodec.EncodedPairs | src/cursor/encodeCursor.ts:7-14 | a token carries exactly one pair per cursor field, in field order, each value as its JSON text |
| CursorCodec.OpenSeal | src/cursor/decodeCursor.ts:3-5 | reading a token's pairs back (base64url, UTF-8, form parse) gives exactly the pairs sealed into it |
| CursorCodec.FromEntries | src/cursor/decodeCursor.ts:7 | `Object.fromEntries` has a key for every pair name and no key that is not a pair name |
| CursorCodec.LaterPairWins | src/cursor/decodeCursor.ts:7 | when a name repeats, the object keeps the value of its last pair |
| CursorCodec.DecodeLaterWins | src/cursor/decodeCursor.ts:3-7 | a token whose payload repeats a key decodes to the later value, and every payload name is a key |
| CursorCodec.DecodeCursor | src/cursor/decodeCursor.ts:1-12 | decoding is total: the keys are exactly the names of the pairs the token carries, and every value is a string |
| CursorCodec.DecodeEncode | src/cursor/decodeCursor.ts:1-12 | decoding an encoded cursor is `Object.fromEntries` of its `(key, JSON text)` pairs |
| CursorCodec.DecodeEncodeFields | src/cursor/decodeCursor.ts:7 | for a cursor object, the decoded token has exactly its keys, each mapped to the JSON text of its value (`{after:'1'}` comes back as `{after:'"1"'}`), not the value itself |
| CursorCodec.DecodeThenParse | src/cursor/encodeCursor.ts:12-13 | reading a decoded value as JSON recovers the original typed value |
| CursorCodec.EncodeInjective | src/cursor/encodeCursor.ts:11-15 | two cursors with the same token are the same cursor |
| CursorCodec.DecodeEmpty | src/cursor/decodeCursor.ts:3-7 | decoding never fails: the empty token decodes to `{}` |
| CodecExamples.EncodesAfter | test/cursor/encodeCursor.test.ts:4-15 | `{after:'1'}` encodes to `YWZ0ZXI9JTIyMSUyMg` |
| CodecExamples.EncodesSorting | test/cursor/encodeCursor.test.ts:18-33 | `{after:'1', sorting:'2'}` encodes to `YWZ0ZXI9JTIyMSUyMiZzb3J0aW5nPSUyMjIlMjI`, fields in order |
| CodecExamples.EncodesEnum | test/cursor/encodeCursor.test.ts:36-60 | `{after:'1', sorting:'22'}` encodes to `YWZ0ZXI9JTIyMSUyMiZzb3J0aW5nPSUyMjIyJTIy` |
| CodecExamples.EncodesRanking | test/cursor/encodeCursor.test.ts:62-80 | `{after:'1', ranking:1111}` encodes to `YWZ0ZXI9JTIyMSUyMiZyYW5raW5nPTExMTE`; the number is unquoted |
| CodecExamples.EncodesEnabled | test/cursor/encodeCursor.test.ts:83-101 | `{after:'1', enabled:true}` encodes to `YWZ0ZXI9JTIyMSUyMiZlbmFibGVkPXRydWU` |
| CodecExamples.StringAndNumberDiffer | test/cursor/encodeCursor.test.ts:62-80 | the string `'1'` and the number `1` give different tokens |
| CodecExamples.DecodesAfter | test/cursor/decodeCursor.test.ts:4-8 | `YWZ0ZXI9MQ` decodes to `{after:'1'}` |
| CodecExamples.DecodesSorting | test/cursor/decodeCursor.test.ts:10-15 | `YWZ0ZXI9MSZzb3J0aW5nPTI` decodes to `{after:'1', sorting:'2'}` |
| CodecExamples.DecodesEnum | test/cursor/decodeCursor.test.ts:17-29 | `YWZ0ZXI9MSZzb3J0aW5nPTIy` decodes to `{after:'1', sorting:'22'}` |
| CodecExamples.GenericDecodesFoobar | src/cursor/decodeCursor.ts:3-7 | the generic decoder reads `foobar` as bytes `7E 8A 1B 6A`, i.e. the text `~\uFFFD\u001Bj`, one key with an empty value |
| CodecExamples.MongoDecodesFoobar | src/paginatedConnectionMongoDb.ts:43-59 | the malformed token `foobar` decodes, without failing, to `{}` under the document-store codec: its payload has no `after` |
| PaginatedConnection.PaginationLimit | src/paginatedConnection.ts:73-78 | the limit is never above the safe limit; absent or 0 gives the safe limit; any other request up to the safe limit, negative ones included, is kept; nothing else is ever returned |
| PaginatedConnection.PaginationLimitIdempotent | src/paginatedConnection.ts:73-78 | clamping an already clamped limit changes nothing |
| PaginatedConnection.PaginationLimitMonotone | src/paginatedConnection.ts:73-78 | a larger positive request never yields a smaller page |
| PaginatedConnection.ResolveCursor | src/paginatedConnection.ts:51-55 | the decoder is consulted only for a non-empty `after`; otherwise the decoded cursor is `{}` |
| PaginatedConnection.DecoderUnusedWithoutAfter | src/paginatedConnection.ts:51-55 | without a non-empty `after`, any two decoders give the same connection |
| PaginatedConnection.NullPaginationIsEmpty | src/paginatedConnection.ts:44 | `pagination: null` behaves exactly as `pagination: {}` |
| PaginatedConnection.LoaderArguments | src/paginatedConnection.ts:57-61 | the loader gets `first` = the resolved limit whatever the cursor holds, and every other decoded field unchanged |
| PaginatedConnection.LoaderArgsFor | src/paginatedConnection.ts:44-61 | the page size the loader is asked for never exceeds the safe limit |
| PaginatedConnection.EndCursor | src/paginatedConnection.ts:66 | `endCursor` is the last edge's cursor, and absent when there are no edges |
| PaginatedConnection.Paginate | src/paginatedConnection.ts:38-71 | edges and `hasNextPage` are exactly the loader's, `endCursor` is the last edge's cursor, and the count uses the decoded cursor |
| PaginatedConnection.TotalCountUsesDecodedCursor | src/paginatedConnection.ts:64 | `totalCount()` (the model's `TotalCount`) passes the count loader the same decoded cursor the data loader paged from |
| PaginatedConnection.ListEdges | test/paginatedConnection.test.ts:52-65 | a list loader returns the first `first` items, in order, each with its cursor |
| MysqlAdapter.Paginate | src/paginatedConnectionMysql.ts:28-74 | as written: the page size is at most safe limit + 1, the edges are the first page-size loaded ones, `hasNextPage` iff more came back, `endCursor` is the last kept edge's, the count uses the decoded `after` |
| MysqlAdapter.EncodeCursor | src/paginatedConnectionMysql.ts:76-88 | the token is url-safe and carries one pair per field, in field order, each value as `String(value)` |
| MysqlAdapter.OverFetch | src/paginatedConnectionMysql.ts:42-73 | for page size `first`, edges are the first `first` loaded ones, `hasNextPage` says whether more than `first` came back, `endCursor` is the last kept edge's, and the count uses the generic decoded cursor |
| MysqlAdapter.ResolvedFirstBounds | src/paginatedConnectionMysql.ts:35-50 | the page size is at most safe limit + 1; a request in `1..safeLimit` is kept and the loader is asked for one more |
| MysqlAdapter.OverFetchByOne | src/paginatedConnectionMysql.ts:53-71 | for a request in `1..safeLimit`: the first `min(len, first)` loaded edges in order, `hasNextPage` iff more than `first` loaded, `endCursor` from the kept edges, never the dropped one |
| MysqlAdapter.PageSizeWithoutRequest | src/paginatedConnectionMysql.ts:35-40 | with no request (or 0, or one above the safe limit) the page size and the loader's request are both safe limit + 1, so `hasNextPage` needs the loader to overshoot its request |
| MysqlAdapter.DecodeEncode | src/paginatedConnectionMysql.ts:76-101 | decoding the adapter's token gives each key `String(value)`, and no other key |
| MysqlAdapter.RoundTrip | src/paginatedConnectionMysql.ts:76-101 | for string-valued cursors with distinct keys, `decodeCursor(encodeCursor(c))` is `c` |
| MysqlAdapter.PageSizeDiscrepancy | src/paginatedConnectionMysql.ts:35-40 | with no `first` and exactly safe limit + 1 items, the adapter as written returns all of them and no next page; the corrected one returns safe limit of them and a next page |
| MysqlAdapter.PaginateIntended | test/paginatedConnectionMysql.test.ts:537-583 | the corrected adapter: the page size is at most the safe limit, and otherwise it keeps, reports and counts as the adapter as written |
| MysqlAdapter.IntendedPageSize | test/paginatedConnectionMysql.test.ts:537-583 | for an absent or non-negative request, the corrected adapter's page size is the request clamped into `0..safeLimit` (the safe limit when absent or zero); it returns exactly the first page-size items and reports whether more exist |
| MongoDbAdapter.DecodeCursor | src/paginatedConnectionMongoDb.ts:43-59 | the result is `{}` or exactly `{after: v}` with `v` non-empty, and `after` is present iff the payload's first `after` is non-empty |
| MongoDbAdapter.EncodeCursor | src/paginatedConnectionMongoDb.ts:32-41 | the token is url-safe and carries exactly the single pair `after=<getAfterValue(node)>` |
| MongoDbAdapter.Paginate | src/paginatedConnectionMongoDb.ts:22-30 | no over-fetch: the loader's limit is at most the safe limit, it sees only `after`, edges and `hasNextPage` are exactly the loader's, and the count uses the decoded cursor (`{}` or `{after}`) |
| MongoDbAdapter.RoundTrip | src/paginatedConnectionMongoDb.ts:32-55 | a token decodes to `{after: getAfterValue(node)}` when that value is non-empty, and to `{}` when it is empty |
| MongoDbAdapter.OnlyAfterMatters | src/paginatedConnectionMongoDb.ts:49-55 | payload keys other than the first `after` are discarded: payloads agreeing on it decode alike |
| MongoDbAdapter.GenericDecoderReadsToken | src/paginatedConnectionMongoDb.ts:32-41 | the token holds the single pair `after=<value>`: the generic decoder reads it back as exactly that field |
| Scenarios.NoPaginationScenario | test/paginatedConnection.test.ts:43-81 | `pagination: null`, safe limit 100, five items: all five edges in order, no next page, `totalCount()` 5 |
| Scenarios.MysqlFirstTwoPage | test/paginatedConnectionMysql.test.ts:127-172 | `first: 2`, safe limit 100, five items: the loader is asked for three, two edges come back, a next page, `totalCount()` 5 |
| Scenarios.MysqlCursorDecodes | src/paginatedConnectionMysql.ts:76-101 | a document's MySQL cursor decodes to `{after: id}` |
| Scenarios.MysqlFirstTwoScenario | test/paginatedConnectionMysql.test.ts:147-153 | in that scenario the end cursor decodes to the second item's id |
| Scenarios.MysqlDefaultPageScenario | test/paginatedConnectionMysql.test.ts:537-583 | `pagination: {}`, safe limit 2, five items: as written three edges and no next page; corrected, the two edges ending at the second item, with a next page |

## Left out

- Asynchrony: `async`/`await` and the real loaders (database I/O). Loaders are pure function parameters.
- The laziness of `totalCount`: a connection stores the count loader's argument, and `TotalCount` applies a count loader to it.
- The encoder function the orchestrator passes to the data loader: the loader's arguments keep the decoded fields minus `first` and `encodeCursor`, plus `first`; the function value itself is not carried.
- Non-integer numbers: cursor numbers are integers, since JSON number formatting of fractions and exponents is not modelled.
- CursorTypes.NumberText: writes every integer as its plain decimal digits. JavaScript writes a number of magnitude 10^21 or more in exponent form (`1e+21`), and cannot hold integers beyond 2^53 exactly; cursor numbers of that size are not modelled.
- Json.Stringify: a cursor number is written by `CursorTypes.NumberText`, so the same limit applies: `JSON.stringify(1e21)` is `1e+21`, while the model writes 22 digits.
- PaginatedConnection.PaginationLimit: `first` is an integer. A `NaN` request (falsy, so it gets the safe limit) and a fractional request (kept, then cut by `slice`) are not modelled.
- Base64Url.Decode: Node reads a character at or above U+0100 by its low byte (so `Ł`, U+0141, reads as `A`); the model skips every character outside the alphabet. The encoders never produce such characters.
- FormUrlEncoded.Parse: decodes every component the WHATWG way (percent-decode the bytes, then UTF-8 with U+FFFD). Node's `URLSearchParams` first tries `decodeURIComponent` and, when that throws, stores each code unit by its low byte; a component mixing raw non-ASCII with a malformed escape (bytes `C3 A9 %FF`) therefore reads as `é\uFFFD` in the model and as `\uFFFD\uFFFD` in Node. The encoders write only ASCII, so no token they produce reaches this case.
- JavaScript key enumeration order: a cursor is a sequence of fields in the order `for…in` visits them. Objects that list integer-like keys first are not reordered.
- Lone surrogate code units: Dafny's `char` is a Unicode scalar value, so the UTF-8 step never meets one.
- The `catch` branches of both `decodeCursor`s: no string input reaches them, since every stage is total.
- src/mongoDbPaginatedConnection.ts is not part of this model. It is a placeholder whose decode throws on malformed input.
- TypeScript type-level machinery beyond the value union of src/cursor/types.ts:1.
- The document-store tests that target a different API (`getCursor`, `createEdge`, a loader without `hasNextPage`): of them only the `after: 'foobar'` input is modelled, as the decoding of that token.

## Findings

| source | as written | input that shows it | evidently intended | confidence | as-written member | corrected member |
|---|---|---|---|---|---|---|
| src/paginatedConnectionMysql.ts:35-40 | the page size is clamped to `paginationSafeLimit + 1` and the inner ceiling is also `paginationSafeLimit + 1`. With `first` absent the loader is asked for S+1 items, all S+1 are kept, and `hasNextPage` is false | `pagination: {}`, `paginationSafeLimit: 2`, five items: three edges and `hasNextPage` false, while the test at test/paginatedConnectionMysql.test.ts:537-583 expects two edges and `hasNextPage` true | clamp the page size to `paginationSafeLimit`, then over-fetch one: S edges and a next page | not executed | MysqlAdapter.PageSizeDiscrepancy | MysqlAdapter.PaginateIntended |

The code and the repository's test disagree here. The model follows the code:
`MysqlAdapter.Paginate` is the adapter as written. `MysqlAdapter.PaginateIntended`
clamps to the safe limit instead, and `Scenarios.MysqlDefaultPageScenario` shows
both on the test's input.
