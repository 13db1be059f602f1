# the-messager in Dafny

A model of the request builder in `index.ts`: a static, chainable HTTP
helper. The caller sets a URL, optionally filled in from a pattern such as
`/users/:id` and a map of parameter values; the caller may also set a
response schema and a bearer token; then it issues `get`, `post`, `patch` or
`delete`. The model covers the URL templating completely, which is the
algorithmic part:

- splitting on `/` and collecting the `:name` markers;
- the no-marker and missing-key errors, with their exact messages;
- the key-by-key substitution with `String.prototype.replace`. This replaces
  the first occurrence only. The replacement text is the value after
  `encodeURIComponent`.

It also covers the builder's state and what each verb sends and returns.

Modules:

- `Wrappers`: `Option` and `Result`.
- `Text`: JavaScript's `split` on one character, `join`, and `replace` with
  a string pattern (first occurrence only). Each comes with its
  specification lemmas.
- `UriEncoding`: `encodeURIComponent` over Unicode scalar values. A
  character outside the unreserved set (ECMA-262 `uriUnreserved`: letters,
  digits and `-_.!~*'()`) becomes the `%XX` escapes of its UTF-8 bytes, in
  upper-case hex. `DecodeURIComponent` is its proved inverse.
- `NumberText`: the string form of an integral number.
- `Template`: `extractParams`, `replaceParams` (a method with the source's
  loop) and `urlTemplate`. These are specified by the functions
  `ExtractParams`, `Substituted` and `Templated`. `Fill` is an independent
  segment-by-segment reference.
- `TemplateScenarios`: worked cases of templating, proved about the model.
- `Messager`: `extractData`, and the class `TheMessager`. For calls made
  on `TheMessager` itself, the source's static fields are the fields of one
  object, and its static methods are methods on that object. `fetch` is not called. Each verb takes the
  response as a parameter, and returns the request it would send together
  with the value it would produce.
- `MessagerScenarios`: chains of builder calls on a fresh `TheMessager`.

Behaviour of the code that is easy to misread:

- `withBearerToken` replaces the `headers` entry as a whole. It does not
  add to earlier headers. `ReplacedToken` shows that a second token leaves
  nothing of the first.
- `delete` has no empty-URL check. It sends `fetch("", …)`. Only `get`,
  `post` and `patch` refuse an empty URL, and their messages differ (`get`
  has its own wording). See `BeforeUrl`.
- A repeated marker name is not mis-handled by itself. When no fixed
  segment contains `:`, each pass replaces the first marker still left, so
  `/:a/x/:a` has both occurrences filled (`SubstitutedFillsMarkers`).
  Substitution goes wrong when a fixed segment holds the text `:name`:
  `/a:id/:id` fills to `/a7/:id` (`InlineMarkerCapturesReplacement`).
- Any map, even an empty one, triggers templating. A fill can succeed and
  still leave an empty URL (`:id` with `{id: ""}`). `get` then refuses it
  (`EmptyFilledUrl`). A pattern containing `/` never fills to the empty
  string (`TemplatedKeepsSegments`).
- A key whose value is `undefined` passes the missing-key check, which only
  looks at the key list. It fails later, in the substitution loop, with
  `Parameter for key … is undefined.`

## Model

| member | source | states |
|---|---|---|
| Text.Split | index.ts:5 | `split("/")` gives one more piece than there are separators, and no piece contains the separator |
| Text.JoinSplit | index.ts:5 | joining the pieces of a split with the separator gives back the original string |
| Text.Join | index.ts:26 | `join` puts the separator between the pieces and starts with the first piece; `JoinSplit` and `SplitJoin` fix its contents as the inverse of `split` |
| Text.SplitJoin | index.ts:5 | splitting a join of separator-free pieces gives back the pieces |
| Text.SplitAppend | index.ts:5 | splitting `a + "/" + b` gives the pieces of `a` followed by those of `b` |
| Text.SplitWithoutSeparator | index.ts:5 | a string without the separator splits into itself alone |
| Text.ReplaceFirst | index.ts:14 | `replace` with a string pattern returns the string unchanged or one whose length changed by the value's length less the pattern's; `ReplaceFirstSpec` fixes which occurrence is swapped |
| Text.FirstIndexSpec | index.ts:14 | the index `replace` acts on is an occurrence of the pattern with none before it; there is none exactly when the pattern never occurs |
| Text.FirstIndexIs | index.ts:14 | an occurrence with no earlier one is the index `replace` finds |
| Text.ReplaceFirstSpec | index.ts:14 | `replace` with a string pattern leaves the string alone when the pattern is absent; otherwise it swaps the first occurrence for the value and keeps everything before and after |
| Text.ReplaceFirstAtStart | index.ts:14 | a pattern at the start of the string is the occurrence replaced |
| Text.ReplaceFirstSkipsPrefix | index.ts:14 | a prefix that cannot start the pattern is passed over and kept unchanged |
| Text.ReplaceFirstKeepsCount | index.ts:14 | replacing the pattern by a value with as many copies of a character keeps that character's count |
| UriEncoding.EncodeChar | index.ts:14 | a character is copied exactly when it is unreserved; otherwise it becomes `%` escapes |
| UriEncoding.EncodeURIComponent | index.ts:14 | `encodeURIComponent` output is never shorter than its input, holds only unreserved characters and `%`, and so never contains `:`, `/` or `$` |
| UriEncoding.EncodeIdentity | index.ts:14 | encoding leaves a string unchanged exactly when every character is unreserved |
| UriEncoding.HexDigit | index.ts:14 | a hex digit is `0`-`9` for values below ten and `A`-`F` otherwise, never lower case |
| UriEncoding.PercentBytes | index.ts:14 | the escapes of `n` bytes are `3n` characters, all unreserved or `%` |
| UriEncoding.PercentBytesSpec | index.ts:14 | byte `i` is written at positions `3i`..`3i+2` as `%` and its high and low upper-case hex digits |
| UriEncoding.Utf8 | index.ts:14 | a Unicode scalar value takes one to four bytes, each below 256 |
| UriEncoding.Utf8RoundTrip | index.ts:14 | decoding the UTF-8 bytes of a scalar value gives that value back, and the first byte announces the length |
| UriEncoding.DecodeEncode | index.ts:14 | decoding an encoded string gives the string back |
| UriEncoding.EncodeInjective | index.ts:14 | distinct values encode to distinct texts |
| NumberText.Decimal | index.ts:14 | the decimal form of a number is non-empty, all digits, and starts with `0` only for zero |
| NumberText.DecimalRoundTrip | index.ts:14 | reading the decimal digits back gives the number |
| NumberText.IntegerText | index.ts:14 | the text of a number is non-empty, starts with `-` exactly for a negative number, and is digits otherwise; `IntegerRoundTrip` fixes its value |
| NumberText.IntegerRoundTrip | index.ts:14 | the string form of an integer reads back as that integer, so distinct numbers encode differently |
| Template.Markers | index.ts:6-7 | a name is among the markers exactly when `:` + name is one of the pieces; there are no more names than pieces |
| Template.MarkersAppend | index.ts:6-7 | the markers of two runs of pieces are the markers of the first followed by those of the second |
| Template.ExtractParams | index.ts:3-8 | a name is extracted exactly when `:name` is a `/`-separated piece of the URL; names hold no `/`; there are at most as many names as pieces |
| Template.ExtractParamsAppend | index.ts:3-8 | the names of `a/b` are those of `a` followed by those of `b`, in order, repeats kept |
| Template.ExtractParamsSegment | index.ts:3-8 | a single piece gives its own name when it starts with `:`, and nothing otherwise |
| Template.Missing | index.ts:25 | the filter keeps no more names than it is given; `MissingSpec` and `MissingAppend` fix which names and their order |
| Template.MissingSpec | index.ts:24-25 | a name is missing exactly when it is extracted and the map has no key for it |
| Template.MissingAppend | index.ts:25 | filtering a concatenation filters each part |
| Template.Encoded | index.ts:14 | an encoded value never contains `:`, `/` or `$` |
| Template.Substituted | index.ts:10-17 | substitution succeeds exactly when every key has a value other than `undefined`; it can fail only with an undefined-parameter error |
| Template.SubstitutedFailsAt | index.ts:12-13 | when key `i` is the first without a value, substitution fails naming exactly that key |
| Template.ReplaceParams | index.ts:10-17 | the loop computes `Substituted`: each key in order replaces the first remaining `:key` with its encoded value, and stops at the first undefined value |
| Template.Templated | index.ts:19-29 | no markers gives the no-parameters error; otherwise the missing-parameters error exactly when some name has no key, listing all such names; success exactly when there are markers and every one is defined |
| Template.UrlTemplate | index.ts:19-29 | `urlTemplate` computes `Templated` |
| Template.Fill | index.ts:12-15 | filling replaces each marker piece by its encoded value, keeping the number of pieces |
| Template.SubstitutedSkipsPrefix | index.ts:14 | text without `:` in front of the URL is never altered by substitution |
| Template.SubstitutedMarkerFirst | index.ts:12-15 | a leading marker is replaced by its value and the rest is substituted as before |
| Template.SubstitutedPlainFirst | index.ts:12-15 | a leading piece without `:` is kept and the rest is substituted as before |
| Template.SubstitutedFillsMarkers | index.ts:10-17 | when only marker pieces hold `:`, substituting the extracted names gives exactly the piece-by-piece fill, repeated names included |
| Template.TemplatedFillsMarkers | index.ts:19-29 | a URL whose markers are all defined, and whose other pieces hold no `:`, templates to its piece-by-piece fill |
| Template.SubstitutedKeepsSlashes | index.ts:10-17 | substitution neither adds nor removes a `/` |
| Template.TemplatedKeepsSegments | index.ts:19-29 | a filled URL has as many `/`-pieces as the pattern, and a pattern with a `/` never fills to the empty string |
| Template.UndefinedValueFailsLate | index.ts:13 | when every name has a key but some value is `undefined`, templating passes the missing-key check and fails naming the first such key |
| TemplateScenarios.ResourcePath | index.ts:19-29 | `/<resource>/:<key>` fills to `/<resource>/<encoded value>` |
| TemplateScenarios.NumericIdentifier | index.ts:19-29 | `/users/:id` with `{id: 42}` gives `/users/42` |
| TemplateScenarios.EscapedSpace | index.ts:14 | `/search/:q` with `{q: "a b"}` gives `/search/a%20b` |
| TemplateScenarios.InlineMarkerCapturesReplacement | index.ts:14 | `/a:id/:id` with `{id: "7"}` gives `/a7/:id`: the first textual `:id` is replaced, inside a fixed segment |
| TemplateScenarios.RepeatedMissing | index.ts:25-26 | `/:a/:b/:a` with an empty map reports `a`, `b`, `a` as missing |
| TemplateScenarios.NoMarkers | index.ts:22 | `/users` is refused whatever the map |
| TemplateScenarios.BareMarkerEmptyValue | index.ts:19-29 | `:id` with `{id: ""}` fills to the empty string |
| Messager.ExtractData | index.ts:31-35 | text exactly for `application/text`, JSON exactly for `application/json`, nothing for any other or absent content type |
| Messager.Settle | index.ts:63-68 | a failed response carries no data; a successful one carries the payload `ExtractData` selects for its content type, tagged with the schema |
| Messager.BearerHeaders | index.ts:53-56 | the installed headers have an `Authorization` and a `connection` entry; `BearerRoundTrip` fixes them to exactly these two and reads the token back |
| Messager.BearerRoundTrip | index.ts:53-56 | the installed headers are exactly `Authorization` and `connection: keepalive`, and the token reads back unchanged |
| Messager.TheMessager.constructor | index.ts:38-40 | the builder starts with an empty URL, no schema and empty options |
| Messager.TheMessager.Url | index.ts:42-45 | without a map the pattern is stored verbatim; with one, the filled URL is stored, or the error is returned and the old URL kept; schema and options untouched |
| Messager.TheMessager.SetSchema | index.ts:47-50 | the schema is set; URL and options untouched |
| Messager.TheMessager.WithBearerToken | index.ts:52-58 | the headers become the bearer headers for this token, replacing earlier ones; URL and schema untouched |
| Messager.TheMessager.Get | index.ts:60-69 | refused, with its message, exactly when the URL is empty; otherwise it sends the stored URL and options with no method or body, and replies per `Settle` |
| Messager.TheMessager.Post | index.ts:71-81 | refused exactly when the URL is empty; otherwise it sends the stored options with the body and method `POST`, and replies per `Settle` |
| Messager.TheMessager.Patch | index.ts:83-93 | as `Post`, with method `PATCH` |
| Messager.TheMessager.Delete | index.ts:95-98 | always sends, empty URL included, with method `DELETE` and no body, and returns the response unread under `req` |
| MessagerScenarios.AuthorisedGet | index.ts:42-69 | templating `/users/:id`, adding a token and calling `get` sends `/users/42` with that token and replies per `Settle` |
| MessagerScenarios.ReplacedToken | index.ts:52-58 | a second `withBearerToken` leaves only the second token |
| MessagerScenarios.FailedFillKeepsUrl | index.ts:42-45 | a refused fill leaves the previously set URL in place |
| MessagerScenarios.EmptyFilledUrl | index.ts:42-45 | a fill to the empty string makes `get` refuse, while `delete` sends the empty URL |
| MessagerScenarios.BeforeUrl | index.ts:60-98 | on a fresh builder, `get`, `post` and `patch` are refused and `delete` sends `""` |

## Left out

- `fetch` and the `async` flow: each verb receives the response as a parameter, so network failures (rejected promises) are not modelled.
- The body of a response (`text()`, `json()`) and its contents: the model records only which reader is used.
- Schema validation: `Data` records that the data passes through the schema. The outcome of `parse` is not modelled. Neither is its exception, nor the `??` fallback to the raw data when `parse` returns `null` or `undefined`.
- `JSON.stringify`: `post` and `patch` take the body already serialised. A missing body gives no body.
- Concurrent calls that share the static state: the model is sequential.
- Numbers that are not integers, `NaN`, `Infinity`, and integers above 2^53 in magnitude: `Value.Num` holds only integers of magnitude at most 2^53 (the type `NumberText.Integral`), so such values cannot be given to the model. JavaScript writes larger integers as their shortest rounded digits padded with zeros (2^64 gives `18446744073709552000`), and from 10^21 on in exponent form (`1e+21`, encoded as `1e%2B21`); the model does not compute that rounding.
- Other run-time value types, such as `null`, objects and booleans, that the declared `Record<string, string | number>` does not prevent.
- Lone surrogates, for which `encodeURIComponent` throws `URIError`: a Dafny `char` here is always a Unicode scalar value.
- `Headers.get`'s case-insensitive lookup and its joining of repeated header values: the content type is given as one optional string.
- The order of `Object.keys`: only membership is used, as in the source.
- The `$` patterns of `String.prototype.replace`: the replacement is always an `encodeURIComponent` result, which never contains `$`, so `Text.ReplaceFirst` requires `'$' !in v`.
- Returning `this` for chaining: the methods are called one after the other on the same object.
- The error texts are defined by `Template.Message` (one per templating failure); no property of them is proved.
- Messager.TheMessager.Url, Messager.TheMessager.SetSchema, Messager.TheMessager.WithBearerToken: subclasses of the `abstract` class are not modelled. On a subclass, `url` and `schema` create that subclass's own static `_url` and `_schema`, while `withBearerToken` mutates the one `config` object inherited from `TheMessager`, so a token set through any subclass is sent by every class in the hierarchy. The model has one object with three independent fields, and it does not capture this sharing of `config` or the per-subclass URL and schema.
