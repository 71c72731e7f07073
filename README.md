# Web search launcher handler, modelled in Dafny

This project models the `webSearch` inline handler of a launcher plugin. The
handler receives the text typed into the launcher's command box. If the text
starts with the case-sensitive prefix `web`, it removes that prefix and any
white space after it, trims the rest and, if something is left, builds a Google
search URL for it:

    https://www.google.com/search?q=<encodeURIComponent(query)>

Otherwise it renders nothing. The handler exists twice: authored in
`src/webSearch.tsx` and as the compiled build output in `js/web-search.js`.
Both are modelled, and the compiled version is proved equal to the source
version for every input.

Modules, one per concern:

- `Wrappers`: `Option`, the "renders nothing" answer.
- `JsString`: the ECMAScript string operations the handler uses. These are the
  white-space class shared by `\s` and `String.prototype.trim`, `startsWith`,
  `trim` (`TrimStart` and `TrimEnd`), and the greedy `^web\s*` replacement
  (`ReplaceLeading`).
- `Utf8`: the UTF-8 byte form of one character and the decoder that reads it
  back, as defined by RFC 3629.
- `UriEncoding`: `encodeURIComponent` as in section 19.2.6 of ECMA-262 (the
  URI Handling Functions and their Encode operation). Its partner is a
  percent-decoder (RFC 3986, section 2.1) followed by UTF-8 decoding.
- `WebSearch`: the handler of `src/webSearch.tsx`, split into `ParseQuery` (the
  guard, strip, trim and empty check), `SearchUrl` and `WebSearch`.
- `WebSearchJs`: the compiled handler of `js/web-search.js`, written inline as
  the build output has it.

Modelling choices:

- A Dafny `char` is a Unicode scalar value, and a code point is the unit the
  model encodes. One JavaScript surrogate pair is one `char` here.
- The white-space class is written out in full. It holds ECMA-262 WhiteSpace
  (TAB, VT, FF, SP, NBSP, ZWNBSP and the Unicode `Zs` code points) and
  LineTerminator (LF, CR, LS, PS). `\s` and `trim` share this one predicate.
- `searchQuery.length === 0` is modelled as "the string is empty". A count of
  UTF-16 code units is zero exactly when the string is empty.

The larger behaviour around this handler is not in the code that implements
it: engine prefixes such as `g!`, the alias table, history, suggestions and
similarity ranking. The code hard-wires the keyword `web` and the Google
endpoint, and the model follows the code.

## Model

| member | source | states |
|---|---|---|
| `JsString.IsWhitespace` | src/webSearch.tsx:19 | The one character class shared by `\s` and `trim()`: ECMA-262 WhiteSpace (TAB, VT, FF, SP, NBSP, ZWNBSP, Unicode `Zs`) and LineTerminator (LF, CR, LS, PS). It is a definition with no contract; `TrimStart`, `TrimEnd`, `Trim`, `ReplaceLeading` and `RejectsBlankQueries` state its effect. |
| `JsString.StartsWith` | src/webSearch.tsx:15 | `startsWith("web")` at position 0, also js/web-search.js:7. It is a definition with no contract; `ParseQuery`, `WebSearch` and `RejectsOtherPrefixes` state what the guard admits and rejects. |
| `JsString.TrimStart` | src/webSearch.tsx:19 | The result is a suffix of the input, everything removed is white space, and the result does not start with white space. So the longest white-space prefix is removed, as greedy `\s*` and `trim` do. |
| `JsString.TrimEnd` | src/webSearch.tsx:19 | The result is a prefix of the input, everything removed is white space, and the result does not end with white space. |
| `JsString.Trim` | src/webSearch.tsx:19 | The result has no white space at either end, and the input is the result with only white space before and after it. |
| `JsString.ReplaceLeading` | src/webSearch.tsx:19 | `replace(/^web\s*/, "")`: text not starting with the keyword is unchanged. Otherwise the result is what remains after the keyword and a run of white space, and it does not start with white space, so the match is greedy. |
| `JsString.TrimUnique` | src/webSearch.tsx:19 | If the input is a string with no white space at its ends, surrounded only by white space, then `Trim` returns exactly that string. Together with `Trim`'s postcondition this determines `trim()` completely. |
| `JsString.TrimIdempotent` | src/webSearch.tsx:19 | Trimming twice gives the same result as trimming once. |
| `Utf8.EncodeChar` | src/webSearch.tsx:25-27 | A character takes 1, 2, 3 or 4 bytes, exactly as the RFC 3629 ranges say. An ASCII character is its own byte, and every byte after the first is a continuation byte. |
| `Utf8.DecodeFirstEncodeChar` | src/webSearch.tsx:25-27 | Whatever bytes follow, the decoder reads back exactly the encoded character and consumes exactly its bytes. |
| `Utf8.DecodeEncode` | src/webSearch.tsx:25-27 | Decoding the UTF-8 form of any string gives the string back. |
| `UriEncoding.EncodeChar` | src/webSearch.tsx:25-27 | One step of `encodeURIComponent`: a character becomes 1 to 12 output characters, and it is left as itself exactly when it is unreserved. |
| `UriEncoding.Encode` | src/webSearch.tsx:25-27 | `encodeURIComponent`. It is total, because `char` cannot be a lone surrogate. The output is at least as long as the input and at most twelve times as long. |
| `UriEncoding.EncodeAppend` | src/webSearch.tsx:25-27 | Encoding a concatenation is the concatenation of the encodings. |
| `UriEncoding.EncodeUnreservedWord` | src/webSearch.tsx:25-27 | A string of unreserved characters passes through unchanged. |
| `UriEncoding.EncodeShape` | src/webSearch.tsx:25-27 | The output consists only of unreserved characters (ASCII letters, digits, `-_.!~*'()`) and `%HH` triplets with upper-case hex digits. |
| `UriEncoding.EncodedCharacters` | src/webSearch.tsx:25-27 | Every character of such output is unreserved or `%`. |
| `UriEncoding.NoDelimiters` | src/webSearch.tsx:25-27 | Such output contains no `&`, `=`, `#`, `?`, `+` or space. |
| `UriEncoding.PercentDecodeOfEncode` | src/webSearch.tsx:25-27 | Percent-decoding the output gives the UTF-8 bytes of the input. |
| `UriEncoding.DecodeEncode` | src/webSearch.tsx:25-27 | Round trip: percent-decoding and then UTF-8-decoding the output gives back the input exactly. |
| `UriEncoding.EncodeInjective` | js/web-search.js:14 | Distinct strings have distinct encodings. |
| `UriEncoding.SpaceIsPercent20` | src/webSearch.tsx:25-27 | A space is encoded as `%20`, not `+`. |
| `WebSearch.ParseQuery` | src/webSearch.tsx:15-23 | There is no query exactly when the text does not start with `web`, or when nothing but white space follows it. A query is non-empty, has no white space at either end, and is the text after `web` without the white space around it. |
| `WebSearch.ParseQueryComplete` | src/webSearch.tsx:19-23 | Converse of `ParseQuery`: text that starts with `web`, followed by white space, then a non-empty string with no white space at its ends, then white space, parses to exactly that string. |
| `WebSearch.ParseQueryRoundTrip` | src/webSearch.tsx:19-23 | `web`, then any run of white space (possibly empty), then a trimmed non-empty query parses back to that query. |
| `WebSearch.ParseQueryWithSpace` | src/webSearch.tsx:19-23 | `"web " + q` parses to `q` for every trimmed non-empty `q`. |
| `WebSearch.RejectsOtherPrefixes` | src/webSearch.tsx:15-17 | `Web x` and `search x` give no query and no URL: the prefix test is case-sensitive and positional. |
| `WebSearch.RejectsBlankQueries` | src/webSearch.tsx:21-23 | `web`, `web   ` and `web` followed by a tab and a newline give no query. |
| `WebSearch.KeywordNeedsNoSeparator` | src/webSearch.tsx:19 | White space after `web` is optional: `website foo` searches for `site foo`. |
| `WebSearch.WebSearch` | src/webSearch.tsx:12-27 | The handler gives no URL exactly when the text does not start with `web` or only white space follows it. Any URL it gives starts with the fixed Google endpoint. |
| `WebSearch.SearchUrl` | src/webSearch.tsx:25-27 | The URL template, also js/web-search.js:14: every URL starts with the Google endpoint and is at least as long as the endpoint plus the query. `SearchUrlDecodes` proves that its query part decodes back to the query. |
| `WebSearch.SearchUrlDecodes` | src/webSearch.tsx:25-27 | A search URL is the Google endpoint followed by an encoded component, and that component decodes back to the query. |
| `WebSearch.WebSearchDecodes` | src/webSearch.tsx:19-27 | When the handler gives a URL, its query part decodes to exactly the query parsed from the text. |
| `WebSearch.SearchUrlInjective` | src/webSearch.tsx:25-27 | Distinct queries give distinct URLs. |
| `WebSearch.NoDelimitersInQuery` | src/webSearch.tsx:25-27 | After the endpoint, the URL contains no `&`, `=`, `#`, `?`, `+` or space, so a query cannot add a parameter or a fragment. |
| `UriEncoding.SpaceBetweenWords` | src/webSearch.tsx:25-27 | Two unreserved words joined by a space are encoded as the words joined by `%20`. |
| `WebSearch.HelloWorldUrl` | src/webSearch.tsx:15-27 | `web hello world` opens `https://www.google.com/search?q=hello%20world`. |
| `WebSearchJs.WebSearch` | js/web-search.js:4-14 | The compiled handler gives, for every text, the same result and the same URL as the source handler. |
| `WebSearchJs.CompiledResult` | js/web-search.js:7-14 | The compiled handler gives no URL exactly when the text does not start with `web` or only white space follows it. Otherwise its URL starts with the Google endpoint, and its query part decodes to the trimmed query. |
| `WebSearchJs.SameUrlSameQuery` | js/web-search.js:14 | Two texts that give the same result (the same URL, or both nothing) have the same parsed query. |

## Left out

- The JSX rendering: `Inline`, `ActionPanel`, `Action` and the two `Content.H3` labels. This is presentation only.
- The `onAction` closure, which runs `xdg-open` through `Deno.Command` with the URL as its argument. This covers the `LD_LIBRARY_PATH` override in the source version and its `cmd.output()` followed by `cmd.spawn()`, which runs the command twice. It is asynchronous process I/O, and the model only produces the URL it would be given.
- The `console.log` and `console.error` calls. They are side effects with no logic.
- The base64 source-map comment of the compiled file. It is build metadata.
- The `URIError` that `encodeURIComponent` throws for a lone UTF-16 surrogate. A Dafny `char` is a Unicode scalar value, so such a string cannot be written. Strings are modelled as sequences of code points, not of UTF-16 code units.
- `Zs`, the Unicode space-separator category, is taken as it stands in current Unicode (U+0020, U+00A0, U+1680, U+2000 to U+200A, U+202F, U+205F, U+3000). The engine's own Unicode version is not modelled.
- `UriEncoding.DecodeComponent` is the partner used to state the round trip, not a model of `decodeURIComponent`. It accepts only unreserved characters and `%HH` triplets (hex digits of either case), where `decodeURIComponent` passes other characters through.
