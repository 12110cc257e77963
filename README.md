# couch-gag metrics endpoint: request and response micro-protocol

This project models the string-handling core of a small metrics endpoint
written in Rust. The endpoint reads a raw HTTP request and splits it with
`str::split`. From the request line it takes the target and turns it into a
path and an ordered list of query `(key, value)` pairs. It also collects the
`name: value` header lines, classifies the verb, and checks the path against
three routes. Four scanners fill a `Metric` record from the query pairs, each
keeping the last parameter whose key contains its word. On the way out, the
response header lines are appended to the response text, and fixed CORS and
content-type entries are inserted into a header map.

Modules:

- `Wrappers`: `Option`, and `Result` with the `Panic` a Rust call can raise.
  Indexing piece 1 of a one-piece split is `IndexOutOfBounds`. `unwrap` on a
  failed parse is `UnwrapOnParseError`. `headers.len() - 1` on an empty vector
  is `SubtractWithOverflow`.
- `RustStr`: `find`, `contains`, `split` and `join` on strings, as the Rust
  standard library defines them for a non-empty string pattern, plus the
  last-match scan the loops perform.
- `RustNum`: `str::parse::<u8>`.
- `Url`: the `ReqUrl` record.
- `Utils`: `src/utils/mod.rs`.
- `Metrics`: `src/metrics/mod.rs`.
- `HeaderMaps`: the `HashMap<String, String>` the builders mutate. It is a
  class holding an unordered map.
- `Cors`: `src/cors/mod.rs`.
- `ContentType`: `src/content_type/mod.rs`.
- `Scenarios`: one concrete metrics request followed through the parser and
  the scanners.

Each looping Rust function is a Dafny `method` with the same loop, proved
against a recursive specification function. The properties are proved as
lemmas about that function. The header-map builders are methods on the
`HeaderMap` class, specified by pure functions on maps.

Where the code and its prose description differ, the model follows the code:

- Header extraction looks at every `\r\n` line, the request line included.
- The CORS `Access-Control-Allow-Methods` value is `OPTIONS, GET`. `POST` is
  not listed.
- In the response, the `\n` after a header is left out whenever that header
  is equal to the final one, wherever it stands in the list.
- A header value is cut at the line's second `": "`, since only pieces 0 and
  1 of the split are kept (src/utils/mod.rs:110-111); the line is not split
  once into a name and the rest.
- A query value is cut at its fragment's second `=` for the same reason
  (src/utils/mod.rs:87-91); a fragment is not required to split into exactly
  two parts.
- A trailing `?` (an empty query) panics rather than giving no parameters:
  the empty query splits into one empty fragment, which has no piece 1
  (src/utils/mod.rs:82-90).
- The configuration lookup selects the last line that contains the key
  anywhere, not a line whose key equals it, and it panics when no line holds
  the key instead of giving an empty value (src/utils/mod.rs:34, 40-41).

## Model

| member | source | states |
|---|---|---|
| Utils.RequestLine | src/utils/mod.rs:66-67 | the request line is the text before the first `\r\n` (the whole request when there is none) |
| Utils.FragmentPair | src/utils/mod.rs:87-91 | a query fragment yields a pair exactly when it contains `=`; otherwise indexing piece 1 panics |
| Utils.FragmentPairPieces | src/utils/mod.rs:87-91 | the key is the text before the fragment's first `=`; the value is the text between its first and second `=` |
| Utils.QueryPairs | src/utils/mod.rs:84-92 | the fragments parse exactly when every one contains `=`; then there is one pair per fragment, in order, each that fragment's pair |
| Utils.GetUrlFromReq | src/utils/mod.rs:64-99 | the loop returns `UrlOf(req)`: the parsed target, or the `IndexOutOfBounds` panic of the first fragment without `=` |
| Utils.UrlOfSingleToken | src/utils/mod.rs:66-75 | a request line with no space is the whole path, with no query parameters |
| Utils.UrlOfTarget | src/utils/mod.rs:77-98 | otherwise the path is the second space-separated token up to its first `?`; with no `?` there are no parameters; with one, the parameters are those of the text between the first and second `?`, or the parse panics |
| Utils.EmptyQueryPanics | src/utils/mod.rs:82-90 | an empty query (after a trailing `?`) has one fragment without `=` and panics |
| Utils.FragmentRoundTrip | src/utils/mod.rs:87-91 | a fragment `k=v` whose key and value hold no `&` or `=` parses to `(k, v)` |
| Utils.SplitJoinQuery | src/utils/mod.rs:84 | a query written from such pairs splits at `&` into exactly their fragments |
| Utils.QueryPairsOfFragments | src/utils/mod.rs:86-92 | those fragments parse back to exactly the pairs, in order |
| Utils.QueryRoundTrip | src/utils/mod.rs:84-92 | parsing the query written from a non-empty list of such pairs gives the list back |
| Utils.FragmentJoinBack | src/utils/mod.rs:87-91 | a fragment holding exactly one `=` is rewritten by its pair as itself |
| Utils.QueryJoinBack | src/utils/mod.rs:84-92 | a query whose fragments each hold exactly one `=` parses, and joining the pairs with `=` and `&` reproduces the query |
| Utils.RequestRoundTrip | src/utils/mod.rs:64-99 | a request `verb path?query version\r\n...` yields exactly that path and those pairs, whatever the later lines hold |
| Utils.GetPathOfRequest | src/utils/mod.rs:101-103 | for a request that parses, `get_path` gives the whole request line when the line has no space; otherwise it gives the second space-separated token up to its first `?`, and that sanitized path holds neither `?` nor a space |
| Utils.HeaderOfPieces | src/utils/mod.rs:109-111 | a header's name is the text before the line's first `": "`; its value is the text between the first and second `": "` |
| Utils.GetHeadersOffReq | src/utils/mod.rs:105-115 | the loop returns `HeadersOf` of the request's `\r\n` lines |
| Utils.HeaderIndicesArePositions | src/utils/mod.rs:107-113 | `HeaderIndices` lists, in increasing order, exactly the positions of the lines holding `": "` |
| Utils.HeadersFollowLines | src/utils/mod.rs:105-115 | there is one header per such line, in line order, each built from that line; all other lines are skipped |
| Utils.GetHttpMethod | src/utils/mod.rs:117-129 | the verb is always one of `GET`, `POST`, `OPTIONS`, `OTHER`; it is chosen by containment in the first line only, with `GET` before `POST` before `OPTIONS`, and each case is an if-and-only-if |
| Utils.IsValidPath | src/utils/mod.rs:145-155 | a path is valid exactly when it is `/`, `/ping` or `/metric` |
| Utils.GetKeyValuePairFromEnv | src/utils/mod.rs:25-43 | the last `\n` line containing `key` is selected; the result is its text between the first and second `=`; no such line, or a selected line without `=`, is the `IndexOutOfBounds` panic |
| Utils.AddHeadersToResponse | src/utils/mod.rs:159-167 | an empty list panics on `len() - 1`; otherwise the old response is kept as a prefix and each header's line follows in order, with `\n` after it unless it equals the final header |
| Utils.RenderedPrefix | src/utils/mod.rs:161-166 | while no header equals the final one, the appended text is the lines joined by `\n`, each followed by `\n` |
| Utils.RenderedLast | src/utils/mod.rs:163-165 | the final header gets no `\n` after it |
| Utils.RenderedDistinctIsJoin | src/utils/mod.rs:159-167 | when no earlier header equals the final one, the appended text is the header lines joined by `\n`, with no trailing newline |
| Utils.RepeatedFinalHeader | src/utils/mod.rs:163-165 | two copies of the final header are written back to back, with no separator between them |
| Metrics.GetMetric | src/metrics/mod.rs:22-29 | the record's four fields are the four arguments |
| Metrics.MetricTypeAsString | src/metrics/mod.rs:31-43 | every wire name starts with `couch-gag-` and has more after it |
| Metrics.MetricTypeAsStringInjective | src/metrics/mod.rs:31-43 | distinct metric types have distinct wire names |
| Metrics.MetricTypeOfValueTable | src/metrics/mod.rs:80-94 | the five words `story-view`, `page-view`, `share`, `button-click` and `base` map one-to-one onto the types other than `Error`; every other value maps to `Error` |
| Metrics.GetMetricSubfieldOffQueryParams | src/metrics/mod.rs:45-53 | the value of the last pair whose key contains `subfield`, or `""` |
| Metrics.GetValOffQueryParams | src/metrics/mod.rs:55-63 | the call succeeds exactly when every pair whose key contains `value` parses as a `u8`; a failure is the `unwrap` panic; on success the result is the last such pair's number, or 0 |
| Metrics.GetTargetStringOffQueryParams | src/metrics/mod.rs:65-73 | the value of the last pair whose key contains `target`, or `""` |
| Metrics.GetMetricTypeOffQueryParam | src/metrics/mod.rs:75-99 | the type named by the last pair whose key contains `metric`, or `Base` |
| RustStr.LastContainingIsLast | src/metrics/mod.rs:47-51 | the index the overwrite-on-match scan ends with holds a match, with no match after it; with no index there is no match at all |
| RustStr.SplitJoin | src/utils/mod.rs:84 | joining the pieces of a split with its separator gives back the string |
| RustStr.JoinSplit | src/utils/mod.rs:84 | splitting at a one-character separator that the pieces avoid gives back the pieces |
| RustNum.ParseU8RoundTrip | src/metrics/mod.rs:59 | parsing the decimal spelling of a byte gives the byte |
| RustNum.ParseU8Plus | src/metrics/mod.rs:59 | a leading `+` is accepted |
| RustNum.ParseU8RejectsOverflow | src/metrics/mod.rs:59 | a number above 255 is rejected, not wrapped |
| RustNum.ParseU8RejectsNonDigit | src/metrics/mod.rs:59 | any character other than a digit (apart from one leading `+`) is rejected, including a `-` sign |
| HeaderMaps.HeaderMap.Insert | src/cors/mod.rs:5-8 | the key maps to the new value, replacing any old one, and every other entry is unchanged |
| Cors.WithCors | src/cors/mod.rs:4-21 | the keys become the old keys plus the four CORS keys; Allow-Origin, Request-Methods and Allow-Headers are `*`, Allow-Methods is `OPTIONS, GET`; every other key keeps its value |
| Cors.AddCorsToHeaders | src/cors/mod.rs:4-21 | the four inserts leave the map equal to `WithCors` of the old map |
| Cors.WithCorsIdempotent | src/cors/mod.rs:4-21 | adding the CORS headers twice gives the same map as adding them once |
| Cors.AllowMethodsOmitsPost | src/cors/mod.rs:13-16 | the allowed methods contain `GET` but not `POST` |
| ContentType.WithContentType | src/content_type/mod.rs:3-8 | the keys become the old keys plus `Content-Type`, whose value is `application/json` whatever it was; every other key keeps its value |
| ContentType.AddContentTypeToHeaders | src/content_type/mod.rs:4-7 | the insert leaves the map equal to `WithContentType` of the old map |
| ContentType.WithContentTypeIdempotent | src/content_type/mod.rs:3-8 | adding the content type twice gives the same map as adding it once |
| Scenarios.ButtonClickRequest | src/utils/mod.rs:64-99 | the request line `GET /metric?` + the query written from the pairs `metric=button-click`, `subfield=home`, `target=feed`, `value=7` + ` HTTP/1.1` parses to path `/metric` (a valid route) and those four pairs, in order |
| Scenarios.ButtonClickMetricKey | src/metrics/mod.rs:78-79 | on those pairs the metric scanner selects the first pair |
| Scenarios.ButtonClickSubfieldKey | src/metrics/mod.rs:47-48 | the subfield scanner selects the second pair |
| Scenarios.ButtonClickTargetKey | src/metrics/mod.rs:67-68 | the target scanner selects the third pair |
| Scenarios.ButtonClickValueKey | src/metrics/mod.rs:57-58 | the value scanner selects the fourth pair |
| Scenarios.ButtonClickValues | src/metrics/mod.rs:80-94 | the selected values name `ButtonClick` and the number 7 |

## Left out

- `file_reader` and `get_env_file` (src/utils/mod.rs:13-60) read `.env` from disk and format `io::Error` kinds. This is file I/O. `GetKeyValuePairFromEnv` takes the file contents as a parameter instead.
- `has_valid_ulysses_key` (src/utils/mod.rs:133-142) calls `HttpRequest::get_header_by_key`, and `http_request` is not part of this model. Its remaining logic is a string comparison with the `GetKeyValuePairFromEnv` result.
- `src/url` is not part of this model. `ReqUrl` is inferred from its construction in src/utils/mod.rs:71-74 and 95-98.
- `src/main.rs` is a demo program unrelated to the protocol logic. The TCP loop, the status line and JSON serialisation of `Metric` do not appear in the modelled files.
- Metrics.MetricTypeAsString: the wildcard arm `_ => "couch-gag-missed-metric-type"` (src/metrics/mod.rs:39) cannot be reached, because the match already covers all six variants, so it has no counterpart.
- Utils.AddHeadersToResponse: the empty list is modelled as the debug-build panic of `headers.len() - 1`. In a release build the subtraction wraps and the loop appends nothing. That outcome is not modelled.
- Utils.GetHttpMethod and Utils.AddHeadersToResponse: the `&mut String` out-parameter is a returned value. For the verb, the old contents are always overwritten. For the response, they are the `response` argument.
- HeaderMaps.HeaderMap: the iteration order of a `HashMap` is unspecified and is not modelled. The map is unordered.
- Panics are results, not aborts. The model does not distinguish a panic's message or the thread unwinding.
- Rust strings are UTF-8 bytes, and `split` and `find` work on bytes. The model works on sequences of characters. For the ASCII separators used here, the pieces are the same.
