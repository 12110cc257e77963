/** Request parsing and response helpers of the endpoint: the request target
    and its query string, the header lines, the verb, the route whitelist, the
    `KEY=VALUE` configuration lookup and the rendering of header lines. Each
    Rust panic (indexing piece 1 of a split that has one piece, subtracting 1
    from an empty vector's length) is an `Err` result. */
module Utils {
  import opened Wrappers
  import opened RustStr
  import opened Url

  // ---------------------------------------------------------------------
  // get_url_from_req

  /** The first `\r\n`-separated line of a request. */
  function RequestLine(req: string): (line: string)
    ensures line == Before(req, "\r\n")
  {
    SplitHead(req, "\r\n");
    Split(req, "\r\n")[0]
  }

  /** The pair the parser takes from one `&`-separated query fragment: pieces 0
      and 1 of its split on `=`, or `None` where indexing piece 1 panics. */
  function FragmentPair(kv: string): (r: Option<(string, string)>)
    ensures r.None? <==> !Contains(kv, "=")
  {
    SplitHead(kv, "=");
    var pieces := Split(kv, "=");
    if |pieces| > 1 then Some((pieces[0], pieces[1])) else None
  }

  /** A fragment's key is its text before the first `=` and its value the
      text between the first and the second `=`, so a value holding `=` is
      cut short. */
  lemma FragmentPairPieces(kv: string)
    requires Contains(kv, "=")
    ensures FragmentPair(kv) == Some((Before(kv, "="), Before(After(kv, "="), "=")))
  {
    SplitHead(kv, "=");
    SplitSecond(kv, "=");
  }

  /** The pairs of a list of query fragments, or `None` as soon as one of them
      has no `=`. */
  function QueryPairs(fragments: seq<string>): (r: Option<seq<(string, string)>>)
    ensures r.Some? <==> forall k :: 0 <= k < |fragments| ==> Contains(fragments[k], "=")
    ensures r.Some? ==> |r.value| == |fragments|
    ensures r.Some? ==> forall k :: 0 <= k < |fragments| ==> FragmentPair(fragments[k]) == Some(r.value[k])
  {
    if fragments == [] then Some([])
    else
      var n := |fragments| - 1;
      match (QueryPairs(fragments[..n]), FragmentPair(fragments[n]))
      case (Some(pairs), Some(p)) => Some(pairs + [p])
      case _ => None
  }

  /** The query parameters of a query string (the text after `?`). */
  function ParseQuery(query: string): Option<seq<(string, string)>> {
    QueryPairs(Split(query, "&"))
  }

  /** What `get_url_from_req` returns for a request, or the panic it raises. */
  function UrlOf(req: string): Result<ReqUrl> {
    var tokens := Split(RequestLine(req), " ");
    if |tokens| <= 1 then Ok(ReqUrl(tokens[0], []))
    else
      var pathParts := Split(tokens[1], "?");
      if |pathParts| > 1 then
        match ParseQuery(pathParts[1])
        case None => Err(IndexOutOfBounds)
        case Some(pairs) => Ok(ReqUrl(pathParts[0], pairs))
      else Ok(ReqUrl(pathParts[0], []))
  }

  /** `get_url_from_req`: the request target of the request line, split into
      the path and the pairs of its query string. */
  method GetUrlFromReq(req: string) returns (url: Result<ReqUrl>)
    ensures url == UrlOf(req)
  {
    var requestVec := Split(req, "\r\n");
    var requestLine := requestVec[0];
    var splitRequestLine := Split(requestLine, " ");
    if |splitRequestLine| <= 1 {
      return Ok(ReqUrl(splitRequestLine[0], []));
    }
    var pathVec := Split(splitRequestLine[1], "?");
    var queryParameters: seq<(string, string)> := [];
    if |pathVec| > 1 {
      var queryParamVec := Split(pathVec[1], "&");
      for i := 0 to |queryParamVec|
        invariant QueryPairs(queryParamVec[..i]) == Some(queryParameters)
      {
        var keyValueVec := Split(queryParamVec[i], "=");
        assert queryParamVec[..i + 1][..i] == queryParamVec[..i];
        if |keyValueVec| <= 1 {
          return Err(IndexOutOfBounds);
        }
        queryParameters := queryParameters + [(keyValueVec[0], keyValueVec[1])];
      }
      assert queryParamVec[..|queryParamVec|] == queryParamVec;
    }
    url := Ok(ReqUrl(pathVec[0], queryParameters));
  }

  /** A request line that holds no space is taken whole as the path, with no
      query parameters. */
  lemma UrlOfSingleToken(req: string)
    requires !Contains(RequestLine(req), " ")
    ensures UrlOf(req) == Ok(ReqUrl(RequestLine(req), []))
  {
    SplitHead(RequestLine(req), " ");
    SplitJoin(RequestLine(req), " ");
  }

  /** Otherwise the target is the second space-separated token: the path is
      its text before the first `?`; without a `?` there are no query
      parameters, and with one the query is the text between the first and
      the second `?`, whose parsing decides whether the call panics. */
  lemma UrlOfTarget(req: string)
    requires Contains(RequestLine(req), " ")
    ensures var target := Before(After(RequestLine(req), " "), " ");
      && (!Contains(target, "?") ==> UrlOf(req) == Ok(ReqUrl(target, [])))
      && (Contains(target, "?") ==>
            UrlOf(req) == match ParseQuery(Before(After(target, "?"), "?"))
                          case None => Err(IndexOutOfBounds)
                          case Some(pairs) => Ok(ReqUrl(Before(target, "?"), pairs)))
  {
    var line := RequestLine(req);
    SplitHead(line, " ");
    SplitSecond(line, " ");
    var target := Before(After(line, " "), " ");
    SplitHead(target, "?");
    if Contains(target, "?") {
      SplitSecond(target, "?");
    } else {
      SplitJoin(target, "?");
    }
  }

  /** An empty query, as after a trailing `?`, has one fragment with no `=`
      and makes the parser panic. */
  lemma EmptyQueryPanics()
    ensures ParseQuery("") == None
  {
    assert Split("", "&") == [""];
    assert !Contains("", "=");
  }

  /** The fragment `key=value` written for one parameter. */
  function Fragment(p: (string, string)): string {
    p.0 + "=" + p.1
  }

  /** The fragments written for a list of parameters. */
  function Fragments(pairs: seq<(string, string)>): (fragments: seq<string>)
    ensures |fragments| == |pairs|
    ensures forall k :: 0 <= k < |pairs| ==> fragments[k] == Fragment(pairs[k])
  {
    seq(|pairs|, k requires 0 <= k < |pairs| => Fragment(pairs[k]))
  }

  /** The query string written for a list of parameters. */
  function JoinQuery(pairs: seq<(string, string)>): string {
    Join(Fragments(pairs), "&")
  }

  /** A key or value that the query syntax cannot misread. */
  predicate PlainWord(w: string) {
    '&' !in w && '=' !in w
  }

  /** One fragment `key=value` parses back to its pair. */
  lemma FragmentRoundTrip(p: (string, string))
    requires PlainWord(p.0) && PlainWord(p.1)
    ensures FragmentPair(Fragment(p)) == Some(p)
  {
    FirstSeparatorAfter(p.0, "=", p.1);
    AbsentHeadChar(p.1, "=");
    FragmentPairPieces(Fragment(p));
  }

  /** The fragments of plain words split apart again at each `&`. */
  lemma SplitJoinQuery(pairs: seq<(string, string)>)
    requires |pairs| >= 1
    requires forall k :: 0 <= k < |pairs| ==> PlainWord(pairs[k].0) && PlainWord(pairs[k].1)
    ensures Split(JoinQuery(pairs), "&") == Fragments(pairs)
  {
    var fragments := Fragments(pairs);
    assert forall k :: 0 <= k < |pairs| ==> '&' !in fragments[k];
    JoinSplit(fragments, "&");
  }

  /** The fragments of plain words parse back to their pairs. */
  lemma QueryPairsOfFragments(pairs: seq<(string, string)>)
    requires forall k :: 0 <= k < |pairs| ==> PlainWord(pairs[k].0) && PlainWord(pairs[k].1)
    ensures QueryPairs(Fragments(pairs)) == Some(pairs)
  {
    var fragments := Fragments(pairs);
    forall k | 0 <= k < |pairs|
      ensures FragmentPair(fragments[k]) == Some(pairs[k])
    {
      FragmentRoundTrip(pairs[k]);
    }
    assert forall k :: 0 <= k < |fragments| ==> Contains(fragments[k], "=");
    var r := QueryPairs(fragments);
    assert r.Some? && |r.value| == |pairs|;
    assert forall k :: 0 <= k < |pairs| ==> r.value[k] == pairs[k];
    assert r.value == pairs;
  }

  /** Parsing a query made of `key=value` fragments gives back its parameters,
      in order; so joining the parsed pairs with `=` and `&` gives back the
      query string. */
  lemma QueryRoundTrip(pairs: seq<(string, string)>)
    requires |pairs| >= 1
    requires forall k :: 0 <= k < |pairs| ==> PlainWord(pairs[k].0) && PlainWord(pairs[k].1)
    ensures ParseQuery(JoinQuery(pairs)) == Some(pairs)
  {
    SplitJoinQuery(pairs);
    QueryPairsOfFragments(pairs);
  }

  /** A fragment with exactly one `=` is rewritten by its pair as itself. */
  lemma FragmentJoinBack(kv: string)
    requires |Split(kv, "=")| == 2
    ensures FragmentPair(kv).Some? && Fragment(FragmentPair(kv).value) == kv
  {
    SplitHead(kv, "=");
    SplitJoin(kv, "=");
    var pieces := Split(kv, "=");
    assert pieces[1..] == [pieces[1]];
    assert Join(pieces, "=") == pieces[0] + "=" + pieces[1];
  }

  /** The other direction: a query whose every `&`-separated fragment holds
      exactly one `=` parses, and writing its pairs back gives the query. */
  lemma QueryJoinBack(query: string)
    requires forall k :: 0 <= k < |Split(query, "&")| ==> |Split(Split(query, "&")[k], "=")| == 2
    ensures ParseQuery(query).Some? && JoinQuery(ParseQuery(query).value) == query
  {
    var fragments := Split(query, "&");
    forall k | 0 <= k < |fragments|
      ensures FragmentPair(fragments[k]).Some? && Fragment(FragmentPair(fragments[k]).value) == fragments[k]
    {
      FragmentJoinBack(fragments[k]);
    }
    var r := QueryPairs(fragments);
    assert r.Some?;
    assert Fragments(r.value) == fragments;
    SplitJoin(query, "&");
  }

  /** A key or value that also survives the request line around the query. */
  predicate TargetWord(w: string) {
    PlainWord(w) && '?' !in w && ' ' !in w && '\r' !in w
  }

  /** The full request line round trip: a request whose first line is
      `verb path?query version` yields exactly that path and the query's
      parameters, whatever the other lines hold. */
  lemma RequestRoundTrip(verb: string, path: string, pairs: seq<(string, string)>, version: string, rest: string)
    requires ' ' !in verb && '\r' !in verb
    requires '?' !in path && ' ' !in path && '\r' !in path
    requires |pairs| >= 1
    requires forall k :: 0 <= k < |pairs| ==> TargetWord(pairs[k].0) && TargetWord(pairs[k].1)
    requires '\r' !in version
    ensures UrlOf(verb + " " + path + "?" + JoinQuery(pairs) + " " + version + "\r\n" + rest)
         == Ok(ReqUrl(path, pairs))
  {
    var query := JoinQuery(pairs);
    var fragments := Fragments(pairs);
    JoinAvoids(fragments, "&", '\r');
    JoinAvoids(fragments, "&", ' ');
    JoinAvoids(fragments, "&", '?');
    var target := path + "?" + query;
    var tail := target + " " + version;
    var line := verb + " " + tail;
    var req := line + "\r\n" + rest;
    assert verb + " " + path + "?" + query + " " + version + "\r\n" + rest == req;
    FirstSeparatorAfter(line, "\r\n", rest);
    assert RequestLine(req) == line;
    FirstSeparatorAfter(verb, " ", tail);
    FirstSeparatorAfter(target, " ", version);
    FirstSeparatorAfter(path, "?", query);
    AbsentHeadChar(query, "?");
    UrlOfTarget(req);
    QueryRoundTrip(pairs);
  }

  // ---------------------------------------------------------------------
  // get_path

  /** `get_path`: the path of a parsed target. */
  function GetPath(url: ReqUrl): string {
    url.path
  }

  /** The path `get_path` gives for a parsed request: the whole request line
      when it holds no space, and otherwise the second space-separated token
      up to its first `?`, a sanitized path holding neither `?` nor a space. */
  lemma GetPathOfRequest(req: string)
    requires UrlOf(req).Ok?
    ensures var line := RequestLine(req);
      && (!Contains(line, " ") ==> GetPath(UrlOf(req).value) == line)
      && (Contains(line, " ") ==>
            && GetPath(UrlOf(req).value) == Before(Before(After(line, " "), " "), "?")
            && !Contains(GetPath(UrlOf(req).value), "?")
            && !Contains(GetPath(UrlOf(req).value), " "))
  {
    var line := RequestLine(req);
    if !Contains(line, " ") {
      UrlOfSingleToken(req);
    } else {
      UrlOfTarget(req);
      var target := Before(After(line, " "), " ");
      var path := Before(target, "?");
      BeforeIsFree(target, "?");
      BeforeIsFree(After(line, " "), " ");
      ContainsChar(target, " ");
      ContainsChar(path, " ");
      assert forall i :: 0 <= i < |path| ==> path[i] == target[i];
    }
  }

  // ---------------------------------------------------------------------
  // get_headers_off_req

  /** The header a line holding `": "` yields: pieces 0 and 1 of its split on
      `": "`. */
  function HeaderOf(line: string): (string, string)
    requires Contains(line, ": ")
  {
    SplitHead(line, ": ");
    var pieces := Split(line, ": ");
    (pieces[0], pieces[1])
  }

  /** A header's name is the text before the line's first `": "` and its value
      the text between the first and the second `": "`, so a value holding
      `": "` is cut short. */
  lemma HeaderOfPieces(line: string)
    requires Contains(line, ": ")
    ensures HeaderOf(line).0 == Before(line, ": ")
    ensures HeaderOf(line).1 == Before(After(line, ": "), ": ")
    ensures line == HeaderOf(line).0 + ": " + After(line, ": ")
  {
    SplitHead(line, ": ");
    SplitSecond(line, ": ");
  }

  /** The headers of a list of lines, as the extraction loop collects them. */
  function HeadersOf(lines: seq<string>): seq<(string, string)> {
    if lines == [] then []
    else
      var n := |lines| - 1;
      HeadersOf(lines[..n]) + if Contains(lines[n], ": ") then [HeaderOf(lines[n])] else []
  }

  /** `get_headers_off_req`: one header for each `\r\n`-separated line holding
      `": "`, the request line included. */
  method GetHeadersOffReq(request: string) returns (headers: seq<(string, string)>)
    ensures headers == HeadersOf(Split(request, "\r\n"))
  {
    var requestVec := Split(request, "\r\n");
    headers := [];
    for i := 0 to |requestVec|
      invariant headers == HeadersOf(requestVec[..i])
    {
      assert requestVec[..i + 1][..i] == requestVec[..i];
      if Contains(requestVec[i], ": ") {
        SplitHead(requestVec[i], ": ");
        var splitReqPiece := Split(requestVec[i], ": ");
        headers := headers + [(splitReqPiece[0], splitReqPiece[1])];
      }
    }
    assert requestVec[..|requestVec|] == requestVec;
  }

  /** The positions of the lines that hold `": "`, in order. */
  function HeaderIndices(lines: seq<string>): seq<nat> {
    if lines == [] then []
    else
      var n := |lines| - 1;
      HeaderIndices(lines[..n]) + if Contains(lines[n], ": ") then [n] else []
  }

  /** `idx` lists, in increasing order, exactly the positions of the lines that
      hold `": "`. */
  ghost predicate HeaderLinePositions(lines: seq<string>, idx: seq<nat>) {
    && (forall k :: 0 <= k < |idx| ==> idx[k] < |lines| && Contains(lines[idx[k]], ": "))
    && (forall k, l :: 0 <= k < l < |idx| ==> idx[k] < idx[l])
    && (forall j :: 0 <= j < |lines| && Contains(lines[j], ": ") ==> j in idx)
  }

  /** `HeaderIndices` are exactly the header lines' positions, in order. */
  lemma {:induction false} HeaderIndicesArePositions(lines: seq<string>)
    ensures HeaderLinePositions(lines, HeaderIndices(lines))
  {
    if lines != [] {
      var n := |lines| - 1;
      var prefix := lines[..n];
      HeaderIndicesArePositions(prefix);
      var before := HeaderIndices(prefix);
      assert forall j :: 0 <= j < n ==> prefix[j] == lines[j];
      if Contains(lines[n], ": ") {
        assert HeaderIndices(lines) == before + [n];
      } else {
        assert HeaderIndices(lines) == before;
      }
    }
  }

  /** The extracted headers are those of the lines holding `": "`, one each,
      in line order; every other line is skipped. */
  lemma {:induction false} HeadersFollowLines(lines: seq<string>)
    ensures |HeadersOf(lines)| == |HeaderIndices(lines)|
    ensures forall k :: 0 <= k < |HeaderIndices(lines)| ==>
      && HeaderIndices(lines)[k] < |lines| && Contains(lines[HeaderIndices(lines)[k]], ": ")
      && HeadersOf(lines)[k] == HeaderOf(lines[HeaderIndices(lines)[k]])
  {
    if lines != [] {
      var n := |lines| - 1;
      var prefix := lines[..n];
      HeadersFollowLines(prefix);
      var before := HeaderIndices(prefix);
      var found := HeadersOf(prefix);
      assert forall k :: 0 <= k < |before| ==> lines[before[k]] == prefix[before[k]];
      var idx := HeaderIndices(lines);
      var all := HeadersOf(lines);
      if Contains(lines[n], ": ") {
        assert idx == before + [n];
        assert all == found + [HeaderOf(lines[n])];
      } else {
        assert idx == before;
        assert all == found;
      }
      forall k | 0 <= k < |idx|
        ensures idx[k] < |lines| && Contains(lines[idx[k]], ": ") && all[k] == HeaderOf(lines[idx[k]])
      {
        if k < |before| {
          assert all[k] == found[k];
          assert idx[k] == before[k];
        }
      }
    }
  }

  // ---------------------------------------------------------------------
  // get_http_method

  /** `get_http_method`: the verb of the request line, chosen by substring
      containment with `GET` before `POST` before `OPTIONS`, and `OTHER` when
      none occurs. Lines after the first are never looked at. */
  method GetHttpMethod(request: string) returns (verb: string)
    ensures verb in {"GET", "POST", "OPTIONS", "OTHER"}
    ensures verb == "GET" <==> Contains(RequestLine(request), "GET")
    ensures verb == "POST" <==> !Contains(RequestLine(request), "GET") && Contains(RequestLine(request), "POST")
    ensures verb == "OPTIONS" <==>
      !Contains(RequestLine(request), "GET") && !Contains(RequestLine(request), "POST")
      && Contains(RequestLine(request), "OPTIONS")
    ensures verb == "OTHER" <==>
      !Contains(RequestLine(request), "GET") && !Contains(RequestLine(request), "POST")
      && !Contains(RequestLine(request), "OPTIONS")
  {
    var safeReqSplit := Split(request, "\r\n");
    var reqLine := safeReqSplit[0];
    if Contains(reqLine, "GET") {
      verb := "GET";
    } else if Contains(reqLine, "POST") {
      verb := "POST";
    } else if Contains(reqLine, "OPTIONS") {
      verb := "OPTIONS";
    } else {
      verb := "OTHER";
    }
  }

  // ---------------------------------------------------------------------
  // is_valid_path

  /** The routes the endpoint serves. */
  const Routes: set<string> := {"/", "/ping", "/metric"}

  /** `is_valid_path`: exact comparison against the three routes, no prefix
      or wildcard matching. */
  function IsValidPath(path: string): (valid: bool)
    ensures valid <==> path in Routes
  {
    if path == "/" then true
    else if path == "/ping" then true
    else if path == "/metric" then true
    else false
  }

  // ---------------------------------------------------------------------
  // get_key_value_pair_from_env

  /** `get_key_value_pair_from_env`, with the configuration text passed in:
      the last `\n`-separated line that contains `key` anywhere is selected,
      and the result is that line's text between its first and second `=`.
      Without such a line the selection stays empty, and an empty selection or
      one without `=` panics on indexing piece 1. */
  method GetKeyValuePairFromEnv(contents: string, key: string) returns (value: Result<string>)
    ensures var lines := Split(contents, "\n");
      match LastContaining(lines, key)
      case None => value == Err(IndexOutOfBounds)
      case Some(j) =>
        && (value.Ok? <==> Contains(lines[j], "="))
        && (!Contains(lines[j], "=") ==> value == Err(IndexOutOfBounds))
        && (value.Ok? ==> value.value == Before(After(lines[j], "="), "="))
  {
    var contentsVec := Split(contents, "\n");
    var keyPairLoadString := "";
    for i := 0 to |contentsVec|
      invariant keyPairLoadString == match LastContaining(contentsVec[..i], key)
                                     case None => ""
                                     case Some(j) => contentsVec[j]
    {
      LastContainingStep(contentsVec, i, key);
      if Contains(contentsVec[i], key) {
        keyPairLoadString := contentsVec[i];
      }
    }
    assert contentsVec[..|contentsVec|] == contentsVec;
    SplitHead(keyPairLoadString, "=");
    var selectedKeyValueCollection := Split(keyPairLoadString, "=");
    if |selectedKeyValueCollection| <= 1 {
      return Err(IndexOutOfBounds);
    }
    SplitSecond(keyPairLoadString, "=");
    value := Ok(selectedKeyValueCollection[1]);
  }

  // ---------------------------------------------------------------------
  // add_headers_to_response

  /** The text `format!("{}: {}", name, value)` gives for a header. */
  function HeaderLine(h: (string, string)): string {
    h.0 + ": " + h.1
  }

  /** The lines of a list of headers. */
  function HeaderLines(hs: seq<(string, string)>): (lines: seq<string>)
    ensures |lines| == |hs|
  {
    seq(|hs|, k requires 0 <= k < |hs| => HeaderLine(hs[k]))
  }

  /** What the appending loop adds for `hs` when the vector's final header is
      `last`: each header line, followed by `\n` unless the header equals
      `last`. */
  function Rendered(hs: seq<(string, string)>, last: (string, string)): string {
    if hs == [] then ""
    else
      var n := |hs| - 1;
      Rendered(hs[..n], last) + HeaderLine(hs[n]) + if hs[n] != last then "\n" else ""
  }

  /** `add_headers_to_response`, with the `&mut String` buffer passed in and
      returned: the old response stays a prefix and the header lines follow.
      An empty list underflows `headers.len() - 1`. */
  method AddHeadersToResponse(response: string, headers: seq<(string, string)>) returns (r: Result<string>)
    ensures headers == [] ==> r == Err(SubtractWithOverflow)
    ensures headers != [] ==> r == Ok(response + Rendered(headers, headers[|headers| - 1]))
  {
    if |headers| == 0 {
      return Err(SubtractWithOverflow);
    }
    var finalIndex := |headers| - 1;
    var out := response;
    for i := 0 to |headers|
      invariant out == response + Rendered(headers[..i], headers[finalIndex])
    {
      assert headers[..i + 1][..i] == headers[..i];
      out := out + HeaderLine(headers[i]);
      if headers[i] != headers[finalIndex] {
        out := out + "\n";
      }
    }
    assert headers[..|headers|] == headers;
    r := Ok(out);
  }

  lemma {:induction false} RenderedPrefix(hs: seq<(string, string)>, last: (string, string), i: nat)
    requires 1 <= i <= |hs|
    requires forall j :: 0 <= j < i ==> hs[j] != last
    ensures Rendered(hs[..i], last) == Join(HeaderLines(hs)[..i], "\n") + "\n"
  {
    var lines := HeaderLines(hs);
    assert hs[..i][..i - 1] == hs[..i - 1];
    if i == 1 {
      assert lines[..1] == [HeaderLine(hs[0])];
    } else {
      RenderedPrefix(hs, last, i - 1);
      JoinSnoc(lines[..i - 1], lines[i - 1], "\n");
      assert lines[..i - 1] + [lines[i - 1]] == lines[..i];
    }
  }

  /** The final header is rendered without a separator after it. */
  lemma RenderedLast(hs: seq<(string, string)>)
    requires |hs| >= 1
    ensures Rendered(hs, hs[|hs| - 1]) == Rendered(hs[..|hs| - 1], hs[|hs| - 1]) + HeaderLine(hs[|hs| - 1])
  {
    var n := |hs| - 1;
    assert Rendered(hs, hs[n]) == Rendered(hs[..n], hs[n]) + HeaderLine(hs[n]) + "";
    assert Rendered(hs[..n], hs[n]) + HeaderLine(hs[n]) + "" == Rendered(hs[..n], hs[n]) + HeaderLine(hs[n]);
  }

  /** When no earlier header equals the final one (as with distinct headers),
      the appended text is the header lines joined by `\n`: a separator
      between consecutive lines and none after the last. */
  lemma RenderedDistinctIsJoin(hs: seq<(string, string)>)
    requires |hs| >= 1
    requires forall j :: 0 <= j < |hs| - 1 ==> hs[j] != hs[|hs| - 1]
    ensures Rendered(hs, hs[|hs| - 1]) == Join(HeaderLines(hs), "\n")
  {
    var n := |hs| - 1;
    var lines := HeaderLines(hs);
    RenderedLast(hs);
    assert lines[n] == HeaderLine(hs[n]);
    if n == 0 {
      assert hs[..0] == [];
    } else {
      RenderedPrefix(hs, hs[n], n);
      JoinSnoc(lines[..n], lines[n], "\n");
      assert lines[..n] + [lines[n]] == lines;
    }
  }

  /** A header equal to the final one gets no separator wherever it stands:
      two copies of one header are rendered back to back. */
  lemma RepeatedFinalHeader(h: (string, string))
    ensures Rendered([h, h], h) == HeaderLine(h) + HeaderLine(h)
  {
    assert [h][..0] == [];
    assert Rendered([h], h) == HeaderLine(h);
    assert [h, h][..1] == [h];
  }
}
