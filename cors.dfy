/** The CORS headers every response carries. */
module Cors {
  import opened HeaderMaps
  import RustStr

  const AllowOrigin: string := "Access-Control-Allow-Origin"
  const RequestMethods: string := "Access-Control-Request-Methods"
  const AllowMethods: string := "Access-Control-Allow-Methods"
  const AllowHeaders: string := "Access-Control-Allow-Headers"

  /** The four keys `add_cors_to_headers` writes. */
  const CorsKeys: set<string> := {AllowOrigin, RequestMethods, AllowMethods, AllowHeaders}

  /** The header map after the four CORS inserts: the four keys are set, with
      the later value winning over any earlier one, and nothing else changes. */
  function WithCors(headers: map<string, string>): (r: map<string, string>)
    ensures r.Keys == headers.Keys + CorsKeys
    ensures r[AllowOrigin] == "*"
    ensures r[RequestMethods] == "*"
    ensures r[AllowMethods] == "OPTIONS, GET"
    ensures r[AllowHeaders] == "*"
    ensures forall k :: k in headers && k !in CorsKeys ==> r[k] == headers[k]
  {
    headers[AllowOrigin := "*"][RequestMethods := "*"][AllowMethods := "OPTIONS, GET"][AllowHeaders := "*"]
  }

  /** `add_cors_to_headers`: four inserts into the response headers. */
  method AddCorsToHeaders(headers: HeaderMap)
    modifies headers
    ensures headers.entries == WithCors(old(headers.entries))
  {
    headers.Insert(AllowOrigin, "*");
    headers.Insert(RequestMethods, "*");
    headers.Insert(AllowMethods, "OPTIONS, GET");
    headers.Insert(AllowHeaders, "*");
  }

  /** Adding the CORS headers a second time changes nothing. */
  lemma WithCorsIdempotent(headers: map<string, string>)
    ensures WithCors(WithCors(headers)) == WithCors(headers)
  {
    var once := WithCors(headers);
    var twice := WithCors(once);
    assert forall k :: k in twice ==> twice[k] == once[k];
  }

  /** The allowed methods list `OPTIONS` and `GET` but not `POST`. */
  lemma AllowMethodsOmitsPost(headers: map<string, string>)
    ensures RustStr.Contains(WithCors(headers)[AllowMethods], "GET")
    ensures !RustStr.Contains(WithCors(headers)[AllowMethods], "POST")
  {
    var allowed := WithCors(headers)[AllowMethods];
    assert allowed[9..12] == "GET";
    assert RustStr.IsAt(allowed, "GET", 9);
    forall j | 0 <= j
      ensures !RustStr.IsAt(allowed, "POST", j)
    {
      if j + 4 <= |allowed| {
        assert j == 0 || j == 1 || j == 2 || j == 3 || j == 4 || j == 5 || j == 6 || j == 7 || j == 8;
        assert allowed[j..j + 4][0] == allowed[j] && allowed[j..j + 4][1] == allowed[j + 1];
      }
    }
  }
}
