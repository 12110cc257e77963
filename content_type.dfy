/** The content type every response carries. */
module ContentType {
  import opened HeaderMaps

  const ContentTypeKey: string := "Content-Type"

  /** The header map after inserting the JSON content type: the key is set,
      replacing any previous value, and nothing else changes. */
  function WithContentType(headers: map<string, string>): (r: map<string, string>)
    ensures r.Keys == headers.Keys + {ContentTypeKey}
    ensures r[ContentTypeKey] == "application/json"
    ensures forall k :: k in headers && k != ContentTypeKey ==> r[k] == headers[k]
  {
    headers[ContentTypeKey := "application/json"]
  }

  /** `add_content_type_to_headers`: one insert into the response headers. */
  method AddContentTypeToHeaders(headers: HeaderMap)
    modifies headers
    ensures headers.entries == WithContentType(old(headers.entries))
  {
    headers.Insert(ContentTypeKey, "application/json");
  }

  /** Adding the content type a second time changes nothing. */
  lemma WithContentTypeIdempotent(headers: map<string, string>)
    ensures WithContentType(WithContentType(headers)) == WithContentType(headers)
  {
  }
}
