/** The parsed form of a request's target. */
module Url {

  /** A request path and its query parameters in the order they were written;
      a key may occur more than once. */
  datatype ReqUrl = ReqUrl(path: string, queryParameters: seq<(string, string)>)
}
