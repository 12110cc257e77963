/** A request of the kind the metrics page sends, followed through the parser
    and the metric scanners. */
module Scenarios {
  import opened Wrappers
  import opened RustStr
  import opened RustNum
  import opened Url
  import opened Utils
  import opened Metrics

  /** The parameters of `metric=button-click&subfield=home&target=feed&value=7`. */
  const ButtonClickParams: seq<(string, string)> :=
    [("metric", "button-click"), ("subfield", "home"), ("target", "feed"), ("value", "7")]

  /** Every key and value of those parameters can stand in a request target. */
  lemma ButtonClickWords()
    ensures forall k :: 0 <= k < |ButtonClickParams| ==>
      TargetWord(ButtonClickParams[k].0) && TargetWord(ButtonClickParams[k].1)
  {
  }

  /** `GET /metric?` followed by the query written from those parameters
      (`metric=button-click&subfield=home&target=feed&value=7`) and
      ` HTTP/1.1` parses to the valid path `/metric` and the four parameters,
      in order. */
  lemma ButtonClickRequest(rest: string)
    ensures UrlOf("GET" + " " + "/metric" + "?" + JoinQuery(ButtonClickParams) + " " + "HTTP/1.1" + "\r\n" + rest)
         == Ok(ReqUrl("/metric", ButtonClickParams))
    ensures IsValidPath("/metric")
  {
    ButtonClickWords();
    RequestRoundTrip("GET", "/metric", ButtonClickParams, "HTTP/1.1", rest);
  }

  lemma ButtonClickKeys()
    ensures KeysOf(ButtonClickParams) == ["metric", "subfield", "target", "value"]
  {
  }

  /** On those parameters each scanner selects its own parameter: the
      metric type from the first, the subfield from the second, the target from
      the third and the value from the fourth. */
  lemma ButtonClickMetricKey()
    ensures LastContaining(KeysOf(ButtonClickParams), "metric") == Some(0)
  {
    ButtonClickKeys();
    ContainsAt("metric", "metric", 0);
    AbsentHeadChar("subfield", "metric");
    AbsentHeadChar("target", "metric");
    AbsentHeadChar("value", "metric");
    LastContainingIs(["metric", "subfield", "target", "value"], "metric", 0);
  }

  lemma ButtonClickSubfieldKey()
    ensures LastContaining(KeysOf(ButtonClickParams), "subfield") == Some(1)
  {
    ButtonClickKeys();
    ContainsAt("subfield", "subfield", 0);
    AbsentHeadChar("target", "subfield");
    AbsentHeadChar("value", "subfield");
    LastContainingIs(["metric", "subfield", "target", "value"], "subfield", 1);
  }

  lemma ButtonClickTargetKey()
    ensures LastContaining(KeysOf(ButtonClickParams), "target") == Some(2)
  {
    ButtonClickKeys();
    ContainsAt("target", "target", 0);
    AbsentHeadChar("value", "target");
    LastContainingIs(["metric", "subfield", "target", "value"], "target", 2);
  }

  lemma ButtonClickValueKey()
    ensures LastContaining(KeysOf(ButtonClickParams), "value") == Some(3)
  {
    ButtonClickKeys();
    ContainsAt("value", "value", 0);
    LastContainingIs(["metric", "subfield", "target", "value"], "value", 3);
  }

  /** The selected values name a button click and the number 7. */
  lemma ButtonClickValues()
    ensures MetricTypeOfValue(ButtonClickParams[0].1) == ButtonClick
    ensures ParseU8(ButtonClickParams[3].1) == Some(7)
  {
    ParseU8RoundTrip(7);
  }
}
