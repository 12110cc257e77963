/** The metric record and the scanners that fill it from the query
    parameters. Each scanner walks all parameters in order, matches keys by
    substring containment and keeps the last match. */
module Metrics {
  import opened Wrappers
  import opened RustStr
  import opened RustNum
  import opened Url

  /** The kinds of metric event the endpoint records. */
  datatype MetricName = StoryView | PageView | ButtonClick | Share | Error | Base

  datatype Metric = Metric(metricType: MetricName, subfield: string, target: string, value: U8)

  /** `Metric::get_metric`: a record holding exactly the four arguments. */
  function GetMetric(metricType: MetricName, subfield: string, target: string, value: U8): (m: Metric)
    ensures m.metricType == metricType && m.subfield == subfield
    ensures m.target == target && m.value == value
  {
    Metric(metricType, subfield, target, value)
  }

  /** The prefix every wire name of a metric type carries. */
  const WirePrefix: string := "couch-gag-"

  /** `Metric::get_metric_type_as_string`: the name a metric type is reported
      under. */
  function MetricTypeAsString(metricType: MetricName): (s: string)
    ensures |s| > |WirePrefix| && s[..|WirePrefix|] == WirePrefix
  {
    match metricType
    case Base => "couch-gag-base-metric-health-ping"
    case ButtonClick => "couch-gag-button-click"
    case Error => "couch-gag-error"
    case PageView => "couch-gag-page-view-hit"
    case Share => "couch-gag-share-story"
    case StoryView => "couch-gag-story-view"
  }

  /** Distinct metric types are reported under distinct names. */
  lemma MetricTypeAsStringInjective(a: MetricName, b: MetricName)
    ensures a != b ==> MetricTypeAsString(a) != MetricTypeAsString(b)
  {
  }

  /** The metric type a `metric` parameter's value names, compared exactly;
      an unrecognised value names `Error`. */
  function MetricTypeOfValue(v: string): MetricName {
    if v == "story-view" then StoryView
    else if v == "page-view" then PageView
    else if v == "share" then Share
    else if v == "button-click" then ButtonClick
    else if v == "base" then Base
    else Error
  }

  /** The query value that names a metric type; `Error` has none. */
  function QueryWord(metricType: MetricName): string
    requires metricType != Error
  {
    match metricType
    case StoryView => "story-view"
    case PageView => "page-view"
    case Share => "share"
    case ButtonClick => "button-click"
    case Base => "base"
  }

  /** The value-to-type table is a bijection between the five query words and
      the types other than `Error`; every other value maps to `Error`. */
  lemma MetricTypeOfValueTable(v: string, metricType: MetricName)
    ensures metricType != Error ==> MetricTypeOfValue(QueryWord(metricType)) == metricType
    ensures MetricTypeOfValue(v) != Error ==> QueryWord(MetricTypeOfValue(v)) == v
  {
  }

  /** The keys of the query parameters, in order. */
  function KeysOf(params: seq<(string, string)>): (keys: seq<string>)
    ensures |keys| == |params|
    ensures forall k :: 0 <= k < |params| ==> keys[k] == params[k].0
  {
    seq(|params|, k requires 0 <= k < |params| => params[k].0)
  }

  /** `Metric::get_metric_subfield_off_query_params`: the value of the last
      parameter whose key contains `subfield`, or the empty string. */
  method GetMetricSubfieldOffQueryParams(url: ReqUrl) returns (msg: string)
    ensures match LastContaining(KeysOf(url.queryParameters), "subfield")
            case None => msg == ""
            case Some(j) => msg == url.queryParameters[j].1
  {
    var params := url.queryParameters;
    msg := "";
    for i := 0 to |params|
      invariant match LastContaining(KeysOf(params)[..i], "subfield")
                case None => msg == ""
                case Some(j) => msg == params[j].1
    {
      LastContainingStep(KeysOf(params), i, "subfield");
      if Contains(params[i].0, "subfield") {
        msg := params[i].1;
      }
    }
    assert KeysOf(params)[..|params|] == KeysOf(params);
  }

  /** `Metric::get_val_off_query_params`: every parameter whose key contains
      `value` is parsed as a `u8`, and the first that does not parse panics the
      `unwrap`; otherwise the result is the last such parameter's number, or 0
      when there is none. */
  method GetValOffQueryParams(url: ReqUrl) returns (val: Result<U8>)
    ensures val.Ok? <==>
      forall k :: 0 <= k < |url.queryParameters| && Contains(url.queryParameters[k].0, "value") ==>
        ParseU8(url.queryParameters[k].1).Some?
    ensures val.Err? ==> val.panic == UnwrapOnParseError
    ensures val.Ok? ==>
      match LastContaining(KeysOf(url.queryParameters), "value")
      case None => val.value == 0
      case Some(j) => ParseU8(url.queryParameters[j].1) == Some(val.value)
  {
    var params := url.queryParameters;
    var v: U8 := 0;
    for i := 0 to |params|
      invariant forall k :: 0 <= k < i && Contains(params[k].0, "value") ==> ParseU8(params[k].1).Some?
      invariant match LastContaining(KeysOf(params)[..i], "value")
                case None => v == 0
                case Some(j) => ParseU8(params[j].1) == Some(v)
    {
      LastContainingStep(KeysOf(params), i, "value");
      if Contains(params[i].0, "value") {
        var parsed := ParseU8(params[i].1);
        if parsed.None? {
          return Err(UnwrapOnParseError);
        }
        v := parsed.value;
      }
    }
    assert KeysOf(params)[..|params|] == KeysOf(params);
    val := Ok(v);
  }

  /** `Metric::get_target_string_off_query_params`: the value of the last
      parameter whose key contains `target`, or the empty string. */
  method GetTargetStringOffQueryParams(url: ReqUrl) returns (target: string)
    ensures match LastContaining(KeysOf(url.queryParameters), "target")
            case None => target == ""
            case Some(j) => target == url.queryParameters[j].1
  {
    var params := url.queryParameters;
    target := "";
    for i := 0 to |params|
      invariant match LastContaining(KeysOf(params)[..i], "target")
                case None => target == ""
                case Some(j) => target == params[j].1
    {
      LastContainingStep(KeysOf(params), i, "target");
      if Contains(params[i].0, "target") {
        target := params[i].1;
      }
    }
    assert KeysOf(params)[..|params|] == KeysOf(params);
  }

  /** `Metric::get_metric_type_off_query_param`: the type named by the value
      of the last parameter whose key contains `metric`, or `Base` when there
      is none. */
  method GetMetricTypeOffQueryParam(url: ReqUrl) returns (metricType: MetricName)
    ensures match LastContaining(KeysOf(url.queryParameters), "metric")
            case None => metricType == Base
            case Some(j) => metricType == MetricTypeOfValue(url.queryParameters[j].1)
  {
    var params := url.queryParameters;
    metricType := Base;
    for i := 0 to |params|
      invariant match LastContaining(KeysOf(params)[..i], "metric")
                case None => metricType == Base
                case Some(j) => metricType == MetricTypeOfValue(params[j].1)
    {
      LastContainingStep(KeysOf(params), i, "metric");
      if Contains(params[i].0, "metric") {
        metricType := MetricTypeOfValue(params[i].1);
      }
    }
    assert KeysOf(params)[..|params|] == KeysOf(params);
  }
}
