/**
  Zoltan2's GraphMetricValues: a two-slot table of graph metrics (the global
  sum and the global maximum) with setters, getters and a lookup by name.
 */
module GraphMetrics {

  /** The offsets of the enum metricOffset. */
  const EvalGlobalSum: nat := 0
  const EvalGlobalMax: nat := 1
  const EvalNumMetrics: nat := 2

  const GlobalSumName: string := "global sum"
  const GlobalMaxName: string := "global maximum"

  /** static_graphMetrics_: the names of the metrics this class holds. */
  const StaticGraphMetrics: set<string> := {GlobalSumName, GlobalMaxName}

  /** The two offsets are different slots of the table. */
  lemma OffsetsDistinct()
    ensures EvalGlobalSum != EvalGlobalMax
    ensures EvalGlobalSum < EvalNumMetrics && EvalGlobalMax < EvalNumMetrics
  {
  }

  /** The name set holds exactly two different names. */
  lemma MetricNamesDistinct()
    ensures GlobalSumName != GlobalMaxName
    ensures |StaticGraphMetrics| == 2
  {
  }

  class GraphMetricValues {
    /** The metric values, indexed by the offsets above. */
    const values_: array<real>

    ghost predicate Valid()
      reads this
    {
      values_.Length == EvalNumMetrics
    }

    /** The table read by name: each metric name and the value in its slot. */
    ghost function Metrics(): map<string, real>
      reads this, values_
      requires Valid()
    {
      map[GlobalSumName := values_[EvalGlobalSum], GlobalMaxName := values_[EvalGlobalMax]]
    }

    /** GraphMetricValues() and GraphMetricValues(mname): a table of two slots. */
    constructor ()
      ensures Valid() && fresh(values_)
    {
      values_ := new real[EvalNumMetrics];
    }

    /** setGlobalSum(x): slot EvalGlobalSum becomes `x`; the other slot is unchanged. */
    method SetGlobalSum(x: real)
      requires Valid()
      modifies values_
      ensures Valid()
      ensures values_[..] == old(values_[..])[EvalGlobalSum := x]
      ensures GetGlobalSum() == x && GetGlobalMax() == old(GetGlobalMax())
      ensures Metrics() == old(Metrics())[GlobalSumName := x]
    {
      values_[EvalGlobalSum] := x;
    }

    /** setGlobalMax(x): slot EvalGlobalMax becomes `x`; the other slot is unchanged. */
    method SetGlobalMax(x: real)
      requires Valid()
      modifies values_
      ensures Valid()
      ensures values_[..] == old(values_[..])[EvalGlobalMax := x]
      ensures GetGlobalMax() == x && GetGlobalSum() == old(GetGlobalSum())
      ensures Metrics() == old(Metrics())[GlobalMaxName := x]
    {
      values_[EvalGlobalMax] := x;
    }

    /** getGlobalSum(): the value of the metric named "global sum". */
    function GetGlobalSum(): (r: real)
      reads this, values_
      requires Valid()
      ensures r == Metrics()[GlobalSumName]
    {
      values_[EvalGlobalSum]
    }

    /** getGlobalMax(): the value of the metric named "global maximum". */
    function GetGlobalMax(): (r: real)
      reads this, values_
      requires Valid()
      ensures r == Metrics()[GlobalMaxName]
    {
      values_[EvalGlobalMax]
    }

    /** getMetrics(): the fixed set of metric names, one per slot. */
    function GetMetrics(): (r: set<string>)
      ensures |r| == EvalNumMetrics
      ensures GlobalSumName in r && GlobalMaxName in r
    {
      StaticGraphMetrics
    }

    /**
      getMetricValue(name): the value of the metric `name` names, and 0 for
      a name outside GetMetrics().
     */
    function GetMetricValue(metric_name: string): (r: real)
      reads this, values_
      requires Valid()
      ensures metric_name == GlobalMaxName ==> r == GetGlobalMax()
      ensures metric_name == GlobalSumName ==> r == GetGlobalSum()
      ensures metric_name !in GetMetrics() ==> r == 0.0
      ensures metric_name in Metrics() ==> r == Metrics()[metric_name]
    {
      if metric_name == GlobalMaxName then GetGlobalMax()
      else if metric_name == GlobalSumName then GetGlobalSum()
      else 0.0
    }

    /**
      Every name getMetrics() lists is recognised by getMetricValue: it reads
      one of the two slots, and each slot is read through one such name.
     */
    lemma ListedMetricsAreRecognised(metric_name: string)
      requires Valid()
      ensures GetMetrics() == Metrics().Keys
      ensures metric_name in GetMetrics() <==> metric_name == GlobalSumName || metric_name == GlobalMaxName
      ensures metric_name in GetMetrics() ==>
                GetMetricValue(metric_name) == values_[if metric_name == GlobalSumName then EvalGlobalSum else EvalGlobalMax]
    {
    }
  }

  /** After setting both slots, each is read back by its name. */
  method SetThenLookup(s: real, m: real) returns (sum: real, max: real, other: real)
    ensures sum == s && max == m && other == 0.0
  {
    var g := new GraphMetricValues();
    g.SetGlobalSum(s);
    g.SetGlobalMax(m);
    sum := g.GetMetricValue(GlobalSumName);
    max := g.GetMetricValue(GlobalMaxName);
    other := g.GetMetricValue("global minimum");
  }
}
