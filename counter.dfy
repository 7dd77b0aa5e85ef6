/**
 * lib/counter.js: a collector whose cells only grow, through add() and
 * increment().
 */
module Counters {
  import opened Common
  import opened Labels
  import opened Metrics
  import opened MetricVectors

  class Counter {
    const name: string
    const help: string
    /** mergeObjects(options.labels, options.parentLabels): the parent's labels take precedence. */
    const staticLabels: Obj
    const metricVec: MetricVector

    ghost predicate Valid()
      reads this, metricVec
    {
      metricVec.Valid()
    }

    constructor Init(name: string, help: string, staticLabels: Obj, metricVec: MetricVector)
      ensures this.name == name && this.help == help
      ensures this.staticLabels == staticLabels && this.metricVec == metricVec
    {
      this.name := name;
      this.help := help;
      this.staticLabels := staticLabels;
      this.metricVec := metricVec;
    }

    /**
     * The Counter constructor: the static labels merge the options' labels
     * with the parent's (the parent's win), and the metric vector built from
     * them throws when, once trimmed, they fail checkValid.
     */
    static method Create(name: string, help: string, labels: Option<Obj>, parentLabels: Option<Obj>)
      returns (r: Result<Counter>)
      ensures var statics := MergeObjects(labels, parentLabels);
              FirstLabelError(Trim(statics)).Some? ==> r == Err(FirstLabelError(Trim(statics)).value)
      ensures var statics := MergeObjects(labels, parentLabels);
              FirstLabelError(Trim(statics)).None? ==>
                && r.Ok? && fresh(r.value) && fresh(r.value.metricVec) && r.value.Valid()
                && r.value.name == name && r.value.help == help
                && r.value.staticLabels == statics
                && r.value.metricVec.staticLabels == Some(Trim(statics))
                && r.value.metricVec.metrics == map[] && r.value.metricVec.buckets == []
    {
      var statics := MergeObjects(labels, parentLabels);
      var vec := MetricVector.Create(name, Some(statics));
      if vec.Err? {
        return Err(vec.error);
      }
      var c := new Counter.Init(name, help, statics, vec.value);
      return Ok(c);
    }

    /** The key of the cell labels(pairs) resolves to: 'default' for absent or empty pairs. */
    function Target(pairs: Option<Obj>): MetricKey
      reads this, metricVec
    {
      if pairs.None? || pairs.value == [] then DefaultKey
      else metricVec.FindOrCreate(pairs.value)
    }

    /** Equal pairs in any order resolve to the same cell. */
    lemma TargetOrderIndependent(a: Obj, b: Obj)
      requires ToMap(a) == ToMap(b)
      ensures Target(Some(a)) == Target(Some(b))
    {
      metricVec.FindOrderIndependent(a, b);
      KeyOfSame(a, b);
      assert a == [] <==> b == [] by {
        if a != [] { KeyAt(a, 0); }
        if b != [] { KeyAt(b, 0); }
      }
    }

    /** Absent or empty pairs resolve to the 'default' cell. */
    lemma TargetOfEmpty(pairs: Option<Obj>)
      requires pairs.None? || pairs.value == []
      ensures Target(pairs) == DefaultKey
    {
    }

    /**
     * labels(pairs): the vector's default cell for absent or empty pairs,
     * otherwise the cell createOrGetWithLabels finds or creates.
     */
    method Labels(pairs: Option<Obj>) returns (m: Metric)
      requires Valid()
      modifies metricVec
      ensures metricVec.metrics.Keys == old(metricVec.metrics.Keys) + {old(Target(pairs))}
      ensures m == metricVec.metrics[old(Target(pairs))]
      ensures metricVec.Values() == Touch(old(metricVec.Values()), old(Target(pairs)))
      ensures metricVec.buckets == old(metricVec.buckets)
      ensures forall k :: k in old(metricVec.metrics) ==> metricVec.metrics[k] == old(metricVec.metrics[k])
      ensures forall k :: k in metricVec.metrics && k !in old(metricVec.metrics) ==> fresh(metricVec.metrics[k])
      ensures Valid()
    {
      if pairs.None? || pairs.value == [] {
        m := metricVec.GetDefault();
      } else {
        m := metricVec.CreateOrGetWithLabels(pairs.value);
      }
    }

    /**
     * add(value, pairs): throws on a negative value before touching anything;
     * otherwise raises the addressed cell by exactly `value`. `now` stands for
     * Date.now().
     */
    method Add(value: real, pairs: Option<Obj>, now: int) returns (o: Outcome)
      requires Valid()
      modifies metricVec, metricVec.metrics.Values
      ensures value < 0.0 ==> o == Fail(NegativeCounterAdd)
      ensures value < 0.0 ==> unchanged(metricVec) && metricVec.Values() == old(metricVec.Values())
      ensures value >= 0.0 ==> o == Pass
      ensures value >= 0.0 ==> metricVec.Values() == AddAt(old(metricVec.Values()), old(Target(pairs)), value)
      ensures value >= 0.0 ==> metricVec.metrics.Keys == old(metricVec.metrics.Keys) + {old(Target(pairs))}
      ensures metricVec.buckets == old(metricVec.buckets)
      ensures forall k :: k in old(metricVec.metrics) ==> k in metricVec.metrics && metricVec.metrics[k] == old(metricVec.metrics[k])
      ensures forall k :: k in metricVec.metrics && k !in old(metricVec.metrics) ==> fresh(metricVec.metrics[k])
      ensures Valid()
    {
      if value < 0.0 {
        return Fail(NegativeCounterAdd);
      }
      var metric := Labels(pairs);
      metric.Add(value, now);
      o := Pass;
    }

    /** increment(pairs) is add(1, pairs). */
    method Increment(pairs: Option<Obj>, now: int)
      requires Valid()
      modifies metricVec, metricVec.metrics.Values
      ensures metricVec.Values() == AddAt(old(metricVec.Values()), old(Target(pairs)), 1.0)
      ensures metricVec.metrics.Keys == old(metricVec.metrics.Keys) + {old(Target(pairs))}
      ensures metricVec.buckets == old(metricVec.buckets)
      ensures forall k :: k in old(metricVec.metrics) ==> k in metricVec.metrics && metricVec.metrics[k] == old(metricVec.metrics[k])
      ensures forall k :: k in metricVec.metrics && k !in old(metricVec.metrics) ==> fresh(metricVec.metrics[k])
      ensures Valid()
    {
      var _ := Add(1.0, pairs, now);
    }
  }
}
