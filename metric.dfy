/**
 * The accumulator cell of lib/metric.js: a label object, a value and the time
 * of the last update.
 */
module Metrics {
  import opened Common
  import opened Labels

  /** The options object `{labels: ...}`; its labels may be absent. */
  datatype MetricOptions = MetricOptions(labels: Option<Obj>)

  /** The labels a new Metric takes: those of its options, or `{}` without options. */
  function InitialLabels(options: Option<MetricOptions>): (r: Option<Obj>)
    ensures options.None? ==> r == Some([])
    ensures options.Some? ==> r == options.value.labels
  {
    match options
    case None => Some([])
    case Some(o) => o.labels
  }

  class Metric {
    const labels: Option<Obj>
    var value: real
    var timestamp: int

    /** A new cell starts at value 0 and timestamp 0. */
    constructor(options: Option<MetricOptions>)
      ensures labels == InitialLabels(options)
      ensures value == 0.0 && timestamp == 0
    {
      labels := InitialLabels(options);
      value := 0.0;
      timestamp := 0;
    }

    /**
     * Adds `num` with no sign check and stamps the cell with `now`, which
     * stands for Date.now(). The labels never change.
     */
    method Add(num: real, now: int)
      modifies this
      ensures value == old(value) + num
      ensures timestamp == now
    {
      value := value + num;
      timestamp := now;
    }
  }
}
