/**
 * The Histogram collector of lib/histogram.js: one Counter per label set,
 * whose cells are the cumulative bucket counts ('le' = boundary) and the
 * '+Inf' count, and a running sum per label set.
 *
 * observe() runs here step by step on the Counter's own metric vector; the
 * result is proved to be the state HistogramSpec.ObserveSpec describes.
 */
module Histograms {
  import opened Common
  import opened Labels
  import opened Sorting
  import opened Metrics
  import opened MetricVectors
  import opened Counters
  import opened Order
  import opened HistogramSpec
  import HistogramFacts

  /** The boundary list and the cell values of a Counter: what observe reads and writes. */
  function StateOf(c: Counter): CounterState
    reads c, c.metricVec, c.metricVec.metrics.Values
  {
    CounterState(c.metricVec.buckets, c.metricVec.Values())
  }

  /**
   * The Counters of a histogram never hold a 'default' cell: observe always
   * addresses its cells with an 'le' label.
   */
  ghost predicate Sound(c: Counter)
    reads c, c.metricVec
  {
    c.Valid() && DefaultKey !in c.metricVec.metrics
  }

  /** `pairCopy`: the merged pairs, or the merged pairs with some 'le' already assigned. */
  ghost predicate Relabelled(p: Obj, pairs: Obj) {
    p == pairs || exists a: int :: p == LeLabels(pairs, a)
  }

  /** `pairCopy['le'] = b` addresses the cell of boundary b, whatever 'le' held before. */
  lemma Relabel(p: Obj, pairs: Obj, b: int)
    requires Relabelled(p, pairs)
    ensures Set(p, "le", Num(b as real)) == LeLabels(pairs, b)
    ensures Relabelled(LeLabels(pairs, b), pairs)
  {
    if p != pairs {
      var a: int :| p == LeLabels(pairs, a);
      SetTwice(pairs, "le", Num(a as real), Num(b as real));
    }
  }

  /** In a Counter without a 'default' cell, non-empty labels resolve to their hash. */
  lemma TargetIsKey(c: Counter, l: Obj)
    requires DefaultKey !in c.metricVec.metrics && l != []
    ensures c.Target(Some(l)) == KeyOf(l)
  {
  }

  /** The cell of boundary b is addressed through non-empty labels. */
  lemma LeTarget(c: Counter, pairs: Obj, b: int)
    requires DefaultKey !in c.metricVec.metrics
    ensures c.Target(Some(LeLabels(pairs, b))) == LeAddress(pairs)(b)
  {
    assert "le" in ToMap(LeLabels(pairs, b));
    TargetIsKey(c, LeLabels(pairs, b));
  }

  /** The '+Inf' cell is addressed through `{le: '+Inf'}`. */
  lemma InfTarget(c: Counter)
    requires DefaultKey !in c.metricVec.metrics
    ensures c.Target(Some(InfLabels)) == InfKey()
  {
    TargetIsKey(c, InfLabels);
  }

  /**
   * Lines 86-91: the first boundary of the magnitude that the value does not
   * exceed. getOrder only returns a magnitude whose last boundary is at least
   * the value, so the loop always breaks.
   */
  method FindTarget(value: real, buckets: seq<int>, ghost i: nat) returns (index: int)
    requires buckets == Magnitude(i) && value <= Magnitude(i)[4] as real
    ensures index == Target(value, i)
    ensures index in buckets && value <= index as real
  {
    var b := 0;
    while b < |buckets| && !(value <= buckets[b] as real)
      invariant 0 <= b <= |buckets|
      invariant forall j :: 0 <= j < b ==> value > buckets[j] as real
    {
      b := b + 1;
    }
    index := buckets[b];
  }

  /** Lines 95-99: the last position of the known list whose boundary is below the target. */
  method FindSmaller(bs: seq<int>, index: int) returns (smaller: Option<nat>)
    ensures smaller == LastBelow(bs, index)
  {
    smaller := None;
    var b := 0;
    while b < |bs|
      invariant 0 <= b <= |bs|
      invariant smaller == LastBelow(bs[..b], index)
    {
      assert bs[..b + 1][..b] == bs[..b];
      if bs[b] < index {
        smaller := Some(b);
      }
      b := b + 1;
    }
    assert bs[..b] == bs;
  }

  /** `pairCopy['le'] = b; counter.add(amount, pairCopy)`: the cell of boundary b gains `amount`. */
  method AddToBoundary(c: Counter, pairs: Obj, pairCopy: Obj, b: int, amount: real, now: int) returns (pairCopy': Obj)
    requires Sound(c) && Relabelled(pairCopy, pairs) && amount >= 0.0
    modifies c.metricVec, c.metricVec.metrics.Values
    ensures pairCopy' == LeLabels(pairs, b) && Relabelled(pairCopy', pairs)
    ensures c.metricVec.buckets == old(c.metricVec.buckets)
    ensures c.metricVec.Values() == AddAt(old(c.metricVec.Values()), LeAddress(pairs)(b), amount)
    ensures Sound(c)
    ensures fresh(c.metricVec.metrics.Values - old(c.metricVec.metrics.Values))
  {
    Relabel(pairCopy, pairs, b);
    pairCopy' := Set(pairCopy, "le", Num(b as real));
    LeTarget(c, pairs, b);
    var _ := c.Add(amount, Some(pairCopy'), now);
  }

  /** `pairCopy['le'] = b; counter.labels(pairCopy)`: the cell of boundary b is created at 0 when missing. */
  method TouchBoundary(c: Counter, pairs: Obj, pairCopy: Obj, b: int) returns (pairCopy': Obj, m: Metric)
    requires Sound(c) && Relabelled(pairCopy, pairs)
    modifies c.metricVec
    ensures pairCopy' == LeLabels(pairs, b) && Relabelled(pairCopy', pairs)
    ensures c.metricVec.buckets == old(c.metricVec.buckets)
    ensures c.metricVec.Values() == Touch(old(c.metricVec.Values()), LeAddress(pairs)(b))
    ensures m.value == Get(c.metricVec.Values(), LeAddress(pairs)(b))
    ensures Sound(c)
    ensures fresh(c.metricVec.metrics.Values - old(c.metricVec.metrics.Values))
  {
    Relabel(pairCopy, pairs, b);
    pairCopy' := Set(pairCopy, "le", Num(b as real));
    LeTarget(c, pairs, b);
    m := c.Labels(Some(pairCopy'));
  }

  /** The state of the increment pass after its first i rounds. */
  ghost predicate PassDone(c: Counter, pairs: Obj, pairCopy: Obj, buckets: seq<int>, index: nat, i: nat,
                           start: map<MetricKey, real>)
    reads c, c.metricVec, c.metricVec.metrics.Values
  {
    && Sound(c) && Relabelled(pairCopy, pairs)
    && c.metricVec.buckets == buckets && i <= |buckets|
    && c.metricVec.Values() == IncrementCells(start, LeAddress(pairs), buckets, index, i)
  }

  /**
   * Round i of the increment pass (lines 130-137): the cell of the i-th
   * boundary is looked up when i is before `index`, incremented otherwise.
   */
  method PassStep(c: Counter, pairs: Obj, pairCopy: Obj, buckets: seq<int>, index: nat, i: nat, ghost start: map<MetricKey, real>,
                  now: int)
    returns (pairCopy': Obj)
    requires PassDone(c, pairs, pairCopy, buckets, index, i, start) && i < |buckets|
    modifies c.metricVec, c.metricVec.metrics.Values
    ensures PassDone(c, pairs, pairCopy', buckets, index, i + 1, start)
    ensures fresh(c.metricVec.metrics.Values - old(c.metricVec.metrics.Values))
  {
    if i < index {
      var cell;
      pairCopy', cell := TouchBoundary(c, pairs, pairCopy, buckets[i]);
    } else {
      pairCopy' := AddToBoundary(c, pairs, pairCopy, buckets[i], 1.0, now);
    }
  }

  /**
   * Lines 111-119: adds `count` to the cell of every boundary of the magnitude
   * other than the next-smaller one, addressing each through `pairCopy`.
   */
  method SeedLoop(c: Counter, pairs: Obj, pairCopy: Obj, buckets: seq<int>, s: int, count: real, now: int)
    returns (pairCopy': Obj)
    requires Sound(c) && Relabelled(pairCopy, pairs) && count > 0.0
    modifies c.metricVec, c.metricVec.metrics.Values
    ensures c.metricVec.buckets == old(c.metricVec.buckets)
    ensures c.metricVec.Values() == SeedCells(old(c.metricVec.Values()), LeAddress(pairs), buckets, s, count)
    ensures Sound(c) && Relabelled(pairCopy', pairs)
    ensures fresh(c.metricVec.metrics.Values - old(c.metricVec.metrics.Values))
  {
    pairCopy' := pairCopy;
    var j := 0;
    while j < |buckets|
      invariant 0 <= j <= |buckets|
      invariant Sound(c) && Relabelled(pairCopy', pairs)
      invariant c.metricVec.buckets == old(c.metricVec.buckets)
      invariant c.metricVec.Values() == SeedCells(old(c.metricVec.Values()), LeAddress(pairs), buckets[..j], s, count)
      invariant fresh(c.metricVec.metrics.Values - old(c.metricVec.metrics.Values))
    {
      assert buckets[..j + 1][..j] == buckets[..j];
      if buckets[j] != s {
        pairCopy' := AddToBoundary(c, pairs, pairCopy', buckets[j], count, now);
      }
      j := j + 1;
    }
    assert buckets[..j] == buckets;
  }

  /**
   * Lines 127-138: every boundary before position `index` is only looked up
   * (its cell created at 0 when missing), every other one is incremented.
   */
  method IncrementLoop(c: Counter, pairs: Obj, pairCopy: Obj, buckets: seq<int>, index: nat, now: int) returns (pairCopy': Obj)
    requires Sound(c) && Relabelled(pairCopy, pairs) && c.metricVec.buckets == buckets
    modifies c.metricVec, c.metricVec.metrics.Values
    ensures Relabelled(pairCopy', pairs)
    ensures Holds(c, CounterState(buckets, IncrementCells(old(c.metricVec.Values()), LeAddress(pairs), buckets, index, |buckets|)))
    ensures fresh(c.metricVec.metrics.Values - old(c.metricVec.metrics.Values))
  {
    pairCopy' := pairCopy;
    ghost var start := c.metricVec.Values();
    ghost var cells0 := c.metricVec.metrics.Values;
    var i := 0;
    while i < |buckets|
      invariant PassDone(c, pairs, pairCopy', buckets, index, i, start)
      invariant fresh(c.metricVec.metrics.Values - cells0)
      decreases |buckets| - i
    {
      pairCopy' := PassStep(c, pairs, pairCopy', buckets, index, i, start, now);
      i := i + 1;
    }
  }

  /** The Counter holds exactly the boundary list and cell values of `st`. */
  ghost predicate Holds(c: Counter, st: CounterState)
    reads c, c.metricVec, c.metricVec.metrics.Values
  {
    Sound(c) && c.metricVec.buckets == st.buckets && c.metricVec.Values() == st.cells
  }

  /** Seeding when a boundary lies below a new target: the three ways it can end. */
  lemma AfterSeedingBelow(st: CounterState, key: int -> MetricKey, v: real, i: nat, j: nat, count: real)
    requires v <= Magnitude(i)[4] as real
    requires Target(v, i) !in st.buckets && LastBelow(st.buckets, Target(v, i)) == Some(j)
    requires count == Get(st.cells, key(MergeBuckets(st.buckets, Magnitude(i))[j]))
    ensures var bs := MergeBuckets(st.buckets, Magnitude(i));
            var cells := Touch(st.cells, key(bs[j]));
            AfterSeeding(st, key, v, i, false)
            == CounterState(bs, if count > 0.0 then SeedCells(cells, key, Magnitude(i), bs[j], count) else cells)
  {
  }

  /**
   * Lines 105-121, once addBuckets has run: the count of the boundary now at
   * position `smaller` seeds the magnitude when it is positive.
   */
  method SeedFromSmaller(c: Counter, pairs: Obj, buckets: seq<int>, smaller: nat, ghost before: map<MetricKey, real>,
                         now: int)
    returns (pairCopy: Obj)
    requires Sound(c) && smaller < |c.metricVec.buckets| && c.metricVec.Values() == before
    modifies c.metricVec, c.metricVec.metrics.Values
    ensures Relabelled(pairCopy, pairs)
    ensures var s := old(c.metricVec.buckets[smaller]);
            var cells := Touch(before, LeAddress(pairs)(s));
            var count := Get(before, LeAddress(pairs)(s));
            Holds(c, CounterState(old(c.metricVec.buckets),
                                  if count > 0.0 then SeedCells(cells, LeAddress(pairs), buckets, s, count) else cells))
    ensures fresh(c.metricVec.metrics.Values - old(c.metricVec.metrics.Values))
  {
    var cell;
    pairCopy, cell := TouchBoundary(c, pairs, pairs, c.metricVec.buckets[smaller]);
    var count := cell.value;
    if count > 0.0 {
      pairCopy := SeedLoop(c, pairs, pairCopy, buckets, c.metricVec.buckets[smaller], count, now);
    }
  }

  /**
   * Lines 101-122, for a target boundary the list lacks: addBuckets merges
   * the magnitude into the list and, if a known boundary lay below the target,
   * its count (read at the old position `smaller` of the re-sorted list)
   * seeds the boundaries of the magnitude.
   */
  method SeedNewMagnitude(c: Counter, pairs: Obj, value: real, buckets: seq<int>, ghost i: nat, index: int,
                          smaller: Option<nat>, now: int)
    returns (pairCopy: Obj)
    requires Sound(c) && buckets == Magnitude(i) && value <= Magnitude(i)[4] as real && index == Target(value, i)
    requires index !in c.metricVec.buckets && smaller == LastBelow(c.metricVec.buckets, index)
    modifies c.metricVec, c.metricVec.metrics.Values
    ensures Relabelled(pairCopy, pairs)
    ensures Holds(c, AfterSeeding(old(StateOf(c)), LeAddress(pairs), value, i, false))
    ensures fresh(c.metricVec.metrics.Values - old(c.metricVec.metrics.Values))
  {
    ghost var st := StateOf(c);
    pairCopy := pairs;
    c.metricVec.AddBuckets(buckets);
    if smaller.Some? {
      ghost var s := c.metricVec.buckets[smaller.value];
      AfterSeedingBelow(st, LeAddress(pairs), value, i, smaller.value, Get(st.cells, LeAddress(pairs)(s)));
      pairCopy := SeedFromSmaller(c, pairs, buckets, smaller.value, st.cells, now);
    }
  }

  /**
   * Lines 86-122: the target boundary and the last known boundary below it
   * are looked up, and the magnitude is merged in and seeded when the target
   * is new; a known target leaves the Counter as it is.
   */
  method SeedPhase(c: Counter, pairs: Obj, value: real, buckets: seq<int>, ghost i: nat, now: int)
    returns (index: int, pairCopy: Obj)
    requires Sound(c) && buckets == Magnitude(i) && value <= Magnitude(i)[4] as real
    modifies c.metricVec, c.metricVec.metrics.Values
    ensures index == Target(value, i) && Relabelled(pairCopy, pairs)
    ensures Holds(c, AfterSeeding(old(StateOf(c)), LeAddress(pairs), value, i, false))
    ensures fresh(c.metricVec.metrics.Values - old(c.metricVec.metrics.Values))
  {
    ghost var st := StateOf(c);
    index := FindTarget(value, buckets, i);
    var known := c.metricVec.buckets;
    var smaller := FindSmaller(known, index);
    assert Holds(c, st);
    pairCopy := pairs;
    if index !in known {
      pairCopy := SeedNewMagnitude(c, pairs, value, buckets, i, index, smaller, now);
    }
  }

  /** Lines 141-143 (and 78-80): `counter.increment({le: '+Inf'})`. */
  method IncrementInf(c: Counter, ghost before: CounterState, now: int)
    requires Holds(c, before)
    modifies c.metricVec, c.metricVec.metrics.Values
    ensures Holds(c, CounterState(before.buckets, AddAt(before.cells, InfKey(), 1.0)))
    ensures fresh(c.metricVec.metrics.Values - old(c.metricVec.metrics.Values))
  {
    InfTarget(c);
    c.Increment(Some(InfLabels), now);
  }

  /** The increment pass and the '+Inf' count, after seeding: what ObserveWith says of an ordered value. */
  lemma ObserveOrdered(st: CounterState, key: int -> MetricKey, inf: MetricKey, v: real, i: nat, at: nat)
    requires OrderOf(v) == Some(i)
    requires var seeded := AfterSeeding(st, key, v, i, false);
             at == IndexOf(seeded.buckets, Target(v, i))
    ensures var seeded := AfterSeeding(st, key, v, i, false);
            ObserveWith(st, key, inf, v, false)
            == CounterState(seeded.buckets, AddAt(IncrementCells(seeded.cells, key, seeded.buckets, at, |seeded.buckets|), inf, 1.0))
  {
    OrderIsFirst(v);
  }

  /** A value getOrder leaves without a magnitude only counts towards '+Inf'. */
  lemma ObserveUnordered(st: CounterState, pairs: Obj, v: real)
    requires OrderOf(v).None?
    ensures ObserveSpec(st, pairs, v) == CounterState(st.buckets, AddAt(st.cells, InfKey(), 1.0))
  {
  }

  /**
   * Lines 75-143: observe(value, pairs) on the Counter of the merged pairs,
   * for a value that is not negative, given what getOrder returned for it:
   * the boundary list and the cells end up as ObserveSpec says, and the only
   * new cells are fresh ones.
   */
  method ObserveCounter(c: Counter, pairs: Obj, value: real, order: Option<seq<int>>, now: int)
    requires Sound(c) && value >= 0.0
    requires OrderOf(value).None? ==> order.None?
    requires OrderOf(value).Some? ==> order == Some(Magnitude(OrderOf(value).value))
    modifies c.metricVec, c.metricVec.metrics.Values
    ensures Holds(c, ObserveSpec(old(StateOf(c)), pairs, value))
    ensures fresh(c.metricVec.metrics.Values - old(c.metricVec.metrics.Values))
  {
    ghost var st := StateOf(c);
    if order.None? {
      ObserveUnordered(st, pairs, value);
      IncrementInf(c, st, now);
    } else {
      ObserveOrderedValue(c, pairs, value, order.value, now);
    }
  }

  /**
   * Lines 124-143, after seeding: the position of the target in the list,
   * the increment pass over the list, then the '+Inf' count. The Counter ends
   * up as ObserveSpec says of the state `st` before seeding.
   */
  method IncrementPhase(c: Counter, pairs: Obj, pairCopy: Obj, value: real, ghost i: nat, index: int,
                        ghost st: CounterState, now: int)
    requires OrderOf(value) == Some(i) && value <= Magnitude(i)[4] as real && index == Target(value, i)
    requires Holds(c, AfterSeeding(st, LeAddress(pairs), value, i, false)) && Relabelled(pairCopy, pairs)
    modifies c.metricVec, c.metricVec.metrics.Values
    ensures Holds(c, ObserveSpec(st, pairs, value))
    ensures fresh(c.metricVec.metrics.Values - old(c.metricVec.metrics.Values))
  {
    ghost var seeded := AfterSeeding(st, LeAddress(pairs), value, i, false);
    ghost var cells0 := c.metricVec.metrics.Values;
    var known := c.metricVec.buckets;
    var at := IndexOf(known, index);
    ObserveOrdered(st, LeAddress(pairs), InfKey(), value, i, at);
    var _ := IncrementLoop(c, pairs, pairCopy, known, at, now);
    ghost var cells1 := c.metricVec.metrics.Values;
    IncrementInf(c, CounterState(known, IncrementCells(seeded.cells, LeAddress(pairs), known, at, |known|)), now);
    forall o | o in c.metricVec.metrics.Values - cells0 ensures fresh(o) {
      if o !in c.metricVec.metrics.Values - cells1 {
        assert o in cells1 - cells0;
      }
    }
  }

  /** Lines 85-143 for a value getOrder places in a magnitude. */
  method ObserveOrderedValue(c: Counter, pairs: Obj, value: real, buckets: seq<int>, now: int)
    requires Sound(c) && value >= 0.0 && OrderOf(value).Some? && buckets == Magnitude(OrderOf(value).value)
    modifies c.metricVec, c.metricVec.metrics.Values
    ensures Holds(c, ObserveSpec(old(StateOf(c)), pairs, value))
    ensures fresh(c.metricVec.metrics.Values - old(c.metricVec.metrics.Values))
  {
    ghost var st := StateOf(c);
    ghost var cells0 := c.metricVec.metrics.Values;
    ghost var i := OrderOf(value).value;
    OrderIsFirst(value);
    var index, pairCopy := SeedPhase(c, pairs, value, buckets, i, now);
    ghost var cells1 := c.metricVec.metrics.Values;
    IncrementPhase(c, pairs, pairCopy, value, i, index, st, now);
    forall o | o in c.metricVec.metrics.Values - cells0 ensures fresh(o) {
      if o !in c.metricVec.metrics.Values - cells1 {
        assert o in cells1 - cells0;
      }
    }
  }

  // ---------------------------------------------------------------------
  // The Histogram collector

  /** The key under which labels(pairs) files its Counter: 'default' for absent or empty pairs, else the trimmed pairs' hash. */
  function CounterKey(pairs: Option<Obj>): MetricKey {
    if pairs.None? || pairs.value == [] then DefaultKey else KeyOf(Trim(pairs.value))
  }

  /** The `labels` option a new Counter gets: the static labels, or the trimmed pairs with the static labels over them. */
  function CounterLabels(staticLabels: Obj, pairs: Option<Obj>): Obj {
    if pairs.None? || pairs.value == [] then staticLabels else MergeObjects(Some(Trim(pairs.value)), Some(staticLabels))
  }

  /**
   * The gauge cell of a label set, taken to be the hash of the trimmed labels:
   * the gauge's own labels() is not part of this model.
   */
  function SumKey(labels: Obj): MetricKey {
    KeyOf(Trim(labels))
  }

  /** The running sum of a label set; absent sums read 0, as a fresh gauge cell does. */
  function SumOf(sums: map<MetricKey, real>, l: MetricKey): real {
    if l in sums then sums[l] else 0.0
  }

  /** A Counter as the histogram holds it: its static labels, its boundary list and its cells. */
  datatype CounterEntry = CounterEntry(staticLabels: Obj, state: CounterState)

  /**
   * What a histogram holds: this.counters, under 'default' or the hash of
   * their trimmed pairs, and the gauge behind the _sum lines, one running sum
   * per label set.
   */
  datatype Store = Store(counters: map<MetricKey, CounterEntry>, sums: map<MetricKey, real>)

  /**
   * Every boundary list is sorted, and every Counter but the 'default' one
   * has a running sum for its label set.
   */
  ghost predicate StoreValid(s: Store) {
    forall k :: k in s.counters ==>
      && Sorted(s.counters[k].state.buckets, IntLt)
      && (k != DefaultKey ==> SumKey(s.counters[k].staticLabels) in s.sums)
  }

  /** The labels a Counter created for `pairs` gets: the trimmed pairs under the static labels. */
  function NewLabels(staticLabels: Obj, pairs: Option<Obj>): Obj {
    MergeObjects(Some(CounterLabels(staticLabels, pairs)), None)
  }

  /**
   * labels() on a store, given the key of the pairs, the labels a Counter
   * created for them gets and what its constructor throws on those labels: a
   * Counter already filed under the key is returned as it is; otherwise,
   * unless the constructor throws, a new, empty Counter is filed and, when it
   * is not the 'default' Counter, the running sum of its label set is
   * started.
   */
  function FileCounter(s: Store, key: MetricKey, labels: Obj, err: Option<Error>): (r: Result<(MetricKey, Store)>)
    ensures r.Ok? ==> r.value.0 == key && key in r.value.1.counters
  {
    if key in s.counters then Ok((key, s))
    else
      match err
      case Some(e) => Err(e)
      case None =>
        var sums := if key == DefaultKey then s.sums else s.sums[SumKey(labels) := SumOf(s.sums, SumKey(labels))];
        Ok((key, Store(s.counters[key := CounterEntry(labels, CounterState([], map[]))], sums)))
  }

  /** Lines 156-186 and 270-281, labels(pairs): the key of the Counter of `pairs` and the store afterwards. */
  function LabelsOf(staticLabels: Obj, s: Store, pairs: Option<Obj>): Result<(MetricKey, Store)> {
    var labels := NewLabels(staticLabels, pairs);
    FileCounter(s, CounterKey(pairs), labels, FirstLabelError(Trim(labels)))
  }

  /**
   * Lines 69-147 on the Counter filed under `key`: its boundary list and
   * cells change as ObserveSpec says, and the value is added to the running
   * sum of its label set.
   */
  function Record(s: Store, key: MetricKey, merged: Obj, value: real): Store
    requires key in s.counters
  {
    var e := s.counters[key];
    var l := SumKey(e.staticLabels);
    Store(s.counters[key := e.(state := ObserveSpec(e.state, merged, value))], s.sums[l := SumOf(s.sums, l) + value])
  }

  /**
   * Lines 47-148, observe(value, pairs): a negative value throws; otherwise
   * the pairs are merged with the static labels, labels() finds or creates
   * their Counter (or throws), and the observation is recorded on it.
   */
  function ObserveOf(staticLabels: Obj, s: Store, pairs: Option<Obj>, value: real): Result<Store> {
    if value < 0.0 then Err(NegativeObservation)
    else
      var merged := MergeObjects(pairs, Some(staticLabels));
      match LabelsOf(staticLabels, s, Some(merged))
      case Err(e) => Err(e)
      case Ok((key, s1)) => Ok(Record(s1, key, merged, value))
  }

  /** `s1` keeps every Counter and every running sum of `s`, and adds at most the Counter under `key`. */
  ghost predicate Extends(s: Store, key: MetricKey, s1: Store) {
    && s1.counters.Keys == s.counters.Keys + {key}
    && (forall k :: k in s.counters ==> s1.counters[k] == s.counters[k])
    && (forall l :: l in s.sums ==> l in s1.sums && s1.sums[l] == s.sums[l])
  }

  /**
   * Filing a Counter keeps the store valid and keeps everything already
   * there; a new Counter has the labels given and no boundaries or cells.
   */
  lemma FileCounterKeeps(s: Store, key: MetricKey, labels: Obj, err: Option<Error>)
    requires StoreValid(s) && FileCounter(s, key, labels, err).Ok?
    ensures var s1 := FileCounter(s, key, labels, err).value.1;
            && Extends(s, key, s1) && StoreValid(s1)
            && (key !in s.counters ==> s1.counters[key] == CounterEntry(labels, CounterState([], map[])))
  {
  }

  /** A second labels() call with the same pairs finds the same Counter and changes nothing. */
  lemma LabelsIdempotent(staticLabels: Obj, s: Store, pairs: Option<Obj>)
    requires LabelsOf(staticLabels, s, pairs).Ok?
    ensures var (key, s1) := LabelsOf(staticLabels, s, pairs).value;
            LabelsOf(staticLabels, s1, pairs) == Ok((key, s1))
  {
  }

  /**
   * labels() keeps the store valid, keeps every Counter already filed and
   * every running sum already started, and files at most the Counter of
   * `pairs`, which, when new, has NewLabels and no boundaries or cells.
   */
  lemma LabelsKeeps(staticLabels: Obj, s: Store, pairs: Option<Obj>)
    requires StoreValid(s) && LabelsOf(staticLabels, s, pairs).Ok?
    ensures var s1 := LabelsOf(staticLabels, s, pairs).value.1;
            && Extends(s, CounterKey(pairs), s1) && StoreValid(s1)
            && (CounterKey(pairs) !in s.counters ==>
                  s1.counters[CounterKey(pairs)] == CounterEntry(NewLabels(staticLabels, pairs), CounterState([], map[])))
  {
    var labels := NewLabels(staticLabels, pairs);
    FileCounterKeeps(s, CounterKey(pairs), labels, FirstLabelError(Trim(labels)));
  }

  /** Pairs with the same meaning once trimmed reach the same Counter, in whatever order they are given. */
  lemma LabelsOrderFree(staticLabels: Obj, s: Store, a: Obj, b: Obj)
    requires a != [] && b != [] && ToMap(Trim(a)) == ToMap(Trim(b))
    ensures LabelsOf(staticLabels, s, Some(a)).Ok? && LabelsOf(staticLabels, s, Some(b)).Ok? ==>
              LabelsOf(staticLabels, s, Some(a)).value.0 == LabelsOf(staticLabels, s, Some(b)).value.0
  {
    KeyOfSame(Trim(a), Trim(b));
  }

  /** Observing keeps the boundary list sorted and never drops a boundary. */
  lemma ObserveKeepsSorted(st: CounterState, pairs: Obj, v: real)
    requires Sorted(st.buckets, IntLt)
    ensures Sorted(ObserveSpec(st, pairs, v).buckets, IntLt)
    ensures forall x :: x in st.buckets ==> x in ObserveSpec(st, pairs, v).buckets
  {
    match OrderOf(v)
    case None =>
    case Some(i) =>
      HistogramFacts.ObserveBuckets(st, LeAddress(pairs), InfKey(), v, i, false);
      if Target(v, i) !in st.buckets {
        MergeBucketsFacts(st.buckets, Magnitude(i));
      }
  }

  /**
   * Recording an observation keeps the store valid, changes no Counter but
   * the one under `key`, keeps every boundary that Counter had, and adds the
   * value to the running sum of its label set and to no other sum.
   */
  lemma RecordKeeps(s: Store, key: MetricKey, merged: Obj, value: real)
    requires StoreValid(s) && key in s.counters
    ensures var s2 := Record(s, key, merged, value);
            var l := SumKey(s.counters[key].staticLabels);
            && StoreValid(s2)
            && s2.counters.Keys == s.counters.Keys
            && (forall k :: k in s.counters && k != key ==> s2.counters[k] == s.counters[k])
            && s2.counters[key].staticLabels == s.counters[key].staticLabels
            && (forall x :: x in s.counters[key].state.buckets ==> x in s2.counters[key].state.buckets)
            && SumOf(s2.sums, l) == SumOf(s.sums, l) + value
            && (forall m :: m in s.sums && m != l ==> m in s2.sums && s2.sums[m] == s.sums[m])
            && Get(s2.counters[key].state.cells, InfKey()) == Get(s.counters[key].state.cells, InfKey()) + 1.0
  {
    ObserveKeepsSorted(s.counters[key].state, merged, value);
    HistogramFacts.InfGainsOne(s.counters[key].state, merged, value);
  }

  /**
   * Every accepted observation adds exactly one to the '+Inf' cell of the
   * Counter of its merged pairs, the count printed as _count, starting from 0
   * when that Counter is new.
   */
  lemma ObserveCountsOnce(staticLabels: Obj, s: Store, pairs: Option<Obj>, value: real)
    requires StoreValid(s) && ObserveOf(staticLabels, s, pairs, value).Ok?
    ensures var key := CounterKey(Some(MergeObjects(pairs, Some(staticLabels))));
            var s2 := ObserveOf(staticLabels, s, pairs, value).value;
            && key in s2.counters
            && Get(s2.counters[key].state.cells, InfKey())
               == (if key in s.counters then Get(s.counters[key].state.cells, InfKey()) else 0.0) + 1.0
  {
    var merged := MergeObjects(pairs, Some(staticLabels));
    var (key, s1) := LabelsOf(staticLabels, s, Some(merged)).value;
    LabelsKeeps(staticLabels, s, Some(merged));
    RecordKeeps(s1, key, merged, value);
  }

  /**
   * Given a Counter holding the cumulative counts of the observations `obs`
   * made with the merged pairs, a safe observation leaves it holding those of
   * obs + [value]; a Counter created by this observation starts from none.
   */
  lemma ObserveCumulative(staticLabels: Obj, s: Store, pairs: Option<Obj>, value: real, obs: seq<real>)
    requires value >= 0.0
    requires var merged := MergeObjects(pairs, Some(staticLabels));
             var key := CounterKey(Some(merged));
             && (key in s.counters ==> HistogramFacts.Cumulative(s.counters[key].state, LeAddress(merged), InfKey(), obs)
                                       && HistogramFacts.SafeObservation(s.counters[key].state.buckets, value))
             && (key !in s.counters ==> obs == [])
    ensures var merged := MergeObjects(pairs, Some(staticLabels));
            ObserveOf(staticLabels, s, pairs, value).Ok? ==>
              var s2 := ObserveOf(staticLabels, s, pairs, value).value;
              HistogramFacts.Cumulative(s2.counters[CounterKey(Some(merged))].state, LeAddress(merged), InfKey(), obs + [value])
  {
    var merged := MergeObjects(pairs, Some(staticLabels));
    var r := LabelsOf(staticLabels, s, Some(merged));
    if r.Ok? {
      var (key, s1) := r.value;
      var st := s1.counters[key].state;
      if key !in s.counters {
        HistogramFacts.CumulativeInitial(LeAddress(merged), InfKey());
        assert HistogramFacts.SafeObservation(st.buckets, value) by {
          assert st.buckets == [];
        }
      }
      HistogramFacts.ObserveSpecCumulative(st, merged, obs, value);
    }
  }

  /** The collector of lib/histogram.js: its name, help and static labels, and the store it updates. */
  class Histogram {
    const name: string
    const help: string
    const staticLabels: Obj
    var counters: map<MetricKey, CounterEntry>
    var sums: map<MetricKey, real>

    function Contents(): Store
      reads this
    {
      Store(counters, sums)
    }

    ghost predicate Valid()
      reads this
    {
      StoreValid(Contents())
    }

    /** Lines 23-39: the static labels merge the options' labels over the parent's; no Counters, no sums. */
    constructor (name: string, help: string, labels: Option<Obj>, parentLabels: Option<Obj>)
      ensures this.name == name && this.help == help
      ensures staticLabels == MergeObjects(parentLabels, labels)
      ensures Contents() == Store(map[], map[])
      ensures Valid()
    {
      this.name := name;
      this.help := help;
      staticLabels := MergeObjects(parentLabels, labels);
      counters := map[];
      sums := map[];
    }

    /**
     * Lines 175-184 and 272-279: a new Counter with the histogram's name and
     * help and the given labels, filed under `key`. Unless it is the 'default'
     * Counter, the running sum of its label set is started. The Counter
     * constructor throws when the trimmed labels fail checkValid, and then
     * nothing changes.
     */
    method NewCounter(key: MetricKey, labels: Obj) returns (r: Result<MetricKey>)
      requires Valid() && key !in counters
      modifies this
      ensures Valid()
      ensures var statics := MergeObjects(Some(labels), None);
              FirstLabelError(Trim(statics)).Some? ==>
                r == Err(FirstLabelError(Trim(statics)).value) && counters == old(counters) && sums == old(sums)
      ensures var statics := MergeObjects(Some(labels), None);
              FirstLabelError(Trim(statics)).None? ==>
                && r == Ok(key)
                && counters == old(counters)[key := CounterEntry(statics, CounterState([], map[]))]
                && sums == if key == DefaultKey then old(sums) else old(sums)[SumKey(statics) := SumOf(old(sums), SumKey(statics))]
    {
      ghost var statics := MergeObjects(Some(labels), None);
      var c := Counter.Create(name, help, Some(labels), None);
      if c.Err? {
        return Err(c.error);
      }
      assert c.value.metricVec.Values() == map[];
      var e := CounterEntry(c.value.staticLabels, StateOf(c.value));
      assert e == CounterEntry(statics, CounterState([], map[]));
      if key != DefaultKey {
        var l := SumKey(e.staticLabels);
        sums := sums[l := SumOf(sums, l)];
      }
      counters := counters[key := e];
      r := Ok(key);
    }

    /** Lines 270-281: the 'default' Counter, created with the static labels the first time it is asked for. */
    method DefaultCounter() returns (r: Result<MetricKey>)
      requires Valid()
      modifies this
      ensures Valid()
      ensures LabelsOf(staticLabels, old(Contents()), None) == (if r.Ok? then Ok((r.value, Contents())) else Err(r.error))
      ensures r.Err? ==> Contents() == old(Contents())
    {
      if DefaultKey in counters {
        return Ok(DefaultKey);
      }
      r := NewCounter(DefaultKey, staticLabels);
    }

    /**
     * Lines 156-186: the Counter of `pairs`, named by the key it is filed
     * under, and the store afterwards, as LabelsOf says.
     */
    method Labels(pairs: Option<Obj>) returns (r: Result<MetricKey>)
      requires Valid()
      modifies this
      ensures Valid()
      ensures LabelsOf(staticLabels, old(Contents()), pairs) == (if r.Ok? then Ok((r.value, Contents())) else Err(r.error))
      ensures r.Err? ==> Contents() == old(Contents())
    {
      if pairs.None? || pairs.value == [] {
        r := DefaultCounter();
        return;
      }
      var trimmed := Trim(pairs.value);
      var lhash := HashObj(trimmed);
      var key := HashKey(lhash);
      if key in counters {
        return Ok(key);
      }
      r := NewCounter(key, MergeObjects(Some(trimmed), Some(staticLabels)));
    }

    /**
     * Lines 47-148: observe(value, pairs) changes the store as ObserveOf
     * says, and changes nothing when it throws.
     */
    method Observe(value: real, pairs: Option<Obj>) returns (o: Outcome)
      requires Valid()
      modifies this
      ensures Valid()
      ensures ObserveOf(staticLabels, old(Contents()), pairs, value) == (if o.Pass? then Ok(Contents()) else Err(o.error))
      ensures o.Fail? ==> Contents() == old(Contents())
    {
      if value < 0.0 {
        return Fail(NegativeObservation);
      }
      var merged := MergeObjects(pairs, Some(staticLabels));
      var r := Labels(Some(merged));
      if r.Err? {
        return Fail(r.error);
      }
      RecordOn(r.value, merged, value);
      o := Pass;
    }

    /** Lines 69-147 on the Counter filed under `key`, as Record says. */
    method RecordOn(key: MetricKey, merged: Obj, value: real)
      requires Valid() && key in counters
      modifies this
      ensures Valid()
      ensures Contents() == Record(old(Contents()), key, merged, value)
    {
      RecordKeeps(Contents(), key, merged, value);
      var s2 := Record(Contents(), key, merged, value);
      counters := s2.counters;
      sums := s2.sums;
    }
  }
}
