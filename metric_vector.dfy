/**
 * lib/metric_vector.js: the cells of one collector, keyed by label set, with
 * a distinguished 'default' cell and the sorted boundary list histograms use.
 */
module MetricVectors {
  import opened Common
  import opened Labels
  import opened Sorting
  import opened Metrics

  /**
   * The key of a cell in `metrics`: the literal 'default', or the md5 hex
   * digest of a label set (which can never spell 'default').
   */
  datatype MetricKey = DefaultKey | HashKey(digest: Digest)

  /** The key hashObj gives a label object. */
  function KeyOf(labels: Obj): MetricKey {
    HashKey(Digest(Canonical(labels)))
  }

  /**
   * Two label objects share a key exactly when they hold the same pairs, in
   * whatever order: hashObj ignores insertion order and (md5 taken as
   * collision-free) tells different label sets apart.
   */
  lemma KeyOfSame(a: Obj, b: Obj)
    ensures KeyOf(a) == KeyOf(b) <==> ToMap(a) == ToMap(b)
  {
    CanonicalMeaning(a);
    CanonicalMeaning(b);
    if ToMap(a) == ToMap(b) {
      CanonicalOrderIndependent(a, b);
    }
  }

  // ---------------------------------------------------------------------
  // Cell values, as seen through a map from key to value

  /** The value of the cell at `k`; a cell that does not exist yet reads 0 once created. */
  function Get(m: map<MetricKey, real>, k: MetricKey): real {
    if k in m then m[k] else 0.0
  }

  /** Finding or creating the cell at `k` (a new cell holds 0). */
  function Touch(m: map<MetricKey, real>, k: MetricKey): (r: map<MetricKey, real>)
    ensures r.Keys == m.Keys + {k}
    ensures forall j :: j in r ==> Get(r, j) == Get(m, j)
  {
    if k in m then m else m[k := 0.0]
  }

  /** Finding or creating the cell at `k` and adding `v` to it. */
  function AddAt(m: map<MetricKey, real>, k: MetricKey, v: real): (r: map<MetricKey, real>)
    ensures r.Keys == m.Keys + {k}
    ensures Get(r, k) == Get(m, k) + v
    ensures forall j :: j != k ==> Get(r, j) == Get(m, j)
  {
    m[k := Get(m, k) + v]
  }

  // ---------------------------------------------------------------------
  // The boundary list

  function IntLt(a: int, b: int): bool {
    a < b
  }

  lemma IntLtIsOrder()
    ensures IsStrictTotalOrder(IntLt)
  {
  }

  lemma SortedIsDistinct(s: seq<int>)
    requires Sorted(s, IntLt)
    ensures Distinct(s)
  {
    forall i, j | 0 <= i < j < |s| ensures s[i] != s[j] {
      assert IntLt(s[i], s[j]);
    }
  }

  /** The forEach of addBuckets: pushes each new boundary that is not yet in the list. */
  function AppendMissing(acc: seq<int>, xs: seq<int>): (r: seq<int>)
    ensures |acc| <= |r| && r[..|acc|] == acc
    ensures forall y :: y in r <==> y in acc || y in xs
    ensures forall k :: |acc| <= k < |r| ==> r[k] !in acc
    ensures Distinct(acc) ==> Distinct(r)
    decreases |xs|
  {
    if xs == [] then acc
    else
      var r := AppendMissing(acc, xs[..|xs| - 1]);
      var x := xs[|xs| - 1];
      assert xs == xs[..|xs| - 1] + [x];
      if x in r then r else r + [x]
  }

  /** addBuckets: the known list with the missing new boundaries pushed, then sorted ascending. */
  function MergeBuckets(known: seq<int>, xs: seq<int>): seq<int> {
    Sort(AppendMissing(known, xs), IntLt)
  }

  /** addBuckets keeps the old boundaries and adds exactly the new ones. */
  lemma MergeBucketsMembers(known: seq<int>, xs: seq<int>)
    ensures forall y :: y in MergeBuckets(known, xs) <==> y in known || y in xs
  {
    SortMembers(AppendMissing(known, xs), IntLt);
  }

  /** After addBuckets the list is sorted, duplicate-free, and holds exactly the old and the new boundaries. */
  lemma MergeBucketsFacts(known: seq<int>, xs: seq<int>)
    requires Sorted(known, IntLt)
    ensures Sorted(MergeBuckets(known, xs), IntLt)
    ensures forall y :: y in MergeBuckets(known, xs) <==> y in known || y in xs
  {
    IntLtIsOrder();
    SortedIsDistinct(known);
    SortSorted(AppendMissing(known, xs), IntLt);
    MergeBucketsMembers(known, xs);
  }

  /** addBuckets with boundaries that are all present already leaves the list unchanged. */
  lemma MergeBucketsIdempotent(known: seq<int>, xs: seq<int>)
    requires Sorted(known, IntLt)
    requires forall x :: x in xs ==> x in known
    ensures MergeBuckets(known, xs) == known
  {
    IntLtIsOrder();
    MergeBucketsFacts(known, xs);
    forall y ensures y in MergeBuckets(known, xs) <==> y in known {
      if y in xs { assert y in known; }
    }
    SortedUnique(MergeBuckets(known, xs), known, IntLt);
  }

  lemma SuffixDistinct(a: seq<int>, n: nat)
    requires Distinct(a) && n <= |a|
    ensures Distinct(a[n..])
  {
    var t := a[n..];
    forall p, q | 0 <= p < q < |t| ensures t[p] != t[q] {
      assert t[p] == a[n + p] && t[q] == a[n + q];
    }
  }

  /**
   * When every boundary that addBuckets adds lies above known[j], the list up to
   * position j is unchanged: an index into the known list still names the same
   * boundary in the new one.
   */
  lemma MergeBucketsKeepsPrefix(known: seq<int>, xs: seq<int>, j: nat)
    requires Sorted(known, IntLt) && j < |known|
    requires forall y :: y in xs && y !in known ==> known[j] < y
    ensures |MergeBuckets(known, xs)| > j
    ensures MergeBuckets(known, xs)[..j + 1] == known[..j + 1]
  {
    IntLtIsOrder();
    SortedIsDistinct(known);
    var a := AppendMissing(known, xs);
    var added := a[|known|..];
    assert a == known + added;
    InsertAllConcat([], known, added, IntLt);
    SortOfSorted(known, IntLt);
    SuffixDistinct(a, |known|);
    forall y | y in added ensures y !in known && IntLt(known[j], y) {
      var k :| 0 <= k < |added| && added[k] == y;
      assert a[|known| + k] == y;
    }
    InsertAllKeepsPrefix(known, added, j, IntLt);
  }

  /** One line of the exposition text: a cell's labels and value. */
  datatype Sample = Sample(labels: Option<Obj>, value: real)

  class MetricVector {
    const name: string
    const staticLabels: Option<Obj>
    var metrics: map<MetricKey, Metric>
    var buckets: seq<int>

    /** Every key holds its own cell, and the boundary list is sorted ascending. */
    ghost predicate Valid()
      reads this
    {
      && Sorted(buckets, IntLt)
      && forall k1, k2 :: k1 in metrics && k2 in metrics && k1 != k2 ==> metrics[k1] != metrics[k2]
    }

    /** The value of every cell, by key. */
    function Values(): map<MetricKey, real>
      reads this, metrics.Values
    {
      map k | k in metrics :: metrics[k].value
    }

    constructor Init(name: string, staticLabels: Option<Obj>)
      ensures this.name == name && this.staticLabels == staticLabels
      ensures metrics == map[] && buckets == []
      ensures Valid()
    {
      this.name := name;
      this.staticLabels := staticLabels;
      metrics := map[];
      buckets := [];
    }

    /**
     * The MetricVector constructor: static labels are trimmed and must pass
     * checkValid, or construction throws; the vector starts with no cells and
     * no boundaries.
     */
    static method Create(name: string, labels: Option<Obj>) returns (r: Result<MetricVector>)
      ensures labels.Some? && FirstLabelError(Trim(labels.value)).Some? ==>
                r == Err(FirstLabelError(Trim(labels.value)).value)
      ensures labels.None? || FirstLabelError(Trim(labels.value)).None? ==>
                && r.Ok? && fresh(r.value) && r.value.Valid()
                && r.value.name == name
                && r.value.staticLabels == (if labels.Some? then Some(Trim(labels.value)) else None)
                && r.value.metrics == map[] && r.value.buckets == []
    {
      var statics := labels;
      if statics.Some? {
        statics := Some(Trim(statics.value));
        var err := CheckValid(statics);
        if err.Some? {
          return Err(err.value);
        }
      }
      var v := new MetricVector.Init(name, statics);
      return Ok(v);
    }

    /** addBuckets: push the missing boundaries, then sort the list in place. */
    method AddBuckets(newBuckets: seq<int>)
      requires Valid()
      modifies this
      ensures buckets == MergeBuckets(old(buckets), newBuckets)
      ensures metrics == old(metrics) && Values() == old(Values())
      ensures Valid()
    {
      var i := 0;
      while i < |newBuckets|
        invariant 0 <= i <= |newBuckets|
        invariant buckets == AppendMissing(old(buckets), newBuckets[..i])
        invariant metrics == old(metrics)
      {
        assert newBuckets[..i + 1][..i] == newBuckets[..i];
        if newBuckets[i] !in buckets {
          buckets := buckets + [newBuckets[i]];
        }
        i := i + 1;
      }
      assert newBuckets[..i] == newBuckets;
      buckets := Sort(buckets, IntLt);
      MergeBucketsFacts(old(buckets), newBuckets);
    }

    /** getDefault: the 'default' cell, created once with the static labels. */
    method GetDefault() returns (m: Metric)
      requires Valid()
      modifies this
      ensures DefaultKey in old(metrics) ==> metrics == old(metrics) && m == old(metrics[DefaultKey])
      ensures DefaultKey !in old(metrics) ==>
                && fresh(m) && metrics == old(metrics)[DefaultKey := m]
                && m.labels == staticLabels && m.value == 0.0
      ensures metrics.Keys == old(metrics.Keys) + {DefaultKey}
      ensures m == metrics[DefaultKey]
      ensures Values() == Touch(old(Values()), DefaultKey)
      ensures forall k :: k in old(metrics) ==> metrics[k] == old(metrics[k])
      ensures forall k :: k in metrics && k !in old(metrics) ==> fresh(metrics[k])
      ensures buckets == old(buckets)
      ensures Valid()
    {
      if DefaultKey !in metrics {
        var cell := new Metric(Some(MetricOptions(staticLabels)));
        metrics := metrics[DefaultKey := cell];
      }
      m := metrics[DefaultKey];
    }

    /** Whether `labels` deep-equal the labels of the 'default' cell. */
    predicate MatchesDefault(labels: Obj)
      reads this
    {
      DefaultKey in metrics && metrics[DefaultKey].labels.Some? &&
      ToMap(labels) == ToMap(metrics[DefaultKey].labels.value)
    }

    /** The key of the cell getWithLabels finds for `labels`, if any. */
    function Find(labels: Obj): (r: Option<MetricKey>)
      reads this
      ensures r.Some? ==> r.value in metrics
      ensures r == Some(DefaultKey) <==> MatchesDefault(labels)
      ensures r.None? <==> !MatchesDefault(labels) && KeyOf(labels) !in metrics
    {
      if MatchesDefault(labels) then Some(DefaultKey)
      else if KeyOf(labels) in metrics then Some(KeyOf(labels))
      else None
    }

    /** What getWithLabels finds depends only on the pairs, not on their order. */
    lemma FindOrderIndependent(a: Obj, b: Obj)
      requires ToMap(a) == ToMap(b)
      ensures Find(a) == Find(b)
    {
      KeyOfSame(a, b);
    }

    /**
     * getWithLabels: the 'default' cell when the labels deep-equal its labels,
     * otherwise the cell at the labels' hash, or nothing. Creates nothing.
     */
    method GetWithLabels(labels: Obj) returns (m: Option<Metric>)
      ensures Find(labels).None? ==> m.None?
      ensures Find(labels).Some? ==> m == Some(metrics[Find(labels).value])
    {
      if MatchesDefault(labels) {
        return Some(metrics[DefaultKey]);
      }
      var lhash := HashObj(labels);
      var key := HashKey(lhash);
      if key in metrics {
        m := Some(metrics[key]);
      } else {
        m := None;
      }
    }

    /** Copies the static labels, in order, over `copy`. */
    method AppendStatic(copy: Obj) returns (r: Obj)
      ensures r == Assign(copy, staticLabels.GetOr([]))
    {
      r := copy;
      if staticLabels.Some? {
        var statics := staticLabels.value;
        var i := 0;
        while i < |statics|
          invariant 0 <= i <= |statics|
          invariant r == Assign(copy, statics[..i])
        {
          AssignSnoc(copy, statics, i);
          r := Set(r, statics[i].0, statics[i].1);
          i := i + 1;
        }
        assert statics[..i] == statics;
      }
    }

    /** Stores a cell that no key holds yet under `key`, replacing any cell there. */
    method PutCell(key: MetricKey, m: Metric)
      requires Valid() && m !in metrics.Values
      modifies this
      ensures metrics == old(metrics)[key := m]
      ensures Values() == old(Values())[key := m.value]
      ensures buckets == old(buckets)
      ensures Valid()
    {
      metrics := metrics[key := m];
    }

    /**
     * createWithLabels: a new cell keyed by the hash of the caller's labels,
     * taken before the static labels are added; the cell's labels are the
     * caller's with the static labels overriding. Any cell at that key is
     * replaced.
     */
    method CreateWithLabels(labels: Obj) returns (m: Metric)
      requires Valid()
      modifies this
      ensures fresh(m) && metrics == old(metrics)[KeyOf(labels) := m]
      ensures m.labels == Some(Assign(labels, staticLabels.GetOr([]))) && m.value == 0.0
      ensures Values() == old(Values())[KeyOf(labels) := 0.0]
      ensures buckets == old(buckets)
      ensures Valid()
    {
      var copy := ShallowClone(labels);
      var lhash := HashObj(copy);
      copy := AppendStatic(copy);
      m := new Metric(Some(MetricOptions(Some(copy))));
      PutCell(HashKey(lhash), m);
    }

    /**
     * createOrGetWithLabels: the cell getWithLabels finds, or else a new one
     * from createWithLabels. At most one cell is added.
     */
    method CreateOrGetWithLabels(labels: Obj) returns (m: Metric)
      requires Valid()
      modifies this
      ensures old(Find(labels)).Some? ==> metrics == old(metrics) && m == metrics[old(Find(labels)).value]
      ensures old(Find(labels)).None? ==>
                && fresh(m) && metrics == old(metrics)[KeyOf(labels) := m]
                && m.labels == Some(Assign(labels, staticLabels.GetOr([]))) && m.value == 0.0
      ensures metrics.Keys == old(metrics.Keys) + {old(FindOrCreate(labels))}
      ensures m == metrics[old(FindOrCreate(labels))]
      ensures Values() == Touch(old(Values()), old(FindOrCreate(labels)))
      ensures forall k :: k in old(metrics) ==> metrics[k] == old(metrics[k])
      ensures forall k :: k in metrics && k !in old(metrics) ==> fresh(metrics[k])
      ensures |metrics| <= old(|metrics|) + 1
      ensures buckets == old(buckets)
      ensures Valid()
    {
      var met := GetWithLabels(labels);
      if met.Some? {
        return met.value;
      }
      m := CreateWithLabels(labels);
    }

    /** The key of the cell createOrGetWithLabels returns for `labels`. */
    function FindOrCreate(labels: Obj): (k: MetricKey)
      reads this
      ensures k in metrics ==> Find(labels) == Some(k)
    {
      match Find(labels)
      case Some(k) => k
      case None => KeyOf(labels)
    }

    /**
     * The line count of prometheus(): one sample per cell, with its labels and
     * value. The text format itself is not modelled.
     */
    method Samples() returns (samples: seq<Sample>)
      ensures |samples| == |metrics|
      ensures forall k :: k in metrics ==> Sample(metrics[k].labels, metrics[k].value) in samples
      ensures forall s :: s in samples ==> exists k :: k in metrics && s == Sample(metrics[k].labels, metrics[k].value)
    {
      samples := [];
      var pending := metrics.Keys;
      while pending != {}
        invariant pending <= metrics.Keys
        invariant |samples| + |pending| == |metrics|
        invariant forall k :: k in metrics && k !in pending ==> Sample(metrics[k].labels, metrics[k].value) in samples
        invariant forall s :: s in samples ==> exists k :: k in metrics && s == Sample(metrics[k].labels, metrics[k].value)
        decreases |pending|
      {
        var k :| k in pending;
        samples := samples + [Sample(metrics[k].labels, metrics[k].value)];
        pending := pending - {k};
      }
      assert metrics.Keys - pending == metrics.Keys;
    }
  }
}
