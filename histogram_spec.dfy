/**
 * What one observe() does to the Counter that holds a label set's buckets
 * (lib/histogram.js), stated on values: the boundary list and the value of
 * every cell, by key.
 *
 * The bucket cells are addressed with `pairCopy`, the merged pairs of the
 * observation with an 'le' label set to the boundary; the '+Inf' cell is
 * addressed with `{le: '+Inf'}` alone. The algorithm itself only needs the
 * cell of a boundary b to be `key(b)`, different boundaries to have different
 * cells and none of them to be the '+Inf' cell, so it is written over such an
 * addressing; LeAddressing shows that the addressing observe uses is one.
 */
module HistogramSpec {
  import opened Common
  import opened Labels
  import opened Sorting
  import opened MetricVectors
  import opened Order

  /** A Counter as observe sees it: the boundary list and the cell values. */
  datatype CounterState = CounterState(buckets: seq<int>, cells: map<MetricKey, real>)

  // ---------------------------------------------------------------------
  // Cell addressing

  /** `pairCopy['le'] = b`. */
  function LeLabels(pairs: Obj, b: int): Obj {
    Set(pairs, "le", Num(b as real))
  }

  /** The key of the bucket cell for boundary b. */
  function LeKey(pairs: Obj, b: int): MetricKey {
    KeyOf(LeLabels(pairs, b))
  }

  const InfLabels: Obj := [("le", Str("+Inf"))]

  /** The key of the '+Inf' cell. */
  function InfKey(): MetricKey {
    KeyOf(InfLabels)
  }

  /** The addressing observe uses: boundary b's cell is at `pairCopy` with 'le' set to b. */
  function LeAddress(pairs: Obj): int -> MetricKey {
    b => LeKey(pairs, b)
  }

  /** Different boundaries have different cells, and none of them is the '+Inf' cell. */
  ghost predicate Addressing(key: int -> MetricKey, inf: MetricKey) {
    && (forall a, b :: key(a) == key(b) ==> a == b)
    && (forall b :: key(b) != inf)
  }

  /** Different boundaries have different bucket cells. */
  lemma LeKeyInjective(pairs: Obj, a: int, b: int)
    ensures LeKey(pairs, a) == LeKey(pairs, b) <==> a == b
  {
    KeyOfSame(LeLabels(pairs, a), LeLabels(pairs, b));
    assert ToMap(LeLabels(pairs, a))["le"] == Num(a as real);
    assert ToMap(LeLabels(pairs, b))["le"] == Num(b as real);
  }

  /** No bucket cell is the '+Inf' cell. */
  lemma LeKeyNotInf(pairs: Obj, b: int)
    ensures LeKey(pairs, b) != InfKey()
  {
    KeyOfSame(LeLabels(pairs, b), InfLabels);
    assert ToMap(LeLabels(pairs, b))["le"] == Num(b as real);
    assert ToMap(InfLabels)["le"] == Str("+Inf");
  }

  /** The cells observe addresses through `pairCopy` form an addressing. */
  lemma LeAddressing(pairs: Obj)
    ensures Addressing(LeAddress(pairs), InfKey())
  {
    forall a, b | LeKey(pairs, a) == LeKey(pairs, b) ensures a == b {
      LeKeyInjective(pairs, a, b);
    }
    forall b ensures LeKey(pairs, b) != InfKey() {
      LeKeyNotInf(pairs, b);
    }
  }

  // ---------------------------------------------------------------------
  // The loops of observe, as functions of the state before them

  /** The last position whose boundary is below x: the `smaller` of lines 95-99. */
  function LastBelow(bs: seq<int>, x: int): (r: Option<nat>)
    ensures r.Some? ==> r.value < |bs| && bs[r.value] < x
    decreases |bs|
  {
    if bs == [] then None
    else if bs[|bs| - 1] < x then Some(|bs| - 1)
    else LastBelow(bs[..|bs| - 1], x)
  }

  /** Every boundary after the one LastBelow finds (or every boundary, when it finds none) is at least x. */
  lemma {:induction false} LastBelowIsLast(bs: seq<int>, x: int)
    ensures var r := LastBelow(bs, x);
            (r.Some? ==> forall j :: r.value < j < |bs| ==> bs[j] >= x)
            && (r.None? ==> forall j :: 0 <= j < |bs| ==> bs[j] >= x)
    decreases |bs|
  {
    if bs != [] && bs[|bs| - 1] >= x {
      var init := bs[..|bs| - 1];
      LastBelowIsLast(init, x);
      forall j | 0 <= j < |init| ensures bs[j] == init[j] { }
    }
  }

  /** Array.prototype.indexOf for a present element. */
  function IndexOf(bs: seq<int>, x: int): (k: nat)
    requires x in bs
    ensures k < |bs| && bs[k] == x
  {
    if bs[0] == x then 0 else 1 + IndexOf(bs[1..], x)
  }

  /** IndexOf finds the first occurrence. */
  lemma {:induction false} IndexOfIsFirst(bs: seq<int>, x: int)
    requires x in bs
    ensures forall j :: 0 <= j < IndexOf(bs, x) ==> bs[j] != x
  {
    if bs[0] != x {
      assert x in bs[1..] by {
        var k :| 0 <= k < |bs| && bs[k] == x;
        assert bs[1..][k - 1] == x;
      }
      IndexOfIsFirst(bs[1..], x);
      forall j | 0 < j < IndexOf(bs, x) ensures bs[j] != x {
        assert bs[j] == bs[1..][j - 1];
      }
    }
  }

  /** The seeding loop (lines 111-119): adds `count` to the cell of every boundary of `ms` other than `s`. */
  function SeedCells(cells: map<MetricKey, real>, key: int -> MetricKey, ms: seq<int>, s: int, count: real)
    : map<MetricKey, real>
    decreases |ms|
  {
    if ms == [] then cells
    else
      var c := SeedCells(cells, key, ms[..|ms| - 1], s, count);
      var b := ms[|ms| - 1];
      if b != s then AddAt(c, key(b), count) else c
  }

  /** The elements of `ms` not in `known`, in order. */
  function Missing(ms: seq<int>, known: seq<int>): (r: seq<int>)
    ensures forall y :: y in r <==> y in ms && y !in known
    ensures Distinct(ms) ==> Distinct(r)
  {
    if ms == [] then []
    else
      var rest := Missing(ms[1..], known);
      assert forall y :: y in rest ==> y in ms[1..];
      if ms[0] in known then rest else [ms[0]] + rest
  }

  /** The boundaries the seeding loop visits: the whole magnitude, or with `onlyNew` its new ones. */
  function Seeds(bs: seq<int>, i: nat, onlyNew: bool): (r: seq<int>)
    ensures forall y :: y in r ==> y in Magnitude(i)
    ensures forall y :: y in Magnitude(i) && y !in bs ==> y in r
    ensures onlyNew ==> forall y :: y in r ==> y !in bs
  {
    if onlyNew then Missing(Magnitude(i), bs) else Magnitude(i)
  }

  /**
   * The first n rounds of the increment pass (lines 129-138): positions
   * before `index` are only looked up (created at 0 when missing), the others
   * are incremented.
   */
  function IncrementCells(cells: map<MetricKey, real>, key: int -> MetricKey, bs: seq<int>, index: nat, n: nat)
    : map<MetricKey, real>
    requires n <= |bs|
  {
    if n == 0 then cells
    else
      var c := IncrementCells(cells, key, bs, index, n - 1);
      if n - 1 < index then Touch(c, key(bs[n - 1]))
      else AddAt(c, key(bs[n - 1]), 1.0)
  }

  /**
   * Lines 101-122: when the target boundary is new, the magnitude is merged
   * into the list and, if a boundary lay below the target, its count seeds
   * the boundaries of the magnitude. With `onlyNew` the seeding skips every
   * boundary that was already in the list, not only the one below the target.
   */
  function AfterSeeding(st: CounterState, key: int -> MetricKey, v: real, i: nat, onlyNew: bool): (r: CounterState)
    requires v <= Magnitude(i)[4] as real
    ensures Target(v, i) in r.buckets
    ensures Target(v, i) in st.buckets ==> r == st
    ensures Target(v, i) !in st.buckets ==> r.buckets == MergeBuckets(st.buckets, Magnitude(i))
  {
    var t := Target(v, i);
    if t in st.buckets then st
    else
      MergeBucketsMembers(st.buckets, Magnitude(i));
      var bs := MergeBuckets(st.buckets, Magnitude(i));
      var smaller := LastBelow(st.buckets, t);
      if smaller.None? then CounterState(bs, st.cells)
      else
        var s := bs[smaller.value];
        var cells := Touch(st.cells, key(s));
        var count := Get(cells, key(s));
        if count > 0.0 then CounterState(bs, SeedCells(cells, key, Seeds(st.buckets, i, onlyNew), s, count))
        else CounterState(bs, cells)
  }

  /** One accepted observation (value >= 0) on a Counter, leaving out the sum gauge. */
  function ObserveWith(st: CounterState, key: int -> MetricKey, inf: MetricKey, v: real, onlyNew: bool): CounterState {
    match OrderOf(v)
    case None => CounterState(st.buckets, AddAt(st.cells, inf, 1.0))
    case Some(i) =>
      var seeded := AfterSeeding(st, key, v, i, onlyNew);
      var index := IndexOf(seeded.buckets, Target(v, i));
      var cells := IncrementCells(seeded.cells, key, seeded.buckets, index, |seeded.buckets|);
      CounterState(seeded.buckets, AddAt(cells, inf, 1.0))
  }

  /** observe(v, pairs) on the Counter of `pairs`, as lib/histogram.js writes it. */
  function ObserveSpec(st: CounterState, pairs: Obj, v: real): CounterState {
    ObserveWith(st, LeAddress(pairs), InfKey(), v, false)
  }

  /** observe with the seeding restricted to boundaries that are new. */
  function ObserveCorrected(st: CounterState, pairs: Obj, v: real): CounterState {
    ObserveWith(st, LeAddress(pairs), InfKey(), v, true)
  }

  // ---------------------------------------------------------------------
  // What each loop does to each cell

  /** Seeding leaves every cell it does not seed as it was. */
  lemma {:induction false} SeedCellsOthers(cells: map<MetricKey, real>, key: int -> MetricKey, ms: seq<int>, s: int,
                                           count: real, k: MetricKey)
    requires forall b :: b in ms && b != s ==> k != key(b)
    ensures k in SeedCells(cells, key, ms, s, count) <==> k in cells
    ensures Get(SeedCells(cells, key, ms, s, count), k) == Get(cells, k)
    decreases |ms|
  {
    if ms != [] {
      assert forall b :: b in ms[..|ms| - 1] ==> b in ms;
      SeedCellsOthers(cells, key, ms[..|ms| - 1], s, count, k);
    }
  }

  /** Seeding adds `count` once to the cell of every boundary of `ms` other than `s`. */
  lemma {:induction false} SeedCellsAt(cells: map<MetricKey, real>, key: int -> MetricKey, ms: seq<int>, s: int,
                                       count: real, b: int)
    requires forall x, y :: key(x) == key(y) ==> x == y
    requires Distinct(ms) && b in ms && b != s
    ensures key(b) in SeedCells(cells, key, ms, s, count)
    ensures Get(SeedCells(cells, key, ms, s, count), key(b)) == Get(cells, key(b)) + count
    decreases |ms|
  {
    var init := ms[..|ms| - 1];
    var last := ms[|ms| - 1];
    assert ms == init + [last];
    assert Distinct(init);
    if b == last {
      assert b !in init;
      SeedCellsOthers(cells, key, init, s, count, key(b));
    } else {
      SeedCellsAt(cells, key, init, s, count, b);
    }
  }

  /** The increment pass leaves every cell outside its first n boundaries as it was. */
  lemma {:induction false} IncrementCellsOthers(cells: map<MetricKey, real>, key: int -> MetricKey, bs: seq<int>,
                                                index: nat, n: nat, k: MetricKey)
    requires n <= |bs|
    requires forall j :: 0 <= j < n ==> k != key(bs[j])
    ensures k in IncrementCells(cells, key, bs, index, n) <==> k in cells
    ensures Get(IncrementCells(cells, key, bs, index, n), k) == Get(cells, k)
  {
    if n > 0 {
      IncrementCellsOthers(cells, key, bs, index, n - 1, k);
    }
  }

  /**
   * After n rounds the j-th boundary (j < n) has a cell, which has gained one
   * exactly when j is at or after `index`.
   */
  lemma {:induction false} IncrementCellsAt(cells: map<MetricKey, real>, key: int -> MetricKey, bs: seq<int>,
                                            index: nat, n: nat, j: nat)
    requires forall x, y :: key(x) == key(y) ==> x == y
    requires n <= |bs| && Distinct(bs) && j < n
    ensures key(bs[j]) in IncrementCells(cells, key, bs, index, n)
    ensures Get(IncrementCells(cells, key, bs, index, n), key(bs[j]))
            == Get(cells, key(bs[j])) + (if j >= index then 1.0 else 0.0)
  {
    if j == n - 1 {
      IncrementCellsOthers(cells, key, bs, index, n - 1, key(bs[j]));
    } else {
      IncrementCellsAt(cells, key, bs, index, n - 1, j);
    }
  }
}
