/**
 * What observe promises about a Counter's cells: every bucket cell counts the
 * observations at or below its boundary, and the '+Inf' cell counts them all.
 *
 * The seeding of a new magnitude is what makes this hold for boundaries that
 * appear after observations were already made. It holds as written as long as
 * the new magnitude does not end on a boundary that is already present; when
 * it does, the seeding adds to that boundary's cell a second time
 * (OvercountSharedBoundary, SharedBoundaryOvercounted). Seeding only the new
 * boundaries keeps it always (ObserveCorrectedCumulative).
 */
module HistogramFacts {
  import opened Common
  import opened Labels
  import opened Sorting
  import opened MetricVectors
  import opened Order
  import opened HistogramSpec

  // ---------------------------------------------------------------------
  // Boundaries

  /** The k-th boundary of magnitude j lies between 9^j and 9^(j+1). */
  lemma MagnitudeBounds(j: nat, m: nat)
    requires m < 5
    ensures Pow9(j) <= Magnitude(j)[m] <= Pow9(j + 1)
  {
    ScaleStrict(2 * m + 1, 1, Pow9(j));
    ScaleStrict(9, 2 * m + 1, Pow9(j));
  }

  /** A boundary strictly inside (9^i, 9^(i+1)) belongs to magnitude i. */
  lemma InsideMagnitude(i: nat, j: nat, m: nat)
    ensures m < 5 && Pow9(i) < Magnitude(j)[m] < Pow9(i + 1) ==> j == i
  {
    if m < 5 { MagnitudeBounds(j, m); }
    Pow9Order(j, i);
    Pow9Order(i, j);
  }

  /** No boundary getOrder produces exceeds 9^11. */
  lemma BoundaryAtMost(j: nat, m: nat)
    requires j <= High && m < 5
    ensures Magnitude(j)[m] <= MaxOrdered()
  {
    MagnitudeBounds(j, m);
    Pow9Monotone(j + 1, High + 1);
  }

  /** The target of a value is a boundary of its magnitude at or above the value. */
  lemma TargetFacts(v: real, i: nat)
    requires v <= Magnitude(i)[4] as real
    ensures Target(v, i) in Magnitude(i)
    ensures v <= Target(v, i) as real
    ensures Pow9(i) <= Target(v, i) <= Pow9(i + 1)
  {
    var k := FirstAtLeast(v, Magnitude(i));
    MagnitudeBounds(i, k);
  }

  // ---------------------------------------------------------------------
  // Counting observations

  /** How many of the observations lie at or below boundary b. */
  function CountLe(obs: seq<real>, b: int): (n: nat)
    ensures n <= |obs|
  {
    if obs == [] then 0
    else CountLe(obs[..|obs| - 1], b) + (if obs[|obs| - 1] <= b as real then 1 else 0)
  }

  lemma CountLeSnoc(obs: seq<real>, v: real, b: int)
    ensures CountLe(obs + [v], b) == CountLe(obs, b) + (if v <= b as real then 1 else 0)
  {
    assert (obs + [v])[..|obs|] == obs;
  }

  /** With no observation in (s, b], boundaries s and b count the same. */
  lemma {:induction false} CountLeSame(obs: seq<real>, s: int, b: int)
    requires s <= b
    requires forall k :: 0 <= k < |obs| ==> !(s as real < obs[k] <= b as real)
    ensures CountLe(obs, b) == CountLe(obs, s)
  {
    if obs != [] {
      CountLeSame(obs[..|obs| - 1], s, b);
    }
  }

  /** With every observation above b, b counts none. */
  lemma {:induction false} CountLeNone(obs: seq<real>, b: int)
    requires forall k :: 0 <= k < |obs| ==> obs[k] > b as real
    ensures CountLe(obs, b) == 0
  {
    if obs != [] {
      CountLeNone(obs[..|obs| - 1], b);
    }
  }

  // ---------------------------------------------------------------------
  // The invariant

  /** Every boundary of magnitude j is in the list. */
  ghost predicate HasMagnitude(bs: seq<int>, j: nat) {
    j <= High && forall m :: 0 <= m < 5 ==> Magnitude(j)[m] in bs
  }

  /** The list is a union of whole magnitudes. */
  ghost predicate WholeMagnitudes(bs: seq<int>) {
    forall x :: x in bs ==> exists j: nat, m :: 0 <= m < 5 && x == Magnitude(j)[m] && HasMagnitude(bs, j)
  }

  /**
   * The state of a Counter after the observations `obs` (all made with the
   * same labels): the boundary list is sorted and made of whole magnitudes,
   * each bucket cell holds the number of observations at or below its
   * boundary, the '+Inf' cell holds the number of observations, there is no
   * bucket cell without a boundary, and every observation's target boundary
   * is in the list.
   */
  ghost predicate Cumulative(st: CounterState, key: int -> MetricKey, inf: MetricKey, obs: seq<real>) {
    && Sorted(st.buckets, IntLt)
    && WholeMagnitudes(st.buckets)
    && Counts(st, key, obs)
    && Get(st.cells, inf) == |obs| as real
    && NoStrayCells(st, key)
    && TargetsListed(st.buckets, obs)
  }

  /** Each listed boundary's cell holds the number of observations at or below it. */
  ghost predicate Counts(st: CounterState, key: int -> MetricKey, obs: seq<real>) {
    forall b :: b in st.buckets ==> Get(st.cells, key(b)) == CountLe(obs, b) as real
  }

  /** No bucket cell exists for a boundary that is not listed. */
  ghost predicate NoStrayCells(st: CounterState, key: int -> MetricKey) {
    forall b {:trigger key(b)} :: key(b) in st.cells ==> b in st.buckets
  }

  /** Every observation is non-negative, and its target boundary, if it has one, is listed. */
  ghost predicate TargetsListed(bs: seq<int>, obs: seq<real>) {
    forall k :: 0 <= k < |obs| ==> 0.0 <= obs[k] && (OrderOf(obs[k]).Some? ==> Target(obs[k], OrderOf(obs[k]).value) in bs)
  }

  /** A Counter with no observations: no boundaries, no cells. */
  lemma CumulativeInitial(key: int -> MetricKey, inf: MetricKey)
    ensures Cumulative(CounterState([], map[]), key, inf, [])
  {
  }

  /** Whether a value lies at or below a listed boundary can be read off its target. */
  lemma CeilingAt(bs: seq<int>, v: real, b: int)
    requires WholeMagnitudes(bs) && b in bs
    requires 0.0 <= v && OrderOf(v).Some?
    ensures (v <= b as real) <==> (Target(v, OrderOf(v).value) <= b)
  {
    var j: nat, m :| 0 <= m < 5 && b == Magnitude(j)[m] && HasMagnitude(bs, j);
    Ceiling(v, j, m);
  }

  /**
   * When a magnitude is missing from a list of whole magnitudes, no listed
   * boundary lies strictly inside its range.
   */
  lemma Gap(bs: seq<int>, i: nat, t: int)
    requires WholeMagnitudes(bs) && t in Magnitude(i) && t !in bs
    ensures forall x :: x in bs ==> x <= Pow9(i) || x >= Pow9(i + 1)
  {
    forall x | x in bs ensures x <= Pow9(i) || x >= Pow9(i + 1) {
      var j: nat, m :| 0 <= m < 5 && x == Magnitude(j)[m] && HasMagnitude(bs, j);
      InsideMagnitude(i, j, m);
    }
  }

  // ---------------------------------------------------------------------
  // The invariant across one observation

  /** Recording one more observation whose target is listed. */
  lemma TargetsSnoc(bs: seq<int>, obs: seq<real>, v: real)
    requires TargetsListed(bs, obs)
    requires 0.0 <= v && (OrderOf(v).Some? ==> Target(v, OrderOf(v).value) in bs)
    ensures TargetsListed(bs, obs + [v])
  {
    forall k | 0 <= k < |obs| + 1
      ensures 0.0 <= (obs + [v])[k]
      ensures OrderOf((obs + [v])[k]).Some? ==> Target((obs + [v])[k], OrderOf((obs + [v])[k]).value) in bs
    {
      if k < |obs| {
        assert (obs + [v])[k] == obs[k];
      }
    }
  }

  /** Listing more boundaries keeps every target listed. */
  lemma TargetsGrow(bs: seq<int>, bs': seq<int>, obs: seq<real>)
    requires TargetsListed(bs, obs)
    requires forall x :: x in bs ==> x in bs'
    ensures TargetsListed(bs', obs)
  {
  }

  /** A value above every magnitude only counts in '+Inf'. */
  lemma UnorderedKeeps(st: CounterState, key: int -> MetricKey, inf: MetricKey, obs: seq<real>, v: real)
    requires Addressing(key, inf) && Cumulative(st, key, inf, obs)
    requires 0.0 <= v && OrderOf(v).None?
    ensures Cumulative(CounterState(st.buckets, AddAt(st.cells, inf, 1.0)), key, inf, obs + [v])
  {
    var st' := CounterState(st.buckets, AddAt(st.cells, inf, 1.0));
    OrderNullIff(v);
    forall b | b in st.buckets
      ensures Get(st'.cells, key(b)) == CountLe(obs + [v], b) as real
    {
      var j: nat, m :| 0 <= m < 5 && b == Magnitude(j)[m] && HasMagnitude(st.buckets, j);
      BoundaryAtMost(j, m);
      CountLeSnoc(obs, v, b);
    }
    assert Counts(st', key, obs + [v]);
    assert NoStrayCells(st', key);
    TargetsSnoc(st.buckets, obs, v);
    assert |obs + [v]| == |obs| + 1;
  }

  /** The increment pass and the '+Inf' increment, cell by cell. */
  lemma IncrementPass(seeded: CounterState, key: int -> MetricKey, inf: MetricKey, t: int)
    requires Addressing(key, inf) && Sorted(seeded.buckets, IntLt) && t in seeded.buckets
    ensures var bs := seeded.buckets;
            var final := AddAt(IncrementCells(seeded.cells, key, bs, IndexOf(bs, t), |bs|), inf, 1.0);
            && (forall b :: b in bs ==> Get(final, key(b)) == Get(seeded.cells, key(b)) + (if t <= b then 1.0 else 0.0))
            && (forall x :: key(x) in final ==> key(x) in seeded.cells || x in bs)
            && Get(final, inf) == Get(seeded.cells, inf) + 1.0
  {
    var bs := seeded.buckets;
    var index := IndexOf(bs, t);
    var inc := IncrementCells(seeded.cells, key, bs, index, |bs|);
    SortedIsDistinct(bs);
    forall b | b in bs
      ensures Get(inc, key(b)) == Get(seeded.cells, key(b)) + (if t <= b then 1.0 else 0.0)
    {
      var p :| 0 <= p < |bs| && bs[p] == b;
      IncrementCellsAt(seeded.cells, key, bs, index, |bs|, p);
      assert p >= index <==> t <= b;
    }
    forall x | key(x) in inc && x !in bs
      ensures key(x) in seeded.cells
    {
      IncrementCellsOthers(seeded.cells, key, bs, index, |bs|, key(x));
    }
    IncrementCellsOthers(seeded.cells, key, bs, index, |bs|, inf);
  }

  /** Once the target boundary is listed, the increment pass counts the new value everywhere. */
  lemma IncrementKeeps(seeded: CounterState, key: int -> MetricKey, inf: MetricKey, obs: seq<real>, v: real, i: nat)
    requires Addressing(key, inf) && Cumulative(seeded, key, inf, obs)
    requires 0.0 <= v && OrderOf(v) == Some(i)
    requires Target(v, i) in seeded.buckets
    ensures var bs := seeded.buckets;
            var final := AddAt(IncrementCells(seeded.cells, key, bs, IndexOf(bs, Target(v, i)), |bs|), inf, 1.0);
            Cumulative(CounterState(bs, final), key, inf, obs + [v])
  {
    var bs := seeded.buckets;
    var final := AddAt(IncrementCells(seeded.cells, key, bs, IndexOf(bs, Target(v, i)), |bs|), inf, 1.0);
    var st' := CounterState(bs, final);
    IncrementPass(seeded, key, inf, Target(v, i));
    forall b | b in bs
      ensures Get(final, key(b)) == CountLe(obs + [v], b) as real
    {
      CeilingAt(bs, v, b);
      CountLeSnoc(obs, v, b);
    }
    assert Counts(st', key, obs + [v]);
    assert NoStrayCells(st', key);
    TargetsSnoc(bs, obs, v);
    assert |obs + [v]| == |obs| + 1;
  }

  // ---------------------------------------------------------------------
  // Seeding a new magnitude

  /** Merging a whole magnitude into a list of whole magnitudes. */
  lemma MergeWhole(bs: seq<int>, i: nat)
    requires Sorted(bs, IntLt) && WholeMagnitudes(bs) && i <= High
    ensures Sorted(MergeBuckets(bs, Magnitude(i)), IntLt)
    ensures forall y :: y in MergeBuckets(bs, Magnitude(i)) <==> y in bs || y in Magnitude(i)
    ensures WholeMagnitudes(MergeBuckets(bs, Magnitude(i)))
  {
    var bs' := MergeBuckets(bs, Magnitude(i));
    MergeBucketsFacts(bs, Magnitude(i));
    forall x | x in bs'
      ensures exists j: nat, m :: 0 <= m < 5 && x == Magnitude(j)[m] && HasMagnitude(bs', j)
    {
      if x in bs {
        var j: nat, m :| 0 <= m < 5 && x == Magnitude(j)[m] && HasMagnitude(bs, j);
        assert HasMagnitude(bs', j);
      } else {
        var m :| 0 <= m < 5 && x == Magnitude(i)[m];
        assert HasMagnitude(bs', i);
      }
    }
  }

  /** A listed boundary below the target lies at or below the boundary `smaller` names. */
  lemma BelowTargetBelowSmaller(bs: seq<int>, t: int, x: int)
    requires Sorted(bs, IntLt) && x in bs && x < t
    ensures LastBelow(bs, t).Some?
    ensures x <= bs[LastBelow(bs, t).value]
  {
    var p :| 0 <= p < |bs| && bs[p] == x;
    var sm := LastBelow(bs, t);
    assert sm.Some? && p <= sm.value;
  }

  /**
   * When the target's magnitude is missing, `smaller` names a boundary at or
   * below the magnitude's first one, and it names the same boundary once the
   * magnitude is merged in.
   */
  lemma SmallerStable(bs: seq<int>, v: real, i: nat)
    requires Sorted(bs, IntLt) && WholeMagnitudes(bs)
    requires v <= Magnitude(i)[4] as real && Target(v, i) !in bs
    requires LastBelow(bs, Target(v, i)).Some?
    ensures var sm := LastBelow(bs, Target(v, i)).value;
            && bs[sm] <= Pow9(i)
            && sm < |MergeBuckets(bs, Magnitude(i))|
            && MergeBuckets(bs, Magnitude(i))[sm] == bs[sm]
  {
    var t := Target(v, i);
    var sm := LastBelow(bs, t).value;
    TargetFacts(v, i);
    Gap(bs, i, t);
    forall y | y in Magnitude(i) && y !in bs
      ensures bs[sm] < y
    {
      var m :| 0 <= m < 5 && y == Magnitude(i)[m];
      MagnitudeBounds(i, m);
      assert bs[sm] in bs;
    }
    assert bs[sm] in bs;
    MergeBucketsKeepsPrefix(bs, Magnitude(i), sm);
    var bs' := MergeBuckets(bs, Magnitude(i));
    assert bs'[sm] == bs'[..sm + 1][sm];
  }

  /**
   * An earlier observation at or below a boundary the new magnitude adds lies
   * at or below the boundary `smaller` names (which therefore exists).
   */
  lemma ObservationBelowNew(bs: seq<int>, v: real, i: nat, m: nat, o: real)
    requires Sorted(bs, IntLt) && WholeMagnitudes(bs)
    requires 0.0 <= v && OrderOf(v) == Some(i) && Target(v, i) !in bs
    requires m < 5 && Magnitude(i)[m] !in bs
    requires 0.0 <= o && (OrderOf(o).Some? ==> Target(o, OrderOf(o).value) in bs)
    requires o <= Magnitude(i)[m] as real
    ensures LastBelow(bs, Target(v, i)).Some?
    ensures o <= bs[LastBelow(bs, Target(v, i)).value] as real
  {
    var t := Target(v, i);
    TargetFacts(v, i);
    Gap(bs, i, t);
    MagnitudeBounds(i, m);
    BoundaryAtMost(i, m);
    OrderNullIff(o);
    var j := OrderOf(o).value;
    var to := Target(o, j);
    TargetFacts(o, j);
    Ceiling(o, i, m);
    BelowTargetBelowSmaller(bs, t, to);
  }

  /**
   * A boundary the new magnitude adds counts the same observations as the
   * boundary `smaller` names, or none when there is no such boundary.
   */
  lemma NewBoundaryCount(st: CounterState, key: int -> MetricKey, inf: MetricKey, obs: seq<real>, v: real, i: nat, m: nat)
    requires Cumulative(st, key, inf, obs)
    requires 0.0 <= v && OrderOf(v) == Some(i)
    requires Target(v, i) !in st.buckets
    requires m < 5 && Magnitude(i)[m] !in st.buckets
    ensures var sm := LastBelow(st.buckets, Target(v, i));
            && (sm.None? ==> CountLe(obs, Magnitude(i)[m]) == 0)
            && (sm.Some? ==> CountLe(obs, Magnitude(i)[m]) == CountLe(obs, st.buckets[sm.value]))
  {
    var bs := st.buckets;
    var b := Magnitude(i)[m];
    var sm := LastBelow(bs, Target(v, i));
    assert TargetsListed(bs, obs);
    forall k | 0 <= k < |obs| && obs[k] <= b as real
      ensures sm.Some? && obs[k] <= bs[sm.value] as real
    {
      ObservationBelowNew(bs, v, i, m, obs[k]);
    }
    if sm.None? {
      CountLeNone(obs, b);
    } else {
      SmallerStable(bs, v, i);
      MagnitudeBounds(i, m);
      CountLeSame(obs, bs[sm.value], b);
    }
  }

  /** Seeds are distinct. */
  lemma SeedsDistinct(bs: seq<int>, i: nat, onlyNew: bool)
    ensures Distinct(Seeds(bs, i, onlyNew))
  {
    MagnitudeIncreasing(i);
  }

  /**
   * A boundary that was listed before keeps its count through the seeding:
   * it is not visited, or it is the one `smaller` names. As written this needs
   * the magnitude's last boundary not to be listed already.
   */
  lemma OldBoundaryNotSeeded(bs: seq<int>, i: nat, t: int, onlyNew: bool, b: int)
    requires Sorted(bs, IntLt)
    requires forall x :: x in bs ==> x <= Pow9(i) || x >= Pow9(i + 1)
    requires Pow9(i) <= t && t !in bs
    requires LastBelow(bs, t).Some? && bs[LastBelow(bs, t).value] <= Pow9(i)
    requires onlyNew || Magnitude(i)[4] !in bs
    requires b in bs
    ensures b !in Seeds(bs, i, onlyNew) || b == bs[LastBelow(bs, t).value]
  {
    if !onlyNew && b in Magnitude(i) {
      var m :| 0 <= m < 5 && b == Magnitude(i)[m];
      MagnitudeBounds(i, m);
      MagnitudeBounds(i, 4);
      assert b == Pow9(i);
      BelowTargetBelowSmaller(bs, t, b);
    }
  }

  /** Seeding with no boundary below the target only merges the magnitude in. */
  lemma SeedingWithoutSmaller(st: CounterState, key: int -> MetricKey, inf: MetricKey, obs: seq<real>, v: real, i: nat)
    requires Addressing(key, inf) && Cumulative(st, key, inf, obs)
    requires 0.0 <= v && OrderOf(v) == Some(i) && Target(v, i) !in st.buckets
    requires LastBelow(st.buckets, Target(v, i)).None?
    ensures Cumulative(CounterState(MergeBuckets(st.buckets, Magnitude(i)), st.cells), key, inf, obs)
  {
    var bs' := MergeBuckets(st.buckets, Magnitude(i));
    var st' := CounterState(bs', st.cells);
    MergeWhole(st.buckets, i);
    forall b | b in bs'
      ensures Get(st.cells, key(b)) == CountLe(obs, b) as real
    {
      if b !in st.buckets {
        var m :| 0 <= m < 5 && b == Magnitude(i)[m];
        NewBoundaryCount(st, key, inf, obs, v, i, m);
      }
    }
    assert Counts(st', key, obs);
    assert NoStrayCells(st', key);
    TargetsGrow(st.buckets, bs', obs);
  }

  /** The boundary `smaller` names, in the list before the merge. */
  function SmallerBoundary(bs: seq<int>, v: real, i: nat): int
    requires v <= Magnitude(i)[4] as real
    requires LastBelow(bs, Target(v, i)).Some?
  {
    bs[LastBelow(bs, Target(v, i)).value]
  }

  /** The cells after seeding from boundary s with the count `count`. */
  function SeededCells(st: CounterState, key: int -> MetricKey, i: nat, onlyNew: bool, s: int, count: real)
    : map<MetricKey, real>
  {
    var cells1 := Touch(st.cells, key(s));
    if count > 0.0 then SeedCells(cells1, key, Seeds(st.buckets, i, onlyNew), s, count) else cells1
  }

  /** What the seeding computes when a boundary lies below the new target. */
  lemma SeedingShape(st: CounterState, key: int -> MetricKey, inf: MetricKey, obs: seq<real>, v: real, i: nat,
                     onlyNew: bool)
    requires Cumulative(st, key, inf, obs)
    requires 0.0 <= v && OrderOf(v) == Some(i) && Target(v, i) !in st.buckets
    requires LastBelow(st.buckets, Target(v, i)).Some?
    ensures SmallerBoundary(st.buckets, v, i) in st.buckets
    ensures var s := SmallerBoundary(st.buckets, v, i);
            AfterSeeding(st, key, v, i, onlyNew)
            == CounterState(MergeBuckets(st.buckets, Magnitude(i)),
                            SeededCells(st, key, i, onlyNew, s, CountLe(obs, s) as real))
  {
    SmallerStable(st.buckets, v, i);
  }

  /** After seeding, every listed boundary counts what it should. */
  lemma SeededCounts(st: CounterState, key: int -> MetricKey, inf: MetricKey, obs: seq<real>, v: real, i: nat,
                     onlyNew: bool)
    requires Addressing(key, inf) && Cumulative(st, key, inf, obs)
    requires 0.0 <= v && OrderOf(v) == Some(i) && Target(v, i) !in st.buckets
    requires LastBelow(st.buckets, Target(v, i)).Some?
    requires onlyNew || Magnitude(i)[4] !in st.buckets
    ensures var s := SmallerBoundary(st.buckets, v, i);
            Counts(CounterState(MergeBuckets(st.buckets, Magnitude(i)),
                                SeededCells(st, key, i, onlyNew, s, CountLe(obs, s) as real)), key, obs)
  {
    var bs := st.buckets;
    var bs' := MergeBuckets(bs, Magnitude(i));
    MergeBucketsFacts(bs, Magnitude(i));
    var s := SmallerBoundary(bs, v, i);
    var count := CountLe(obs, s) as real;
    var cells1 := Touch(st.cells, key(s));
    var seeds := Seeds(bs, i, onlyNew);
    var cells := SeededCells(st, key, i, onlyNew, s, count);
    SeedsDistinct(bs, i, onlyNew);
    TargetFacts(v, i);
    Gap(bs, i, Target(v, i));
    SmallerStable(bs, v, i);
    forall b | b in bs'
      ensures Get(cells, key(b)) == CountLe(obs, b) as real
    {
      if b in bs {
        OldBoundaryNotSeeded(bs, i, Target(v, i), onlyNew, b);
        if count > 0.0 {
          SeedCellsOthers(cells1, key, seeds, s, count, key(b));
        }
      } else {
        var m :| 0 <= m < 5 && b == Magnitude(i)[m];
        NewBoundaryCount(st, key, inf, obs, v, i, m);
        if count > 0.0 {
          SeedCellsAt(cells1, key, seeds, s, count, b);
        }
      }
    }
  }

  /** After seeding there is still no bucket cell without a boundary, and '+Inf' is untouched. */
  lemma SeededCellsBounded(st: CounterState, key: int -> MetricKey, inf: MetricKey, obs: seq<real>, v: real, i: nat,
                           onlyNew: bool, s: int, count: real)
    requires Addressing(key, inf) && Cumulative(st, key, inf, obs)
    requires i <= High && s in st.buckets
    ensures NoStrayCells(CounterState(MergeBuckets(st.buckets, Magnitude(i)), SeededCells(st, key, i, onlyNew, s, count)), key)
    ensures Get(SeededCells(st, key, i, onlyNew, s, count), inf) == |obs| as real
  {
    var bs' := MergeBuckets(st.buckets, Magnitude(i));
    MergeBucketsFacts(st.buckets, Magnitude(i));
    var cells1 := Touch(st.cells, key(s));
    var seeds := Seeds(st.buckets, i, onlyNew);
    var cells := SeededCells(st, key, i, onlyNew, s, count);
    forall x | key(x) in cells
      ensures x in bs'
    {
      if count > 0.0 && x !in seeds {
        SeedCellsOthers(cells1, key, seeds, s, count, key(x));
      }
    }
    if count > 0.0 {
      SeedCellsOthers(cells1, key, seeds, s, count, inf);
    }
  }

  /** Seeding from the boundary below the target. */
  lemma SeedingWithSmaller(st: CounterState, key: int -> MetricKey, inf: MetricKey, obs: seq<real>, v: real, i: nat,
                           onlyNew: bool)
    requires Addressing(key, inf) && Cumulative(st, key, inf, obs)
    requires 0.0 <= v && OrderOf(v) == Some(i) && Target(v, i) !in st.buckets
    requires LastBelow(st.buckets, Target(v, i)).Some?
    requires onlyNew || Magnitude(i)[4] !in st.buckets
    ensures Cumulative(AfterSeeding(st, key, v, i, onlyNew), key, inf, obs)
  {
    var bs' := MergeBuckets(st.buckets, Magnitude(i));
    SeedingShape(st, key, inf, obs, v, i, onlyNew);
    var s := SmallerBoundary(st.buckets, v, i);
    var count := CountLe(obs, s) as real;
    SeededCounts(st, key, inf, obs, v, i, onlyNew);
    SeededCellsBounded(st, key, inf, obs, v, i, onlyNew, s, count);
    MergeWhole(st.buckets, i);
    TargetsGrow(st.buckets, bs', obs);
  }

  /**
   * The seeding keeps the invariant for the observations made so far, and
   * leaves the target listed. As written, this needs the magnitude not to end
   * on an already listed boundary when the target is new.
   */
  lemma SeedingKeeps(st: CounterState, key: int -> MetricKey, inf: MetricKey, obs: seq<real>, v: real, i: nat,
                     onlyNew: bool)
    requires Addressing(key, inf) && Cumulative(st, key, inf, obs)
    requires 0.0 <= v && OrderOf(v) == Some(i)
    requires onlyNew || Target(v, i) in st.buckets || Magnitude(i)[4] !in st.buckets
    ensures Cumulative(AfterSeeding(st, key, v, i, onlyNew), key, inf, obs)
  {
    if Target(v, i) !in st.buckets {
      if LastBelow(st.buckets, Target(v, i)).None? {
        SeedingWithoutSmaller(st, key, inf, obs, v, i);
      } else {
        SeedingWithSmaller(st, key, inf, obs, v, i, onlyNew);
      }
    }
  }

  // ---------------------------------------------------------------------
  // The invariant across observe

  /**
   * An observation that does not make observe seed a boundary twice: it has
   * no magnitude, its target is listed already, or its magnitude's last
   * boundary is not listed yet.
   */
  predicate SafeObservation(bs: seq<int>, v: real) {
    match OrderOf(v)
    case None => true
    case Some(i) => Target(v, i) in bs || Magnitude(i)[4] !in bs
  }

  lemma ObserveKeeps(st: CounterState, key: int -> MetricKey, inf: MetricKey, obs: seq<real>, v: real, onlyNew: bool)
    requires Addressing(key, inf) && Cumulative(st, key, inf, obs)
    requires 0.0 <= v
    requires onlyNew || SafeObservation(st.buckets, v)
    ensures Cumulative(ObserveWith(st, key, inf, v, onlyNew), key, inf, obs + [v])
  {
    match OrderOf(v)
    case None =>
      UnorderedKeeps(st, key, inf, obs, v);
    case Some(i) =>
      SeedingKeeps(st, key, inf, obs, v, i, onlyNew);
      IncrementKeeps(AfterSeeding(st, key, v, i, onlyNew), key, inf, obs, v, i);
  }

  /**
   * With the seeding restricted to new boundaries, every bucket cell of a
   * label set counts the observations at or below its boundary, and '+Inf'
   * counts them all, after any sequence of observations.
   */
  lemma ObserveCorrectedCumulative(st: CounterState, pairs: Obj, obs: seq<real>, v: real)
    requires Cumulative(st, LeAddress(pairs), InfKey(), obs)
    requires 0.0 <= v
    ensures Cumulative(ObserveCorrected(st, pairs, v), LeAddress(pairs), InfKey(), obs + [v])
  {
    LeAddressing(pairs);
    ObserveKeeps(st, LeAddress(pairs), InfKey(), obs, v, true);
  }

  /** As written, observe keeps the counts right for every observation that is safe. */
  lemma ObserveSpecCumulative(st: CounterState, pairs: Obj, obs: seq<real>, v: real)
    requires Cumulative(st, LeAddress(pairs), InfKey(), obs)
    requires 0.0 <= v && SafeObservation(st.buckets, v)
    ensures Cumulative(ObserveSpec(st, pairs, v), LeAddress(pairs), InfKey(), obs + [v])
  {
    LeAddressing(pairs);
    ObserveKeeps(st, LeAddress(pairs), InfKey(), obs, v, false);
  }

  /**
   * Whatever the Counter held, one observation adds exactly one to the
   * '+Inf' cell, the count of all observations: neither the seeding nor the
   * increment pass touches it.
   */
  lemma InfGainsOneWith(st: CounterState, key: int -> MetricKey, inf: MetricKey, v: real, onlyNew: bool)
    requires Addressing(key, inf)
    ensures Get(ObserveWith(st, key, inf, v, onlyNew).cells, inf) == Get(st.cells, inf) + 1.0
  {
    match OrderOf(v)
    case None =>
    case Some(i) =>
      OrderIsFirst(v);
      var seeded := AfterSeeding(st, key, v, i, onlyNew);
      assert Get(seeded.cells, inf) == Get(st.cells, inf) by {
        var t := Target(v, i);
        if t !in st.buckets {
          var smaller := LastBelow(st.buckets, t);
          if smaller.Some? {
            MergeBucketsMembers(st.buckets, Magnitude(i));
            var s := MergeBuckets(st.buckets, Magnitude(i))[smaller.value];
            var cells := Touch(st.cells, key(s));
            SeedCellsOthers(cells, key, Seeds(st.buckets, i, onlyNew), s, Get(cells, key(s)), inf);
          }
        }
      }
      var index := IndexOf(seeded.buckets, Target(v, i));
      forall j | 0 <= j < |seeded.buckets| ensures inf != key(seeded.buckets[j]) {
        var b := seeded.buckets[j];
        assert key(b) != inf;
      }
      IncrementCellsOthers(seeded.cells, key, seeded.buckets, index, |seeded.buckets|, inf);
  }

  /** observe as written counts every accepted value once in the '+Inf' cell, safe or not. */
  lemma InfGainsOne(st: CounterState, pairs: Obj, v: real)
    ensures Get(ObserveSpec(st, pairs, v).cells, InfKey()) == Get(st.cells, InfKey()) + 1.0
  {
    LeAddressing(pairs);
    InfGainsOneWith(st, LeAddress(pairs), InfKey(), v, false);
  }

  // ---------------------------------------------------------------------
  // Where observe as written over-counts

  /** The seeding adds the count below the target to a shared last boundary. */
  lemma SeededSharedBoundary(st: CounterState, key: int -> MetricKey, v: real, i: nat, count: real)
    requires forall x, y :: key(x) == key(y) ==> x == y
    requires v <= Magnitude(i)[4] as real && Target(v, i) !in st.buckets
    requires LastBelow(st.buckets, Target(v, i)).Some?
    requires var sm := LastBelow(st.buckets, Target(v, i)).value;
             && sm < |MergeBuckets(st.buckets, Magnitude(i))|
             && MergeBuckets(st.buckets, Magnitude(i))[sm] == st.buckets[sm]
             && st.buckets[sm] < Magnitude(i)[4]
    requires count == Get(st.cells, key(SmallerBoundary(st.buckets, v, i))) && count >= 0.0
    ensures Get(AfterSeeding(st, key, v, i, false).cells, key(Magnitude(i)[4]))
            == Get(st.cells, key(Magnitude(i)[4])) + count
  {
    var top := Magnitude(i)[4];
    var s := SmallerBoundary(st.buckets, v, i);
    var cells1 := Touch(st.cells, key(s));
    assert Get(cells1, key(s)) == count;
    assert Get(cells1, key(top)) == Get(st.cells, key(top));
    if count > 0.0 {
      MagnitudeIncreasing(i);
      SeedCellsAt(cells1, key, Magnitude(i), s, count, top);
    }
  }

  /** The shared last boundary after the seeding, in terms of the observations. */
  lemma SeededSharedCount(st: CounterState, key: int -> MetricKey, inf: MetricKey, obs: seq<real>, v: real, i: nat)
    requires Addressing(key, inf) && Cumulative(st, key, inf, obs)
    requires v <= Magnitude(i)[4] as real
    requires Target(v, i) !in st.buckets && Magnitude(i)[4] in st.buckets
    requires LastBelow(st.buckets, Target(v, i)).Some?
    ensures var s := SmallerBoundary(st.buckets, v, i);
            Get(AfterSeeding(st, key, v, i, false).cells, key(Magnitude(i)[4]))
            == (CountLe(obs, Magnitude(i)[4]) + CountLe(obs, s)) as real
    ensures Sorted(AfterSeeding(st, key, v, i, false).buckets, IntLt)
    ensures Magnitude(i)[4] in AfterSeeding(st, key, v, i, false).buckets
  {
    var top := Magnitude(i)[4];
    var merged := MergeBuckets(st.buckets, Magnitude(i));
    assert Sorted(merged, IntLt) && top in merged by {
      MergeBucketsFacts(st.buckets, Magnitude(i));
    }
    var sm := LastBelow(st.buckets, Target(v, i)).value;
    var s := st.buckets[sm];
    assert sm < |merged| && merged[sm] == s && s < top by {
      SmallerStable(st.buckets, v, i);
      MagnitudeBounds(i, 4);
    }
    var count := Get(st.cells, key(s));
    assert count == CountLe(obs, s) as real && Get(st.cells, key(top)) == CountLe(obs, top) as real by {
      assert s in st.buckets;
    }
    SeededSharedBoundary(st, key, v, i, count);
  }

  /** The increment pass adds one to the cell of a listed boundary at or above the target. */
  lemma PassAtListed(st: CounterState, key: int -> MetricKey, inf: MetricKey, v: real, i: nat, b: int)
    requires Addressing(key, inf)
    requires 0.0 <= v && OrderOf(v) == Some(i)
    requires Sorted(AfterSeeding(st, key, v, i, false).buckets, IntLt)
    requires b in AfterSeeding(st, key, v, i, false).buckets && Target(v, i) <= b
    ensures Get(ObserveWith(st, key, inf, v, false).cells, key(b))
            == Get(AfterSeeding(st, key, v, i, false).cells, key(b)) + 1.0
  {
    IncrementPass(AfterSeeding(st, key, v, i, false), key, inf, Target(v, i));
  }

  /**
   * When a new magnitude ends on a boundary that is already listed, and a
   * boundary lies below the target, that shared boundary's cell ends up
   * above the number of observations at or below it by exactly the count of
   * the boundary below the target.
   */
  lemma OvercountSharedBoundary(st: CounterState, key: int -> MetricKey, inf: MetricKey, obs: seq<real>, v: real, i: nat)
    requires Addressing(key, inf) && Cumulative(st, key, inf, obs)
    requires 0.0 <= v && OrderOf(v) == Some(i)
    requires Target(v, i) !in st.buckets && Magnitude(i)[4] in st.buckets
    requires LastBelow(st.buckets, Target(v, i)).Some?
    ensures var s := SmallerBoundary(st.buckets, v, i);
            Get(ObserveWith(st, key, inf, v, false).cells, key(Magnitude(i)[4]))
            == (CountLe(obs + [v], Magnitude(i)[4]) + CountLe(obs, s)) as real
  {
    var top := Magnitude(i)[4];
    SeededSharedCount(st, key, inf, obs, v, i);
    TargetFacts(v, i);
    assert top == Pow9(i + 1);
    PassAtListed(st, key, inf, v, i, top);
    CountLeSnoc(obs, v, top);
  }

  /** The three magnitudes the trace below touches. */
  lemma TraceMagnitudes()
    ensures Magnitude(0) == [1, 3, 5, 7, 9]
    ensures Magnitude(2) == [81, 243, 405, 567, 729]
    ensures Magnitude(3) == [729, 2187, 3645, 5103, 6561]
  {
    assert Pow9(1) == 9 && Pow9(2) == 81 && Pow9(3) == 729;
  }

  /** 1 files under boundary 1 of magnitude 0. */
  lemma OrderOfOne()
    ensures OrderOf(1.0) == Some(0) && Target(1.0, 0) == 1
  {
    TraceMagnitudes();
  }

  /** 1000 files under boundary 2187 of magnitude 3. */
  lemma OrderOfThousand()
    ensures OrderOf(1000.0) == Some(3) && Target(1000.0, 3) == 2187
  {
    TraceMagnitudes();
    assert Pow9(1) == 9;
    assert FirstMagnitudeFrom(1000.0, 3) == Some(3);
    assert FirstMagnitudeFrom(1000.0, 0) == Some(3);
    assert FirstAtLeast(1000.0, Magnitude(3)) == 1;
  }

  /** 100 files under boundary 243 of magnitude 2. */
  lemma OrderOfHundred()
    ensures OrderOf(100.0) == Some(2) && Target(100.0, 2) == 243
  {
    TraceMagnitudes();
    assert FirstMagnitudeFrom(100.0, 2) == Some(2);
    assert FirstMagnitudeFrom(100.0, 0) == Some(2);
    assert FirstAtLeast(100.0, Magnitude(2)) == 1;
  }

  /** The boundary list after an observation. */
  lemma ObserveBuckets(st: CounterState, key: int -> MetricKey, inf: MetricKey, v: real, i: nat, onlyNew: bool)
    requires Sorted(st.buckets, IntLt)
    requires OrderOf(v) == Some(i)
    ensures forall x :: x in ObserveWith(st, key, inf, v, onlyNew).buckets
                        <==> x in st.buckets || (Target(v, i) !in st.buckets && x in Magnitude(i))
  {
    MergeBucketsFacts(st.buckets, Magnitude(i));
  }

  /** After observing 1: magnitude 0 is listed. */
  lemma TraceFirst(pairs: Obj)
    ensures var s1 := ObserveSpec(CounterState([], map[]), pairs, 1.0);
            && Cumulative(s1, LeAddress(pairs), InfKey(), [1.0])
            && forall x :: x in s1.buckets <==> x in Magnitude(0)
  {
    var s0 := CounterState([], map[]);
    CumulativeInitial(LeAddress(pairs), InfKey());
    OrderOfOne();
    TraceMagnitudes();
    ObserveSpecCumulative(s0, pairs, [], 1.0);
    ObserveBuckets(s0, LeAddress(pairs), InfKey(), 1.0, 0, false);
  }

  /** Observing 1000 next lists magnitude 3 as well. */
  lemma TraceSecond(s1: CounterState, pairs: Obj, obs: seq<real>)
    requires Cumulative(s1, LeAddress(pairs), InfKey(), obs)
    requires forall x :: x in s1.buckets <==> x in Magnitude(0)
    ensures var s2 := ObserveSpec(s1, pairs, 1000.0);
            && Cumulative(s2, LeAddress(pairs), InfKey(), obs + [1000.0])
            && forall x :: x in s2.buckets <==> x in Magnitude(0) || x in Magnitude(3)
  {
    OrderOfThousand();
    TraceMagnitudes();
    assert 6561 !in s1.buckets && 2187 !in s1.buckets;
    ObserveSpecCumulative(s1, pairs, obs, 1000.0);
    ObserveBuckets(s1, LeAddress(pairs), InfKey(), 1000.0, 3, false);
  }

  /** With magnitudes 0 and 3 listed, the boundary below 243 is 9. */
  lemma TraceSmaller(bs: seq<int>)
    requires Sorted(bs, IntLt)
    requires forall x :: x in bs <==> x in Magnitude(0) || x in Magnitude(3)
    ensures Magnitude(2)[4] == 729 && 729 in bs && 243 !in bs
    ensures LastBelow(bs, 243).Some? && bs[LastBelow(bs, 243).value] == 9
  {
    TraceMagnitudes();
    assert 9 in bs;
    BelowTargetBelowSmaller(bs, 243, 9);
    var s := bs[LastBelow(bs, 243).value];
    assert s in bs && s < 243;
  }

  /** The counts the trace compares. */
  lemma TraceCounts()
    ensures CountLe([1.0] + [1000.0] + [100.0], 729) == 2 && CountLe([1.0] + [1000.0], 9) == 1
    ensures CountLe([1.0, 1000.0, 100.0], 729) == 2
  {
    CountLeSnoc([], 1.0, 9);
    CountLeSnoc([1.0], 1000.0, 9);
    CountLeSnoc([], 1.0, 729);
    CountLeSnoc([1.0], 1000.0, 729);
    CountLeSnoc([1.0] + [1000.0], 100.0, 729);
    assert [1.0] + [1000.0] + [100.0] == [1.0, 1000.0, 100.0];
  }

  /** Observing 100 next adds the count of boundary 9 to the cell of boundary 729 on top of its own count. */
  lemma TraceThird(s2: CounterState, pairs: Obj, obs: seq<real>)
    requires Cumulative(s2, LeAddress(pairs), InfKey(), obs)
    requires forall x :: x in s2.buckets <==> x in Magnitude(0) || x in Magnitude(3)
    ensures Get(ObserveSpec(s2, pairs, 100.0).cells, LeKey(pairs, 729))
            == (CountLe(obs + [100.0], 729) + CountLe(obs, 9)) as real
  {
    LeAddressing(pairs);
    OrderOfHundred();
    TraceSmaller(s2.buckets);
    OvercountSharedBoundary(s2, LeAddress(pairs), InfKey(), obs, 100.0, 2);
  }

  /** Observing 1000 and then 100 after magnitude 0 alone is listed. */
  lemma TraceRest(s1: CounterState, pairs: Obj, obs: seq<real>)
    requires Cumulative(s1, LeAddress(pairs), InfKey(), obs)
    requires forall x :: x in s1.buckets <==> x in Magnitude(0)
    ensures var s3 := ObserveSpec(ObserveSpec(s1, pairs, 1000.0), pairs, 100.0);
            Get(s3.cells, LeKey(pairs, 729))
            == (CountLe(obs + [1000.0] + [100.0], 729) + CountLe(obs + [1000.0], 9)) as real
  {
    TraceSecond(s1, pairs, obs);
    TraceThird(ObserveSpec(s1, pairs, 1000.0), pairs, obs + [1000.0]);
  }

  /**
   * Observing 1, then 1000, then 100 with the same labels leaves the cell of
   * boundary 729 at 3, though only two of the values (1 and 100) are at or
   * below 729: observing 100 opens the magnitude 81..729, seeds it with the
   * count of boundary 9, and 729, listed since 1000 was observed, is seeded
   * too.
   */
  lemma SharedBoundaryOvercounted(pairs: Obj)
    ensures var s1 := ObserveSpec(CounterState([], map[]), pairs, 1.0);
            var s2 := ObserveSpec(s1, pairs, 1000.0);
            var s3 := ObserveSpec(s2, pairs, 100.0);
            Get(s3.cells, LeKey(pairs, 729)) == 3.0 && CountLe([1.0, 1000.0, 100.0], 729) == 2
  {
    var s1 := ObserveSpec(CounterState([], map[]), pairs, 1.0);
    TraceFirst(pairs);
    TraceRest(s1, pairs, [1.0]);
    TraceCounts();
  }
}
