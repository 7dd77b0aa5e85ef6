/**
 * examples/artedi_v1_buckets.js: the bucket boundaries node-artedi 1.x could
 * generate, and artedi1Buckets(min, max), which cuts from that table the
 * window of boundaries that covers [min, max].
 */
module ArtediV1Buckets {
  import opened Common

  /**
   * POSSIBLE_ARTEDI_1_BUCKETS: every boundary version 1.x could produce,
   * written row by row as the source lays them out.
   */
  const Table: seq<real> :=
    [0.0001, 0.0002, 0.0003, 0.0004, 0.0005, 0.0006, 0.0007, 0.0008, 0.0009] +
    [0.001, 0.002, 0.003, 0.004, 0.005, 0.006, 0.007, 0.008, 0.009] +
    [0.01, 0.02, 0.03, 0.04, 0.05, 0.06, 0.07, 0.08, 0.09] +
    [0.18, 0.27, 0.36, 0.45, 0.54, 0.63, 0.72, 0.81] +
    [1.62, 2.43, 3.24, 4.05, 4.86, 5.67, 6.48, 7.29, 8.1] +
    [25.0, 42.0, 59.0, 76.0] +
    [228.0, 380.0, 532.0, 684.0] +
    [2052.0, 3420.0, 4788.0, 6156.0] +
    [18468.0, 30780.0, 43092.0, 55404.0] +
    [166212.0, 277020.0, 387828.0, 498636.0] +
    [1495908.0, 2493180.0, 3490452.0, 4487724.0] +
    [13463172.0, 22438620.0, 31414068.0, 40389516.0] +
    [121168548.0, 201947580.0, 282726612.0, 363505644.0] +
    [1090516932.0, 1817528220.0, 2544539508.0, 3271550796.0]

  /** The default min, the largest min accepted, and the default and largest max. */
  const MinMin: real := Table[0]
  const MaxMin: real := Table[|Table| - 2]
  const MaxMax: real := Table[|Table| - 1]

  ghost predicate StrictlyIncreasing(s: seq<real>)
  {
    forall i, j :: 0 <= i < j < |s| ==> s[i] < s[j]
  }

  /** Each boundary in the table is smaller than the next one. */
  lemma TableSteps()
    ensures forall i :: 0 <= i < |Table| - 1 ==> Table[i] < Table[i + 1]
  {
    SmallSteps();
    LargeSteps();
  }

  /** The steps up to 8.1, taken one row of the table at a time. */
  lemma SmallSteps()
    ensures forall i :: 0 <= i < 44 ==> Table[i] < Table[i + 1]
  {
    forall i | 0 <= i < 44
      ensures Table[i] < Table[i + 1]
    {
      if i < 9 {} else if i < 18 {} else if i < 27 {} else if i < 35 {} else {}
    }
  }

  /** The steps from 8.1 on, taken one row of the table at a time. */
  lemma LargeSteps()
    ensures forall i :: 44 <= i < |Table| - 1 ==> Table[i] < Table[i + 1]
  {
    forall i | 44 <= i < |Table| - 1
      ensures Table[i] < Table[i + 1]
    {
      if i < 48 {} else if i < 52 {} else if i < 56 {} else if i < 60 {} else if i < 64 {}
      else if i < 68 {} else if i < 72 {} else if i < 76 {} else {}
    }
  }

  lemma {:induction false} StepsIncreasing(s: seq<real>, n: nat)
    requires forall i :: 0 <= i < |s| - 1 ==> s[i] < s[i + 1]
    requires n <= |s|
    ensures forall i, j :: 0 <= i < j < n ==> s[i] < s[j]
  {
    if n > 1 {
      StepsIncreasing(s, n - 1);
      assert forall i :: 0 <= i < n - 1 ==> s[i] < s[n - 1] by {
        forall i | 0 <= i < n - 1
          ensures s[i] < s[n - 1]
        {
          if i < n - 2 {
            assert s[i] < s[n - 2];
          }
        }
      }
    }
  }

  /** POSSIBLE_ARTEDI_1_BUCKETS is strictly increasing. */
  lemma TableIncreasing()
    ensures StrictlyIncreasing(Table)
  {
    TableSteps();
    StepsIncreasing(Table, |Table|);
  }

  /** A window of a strictly increasing sequence is strictly increasing. */
  lemma SliceIncreasing(t: seq<real>, b: int, e: int)
    requires StrictlyIncreasing(t) && 0 <= b <= e < |t|
    ensures |t[b..e + 1]| >= 1 && StrictlyIncreasing(t[b..e + 1])
  {
    var w := t[b..e + 1];
    forall i, j | 0 <= i < j < |w|
      ensures w[i] < w[j]
    {
      assert w[i] == t[b + i] && w[j] == t[b + j];
    }
  }

  /**
   * The window t[b..e + 1] that artedi1Buckets cuts from the table t for
   * [lo, hi]: b is the first boundary at or above lo; e is the last boundary
   * when hi is the largest one, and otherwise the first boundary strictly
   * above hi.
   */
  ghost predicate Window(t: seq<real>, b: int, e: int, lo: real, hi: real)
  {
    && 0 <= b <= e < |t|
    && t[b] >= lo && (forall k :: 0 <= k < b ==> t[k] < lo)
    && if hi == t[|t| - 1] then e == |t| - 1
       else t[e] > hi && forall k :: 0 <= k < e ==> t[k] <= hi
  }

  /** The window is determined by [lo, hi]: there is at most one. */
  lemma WindowUnique(t: seq<real>, b: int, e: int, b2: int, e2: int, lo: real, hi: real)
    requires Window(t, b, e, lo, hi) && Window(t, b2, e2, lo, hi)
    ensures b == b2 && e == e2
  {
  }

  /**
   * The shortcut for the full range returns what the two searches would:
   * for an increasing table, the window for its first and last boundaries is
   * the whole table.
   */
  lemma WholeTableWindow(t: seq<real>)
    requires |t| >= 1 && StrictlyIncreasing(t)
    ensures Window(t, 0, |t| - 1, t[0], t[|t| - 1])
  {
  }

  /**
   * The two searches of artedi1Buckets over an increasing table: forward to
   * the first boundary at or above lo, which a lo no larger than the
   * second-to-last boundary keeps short of the last one; then, unless hi is
   * the last boundary, backward from the end to the last boundary at or
   * below hi, one past which the window ends. Below the first boundary the
   * backward comparison reads an undefined entry, which is never greater, so
   * that search stops at -1.
   */
  method Cut(t: seq<real>, lo: real, hi: real) returns (begin: int, end: int)
    requires |t| >= 2 && StrictlyIncreasing(t)
    requires lo < hi && lo <= t[|t| - 2] && hi <= t[|t| - 1]
    ensures Window(t, begin, end, lo, hi)
  {
    var i := 0;
    while t[i] < lo
      invariant 0 <= i <= |t| - 2
      invariant forall k :: 0 <= k < i ==> t[k] < lo
      decreases |t| - i
    {
      i := i + 1;
    }
    begin := i;

    if hi == t[|t| - 1] {
      end := |t| - 1;
    } else {
      i := |t| - 1;
      while i >= 0 && t[i] > hi
        invariant -1 <= i <= |t| - 1
        invariant forall k :: i < k < |t| ==> t[k] > hi
      {
        i := i - 1;
      }
      end := i + 1;
    }
  }

  /**
   * artedi1Buckets(min, max): absent arguments default to the first and
   * last boundaries; min < max, min at most the second-to-last boundary and
   * max at most the last one are asserted; the full range returns a copy of
   * the table; otherwise the window Cut finds is sliced from the table. The
   * result is a non-empty, strictly increasing window of the table.
   */
  method Artedi1Buckets(min: Option<real>, max: Option<real>) returns (r: Result<seq<real>>)
    ensures var lo, hi := min.GetOr(MinMin), max.GetOr(MaxMax);
            && (!(lo < hi) ==> r == Err(AssertionFailed("min must be < max")))
            && (lo < hi && lo > MaxMin ==> r == Err(AssertionFailed("min must be <= 2544539508")))
            && (lo < hi && lo <= MaxMin && hi > MaxMax ==> r == Err(AssertionFailed("max must be <= 3271550796")))
            && (lo < hi && lo <= MaxMin && hi <= MaxMax ==>
                  r.Ok? && exists b, e :: Window(Table, b, e, lo, hi) && r.value == Table[b..e + 1])
    ensures r.Ok? ==> |r.value| >= 1 && StrictlyIncreasing(r.value)
    ensures min.GetOr(MinMin) == MinMin && max.GetOr(MaxMax) == MaxMax ==> r == Ok(Table)
  {
    var lo, hi := min.GetOr(MinMin), max.GetOr(MaxMax);
    TableIncreasing();
    if !(lo < hi) {
      return Err(AssertionFailed("min must be < max"));
    }
    if !(lo <= MaxMin) {
      return Err(AssertionFailed("min must be <= 2544539508"));
    }
    if !(hi <= MaxMax) {
      return Err(AssertionFailed("max must be <= 3271550796"));
    }
    if lo == MinMin && hi == MaxMax {
      WholeTableWindow(Table);
      return Ok(Table);
    }
    var begin, end := Cut(Table, lo, hi);
    SliceIncreasing(Table, begin, end);
    r := Ok(Table[begin..end + 1]);
  }
}
