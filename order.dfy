/**
 * The log-linear boundaries of the histogram (getOrder in lib/histogram.js).
 *
 * With five linear steps per factor-of-ten jump the i-th "magnitude" is
 * [9^i, 3·9^i, 5·9^i, 7·9^i, 9·9^i]; each magnitude starts where the previous
 * one ends, and the eleven magnitudes i = 0..10 end at 9^11.
 */
module Order {
  import opened Common

  /** The number of linear steps per logarithmic jump; observe always passes 5. */
  const LinearSteps: int := 5
  /** The highest magnitude getOrder tries. */
  const High: nat := 10

  function Pow9(i: nat): (p: nat)
    ensures p >= 1
  {
    if i == 0 then 1 else 9 * Pow9(i - 1)
  }

  /** The k-th boundary of magnitude i is (2k + 1)·9^i. */
  function Magnitude(i: nat): (m: seq<int>)
    ensures |m| == 5
  {
    var p := Pow9(i);
    seq(5, k requires 0 <= k < 5 => (2 * k + 1) * p)
  }

  /** The last boundary of magnitude i, 9^(i+1). */
  function Top(i: nat): int {
    9 * Pow9(i)
  }

  /** The largest value getOrder places in a magnitude: the top of magnitude 10. */
  function MaxOrdered(): int {
    Pow9(High + 1)
  }

  /** The first magnitude, from `i` up to High, whose last boundary is at least `v`. */
  function FirstMagnitudeFrom(v: real, i: nat): (r: Option<nat>)
    ensures r.Some? ==> i <= r.value <= High && v <= Magnitude(r.value)[4] as real
    ensures r.Some? ==> forall j :: i <= j < r.value ==> v > Top(j) as real
    ensures r.None? ==> forall j :: i <= j <= High ==> v > Top(j) as real
    decreases High + 1 - i
  {
    if i > High then None
    else if v <= Magnitude(i)[4] as real then Some(i)
    else FirstMagnitudeFrom(v, i + 1)
  }

  /** The index of the magnitude getOrder returns for `v`, or None where it returns null. */
  function OrderOf(v: real): Option<nat> {
    FirstMagnitudeFrom(v, 0)
  }

  lemma {:induction false} Pow9Step(i: nat, j: nat)
    requires i < j
    ensures 9 * Pow9(i) <= Pow9(j)
  {
    if j > i + 1 { Pow9Step(i, j - 1); }
  }

  lemma Pow9Monotone(i: nat, j: nat)
    requires i <= j
    ensures Pow9(i) <= Pow9(j)
  {
    if i < j { Pow9Step(i, j); }
  }

  /** Magnitude i + 1 starts where magnitude i ends. */
  lemma MagnitudesOverlap(i: nat)
    ensures Magnitude(i)[4] == Magnitude(i + 1)[0]
  {
  }

  /** Every magnitude is strictly increasing. */
  lemma MagnitudeIncreasing(i: nat)
    ensures forall a, b :: 0 <= a < b < 5 ==> Magnitude(i)[a] < Magnitude(i)[b]
  {
  }

  /** getOrder returns null exactly when the value exceeds 9^11, the top of magnitude 10. */
  lemma OrderNullIff(v: real)
    ensures OrderOf(v).None? <==> v > MaxOrdered() as real
  {
    if OrderOf(v).None? {
      assert v > Top(High) as real;
    } else {
      var i := OrderOf(v).value;
      Pow9Monotone(i + 1, High + 1);
    }
  }

  /** getOrder returns the first magnitude whose last boundary is at least the value. */
  lemma OrderIsFirst(v: real)
    requires OrderOf(v).Some?
    ensures v <= Magnitude(OrderOf(v).value)[4] as real
    ensures OrderOf(v).value > 0 ==> v > Magnitude(OrderOf(v).value - 1)[4] as real
  {
  }

  /** The position of the first element of `s` that `v` does not exceed. */
  function FirstAtLeast(v: real, s: seq<int>): (k: nat)
    ensures k <= |s|
    ensures forall j :: 0 <= j < k ==> v > s[j] as real
    ensures k < |s| ==> v <= s[k] as real
  {
    if s == [] then 0
    else if v <= s[0] as real then 0
    else 1 + FirstAtLeast(v, s[1..])
  }

  /** The boundary observe files a value under: the first boundary of its magnitude at least the value. */
  function Target(v: real, i: nat): int
    requires v <= Magnitude(i)[4] as real
  {
    Magnitude(i)[FirstAtLeast(v, Magnitude(i))]
  }

  /** A boundary of magnitude j: the k-th of Magnitude(j), for some k < 5 and j <= High. */
  ghost predicate IsBoundary(b: int) {
    exists j, k :: 0 <= j <= High && 0 <= k < 5 && b == Magnitude(j)[k]
  }

  lemma Pow9Order(i: nat, j: nat)
    ensures i < j ==> 9 * Pow9(i) <= Pow9(j)
  {
    if i < j { Pow9Step(i, j); }
  }

  lemma ScaleStrict(a: int, b: int, p: int)
    requires p >= 1
    ensures a * p < b * p <==> a < b
  {
    if a < b {
      assert b * p - a * p == (b - a) * p;
    } else {
      assert a * p - b * p == (a - b) * p;
    }
  }

  /** There is no boundary strictly between two consecutive boundaries of one magnitude. */
  lemma NoBoundaryBetween(i: nat, k: nat, j: nat, m: nat)
    requires 0 < k < 5 && m < 5
    requires Magnitude(i)[k - 1] < Magnitude(j)[m]
    ensures Magnitude(i)[k] <= Magnitude(j)[m]
  {
    var p, q := Pow9(i), Pow9(j);
    assert Magnitude(i)[k - 1] == (2 * k - 1) * p && Magnitude(i)[k] == (2 * k + 1) * p;
    assert Magnitude(j)[m] == (2 * m + 1) * q;
    if j < i {
      Pow9Step(j, i);
      ScaleStrict(2 * m + 1, 9, q);
      ScaleStrict(1, 2 * k - 1, p);
    } else if i < j {
      Pow9Step(i, j);
      ScaleStrict(2 * k + 1, 9, p);
      ScaleStrict(1, 2 * m + 1, q);
    } else {
      ScaleStrict(2 * k - 1, 2 * m + 1, p);
      ScaleStrict(2 * m + 1, 2 * k + 1, p);
    }
  }

  /**
   * Deciding whether a value lies at or below a boundary by comparing the
   * boundary with the value's target gives the same answer, for every
   * boundary of every magnitude: `v <= b` exactly when `Target <= b`.
   */
  lemma Ceiling(v: real, j: nat, m: nat)
    requires 0.0 <= v && OrderOf(v).Some?
    requires j <= High && m < 5
    ensures var i := OrderOf(v).value;
            (v <= Magnitude(j)[m] as real) <==> (Target(v, i) <= Magnitude(j)[m])
  {
    var i := OrderOf(v).value;
    var k := FirstAtLeast(v, Magnitude(i));
    var b := Magnitude(j)[m];
    var t := Target(v, i);
    assert b >= Pow9(j) >= 1;
    assert v <= t as real && t == Magnitude(i)[k];
    if t > b {
      assert v > b as real by {
        if k > 0 {
          assert v > Magnitude(i)[k - 1] as real;
          if Magnitude(i)[k - 1] < b {
            NoBoundaryBetween(i, k, j, m);
          }
        } else if i > 0 {
          OrderIsFirst(v);
          MagnitudesOverlap(i - 1);
        }
      }
    }
  }

  /**
   * One pass of getOrder's inner loop: starting at val = 9^i, writes
   * val, val + width, ... up to next = 10·9^i into `buckets` (overwriting the
   * previous magnitude), then steps `val` back by one width so that the next
   * magnitude starts at this one's last boundary.
   */
  method FillMagnitude(buckets: seq<int>, val: int, ghost i: nat) returns (filled: seq<int>, val': int)
    requires val == Pow9(i)
    requires |buckets| == 0 || |buckets| == 5
    ensures filled == Magnitude(i)
    ensures val' == Pow9(i + 1)
  {
    var p := val;
    var next := val * 10;
    var width := if next > LinearSteps then next / LinearSteps else 1;
    assert width == 2 * p;
    filled := buckets;
    val' := val;
    var j := 0;
    while val' <= next
      invariant 0 <= j <= 5
      invariant val' == (2 * j + 1) * p
      invariant |filled| == if |buckets| == 0 then j else 5
      invariant forall k :: 0 <= k < j ==> filled[k] == Magnitude(i)[k]
    {
      ScaleStrict(2 * j + 1, 10, p);
      if j < |filled| {
        filled := filled[j := val'];
      } else {
        filled := filled + [val'];
      }
      val' := val' + width;
      j := j + 1;
    }
    ScaleStrict(10, 2 * j + 1, p);
    val' := val' - width;
  }

  /**
   * getOrder(value, 5): builds each magnitude in turn, reusing one array, and
   * returns it at the first magnitude whose last boundary is at least the
   * value; null when no magnitude up to High qualifies.
   */
  method GetOrder(value: real) returns (r: Option<seq<int>>)
    ensures OrderOf(value).None? ==> r.None?
    ensures OrderOf(value).Some? ==> r == Some(Magnitude(OrderOf(value).value))
  {
    var buckets: seq<int> := [];
    var val := 1;
    var i := 0;
    while i <= High
      invariant 0 <= i <= High + 1
      invariant val == Pow9(i)
      invariant |buckets| == 0 || |buckets| == 5
      invariant OrderOf(value) == FirstMagnitudeFrom(value, i)
    {
      buckets, val := FillMagnitude(buckets, val, i);
      if value <= buckets[|buckets| - 1] as real {
        assert FirstMagnitudeFrom(value, i) == Some(i);
        return Some(buckets);
      }
      assert FirstMagnitudeFrom(value, i) == FirstMagnitudeFrom(value, i + 1);
      i := i + 1;
    }
    assert FirstMagnitudeFrom(value, i) == None;
    return None;
  }
}
