/** The percentiles of the score summary (scripts/migrate-memory-md-to-qdrant.py, lines 267 to 291), over
    real numbers: rounding is not modelled. */
module ScoreSummary {

  ghost predicate Sorted(s: seq<real>) {
    forall i, j | 0 <= i <= j < |s| :: s[i] <= s[j]
  }

  /** The position of a percentile in a sorted list of n scores. */
  function Position(n: nat, p: real): real
    requires n >= 1
  {
    p * (n - 1) as real
  }

  /** The value a fraction of the way from one value to another. */
  function Mix(low: real, high: real, frac: real): real {
    low + frac * (high - low)
  }

  function Interpolate(s: seq<real>, position: real): real
    requires 0.0 <= position <= (|s| - 1) as real
  {
    var lo := position.Floor;
    var hi := if lo + 1 < |s| - 1 then lo + 1 else |s| - 1;
    Mix(s[lo], s[hi], position - lo as real)
  }

  function Percentile(s: seq<real>, p: real): real
    requires s != [] && 0.0 <= p <= 1.0
  {
    if |s| == 1 then s[0] else
      PositionInRange(|s|, p);
      Interpolate(s, Position(|s|, p))
  }

  lemma MixIsMonotone(low: real, high: real, f: real, g: real)
    requires low <= high && f <= g
    ensures Mix(low, high, f) <= Mix(low, high, g)
  {
  }

  lemma MixAtTheEnds(low: real, high: real)
    ensures Mix(low, high, 0.0) == low && Mix(low, high, 1.0) == high
  {
  }

  lemma PositionInRange(n: nat, p: real)
    requires n >= 1 && 0.0 <= p <= 1.0
    ensures 0.0 <= Position(n, p) <= (n - 1) as real
  {
    Fraction(p, (n - 1) as real);
  }

  lemma Fraction(p: real, m: real)
    requires 0.0 <= p <= 1.0 && 0.0 <= m
    ensures 0.0 <= p * m <= m
  {
    assert (1.0 - p) * m >= 0.0;
    assert (1.0 - p) * m == m - p * m;
  }

  lemma PositionIsMonotone(n: nat, p: real, q: real)
    requires n >= 1 && p <= q
    ensures Position(n, p) <= Position(n, q)
  {
    var m := (n - 1) as real;
    assert Position(n, p) == p * m && Position(n, q) == q * m;
  }

  lemma InterpolationIsBetween(s: seq<real>, x: real)
    requires Sorted(s) && 0.0 <= x <= (|s| - 1) as real
    ensures s[x.Floor] <= Interpolate(s, x)
    ensures x.Floor + 1 < |s| ==> Interpolate(s, x) <= s[x.Floor + 1]
  {
    hide Mix;
    var lo := x.Floor;
    var hi := if lo + 1 < |s| - 1 then lo + 1 else |s| - 1;
    MixAtTheEnds(s[lo], s[hi]);
    MixIsMonotone(s[lo], s[hi], 0.0, x - lo as real);
    MixIsMonotone(s[lo], s[hi], x - lo as real, 1.0);
  }

  lemma InterpolationIsMonotone(s: seq<real>, x: real, y: real)
    requires Sorted(s) && 0.0 <= x <= y <= (|s| - 1) as real
    ensures Interpolate(s, x) <= Interpolate(s, y)
  {
    hide Mix;
    var a, b := x.Floor, y.Floor;
    if a == b {
      MixIsMonotone(s[a], s[if a + 1 < |s| - 1 then a + 1 else |s| - 1], x - a as real, y - a as real);
    } else {
      InterpolationIsBetween(s, x);
      InterpolationIsBetween(s, y);
      assert s[a + 1] <= s[b];
    }
  }

  /** A percentile lies between the scores at the ranks around it. */
  lemma PercentileIsBetweenNeighbours(s: seq<real>, p: real)
    requires s != [] && Sorted(s) && 0.0 <= p <= 1.0
    ensures var rank := Position(|s|, p).Floor;
            0 <= rank < |s| && s[rank] <= Percentile(s, p) && (rank + 1 < |s| ==> Percentile(s, p) <= s[rank + 1])
  {
    hide Interpolate, Position;
    PositionInRange(|s|, p);
    if |s| > 1 {
      InterpolationIsBetween(s, Position(|s|, p));
    }
  }

  /** A higher percentile is never a lower score. */
  lemma PercentileIsMonotone(s: seq<real>, p: real, q: real)
    requires s != [] && Sorted(s) && 0.0 <= p <= q <= 1.0
    ensures Percentile(s, p) <= Percentile(s, q)
  {
    hide Interpolate, Position;
    if |s| > 1 {
      PositionInRange(|s|, p);
      PositionInRange(|s|, q);
      PositionIsMonotone(|s|, p, q);
      InterpolationIsMonotone(s, Position(|s|, p), Position(|s|, q));
    }
  }

  /** At the position of a rank, the percentile is the score of that rank: the extremes are the ends. */
  lemma PercentileAtARank(s: seq<real>, p: real, k: nat)
    requires k < |s| && 0.0 <= p <= 1.0 && p * (|s| - 1) as real == k as real
    ensures Percentile(s, p) == s[k]
  {
    hide Mix;
    var hi := if k + 1 < |s| - 1 then k + 1 else |s| - 1;
    MixAtTheEnds(s[k], s[hi]);
  }

  lemma MixIsWeighted(low: real, high: real, f: real)
    ensures Mix(low, high, f) == (1.0 - f) * low + f * high
  {
    assert f * (high - low) == f * high - f * low;
  }

  /** Between two ranks the percentile is their weighted mean, the closer rank weighing more; halfway it is
      the mean of both scores. */
  lemma PercentileBetweenRanks(s: seq<real>, p: real, k: nat, f: real)
    requires k + 1 < |s| && 0.0 <= p <= 1.0 && 0.0 <= f < 1.0 && p * (|s| - 1) as real == k as real + f
    ensures Percentile(s, p) == (1.0 - f) * s[k] + f * s[k + 1]
    ensures f == 0.5 ==> Percentile(s, p) == (s[k] + s[k + 1]) / 2.0
  {
    hide Mix;
    assert Position(|s|, p).Floor == k;
    MixIsWeighted(s[k], s[k + 1], f);
  }

  // ----- the two counts

  function CountIf(s: seq<real>, test: real -> bool): nat {
    if s == [] then 0 else (if test(s[0]) then 1 else 0) + CountIf(s[1..], test)
  }

  /** A count goes over the scores one by one. */
  lemma {:induction false} CountExactly(a: seq<real>, b: seq<real>, test: real -> bool)
    ensures CountIf(a + b, test) == CountIf(a, test) + CountIf(b, test)
    ensures forall x :: CountIf([x], test) == if test(x) then 1 else 0
  {
    if a == [] {
      assert a + b == b;
    } else {
      assert (a + b)[1..] == a[1..] + b;
      CountExactly(a[1..], b, test);
    }
  }

  lemma {:induction false} CountsAddUp(s: seq<real>, a: real -> bool, b: real -> bool, either: real -> bool)
    requires forall x :: either(x) <==> a(x) || b(x)
    requires forall x :: !(a(x) && b(x))
    ensures CountIf(s, either) == CountIf(s, a) + CountIf(s, b)
  {
    if s != [] {
      CountsAddUp(s[1..], a, b, either);
    }
  }

  /** A skipped score is never a near miss, and together they are the scores from the lower bound on. */
  lemma SkippedAndNearMisses(scores: seq<real>, p90: real, threshold: real)
    ensures var skipped := CountIf(scores, x => x >= threshold);
            var near := CountIf(scores, x => p90 <= x < threshold);
            skipped + near == CountIf(scores, x => x >= p90 || x >= threshold)
  {
    CountsAddUp(scores, x => x >= threshold, x => p90 <= x < threshold, x => x >= p90 || x >= threshold);
  }

  /** At most n - 1 - rank scores lie strictly above a percentile. */
  lemma {:induction false} FewScoresAbove(s: seq<real>, p: real, k: nat)
    requires s != [] && Sorted(s) && 0.0 <= p <= 1.0 && k <= |s|
    ensures CountIf(s[k..], x => x > Percentile(s, p)) <= |s| - 1 - Position(|s|, p).Floor
    ensures CountIf(s[k..], x => x > Percentile(s, p)) <= |s| - k
    decreases |s| - k
  {
    hide Percentile, Position;
    PercentileIsBetweenNeighbours(s, p);
    if k < |s| {
      FewScoresAbove(s, p, k + 1);
      assert s[k..][0] == s[k] && s[k..][1..] == s[k + 1..];
    }
  }
}
