/** The event coincidence engine of eca.py: the binary normalizer, the
    coincidence summary, the Monte Carlo null distribution and the
    permutation p-value.

    A data frame is a row count and a map from column name to column; a
    cell is missing or a number.  Rates that the source reports as NaN are
    `None`; counts are unbounded integers; p-values and means are exact
    reals. */
module Eca {
  import opened Wrappers
  import opened Permutations

  /** A cell of a pandas column: missing (NaN or None) or a number. */
  datatype Cell = Missing | Num(x: real)

  /** A data frame: every column has `rows` cells. */
  datatype Frame = Frame(rows: nat, columns: map<string, seq<Cell>>)
  {
    predicate Valid()
    {
      forall name :: name in columns ==> |columns[name]| == rows
    }
  }

  /** Looking up a column the frame does not have (pandas raises KeyError). */
  datatype Error = MissingColumn(name: string)

  /** The summary dictionary: the joint count, the totals keyed by event
      name, and the two conditional rates keyed "<x> with <y>". */
  datatype Summary = Summary(
    coincidences: int,
    totals: map<string, int>,
    rates: map<string, Option<real>>)

  /** The analysis dictionary. */
  datatype Analysis = Analysis(
    summary: Summary,
    simulations: seq<int>,
    pValue: real,
    expectedRandomCoincidences: real)

  // ---------------------------------------------------------------------
  // Binary normalizer
  // ---------------------------------------------------------------------

  /** `astype(int)` on a float: truncation toward zero. */
  function TruncateToInt(x: real): (r: int)
    ensures 0.0 <= x ==> r as real <= x < r as real + 1.0
    ensures x < 0.0 ==> r as real - 1.0 < x <= r as real
  {
    if x >= 0.0 then x.Floor else -((-x).Floor)
  }

  function NormalizeCell(c: Cell): int
  {
    match c
    case Missing => 0
    case Num(x) => TruncateToInt(x)
  }

  /** `_binary_series`: missing cells become 0, every other cell is cast to
      an integer; nothing checks that the result is 0 or 1. */
  function BinarySeries(column: seq<Cell>): (r: seq<int>)
    ensures |r| == |column|
    ensures forall i :: 0 <= i < |column| && column[i].Missing? ==> r[i] == 0
    ensures forall i :: 0 <= i < |column| && column[i].Num? ==> r[i] == TruncateToInt(column[i].x)
  {
    seq(|column|, i requires 0 <= i < |column| => NormalizeCell(column[i]))
  }

  /** A column holding the given integers. */
  function FromInts(values: seq<int>): (column: seq<Cell>)
    ensures |column| == |values|
  {
    seq(|values|, i requires 0 <= i < |values| => Num(values[i] as real))
  }

  /** Integer cells pass through the normalizer unchanged, whatever their
      value: a 2 stays a 2. */
  lemma IntegersPassThrough(values: seq<int>)
    ensures BinarySeries(FromInts(values)) == values
  {
    var r := BinarySeries(FromInts(values));
    forall i | 0 <= i < |values|
      ensures r[i] == values[i]
    {
      assert FromInts(values)[i] == Num(values[i] as real);
    }
  }

  /** The series of a column of the frame. */
  function Series(df: Frame, name: string): (s: seq<int>)
    requires df.Valid() && name in df.columns
    ensures |s| == df.rows
  {
    BinarySeries(df.columns[name])
  }

  // ---------------------------------------------------------------------
  // Counting
  // ---------------------------------------------------------------------

  predicate IsBinary(s: seq<int>)
  {
    forall i :: 0 <= i < |s| ==> s[i] == 0 || s[i] == 1
  }

  /** `s.sum()` */
  function Sum(s: seq<int>): int
  {
    if s == [] then 0 else Sum(s[..|s| - 1]) + s[|s| - 1]
  }

  /** `np.dot(a, b)` */
  function Dot(a: seq<int>, b: seq<int>): int
    requires |a| == |b|
  {
    if a == [] then 0 else Dot(a[..|a| - 1], b[..|b| - 1]) + a[|a| - 1] * b[|b| - 1]
  }

  /** The rows where both events occur. */
  ghost function BothOccur(a: seq<int>, b: seq<int>): set<nat>
    requires |a| == |b|
  {
    set i: nat | i < |a| && a[i] == 1 && b[i] == 1
  }

  /** On 0/1 series the dot product counts the rows where both events occur. */
  lemma {:induction false} DotCountsCoincidences(a: seq<int>, b: seq<int>)
    requires |a| == |b| && IsBinary(a) && IsBinary(b)
    ensures Dot(a, b) == |BothOccur(a, b)|
  {
    if a != [] {
      var n := |a| - 1;
      var a', b' := a[..n], b[..n];
      DotCountsCoincidences(a', b');
      if a[n] == 1 && b[n] == 1 {
        assert BothOccur(a, b) == BothOccur(a', b') + {n};
        assert n !in BothOccur(a', b');
      } else {
        assert BothOccur(a, b) == BothOccur(a', b');
      }
    }
  }

  /** The joint count does not depend on which event comes first. */
  lemma {:induction false} DotSymmetric(a: seq<int>, b: seq<int>)
    requires |a| == |b|
    ensures Dot(a, b) == Dot(b, a)
  {
    if a != [] {
      DotSymmetric(a[..|a| - 1], b[..|b| - 1]);
    }
  }

  /** On 0/1 series the joint count lies between 0 and either total. */
  lemma {:induction false} DotBounds(a: seq<int>, b: seq<int>)
    requires |a| == |b| && IsBinary(a) && IsBinary(b)
    ensures 0 <= Dot(a, b) <= Sum(a)
    ensures Dot(a, b) <= Sum(b)
  {
    if a != [] {
      DotBounds(a[..|a| - 1], b[..|b| - 1]);
    }
  }

  /** On a 0/1 series the total is the number of ones. */
  lemma {:induction false} SumCountsOnes(s: seq<int>)
    requires IsBinary(s)
    ensures Sum(s) == multiset(s)[1]
  {
    if s != [] {
      var n := |s| - 1;
      SumCountsOnes(s[..n]);
      assert s == s[..n] + [s[n]];
      assert multiset(s) == multiset(s[..n]) + multiset{s[n]};
    }
  }

  /** A shuffled 0/1 series is a 0/1 series with the same total. */
  lemma ShuffleKeepsTotal(b: seq<int>, p: seq<nat>)
    requires IsBinary(b) && IsPermutation(p, |b|)
    ensures IsBinary(Shuffle(b, p))
    ensures Sum(Shuffle(b, p)) == Sum(b)
  {
    var s := Shuffle(b, p);
    ShuffleKeepsMultiset(b, p);
    forall i | 0 <= i < |s|
      ensures s[i] == 0 || s[i] == 1
    {
      assert s[i] in multiset(b);
    }
    SumCountsOnes(b);
    SumCountsOnes(s);
  }

  // ---------------------------------------------------------------------
  // Coincidence summary
  // ---------------------------------------------------------------------

  /** The key of a conditional rate: "<x> with <y>". */
  function RateKey(x: string, y: string): string
  {
    x + " with " + y
  }

  /** `np.divide(joint, total, where=total > 0)`, NaN elsewhere. */
  function Rate(joint: int, total: int): (r: Option<real>)
    ensures r.None? <==> total <= 0
    ensures r.Some? ==> r.value * total as real == joint as real
  {
    if total > 0 then Some(joint as real / total as real) else None
  }

  /** A rate whose joint count is at most its total is a share in [0, 1]. */
  lemma RateIsShare(joint: int, total: int)
    requires 0 <= joint <= total
    ensures Rate(joint, total).Some? ==> 0.0 <= Rate(joint, total).value <= 1.0
  {
    if total > 0 {
      var v := Rate(joint, total).value;
      assert v * total as real == joint as real;
    }
  }

  /** `compute_coincidence_summary` */
  function CoincidenceSummary(df: Frame, eventA: string, eventB: string): (r: Result<Summary, Error>)
    requires df.Valid()
    ensures r.Failure? <==> eventA !in df.columns || eventB !in df.columns
    ensures r.Failure? ==> r.error == MissingColumn(if eventA in df.columns then eventB else eventA)
    ensures r.Success? ==>
      && eventA in df.columns && eventB in df.columns
      && var a := Series(df, eventA);
      && var b := Series(df, eventB);
      && r.value.coincidences == Dot(a, b)
      && r.value.totals.Keys == {eventA, eventB}
      && r.value.totals[eventA] == Sum(a)
      && r.value.totals[eventB] == Sum(b)
      && r.value.rates.Keys == {RateKey(eventA, eventB), RateKey(eventB, eventA)}
      && r.value.rates[RateKey(eventB, eventA)] == Rate(Dot(a, b), Sum(b))
      && (RateKey(eventA, eventB) != RateKey(eventB, eventA) ==>
            r.value.rates[RateKey(eventA, eventB)] == Rate(Dot(a, b), Sum(a)))
  {
    if eventA !in df.columns then Failure(MissingColumn(eventA))
    else if eventB !in df.columns then Failure(MissingColumn(eventB))
    else
      var a := Series(df, eventA);
      var b := Series(df, eventB);
      var coincidences := Dot(a, b);
      var totals := map[eventA := Sum(a), eventB := Sum(b)];
      var rates := map[RateKey(eventA, eventB) := Rate(coincidences, totals[eventA]),
                       RateKey(eventB, eventA) := Rate(coincidences, totals[eventB])];
      Success(Summary(coincidences, totals, rates))
  }

  /** On 0/1 columns the summary counts the rows where both events occur,
      the count is bounded by both totals, and every defined rate is a
      share in [0, 1]; a rate is undefined exactly when its total is 0. */
  lemma SummaryOfBinaryColumns(df: Frame, eventA: string, eventB: string)
    requires df.Valid() && eventA in df.columns && eventB in df.columns
    requires IsBinary(Series(df, eventA)) && IsBinary(Series(df, eventB))
    ensures var s := CoincidenceSummary(df, eventA, eventB).value;
      && s.coincidences == |BothOccur(Series(df, eventA), Series(df, eventB))|
      && 0 <= s.coincidences <= s.totals[eventA]
      && s.coincidences <= s.totals[eventB]
      && (forall key :: key in s.rates ==>
            (s.rates[key].Some? ==> 0.0 <= s.rates[key].value <= 1.0))
      && (s.rates[RateKey(eventB, eventA)].None? <==> s.totals[eventB] == 0)
  {
    var a, b := Series(df, eventA), Series(df, eventB);
    DotCountsCoincidences(a, b);
    DotBounds(a, b);
    RateIsShare(Dot(a, b), Sum(a));
    RateIsShare(Dot(a, b), Sum(b));
  }

  // ---------------------------------------------------------------------
  // Monte Carlo null distribution
  // ---------------------------------------------------------------------

  /** The joint count of every trial: `a` against `b` shuffled by that
      trial's permutation, in trial order. */
  function NullDistribution(a: seq<int>, b: seq<int>, draws: seq<seq<nat>>): (sims: seq<int>)
    requires |a| == |b| && IsDrawStream(draws, |draws|, |b|)
    ensures |sims| == |draws|
  {
    seq(|draws|, t requires 0 <= t < |draws| => Dot(a, Shuffle(b, draws[t])))
  }

  /** Shuffling keeps the number of ones of `b`, so on 0/1 series every
      simulated joint count lies between 0 and either total. */
  lemma NullDistributionBounds(a: seq<int>, b: seq<int>, draws: seq<seq<nat>>)
    requires |a| == |b| && IsDrawStream(draws, |draws|, |b|)
    requires IsBinary(a) && IsBinary(b)
    ensures forall t :: 0 <= t < |draws| ==>
      0 <= NullDistribution(a, b, draws)[t] <= Sum(a) && NullDistribution(a, b, draws)[t] <= Sum(b)
  {
    forall t | 0 <= t < |draws|
      ensures 0 <= NullDistribution(a, b, draws)[t] <= Sum(a)
      ensures NullDistribution(a, b, draws)[t] <= Sum(b)
    {
      ShuffleKeepsTotal(b, draws[t]);
      DotBounds(a, Shuffle(b, draws[t]));
    }
  }

  /** `monte_carlo_coincidences`: series A stays fixed, series B is
      shuffled once per trial by the trial's draw, and each trial records
      the dot product. */
  method MonteCarloCoincidences(df: Frame, eventA: string, eventB: string, simulations: nat, draws: seq<seq<nat>>)
    returns (r: Result<seq<int>, Error>)
    requires df.Valid() && IsDrawStream(draws, simulations, df.rows)
    ensures r.Failure? <==> eventA !in df.columns || eventB !in df.columns
    ensures r.Failure? ==> r.error == MissingColumn(if eventA in df.columns then eventB else eventA)
    ensures r.Success? ==>
      && eventA in df.columns && eventB in df.columns
      && r.value == NullDistribution(Series(df, eventA), Series(df, eventB), draws)
  {
    if eventA !in df.columns {
      return Failure(MissingColumn(eventA));
    }
    if eventB !in df.columns {
      return Failure(MissingColumn(eventB));
    }
    var a := Series(df, eventA);
    var b := Series(df, eventB);
    ghost var expected := NullDistribution(a, b, draws);
    var sims := new int[simulations];
    for t := 0 to simulations
      invariant forall u :: 0 <= u < t ==> sims[u] == expected[u]
    {
      sims[t] := Dot(a, Shuffle(b, draws[t]));
    }
    assert sims[..] == expected;
    r := Success(sims[..]);
  }

  // ---------------------------------------------------------------------
  // Significance
  // ---------------------------------------------------------------------

  /** `np.count_nonzero(sims >= observed)` */
  function CountAtLeast(sims: seq<int>, observed: int): (c: nat)
    ensures c <= |sims|
    ensures c == |sims| <==> forall i :: 0 <= i < |sims| ==> sims[i] >= observed
    ensures c == 0 <==> forall i :: 0 <= i < |sims| ==> sims[i] < observed
  {
    if sims == [] then 0
    else
      var rest := sims[..|sims| - 1];
      assert forall i :: 0 <= i < |rest| ==> rest[i] == sims[i];
      CountAtLeast(rest, observed) + if sims[|sims| - 1] >= observed then 1 else 0
  }

  /** The trials whose coincidence count reaches the observed one. */
  ghost function AtLeast(sims: seq<int>, observed: int): set<nat>
  {
    set i: nat | i < |sims| && sims[i] >= observed
  }

  /** The count is the number of trials that reach the observed count. */
  lemma {:induction false} CountAtLeastCounts(sims: seq<int>, observed: int)
    ensures CountAtLeast(sims, observed) == |AtLeast(sims, observed)|
  {
    if sims != [] {
      var n := |sims| - 1;
      var rest := sims[..n];
      CountAtLeastCounts(rest, observed);
      if sims[n] >= observed {
        assert AtLeast(sims, observed) == AtLeast(rest, observed) + {n};
        assert n !in AtLeast(rest, observed);
      } else {
        assert AtLeast(sims, observed) == AtLeast(rest, observed);
      }
    }
  }

  /** The smoothed one-sided p-value `(#{sims >= observed} + 1) / (N + 1)`. */
  function PValue(sims: seq<int>, observed: int): (p: real)
    ensures p == (|AtLeast(sims, observed)| + 1) as real / (|sims| + 1) as real
    ensures 1.0 / (|sims| + 1) as real <= p <= 1.0
    ensures p == 1.0 <==> forall i :: 0 <= i < |sims| ==> sims[i] >= observed
    ensures p == 1.0 / (|sims| + 1) as real <==> forall i :: 0 <= i < |sims| ==> sims[i] < observed
  {
    var c := CountAtLeast(sims, observed);
    CountAtLeastCounts(sims, observed);
    SmoothedShare(c, |sims|);
    (c + 1) as real / (|sims| + 1) as real
  }

  /** `(c + 1) / (n + 1)` for `c <= n` lies in [1/(n+1), 1], is 1 exactly
      when `c == n` and is 1/(n+1) exactly when `c == 0`. */
  lemma SmoothedShare(c: nat, n: nat)
    requires c <= n
    ensures var q := (c + 1) as real / (n + 1) as real;
      && 1.0 / (n + 1) as real <= q <= 1.0
      && (q == 1.0 <==> c == n)
      && (q == 1.0 / (n + 1) as real <==> c == 0)
  {
    var d := (n + 1) as real;
    var q := (c + 1) as real / d;
    var low := 1.0 / d;
    assert q * d == (c + 1) as real;
    assert low * d == 1.0;
    assert q - low == c as real / d;
    assert 1.0 - q == (n - c) as real / d;
  }

  /** `np.mean(sims)` */
  function Mean(sims: seq<int>): (m: real)
    requires |sims| > 0
    ensures m * |sims| as real == Sum(sims) as real
  {
    Sum(sims) as real / |sims| as real
  }

  lemma {:induction false} SumBetween(s: seq<int>, lo: int, hi: int)
    requires forall i :: 0 <= i < |s| ==> lo <= s[i] <= hi
    ensures lo * |s| <= Sum(s) <= hi * |s|
  {
    if s != [] {
      SumBetween(s[..|s| - 1], lo, hi);
    }
  }

  /** The mean of draws that all lie in [lo, hi] lies in [lo, hi]. */
  lemma MeanBetween(sims: seq<int>, lo: int, hi: int)
    requires |sims| > 0
    requires forall i :: 0 <= i < |sims| ==> lo <= sims[i] <= hi
    ensures lo as real <= Mean(sims) <= hi as real
  {
    SumBetween(sims, lo, hi);
    BoundsAsReal(lo, hi, |sims|, Sum(sims));
    QuotientBetween(Mean(sims), Sum(sims) as real, lo as real, hi as real, |sims| as real);
  }

  /** Integer bounds `lo·k <= t <= hi·k` carry over to the reals. */
  lemma BoundsAsReal(lo: int, hi: int, k: nat, t: int)
    requires lo * k <= t <= hi * k
    ensures lo as real * k as real <= t as real <= hi as real * k as real
  {
    assert (lo * k) as real == lo as real * k as real;
    assert (hi * k) as real == hi as real * k as real;
  }

  /** A quotient of a total lying in [lo·n, hi·n] by n > 0 lies in [lo, hi]. */
  lemma QuotientBetween(m: real, total: real, lo: real, hi: real, n: real)
    requires n > 0.0 && m * n == total
    requires lo * n <= total <= hi * n
    ensures lo <= m <= hi
  {
    assert (m - lo) * n == total - lo * n;
    assert (hi - m) * n == hi * n - total;
    NonNegativeFactor(m - lo, n);
    NonNegativeFactor(hi - m, n);
  }

  lemma NonNegativeFactor(x: real, n: real)
    requires n > 0.0 && x * n >= 0.0
    ensures x >= 0.0
  {
  }

  // ---------------------------------------------------------------------
  // Pairwise analysis
  // ---------------------------------------------------------------------

  function Min(x: int, y: int): int
  {
    if x <= y then x else y
  }

  /** `run_event_coincidence_analysis`: the summary, the null distribution
      of `simulations` trials, the p-value of the observed joint count
      against it and the mean of the draws.  The summary is the same for
      every draw stream. */
  method RunEventCoincidenceAnalysis(df: Frame, eventA: string, eventB: string, simulations: nat, draws: seq<seq<nat>>)
    returns (r: Result<Analysis, Error>)
    requires df.Valid() && simulations > 0 && IsDrawStream(draws, simulations, df.rows)
    ensures r.Failure? <==> eventA !in df.columns || eventB !in df.columns
    ensures r.Failure? ==> r.error == MissingColumn(if eventA in df.columns then eventB else eventA)
    ensures r.Success? ==>
      && eventA in df.columns && eventB in df.columns
      && var a := Series(df, eventA);
      && var b := Series(df, eventB);
      && r.value.summary == CoincidenceSummary(df, eventA, eventB).value
      && r.value.simulations == NullDistribution(a, b, draws)
      && |r.value.simulations| == simulations
      && r.value.pValue == PValue(r.value.simulations, r.value.summary.coincidences)
      && r.value.expectedRandomCoincidences == Mean(r.value.simulations)
      && 1.0 / (simulations + 1) as real <= r.value.pValue <= 1.0
      && (IsBinary(a) && IsBinary(b) ==>
            && 0.0 <= r.value.expectedRandomCoincidences <= Min(Sum(a), Sum(b)) as real
            && (r.value.summary.coincidences == 0 ==> r.value.pValue == 1.0))
  {
    var summary := CoincidenceSummary(df, eventA, eventB);
    if summary.Failure? {
      return Failure(summary.error);
    }
    var drawn := MonteCarloCoincidences(df, eventA, eventB, simulations, draws);
    var sims := drawn.value;
    var observed := summary.value.coincidences;
    var a, b := Series(df, eventA), Series(df, eventB);
    if IsBinary(a) && IsBinary(b) {
      NullDistributionBounds(a, b, draws);
      MeanBetween(sims, 0, Min(Sum(a), Sum(b)));
    }
    r := Success(Analysis(summary.value, sims, PValue(sims, observed), Mean(sims)));
  }
}
