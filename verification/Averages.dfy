/** How the two averages of a time queue relate to its samples and to each other. */
module Averages {
  import opened Bytes
  import opened Samples
  import opened TimeQueues
  import opened QueueProperties

  ghost predicate Between(w: seq<nat>, lo: nat, hi: nat) {
    forall i | 0 <= i < |w| :: lo <= w[i] <= hi
  }

  ghost predicate Rising(w: seq<nat>) {
    forall i, j | 0 <= i < j < |w| :: w[i] <= w[j]
  }

  lemma AtLeast(n: nat, d: nat, lo: nat)
    requires d > 0 && lo * d <= n
    ensures lo <= n / d
  {
    if n / d < lo {
      ScaledLess(n / d + 1, lo, d);
      assert false;
    }
  }

  lemma AtMost(n: nat, d: nat, hi: nat)
    requires d > 0 && n <= hi * d
    ensures n / d <= hi
  {
    if n / d > hi {
      ScaledLess(hi + 1, n / d, d);
      assert false;
    }
  }

  /** Scaling keeps the order, and one less leaves a gap of `d`. */
  lemma ScaledLess(a: nat, b: nat, d: nat)
    requires a <= b
    ensures a * d <= b * d && (a - 1) * d == a * d - d
  {
    assert (b - a) * d >= 0;
  }

  lemma DivisionBounds(n: nat, d: nat, lo: nat, hi: nat)
    requires d > 0 && lo * d <= n <= hi * d
    ensures lo <= n / d <= hi
  {
    AtLeast(n, d, lo);
    AtMost(n, d, hi);
  }

  lemma {:induction false} TriangleStep(n: nat)
    ensures 2 * Triangle(n) == n * (n + 1)
    ensures Triangle(n + 1) == Triangle(n) + n + 1
  {
    if n > 0 {
      TriangleStep(n - 1);
    }
    assert (n + 1) * (n + 2) == n * (n + 1) + 2 * (n + 1);
  }

  lemma StepBetween(lo: nat, hi: nat, n: nat, v: nat, t: nat, wt: nat, tri: nat)
    requires lo <= v <= hi && lo * n <= t <= hi * n && lo * tri <= wt <= hi * tri
    ensures lo * (n + 1) <= t + v <= hi * (n + 1)
    ensures lo * (tri + n + 1) <= wt + v * (n + 1) <= hi * (tri + n + 1)
  {
    ScaledLess(lo, v, n + 1);
    ScaledLess(v, hi, n + 1);
    assert lo * (tri + n + 1) == lo * tri + lo * (n + 1);
    assert hi * (tri + n + 1) == hi * tri + hi * (n + 1);
  }

  lemma {:induction false} TotalsBetween(w: seq<nat>, lo: nat, hi: nat)
    requires Between(w, lo, hi)
    ensures lo * |w| <= Total(w) <= hi * |w|
    ensures lo * Triangle(|w|) <= WeightedTotal(w) <= hi * Triangle(|w|)
  {
    if w != [] {
      var init := w[..|w| - 1];
      TotalsBetween(init, lo, hi);
      TriangleStep(|init|);
      StepBetween(lo, hi, |init|, w[|w| - 1], Total(init), WeightedTotal(init), Triangle(|init|));
    }
  }

  /** Both averages lie between the smallest and the largest sample of the window. */
  lemma AveragesBetween(w: seq<nat>, lo: nat, hi: nat)
    requires w != [] && Between(w, lo, hi)
    ensures lo <= Mean(w) <= hi && lo <= WeightedMean(w) <= hi
  {
    TotalsBetween(w, lo, hi);
    TrianglePositive(|w|);
    DivisionBounds(Total(w), |w|, lo, hi);
    DivisionBounds(WeightedTotal(w), Triangle(|w|), lo, hi);
  }

  lemma StepWeighsMore(n: nat, v: nat, t: nat, wt: nat)
    requires 2 * wt >= (n + 1) * t && t <= v * n
    ensures 2 * (wt + v * (n + 1)) >= (n + 2) * (t + v)
  {
    assert (n + 2) * (t + v) == (n + 1) * t + t + (n + 2) * v;
    assert 2 * (v * (n + 1)) == (n + 2) * v + v * n;
  }

  /** Chebyshev's sum inequality for the weights 1, 2, ..., n. */
  lemma {:induction false} RisingWeighsMore(w: seq<nat>)
    requires Rising(w)
    ensures 2 * WeightedTotal(w) >= (|w| + 1) * Total(w)
  {
    if w != [] {
      var init, v := w[..|w| - 1], w[|w| - 1];
      RisingWeighsMore(init);
      TotalsBetween(init, 0, v);
      StepWeighsMore(|init|, v, Total(init), WeightedTotal(init));
    }
  }

  lemma ScaledQuotient(q: nat, n: nat, t: nat, tri: nat)
    requires q * n <= t && 2 * tri == n * (n + 1)
    ensures 2 * (q * tri) <= (n + 1) * t
  {
    ScaledLess(q * n, t, n + 1);
    assert 2 * (q * tri) == q * (2 * tri);
    assert q * (n * (n + 1)) == (q * n) * (n + 1);
  }

  lemma QuotientsCompare(n: nat, t: nat, wt: nat, tri: nat)
    requires n > 0 && tri > 0 && 2 * tri == n * (n + 1) && 2 * wt >= (n + 1) * t
    ensures wt / tri >= t / n
  {
    var q := t / n;
    ScaledQuotient(q, n, t, tri);
    AtLeast(wt, tri, q);
  }

  /** Durations that have been growing pull the weighted average up to at least the plain one. */
  lemma WeightedAtLeastMean(w: seq<nat>)
    requires Rising(w)
    ensures WeightedMean(w) >= Mean(w)
  {
    if w != [] {
      RisingWeighsMore(w);
      TriangleStep(|w|);
      TrianglePositive(|w|);
      QuotientsCompare(|w|, Total(w), WeightedTotal(w), Triangle(|w|));
    }
  }

  /** The mean counts every sample once, the weighted one counts sample `i`, from the oldest, `i` + 1 times. */
  lemma {:induction false} Weights(w: seq<nat>, i: nat, more: nat)
    requires i < |w|
    ensures Total(w[i := w[i] + more]) == Total(w) + more
    ensures WeightedTotal(w[i := w[i] + more]) == WeightedTotal(w) + (i + 1) * more
    decreases |w|
  {
    var last, v := |w| - 1, w[i := w[i] + more];
    if i < last {
      Weights(w[..last], i, more);
      assert v[..last] == w[..last][i := w[i] + more];
    } else {
      assert v[..last] == w[..last];
      Distribute(w[i], more, i + 1);
    }
  }

  lemma Distribute(a: nat, b: nat, c: nat)
    ensures (a + b) * c == a * c + c * b
  {
  }

  lemma {:induction false} NothingTotals(n: nat)
    ensures Total(seq(n, _ => 0)) == 0 && WeightedTotal(seq(n, _ => 0)) == 0
  {
    if n > 0 {
      var w: seq<nat> := seq(n, _ => 0);
      NothingTotals(n - 1);
      assert w[..n - 1] == seq(n - 1, _ => 0);
    }
  }

  lemma {:induction false} WindowSkipsPadding(k: nat, s: seq<Sample>, m: nat, x: nat)
    requires m <= |s|
    ensures WindowOf(Padding(k) + s, k + m, x) == WindowOf(s, m, x)
    decreases k + m
  {
    if m > 0 {
      WindowSkipsPadding(k, s, m - 1, x);
    } else if k > 0 {
      WindowSkipsPadding(k - 1, s, 0, x);
      PaddingWindow(k, s, k, x);
    }
  }

  lemma {:induction false} PaddingWindow(k: nat, s: seq<Sample>, m: nat, x: nat)
    requires m <= k
    ensures WindowOf(Padding(k) + s, m, x) == []
  {
    if m > 0 {
      PaddingWindow(k, s, m - 1, x);
    }
  }

  /** After any run the average of the given method is over the young ones among the last 63 real samples. */
  lemma YoungAverageAfterRun(history: seq<Sample>, weighted: bool, now: word, period: word)
    ensures var last := if |history| < QUEUE_LEN - 1 then history else history[|history| - (QUEUE_LEN - 1)..];
            var w := YoungWindow(last, now, period);
            AverageOf(AfterRun(history), weighted, Cutoff(now, period)) == if weighted then WeightedMean(w) else Mean(w)
  {
    hide Mean, WeightedMean, AfterRun, Window, YoungWindow;
    AverageAfterRun(history, weighted, Cutoff(now, period));
    AllIsYoung(
      if |history| < QUEUE_LEN - 1 then history else history[|history| - (QUEUE_LEN - 1)..], now, period);
  }

  /** However short the history, an average is that of the real samples among the last 63: padding never counts. */
  lemma AverageAfterRun(history: seq<Sample>, weighted: bool, x: nat)
    ensures AverageOf(AfterRun(history), weighted, x) ==
            AverageOf(
              if |history| < QUEUE_LEN - 1 then history else history[|history| - (QUEUE_LEN - 1)..], weighted, x)
  {
    hide WindowOf, Mean, WeightedMean, AfterRun;
    RunKeepsLast63(history);
    if |history| < QUEUE_LEN - 1 {
      WindowSkipsPadding(QUEUE_LEN - 1 - |history|, history, |history|, x);
    }
  }
}
