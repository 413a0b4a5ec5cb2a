/** How check results turn a peer down and up again: `status_update`. */
module Hysteresis {

  /** The configured numbers of successes and failures in a row. */
  datatype Thresholds = Thresholds(rise: nat, fall: nat)

  datatype Health = Health(rise: nat, fall: nat, down: bool)

  function Counted(h: Health, ok: bool): Health {
    if ok then h.(rise := h.rise + 1, fall := 0) else h.(rise := 0, fall := h.fall + 1)
  }

  function Judged(h: Health, ok: bool, c: Thresholds): Health {
    if ok && h.down && h.rise >= c.rise then h.(down := false)
    else if !ok && !h.down && h.fall >= c.fall then h.(down := true)
    else h
  }

  function After(h: Health, ok: bool, c: Thresholds): Health {
    Judged(Counted(h, ok), ok, c)
  }

  class PeerHealth {
    var rise: nat
    var fall: nat
    var down: bool
    var accessTime: nat

    ghost function Value(): Health
      reads this
    {
      Health(rise, fall, down)
    }

    constructor (down: bool)
      ensures Value() == Start(down)
    {
      rise, fall, accessTime := 0, 0, 0;
      this.down := down;
    }

    method StatusUpdate(ok: bool, c: Thresholds, now: nat)
      modifies this
      ensures Value() == After(old(Value()), ok, c) && accessTime == now
    {
      if ok {
        rise := rise + 1;
        fall := 0;
        if down && rise >= c.rise {
          down := false;
        }
      } else {
        rise := 0;
        fall := fall + 1;
        if !down && fall >= c.fall {
          down := true;
        }
      }
      accessTime := now;
    }
  }

  // ---- Histories ----

  function Start(down: bool): Health {
    Health(0, 0, down)
  }

  /** The health a sequence of results leads to. */
  function HistoryFrom(start: Health, results: seq<bool>, c: Thresholds): Health {
    if results == [] then start
    else After(HistoryFrom(start, results[..|results| - 1], c), results[|results| - 1], c)
  }

  function History(results: seq<bool>, c: Thresholds, down: bool): Health {
    HistoryFrom(Start(down), results, c)
  }

  /** The number of equal results `ok` a history ends in. */
  function Trailing(results: seq<bool>, ok: bool): (n: nat)
    ensures n <= |results|
  {
    if results == [] || results[|results| - 1] != ok then 0 else 1 + Trailing(results[..|results| - 1], ok)
  }

  lemma {:induction false} TrailingMeans(results: seq<bool>, ok: bool)
    ensures var n := Trailing(results, ok);
            (forall i | |results| - n <= i < |results| :: results[i] == ok) &&
            (n < |results| ==> results[|results| - n - 1] != ok)
  {
    if results != [] && results[|results| - 1] == ok {
      TrailingMeans(results[..|results| - 1], ok);
    }
  }

  /** The counts are the lengths of the runs a history ends in; at most one of them is not zero. */
  lemma {:induction false} CountsAreRuns(results: seq<bool>, c: Thresholds, down: bool)
    ensures var h := History(results, c, down);
            h.rise == Trailing(results, true) && h.fall == Trailing(results, false) && (h.rise == 0 || h.fall == 0)
  {
    if results != [] {
      CountsAreRuns(results[..|results| - 1], c, down);
    }
  }

  /** A history ending in enough successes. */
  predicate ProvesUp(results: seq<bool>, c: Thresholds) {
    results != [] && results[|results| - 1] && Trailing(results, true) >= c.rise
  }

  /** A history ending in enough failures. */
  predicate ProvesDown(results: seq<bool>, c: Thresholds) {
    results != [] && !results[|results| - 1] && Trailing(results, false) >= c.fall
  }

  /** The latest prefix that proves anything decides; before the first one the default holds. */
  lemma {:induction false} LatestProofDecides(results: seq<bool>, c: Thresholds, down: bool, n: nat)
    requires n <= |results|
    requires forall m | n < m <= |results| :: !ProvesUp(results[..m], c) && !ProvesDown(results[..m], c)
    ensures ProvesUp(results[..n], c) ==> !History(results, c, down).down
    ensures ProvesDown(results[..n], c) ==> History(results, c, down).down
    ensures n == 0 ==> History(results, c, down).down == down
  {
    CountsAreRuns(results, c, down);
    assert results[..|results|] == results;
    if n < |results| {
      var before := results[..|results| - 1];
      assert forall m: nat | m <= |before| :: before[..m] == results[..m];
      LatestProofDecides(before, c, down, n);
    }
  }

  /** Result number `n`, counted from one, turned the peer down or up. */
  predicate FlipsAt(results: seq<bool>, c: Thresholds, down: bool, n: nat)
    requires 0 < n <= |results|
  {
    History(results[..n], c, down).down != History(results[..n - 1], c, down).down
  }

  /** A flip to up ends in `rise` successes, a flip to down in `fall` failures. */
  lemma FlipNeedsRun(results: seq<bool>, c: Thresholds, down: bool, n: nat)
    requires 0 < n <= |results| && FlipsAt(results, c, down, n)
    ensures var ok := results[n - 1];
            History(results[..n], c, down).down == !ok &&
            var run := Trailing(results[..n], ok);
            run >= (if ok then c.rise else c.fall) && run >= 1 && forall i | n - run <= i < n :: results[i] == ok
  {
    assert results[..n][..n - 1] == results[..n - 1];
    CountsAreRuns(results[..n], c, down);
    TrailingMeans(results[..n], results[n - 1]);
  }

  /** Between two flips there are always enough results: as many as the later one's threshold asks for. */
  lemma FlipsApart(results: seq<bool>, c: Thresholds, down: bool, m: nat, n: nat)
    requires 0 < m < n <= |results| && FlipsAt(results, c, down, m) && FlipsAt(results, c, down, n)
    requires forall k | m < k < n :: !FlipsAt(results, c, down, k)
    ensures results[m - 1] != results[n - 1]
    ensures n - m >= if results[n - 1] then c.rise else c.fall
  {
    FlipNeedsRun(results, c, down, m);
    FlipNeedsRun(results, c, down, n);
    StaysBetween(results, c, down, m, n - 1);
  }

  lemma {:induction false} StaysBetween(results: seq<bool>, c: Thresholds, down: bool, m: nat, n: nat)
    requires 0 < m <= n <= |results| && forall k | m < k <= n :: !FlipsAt(results, c, down, k)
    ensures History(results[..n], c, down).down == History(results[..m], c, down).down
  {
    if m < n {
      assert !FlipsAt(results, c, down, n);
      StaysBetween(results, c, down, m, n - 1);
    }
  }
}
