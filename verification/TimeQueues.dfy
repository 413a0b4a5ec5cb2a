/** The ring of the last 63 request times that every node keeps. */
module TimeQueues {
  import opened Bytes
  import opened Samples

  /** The slot `i` places after `front`, going round. */
  function Slot(front: int, i: int): (r: int)
    requires 0 <= front < QUEUE_LEN && 0 <= i < QUEUE_LEN
    ensures 0 <= r < QUEUE_LEN && r == (front + i) % QUEUE_LEN
  {
    if front + i < QUEUE_LEN then front + i else front + i - QUEUE_LEN
  }

  /** The slot `p` places before `rear`, going round. */
  function Back(rear: int, p: int): (r: int)
    requires 0 <= rear < QUEUE_LEN && 0 <= p < QUEUE_LEN
    ensures 0 <= r < QUEUE_LEN
  {
    if p <= rear then rear - p else rear - p + QUEUE_LEN
  }

  function Total(w: seq<nat>): nat {
    if w == [] then 0 else Total(w[..|w| - 1]) + w[|w| - 1]
  }

  /** Sum of the samples weighted 1, 2, 3, ... from the oldest on. */
  function WeightedTotal(w: seq<nat>): nat {
    if w == [] then 0 else WeightedTotal(w[..|w| - 1]) + w[|w| - 1] * |w|
  }

  function Triangle(n: nat): nat {
    n * (n + 1) / 2
  }

  /** The durations sampled after the cutoff among the oldest `m` samples, oldest first. */
  function WindowOf(s: seq<Sample>, m: nat, x: nat): seq<nat>
    requires m <= |s|
  {
    if m == 0 then []
    else WindowOf(s, m - 1, x) + (if x < s[m - 1].time then [s[m - 1].msec] else [])
  }

  function Window(s: seq<Sample>, x: nat): seq<nat> {
    WindowOf(s, |s|, x)
  }

  /** The durations of the young samples, oldest first. */
  function YoungWindow(s: seq<Sample>, now: word, period: word): seq<nat> {
    if s == [] then []
    else
      var last := s[|s| - 1];
      YoungWindow(s[..|s| - 1], now, period) + (if Young(last.time, now, period) then [last.msec] else [])
  }

  lemma {:induction false} WindowIsYoung(s: seq<Sample>, m: nat, now: word, period: word)
    requires m <= |s|
    ensures WindowOf(s, m, Cutoff(now, period)) == YoungWindow(s[..m], now, period)
  {
    hide Young, Cutoff;
    if m > 0 {
      CutoffIsYoung(s[m - 1].time, now, period);
      WindowIsYoung(s, m - 1, now, period);
      assert s[..m][..m - 1] == s[..m - 1];
    }
  }

  lemma AllIsYoung(s: seq<Sample>, now: word, period: word)
    ensures Window(s, Cutoff(now, period)) == YoungWindow(s, now, period)
  {
    WindowIsYoung(s, |s|, now, period);
    assert s[..|s|] == s;
  }

  function Mean(w: seq<nat>): nat {
    if w == [] then 0 else Total(w) / |w|
  }

  function WeightedMean(w: seq<nat>): nat
  {
    TrianglePositive(|w|);
    if w == [] then 0 else WeightedTotal(w) / Triangle(|w|)
  }

  lemma TrianglePositive(n: nat)
    ensures n > 0 ==> Triangle(n) > 0
  {
    if n > 0 {
      assert n * (n + 1) >= 1 * 2;
    }
  }

  /** Number, sum and weighted sum of the window's samples among the oldest `m`. */
  datatype Tally = Tally(count: nat, sum: nat, weighted: nat)

  function TallyOf(s: seq<Sample>, m: nat, x: nat): Tally
    requires m <= |s|
  {
    if m == 0 then Tally(0, 0, 0)
    else
      var t := TallyOf(s, m - 1, x);
      var v := s[m - 1];
      if x < v.time then Tally(t.count + 1, t.sum + v.msec, t.weighted + v.msec * (t.count + 1)) else t
  }

  lemma {:induction false} TallyOfWindow(s: seq<Sample>, m: nat, x: nat)
    requires m <= |s|
    ensures var w := WindowOf(s, m, x); TallyOf(s, m, x) == Tally(|w|, Total(w), WeightedTotal(w))
  {
    if m > 0 {
      TallyOfWindow(s, m - 1, x);
      var w := WindowOf(s, m - 1, x);
      assert (w + [s[m - 1].msec])[..|w|] == w && w + [] == w;
    }
  }

  lemma MeansOfTally(s: seq<Sample>, x: nat)
    ensures var t := TallyOf(s, |s|, x);
            Mean(Window(s, x)) == (if t.count == 0 then 0 else t.sum / t.count)
            && (t.count > 0 ==> Triangle(t.count) > 0)
            && WeightedMean(Window(s, x)) == (if t.count == 0 then 0 else t.weighted / Triangle(t.count))
  {
    TallyOfWindow(s, |s|, x);
    TrianglePositive(|Window(s, x)|);
  }

  function AverageOf(s: seq<Sample>, weighted: bool, x: nat): nat {
    if weighted then WeightedMean(Window(s, x)) else Mean(Window(s, x))
  }

  /** One insertion: the oldest sample goes, the new one joins; an empty queue starts over. */
  function Inserted(c: seq<Sample>, s: Sample): seq<Sample> {
    if c == [] then Padding(QUEUE_LEN - 1) else c[1..] + [s]
  }

  /**
   * What a merge takes from two newest-first sequences when it has reached `a[p]` and `b[r]`: newest first, ties
   * from `b`, until `k` are taken or only samples at or before the cutoff are left.
   */
  function Newer(a: seq<Sample>, p: nat, b: seq<Sample>, r: nat, x: nat, k: nat): (s: seq<Sample>)
    requires p + k <= |a| && r + k <= |b|
    ensures |s| <= k
    decreases k
  {
    if k == 0 then []
    else if a[p].time > b[r].time then
      if x >= a[p].time then [] else [a[p]] + Newer(a, p + 1, b, r, x, k - 1)
    else
      if x >= b[r].time then [] else [b[r]] + Newer(a, p, b, r + 1, x, k - 1)
  }

  /** `taken` has been taken, `p` of it from `a` and `r` from `b`; the rest is still to come. */
  ghost predicate Merging(a: seq<Sample>, b: seq<Sample>, x: nat, p: nat, r: nat, taken: seq<Sample>)
    requires |a| == |b| == QUEUE_LEN - 1
  {
    p + r < QUEUE_LEN && |taken| == p + r &&
    Newer(a, 0, b, 0, x, QUEUE_LEN - 1) == taken + Newer(a, p, b, r, x, QUEUE_LEN - 1 - p - r)
  }

  /** Slots `k..63` of the queue under construction hold what was taken, oldest first. */
  ghost predicate Filled(slots: seq<Sample>, k: nat, taken: seq<Sample>) {
    |slots| == QUEUE_LEN && k + |taken| == QUEUE_LEN - 1 &&
    forall m | 0 <= m < QUEUE_LEN - 1 :: slots[m] == if m < k then PAD else taken[QUEUE_LEN - 2 - m]
  }

  lemma FillStep(slots: seq<Sample>, k: nat, taken: seq<Sample>, s: Sample)
    requires Filled(slots, k, taken) && k > 0
    ensures (k + QUEUE_LEN - 1) % QUEUE_LEN == k - 1
    ensures Filled(slots[k - 1 := s], k - 1, taken + [s])
  {
  }

  lemma MergeEnd(a: seq<Sample>, b: seq<Sample>, x: nat, p: nat, r: nat, taken: seq<Sample>)
    requires |a| == |b| == QUEUE_LEN - 1 && p + r == QUEUE_LEN - 1
    requires Merging(a, b, x, p, r, taken)
    ensures Newer(a, 0, b, 0, x, QUEUE_LEN - 1) == taken
  {
  }

  lemma FilledHeld(slots: seq<Sample>, k: nat, taken: seq<Sample>)
    requires Filled(slots, k, taken)
    ensures slots[..QUEUE_LEN - 1] == Padding(QUEUE_LEN - 1 - |taken|) + Reverse(taken)
  {
  }

  lemma MergeStep(a: seq<Sample>, b: seq<Sample>, x: nat, p: nat, r: nat, taken: seq<Sample>)
    requires |a| == |b| == QUEUE_LEN - 1 && p + r < QUEUE_LEN - 1
    requires Merging(a, b, x, p, r, taken)
    ensures a[p].time > b[r].time ==>
              if x >= a[p].time then Newer(a, 0, b, 0, x, QUEUE_LEN - 1) == taken
              else Merging(a, b, x, p + 1, r, taken + [a[p]])
    ensures a[p].time <= b[r].time ==>
              if x >= b[r].time then Newer(a, 0, b, 0, x, QUEUE_LEN - 1) == taken
              else Merging(a, b, x, p, r + 1, taken + [b[r]])
  {
  }

  /** The merged queue: the taken samples, oldest first, behind zero padding. */
  function Merged(a: seq<Sample>, b: seq<Sample>, x: nat): (r: seq<Sample>)
    requires |a| == |b| == QUEUE_LEN - 1
    ensures |r| == QUEUE_LEN - 1
  {
    var taken := Newer(a, 0, b, 0, x, QUEUE_LEN - 1);
    Padding(QUEUE_LEN - 1 - |taken|) + Reverse(taken)
  }

  lemma MergeDone(a: seq<Sample>, b: seq<Sample>, x: nat, slots: seq<Sample>, k: nat, taken: seq<Sample>)
    requires |a| == |b| == QUEUE_LEN - 1 && Filled(slots, k, taken)
    requires taken == Newer(a, 0, b, 0, x, QUEUE_LEN - 1)
    ensures |slots| == QUEUE_LEN && slots[..QUEUE_LEN - 1] == Merged(a, b, x)
  {
    hide Newer;
    FilledHeld(slots, k, taken);
  }

  class TimeQueue {
    const times: array<Sample>
    var front: int
    var rear: int
    var len: int
    /** What the ring holds, oldest first; the slot at `rear` is never in use. */
    ghost var held: seq<Sample>

    ghost predicate Valid()
      reads this, times
    {
      times.Length == QUEUE_LEN && 0 <= front < QUEUE_LEN && 0 <= rear < QUEUE_LEN &&
      len == QUEUE_LEN &&
      |held| == (if front <= rear then rear - front else rear - front + QUEUE_LEN) &&
      forall i | 0 <= i < |held| :: held[i] == times[Slot(front, i)]
    }

    ghost predicate Full()
      reads this, times
    {
      Valid() && |held| == QUEUE_LEN - 1
    }

    constructor ()
      ensures Full() && fresh(times) && held == Padding(QUEUE_LEN - 1)
      ensures front == 0 && rear == QUEUE_LEN - 1 && forall i | 0 <= i < QUEUE_LEN :: times[i] == PAD
    {
      times := new Sample[QUEUE_LEN](_ => PAD);
      front, rear, len := 0, QUEUE_LEN - 1, QUEUE_LEN;
      held := Padding(QUEUE_LEN - 1);
    }

    method Init()
      requires times.Length == QUEUE_LEN
      modifies this, times
      ensures Full() && held == Padding(QUEUE_LEN - 1)
    {
      forall i | 0 <= i < times.Length {
        times[i] := PAD;
      }
      front := 0;
      rear := QUEUE_LEN - 1;
      len := QUEUE_LEN;
      held := Padding(QUEUE_LEN - 1);
    }

    method Push(x: nat, now: nat) returns (ok: bool)
      requires Valid()
      modifies this, times
      ensures Valid()
      ensures ok == (|old(held)| < QUEUE_LEN - 1)
      ensures held == if ok then old(held) + [Sample(now, x)] else old(held)
    {
      if (rear + 1) % len == front {
        return false;
      }
      times[rear] := Sample(now, x);
      rear := (rear + 1) % len;
      held := held + [Sample(now, x)];
      return true;
    }

    method Pop() returns (ok: bool, x: Sample)
      requires Valid()
      modifies this
      ensures Valid()
      ensures ok == (old(held) != [])
      ensures if ok then [x] + held == old(held) else held == old(held)
    {
      if front == rear {
        return false, PAD;
      }
      x := times[front];
      front := (front + 1) % len;
      held := held[1..];
      ok := true;
    }

    /** Pop, then push whether or not the pop succeeded; start over if either failed. */
    method Insert(x: nat, now: nat)
      requires Valid()
      modifies this, times
      ensures Valid() && held == Inserted(old(held), Sample(now, x))
    {
      var popped, oldest := Pop();
      var pushed := Push(x, now);
      if !(popped && pushed) {
        Init();
      }
    }

    /** Index of the latest sample. */
    method Rear() returns (i: int)
      requires Valid()
      ensures 0 <= i < QUEUE_LEN
      ensures held != [] ==> times[i] == held[|held| - 1]
    {
      i := if rear > 0 then rear - 1 else QUEUE_LEN - 1;
    }

    /** Arithmetic mean of the samples in the period; a queue that is not full is started over. */
    method Amm(period: word, now: word) returns (avg: nat)
      requires Valid()
      modifies this, times
      ensures avg == Mean(Window(old(held), Cutoff(now, period))) == Mean(YoungWindow(old(held), now, period))
      ensures Full() && held == if old(Full()) then old(held) else Padding(QUEUE_LEN - 1)
    {
      var x := Cutoff(now, period);
      var c: nat, i, j: nat, k: nat := 0, front, 1, 0;
      while i != rear
        invariant 1 <= j <= |held| + 1 && i == Slot(front, j - 1)
        invariant c == TallyOf(held, j - 1, x).count && k == TallyOf(held, j - 1, x).sum
        decreases |held| + 1 - j
        modifies {}
      {
        assert times[i] == held[j - 1];
        if x < times[i].time {
          k := k + times[i].msec;
          c := c + 1;
        }
        i := (i + 1) % len;
        j := j + 1;
      }
      MeansOfTally(held, x);
      AllIsYoung(held, now, period);
      if j != len {
        Init();
      }
      return if c == 0 then 0 else k / c;
    }

    /** Mean of the samples in the period, the newest weighing most. */
    method Wma(period: word, now: word) returns (avg: nat)
      requires Valid()
      modifies this, times
      ensures avg == WeightedMean(Window(old(held), Cutoff(now, period)))
      ensures avg == WeightedMean(YoungWindow(old(held), now, period))
      ensures Full() && held == if old(Full()) then old(held) else Padding(QUEUE_LEN - 1)
    {
      var x := Cutoff(now, period);
      var c: nat, i, j: nat, k: nat := 0, front, 1, 0;
      while i != rear
        invariant 1 <= j <= |held| + 1 && i == Slot(front, j - 1)
        invariant c == TallyOf(held, j - 1, x).count && k == TallyOf(held, j - 1, x).weighted
        decreases |held| + 1 - j
        modifies {}
      {
        var v := times[i];
        assert v == held[j - 1];
        if x < v.time {
          c := c + 1;
          k := k + v.msec * c;
        }
        i := (i + 1) % len;
        j := j + 1;
      }
      MeansOfTally(held, x);
      AllIsYoung(held, now, period);
      if j != len {
        Init();
      }
      return if c == 0 then 0 else k / Triangle(c);
    }

    method Average(weighted: bool, period: word, now: word) returns (avg: nat)
      requires Valid()
      modifies this, times
      ensures avg == AverageOf(old(held), weighted, Cutoff(now, period))
      ensures var w := YoungWindow(old(held), now, period); avg == if weighted then WeightedMean(w) else Mean(w)
      ensures Full() && held == if old(Full()) then old(held) else Padding(QUEUE_LEN - 1)
    {
      if !weighted {
        avg := Amm(period, now);
      } else {
        avg := Wma(period, now);
      }
    }

    lemma BackSlot(p: nat)
      requires Full() && p < QUEUE_LEN - 1
      ensures (Back(rear, p) + QUEUE_LEN - 1) % QUEUE_LEN == Back(rear, p + 1)
      ensures times[Back(rear, p + 1)] == Reverse(held)[p]
    {
      assert Reverse(held)[p] == held[QUEUE_LEN - 2 - p];
    }

    lemma MergeStart(b: TimeQueue, x: nat)
      requires Full() && b.Full()
      ensures Back(rear, 0) == rear && Back(b.rear, 0) == b.rear
      ensures Merging(Reverse(held), Reverse(b.held), x, 0, 0, [])
      ensures Filled(Padding(QUEUE_LEN), QUEUE_LEN - 1, [])
    {
    }

    /** Take over a finished ring whose 63 samples start at slot 0. */
    method Load(slots: seq<Sample>)
      requires times.Length == |slots| == QUEUE_LEN
      modifies this, times
      ensures Full() && held == slots[..QUEUE_LEN - 1]
    {
      forall m | 0 <= m < QUEUE_LEN {
        times[m] := slots[m];
      }
      front, rear, len := 0, QUEUE_LEN - 1, QUEUE_LEN;
      held := slots[..QUEUE_LEN - 1];
    }

    /** Replace this queue by the newest samples of it and `b`. */
    method Merge(b: TimeQueue, period: word, now: word)
      requires Full() && b.Full() && b != this && b.times != times
      modifies this, times
      ensures Full() && held == Merged(Reverse(old(held)), Reverse(b.held), Cutoff(now, period))
    {
      hide Back, Slot, Newer, Reverse, Merging, Filled, Merged, Cutoff;
      MergeStart(b, Cutoff(now, period));
      var q := Padding(QUEUE_LEN);
      var x := Cutoff(now, period);
      var n, i, j, k: nat := 0, rear, b.rear, QUEUE_LEN - 1;
      ghost var av, bv, p: nat, r: nat, taken := Reverse(held), Reverse(b.held), 0, 0, [];
      while n < QUEUE_LEN - 1
        invariant n == p + r && k == QUEUE_LEN - 1 - n && n <= QUEUE_LEN - 1 && |q| == QUEUE_LEN
        invariant Merging(av, bv, x, p, r, taken) && Filled(q, k, taken)
        invariant i == Back(rear, p) && j == Back(b.rear, r)
        modifies {}
      {
        var ip, jp := (i + QUEUE_LEN - 1) % QUEUE_LEN, (j + QUEUE_LEN - 1) % QUEUE_LEN;
        var kp := (k + QUEUE_LEN - 1) % QUEUE_LEN;
        BackSlot(p);
        b.BackSlot(r);
        MergeStep(av, bv, x, p, r, taken);
        if times[ip].time > b.times[jp].time {
          if x >= times[ip].time {
            break;
          }
          FillStep(q, k, taken, av[p]);
          q := q[kp := times[ip]];
          taken := taken + [av[p]];
          i := ip;
          p := p + 1;
        } else {
          if x >= b.times[jp].time {
            break;
          }
          FillStep(q, k, taken, bv[r]);
          q := q[kp := b.times[jp]];
          taken := taken + [bv[r]];
          j := jp;
          r := r + 1;
        }
        k := kp;
        n := n + 1;
      }
      if n == QUEUE_LEN - 1 {
        MergeEnd(av, bv, x, p, r, taken);
      }
      MergeDone(av, bv, x, q, k, taken);
      Load(q);
    }
  }
}
