/** Time samples and what "the newest k samples" of a collection means. */
module Samples {
  import opened Bytes

  const QUEUE_LEN: int := 64

  /** `msec` is a duration; both callers clamp it at zero before storing it. */
  datatype Sample = Sample(time: nat, msec: nat)

  const PAD: Sample := Sample(0, 0)

  function Padding(n: nat): (s: seq<Sample>)
    ensures |s| == n && forall i | 0 <= i < n :: s[i] == PAD
  {
    seq(n, _ => PAD)
  }

  /** Samples at or before this time are out of the averaging period; unsigned arithmetic wraps. */
  function Cutoff(now: word, period: word): nat {
    if period == 0 then 0 else (now - period) % WORD
  }

  /**
   * In the averaging period: younger than the period, or, without a period, of any time but zero. A period that reaches
   * back before time zero wraps to the end of time.
   */
  predicate Young(time: nat, now: word, period: word) {
    if period == 0 then time != 0
    else if period <= now then now - time < period
    else time > WORD - (period - now)
  }

  /** The cutoff lets through exactly the young samples; a period from before time zero lets through none there is. */
  lemma CutoffIsYoung(time: nat, now: word, period: word)
    ensures time > Cutoff(now, period) <==> Young(time, now, period)
    ensures period > now && time <= now ==> !Young(time, now, period)
  {
    if period > now {
      assert (now - period + WORD) % WORD == now - period + WORD;
      assert (now - period) % WORD == now - period + WORD;
    }
  }

  ghost predicate OldestFirst(s: seq<Sample>) {
    forall i, j | 0 <= i < j < |s| :: s[i].time <= s[j].time
  }

  ghost predicate NewestFirst(s: seq<Sample>) {
    forall i, j | 0 <= i < j < |s| :: s[i].time >= s[j].time
  }

  function Reverse(s: seq<Sample>): (r: seq<Sample>)
    ensures |r| == |s| && forall i | 0 <= i < |s| :: r[i] == s[|s| - 1 - i]
  {
    seq(|s|, i requires 0 <= i < |s| => s[|s| - 1 - i])
  }

  function Times(s: seq<Sample>): (r: seq<int>)
    ensures |r| == |s| && forall i | 0 <= i < |s| :: r[i] == s[i].time
  {
    seq(|s|, i requires 0 <= i < |s| => s[i].time)
  }

  /** The times of `s` newer than the cutoff `x`, in the order of `s`. */
  function LiveTimes(s: seq<Sample>, x: nat): seq<int> {
    if s == [] then []
    else (if s[0].time > x then [s[0].time] else []) + LiveTimes(s[1..], x)
  }

  /** The times of the young samples of `s`, in the order of `s`. */
  function YoungTimes(s: seq<Sample>, now: word, period: word): seq<int> {
    if s == [] then []
    else (if Young(s[0].time, now, period) then [s[0].time] else []) + YoungTimes(s[1..], now, period)
  }

  lemma {:induction false} LiveIsYoung(s: seq<Sample>, now: word, period: word)
    ensures LiveTimes(s, Cutoff(now, period)) == YoungTimes(s, now, period)
  {
    hide Young, Cutoff;
    if s != [] {
      CutoffIsYoung(s[0].time, now, period);
      LiveIsYoung(s[1..], now, period);
    }
  }

  // ---- The k largest of a collection of times, whatever its order ----

  ghost predicate Falling(s: seq<int>) {
    forall i, j | 0 <= i < j < |s| :: s[i] >= s[j]
  }

  function Take(s: seq<int>, k: nat): seq<int> {
    if |s| <= k then s else s[..k]
  }

  function MergeFalling(a: seq<int>, b: seq<int>): seq<int> {
    if a == [] then b
    else if b == [] then a
    else if a[0] > b[0] then [a[0]] + MergeFalling(a[1..], b)
    else [b[0]] + MergeFalling(a, b[1..])
  }

  function Ranked(s: seq<int>): seq<int> {
    if s == [] then [] else MergeFalling([s[0]], Ranked(s[1..]))
  }

  /** The `k` largest times of a collection, largest first. */
  function Newest(s: seq<int>, k: nat): seq<int> {
    Take(Ranked(s), k)
  }

  lemma {:induction false} MergeFallingBag(a: seq<int>, b: seq<int>)
    ensures multiset(MergeFalling(a, b)) == multiset(a) + multiset(b)
  {
    if a != [] && b != [] {
      if a[0] > b[0] {
        MergeFallingBag(a[1..], b);
        assert a == [a[0]] + a[1..];
      } else {
        MergeFallingBag(a, b[1..]);
        assert b == [b[0]] + b[1..];
      }
    }
  }

  lemma {:induction false} MergeFallingBounded(a: seq<int>, b: seq<int>, top: int)
    requires forall i | 0 <= i < |a| :: a[i] <= top
    requires forall i | 0 <= i < |b| :: b[i] <= top
    ensures forall i | 0 <= i < |MergeFalling(a, b)| :: MergeFalling(a, b)[i] <= top
  {
    if a != [] && b != [] {
      if a[0] > b[0] {
        MergeFallingBounded(a[1..], b, top);
      } else {
        MergeFallingBounded(a, b[1..], top);
      }
    }
  }

  lemma {:induction false} MergeFallingSorted(a: seq<int>, b: seq<int>)
    requires Falling(a) && Falling(b)
    ensures Falling(MergeFalling(a, b))
  {
    if a != [] && b != [] {
      if a[0] > b[0] {
        MergeFallingSorted(a[1..], b);
        MergeFallingBounded(a[1..], b, a[0]);
      } else {
        MergeFallingSorted(a, b[1..]);
        MergeFallingBounded(a, b[1..], b[0]);
      }
    }
  }

  lemma {:induction false} RankedSorts(s: seq<int>)
    ensures Falling(Ranked(s)) && multiset(Ranked(s)) == multiset(s)
  {
    if s != [] {
      RankedSorts(s[1..]);
      MergeFallingSorted([s[0]], Ranked(s[1..]));
      MergeFallingBag([s[0]], Ranked(s[1..]));
      assert s == [s[0]] + s[1..];
    }
  }

  lemma BagOfTail(s: seq<int>)
    requires s != []
    ensures multiset(s[1..]) == multiset(s) - multiset{s[0]}
    ensures s[0] in multiset(s)
  {
    assert s == [s[0]] + s[1..];
  }

  lemma HeadIsLargest(a: seq<int>, b: seq<int>)
    requires a != [] && Falling(b) && multiset(a) == multiset(b)
    ensures b != [] && a[0] <= b[0]
  {
    BagOfTail(a);
    assert a[0] in multiset(b);
    var i :| 0 <= i < |b| && b[i] == a[0];
  }

  lemma {:induction false} FallingUnique(a: seq<int>, b: seq<int>)
    requires Falling(a) && Falling(b) && multiset(a) == multiset(b)
    ensures a == b
  {
    hide Falling;
    assert |multiset(a)| == |a| && |multiset(b)| == |b|;
    if a != [] {
      FallingTail(a);
      FallingTail(b);
      HeadIsLargest(a, b);
      HeadIsLargest(b, a);
      BagOfTail(a);
      BagOfTail(b);
      FallingUnique(a[1..], b[1..]);
      assert a == [a[0]] + a[1..] && b == [b[0]] + b[1..];
    }
  }

  lemma FallingTail(s: seq<int>)
    requires Falling(s) && s != []
    ensures Falling(s[1..])
  {
  }

  /** The newest `k` depend on which times there are, not on the order they are met in. */
  lemma NewestOrderFree(s: seq<int>, t: seq<int>, k: nat)
    requires multiset(s) == multiset(t)
    ensures Newest(s, k) == Newest(t, k)
  {
    RankedSorts(s);
    RankedSorts(t);
    FallingUnique(Ranked(s), Ranked(t));
  }

  lemma RankedOfSum(s: seq<int>, t: seq<int>)
    ensures Ranked(s + t) == MergeFalling(Ranked(s), Ranked(t))
  {
    RankedSorts(s);
    RankedSorts(t);
    RankedSorts(s + t);
    MergeFallingSorted(Ranked(s), Ranked(t));
    MergeFallingBag(Ranked(s), Ranked(t));
    FallingUnique(Ranked(s + t), MergeFalling(Ranked(s), Ranked(t)));
  }

  lemma RankedOfFalling(s: seq<int>)
    requires Falling(s)
    ensures Ranked(s) == s
  {
    RankedSorts(s);
    FallingUnique(Ranked(s), s);
  }

  lemma {:induction false} TakeOfMerge(a: seq<int>, b: seq<int>, j: nat, k: nat)
    requires k <= j
    ensures Take(MergeFalling(Take(a, j), b), k) == Take(MergeFalling(a, b), k)
  {
    if k > 0 && a != [] && b != [] {
      var cut := Take(a, j);
      if a[0] > b[0] {
        TakeOfMerge(a[1..], b, j - 1, k - 1);
        assert cut[1..] == Take(a[1..], j - 1);
        assert Take(MergeFalling(cut, b), k) == [a[0]] + Take(MergeFalling(cut[1..], b), k - 1);
        assert Take(MergeFalling(a, b), k) == [a[0]] + Take(MergeFalling(a[1..], b), k - 1);
      } else {
        TakeOfMerge(a, b[1..], j, k - 1);
        assert Take(MergeFalling(cut, b), k) == [b[0]] + Take(MergeFalling(cut, b[1..]), k - 1);
        assert Take(MergeFalling(a, b), k) == [b[0]] + Take(MergeFalling(a, b[1..]), k - 1);
      }
    }
  }

  /** Only the newest `k` of a part can matter to the newest `k` of the whole. */
  lemma NewestAbsorbs(s: seq<int>, t: seq<int>, k: nat)
    ensures Newest(Newest(s, k) + t, k) == Newest(s + t, k)
  {
    RankedSorts(s);
    RankedOfFalling(Newest(s, k));
    RankedOfSum(Newest(s, k), t);
    RankedOfSum(s, t);
    TakeOfMerge(Ranked(s), Ranked(t), k, k);
  }

  /** What `Newest` promises: as many as there are up to `k`, sorted, and none left behind is larger. */
  lemma NewestIsTop(s: seq<int>, k: nat) returns (dropped: seq<int>)
    ensures |Newest(s, k)| == if |s| < k then |s| else k
    ensures Falling(Newest(s, k))
    ensures multiset(Newest(s, k)) + multiset(dropped) == multiset(s)
    ensures forall i, j | 0 <= i < |Newest(s, k)| && 0 <= j < |dropped| :: Newest(s, k)[i] >= dropped[j]
  {
    RankedSorts(s);
    var r := Ranked(s);
    assert |multiset(r)| == |r| && |multiset(s)| == |s|;
    dropped := if |r| <= k then [] else r[k..];
    assert r == Newest(s, k) + dropped;
  }
}
