/** What the time queue promises over whole runs of insertions, merges and averages. */
module QueueProperties {
  import opened Collections
  import opened Samples
  import opened TimeQueues

  // ---- Insertions ----

  /** The queue after a history of insertions into a freshly initialised one. */
  function AfterRun(history: seq<Sample>): seq<Sample> {
    if history == [] then Padding(QUEUE_LEN - 1)
    else Inserted(AfterRun(history[..|history| - 1]), history[|history| - 1])
  }

  /** The queue always holds exactly 63 samples: the last 63 inserted, behind zero padding while there are fewer. */
  lemma {:induction false} RunKeepsLast63(history: seq<Sample>)
    ensures |AfterRun(history)| == QUEUE_LEN - 1
    ensures AfterRun(history) ==
            if |history| < QUEUE_LEN - 1 then Padding(QUEUE_LEN - 1 - |history|) + history
            else history[|history| - (QUEUE_LEN - 1)..]
  {
    if history != [] {
      RunKeepsLast63(history[..|history| - 1]);
    }
  }

  lemma RunIsOrdered(history: seq<Sample>)
    requires OldestFirst(history)
    ensures OldestFirst(AfterRun(history))
  {
    RunKeepsLast63(history);
  }

  // ---- Merging two queues ----

  lemma {:induction false} NothingLive(s: seq<Sample>, x: nat)
    requires forall i | 0 <= i < |s| :: s[i].time <= x
    ensures LiveTimes(s, x) == []
  {
    if s != [] {
      NothingLive(s[1..], x);
    }
  }

  lemma NewestFirstTail(s: seq<Sample>)
    requires NewestFirst(s) && s != []
    ensures NewestFirst(s[1..]) && forall i | 0 <= i < |s| :: s[i].time <= s[0].time
  {
  }

  lemma {:induction false} LivePrefix(s: seq<Sample>, x: nat)
    requires NewestFirst(s)
    ensures |LiveTimes(s, x)| <= |s|
    ensures forall i | 0 <= i < |LiveTimes(s, x)| :: LiveTimes(s, x)[i] == s[i].time > x
    ensures forall i | |LiveTimes(s, x)| <= i < |s| :: s[i].time <= x
  {
    hide NewestFirst;
    if s != [] {
      NewestFirstTail(s);
      if s[0].time <= x {
        NothingLive(s, x);
      } else {
        var rest := LiveTimes(s[1..], x);
        LivePrefix(s[1..], x);
        assert LiveTimes(s, x) == [s[0].time] + rest;
        hide LiveTimes;
        assert forall i | 1 <= i < |s| :: s[i] == s[1..][i - 1];
      }
    }
  }

  lemma LiveTimesFall(s: seq<Sample>, x: nat)
    requires NewestFirst(s)
    ensures |LiveTimes(s, x)| <= |s| && Falling(LiveTimes(s, x))
    ensures forall i | 0 <= i < |LiveTimes(s, x)| :: LiveTimes(s, x)[i] == s[i].time > x
    ensures forall i | |LiveTimes(s, x)| <= i < |s| :: s[i].time <= x
  {
    hide LiveTimes;
    LivePrefix(s, x);
  }

  /** One round of the selection loop. */
  lemma NewerStep(a: seq<Sample>, p: nat, b: seq<Sample>, r: nat, x: nat, k: nat)
    requires p + k <= |a| && r + k <= |b|
    ensures k == 0 ==> Newer(a, p, b, r, x, k) == []
    ensures k > 0 && a[p].time > b[r].time ==>
              Newer(a, p, b, r, x, k) == if x >= a[p].time then [] else [a[p]] + Newer(a, p + 1, b, r, x, k - 1)
    ensures k > 0 && a[p].time <= b[r].time ==>
              Newer(a, p, b, r, x, k) == if x >= b[r].time then [] else [b[r]] + Newer(a, p, b, r + 1, x, k - 1)
  {
  }

  /** The selection loop takes exactly the newest live times of what is left of the two inputs. */
  lemma {:induction false} NewerTakesNewest(a: seq<Sample>, p: nat, b: seq<Sample>, r: nat, x: nat, k: nat)
    requires p + k <= |a| && r + k <= |b| && NewestFirst(a) && NewestFirst(b)
    ensures Times(Newer(a, p, b, r, x, k)) == Take(MergeFalling(LiveTimes(a[p..], x), LiveTimes(b[r..], x)), k)
    decreases k
  {
    hide NewestFirst, LiveTimes, Newer, MergeFalling, Times, Take;
    NewerStep(a, p, b, r, x, k);
    NothingOfAny(MergeFalling(LiveTimes(a[p..], x), LiveTimes(b[r..], x)), k);
    if k > 0 {
      LiveTail(a, p, x);
      LiveTail(b, r, x);
      if a[p].time > b[r].time && x < a[p].time {
        NewerTakesNewest(a, p + 1, b, r, x, k - 1);
        LargerOfA(a[p].time, LiveTimes(a[p + 1..], x), LiveTimes(b[r..], x));
        OneMore(a[p], Newer(a, p + 1, b, r, x, k - 1), MergeFalling(LiveTimes(a[p + 1..], x), LiveTimes(b[r..], x)), k);
      } else if a[p].time <= b[r].time && x < b[r].time {
        NewerTakesNewest(a, p, b, r + 1, x, k - 1);
        LargerOfB(b[r].time, LiveTimes(a[p..], x), LiveTimes(b[r + 1..], x));
        OneMore(b[r], Newer(a, p, b, r + 1, x, k - 1), MergeFalling(LiveTimes(a[p..], x), LiveTimes(b[r + 1..], x)), k);
      }
    }
  }

  lemma NothingOfAny(s: seq<int>, k: nat)
    ensures Times([]) == Take(s, 0) == Take(MergeFalling([], []), k) == []
  {
  }

  lemma LargerOfA(t: int, u: seq<int>, v: seq<int>)
    requires v != [] ==> v[0] < t
    ensures MergeFalling([t] + u, v) == [t] + MergeFalling(u, v)
  {
    assert ([t] + u)[1..] == u;
    if v == [] {
      assert MergeFalling(u, v) == u;
    }
  }

  lemma LargerOfB(t: int, u: seq<int>, v: seq<int>)
    requires u != [] ==> u[0] <= t
    ensures MergeFalling(u, [t] + v) == [t] + MergeFalling(u, v)
  {
    assert ([t] + v)[1..] == v;
    if u == [] {
      assert MergeFalling(u, v) == v;
    }
  }

  lemma OneMore(s: Sample, t: seq<Sample>, m: seq<int>, k: nat)
    requires k > 0 && Times(t) == Take(m, k - 1)
    ensures Times([s] + t) == Take([s.time] + m, k)
  {
    assert Times([s] + t) == [s.time] + Times(t);
  }

  /** The live times from a position on: none when the sample there is not live. */
  lemma LiveTail(a: seq<Sample>, p: nat, x: nat)
    requires NewestFirst(a) && p < |a|
    ensures LiveTimes(a[p..], x) == if a[p].time > x then [a[p].time] + LiveTimes(a[p + 1..], x) else []
  {
    assert a[p..][1..] == a[p + 1..];
    if a[p].time <= x {
      NothingLive(a[p..], x);
    }
  }

  /** `t` is made of all of `u` and all of `v`, each in its own order. */
  predicate Interleaves(t: seq<Sample>, u: seq<Sample>, v: seq<Sample>) {
    if t == [] then u == [] && v == []
    else
      (u != [] && t[0] == u[0] && Interleaves(t[1..], u[1..], v)) ||
      (v != [] && t[0] == v[0] && Interleaves(t[1..], u, v[1..]))
  }

  lemma NothingTaken()
    ensures Interleaves([], [], [])
  {
  }

  lemma TakenFromA(s: Sample, t: seq<Sample>, u: seq<Sample>, v: seq<Sample>)
    requires Interleaves(t, u, v)
    ensures Interleaves([s] + t, [s] + u, v)
  {
    assert ([s] + t)[1..] == t && ([s] + u)[1..] == u;
  }

  lemma TakenFromB(s: Sample, t: seq<Sample>, u: seq<Sample>, v: seq<Sample>)
    requires Interleaves(t, u, v)
    ensures Interleaves([s] + t, u, [s] + v)
  {
    assert ([s] + t)[1..] == t && ([s] + v)[1..] == v;
  }

  /**
   * What is taken interleaves the newest `i` samples of `a` with the newest `j` of `b`: none is skipped, none used
   * twice. Of ordered inputs a sample of `a` is taken only before an older one of `b`, so that ties go to `b`.
   */
  lemma {:induction false} NewerTakesRuns(a: seq<Sample>, p: nat, b: seq<Sample>, r: nat, x: nat, k: nat)
    returns (i: nat, j: nat)
    requires p + k <= |a| && r + k <= |b|
    ensures i + j == |Newer(a, p, b, r, x, k)| && p + i <= |a| && r + j <= |b|
    ensures Interleaves(Newer(a, p, b, r, x, k), a[p..p + i], b[r..r + j])
    ensures NewestFirst(b) && i > 0 && r + j < |b| ==> a[p + i - 1].time > b[r + j].time
    ensures NewestFirst(a) && j > 0 && p + i < |a| ==> b[r + j - 1].time >= a[p + i].time
    decreases k
  {
    hide Interleaves, NewestFirst, Newer;
    NewerStep(a, p, b, r, x, k);
    NothingTaken();
    assert a[p..p] == [] && b[r..r] == [];
    i, j := 0, 0;
    if k > 0 && a[p].time > b[r].time && x < a[p].time {
      i, j := NewerTakesRuns(a, p + 1, b, r, x, k - 1);
      assert a[p..p + i + 1] == [a[p]] + a[p + 1..p + 1 + i];
      TakenFromA(a[p], Newer(a, p + 1, b, r, x, k - 1), a[p + 1..p + 1 + i], b[r..r + j]);
      NotNewer(b, r, r + j);
      i := i + 1;
    } else if k > 0 && a[p].time <= b[r].time && x < b[r].time {
      i, j := NewerTakesRuns(a, p, b, r + 1, x, k - 1);
      assert b[r..r + j + 1] == [b[r]] + b[r + 1..r + 1 + j];
      TakenFromB(b[r], Newer(a, p, b, r + 1, x, k - 1), a[p..p + i], b[r + 1..r + 1 + j]);
      NotNewer(a, p, p + i);
      j := j + 1;
    }
  }

  lemma NotNewer(s: seq<Sample>, i: nat, j: nat)
    ensures NewestFirst(s) && i <= j < |s| ==> s[i].time >= s[j].time
  {
  }

  lemma {:induction false} NewerIsLive(a: seq<Sample>, p: nat, b: seq<Sample>, r: nat, x: nat, k: nat)
    requires p + k <= |a| && r + k <= |b|
    ensures forall s :: s in Newer(a, p, b, r, x, k) ==> s.time > x && (s in a || s in b)
    decreases k
  {
    if k > 0 && a[p].time > b[r].time && x < a[p].time {
      NewerIsLive(a, p + 1, b, r, x, k - 1);
    } else if k > 0 && a[p].time <= b[r].time && x < b[r].time {
      NewerIsLive(a, p, b, r + 1, x, k - 1);
    }
  }

  /** The live times of a queue, newest first. */
  function Live(queue: seq<Sample>, x: nat): seq<int> {
    LiveTimes(Reverse(queue), x)
  }

  lemma {:induction false} LiveOfPadded(s: seq<Sample>, n: nat, x: nat)
    ensures LiveTimes(s + Padding(n), x) == LiveTimes(s, x)
  {
    if s == [] {
      assert s + Padding(n) == Padding(n);
      NothingLive(Padding(n), x);
    } else {
      assert (s + Padding(n))[1..] == s[1..] + Padding(n);
      LiveOfPadded(s[1..], n, x);
    }
  }

  lemma {:induction false} LiveOfAllLive(s: seq<Sample>, x: nat)
    requires forall i | 0 <= i < |s| :: s[i].time > x
    ensures LiveTimes(s, x) == Times(s)
  {
    if s != [] {
      LiveOfAllLive(s[1..], x);
      assert Times(s) == [s[0].time] + Times(s[1..]);
    }
  }

  lemma TakenIsNewest(a: seq<Sample>, b: seq<Sample>, x: nat)
    requires |a| == |b| == QUEUE_LEN - 1 && NewestFirst(a) && NewestFirst(b)
    ensures Times(Newer(a, 0, b, 0, x, QUEUE_LEN - 1)) == Newest(LiveTimes(a, x) + LiveTimes(b, x), QUEUE_LEN - 1)
    ensures NewestFirst(Newer(a, 0, b, 0, x, QUEUE_LEN - 1))
  {
    var taken := Newer(a, 0, b, 0, x, QUEUE_LEN - 1);
    assert a[0..] == a && b[0..] == b;
    LiveTimesFall(a, x);
    LiveTimesFall(b, x);
    RankedOfSum(LiveTimes(a, x), LiveTimes(b, x));
    RankedOfFalling(LiveTimes(a, x));
    RankedOfFalling(LiveTimes(b, x));
    MergeFallingSorted(LiveTimes(a, x), LiveTimes(b, x));
    NewerTakesNewest(a, 0, b, 0, x, QUEUE_LEN - 1);
    assert forall i, j | 0 <= i < j < |taken| :: Times(taken)[i] >= Times(taken)[j];
  }

  /** Ordered, with padding only at its old end, before the samples above the cutoff. */
  ghost predicate PaddedOrdered(queue: seq<Sample>, x: nat) {
    OldestFirst(queue) && |Live(queue, x)| <= |queue| &&
    forall i | 0 <= i < |queue| :: if i < |queue| - |Live(queue, x)| then queue[i] == PAD else queue[i].time > x
  }

  lemma MergedShape(a: seq<Sample>, b: seq<Sample>, x: nat, taken: seq<Sample>)
    requires |a| == |b| == QUEUE_LEN - 1 && taken == Newer(a, 0, b, 0, x, QUEUE_LEN - 1) && NewestFirst(taken)
    ensures PaddedOrdered(Merged(a, b, x), x) && Live(Merged(a, b, x), x) == Times(taken)
    ensures forall s :: s in Merged(a, b, x) && s.time > x ==> s in taken
  {
    hide Newer, LiveTimes;
    var pad := Padding(QUEUE_LEN - 1 - |taken|);
    NewerIsLive(a, 0, b, 0, x, QUEUE_LEN - 1);
    assert Reverse(Merged(a, b, x)) == taken + pad;
    LiveOfPadded(taken, |pad|, x);
    LiveOfAllLive(taken, x);
  }

  /**
   * Merging two ordered queues: the result is a full ordered queue, its live times are the newest 63 of both, every
   * live sample comes from one of them, and everything else in it is padding at the old end.
   */
  lemma MergeKeepsNewest(a: seq<Sample>, b: seq<Sample>, x: nat)
    requires |a| == |b| == QUEUE_LEN - 1 && NewestFirst(a) && NewestFirst(b)
    ensures |Merged(a, b, x)| == QUEUE_LEN - 1 && PaddedOrdered(Merged(a, b, x), x)
    ensures Live(Merged(a, b, x), x) == Newest(LiveTimes(a, x) + LiveTimes(b, x), QUEUE_LEN - 1)
    ensures forall s :: s in Merged(a, b, x) && s.time > x ==> s in a || s in b
  {
    hide Newer, Merged, LiveTimes, Newest, Live;
    var taken := Newer(a, 0, b, 0, x, QUEUE_LEN - 1);
    TakenIsNewest(a, b, x);
    NewerIsLive(a, 0, b, 0, x, QUEUE_LEN - 1);
    MergedShape(a, b, x, taken);
  }

  // ---- Folding merges over the nodes of a tree ----

  /** The summary queue after merging the queues of the listed nodes one by one; it starts as padding. */
  function FoldMerge(queues: seq<seq<Sample>>, x: nat): (r: seq<Sample>)
    requires forall q :: q in queues ==> |q| == QUEUE_LEN - 1
    ensures |r| == QUEUE_LEN - 1
  {
    if queues == [] then Padding(QUEUE_LEN - 1)
    else
      var last := |queues| - 1;
      Merged(Reverse(FoldMerge(queues[..last], x)), Reverse(queues[last]), x)
  }

  /** All live times of the listed queues. */
  function AllLive(queues: seq<seq<Sample>>, x: nat): seq<int> {
    if queues == [] then [] else AllLive(queues[..|queues| - 1], x) + Live(queues[|queues| - 1], x)
  }

  ghost predicate Listed(s: Sample, queues: seq<seq<Sample>>) {
    exists i :: 0 <= i < |queues| && s in queues[i]
  }

  /** The summary queue holds the newest 63 live samples of all nodes together. */
  lemma {:induction false} FoldKeepsNewest(queues: seq<seq<Sample>>, x: nat)
    requires forall q :: q in queues ==> |q| == QUEUE_LEN - 1 && OldestFirst(q)
    ensures PaddedOrdered(FoldMerge(queues, x), x)
    ensures Live(FoldMerge(queues, x), x) == Newest(AllLive(queues, x), QUEUE_LEN - 1)
    ensures forall s :: s in FoldMerge(queues, x) && s.time > x ==> Listed(s, queues)
  {
    hide Merged, Newest, LiveTimes, Reverse, PaddedOrdered, Listed;
    if queues == [] {
      EmptySummary(x);
    } else {
      var last := |queues| - 1;
      var before := FoldMerge(queues[..last], x);
      FoldKeepsNewest(queues[..last], x);
      assert OldestFirst(before) by {
        PaddedIsOrdered(before, x);
      }
      ReverseOrder(before);
      ReverseOrder(queues[last]);
      MergeKeepsNewest(Reverse(before), Reverse(queues[last]), x);
      NewestAbsorbs(AllLive(queues[..last], x), Live(queues[last], x), QUEUE_LEN - 1);
      assert FoldMerge(queues, x) == Merged(Reverse(before), Reverse(queues[last]), x);
      forall s | s in FoldMerge(queues, x) && s.time > x
        ensures Listed(s, queues)
      {
        ListedMore(s, before, queues, x);
      }
    }
  }

  lemma ListedMore(s: Sample, before: seq<Sample>, queues: seq<seq<Sample>>, x: nat)
    requires queues != [] && s.time > x
    requires s in Reverse(before) || s in Reverse(queues[|queues| - 1])
    requires s in before ==> Listed(s, queues[..|queues| - 1])
    ensures Listed(s, queues)
  {
    if s in Reverse(queues[|queues| - 1]) {
      assert s in queues[|queues| - 1];
    } else {
      assert s in before;
      var k :| 0 <= k < |queues| - 1 && s in queues[..|queues| - 1][k];
      assert s in queues[k];
    }
  }

  lemma PaddedIsOrdered(s: seq<Sample>, x: nat)
    requires PaddedOrdered(s, x)
    ensures OldestFirst(s)
  {
  }

  lemma ReverseOrder(s: seq<Sample>)
    requires OldestFirst(s)
    ensures NewestFirst(Reverse(s))
  {
  }

  lemma EmptySummary(x: nat)
    ensures var p := Padding(QUEUE_LEN - 1); PaddedOrdered(p, x) && Live(p, x) == Newest([], QUEUE_LEN - 1) == []
  {
    NothingLive(Reverse(Padding(QUEUE_LEN - 1)), x);
  }

  lemma {:induction false} AllLiveBag(queues: seq<seq<Sample>>, others: seq<seq<Sample>>, x: nat)
    requires multiset(queues) == multiset(others)
    ensures multiset(AllLive(queues, x)) == multiset(AllLive(others, x))
  {
    assert |multiset(queues)| == |queues| && |multiset(others)| == |others|;
    if queues != [] {
      var last := |queues| - 1;
      var q := queues[last];
      assert q in multiset(others);
      var k :| 0 <= k < |others| && others[k] == q;
      var rest := others[..k] + others[k + 1..];
      BagWithout(queues, last);
      BagWithout(others, k);
      assert queues[..last] + queues[last + 1..] == queues[..last];
      AllLiveBag(queues[..last], rest, x);
      AllLiveWithout(others, k, x);
    }
  }

  lemma AllLiveSplit(queues: seq<seq<Sample>>, x: nat)
    requires queues != []
    ensures multiset(AllLive(queues, x))
         == multiset(AllLive(queues[..|queues| - 1], x)) + multiset(Live(queues[|queues| - 1], x))
  {
    hide Live;
  }

  lemma {:induction false} AllLiveWithout(queues: seq<seq<Sample>>, k: nat, x: nat)
    requires k < |queues|
    ensures multiset(AllLive(queues, x)) ==
            multiset(AllLive(queues[..k] + queues[k + 1..], x)) + multiset(Live(queues[k], x))
  {
    hide Live, AllLive;
    var last, rest := |queues| - 1, queues[..k] + queues[k + 1..];
    AllLiveSplit(queues, x);
    if k == last {
      assert rest == queues[..last];
    } else {
      AllLiveWithout(queues[..last], k, x);
      AllLiveSplit(rest, x);
      assert rest[..|rest| - 1] == queues[..last][..k] + queues[..last][k + 1..];
    }
  }

  /** Samples above the cutoff can be told apart by their times. */
  ghost predicate Unambiguous(queues: seq<seq<Sample>>, x: nat) {
    forall s, t | Listed(s, queues) && Listed(t, queues) && s.time == t.time > x :: s == t
  }

  /**
   * The order in which the nodes are met does not matter: the times kept are the same, and so is the whole summary
   * queue when no two different samples share a time.
   */
  lemma FoldOrderFree(queues: seq<seq<Sample>>, others: seq<seq<Sample>>, x: nat)
    requires forall q :: q in queues ==> |q| == QUEUE_LEN - 1 && OldestFirst(q)
    requires multiset(queues) == multiset(others)
    ensures forall q :: q in others ==> q in queues
    ensures Live(FoldMerge(queues, x), x) == Live(FoldMerge(others, x), x)
    ensures Unambiguous(queues, x) ==> FoldMerge(queues, x) == FoldMerge(others, x)
  {
    hide FoldMerge, Live, Newest;
    assert forall q :: q in others ==> q in multiset(queues);
    FoldKeepsNewest(queues, x);
    FoldKeepsNewest(others, x);
    AllLiveBag(queues, others, x);
    NewestOrderFree(AllLive(queues, x), AllLive(others, x), QUEUE_LEN - 1);
    assert |multiset(queues)| == |queues| && |multiset(others)| == |others|;
    if Unambiguous(queues, x) {
      SameTimesSameQueue(queues, others, FoldMerge(queues, x), FoldMerge(others, x), x);
    }
  }

  lemma LiveEntry(r: seq<Sample>, i: nat, x: nat)
    requires PaddedOrdered(r, x) && |r| - |Live(r, x)| <= i < |r|
    ensures Live(r, x)[|r| - 1 - i] == r[i].time > x
  {
    LiveTimesFall(Reverse(r), x);
  }

  lemma SameTimesSameQueue(queues: seq<seq<Sample>>, others: seq<seq<Sample>>, r: seq<Sample>, s: seq<Sample>, x: nat)
    requires Unambiguous(queues, x) && forall q :: q in others ==> q in queues
    requires |r| == |s| && PaddedOrdered(r, x) && PaddedOrdered(s, x) && Live(r, x) == Live(s, x)
    requires forall t :: t in r && t.time > x ==> Listed(t, queues)
    requires forall t :: t in s && t.time > x ==> Listed(t, others)
    ensures r == s
  {
    hide Live;
    forall i | 0 <= i < |r|
      ensures r[i] == s[i]
    {
      if i >= |r| - |Live(r, x)| {
        LiveEntry(r, i, x);
        LiveEntry(s, i, x);
        assert s[i] in s && r[i] in r;
        var k :| 0 <= k < |others| && s[i] in others[k];
        assert others[k] in queues;
        assert Listed(s[i], queues);
      }
    }
  }
}
