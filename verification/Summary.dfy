/** The summary row: counters, overflow counts and queues of all server nodes folded into one. */
module Summary {
  import opened Bytes
  import opened Collections
  import opened Samples
  import opened TimeQueues
  import opened QueueProperties
  import opened Keys
  import opened Nodes
  import opened NodeTotals
  import opened Trees
  import opened Stores

  /** The server nodes of a tree in the order of the traversal. */
  function Servers(t: Tree<Stats>): seq<Stats> {
    if t.Leaf? then []
    else (if t.value.kind == UPSTREAM_NO then [t.value] else []) + Servers(t.left) + Servers(t.right)
  }

  function Sums(a: seq<word>, b: seq<word>): (r: seq<word>)
    requires |a| == |b|
    ensures |r| == |a|
  {
    seq(|a|, i requires 0 <= i < |a| => Sum(a[i], b[i]))
  }

  /** One node's counters added to the summary. */
  function Plus(c: Counts, d: Counts): (r: Counts)
    requires WellFormed(c) && WellFormed(d)
    ensures WellFormed(r)
  {
    var v := Sums(c.value, d.value);
    Counts(v, Overflowed(c.value, v, Sums(c.oc, d.oc)))
  }

  ghost predicate AllWellFormed(nodes: seq<Stats>) {
    forall i | 0 <= i < |nodes| :: ValidStats(nodes[i])
  }

  function FoldCounts(nodes: seq<Stats>): (c: Counts)
    requires AllWellFormed(nodes)
    ensures WellFormed(c)
  {
    if nodes == [] then ZeroCounts()
    else Plus(FoldCounts(nodes[..|nodes| - 1]), nodes[|nodes| - 1].counts)
  }

  function Queues(nodes: seq<Stats>): (q: seq<seq<Sample>>)
    ensures |q| == |nodes| && forall i | 0 <= i < |nodes| :: q[i] == nodes[i].times
  {
    seq(|nodes|, i requires 0 <= i < |nodes| => nodes[i].times)
  }

  function ExactSum(nodes: seq<Stats>, i: nat): nat
    requires AllWellFormed(nodes) && i < COUNTERS
  {
    if nodes == [] then 0
    else ExactSum(nodes[..|nodes| - 1], i) + Exact(nodes[|nodes| - 1].counts, i)
  }

  /** Adding two counters with their overflow counts. */
  lemma PlusScalar(v: word, oc: word, v': word, oc': word)
    ensures var t := Sum(v, v');
            var o := Sum(oc, oc');
            (if v > t then Sum(o, 1) else o) * WORD + t == Wrapped(oc * WORD + v + (oc' * WORD + v'))
  {
    var t := Sum(v, v');
    var o := Sum(oc, oc');
    CarryStep(v, o, v');
    assert o * WORD + v + v' == oc * WORD + v + (oc' * WORD + v') - (if oc + oc' < WORD then 0 else LIMIT);
  }

  lemma {:induction false} FoldExact(nodes: seq<Stats>, i: nat)
    requires AllWellFormed(nodes) && i < COUNTERS
    ensures Exact(FoldCounts(nodes), i) == Wrapped(ExactSum(nodes, i))
  {
    hide Wrapped, Sum;
    if nodes == [] {
    } else {
      var last := |nodes| - 1;
      var c, d := FoldCounts(nodes[..last]), nodes[last].counts;
      FoldExact(nodes[..last], i);
      PlusScalar(c.value[i], c.oc[i], d.value[i], d.oc[i]);
      WrappedSum(ExactSum(nodes[..last], i), Exact(d, i));
    }
  }

  // ---- Trees of the same entries ----

  function ValuesOf(keys: seq<Text>, m: map<Text, Stats>): (s: seq<Stats>)
    requires forall k :: k in keys ==> k in m
    ensures |s| == |keys| && forall i | 0 <= i < |keys| :: s[i] == m[keys[i]]
  {
    seq(|keys|, i requires 0 <= i < |keys| => m[keys[i]])
  }

  ghost predicate Within(part: map<Text, Stats>, m: map<Text, Stats>) {
    forall k | k in part :: k in m && m[k] == part[k]
  }

  lemma SidesWithin(l: map<Text, Stats>, hash: nat, key: Text, value: Stats, r: map<Text, Stats>, f: Hash,
                    m: map<Text, Stats>)
    requires Fits(l, hash, key, r, f) && Within(Joined(l, key, value, r), m)
    ensures Within(l, m) && Within(r, m) && key in m && m[key] == value
  {
    hide Before;
    Apart(l, hash, key, value, r, f);
    assert key in Joined(l, key, value, r);
    forall k | k in l || k in r
      ensures k in Joined(l, key, value, r)
    {
    }
  }

  lemma ValuesOfThree(a: seq<Text>, b: seq<Text>, c: seq<Text>, m: map<Text, Stats>)
    requires forall k :: k in a || k in b || k in c ==> k in m
    ensures forall k :: k in a + b + c ==> k in m
    ensures ValuesOf(a + b + c, m) == ValuesOf(a, m) + ValuesOf(b, m) + ValuesOf(c, m)
  {
  }

  lemma ServerKeysInside(t: Tree<Stats>, f: Hash, m: map<Text, Stats>)
    requires Ordered(t, f) && Within(ToMap(t), m)
    ensures forall k :: k in GroupKeys(t, KindOf, UPSTREAM_NO) ==> k in m
  {
    hide GroupKeys, ToMap;
    GroupKeysInside(t, KindOf, UPSTREAM_NO, f);
  }

  lemma {:induction false} ServersByKey(t: Tree<Stats>, f: Hash, m: map<Text, Stats>)
    requires Ordered(t, f) && Within(ToMap(t), m)
    ensures forall k :: k in GroupKeys(t, KindOf, UPSTREAM_NO) ==> k in m
    ensures Servers(t) == ValuesOf(GroupKeys(t, KindOf, UPSTREAM_NO), m)
  {
    hide Joined, Fits, Within, ValuesOf;
    ServerKeysInside(t, f, m);
    if t.Node? {
      SidesWithin(ToMap(t.left), t.hash, t.key, t.value, ToMap(t.right), f, m);
      ServersByKey(t.left, f, m);
      ServersByKey(t.right, f, m);
      var own := if t.value.kind == UPSTREAM_NO then [t.key] else [];
      ValuesOfThree(own, GroupKeys(t.left, KindOf, UPSTREAM_NO), GroupKeys(t.right, KindOf, UPSTREAM_NO), m);
      assert GroupKeys(t, KindOf, UPSTREAM_NO) ==
             own + GroupKeys(t.left, KindOf, UPSTREAM_NO) + GroupKeys(t.right, KindOf, UPSTREAM_NO);
      OwnValue(own, t.key, m);
    }
  }

  lemma OwnValue(own: seq<Text>, key: Text, m: map<Text, Stats>)
    requires (own == [] || own == [key]) && key in m
    ensures ValuesOf(own, m) == if own == [] then [] else [m[key]]
  {
  }

  lemma FirstInside(b: seq<Text>)
    requires b != []
    ensures b[0] in b
  {
  }

  lemma {:induction false} SameValues(a: seq<Text>, b: seq<Text>, m: map<Text, Stats>)
    requires NoDuplicates(a) && NoDuplicates(b) && forall k :: k in a <==> k in b
    requires forall k :: k in a ==> k in m
    ensures multiset(ValuesOf(a, m)) == multiset(ValuesOf(b, m))
  {
    hide NoDuplicates, ValuesOf;
    if a == [] {
      if b != [] {
        FirstInside(b);
        assert false;
      }
    } else {
      var last := |a| - 1;
      assert a[last] in a;
      var j :| 0 <= j < |b| && b[j] == a[last];
      LessOne(a, b, j);
      SameValues(a[..last], b[..j] + b[j + 1..], m);
      BagOfValues(a, last, m);
      assert a[..last] + a[last + 1..] == a[..last];
      BagOfValues(b, j, m);
    }
  }

  lemma BagOfValues(b: seq<Text>, j: nat, m: map<Text, Stats>)
    requires j < |b| && forall k :: k in b ==> k in m
    ensures forall k :: k in b[..j] + b[j + 1..] ==> k in m
    ensures multiset(ValuesOf(b, m)) == multiset(ValuesOf(b[..j] + b[j + 1..], m)) + multiset{m[b[j]]}
  {
    BagWithout(ValuesOf(b, m), j);
    assert ValuesOf(b, m)[..j] + ValuesOf(b, m)[j + 1..] == ValuesOf(b[..j] + b[j + 1..], m);
    assert ValuesOf(b, m)[j] in multiset(ValuesOf(b, m));
  }

  lemma WithoutOne(b: seq<Text>, j: nat)
    requires NoDuplicates(b) && j < |b|
    ensures NoDuplicates(b[..j] + b[j + 1..])
    ensures forall k :: k in b[..j] + b[j + 1..] <==> k in b && k != b[j]
  {
    var b' := b[..j] + b[j + 1..];
    forall k | k in b && k != b[j]
      ensures k in b'
    {
      var i :| 0 <= i < |b| && b[i] == k;
      assert k == b'[if i < j then i else i - 1];
    }
  }

  lemma LessOne(a: seq<Text>, b: seq<Text>, j: nat)
    requires NoDuplicates(a) && NoDuplicates(b) && forall k :: k in a <==> k in b
    requires a != [] && j < |b| && b[j] == a[|a| - 1]
    ensures var b' := b[..j] + b[j + 1..];
            NoDuplicates(a[..|a| - 1]) && NoDuplicates(b') && forall k :: k in a[..|a| - 1] <==> k in b'
  {
    hide NoDuplicates;
    var last := |a| - 1;
    WithoutOne(b, j);
    WithoutOne(a, last);
    var a', b' := a[..last], b[..j] + b[j + 1..];
    assert a[..last] + a[last + 1..] == a';
    forall k: Text
      ensures k in a' <==> k in b'
    {
      assert k in a' <==> k in a && k != a[last];
      assert k in b' <==> k in b && k != b[j];
    }
  }

  /** Two trees of the same entries have the same server nodes, in some order each. */
  lemma SameServers(t: Tree<Stats>, u: Tree<Stats>, f: Hash)
    requires Ordered(t, f) && Ordered(u, f) && ToMap(t) == ToMap(u)
    ensures multiset(Servers(t)) == multiset(Servers(u))
  {
    hide GroupKeys, Servers, ToMap;
    var m := ToMap(t);
    ServersByKey(t, f, m);
    ServersByKey(u, f, m);
    GroupKeysInside(t, KindOf, UPSTREAM_NO, f);
    GroupKeysInside(u, KindOf, UPSTREAM_NO, f);
    GroupKeysOnce(t, KindOf, UPSTREAM_NO, f);
    GroupKeysOnce(u, KindOf, UPSTREAM_NO, f);
    SameValues(GroupKeys(t, KindOf, UPSTREAM_NO), GroupKeys(u, KindOf, UPSTREAM_NO), m);
  }

  // ---- The summary does not depend on the shape of the tree ----

  lemma {:induction false} ExactSumWithout(nodes: seq<Stats>, k: nat, i: nat)
    requires AllWellFormed(nodes) && k < |nodes| && i < COUNTERS
    ensures AllWellFormed(nodes[..k] + nodes[k + 1..])
    ensures ExactSum(nodes, i) == ExactSum(nodes[..k] + nodes[k + 1..], i) + Exact(nodes[k].counts, i)
  {
    hide Exact;
    var last, rest := |nodes| - 1, nodes[..k] + nodes[k + 1..];
    if k == last {
      assert rest == nodes[..last];
    } else {
      ExactSumWithout(nodes[..last], k, i);
      assert rest[..|rest| - 1] == nodes[..last][..k] + nodes[..last][k + 1..];
      assert rest[|rest| - 1] == nodes[last];
    }
  }

  lemma {:induction false} ExactSumOrderFree(nodes: seq<Stats>, others: seq<Stats>, i: nat)
    requires AllWellFormed(nodes) && AllWellFormed(others) && multiset(nodes) == multiset(others) && i < COUNTERS
    ensures ExactSum(nodes, i) == ExactSum(others, i)
    decreases |nodes|
  {
    hide Exact, ValidStats;
    assert |multiset(nodes)| == |nodes| && |multiset(others)| == |others|;
    if nodes != [] {
      var last := |nodes| - 1;
      assert nodes[last] in multiset(others);
      var k :| 0 <= k < |others| && others[k] == nodes[last];
      ExactSumWithout(others, k, i);
      ExactSumWithout(nodes, last, i);
      BagWithout(others, k);
      BagWithout(nodes, last);
      assert nodes[..last] + nodes[last + 1..] == nodes[..last];
      ExactSumOrderFree(nodes[..last], others[..k] + others[k + 1..], i);
    }
  }

  ghost predicate AllOrdered(nodes: seq<Stats>) {
    forall i | 0 <= i < |nodes| :: ValidStats(nodes[i]) && OldestFirst(nodes[i].times)
  }

  /**
   * Two trees of the same entries, whatever their shapes: the summary counters are equal, the summary queue keeps
   * the same times, and with distinct times it is the same queue.
   */
  lemma SummaryShapeFree(t: Tree<Stats>, u: Tree<Stats>, f: Hash, x: nat)
    requires Ordered(t, f) && Ordered(u, f) && ToMap(t) == ToMap(u)
    requires AllOrdered(Servers(t))
    ensures AllOrdered(Servers(u)) && FoldCounts(Servers(t)) == FoldCounts(Servers(u))
    ensures Live(FoldMerge(Queues(Servers(t)), x), x) == Live(FoldMerge(Queues(Servers(u)), x), x)
    ensures Unambiguous(Queues(Servers(t)), x) ==> FoldMerge(Queues(Servers(t)), x) == FoldMerge(Queues(Servers(u)), x)
  {
    hide FoldMerge, Live, Servers, ToMap, Unambiguous, FoldCounts, AllOrdered;
    var a, b := Servers(t), Servers(u);
    SameServers(t, u, f);
    AlsoOrdered(a, b);
    SameBagOfQueues(a, b);
    FoldOrderFree(Queues(a), Queues(b), x);
    SameCounts(a, b);
  }

  lemma AlsoOrdered(a: seq<Stats>, b: seq<Stats>)
    requires AllOrdered(a) && multiset(a) == multiset(b)
    ensures AllOrdered(b) && AllWellFormed(a) && AllWellFormed(b)
    ensures forall q :: q in Queues(a) ==> |q| == QUEUE_LEN - 1 && OldestFirst(q)
    ensures forall q :: q in Queues(b) ==> |q| == QUEUE_LEN - 1
  {
    forall i | 0 <= i < |b|
      ensures b[i] in a
    {
      assert b[i] in multiset(b);
    }
  }

  lemma SameCounts(a: seq<Stats>, b: seq<Stats>)
    requires AllWellFormed(a) && AllWellFormed(b) && multiset(a) == multiset(b)
    ensures FoldCounts(a) == FoldCounts(b)
  {
    hide FoldCounts, Exact, ExactSum, AllWellFormed;
    forall i: nat | i < COUNTERS
      ensures Exact(FoldCounts(a), i) == Exact(FoldCounts(b), i)
    {
      FoldExact(a, i);
      FoldExact(b, i);
      ExactSumOrderFree(a, b, i);
    }
    ExactDetermines(FoldCounts(a), FoldCounts(b));
  }

  lemma {:induction false} SameBagOfQueues(a: seq<Stats>, b: seq<Stats>)
    requires multiset(a) == multiset(b)
    ensures multiset(Queues(a)) == multiset(Queues(b))
    decreases |a|
  {
    assert |multiset(a)| == |a| && |multiset(b)| == |b|;
    if a != [] {
      var last := |a| - 1;
      assert a[last] in multiset(b);
      var k :| 0 <= k < |b| && b[k] == a[last];
      BagWithout(a, last);
      BagWithout(b, k);
      assert a[..last] + a[last + 1..] == a[..last];
      SameBagOfQueues(a[..last], b[..k] + b[k + 1..]);
      QueuesWithout(a, last);
      QueuesWithout(b, k);
    }
  }

  lemma QueuesWithout(b: seq<Stats>, k: nat)
    requires k < |b|
    ensures multiset(Queues(b)) == multiset(Queues(b[..k] + b[k + 1..])) + multiset{b[k].times}
  {
    BagWithout(Queues(b), k);
    assert Queues(b)[..k] + Queues(b)[k + 1..] == Queues(b[..k] + b[k + 1..]);
    assert Queues(b)[k] in multiset(Queues(b));
  }

  lemma ExactDetermines(c: Counts, d: Counts)
    requires WellFormed(c) && WellFormed(d) && forall i: nat | i < COUNTERS :: Exact(c, i) == Exact(d, i)
    ensures c == d
  {
    forall i | 0 <= i < COUNTERS
      ensures c.value[i] == d.value[i] && c.oc[i] == d.oc[i]
    {
      assert Exact(c, i) == Exact(d, i);
    }
  }

  /** The times of the young samples of all listed queues. */
  function AllYoung(queues: seq<seq<Sample>>, now: word, period: word): seq<int> {
    if queues == [] then []
    else AllYoung(queues[..|queues| - 1], now, period) + YoungTimes(Reverse(queues[|queues| - 1]), now, period)
  }

  lemma {:induction false} AllLiveIsYoung(queues: seq<seq<Sample>>, now: word, period: word)
    ensures AllLive(queues, Cutoff(now, period)) == AllYoung(queues, now, period)
  {
    hide Cutoff;
    if queues != [] {
      AllLiveIsYoung(queues[..|queues| - 1], now, period);
      LiveIsYoung(Reverse(queues[|queues| - 1]), now, period);
    }
  }

  /**
   * What a summary queue is to hold: the times of the newest 63 young samples of all servers, each sample one of
   * theirs, and padding otherwise.
   */
  ghost predicate KeepsYoungest(held: seq<Sample>, nodes: seq<Stats>, now: word, period: word) {
    YoungTimes(Reverse(held), now, period) == Newest(AllYoung(Queues(nodes), now, period), QUEUE_LEN - 1) &&
    forall i | 0 <= i < |held| ::
      held[i] == PAD || (Young(held[i].time, now, period) && Listed(held[i], Queues(nodes)))
  }

  lemma SummaryIsYoung(nodes: seq<Stats>, now: word, period: word)
    requires AllOrdered(nodes)
    ensures forall q :: q in Queues(nodes) ==> |q| == QUEUE_LEN - 1
    ensures KeepsYoungest(FoldMerge(Queues(nodes), Cutoff(now, period)), nodes, now, period)
  {
    hide Cutoff, Young, FoldMerge, Newest, LiveTimes, YoungTimes, AllYoung, AllLive, Listed;
    var x, held := Cutoff(now, period), FoldMerge(Queues(nodes), Cutoff(now, period));
    FoldKeepsNewest(Queues(nodes), x);
    AllLiveIsYoung(Queues(nodes), now, period);
    LiveIsYoung(Reverse(held), now, period);
    forall i | 0 <= i < |held|
      ensures held[i] == PAD || (Young(held[i].time, now, period) && Listed(held[i], Queues(nodes)))
    {
      CutoffIsYoung(held[i].time, now, period);
      assert held[i] in held;
    }
  }

  // ---- The traversal ----

  /** The objects the nodes of a tree are made of. */
  ghost function Footprint(t: Tree<StatNode>): set<object> {
    if t.Leaf? then {} else t.value.Repr() + Footprint(t.left) + Footprint(t.right)
  }

  lemma {:induction false} FootprintExists(t: Tree<StatNode>)
    ensures forall o | o in Footprint(t) :: allocated(o)
  {
    if t.Node? {
      FootprintExists(t.left);
      FootprintExists(t.right);
    }
  }

  ghost predicate NodesValid(t: Tree<StatNode>)
    reads Footprint(t)
  {
    t.Node? ==> t.value.Valid() && NodesValid(t.left) && NodesValid(t.right)
  }

  /** The tree with each node replaced by what it holds. */
  ghost function Seen(t: Tree<StatNode>): Tree<Stats>
    reads Footprint(t)
    requires NodesValid(t)
  {
    if t.Leaf? then Leaf else Node(Seen(t.left), t.hash, t.key, t.value.Value(), Seen(t.right))
  }

  lemma FoldMore(nodes: seq<Stats>, s: Stats, x: nat)
    requires AllWellFormed(nodes) && ValidStats(s)
    ensures AllWellFormed(nodes + [s]) && FoldCounts(nodes + [s]) == Plus(FoldCounts(nodes), s.counts)
    ensures forall q :: q in Queues(nodes + [s]) ==> |q| == QUEUE_LEN - 1
    ensures FoldMerge(Queues(nodes + [s]), x) == Merged(Reverse(FoldMerge(Queues(nodes), x)), Reverse(s.times), x)
  {
    hide Merged, Reverse, Plus;
    assert (nodes + [s])[..|nodes|] == nodes;
    assert Queues(nodes + [s])[..|nodes|] == Queues(nodes);
  }

  lemma FoldNone(x: nat)
    ensures FoldCounts([]) == Counts(Zeroes(), Zeroes())
    ensures FoldMerge(Queues([]), x) == Padding(QUEUE_LEN - 1)
  {
  }

  lemma Parts(t: Tree<StatNode>)
    requires NodesValid(t)
    ensures t.Leaf? ==> Servers(Seen(t)) == []
    ensures t.Node? ==>
              Footprint(t) == t.value.Repr() + Footprint(t.left) + Footprint(t.right) &&
              t.value.Valid() && NodesValid(t.left) && NodesValid(t.right) &&
              Servers(Seen(t)) ==
                (if t.value.kind == UPSTREAM_NO then [t.value.Value()] else []) +
                Servers(Seen(t.left)) + Servers(Seen(t.right))
  {
  }

  class Total {
    var value: seq<word>
    var oc: seq<word>
    const times: TimeQueue

    ghost predicate Apart(t: Tree<StatNode>) {
      times.times.Length == QUEUE_LEN && forall o | o in Footprint(t) :: o != this && o != times && o != times.times
    }

    /** The totals of the nodes met so far. */
    ghost predicate Holds(done: seq<Stats>, x: nat)
      reads this, times, times.times
    {
      AllWellFormed(done) && |value| == |oc| == COUNTERS && Counts(value, oc) == FoldCounts(done) &&
      times.Full() && times.held == FoldMerge(Queues(done), x)
    }

    constructor ()
      ensures fresh(times) && fresh(times.times) && times.times.Length == QUEUE_LEN
    {
      times := new TimeQueue();
      value, oc := [], [];
    }

    method AddServer(n: StatNode, period: word, now: word, ghost done: seq<Stats>)
      requires Holds(done, Cutoff(now, period)) && n.Valid() && {this, times, times.times} !! n.Repr()
      modifies this, times, times.times
      ensures Holds(done + [n.Value()], Cutoff(now, period)) && n.Value() == old(n.Value())
    {
      hide FoldMerge, FoldCounts, Merged, Overflowed;
      FoldMore(done, n.Value(), Cutoff(now, period));
      ghost var c, d := Counts(value, oc), n.Value().counts;
      var before := value;
      value := Sums(value, n.value);
      times.Merge(n.times, period, now);
      oc := Sums(oc, n.oc);
      oc := Overflowed(before, value, oc);
      assert Counts(value, oc) == Plus(c, d);
    }

    /** `display_set_server`: the node itself, then its left and right subtrees. */
    method SetServer(t: Tree<StatNode>, period: word, now: word, ghost done: seq<Stats>)
      requires Apart(t) && NodesValid(t) && Holds(done, Cutoff(now, period))
      modifies this, times, times.times
      ensures NodesValid(t) && Seen(t) == old(Seen(t))
      ensures Holds(done + Servers(Seen(t)), Cutoff(now, period))
      decreases t
    {
      hide Holds, Footprint, NodesValid, Seen, Servers;
      FootprintExists(t);
      Parts(t);
      if t == Leaf {
        assert done + [] == done;
        return;
      }
      ghost var own: seq<Stats> := [];
      if t.value.kind == UPSTREAM_NO {
        own := [t.value.Value()];
        AddServer(t.value, period, now, done);
      } else {
        assert done + own == done;
      }
      SetServer(t.left, period, now, done + own);
      SetServer(t.right, period, now, done + own + Servers(Seen(t.left)));
      assert done + own + Servers(Seen(t.left)) + Servers(Seen(t.right)) == done + Servers(Seen(t));
    }

    /** The summary part of `display_set`: start from nothing and take in the whole tree. */
    method Summarise(t: Tree<StatNode>, period: word, now: word)
      requires Apart(t) && NodesValid(t)
      modifies this, times, times.times
      ensures NodesValid(t) && Seen(t) == old(Seen(t))
      ensures Holds(Servers(Seen(t)), Cutoff(now, period))
      ensures AllOrdered(Servers(Seen(t))) ==> KeepsYoungest(times.held, Servers(Seen(t)), now, period)
    {
      hide Footprint, NodesValid, Seen, Servers, FoldMerge, FoldCounts, KeepsYoungest, AllOrdered;
      FootprintExists(t);
      value, oc := Zeroes(), Zeroes();
      times.Init();
      FoldNone(Cutoff(now, period));
      SetServer(t, period, now, []);
      assert [] + Servers(Seen(t)) == Servers(Seen(t));
      if AllOrdered(Servers(Seen(t))) {
        SummaryIsYoung(Servers(Seen(t)), now, period);
      }
    }
  }
}
