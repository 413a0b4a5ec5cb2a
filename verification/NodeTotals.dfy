/** Counters and overflow counts of a node are exact totals, over any run of requests and resets. */
module NodeTotals {
  import opened Bytes
  import opened Samples
  import opened TimeQueues
  import opened Nodes
  import opened QueueProperties

  /** 2^128: a counter and its overflow count together are one number below it. */
  const LIMIT: nat := 0x1_0000_0000_0000_0000_0000_0000_0000_0000

  datatype Event = Serve(r: Request) | Reset

  /** The upstream response time is counted like the other counters, after them. */
  const RESPONSE_TIME: nat := COUNTERS

  function ExactOf(s: Stats, i: nat): nat
    requires ValidStats(s) && i <= RESPONSE_TIME
  {
    if i == RESPONSE_TIME then s.responseOc * WORD + s.response else Exact(s.counts, i)
  }

  function AddedTo(r: Request, i: nat): word {
    if i == RESPONSE_TIME then r.upstreamMs else Added(r, i)
  }

  function Step(s: Stats, e: Event, a: Averaging): (t: Stats)
    requires ValidStats(s)
    ensures ValidStats(t)
  {
    match e
    case Serve(r) => WithUpstream(Updated(s, r, a), r, a, false)
    case Reset => Cleared(s)
  }

  /** An upstream node created by `first` and then taken through `events`. */
  function Run(first: Request, events: seq<Event>, a: Averaging): (s: Stats)
    ensures ValidStats(s)
  {
    if events == [] then WithUpstream(Initialised(first), first, a, true)
    else Step(Run(first, events[..|events| - 1], a), events[|events| - 1], a)
  }

  /** What the requests since the last reset add to counter `i`. */
  function AddedSince(first: Request, events: seq<Event>, i: nat): nat {
    if events == [] then AddedTo(first, i)
    else
      match events[|events| - 1]
      case Reset => 0
      case Serve(r) => AddedSince(first, events[..|events| - 1], i) + AddedTo(r, i)
  }

  /** One addition: the carry lands in the overflow count. */
  lemma CarryStep(v: word, oc: word, n: word)
    ensures var t := Sum(v, n);
            (if v > t then Sum(oc, 1) else oc) * WORD + t == Wrapped(oc * WORD + v + n)
  {
    var t := Sum(v, n);
    if v + n < WORD {
      assert t == v + n;
      assert oc * WORD + v + n < LIMIT;
    } else {
      assert t == v + n - WORD && v > t;
      if oc + 1 < WORD {
        assert (oc + 1) * WORD + t < LIMIT;
      } else {
        assert oc * WORD + v + n == LIMIT + t;
      }
    }
  }

  function Wrapped(n: nat): (r: nat)
    ensures r < LIMIT && (n < LIMIT ==> r == n)
  {
    n % LIMIT
  }

  lemma WrappedSum(a: nat, b: nat)
    ensures Wrapped(Wrapped(a) + b) == Wrapped(a + b)
  {
  }

  lemma ExactStep(s: Stats, r: Request, a: Averaging, i: nat)
    requires ValidStats(s) && i <= RESPONSE_TIME
    ensures ExactOf(Step(s, Serve(r), a), i) == Wrapped(ExactOf(s, i) + AddedTo(r, i))
  {
    hide Inserted, AverageOf, Cutoff, Sum;
    if i == RESPONSE_TIME {
      CarryStep(s.response, s.responseOc, r.upstreamMs);
    } else {
      CarryStep(s.counts.value[i], s.counts.oc[i], Added(r, i));
    }
  }

  lemma ExactStart(r: Request, a: Averaging, i: nat)
    requires i <= RESPONSE_TIME
    ensures ExactOf(Run(r, [], a), i) == AddedTo(r, i)
  {
  }

  /** Counter and overflow count together are the total since the last reset, modulo 2^128. */
  lemma {:induction false} RunExact(first: Request, events: seq<Event>, a: Averaging, i: nat)
    requires i <= RESPONSE_TIME
    ensures ExactOf(Run(first, events, a), i) == Wrapped(AddedSince(first, events, i))
    ensures AddedSince(first, events, i) < LIMIT ==>
              ExactOf(Run(first, events, a), i) == AddedSince(first, events, i)
    decreases |events|
  {
    hide Wrapped, Inserted, AverageOf, Cutoff, Sum;
    if events == [] {
      ExactStart(first, a, i);
    } else {
      var before := events[..|events| - 1];
      RunExact(first, before, a, i);
      match events[|events| - 1]
      case Reset =>
      case Serve(r) =>
        ExactStep(Run(first, before, a), r, a, i);
        WrappedSum(AddedSince(first, before, i), AddedTo(r, i));
    }
  }

  function ClassesAdded(first: Request, events: seq<Event>): nat {
    AddedSince(first, events, STATUS_1XX) + AddedSince(first, events, STATUS_2XX) +
    AddedSince(first, events, STATUS_3XX) + AddedSince(first, events, STATUS_4XX) +
    AddedSince(first, events, STATUS_5XX)
  }

  function ClassesExact(s: Stats): nat
    requires ValidStats(s)
  {
    ExactOf(s, STATUS_1XX) + ExactOf(s, STATUS_2XX) + ExactOf(s, STATUS_3XX) +
    ExactOf(s, STATUS_4XX) + ExactOf(s, STATUS_5XX)
  }

  lemma {:induction false} ClassesCountRequests(first: Request, events: seq<Event>)
    ensures ClassesAdded(first, events) == AddedSince(first, events, REQUEST)
    decreases |events|
  {
    if events != [] {
      ClassesCountRequests(first, events[..|events| - 1]);
    }
  }

  /** The five status classes add up to the requests, whatever wrapped on the way. */
  lemma ClassesSumToRequests(first: Request, events: seq<Event>, a: Averaging)
    ensures var s := Run(first, events, a);
            Wrapped(ClassesExact(s)) == ExactOf(s, REQUEST)
    ensures var s := Run(first, events, a);
            AddedSince(first, events, REQUEST) < LIMIT ==> ClassesExact(s) == ExactOf(s, REQUEST)
  {
    hide Run, AddedSince, Wrapped;
    forall i: nat | i <= RESPONSE_TIME
      ensures ExactOf(Run(first, events, a), i) == Wrapped(AddedSince(first, events, i))
    {
      RunExact(first, events, a, i);
    }
    ClassesCountRequests(first, events);
    FiveWrapped(AddedSince(first, events, STATUS_1XX), AddedSince(first, events, STATUS_2XX),
               AddedSince(first, events, STATUS_3XX), AddedSince(first, events, STATUS_4XX),
               AddedSince(first, events, STATUS_5XX));
  }

  lemma FiveWrapped(a: nat, b: nat, c: nat, d: nat, e: nat)
    ensures Wrapped(Wrapped(a) + Wrapped(b) + Wrapped(c) + Wrapped(d) + Wrapped(e)) == Wrapped(a + b + c + d + e)
  {
    hide Wrapped;
    WrappedSum(a, Wrapped(b) + Wrapped(c) + Wrapped(d) + Wrapped(e));
    WrappedSum(b, a + Wrapped(c) + Wrapped(d) + Wrapped(e));
    WrappedSum(c, a + b + Wrapped(d) + Wrapped(e));
    WrappedSum(d, a + b + c + Wrapped(e));
    WrappedSum(e, a + b + c + d);
  }

  /** Resets leave the queue of request times alone: it is the same as if none had happened. */
  lemma {:induction false} ResetKeepsTimes(first: Request, events: seq<Event>, a: Averaging)
    ensures var s := Run(first, events, a);
            s.times == AfterRun(Served(first, events))
    decreases |events|
  {
    if events != [] {
      ResetKeepsTimes(first, events[..|events| - 1], a);
    }
  }

  function Served(first: Request, events: seq<Event>): seq<Sample> {
    if events == [] then [Sample(first.now, first.ms)]
    else
      match events[|events| - 1]
      case Reset => Served(first, events[..|events| - 1])
      case Serve(r) => Served(first, events[..|events| - 1]) + [Sample(r.now, r.ms)]
  }
}
