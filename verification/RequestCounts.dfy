/** What each counter and each average of a node says about the requests it has seen. */
module RequestCounts {
  import opened Bytes
  import opened Samples
  import opened TimeQueues
  import opened QueueProperties
  import opened Averages
  import opened Nodes
  import opened NodeTotals

  /** The requests since the last reset. */
  function Since(first: Request, events: seq<Event>): seq<Request> {
    if events == [] then [first]
    else
      match events[|events| - 1]
      case Reset => []
      case Serve(r) => Since(first, events[..|events| - 1]) + [r]
  }

  /** Requests with a status from `lo` on and below `hi`. */
  function CountStatus(rs: seq<Request>, lo: nat, hi: nat): nat {
    if rs == [] then 0
    else
      CountStatus(rs[..|rs| - 1], lo, hi) +
      (if lo <= rs[|rs| - 1].status && rs[|rs| - 1].status < hi then 1 else 0)
  }

  function CountStatusFrom(rs: seq<Request>, lo: nat): nat {
    if rs == [] then 0
    else CountStatusFrom(rs[..|rs| - 1], lo) + (if lo <= rs[|rs| - 1].status then 1 else 0)
  }

  function CountCache(rs: seq<Request>, cache: CacheStatus): nat {
    if rs == [] then 0
    else CountCache(rs[..|rs| - 1], cache) + (if rs[|rs| - 1].cache == cache then 1 else 0)
  }

  function BytesReceived(rs: seq<Request>): nat {
    if rs == [] then 0 else BytesReceived(rs[..|rs| - 1]) + rs[|rs| - 1].received
  }

  function BytesSent(rs: seq<Request>): nat {
    if rs == [] then 0 else BytesSent(rs[..|rs| - 1]) + rs[|rs| - 1].sent
  }

  function Durations(rs: seq<Request>): nat {
    if rs == [] then 0 else Durations(rs[..|rs| - 1]) + rs[|rs| - 1].ms
  }

  function UpstreamDurations(rs: seq<Request>): nat {
    if rs == [] then 0 else UpstreamDurations(rs[..|rs| - 1]) + rs[|rs| - 1].upstreamMs
  }

  function AddedOver(rs: seq<Request>, i: nat): nat {
    if rs == [] then 0 else AddedOver(rs[..|rs| - 1], i) + Added(rs[|rs| - 1], i)
  }

  lemma {:induction false} TotalsOver(rs: seq<Request>)
    ensures AddedOver(rs, REQUEST) == |rs|
    ensures AddedOver(rs, IN_BYTES) == BytesReceived(rs) && AddedOver(rs, OUT_BYTES) == BytesSent(rs)
    ensures AddedOver(rs, REQUEST_TIME) == Durations(rs)
  {
    if rs != [] {
      TotalsOver(rs[..|rs| - 1]);
    }
  }

  lemma {:induction false} ClassesOver(rs: seq<Request>)
    ensures AddedOver(rs, STATUS_1XX) == CountStatus(rs, 0, 200)
    ensures AddedOver(rs, STATUS_2XX) == CountStatus(rs, 200, 300)
    ensures AddedOver(rs, STATUS_3XX) == CountStatus(rs, 300, 400)
    ensures AddedOver(rs, STATUS_4XX) == CountStatus(rs, 400, 500)
    ensures AddedOver(rs, STATUS_5XX) == CountStatusFrom(rs, 500)
  {
    if rs != [] {
      ClassesOver(rs[..|rs| - 1]);
    }
  }

  lemma {:induction false} CachesOver(rs: seq<Request>)
    ensures AddedOver(rs, CACHE_MISS) == CountCache(rs, Miss)
    ensures AddedOver(rs, CACHE_BYPASS) == CountCache(rs, Bypass)
    ensures AddedOver(rs, CACHE_EXPIRED) == CountCache(rs, Expired)
    ensures AddedOver(rs, CACHE_STALE) == CountCache(rs, Stale)
    ensures AddedOver(rs, CACHE_UPDATING) == CountCache(rs, Updating)
    ensures AddedOver(rs, CACHE_REVALIDATED) == CountCache(rs, Revalidated)
    ensures AddedOver(rs, CACHE_HIT) == CountCache(rs, Hit)
    ensures AddedOver(rs, CACHE_SCARCE) == CountCache(rs, Scarce)
  {
    if rs != [] {
      CachesOver(rs[..|rs| - 1]);
    }
  }

  lemma {:induction false} AddedSinceOver(first: Request, events: seq<Event>, i: nat)
    ensures AddedSince(first, events, i) ==
            if i == RESPONSE_TIME then UpstreamDurations(Since(first, events)) else AddedOver(Since(first, events), i)
    decreases |events|
  {
    if events == [] {
      assert [first][..0] == [];
    } else {
      var before := Since(first, events[..|events| - 1]);
      AddedSinceOver(first, events[..|events| - 1], i);
      match events[|events| - 1]
      case Reset =>
      case Serve(r) => assert (before + [r])[..|before|] == before;
    }
  }

  /** Over any run of requests and resets, what every counter stands for, modulo 2^128. */
  lemma CountersMean(first: Request, events: seq<Event>, a: Averaging)
    ensures var s, rs := Run(first, events, a), Since(first, events);
            ExactOf(s, REQUEST) == Wrapped(|rs|) &&
            ExactOf(s, IN_BYTES) == Wrapped(BytesReceived(rs)) && ExactOf(s, OUT_BYTES) == Wrapped(BytesSent(rs)) &&
            ExactOf(s, REQUEST_TIME) == Wrapped(Durations(rs)) &&
            ExactOf(s, RESPONSE_TIME) == Wrapped(UpstreamDurations(rs))
    ensures var s, rs := Run(first, events, a), Since(first, events);
            ExactOf(s, STATUS_1XX) == Wrapped(CountStatus(rs, 0, 200)) &&
            ExactOf(s, STATUS_2XX) == Wrapped(CountStatus(rs, 200, 300)) &&
            ExactOf(s, STATUS_3XX) == Wrapped(CountStatus(rs, 300, 400)) &&
            ExactOf(s, STATUS_4XX) == Wrapped(CountStatus(rs, 400, 500)) &&
            ExactOf(s, STATUS_5XX) == Wrapped(CountStatusFrom(rs, 500))
    ensures var s, rs := Run(first, events, a), Since(first, events);
            ExactOf(s, CACHE_MISS) == Wrapped(CountCache(rs, Miss)) &&
            ExactOf(s, CACHE_BYPASS) == Wrapped(CountCache(rs, Bypass)) &&
            ExactOf(s, CACHE_EXPIRED) == Wrapped(CountCache(rs, Expired)) &&
            ExactOf(s, CACHE_STALE) == Wrapped(CountCache(rs, Stale)) &&
            ExactOf(s, CACHE_UPDATING) == Wrapped(CountCache(rs, Updating)) &&
            ExactOf(s, CACHE_REVALIDATED) == Wrapped(CountCache(rs, Revalidated)) &&
            ExactOf(s, CACHE_HIT) == Wrapped(CountCache(rs, Hit)) &&
            ExactOf(s, CACHE_SCARCE) == Wrapped(CountCache(rs, Scarce))
  {
    hide Run, ExactOf, AddedSince, AddedOver, Since, Wrapped, CountStatus, CountStatusFrom, CountCache;
    forall i: nat | i <= RESPONSE_TIME
      ensures ExactOf(Run(first, events, a), i) == Wrapped(AddedSince(first, events, i))
    {
      RunExact(first, events, a, i);
    }
    forall i: nat
      ensures AddedSince(first, events, i) ==
              if i == RESPONSE_TIME then UpstreamDurations(Since(first, events)) else AddedOver(Since(first, events), i)
    {
      AddedSinceOver(first, events, i);
    }
    TotalsOver(Since(first, events));
    ClassesOver(Since(first, events));
    CachesOver(Since(first, events));
  }

  // ---- The averages shown ----

  /** Upstream samples of all requests; resets leave them alone. */
  function ServedUpstream(first: Request, events: seq<Event>): seq<Sample> {
    if events == [] then [Sample(first.now, first.upstreamMs)]
    else
      match events[|events| - 1]
      case Reset => ServedUpstream(first, events[..|events| - 1])
      case Serve(r) => ServedUpstream(first, events[..|events| - 1]) + [Sample(r.now, r.upstreamMs)]
  }

  lemma {:induction false} ResetKeepsResponseTimes(first: Request, events: seq<Event>, a: Averaging)
    ensures Run(first, events, a).responseTimes == AfterRun(ServedUpstream(first, events))
    decreases |events|
  {
    if events != [] {
      ResetKeepsResponseTimes(first, events[..|events| - 1], a);
    }
  }

  function Last63(history: seq<Sample>): seq<Sample> {
    if |history| < QUEUE_LEN - 1 then history else history[|history| - (QUEUE_LEN - 1)..]
  }

  /** The average of the young ones among the last 63 samples, by the configured method. */
  function Shown(history: seq<Sample>, now: word, a: Averaging): nat {
    var w := YoungWindow(Last63(history), now, a.period);
    if a.weighted then WeightedMean(w) else Mean(w)
  }

  /**
   * The times a node shows: after its first request those of that request, after a later one the averages with that
   * request's samples included, after a reset zero.
   */
  lemma TimesShown(first: Request, events: seq<Event>, a: Averaging)
    ensures var s := Run(first, events, a);
            if events == [] then s.time == first.ms && s.responseTime == first.upstreamMs
            else
              match events[|events| - 1]
              case Reset => s.time == s.responseTime == 0
              case Serve(r) =>
                s.time == Shown(Served(first, events), r.now, a) &&
                s.responseTime == Shown(ServedUpstream(first, events), r.now, a)
  {
    hide Run, AverageOf, AfterRun, Cutoff, Mean, WeightedMean, YoungWindow, Served, ServedUpstream, Last63;
    RunTimes(first, events, a);
    if events != [] && events[|events| - 1].Serve? {
      var r := events[|events| - 1].r;
      ResetKeepsTimes(first, events, a);
      ResetKeepsResponseTimes(first, events, a);
      ShownAfterRun(Served(first, events), r.now, a);
      ShownAfterRun(ServedUpstream(first, events), r.now, a);
    }
  }

  lemma ShownAfterRun(history: seq<Sample>, now: word, a: Averaging)
    ensures AverageOf(AfterRun(history), a.weighted, Cutoff(now, a.period)) == Shown(history, now, a)
  {
    hide AverageOf, AfterRun, Cutoff, Mean, WeightedMean, YoungWindow;
    YoungAverageAfterRun(history, a.weighted, now, a.period);
  }

  lemma RunTimes(first: Request, events: seq<Event>, a: Averaging)
    ensures var s := Run(first, events, a);
            if events == [] then s.time == first.ms && s.responseTime == first.upstreamMs
            else
              match events[|events| - 1]
              case Reset => s.time == s.responseTime == 0
              case Serve(r) =>
                s.time == AverageOf(s.times, a.weighted, Cutoff(r.now, a.period)) &&
                s.responseTime == AverageOf(s.responseTimes, a.weighted, Cutoff(r.now, a.period))
  {
    hide AverageOf, Inserted, Cutoff, Requested, FirstRequest;
  }
}
