/** A node of the statistics store: wrapping counters with overflow counts, and the time queues. */
module Nodes {
  import opened Bytes
  import opened Samples
  import opened TimeQueues
  import opened Keys

  const REQUEST: nat := 0
  const IN_BYTES: nat := 1
  const OUT_BYTES: nat := 2
  const STATUS_1XX: nat := 3
  const STATUS_2XX: nat := 4
  const STATUS_3XX: nat := 5
  const STATUS_4XX: nat := 6
  const STATUS_5XX: nat := 7
  const REQUEST_TIME: nat := 8
  const CACHE_MISS: nat := 9
  const CACHE_BYPASS: nat := 10
  const CACHE_EXPIRED: nat := 11
  const CACHE_STALE: nat := 12
  const CACHE_UPDATING: nat := 13
  const CACHE_REVALIDATED: nat := 14
  const CACHE_HIT: nat := 15
  const CACHE_SCARCE: nat := 16
  const COUNTERS: nat := 17

  datatype CacheStatus = NoCache | Miss | Bypass | Expired | Stale | Updating | Revalidated | Hit | Scarce

  /** What a finished request contributes; durations come clamped at zero. */
  datatype Request = Request(status: nat, received: word, sent: word, ms: word, upstreamMs: word,
                             cache: CacheStatus, now: word)

  datatype Averaging = Averaging(weighted: bool, period: word)

  function StatusClass(status: nat): (c: nat)
    ensures STATUS_1XX <= c <= STATUS_5XX
  {
    if status < 200 then STATUS_1XX
    else if status < 300 then STATUS_2XX
    else if status < 400 then STATUS_3XX
    else if status < 500 then STATUS_4XX
    else STATUS_5XX
  }

  function CacheCounter(cache: CacheStatus): (c: nat)
    requires cache != NoCache
    ensures CACHE_MISS <= c <= CACHE_SCARCE
  {
    match cache
    case Miss => CACHE_MISS
    case Bypass => CACHE_BYPASS
    case Expired => CACHE_EXPIRED
    case Stale => CACHE_STALE
    case Updating => CACHE_UPDATING
    case Revalidated => CACHE_REVALIDATED
    case Hit => CACHE_HIT
    case Scarce => CACHE_SCARCE
  }

  /** How much a request adds to each counter. */
  function Added(r: Request, counter: nat): word {
    if counter == REQUEST then 1
    else if counter == IN_BYTES then r.received
    else if counter == OUT_BYTES then r.sent
    else if counter == REQUEST_TIME then r.ms
    else if STATUS_1XX <= counter <= STATUS_5XX then (if counter == StatusClass(r.status) then 1 else 0)
    else if r.cache != NoCache && counter == CacheCounter(r.cache) then 1
    else 0
  }

  /** Counters modulo 2^64, each with the number of times it went over. */
  datatype Counts = Counts(value: seq<word>, oc: seq<word>)

  ghost predicate WellFormed(c: Counts) {
    |c.value| == |c.oc| == COUNTERS
  }

  function Zeroes(): (s: seq<word>)
    ensures |s| == COUNTERS && forall i | 0 <= i < COUNTERS :: s[i] == 0
  {
    seq(COUNTERS, _ => 0)
  }

  function ZeroCounts(): (c: Counts)
    ensures WellFormed(c)
  {
    Counts(Zeroes(), Zeroes())
  }

  function Sum(a: word, b: word): word {
    (a + b) % WORD
  }

  /** The overflow counts after the counters went from `before` to `after`. */
  function Overflowed(before: seq<word>, after: seq<word>, oc: seq<word>): (r: seq<word>)
    requires |before| == |after| == |oc| == COUNTERS
    ensures |r| == COUNTERS
  {
    seq(|oc|, i requires 0 <= i < |oc| => if before[i] > after[i] then Sum(oc[i], 1) else oc[i])
  }

  function Counted(value: seq<word>, r: Request): (v: seq<word>)
    requires |value| == COUNTERS
    ensures |v| == COUNTERS
  {
    seq(|value|, i requires 0 <= i < |value| => Sum(value[i], Added(r, i)))
  }

  /** The number a counter and its overflow count stand for. */
  function Exact(c: Counts, i: nat): nat
    requires WellFormed(c) && i < COUNTERS
  {
    c.oc[i] * WORD + c.value[i]
  }

  /** A request on an existing node. */
  function Requested(c: Counts, r: Request): (d: Counts)
    requires WellFormed(c)
    ensures WellFormed(d)
  {
    var v := Counted(c.value, r);
    Counts(v, Overflowed(c.value, v, c.oc))
  }

  /** A node's first request: the counters start from zero and no overflow is looked for. */
  function FirstRequest(r: Request): (d: Counts)
    ensures WellFormed(d)
  {
    Counts(Counted(ZeroCounts().value, r), ZeroCounts().oc)
  }

  datatype Stats = Stats(kind: nat, counts: Counts, time: nat, times: seq<Sample>,
                         response: word, responseOc: word, responseTime: nat, responseTimes: seq<Sample>)

  const KindOf: Stats -> nat := (s: Stats) => s.kind

  ghost predicate ValidStats(s: Stats) {
    WellFormed(s.counts) && |s.times| == |s.responseTimes| == QUEUE_LEN - 1
  }

  /** The node after its first request, before its kind and upstream part are set. */
  function Initialised(r: Request): (s: Stats)
    ensures ValidStats(s)
  {
    Stats(UPSTREAM_NO, FirstRequest(r), r.ms, Inserted(Padding(QUEUE_LEN - 1), Sample(r.now, r.ms)),
          0, 0, 0, Padding(QUEUE_LEN - 1))
  }

  function Updated(s: Stats, r: Request, a: Averaging): (t: Stats)
    requires ValidStats(s)
    ensures ValidStats(t)
  {
    var times := Inserted(s.times, Sample(r.now, r.ms));
    s.(counts := Requested(s.counts, r), times := times,
       time := AverageOf(times, a.weighted, Cutoff(r.now, a.period)))
  }

  function WithUpstream(s: Stats, r: Request, a: Averaging, first: bool): (t: Stats)
    requires ValidStats(s)
    ensures ValidStats(t)
  {
    var times := Inserted(s.responseTimes, Sample(r.now, r.upstreamMs));
    if first then
      s.(responseTimes := times, response := r.upstreamMs, responseTime := r.upstreamMs)
    else
      var total := Sum(s.response, r.upstreamMs);
      s.(responseTimes := times, response := total,
         responseTime := AverageOf(times, a.weighted, Cutoff(r.now, a.period)),
         responseOc := if s.response > total then Sum(s.responseOc, 1) else s.responseOc)
  }

  /** A reset: the counters go, kind and queues stay. */
  function Cleared(s: Stats): (t: Stats)
    requires ValidStats(s)
    ensures ValidStats(t)
  {
    Stats(s.kind, ZeroCounts(), 0, s.times, 0, 0, 0, s.responseTimes)
  }

  class StatNode {
    var kind: nat
    var value: seq<word>
    var oc: seq<word>
    var time: nat
    const times: TimeQueue
    var response: word
    var responseOc: word
    var responseTime: nat
    const responseTimes: TimeQueue

    ghost function Repr(): set<object> {
      {this, times, times.times, responseTimes, responseTimes.times}
    }

    ghost predicate Allocated() {
      times.times.Length == responseTimes.times.Length == QUEUE_LEN &&
      times != responseTimes && times.times != responseTimes.times
    }

    ghost predicate Valid()
      reads Repr()
    {
      Allocated() && |value| == |oc| == COUNTERS && times.Full() && responseTimes.Full()
    }

    ghost function Value(): (s: Stats)
      reads Repr()
      requires Valid()
      ensures ValidStats(s)
    {
      Stats(kind, Counts(value, oc), time, times.held, response, responseOc, responseTime, responseTimes.held)
    }

    constructor ()
      ensures Allocated() && fresh(Repr())
    {
      times := new TimeQueue();
      responseTimes := new TimeQueue();
      value, oc := [], [];
    }

    /** `node_zero`: every counter and overflow count, but neither queue. */
    method Zero()
      modifies this
      ensures Counts(value, oc) == ZeroCounts() && response == responseOc == responseTime == time == 0
      ensures kind == old(kind)
      ensures old(Valid()) ==> Valid() && Value() == Cleared(old(Value()))
    {
      value := Zeroes();
      time := 0;
      response := 0;
      responseTime := 0;
      oc := Zeroes();
      responseOc := 0;
    }

    method Init(r: Request)
      requires Allocated()
      modifies Repr()
      ensures Valid() && Value() == Initialised(r)
    {
      Zero();
      times.Init();
      kind := UPSTREAM_NO;
      response := 0;
      responseTime := 0;
      responseTimes.Init();
      time := r.ms;
      Update(r);
    }

    method Set(r: Request, a: Averaging)
      requires Valid()
      modifies this, times, times.times
      ensures Valid() && Value() == Updated(old(Value()), r, a)
    {
      var before := value;
      Update(r);
      time := times.Average(a.weighted, a.period, r.now);
      oc := Overflowed(before, value, oc);
    }

    method Update(r: Request)
      requires Allocated() && |value| == COUNTERS && times.Full()
      modifies this`value, times, times.times
      ensures value == Counted(old(value), r)
      ensures times.Full() && times.held == Inserted(old(times.held), Sample(r.now, r.ms))
    {
      value := value[REQUEST := Sum(value[REQUEST], 1)];
      value := value[IN_BYTES := Sum(value[IN_BYTES], r.received)];
      value := value[OUT_BYTES := Sum(value[OUT_BYTES], r.sent)];
      var status := StatusClass(r.status);
      value := value[status := Sum(value[status], 1)];
      value := value[REQUEST_TIME := Sum(value[REQUEST_TIME], r.ms)];
      times.Insert(r.ms, r.now);
      if r.cache != NoCache {
        var cache := CacheCounter(r.cache);
        value := value[cache := Sum(value[cache], 1)];
      }
    }

    /** `shm_add_node_upstream`. */
    method AddUpstream(r: Request, a: Averaging, first: bool)
      requires Valid()
      modifies this, responseTimes, responseTimes.times
      ensures Valid() && Value() == WithUpstream(old(Value()), r, a, first)
    {
      responseTimes.Insert(r.upstreamMs, r.now);
      if first {
        response := r.upstreamMs;
        responseTime := r.upstreamMs;
      } else {
        var before := response;
        response := Sum(response, r.upstreamMs);
        responseTime := responseTimes.Average(a.weighted, a.period, r.now);
        if before > response {
          responseOc := Sum(responseOc, 1);
        }
      }
    }
  }
}
