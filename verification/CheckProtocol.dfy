/**
 * The protocol by which worker processes share the checking of one peer, for check types without keep-alive. Reads of
 * owner and access time before the lock, the locked section, the read of the owner behind it, and the writes of access
 * time and owner are steps of their own. Of `status_update`, the writes of both counts are one step (`Count`), and so
 * are the comparison with the threshold and the write of `down` (`Judge`).
 */
module CheckProtocol {
  import opened Bytes
  import opened Hysteresis

  /** Where a worker is in its handlers. */
  datatype Phase =
    | Idle
    | Tested                    // begin_handler, owner read
    | Measured(interval: nat)   // access time read, lock not yet taken
    | Looking                   // lock released, owner not yet read again
    | Connecting
    | Busy                      // connection open, timer set
    | Recording(ok: bool)       // status_update, nothing written yet
    | Judging(ok: bool)         // counts written
    | Stamping                  // down written
    | Cleaning                  // access time written
    | Releasing                 // connection and timer gone
    | Gone

  datatype Worker = Worker(phase: Phase, conn: bool)

  datatype Entry = Took(worker: nat) | Recorded(worker: nat, ok: bool) | Released(worker: nat)

  const NOBODY: int := -1

  /** The shared record of a peer, the workers, and what happened so far. */
  datatype State = State(owner: int, time: nat, health: Health, workers: seq<Worker>, log: seq<Entry>)

  datatype Config = Config(interval: nat, thresholds: Thresholds, start: Health)

  /** How a check that got a connection comes to its end: in which handler, and what it found there. */
  datatype Found = SendFailed | ReceiveFailed | ClosedEarly | Unparsable | Answered | TimedOut

  datatype Step =
    | Begin(worker: nat)
    | Measure(worker: nat, now: nat)
    | Lock(worker: nat, now: nat)
    | Look(worker: nat)
    | Connect(worker: nat, connected: bool)
    | Finish(worker: nat, found: Found)
    | Count(worker: nat)
    | Judge(worker: nat)
    | Stamp(worker: nat, now: nat)
    | Close(worker: nat)
    | Release(worker: nat)
    | Exit(worker: nat)

  function Init(n: nat, c: Config): State {
    State(NOBODY, 0, c.start, seq(n, _ => Worker(Idle, false)), [])
  }

  /** Handlers run to their end; a worker leaves only between them. */
  predicate Enabled(s: State, e: Step) {
    e.worker < |s.workers| &&
    var p := s.workers[e.worker].phase;
    match e
    case Begin(_) => p.Idle?
    case Measure(_, _) => p.Tested?
    case Lock(_, _) => p.Measured?
    case Look(_) => p.Looking?
    case Connect(_, _) => p.Connecting?
    case Finish(_, _) => p.Busy?
    case Count(_) => p.Recording?
    case Judge(_) => p.Judging?
    case Stamp(_, _) => p.Stamping?
    case Close(_) => p.Cleaning?
    case Release(_) => p.Releasing?
    case Exit(_) => p.Idle? || p.Connecting? || p.Busy?
  }

  function At(s: State, w: nat, p: Phase): State
    requires w < |s.workers|
  {
    s.(workers := s.workers[w := s.workers[w].(phase := p)])
  }

  predicate TakesFree(s: State, interval: nat, c: Config) {
    interval >= c.interval && s.owner == NOBODY
  }

  /** The branch for a peer left untouched for sixteen intervals. */
  predicate TakesOver(s: State, interval: nat, c: Config) {
    !TakesFree(s, interval, c) && interval >= (c.interval * 16) % WORD
  }

  function Next(s: State, e: Step, c: Config): State
    requires Enabled(s, e)
  {
    var w := e.worker;
    var p := s.workers[w].phase;
    match e
    case Begin(_) => if s.owner == w || s.workers[w].conn then s else At(s, w, Tested)
    case Measure(_, now) => At(s, w, Measured((now - s.time) % WORD))
    case Lock(_, now) =>
      if TakesFree(s, p.interval, c) then At(s, w, Looking).(owner := w, log := s.log + [Took(w)])
      else if TakesOver(s, p.interval, c) then At(s, w, Looking).(owner := w, time := now, log := s.log + [Took(w)])
      else At(s, w, Looking)
    case Look(_) => At(s, w, if s.owner == w then Connecting else Idle)
    case Connect(_, connected) =>
      if connected then s.(workers := s.workers[w := Worker(Busy, true)]) else At(s, w, Recording(false))
    case Finish(_, found) => At(s, w, Recording(found == Answered))
    case Count(_) => At(s, w, Judging(p.ok)).(health := Counted(s.health, p.ok), log := s.log + [Recorded(w, p.ok)])
    case Judge(_) => At(s, w, Stamping).(health := Judged(s.health, p.ok, c.thresholds))
    case Stamp(_, now) => At(s, w, Cleaning).(time := now)
    case Close(_) => s.(workers := s.workers[w := Worker(Releasing, false)])
    case Release(_) => At(s, w, Idle).(owner := NOBODY, log := s.log + [Released(w)])
    case Exit(_) => s.(workers := s.workers[w := Worker(Gone, false)])
  }

  // ---- The invariant ----

  /** The worker is checking the peer. */
  predicate Active(p: Phase) {
    p.Connecting? || p.Busy? || p.Recording? || p.Judging? || p.Stamping? || p.Cleaning? || p.Releasing?
  }

  /** How far the acquire at the end of a log has come. */
  datatype Bracket = Free | Held(worker: nat) | Done(worker: nat) | Broken

  function BracketOf(log: seq<Entry>): Bracket {
    if log == [] then Free
    else
      var b := BracketOf(log[..|log| - 1]);
      match log[|log| - 1]
      case Took(w) => if b.Free? || b.Held? then Held(w) else Broken
      case Recorded(w, _) => if b == Held(w) then Done(w) else Broken
      case Released(w) => if b == Done(w) then Free else Broken
  }

  function Results(log: seq<Entry>): seq<bool> {
    if log == [] then []
    else
      var before := Results(log[..|log| - 1]);
      if log[|log| - 1].Recorded? then before + [log[|log| - 1].ok] else before
  }

  /** One worker's share of the invariant. */
  ghost predicate InPlace(owner: int, w: int, worker: Worker) {
    (Active(worker.phase) ==> owner == w) &&
    (owner == w ==> Active(worker.phase) || worker.phase.Looking? || worker.phase.Gone?) &&
    (worker.conn ==> Active(worker.phase) && !worker.phase.Releasing?)
  }

  ghost predicate Bracketed(s: State) {
    if 0 <= s.owner < |s.workers| then
      match s.workers[s.owner].phase
      case Judging(_) => BracketOf(s.log) == Done(s.owner)
      case Stamping => BracketOf(s.log) == Done(s.owner)
      case Cleaning => BracketOf(s.log) == Done(s.owner)
      case Releasing => BracketOf(s.log) == Done(s.owner)
      case _ => BracketOf(s.log) == Held(s.owner)
    else s.owner == NOBODY && BracketOf(s.log) == Free
  }

  /** The shared counts are those of the recorded results, but for the judgement still to come. */
  ghost predicate Counting(s: State, c: Config) {
    var h := HistoryFrom(c.start, Results(s.log), c.thresholds);
    if 0 <= s.owner < |s.workers| && s.workers[s.owner].phase.Judging? then
      var ok := s.workers[s.owner].phase.ok;
      h == Judged(s.health, ok, c.thresholds) && Results(s.log) != [] &&
      s.health == Counted(HistoryFrom(c.start, Results(s.log)[..|Results(s.log)| - 1], c.thresholds), ok)
    else h == s.health
  }

  /** Owner and phases agree. */
  ghost predicate Placed(s: State) {
    forall w | 0 <= w < |s.workers| :: InPlace(s.owner, w, s.workers[w])
  }

  ghost predicate Inv(s: State, c: Config) {
    Placed(s) && Bracketed(s) && Counting(s, c)
  }

  /** Not the takeover from a worker that is still checking. */
  ghost predicate Considerate(s: State, e: Step, c: Config)
    requires Enabled(s, e)
  {
    e.Lock? && TakesOver(s, s.workers[e.worker].phase.interval, c) && 0 <= s.owner < |s.workers| ==>
      !Active(s.workers[s.owner].phase)
  }

  /** Whatever went on before: where nobody holds the peer, the log can begin. */
  lemma QuietStart(s: State, c: Config)
    requires Placed(s) && s.owner == NOBODY && s.log == [] && s.health == c.start
    ensures Inv(s, c)
  {
  }

  lemma PlacesKept(s: State, e: Step, c: Config, w: int)
    requires Placed(s) && Enabled(s, e) && Considerate(s, e, c) && 0 <= w < |s.workers|
    ensures var t := Next(s, e, c); |t.workers| == |s.workers| && InPlace(t.owner, w, t.workers[w])
  {
    hide BracketOf, Results, Counting, Judged, Counted;
    assert InPlace(s.owner, w, s.workers[w]) && InPlace(s.owner, e.worker, s.workers[e.worker]);
  }

  lemma LogMore(log: seq<Entry>, e: Entry)
    ensures BracketOf(log + [e]) ==
            match e
            case Took(w) => if BracketOf(log).Free? || BracketOf(log).Held? then Held(w) else Broken
            case Recorded(w, _) => if BracketOf(log) == Held(w) then Done(w) else Broken
            case Released(w) => if BracketOf(log) == Done(w) then Free else Broken
    ensures Results(log + [e]) == if e.Recorded? then Results(log) + [e.ok] else Results(log)
  {
    assert (log + [e])[..|log|] == log;
  }

  lemma BracketKept(s: State, e: Step, c: Config)
    requires Inv(s, c) && Enabled(s, e) && Considerate(s, e, c)
    ensures Bracketed(Next(s, e, c))
  {
    hide BracketOf, Results, Counting, Judged, Counted;
    assert InPlace(s.owner, e.worker, s.workers[e.worker]);
    if 0 <= s.owner < |s.workers| {
      assert InPlace(s.owner, s.owner, s.workers[s.owner]);
    }
    LogMore(s.log, Took(e.worker));
    LogMore(s.log, Released(e.worker));
    if e.Count? {
      LogMore(s.log, Recorded(e.worker, s.workers[e.worker].phase.ok));
    }
  }

  lemma CountingKept(s: State, e: Step, c: Config)
    requires Inv(s, c) && Enabled(s, e) && Considerate(s, e, c)
    ensures Counting(Next(s, e, c), c)
  {
    hide BracketOf, Results, Bracketed, Judged, Counted;
    assert InPlace(s.owner, e.worker, s.workers[e.worker]);
    if 0 <= s.owner < |s.workers| {
      assert InPlace(s.owner, s.owner, s.workers[s.owner]);
    }
    LogMore(s.log, Took(e.worker));
    LogMore(s.log, Released(e.worker));
    if e.Count? {
      var ok := s.workers[e.worker].phase.ok;
      LogMore(s.log, Recorded(e.worker, ok));
      var r := Results(s.log) + [ok];
      assert r[..|r| - 1] == Results(s.log);
    }
  }

  lemma StepKeepsPlaced(s: State, e: Step, c: Config)
    requires Placed(s) && Enabled(s, e) && Considerate(s, e, c)
    ensures Placed(Next(s, e, c))
  {
    hide InPlace, Next;
    forall w | 0 <= w < |Next(s, e, c).workers|
      ensures InPlace(Next(s, e, c).owner, w, Next(s, e, c).workers[w])
    {
      PlacesKept(s, e, c, if w < |s.workers| then w else 0);
    }
  }

  lemma StepKeepsInv(s: State, e: Step, c: Config)
    requires Inv(s, c) && Enabled(s, e) && Considerate(s, e, c)
    ensures Inv(Next(s, e, c), c)
  {
    hide Placed, Bracketed, Counting, Next;
    StepKeepsPlaced(s, e, c);
    BracketKept(s, e, c);
    CountingKept(s, e, c);
  }

  // ---- Whole runs ----

  ghost predicate IsRun(states: seq<State>, steps: seq<Step>, c: Config) {
    |states| == |steps| + 1 && forall i | 0 <= i < |steps| ::
      Enabled(states[i], steps[i]) && states[i + 1] == Next(states[i], steps[i], c)
  }

  ghost predicate AllConsiderate(states: seq<State>, steps: seq<Step>, c: Config)
    requires IsRun(states, steps, c)
  {
    forall i | 0 <= i < |steps| :: Considerate(states[i], steps[i], c)
  }

  lemma {:induction false} RunKeepsPlaced(states: seq<State>, steps: seq<Step>, c: Config, i: nat)
    requires IsRun(states, steps, c) && Placed(states[0]) && AllConsiderate(states, steps, c) && i < |states|
    ensures Placed(states[i])
  {
    hide Placed, Next, Enabled, Considerate;
    if i > 0 {
      RunKeepsPlaced(states, steps, c, i - 1);
      assert Considerate(states[i - 1], steps[i - 1], c);
      StepKeepsPlaced(states[i - 1], steps[i - 1], c);
    }
  }

  lemma {:induction false} RunKeepsInv(states: seq<State>, steps: seq<Step>, c: Config, i: nat)
    requires IsRun(states, steps, c) && Inv(states[0], c) && AllConsiderate(states, steps, c) && i < |states|
    ensures Inv(states[i], c)
  {
    hide Inv, Next, Enabled, Considerate;
    if i > 0 {
      RunKeepsInv(states, steps, c, i - 1);
      assert Considerate(states[i - 1], steps[i - 1], c);
      StepKeepsInv(states[i - 1], steps[i - 1], c);
    }
  }

  // ---- Runs in which nobody takes over ----

  /** No worker that holds the lock meets the guard of the takeover branch. */
  ghost predicate NoTakeover(states: seq<State>, steps: seq<Step>, c: Config)
    requires IsRun(states, steps, c)
  {
    forall i | 0 <= i < |steps| && steps[i].Lock? ::
      Enabled(states[i], steps[i]) && !TakesOver(states[i], states[i].workers[steps[i].worker].phase.interval, c)
  }

  lemma NoTakeoverIsConsiderate(states: seq<State>, steps: seq<Step>, c: Config)
    requires IsRun(states, steps, c) && NoTakeover(states, steps, c)
    ensures AllConsiderate(states, steps, c)
  {
    hide Next, TakesOver;
  }

  /** At most one worker checks the peer, and it is the one named as owner. */
  ghost predicate Exclusive(s: State) {
    forall w | 0 <= w < |s.workers| && Active(s.workers[w].phase) :: s.owner == w
  }

  /**
   * From any state in which owner and phases agree, a start or not: without takeovers at most one worker checks the
   * peer, the owner.
   */
  lemma MutualExclusion(states: seq<State>, steps: seq<Step>, c: Config)
    requires IsRun(states, steps, c) && Placed(states[0]) && NoTakeover(states, steps, c)
    ensures forall i | 0 <= i < |states| :: Placed(states[i]) && Exclusive(states[i])
  {
    hide Next, TakesOver;
    NoTakeoverIsConsiderate(states, steps, c);
    forall i | 0 <= i < |states|
      ensures Placed(states[i]) && Exclusive(states[i])
    {
      RunKeepsPlaced(states, steps, c, i);
      assert forall w | 0 <= w < |states[i].workers| :: InPlace(states[i].owner, w, states[i].workers[w]);
    }
  }

  /** An acquire, its one result, its release: nothing comes between. */
  ghost predicate WellBracketed(log: seq<Entry>) {
    (forall i | 0 <= i < |log| && log[i].Recorded? :: i > 0 && log[i - 1] == Took(log[i].worker)) &&
    (forall i | 0 <= i < |log| && log[i].Released? ::
      i > 0 && log[i - 1].Recorded? && log[i - 1].worker == log[i].worker)
  }

  lemma {:induction false} BracketMeans(log: seq<Entry>)
    requires !BracketOf(log).Broken?
    ensures WellBracketed(log)
    ensures match BracketOf(log)
            case Free => log == [] || log[|log| - 1].Released?
            case Held(w) => log != [] && log[|log| - 1] == Took(w)
            case Done(w) => log != [] && log[|log| - 1].Recorded? && log[|log| - 1].worker == w
            case Broken => false
  {
    if log != [] {
      BracketMeans(log[..|log| - 1]);
    }
  }

  /** Each acquire that is released has exactly one result recorded in between, by the same worker. */
  lemma OneResultPerAcquire(states: seq<State>, steps: seq<Step>, c: Config)
    requires IsRun(states, steps, c) && Inv(states[0], c) && NoTakeover(states, steps, c)
    ensures forall i | 0 <= i < |states| :: WellBracketed(states[i].log)
  {
    hide Next, InPlace, Counting, BracketOf, TakesOver;
    NoTakeoverIsConsiderate(states, steps, c);
    forall i | 0 <= i < |states|
      ensures WellBracketed(states[i].log)
    {
      RunKeepsInv(states, steps, c, i);
      BracketMeans(states[i].log);
    }
  }

  /**
   * Whatever the interleaving, the shared counts are those of one sequence of results, and `down` is what that
   * sequence says, but for the result just counted and not yet judged.
   */
  lemma SharedHealthIsHistory(states: seq<State>, steps: seq<Step>, c: Config, i: nat)
    requires IsRun(states, steps, c) && Inv(states[0], c) && NoTakeover(states, steps, c)
    requires i < |states|
    ensures var s := states[i];
            var r := Results(s.log);
            if exists w :: 0 <= w < |s.workers| && s.workers[w].phase.Judging? then
              r != [] && s.health.down == HistoryFrom(c.start, r[..|r| - 1], c.thresholds).down &&
              s.health.(down := HistoryFrom(c.start, r, c.thresholds).down) == HistoryFrom(c.start, r, c.thresholds)
            else s.health == HistoryFrom(c.start, r, c.thresholds)
  {
    hide Next, Bracketed, HistoryFrom, Results, TakesOver;
    NoTakeoverIsConsiderate(states, steps, c);
    RunKeepsInv(states, steps, c, i);
    var s := states[i];
    forall w | 0 <= w < |s.workers| && s.workers[w].phase.Judging?
      ensures s.owner == w
    {
      assert InPlace(s.owner, w, s.workers[w]);
    }
  }

  // ---- What is recorded is what was found ----

  /** The outcome a step decides on: an answer is a success, a connection refused and every other end a failure. */
  function Outcome(e: Step): seq<bool> {
    match e
    case Connect(_, connected) => if connected then [] else [false]
    case Finish(_, found) =>
      (match found
       case Answered => [true]
       case SendFailed => [false]
       case ReceiveFailed => [false]
       case ClosedEarly => [false]
       case Unparsable => [false]
       case TimedOut => [false])
    case _ => []
  }

  function Outcomes(steps: seq<Step>): seq<bool> {
    if steps == [] then [] else Outcomes(steps[..|steps| - 1]) + Outcome(steps[|steps| - 1])
  }

  /** A result decided on and not yet counted. */
  function Pending(s: State): seq<bool> {
    if 0 <= s.owner < |s.workers| && s.workers[s.owner].phase.Recording? then [s.workers[s.owner].phase.ok] else []
  }

  lemma StepRecords(s: State, e: Step, c: Config)
    requires Placed(s) && Enabled(s, e) && Considerate(s, e, c)
    ensures var t := Next(s, e, c);
            Results(t.log) + Pending(t) == Results(s.log) + Pending(s) + Outcome(e)
  {
    hide Results, BracketOf, Judged, Counted;
    assert InPlace(s.owner, e.worker, s.workers[e.worker]);
    if 0 <= s.owner < |s.workers| {
      assert InPlace(s.owner, s.owner, s.workers[s.owner]);
    }
    LogMore(s.log, Took(e.worker));
    LogMore(s.log, Released(e.worker));
    if e.Count? {
      LogMore(s.log, Recorded(e.worker, s.workers[e.worker].phase.ok));
    }
  }

  /** In every interleaving without takeovers the results recorded, and the one pending, are the outcomes in order. */
  lemma {:induction false} ResultsAreOutcomes(states: seq<State>, steps: seq<Step>, c: Config, i: nat)
    requires IsRun(states, steps, c) && Placed(states[0]) && NoTakeover(states, steps, c) && i < |states|
    ensures Results(states[i].log) + Pending(states[i]) ==
            Results(states[0].log) + Pending(states[0]) + Outcomes(steps[..i])
  {
    hide Next, Placed, Results, Pending, Outcome, Enabled, TakesOver;
    if i > 0 {
      ResultsAreOutcomes(states, steps, c, i - 1);
      NoTakeoverIsConsiderate(states, steps, c);
      RunKeepsPlaced(states, steps, c, i - 1);
      assert Considerate(states[i - 1], steps[i - 1], c);
      StepRecords(states[i - 1], steps[i - 1], c);
      assert steps[..i][..i - 1] == steps[..i - 1];
    }
  }

  /**
   * From a state where nobody holds the peer: whenever no result is under way, counts and `down` are what the outcomes
   * so far make of the counts at the beginning.
   */
  lemma HealthIsOutcomes(states: seq<State>, steps: seq<Step>, c: Config, i: nat)
    requires IsRun(states, steps, c) && Placed(states[0]) && NoTakeover(states, steps, c) && i < |states|
    requires states[0].owner == NOBODY && states[0].log == [] && states[0].health == c.start
    requires forall w | 0 <= w < |states[i].workers| ::
               !states[i].workers[w].phase.Recording? && !states[i].workers[w].phase.Judging?
    ensures states[i].health == HistoryFrom(c.start, Outcomes(steps[..i]), c.thresholds)
  {
    hide Next, HistoryFrom, Placed, TakesOver, Outcomes, Bracketed, Counting;
    QuietStart(states[0], c);
    ResultsAreOutcomes(states, steps, c, i);
    SharedHealthIsHistory(states, steps, c, i);
    assert [] + [] + Outcomes(steps[..i]) == Outcomes(steps[..i]);
    assert Results(states[i].log) + [] == Results(states[i].log);
  }

  // ---- When a free peer is taken ----

  /** The latest time measured by a worker within the first `i` steps: which step it was. */
  function LastMeasure(steps: seq<Step>, w: nat): Option<nat> {
    if steps == [] then None
    else if steps[|steps| - 1].Measure? && steps[|steps| - 1].worker == w then Some(|steps| - 1)
    else LastMeasure(steps[..|steps| - 1], w)
  }

  lemma MeasuredStep(s: State, e: Step, c: Config, w: nat)
    requires Enabled(s, e) && w < |s.workers| && Next(s, e, c).workers[w].phase.Measured?
    ensures var interval := Next(s, e, c).workers[w].phase.interval;
            if e.Measure? && e.worker == w then interval == (e.now - s.time) % WORD
            else s.workers[w].phase.Measured? && s.workers[w].phase.interval == interval
  {
    hide Judged, Counted;
  }

  /** A measurement pending is that of the latest measuring step. */
  lemma {:induction false} MeasuredThen(states: seq<State>, steps: seq<Step>, c: Config, w: nat, i: nat)
    requires IsRun(states, steps, c) && i < |states| && w < |states[i].workers| && states[i].workers[w].phase.Measured?
    requires w < |states[0].workers| && !states[0].workers[w].phase.Measured?
    ensures var j := LastMeasure(steps[..i], w);
            j.Some? && j.value < i && steps[j.value].Measure? && steps[j.value].worker == w &&
            states[i].workers[w].phase.interval == (steps[j.value].now - states[j.value].time) % WORD
  {
    hide Next, Enabled;
    if i > 0 {
      WorkersStay(states, steps, c, i - 1);
      assert Enabled(states[i - 1], steps[i - 1]) && states[i] == Next(states[i - 1], steps[i - 1], c);
      MeasuredStep(states[i - 1], steps[i - 1], c, w);
      assert steps[..i][..i - 1] == steps[..i - 1];
      if !(steps[i - 1].Measure? && steps[i - 1].worker == w) {
        MeasuredThen(states, steps, c, w, i - 1);
      }
    }
  }

  lemma {:induction false} WorkersStay(states: seq<State>, steps: seq<Step>, c: Config, i: nat)
    requires IsRun(states, steps, c) && i < |states|
    ensures |states[i].workers| == |states[0].workers|
  {
    hide Judged, Counted;
    if i > 0 {
      WorkersStay(states, steps, c, i - 1);
      assert Enabled(states[i - 1], steps[i - 1]) && states[i] == Next(states[i - 1], steps[i - 1], c);
    }
  }

  /** The stamp is the clock of the last result or takeover, and nothing else writes it. */
  lemma {:induction false} StampIsLastWritten(states: seq<State>, steps: seq<Step>, c: Config, i: nat)
    requires IsRun(states, steps, c) && i < |states|
    ensures states[i].time == LastWritten(states, steps, c, i)
  {
    hide Judged, Counted;
    if i > 0 {
      StampIsLastWritten(states, steps, c, i - 1);
      assert Enabled(states[i - 1], steps[i - 1]) && states[i] == Next(states[i - 1], steps[i - 1], c);
    }
  }

  ghost function LastWritten(states: seq<State>, steps: seq<Step>, c: Config, i: nat): nat
    requires IsRun(states, steps, c) && i < |states|
  {
    if i == 0 then states[0].time
    else if steps[i - 1].Stamp? then steps[i - 1].now
    else if steps[i - 1].Lock? && Enabled(states[i - 1], steps[i - 1]) &&
            TakesOver(states[i - 1], states[i - 1].workers[steps[i - 1].worker].phase.interval, c) then steps[i - 1].now
    else LastWritten(states, steps, c, i - 1)
  }

  /**
   * A peer taken while nobody holds it, and without a takeover, was measured at least one interval after the stamp it
   * then had.
   */
  lemma TakenAfterInterval(states: seq<State>, steps: seq<Step>, c: Config, i: nat)
    requires IsRun(states, steps, c) && i < |steps| && steps[i].Lock? && states[i].owner == NOBODY
    requires states[i + 1].owner == steps[i].worker && NoTakeover(states, steps, c)
    requires forall w | 0 <= w < |states[0].workers| :: !states[0].workers[w].phase.Measured?
    ensures var j := LastMeasure(steps[..i], steps[i].worker);
            j.Some? && j.value < i && steps[j.value].Measure? && steps[j.value].worker == steps[i].worker &&
            (steps[j.value].now - states[j.value].time) % WORD >= c.interval
  {
    assert Enabled(states[i], steps[i]);
    WorkersStay(states, steps, c, i);
    MeasuredThen(states, steps, c, steps[i].worker, i);
  }

  // ---- Clocks ----

  /** The clock a worker measures the elapsed time with: at most `late` behind the stamp, and within a window of it. */
  ghost predicate OnTime(s: State, e: Step, late: nat, window: nat) {
    e.Measure? ==> s.time - late <= e.now < s.time + window
  }

  ghost predicate Punctual(states: seq<State>, steps: seq<Step>, c: Config, late: nat, window: nat)
    ensures Punctual(states, steps, c, late, window) ==> |states| == |steps| + 1 && IsRun(states, steps, c)
  {
    IsRun(states, steps, c) && forall i | 0 <= i < |steps| :: OnTime(states[i], steps[i], late, window)
  }

  ghost predicate Measuring(s: State, bound: nat) {
    forall w | 0 <= w < |s.workers| && s.workers[w].phase.Measured? :: s.workers[w].phase.interval < bound
  }

  lemma MeasuringKept(s: State, e: Step, c: Config, bound: nat)
    requires Enabled(s, e) && Measuring(s, bound) && OnTime(s, e, 0, bound) && bound < WORD
    ensures Measuring(Next(s, e, c), bound)
  {
    hide Judged, Counted;
    if e.Measure? {
      assert (e.now - s.time) % WORD == e.now - s.time;
    }
  }

  lemma {:induction false} MeasuredInWindow(states: seq<State>, steps: seq<Step>, c: Config, bound: nat, i: nat)
    requires Punctual(states, steps, c, 0, bound) && bound < WORD && Measuring(states[0], bound) && i < |states|
    ensures Measuring(states[i], bound)
  {
    hide Next, Enabled;
    if i > 0 {
      MeasuredInWindow(states, steps, c, bound, i - 1);
      assert OnTime(states[i - 1], steps[i - 1], 0, bound);
      MeasuringKept(states[i - 1], steps[i - 1], c, bound);
    }
  }

  /**
   * Clocks that are never late, and never sixteen intervals ahead of the stamp, never lead to a takeover, though the
   * elapsed time is measured before the lock; measurements already made when the run begins must be as short.
   */
  lemma PunctualNeverTakesOver(states: seq<State>, steps: seq<Step>, c: Config)
    requires Punctual(states, steps, c, 0, 16 * c.interval) && 16 * c.interval < WORD
    requires Measuring(states[0], 16 * c.interval)
    ensures NoTakeover(states, steps, c)
  {
    hide Next;
    forall i | 0 <= i < |steps| && steps[i].Lock?
      ensures Enabled(states[i], steps[i])
      ensures !TakesOver(states[i], states[i].workers[steps[i].worker].phase.interval, c)
    {
      assert Enabled(states[i], steps[i]);
      MeasuredInWindow(states, steps, c, 16 * c.interval, i);
    }
  }

  /** With such clocks, from any sound state on: one owner at most, one result for each acquire. */
  lemma PunctualRuns(states: seq<State>, steps: seq<Step>, c: Config)
    requires Punctual(states, steps, c, 0, 16 * c.interval) && 16 * c.interval < WORD
    requires Inv(states[0], c) && Measuring(states[0], 16 * c.interval)
    ensures NoTakeover(states, steps, c)
    ensures forall i | 0 <= i < |states| :: Inv(states[i], c) && Exclusive(states[i]) && WellBracketed(states[i].log)
  {
    hide Next, TakesOver, Bracketed, Counting, WellBracketed, Placed;
    PunctualNeverTakesOver(states, steps, c);
    NoTakeoverIsConsiderate(states, steps, c);
    MutualExclusion(states, steps, c);
    OneResultPerAcquire(states, steps, c);
    forall i | 0 <= i < |states|
      ensures Inv(states[i], c)
    {
      RunKeepsInv(states, steps, c, i);
    }
  }

  // ---- Exactly which clocks are good enough ----

  ghost predicate TwoActive(s: State) {
    exists v, w :: 0 <= v < w < |s.workers| && Active(s.workers[v].phase) && Active(s.workers[w].phase)
  }

  lemma TwoAre(s: State, v: nat, w: nat)
    requires v < w < |s.workers| && Active(s.workers[v].phase) && Active(s.workers[w].phase)
    ensures TwoActive(s) && !Exclusive(s)
  {
  }

  /** A run that goes on. */
  lemma Extend(states: seq<State>, steps: seq<Step>, c: Config, late: nat, window: nat, e: Step)
    returns (more: seq<State>, all: seq<Step>)
    requires Punctual(states, steps, c, late, window)
    requires Enabled(Last(states), e) && OnTime(Last(states), e, late, window)
    ensures all == steps + [e] && Punctual(more, all, c, late, window) && more[0] == states[0]
    ensures Last(more) == Next(Last(states), e, c)
  {
    more, all := states + [Next(Last(states), e, c)], steps + [e];
  }

  ghost function Last(states: seq<State>): State
    requires states != []
  {
    states[|states| - 1]
  }

  ghost predicate Goes(states: seq<State>, steps: seq<Step>, more: seq<State>, all: seq<Step>, now: nat) {
    |states| > 0 && |more| > 0 && more[0] == states[0] && (OneClock(steps, now) ==> OneClock(all, now))
  }

  /** A worker finds the peer not its own and measures the elapsed time. */
  lemma Prepares(states: seq<State>, steps: seq<Step>, c: Config, late: nat, window: nat, w: nat, now: nat)
    returns (more: seq<State>, all: seq<Step>)
    requires Punctual(states, steps, c, late, window) && w < |Last(states).workers|
    requires Last(states).workers[w] == Worker(Idle, false) && Last(states).owner != w
    requires OnTime(Last(states), Measure(w, now), late, window)
    ensures Punctual(more, all, c, late, window) && Goes(states, steps, more, all, now)
    ensures var s := Last(states);
            Last(more) == s.(workers := s.workers[w := Worker(Measured((now - s.time) % WORD), false)])
  {
    hide Punctual;
    more, all := Extend(states, steps, c, late, window, Begin(w));
    more, all := Extend(more, all, c, late, window, Measure(w, now));
  }

  /** It takes the peer and finds itself the owner. */
  lemma Takes(states: seq<State>, steps: seq<Step>, c: Config, late: nat, window: nat, w: nat, now: nat)
    returns (more: seq<State>, all: seq<Step>)
    requires Punctual(states, steps, c, late, window) && w < |Last(states).workers|
    requires Last(states).workers[w].phase.Measured? && !Last(states).workers[w].conn
    requires var s := Last(states);
             var interval := s.workers[w].phase.interval;
             TakesFree(s, interval, c) || TakesOver(s, interval, c)
    ensures Punctual(more, all, c, late, window) && Goes(states, steps, more, all, now)
    ensures var s := Last(states);
            Last(more) == s.(owner := w, workers := s.workers[w := Worker(Connecting, false)], log := s.log + [Took(w)],
                             time := if TakesFree(s, s.workers[w].phase.interval, c) then s.time else now)
  {
    hide Punctual;
    more, all := Extend(states, steps, c, late, window, Lock(w, now));
    more, all := Extend(more, all, c, late, window, Look(w));
  }

  /** It checks the peer and stamps it, but still holds it. */
  lemma Checks(states: seq<State>, steps: seq<Step>, c: Config, late: nat, window: nat, w: nat, now: nat)
    returns (more: seq<State>, all: seq<Step>)
    requires Punctual(states, steps, c, late, window) && w < |Last(states).workers|
    requires Last(states).workers[w].phase.Connecting?
    ensures Punctual(more, all, c, late, window) && Goes(states, steps, more, all, now)
    ensures var s := Last(states);
            Last(more).owner == s.owner && Last(more).time == now &&
            Last(more).workers == s.workers[w := Worker(Cleaning, true)] &&
            Last(more).log == s.log + [Recorded(w, true)]
  {
    hide Punctual, Judged, Counted;
    more, all := Extend(states, steps, c, late, window, Connect(w, true));
    more, all := Extend(more, all, c, late, window, Finish(w, Answered));
    more, all := Extend(more, all, c, late, window, Count(w));
    more, all := Extend(more, all, c, late, window, Judge(w));
    more, all := Extend(more, all, c, late, window, Stamp(w, now));
  }

  lemma NoSteps(states: seq<State>, c: Config, late: nat, window: nat, now: nat)
    requires |states| == 1
    ensures Punctual(states, [], c, late, window) && OneClock([], now)
  {
  }

  /** All clock readings of a run are the same. */
  predicate OneClock(steps: seq<Step>, now: nat) {
    forall i | 0 <= i < |steps| ::
      (steps[i].Measure? ==> steps[i].now == now) && (steps[i].Lock? ==> steps[i].now == now) &&
      (steps[i].Stamp? ==> steps[i].now == now)
  }

  /**
   * A cold start: nobody has stamped the peer yet, and taking it when it is free does not. With one clock for all, a
   * second worker takes over from the first check still going on.
   */
  lemma ColdStart(c: Config, n: nat, late: nat, window: nat) returns (states: seq<State>, steps: seq<Step>)
    requires n >= 2 && 16 * c.interval < window && 16 * c.interval < WORD
    ensures Punctual(states, steps, c, late, window) && states[0] == Init(n, c)
    ensures TwoActive(Last(states)) && !Exclusive(Last(states))
    ensures OneClock(steps, 16 * c.interval) && Results(Last(states).log) == []
  {
    hide Punctual, TwoActive, Exclusive, Results, OneClock;
    var t := 16 * c.interval;
    states, steps := [Init(n, c)], [];
    NoSteps(states, c, late, window, t);
    states, steps := Prepares(states, steps, c, late, window, 0, t);
    states, steps := Takes(states, steps, c, late, window, 0, t);
    states, steps := Prepares(states, steps, c, late, window, 1, t);
    states, steps := Takes(states, steps, c, late, window, 1, t);
    TwoAre(Last(states), 0, 1);
    NoResults(0, 1);
  }

  lemma NoResults(v: nat, w: nat)
    ensures Results([] + [Took(v)] + [Took(w)]) == []
  {
    LogMore([], Took(v));
    LogMore([] + [Took(v)], Took(w));
  }

  /** A late clock: one tick behind the stamp, the elapsed time is a huge number. */
  lemma LateClock(c: Config, n: nat, late: nat, window: nat) returns (states: seq<State>, steps: seq<Step>)
    requires n >= 2 && late >= 1 && c.interval < window && 16 * c.interval < WORD
    ensures Punctual(states, steps, c, late, window) && states[0] == Init(n, c)
    ensures TwoActive(Last(states)) && !Exclusive(Last(states))
  {
    hide Punctual, TwoActive, Exclusive, OneClock;
    var d := c.interval;
    states, steps := [Init(n, c)], [];
    NoSteps(states, c, late, window, d);
    states, steps := Prepares(states, steps, c, late, window, 0, d);
    states, steps := Takes(states, steps, c, late, window, 0, d);
    states, steps := Checks(states, steps, c, late, window, 0, d + 1);
    assert (d - (d + 1)) % WORD == WORD - 1;
    states, steps := Prepares(states, steps, c, late, window, 1, d);
    states, steps := Takes(states, steps, c, late, window, 1, d);
    TwoAre(Last(states), 0, 1);
  }

  /**
   * A dead owner: one worker is gone in the middle of its check, and two others take over from it one after the other,
   * because both measured before either held the lock.
   */
  lemma DeadOwner(c: Config) returns (states: seq<State>, steps: seq<Step>)
    requires 1 <= c.interval && 16 * c.interval < WORD
    ensures Punctual(states, steps, c, 0, 16 * c.interval + 1) && states[0] == Init(3, c)
    ensures TwoActive(Last(states)) && !Exclusive(Last(states)) && Last(states).workers[0].phase.Gone?
  {
    hide Punctual, TwoActive, Exclusive, OneClock;
    var d, t := c.interval, 16 * c.interval;
    states, steps := [Init(3, c)], [];
    NoSteps(states, c, 0, t + 1, d);
    states, steps := Prepares(states, steps, c, 0, t + 1, 0, d);
    states, steps := Takes(states, steps, c, 0, t + 1, 0, d);
    states, steps := Extend(states, steps, c, 0, t + 1, Exit(0));
    states, steps := Prepares(states, steps, c, 0, t + 1, 1, t);
    states, steps := Prepares(states, steps, c, 0, t + 1, 2, t);
    states, steps := Takes(states, steps, c, 0, t + 1, 1, t);
    states, steps := Takes(states, steps, c, 0, t + 1, 2, t);
    TwoAre(Last(states), 1, 2);
  }

  /**
   * Checks do happen on time: from any state where nobody holds the peer, a worker between one and sixteen intervals
   * after the stamp takes it, records a result and gives it back.
   */
  lemma CheckOnTime(s: State, c: Config, w: nat, now: nat) returns (states: seq<State>, steps: seq<Step>)
    requires s.owner == NOBODY && w < |s.workers| && s.workers[w] == Worker(Idle, false)
    requires s.time + c.interval <= now < s.time + 16 * c.interval && 16 * c.interval < WORD
    ensures Punctual(states, steps, c, 0, 16 * c.interval) && states[0] == s
    ensures Last(states).log == s.log + [Took(w)] + [Recorded(w, true)] + [Released(w)]
    ensures Last(states).owner == NOBODY && Last(states).time == now
  {
    hide Punctual, OneClock;
    var window := 16 * c.interval;
    states, steps := [s], [];
    NoSteps(states, c, 0, window, now);
    assert (now - s.time) % WORD == now - s.time;
    states, steps := Prepares(states, steps, c, 0, window, w, now);
    states, steps := Takes(states, steps, c, 0, window, w, now);
    states, steps := Checks(states, steps, c, 0, window, w, now);
    states, steps := Extend(states, steps, c, 0, window, Close(w));
    states, steps := Extend(states, steps, c, 0, window, Release(w));
  }

  /** A late clock, and a first worker found in its check: no stamp need be written for a second one to take over. */
  lemma LateClockBeside(c: Config, n: nat, late: nat, window: nat) returns (states: seq<State>, steps: seq<Step>)
    requires n >= 2 && late >= 1 && 16 * c.interval < WORD
    ensures Punctual(states, steps, c, late, window) && Orderly(states[0], c) && Inv(states[0], c)
    ensures |states[0].workers| == n && TwoActive(Last(states)) && !Exclusive(Last(states))
  {
    hide Punctual, TwoActive, Exclusive, OneClock, Placed;
    var workers := seq(n, w => if w == 0 then Worker(Connecting, false) else Worker(Idle, false));
    var s := State(0, 1, c.start, workers, [Took(0)]);
    OneChecking(s, c);
    states, steps := [s], [];
    NoSteps(states, c, late, window, 0);
    assert (0 - 1) % WORD == WORD - 1;
    states, steps := Prepares(states, steps, c, late, window, 1, 0);
    states, steps := Takes(states, steps, c, late, window, 1, 0);
    TwoAre(Last(states), 0, 1);
  }

  lemma OneChecking(s: State, c: Config)
    requires |s.workers| >= 2 && s.owner == 0 && s.health == c.start && s.log == [Took(0)]
    requires forall w | 0 <= w < |s.workers| ::
               s.workers[w] == if w == 0 then Worker(Connecting, false) else Worker(Idle, false)
    ensures Inv(s, c) && Orderly(s, c)
  {
    LogMore([], Took(0));
    assert s.log == [] + [Took(0)];
  }

  /** A start is such a state, and the invariant holds there. */
  lemma InitOrderly(n: nat, c: Config)
    ensures Orderly(Init(n, c), c) && Inv(Init(n, c), c)
  {
    QuietStart(Init(n, c), c);
  }

  /** Owner and phases agree, and what has been measured is not long ago: not only a start is such a state. */
  ghost predicate Orderly(s: State, c: Config) {
    Placed(s) && (s.owner == NOBODY || 0 <= s.owner < |s.workers|) && Measuring(s, 16 * c.interval)
  }

  ghost predicate AlwaysExclusive(c: Config, n: nat, late: nat, window: nat) {
    forall states: seq<State>, steps: seq<Step> |
      Punctual(states, steps, c, late, window) && Orderly(states[0], c) && |states[0].workers| == n ::
      forall i | 0 <= i < |states| :: Exclusive(states[i])
  }

  /**
   * Exactly which clocks keep two or more workers apart, in every interleaving from every orderly state on: those that
   * are never behind the stamp and always less than sixteen intervals ahead of it.
   */
  lemma ExclusionIff(c: Config, n: nat, late: nat, window: nat)
    requires n >= 2 && 16 * c.interval < WORD
    ensures AlwaysExclusive(c, n, late, window) <==> late == 0 && window <= 16 * c.interval
  {
    hide Punctual, Exclusive, Placed, Measuring, TwoActive, OneClock;
    if late == 0 && window <= 16 * c.interval {
      forall states: seq<State>, steps: seq<Step> |
        Punctual(states, steps, c, late, window) && Orderly(states[0], c) && |states[0].workers| == n
        ensures forall i | 0 <= i < |states| :: Exclusive(states[i])
      {
        NarrowerWindow(states, steps, c, window, 16 * c.interval);
        PunctualNeverTakesOver(states, steps, c);
        MutualExclusion(states, steps, c);
      }
    } else if late >= 1 {
      var states, steps := LateClockBeside(c, n, late, window);
    } else {
      var states, steps := ColdStart(c, n, late, window);
      InitOrderly(n, c);
      assert |states[0].workers| == n;
    }
  }

  lemma NarrowerWindow(states: seq<State>, steps: seq<Step>, c: Config, window: nat, wider: nat)
    requires Punctual(states, steps, c, 0, window) && window <= wider
    ensures Punctual(states, steps, c, 0, wider)
  {
    forall i | 0 <= i < |steps|
      ensures OnTime(states[i], steps[i], 0, wider)
    {
      assert OnTime(states[i], steps[i], 0, window);
    }
  }
}
