/** Runs of the store: any sequence of additions, restored nodes and deletions. */
module NodeRuns {
  import opened Bytes
  import opened Collections
  import opened Nodes
  import opened Keys
  import opened NodeTotals
  import opened RequestCounts
  import opened Samples
  import opened TimeQueues
  import opened Trees
  import opened Stores
  import opened NodeStore

  type Entries = map<Text, Stats>

  datatype Change =
    | Add(key: Text, kind: nat, r: Request, a: Averaging, memory: Memory)
    | Restore(key: Text, stats: Stats, room: bool)
    | DropZone(key: Text)
    | DropGroup(group: nat, slots: nat)
    | DropAll

  ghost predicate Acceptable(e: Change) {
    e.Restore? ==> ValidStats(e.stats)
  }

  /** What one change does to the entries, whatever shape the tree has. */
  ghost predicate Changes(m: Entries, e: Change, limit: Limit, m': Entries)
    requires AllValid(m)
  {
    match e
    case Add(key, kind, r, a, memory) =>
      exists victim, ok :: Adds(m, limit, memory, key, kind, r, a, victim, ok, m')
    case Restore(key, stats, room) =>
      m' == if key == [] || key in m || !room then m else m[key := stats]
    case DropZone(key) => m' == m - {key}
    case DropGroup(group, slots) =>
      m' == if |m| - |WithoutGroup(m, KindOf, group)| <= slots then WithoutGroup(m, KindOf, group) else m
    case DropAll => m' == map[]
  }

  lemma OthersKeepValid(m: Entries, e: Change, limit: Limit, m': Entries)
    requires AllValid(m) && !e.Add? && Acceptable(e) && Changes(m, e, limit, m')
    ensures AllValid(m')
  {
    hide ValidStats;
  }

  /** Carry out one change; deletions report how many entries they removed. */
  method Apply(store: Store<Stats>, e: Change, limit: Limit) returns (count: nat)
    requires store.Valid() && AllValid(store.Entries()) && Acceptable(e)
    modifies store
    ensures store.Valid() && AllValid(store.Entries())
    ensures Changes(old(store.Entries()), e, limit, store.Entries())
    ensures !e.Add? && !e.Restore? ==> count == |old(store.Entries())| - |store.Entries()|
  {
    hide ValidStats, ToMap, AllValid, Adds;
    ghost var before := store.Entries();
    count := 0;
    match e {
      case Add(key, kind, r, a, memory) =>
        var ok, victim := AddNode(store, limit, memory, key, kind, r, a);
      case Restore(key, stats, room) =>
        var ok := store.RestoreAdd(key, stats, room);
      case DropZone(key) =>
        count := store.DeleteZone(key);
      case DropGroup(group, slots) =>
        count := store.DeleteGroup(KindOf, group, slots);
      case DropAll =>
        count := store.DeleteAll();
    }
    if !e.Add? {
      OthersKeepValid(before, e, limit, store.Entries());
    }
  }

  /** The entries before and after each change of a run. */
  ghost predicate IsRun(states: seq<Entries>, changes: seq<Change>, limit: Limit) {
    |states| == |changes| + 1 &&
    (forall i | 0 <= i < |states| :: AllValid(states[i])) &&
    forall i | 0 <= i < |changes| :: Changes(states[i], changes[i], limit, states[i + 1])
  }

  // ---- The number of filter nodes ----

  lemma FiltersWithout(m: Entries, key: Text, limit: Limit)
    ensures Filters(m - {key}, limit) == Filters(m, limit) - {key}
  {
  }

  lemma FiltersWith(m: Entries, key: Text, s: Stats, limit: Limit)
    ensures Filters(m[key := s], limit) <= Filters(m, limit) + {key}
    ensures key in m && m[key].kind == s.kind ==> Filters(m[key := s], limit) == Filters(m, limit)
  {
    hide FilterName;
  }

  lemma AddKeepsBound(m: Entries, limit: Limit, memory: Memory, key: Text, kind: nat, r: Request, a: Averaging,
                      victim: Option<Text>, ok: bool, m': Entries)
    requires AllValid(m) && Adds(m, limit, memory, key, kind, r, a, victim, ok, m') && memory.info && limit.maxNode > 0
    ensures |Filters(m', limit)| <= |Filters(m, limit)| || |Filters(m', limit)| <= limit.maxNode
  {
    hide Filters, IsFilter, Initialised, Updated, WithUpstream, Evicts;
    if key in m {
      KeepsKind(m[key], kind, r, a);
      FiltersWith(m, key, Recorded(m[key], kind, r, a, false), limit);
    } else if key != [] {
      var kept := Evicted(m, victim);
      EvictionMakesRoom(m, limit, memory, victim);
      FiltersWith(kept, key, NewNode(kind, r, a), limit);
      SubsetCount(Filters(kept[key := NewNode(kind, r, a)], limit), Filters(kept, limit) + {key});
    }
  }

  lemma KeepsKind(s: Stats, kind: nat, r: Request, a: Averaging)
    requires ValidStats(s)
    ensures Recorded(s, kind, r, a, false).kind == s.kind
  {
  }

  lemma EvictionMakesRoom(m: Entries, limit: Limit, memory: Memory, victim: Option<Text>)
    requires Evicts(m, limit, memory, victim) && memory.info && limit.maxNode > 0
    ensures var n := |Filters(Evicted(m, victim), limit)|;
            n < limit.maxNode || n < |Filters(m, limit)|
    ensures |Filters(Evicted(m, victim), limit)| <= |Filters(m, limit)|
  {
    hide IsFilter;
    if victim.Some? {
      FiltersWithout(m, victim.value, limit);
    }
  }

  lemma ChangeKeepsBound(m: Entries, e: Change, limit: Limit, m': Entries)
    requires AllValid(m) && Changes(m, e, limit, m') && limit.maxNode > 0
    requires !e.Restore? && (e.Add? ==> e.memory.info)
    ensures |Filters(m', limit)| <= |Filters(m, limit)| || |Filters(m', limit)| <= limit.maxNode
  {
    hide Adds, IsFilter;
    match e
    case Add(key, kind, r, a, memory) =>
      var victim, ok :| Adds(m, limit, memory, key, kind, r, a, victim, ok, m');
      AddKeepsBound(m, limit, memory, key, kind, r, a, victim, ok, m');
    case DropZone(_) =>
      SubsetCount(Filters(m', limit), Filters(m, limit));
    case DropGroup(_, _) =>
      SubsetCount(Filters(m', limit), Filters(m, limit));
    case DropAll =>
      SubsetCount(Filters(m', limit), Filters(m, limit));
  }

  lemma RestoreAddsOne(m: Entries, e: Change, limit: Limit, m': Entries)
    requires AllValid(m) && Changes(m, e, limit, m') && e.Restore?
    ensures |Filters(m', limit)| <= |Filters(m, limit)| + 1
  {
    hide IsFilter, ValidStats;
    if m' != m {
      FiltersWith(m, e.key, e.stats, limit);
      SubsetCount(Filters(m', limit), Filters(m, limit) + {e.key});
    }
  }

  /** The nodes restored from a dump; those are added without regard to the limit. */
  function Restores(changes: seq<Change>): nat {
    if changes == [] then 0
    else Restores(changes[..|changes| - 1]) + (if changes[|changes| - 1].Restore? then 1 else 0)
  }

  /**
   * However nodes are added and deleted, there are never more filter nodes than configured, or than there were at
   * first, but for restored ones.
   */
  lemma {:induction false} FiltersBounded(states: seq<Entries>, changes: seq<Change>, limit: Limit)
    requires IsRun(states, changes, limit) && limit.maxNode > 0
    requires forall e :: e in changes ==> e.Add? ==> e.memory.info
    ensures var first := |Filters(states[0], limit)|;
            |Filters(states[|changes|], limit)| <=
            (if first < limit.maxNode then limit.maxNode else first) + Restores(changes)
    decreases |changes|
  {
    hide Changes, Filters;
    if changes != [] {
      var n := |changes| - 1;
      FiltersBounded(states[..n + 1], changes[..n], limit);
      assert changes[n] in changes;
      if changes[n].Restore? {
        RestoreAddsOne(states[n], changes[n], limit, states[n + 1]);
      } else {
        ChangeKeepsBound(states[n], changes[n], limit, states[n + 1]);
      }
    }
  }

  /** A request recorded under a key of a filter node makes, or leaves, a filter node. */
  lemma AddedIsFilter(m: Entries, limit: Limit, memory: Memory, key: Text, kind: nat, r: Request, a: Averaging,
                      victim: Option<Text>, ok: bool, m': Entries)
    requires AllValid(m) && Adds(m, limit, memory, key, kind, r, a, victim, ok, m') && ok
    requires limit.matches(FilterName(key)) && (if key in m then m[key].kind == UPSTREAM_FG else kind == UPSTREAM_FG)
    ensures key in Filters(m', limit)
  {
    hide FilterName, Initialised, Evicts;
  }

  // ---- The story of a key over a run ----

  /** The change a key last entered the store with, and the requests recorded under it since. */
  ghost function Story(states: seq<Entries>, changes: seq<Change>, key: Text): seq<Change>
    requires |states| == |changes| + 1
    decreases |changes|
  {
    if changes == [] then []
    else
      var n := |changes| - 1;
      if key !in states[n + 1] then []
      else if key !in states[n] then [changes[n]]
      else
        Story(states[..n + 1], changes[..n], key) +
        (if changes[n].Add? && changes[n].key == key then [changes[n]] else [])
  }

  ghost predicate IsStory(story: seq<Change>) {
    story != [] && (story[0].Add? || (story[0].Restore? && ValidStats(story[0].stats))) &&
    forall i | 1 <= i < |story| :: story[i].Add?
  }

  /** The node a story makes. */
  ghost function Replay(story: seq<Change>): (s: Stats)
    requires IsStory(story)
    ensures ValidStats(s)
  {
    var e := story[|story| - 1];
    if |story| > 1 then Recorded(Replay(story[..|story| - 1]), e.kind, e.r, e.a, false)
    else if e.Add? then NewNode(e.kind, e.r, e.a)
    else e.stats
  }

  lemma OneChange(m: Entries, limit: Limit, e: Change, m': Entries, key: Text)
    requires AllValid(m) && AllValid(m') && Changes(m, e, limit, m') && key in m'
    ensures if key in m then
              m'[key] == if e.Add? && e.key == key then Recorded(m[key], e.kind, e.r, e.a, false) else m[key]
            else if e.Add? then e.key == key && m'[key] == NewNode(e.kind, e.r, e.a)
            else e.Restore? && e.key == key && m'[key] == e.stats
  {
    hide Recorded, NewNode, Evicts;
    if e.Add? {
      var victim, ok :| Adds(m, limit, e.memory, e.key, e.kind, e.r, e.a, victim, ok, m');
    }
  }

  /** Whatever else happened in between, evictions and deletions included: a node is what its story makes. */
  lemma {:induction false} StatsAreStory(states: seq<Entries>, changes: seq<Change>, limit: Limit, key: Text)
    requires IsRun(states, changes, limit) && states[0] == map[] && key in states[|changes|]
    ensures IsStory(Story(states, changes, key)) && states[|changes|][key] == Replay(Story(states, changes, key))
    ensures forall e :: e in Story(states, changes, key) ==> e.key == key
    decreases |changes|
  {
    hide Changes, Recorded, NewNode, ValidStats;
    if changes != [] {
      var n := |changes| - 1;
      OneChange(states[n], limit, changes[n], states[n + 1], key);
      assert AllValid(states[n + 1]);
      if key in states[n] {
        StatsAreStory(states[..n + 1], changes[..n], limit, key);
        var before := Story(states[..n + 1], changes[..n], key);
        assert (before + [changes[n]])[..|before|] == before;
        assert before + [] == before;
      }
    }
  }

  /** The kind of a node is the one it entered with. */
  lemma {:induction false} KindOfStory(story: seq<Change>)
    requires IsStory(story)
    ensures Replay(story).kind == if story[0].Add? then story[0].kind else story[0].stats.kind
  {
    hide Initialised, Updated;
    if |story| > 1 {
      KindOfStory(story[..|story| - 1]);
      var e := story[|story| - 1];
      KeepsKind(Replay(story[..|story| - 1]), e.kind, e.r, e.a);
    }
  }

  /** What one addition adds to counter `i`; upstream times count for the two upstream groups only. */
  function CreditOf(e: Change, i: nat): nat
    requires e.Add?
  {
    if i != RESPONSE_TIME then Added(e.r, i)
    else if e.kind == UPSTREAM_UA || e.kind == UPSTREAM_UG then e.r.upstreamMs
    else 0
  }

  ghost function Credit(story: seq<Change>, i: nat): nat
    requires forall k | 0 <= k < |story| :: story[k].Add?
  {
    if story == [] then 0 else Credit(story[..|story| - 1], i) + CreditOf(story[|story| - 1], i)
  }

  ghost function Requests(story: seq<Change>): seq<Request>
    requires forall k | 0 <= k < |story| :: story[k].Add?
  {
    if story == [] then [] else Requests(story[..|story| - 1]) + [story[|story| - 1].r]
  }

  /** But for the upstream time, the credit is what the requests of the story add. */
  lemma {:induction false} CreditOverRequests(story: seq<Change>, i: nat)
    requires (forall k | 0 <= k < |story| :: story[k].Add?) && i < COUNTERS
    ensures Credit(story, i) == AddedOver(Requests(story), i)
  {
    if story != [] {
      var before := Requests(story[..|story| - 1]);
      CreditOverRequests(story[..|story| - 1], i);
      assert (before + [story[|story| - 1].r])[..|before|] == before;
    }
  }

  lemma RecordedExact(s: Stats, e: Change, first: bool, i: nat)
    requires ValidStats(s) && e.Add? && i <= RESPONSE_TIME
    ensures ExactOf(Recorded(s, e.kind, e.r, e.a, first), i) ==
            if first then CreditOf(e, i) else Wrapped(ExactOf(s, i) + CreditOf(e, i))
  {
    hide Inserted, AverageOf, Cutoff, Sum;
    if first {
      ExactStart(e.r, e.a, i);
    } else {
      ExactStep(s, e.r, e.a, i);
    }
  }

  /**
   * The counters of a node that entered with an addition stand for exactly what the additions of its story add, modulo
   * 2^128, the upstream time included.
   */
  lemma {:induction false} CountersAreCredit(story: seq<Change>, i: nat)
    requires IsStory(story) && story[0].Add? && i <= RESPONSE_TIME
    ensures ExactOf(Replay(story), i) == Wrapped(Credit(story, i))
  {
    hide Recorded, Wrapped, ExactOf, CreditOf;
    var last := |story| - 1;
    if last > 0 {
      CountersAreCredit(story[..last], i);
      RecordedExact(Replay(story[..last]), story[last], false, i);
      WrappedSum(Credit(story[..last], i), CreditOf(story[last], i));
    } else {
      RecordedExact(Initialised(story[0].r), story[0], true, i);
      assert story[..last] == [];
      SmallCredit(story[0], i);
    }
  }

  lemma SmallCredit(e: Change, i: nat)
    requires e.Add?
    ensures CreditOf(e, i) < WORD && Wrapped(CreditOf(e, i)) == CreditOf(e, i)
  {
  }

  // ---- Which node is evicted ----

  /** When a story was last added to; a node restored and not used since brings its own time. */
  ghost function LastUsed(story: seq<Change>): int
    requires IsStory(story)
  {
    var e := story[|story| - 1];
    if e.Add? then e.r.now else LastUpdate(e.stats)
  }

  lemma LastUpdateOfStory(story: seq<Change>)
    requires IsStory(story)
    ensures LastUpdate(Replay(story)) == LastUsed(story)
  {
    hide AverageOf, Cutoff, Requested, FirstRequest;
  }

  /** The node evicted is a filter node, and no other filter node's latest addition was earlier. */
  lemma EvictsLeastUsed(states: seq<Entries>, changes: seq<Change>, limit: Limit, memory: Memory, victim: Text, k: Text)
    requires IsRun(states, changes, limit) && states[0] == map[]
    requires Evicts(states[|changes|], limit, memory, Some(victim)) && k in Filters(states[|changes|], limit)
    ensures victim in Filters(states[|changes|], limit)
    ensures IsStory(Story(states, changes, victim)) && IsStory(Story(states, changes, k))
    ensures LastUsed(Story(states, changes, victim)) <= LastUsed(Story(states, changes, k))
  {
    hide Changes, Story, Replay, LastUpdate, LastUsed, IsFilter;
    StatsAreStory(states, changes, limit, victim);
    StatsAreStory(states, changes, limit, k);
    LastUpdateOfStory(Story(states, changes, victim));
    LastUpdateOfStory(Story(states, changes, k));
  }
}
