/** The store of statistics nodes: adding requests, evicting the oldest filter node, and whole runs. */
module NodeStore {
  import opened Bytes
  import opened Keys
  import opened Nodes
  import opened Trees
  import opened Stores

  /**
   * `filter_max_node` and its match list; zero disables eviction. The list is compared with `strncmp`, which does not
   * stop at the end of a field, so it is asked about the key from the field on.
   */
  datatype Limit = Limit(maxNode: nat, matches: Text -> bool)

  /** Whether the allocations of one call succeed. */
  datatype Memory = Memory(info: bool, node: bool)

  datatype Entry = Entry(key: Text, stats: Stats)

  /** What the match list is applied to: the key from its second field on, or all of it when there is none. */
  function FilterName(key: Text): Text {
    if FieldAt(key, 1).Some? then From(key, 1) else key
  }

  /** Of a generated key that is the name, unless the name is empty or begins with a separator. */
  lemma FilterNameOfKey(group: nat, name: Text)
    ensures FilterName(GenerateKey(group, name)) ==
            if name != [] && name[0] != SEPARATOR then name else GenerateKey(group, name)
  {
    var key := GenerateKey(group, name);
    assert key[..2] == GroupName(group) && key[3..] == name && key[2] == SEPARATOR;
    SplitAtSeparator(key, 2);
    assert Split(key) == [GroupName(group)] + Split(name);
    assert Split(key)[1..] == Split(name);
    JoinSplit(name);
  }

  predicate IsFilter(key: Text, s: Stats, limit: Limit) {
    s.kind == UPSTREAM_FG && limit.matches(FilterName(key))
  }

  ghost function Filters(m: map<Text, Stats>, limit: Limit): set<Text> {
    set k | k in m && IsFilter(k, m[k], limit)
  }

  /** When a node was last updated; a queue without samples comes before all others. */
  function LastUpdate(s: Stats): int {
    if s.times == [] then -1 else s.times[|s.times| - 1].time
  }

  /** Every node is well formed and no key is empty. */
  ghost predicate AllValid(m: map<Text, Stats>) {
    [] !in m && forall k | k in m :: ValidStats(m[k])
  }

  // ---- Counting and choosing filter nodes ----

  function CountFilters(t: Tree<Stats>, limit: Limit): nat {
    if t.Leaf? then 0
    else (if IsFilter(t.key, t.value, limit) then 1 else 0) + CountFilters(t.left, limit) + CountFilters(t.right, limit)
  }

  lemma FiltersOfNode(l: map<Text, Stats>, hash: nat, key: Text, value: Stats, r: map<Text, Stats>, f: Hash,
                      limit: Limit)
    requires Fits(l, hash, key, r, f)
    ensures var own := if IsFilter(key, value, limit) then {key} else {};
            Filters(Joined(l, key, value, r), limit) == Filters(l, limit) + Filters(r, limit) + own
    ensures Filters(l, limit) !! Filters(r, limit) && key !in Filters(l, limit) && key !in Filters(r, limit)
  {
    hide Joined, Fits, IsFilter, Before;
    Apart(l, hash, key, value, r, f);
    forall k: Text
      ensures k in Joined(l, key, value, r) <==> k == key || k in l || k in r
      ensures k in Joined(l, key, value, r) ==>
                Joined(l, key, value, r)[k] == if k == key then value else if k in l then l[k] else r[k]
    {
      Side(l, hash, key, value, r, f, k);
    }
  }

  lemma {:induction false} CountIsFilters(t: Tree<Stats>, f: Hash, limit: Limit)
    requires Ordered(t, f)
    ensures CountFilters(t, limit) == |Filters(ToMap(t), limit)|
  {
    hide Joined, Fits, IsFilter;
    if t.Node? {
      CountIsFilters(t.left, f, limit);
      CountIsFilters(t.right, f, limit);
      FiltersOfNode(ToMap(t.left), t.hash, t.key, t.value, ToMap(t.right), f, limit);
    }
  }

  /** Nodes in use, all and filter nodes only, as `shm_info_node` adds them up. */
  method ShmInfoNode(t: Tree<Stats>, limit: Limit, used: nat, filters: nat) returns (used': nat, filters': nat)
    ensures used' == used + Size(t) && filters' == filters + CountFilters(t, limit)
    decreases t
  {
    used', filters' := used, filters;
    if t != Leaf {
      used' := used' + 1;
      if t.value.kind == UPSTREAM_FG {
        var name, rest := PositionKey(t.key, 1);
        if limit.matches(rest) {
          filters' := filters' + 1;
        }
      }
      used', filters' := ShmInfoNode(t.left, limit, used', filters');
      used', filters' := ShmInfoNode(t.right, limit, used', filters');
    }
  }

  /** The older of two nodes, as `find_lru_node_cmp` compares them; `a` may be missing. */
  function Older(a: Option<Entry>, b: Entry): (r: Entry)
    ensures r == b || a == Some(r)
    ensures LastUpdate(r.stats) <= LastUpdate(b.stats)
    ensures a.Some? ==> LastUpdate(r.stats) <= LastUpdate(a.value.stats)
  {
    match a
    case None => b
    case Some(e) =>
      if e.stats.times == [] then e
      else if b.stats.times == [] then b
      else if e.stats.times[|e.stats.times| - 1].time < b.stats.times[|b.stats.times| - 1].time then e
      else b
  }

  /** `best` is among the filter nodes of `m` or was there before, and none of them is older. */
  ghost predicate Oldest(m: map<Text, Stats>, limit: Limit, a: Option<Entry>, best: Option<Entry>) {
    (best.None? <==> a.None? && Filters(m, limit) == {}) &&
    (best.Some? ==> best == a || (best.value.key in Filters(m, limit) && best.value.stats == m[best.value.key])) &&
    (best.Some? && a.Some? ==> LastUpdate(best.value.stats) <= LastUpdate(a.value.stats)) &&
    (best.Some? ==> forall k | k in Filters(m, limit) :: LastUpdate(best.value.stats) <= LastUpdate(m[k]))
  }

  lemma OldestOfNode(l: map<Text, Stats>, hash: nat, key: Text, value: Stats, r: map<Text, Stats>, f: Hash,
                     limit: Limit, a: Option<Entry>, b: Option<Entry>, c: Option<Entry>, d: Option<Entry>)
    requires Fits(l, hash, key, r, f)
    requires b == if IsFilter(key, value, limit) then Some(Older(a, Entry(key, value))) else a
    requires Oldest(l, limit, b, c) && Oldest(r, limit, c, d)
    ensures Oldest(Joined(l, key, value, r), limit, a, d)
  {
    hide IsFilter, Before, LastUpdate, Older;
    FiltersOfNode(l, hash, key, value, r, f, limit);
    Apart(l, hash, key, value, r, f);
    hide Fits;
    assert b.Some? ==> b == a || (b == Some(Entry(key, value)) && IsFilter(key, value, limit));
    forall k | k in Filters(Joined(l, key, value, r), limit) && d.Some?
      ensures LastUpdate(d.value.stats) <= LastUpdate(Joined(l, key, value, r)[k])
    {
      if k in l {
        assert k in Filters(l, limit);
      } else if k in r {
        assert k in Filters(r, limit);
      } else {
        assert k == key && b.Some? && c.Some?;
      }
    }
  }

  method FindLruNode(a: Option<Entry>, t: Tree<Stats>, limit: Limit, ghost f: Hash) returns (best: Option<Entry>)
    requires Ordered(t, f)
    ensures Oldest(ToMap(t), limit, a, best)
    decreases t
  {
    hide Joined, Fits, Oldest, Older;
    best := a;
    if t != Leaf {
      if t.value.kind == UPSTREAM_FG {
        var name, rest := PositionKey(t.key, 1);
        if limit.matches(rest) {
          best := Some(Older(best, Entry(t.key, t.value)));
        }
      }
      ghost var b := best;
      best := FindLruNode(best, t.left, limit, f);
      ghost var c := best;
      best := FindLruNode(best, t.right, limit, f);
      OldestOfNode(ToMap(t.left), t.hash, t.key, t.value, ToMap(t.right), f, limit, a, b, c, best);
    } else {
      OldestOfNone(limit, a);
    }
  }

  lemma OldestOfNone(limit: Limit, a: Option<Entry>)
    ensures Oldest(map[], limit, a, a)
  {
  }

  /** Which entry, if any, has to go before a new one is added. */
  ghost predicate Evicts(m: map<Text, Stats>, limit: Limit, memory: Memory, victim: Option<Text>) {
    if limit.maxNode == 0 || !memory.info || |Filters(m, limit)| < limit.maxNode then victim == None
    else
      victim.Some? && victim.value in Filters(m, limit) &&
      forall k | k in Filters(m, limit) :: LastUpdate(m[victim.value]) <= LastUpdate(m[k])
  }

  method FindLru(store: Store<Stats>, limit: Limit, memory: Memory) returns (victim: Option<Text>)
    requires store.Valid()
    ensures Evicts(store.Entries(), limit, memory, victim)
  {
    if limit.maxNode == 0 || !memory.info {
      return None;
    }
    var used, filters := ShmInfoNode(store.root, limit, 0, 0);
    CountIsFilters(store.root, store.hash, limit);
    if filters >= limit.maxNode {
      var best := FindLruNode(None, store.root, limit, store.hash);
      assert |Filters(store.Entries(), limit)| > 0;
      return Some(best.value.key);
    }
    return None;
  }

  // ---- Adding a request ----

  function Evicted(m: map<Text, Stats>, victim: Option<Text>): map<Text, Stats> {
    if victim.Some? then m - {victim.value} else m
  }

  /** The node a request leaves behind, new (`first`) or not. */
  function Recorded(s: Stats, kind: nat, r: Request, a: Averaging, first: bool): (t: Stats)
    requires ValidStats(s)
    ensures ValidStats(t)
  {
    var u := if first then Initialised(r).(kind := kind) else Updated(s, r, a);
    if kind == UPSTREAM_UA || kind == UPSTREAM_UG then WithUpstream(u, r, a, first) else u
  }

  function NewNode(kind: nat, r: Request, a: Averaging): (t: Stats)
    ensures ValidStats(t)
  {
    Recorded(Initialised(r), kind, r, a, true)
  }

  /** What adding a request makes of the entries. */
  ghost predicate Adds(m: map<Text, Stats>, limit: Limit, memory: Memory, key: Text, kind: nat, r: Request,
                       a: Averaging, victim: Option<Text>, ok: bool, m': map<Text, Stats>)
    requires AllValid(m)
  {
    if key == [] then !ok && m' == m
    else if key in m then ok && m' == m[key := Recorded(m[key], kind, r, a, false)]
    else
      Evicts(m, limit, memory, victim) && ok == memory.node &&
      m' == if ok then Evicted(m, victim)[key := NewNode(kind, r, a)] else Evicted(m, victim)
  }

  method AddNode(store: Store<Stats>, limit: Limit, memory: Memory, key: Text, kind: nat, r: Request, a: Averaging)
    returns (ok: bool, ghost victim: Option<Text>)
    requires store.Valid() && AllValid(store.Entries())
    modifies store
    ensures store.Valid() && AllValid(store.Entries())
    ensures Adds(old(store.Entries()), limit, memory, key, kind, r, a, victim, ok, store.Entries())
  {
    hide Initialised, Updated, WithUpstream, ToMap, Filters;
    victim := None;
    if |key| == 0 {
      return false, None;
    }
    var node := store.Find(key);
    if node == None {
      var oldest := FindLru(store, limit, memory);
      victim := oldest;
      if oldest.Some? {
        assert oldest.value in store.Entries() by {
          VictimInside(store.Entries(), limit, memory, victim);
        }
        store.Delete(oldest.value);
      }
      if !memory.node {
        return false, victim;
      }
      store.Insert(key, NewNode(kind, r, a));
    } else {
      store.Change(key, Recorded(node.value, kind, r, a, false));
    }
    return true, victim;
  }

  lemma VictimInside(m: map<Text, Stats>, limit: Limit, memory: Memory, victim: Option<Text>)
    requires Evicts(m, limit, memory, victim) && victim.Some?
    ensures victim.value in m
  {
  }
}
