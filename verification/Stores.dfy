/** The store: a search tree under the shared-memory lock, with its insertions and deletions. */
module Stores {
  import opened Bytes
  import opened Collections
  import opened Trees

  /** Keys of one group in the order `node_delete_get_nodes` visits them. */
  function GroupKeys<V>(t: Tree<V>, kind: V -> nat, group: nat): (keys: seq<Text>) {
    if t.Leaf? then []
    else
      (if kind(t.value) == group then [t.key] else []) +
      GroupKeys(t.left, kind, group) + GroupKeys(t.right, kind, group)
  }

  /** What is left of a map when one group is deleted. */
  function WithoutGroup<V>(m: map<Text, V>, kind: V -> nat, group: nat): map<Text, V> {
    map k | k in m && kind(m[k]) != group :: m[k]
  }

  lemma {:induction false} GroupKeysInside<V>(t: Tree<V>, kind: V -> nat, group: nat, f: Hash)
    requires Ordered(t, f)
    ensures forall k :: k in GroupKeys(t, kind, group) <==> k in ToMap(t) && kind(ToMap(t)[k]) == group
  {
    hide Joined, Fits;
    if t.Node? {
      GroupKeysInside(t.left, kind, group, f);
      GroupKeysInside(t.right, kind, group, f);
      forall k: Text
        ensures k in GroupKeys(t, kind, group) <==> k in ToMap(t) && kind(ToMap(t)[k]) == group
      {
        Side(ToMap(t.left), t.hash, t.key, t.value, ToMap(t.right), f, k);
        BeforeIsStrict(f(k), k, t.hash, t.key);
      }
    }
  }

  lemma {:induction false} GroupKeysOnce<V>(t: Tree<V>, kind: V -> nat, group: nat, f: Hash)
    requires Ordered(t, f)
    ensures NoDuplicates(GroupKeys(t, kind, group))
  {
    hide Joined, Fits;
    if t.Node? {
      var l, r := GroupKeys(t.left, kind, group), GroupKeys(t.right, kind, group);
      GroupKeysOnce(t.left, kind, group, f);
      GroupKeysOnce(t.right, kind, group, f);
      GroupKeysInside(t.left, kind, group, f);
      GroupKeysInside(t.right, kind, group, f);
      Apart(ToMap(t.left), t.hash, t.key, t.value, ToMap(t.right), f);
      assert forall k :: k in l ==> k in ToMap(t.left).Keys;
      assert forall k :: k in r ==> k in ToMap(t.right).Keys;
      NodeOnce(if kind(t.value) == group then [t.key] else [], l, r, t.key);
    }
  }

  lemma NodeOnce(own: seq<Text>, l: seq<Text>, r: seq<Text>, key: Text)
    requires own == [] || own == [key]
    requires NoDuplicates(l) && NoDuplicates(r) && key !in l && key !in r && forall k :: k in l ==> k !in r
    ensures NoDuplicates(own + l + r)
  {
    hide NoDuplicates;
    ConcatOnce(l, r);
    if own == [] {
      assert own + l + r == l + r;
    } else {
      assert NoDuplicates([key]) by {
        JustOnce(key);
      }
      ConcatOnce([key], l + r);
      assert own + l + r == [key] + (l + r);
    }
  }

  lemma JustOnce(key: Text)
    ensures NoDuplicates([key])
  {
  }

  /** The keys collected are exactly the entries a group deletion takes away. */
  lemma GroupCount<V>(t: Tree<V>, kind: V -> nat, group: nat, f: Hash)
    requires Ordered(t, f)
    ensures |GroupKeys(t, kind, group)| + |WithoutGroup(ToMap(t), kind, group)| == |ToMap(t)|
  {
    hide GroupKeys, ToMap, Ordered;
    var keys, m := GroupKeys(t, kind, group), ToMap(t);
    GroupKeysInside(t, kind, group, f);
    GroupKeysOnce(t, kind, group, f);
    OnceCount(keys);
    assert m.Keys == (set k | k in keys) + WithoutGroup(m, kind, group).Keys;
  }

  class Store<V> {
    const hash: Hash
    var root: Tree<V>

    ghost predicate Valid()
      reads this
    {
      Ordered(root, hash)
    }

    ghost function Entries(): map<Text, V>
      reads this
    {
      ToMap(root)
    }

    constructor (hash: Hash)
      ensures Valid() && Entries() == map[] && this.hash == hash
    {
      this.hash, root := hash, Leaf;
    }

    method Find(key: Text) returns (found: Option<V>)
      requires Valid()
      ensures found.Some? <==> key in Entries()
      ensures found.Some? ==> found.value == Entries()[key]
    {
      found := Lookup(root, key, hash(key), hash);
    }

    /** Hang a new node in the tree; how it is then rebalanced is left open. */
    method Insert(key: Text, value: V)
      requires Valid() && key !in Entries()
      modifies this
      ensures Valid() && Entries() == old(Entries())[key := value]
    {
      InsertLeafAdds(root, hash(key), key, value, hash);
      root := InsertLeaf(root, hash(key), key, value);
    }

    /** Update the node of a key. */
    method Change(key: Text, value: V)
      requires Valid() && key in Entries()
      modifies this
      ensures Valid() && Entries() == old(Entries())[key := value]
    {
      ChangedMap(root, key, value, hash);
      root := Changed(root, hash(key), key, value);
    }

    /** Take a node out of the tree; how it is then rebalanced is left open. */
    method Delete(key: Text)
      requires Valid() && key in Entries()
      modifies this
      ensures Valid() && Entries() == old(Entries()) - {key}
    {
      RemovedMap(root, key, hash);
      root := Removed(root, hash(key), key);
    }

    /** `dump_restore_add_node`: only a key not yet there is added, and only when there is memory for it. */
    method RestoreAdd(key: Text, value: V, memory: bool) returns (ok: bool)
      requires Valid()
      modifies this
      ensures Valid() && ok == (key != [] && (key in old(Entries()) || memory))
      ensures Entries() == if ok && key !in old(Entries()) then old(Entries())[key := value] else old(Entries())
    {
      if |key| == 0 {
        return false;
      }
      var node := Find(key);
      if node == None {
        if !memory {
          return false;
        }
        Insert(key, value);
      }
      return true;
    }

    /** The result is the number of entries deleted. */
    method DeleteZone(key: Text) returns (count: nat)
      requires Valid()
      modifies this
      ensures Valid() && Entries() == old(Entries()) - {key}
      ensures count == |old(Entries())| - |Entries()|
    {
      count := 0;
      var node := Find(key);
      if node != None {
        Delete(key);
        count := count + 1;
        KeysWithout(old(Entries()), key);
      } else {
        assert Entries() - {key} == Entries();
      }
    }

    method DeleteAll() returns (count: nat)
      requires Valid()
      modifies this
      ensures Valid() && Entries() == map[] && count == |old(Entries())|
    {
      count := 0;
      var node := root;
      while node != Leaf
        invariant Valid() && node == root && count + |Entries()| == |old(Entries())|
        decreases |Entries()|
      {
        RootInside(node);
        ghost var before := Entries();
        Delete(node.key);
        KeysWithout(before, node.key);
        count := count + 1;
        node := root;
      }
    }

    /** Collect the nodes of a group; the array takes no more than `memory` of them. */
    method GetNodes(kind: V -> nat, group: nat, nodes: seq<Text>, t: Tree<V>, memory: nat)
      returns (ok: bool, all: seq<Text>)
      requires |nodes| <= memory
      ensures ok == (|nodes + GroupKeys(t, kind, group)| <= memory)
      ensures ok ==> all == nodes + GroupKeys(t, kind, group)
      decreases t
    {
      all, ok := nodes, true;
      if t != Leaf {
        if kind(t.value) == group {
          if |all| == memory {
            return false, all;
          }
          all := all + [t.key];
        }
        ok, all := GetNodes(kind, group, all, t.left, memory);
        if !ok {
          return;
        }
        ok, all := GetNodes(kind, group, all, t.right, memory);
      }
    }

    /** Delete the collected nodes, or nothing when they could not all be collected. */
    method DeleteGroup(kind: V -> nat, group: nat, memory: nat) returns (count: nat)
      requires Valid()
      modifies this
      ensures Valid() && count == |old(Entries())| - |Entries()|
      ensures var left := WithoutGroup(old(Entries()), kind, group);
              Entries() == if |old(Entries())| - |left| <= memory then left else old(Entries())
    {
      hide LeftAfter, Lists, GroupKeys, ToMap, Ordered, WithoutGroup;
      GroupCount(root, kind, group, hash);
      var ok, nodes := GetNodes(kind, group, [], root, memory);
      if !ok {
        return 0;
      }
      ghost var all := Entries();
      GroupIsListed(root, kind, group, hash);
      assert nodes == GroupKeys(root, kind, group);
      count := DeleteNodes(nodes, kind, group);
      LeftAtLast(all, nodes, kind, group, Entries());
    }

    /** The loop over the collected nodes. */
    method DeleteNodes(nodes: seq<Text>, ghost kind: V -> nat, ghost group: nat) returns (count: nat)
      requires Valid() && Lists(nodes, Entries(), kind, group)
      modifies this
      ensures Valid() && count == |nodes| && LeftAfter(old(Entries()), nodes[..|nodes|], Entries())
    {
      hide LeftAfter, Lists, ToMap, Ordered;
      ghost var all := Entries();
      LeftAtFirst(all, nodes);
      count := 0;
      var i := 0;
      while i < |nodes|
        invariant 0 <= i <= |nodes| && Valid() && count == i && LeftAfter(all, nodes[..i], Entries())
      {
        LeftStep(all, nodes, kind, group, i, Entries());
        Delete(nodes[i]);
        count := count + 1;
        i := i + 1;
      }
    }
  }

  /** The map once the keys `done` have been deleted from `all`. */
  ghost predicate LeftAfter<V>(all: map<Text, V>, done: seq<Text>, left: map<Text, V>) {
    |left| + |done| == |all| &&
    (forall k :: k in left <==> k in all && k !in done) && forall k | k in left :: left[k] == all[k]
  }

  /** `nodes` are the keys of a group, each once. */
  ghost predicate Lists<V>(nodes: seq<Text>, all: map<Text, V>, kind: V -> nat, group: nat) {
    NoDuplicates(nodes) && forall k :: k in nodes <==> k in all && kind(all[k]) == group
  }

  lemma GroupIsListed<V>(t: Tree<V>, kind: V -> nat, group: nat, f: Hash)
    requires Ordered(t, f)
    ensures Lists(GroupKeys(t, kind, group), ToMap(t), kind, group)
  {
    hide GroupKeys, ToMap, Ordered, NoDuplicates;
    GroupKeysInside(t, kind, group, f);
    GroupKeysOnce(t, kind, group, f);
  }

  lemma LeftAtFirst<V>(all: map<Text, V>, nodes: seq<Text>)
    ensures LeftAfter(all, nodes[..0], all)
  {
  }

  lemma LeftStep<V>(all: map<Text, V>, nodes: seq<Text>, kind: V -> nat, group: nat, i: nat, left: map<Text, V>)
    requires i < |nodes| && Lists(nodes, all, kind, group) && LeftAfter(all, nodes[..i], left)
    ensures nodes[i] in left && LeftAfter(all, nodes[..i + 1], left - {nodes[i]})
  {
    assert nodes[i] in nodes && nodes[i] !in nodes[..i];
    KeysWithout(left, nodes[i]);
    assert nodes[..i + 1] == nodes[..i] + [nodes[i]];
  }

  lemma LeftAtLast<V>(all: map<Text, V>, nodes: seq<Text>, kind: V -> nat, group: nat, left: map<Text, V>)
    requires LeftAfter(all, nodes[..|nodes|], left) && Lists(nodes, all, kind, group)
    ensures left == WithoutGroup(all, kind, group) && |left| + |nodes| == |all|
  {
    assert nodes[..|nodes|] == nodes;
  }

  lemma RootInside<V>(t: Tree<V>)
    requires t.Node?
    ensures t.key in ToMap(t)
  {
  }

  lemma KeysWithout<V>(m: map<Text, V>, key: Text)
    requires key in m
    ensures |m - {key}| == |m| - 1
  {
    assert (m - {key}).Keys == m.Keys - {key};
  }
}
