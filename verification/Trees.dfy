/** The search tree of the store, ordered by (hash, key bytes), and the map it stands for. */
module Trees {
  import opened Bytes

  type Hash = Text -> nat

  datatype Tree<V> = Leaf | Node(left: Tree<V>, hash: nat, key: Text, value: V, right: Tree<V>)

  /** The order of two nodes: hashes first, then the key bytes. */
  predicate Before(h: nat, k: Text, hash: nat, key: Text) {
    h < hash || (h == hash && LexLess(k, key))
  }

  /** The entries of a node and its two subtrees. */
  function Joined<V>(l: map<Text, V>, key: Text, value: V, r: map<Text, V>): map<Text, V> {
    l + r + map[key := value]
  }

  function ToMap<V>(t: Tree<V>): map<Text, V> {
    if t.Leaf? then map[] else Joined(ToMap(t.left), t.key, t.value, ToMap(t.right))
  }

  /** A node between what is left and what is right of it. */
  ghost predicate Fits<V>(l: map<Text, V>, hash: nat, key: Text, r: map<Text, V>, f: Hash) {
    hash == f(key) &&
    (forall k | k in l :: Before(f(k), k, hash, key)) &&
    (forall k | k in r :: Before(hash, key, f(k), k))
  }

  ghost predicate Ordered<V>(t: Tree<V>, f: Hash) {
    t.Node? ==>
      Ordered(t.left, f) && Ordered(t.right, f) && Fits(ToMap(t.left), t.hash, t.key, ToMap(t.right), f)
  }

  function Size<V>(t: Tree<V>): nat {
    if t.Leaf? then 0 else Size(t.left) + 1 + Size(t.right)
  }

  lemma BeforeIsStrict(h: nat, k: Text, hash: nat, key: Text)
    ensures !Before(h, k, h, k)
    ensures Before(h, k, hash, key) ==> !Before(hash, key, h, k) && (h, k) != (hash, key)
    ensures Before(h, k, hash, key) || Before(hash, key, h, k) || (h, k) == (hash, key)
  {
    LexTrichotomy(k, key);
    LexTrichotomy(k, k);
  }

  lemma BeforeOverNode(a: nat, x: Text, b: nat, y: Text, c: nat, z: Text)
    requires Before(a, x, b, y) && ((b, y) == (c, z) || Before(b, y, c, z))
    ensures Before(a, x, c, z)
  {
    if a == b == c && y != z {
      LexTransitive(x, y, z);
    }
  }

  /** Where a key can be, seen from a node. */
  lemma Side<V>(l: map<Text, V>, hash: nat, key: Text, value: V, r: map<Text, V>, f: Hash, k: Text)
    requires Fits(l, hash, key, r, f)
    ensures var m := Joined(l, key, value, r);
            if k == key then f(k) == hash && k in m && m[k] == value && k !in l && k !in r
            else if Before(f(k), k, hash, key) then
              !Before(hash, key, f(k), k) && k !in r && (k in m <==> k in l) && (k in m ==> m[k] == l[k])
            else
              Before(hash, key, f(k), k) && k !in l && (k in m <==> k in r) && (k in m ==> m[k] == r[k])
  {
    BeforeIsStrict(f(k), k, hash, key);
  }

  lemma InsertLeft<V>(l: map<Text, V>, hash: nat, key: Text, value: V, r: map<Text, V>, f: Hash, k: Text, v: V)
    requires Fits(l, hash, key, r, f) && k != key && Before(f(k), k, hash, key)
    ensures Fits(l[k := v], hash, key, r, f)
    ensures Joined(l[k := v], key, value, r) == Joined(l, key, value, r)[k := v]
  {
    hide Before;
    Side(l, hash, key, value, r, f, k);
  }

  lemma InsertRight<V>(l: map<Text, V>, hash: nat, key: Text, value: V, r: map<Text, V>, f: Hash, k: Text, v: V)
    requires Fits(l, hash, key, r, f) && k != key && !Before(f(k), k, hash, key)
    ensures Fits(l, hash, key, r[k := v], f)
    ensures Joined(l, key, value, r[k := v]) == Joined(l, key, value, r)[k := v]
  {
    hide Before;
    Side(l, hash, key, value, r, f, k);
  }

  lemma RemoveLeft<V>(l: map<Text, V>, hash: nat, key: Text, value: V, r: map<Text, V>, f: Hash, k: Text)
    requires Fits(l, hash, key, r, f) && k != key && Before(f(k), k, hash, key)
    ensures Fits(l - {k}, hash, key, r, f) && Joined(l - {k}, key, value, r) == Joined(l, key, value, r) - {k}
  {
    Side(l, hash, key, value, r, f, k);
    hide Before;
  }

  lemma RemoveRight<V>(l: map<Text, V>, hash: nat, key: Text, value: V, r: map<Text, V>, f: Hash, k: Text)
    requires Fits(l, hash, key, r, f) && k != key && !Before(f(k), k, hash, key)
    ensures Fits(l, hash, key, r - {k}, f) && Joined(l, key, value, r - {k}) == Joined(l, key, value, r) - {k}
  {
    Side(l, hash, key, value, r, f, k);
    hide Before;
  }

  /** Without the node: its right side taken apart into its first entry `k` and the rest. */
  lemma RemoveNode<V>(l: map<Text, V>, hash: nat, key: Text, value: V, rest: map<Text, V>, f: Hash, k: Text, v: V)
    requires Fits(l, hash, key, rest[k := v], f) && k !in rest
    requires forall x | x in rest :: Before(f(k), k, f(x), x)
    ensures Fits(l, f(k), k, rest, f)
    ensures Joined(l, k, v, rest) == Joined(l, key, value, rest[k := v]) - {key}
  {
    var r := rest[k := v];
    assert k in r && forall x | x in rest :: x in r;
    BeforeIsStrict(hash, key, f(k), k);
    BeforeIsStrict(hash, key, hash, key);
    forall x | x in l
      ensures Before(f(x), x, f(k), k)
    {
      BeforeOverNode(f(x), x, hash, key, f(k), k);
    }
  }

  lemma JoinedCount<V>(l: map<Text, V>, hash: nat, key: Text, value: V, r: map<Text, V>, f: Hash)
    requires Fits(l, hash, key, r, f)
    ensures |Joined(l, key, value, r)| == |l| + 1 + |r|
  {
    Apart(l, hash, key, value, r, f);
    hide Before, Fits;
    SumCount(l, r);
    AddedCount(l + r, key, value);
  }

  lemma SumCount<V>(l: map<Text, V>, r: map<Text, V>)
    requires l.Keys !! r.Keys
    ensures |l + r| == |l| + |r|
  {
    assert (l + r).Keys == l.Keys + r.Keys;
  }

  lemma AddedCount<V>(m: map<Text, V>, key: Text, value: V)
    requires key !in m
    ensures |m + map[key := value]| == |m| + 1
  {
    assert (m + map[key := value]).Keys == m.Keys + {key};
  }

  lemma Apart<V>(l: map<Text, V>, hash: nat, key: Text, value: V, r: map<Text, V>, f: Hash)
    requires Fits(l, hash, key, r, f)
    ensures l.Keys !! r.Keys && key !in l && key !in r
  {
    hide Joined, Before;
    Side(l, hash, key, value, r, f, key);
    forall k | k in l && k in r
      ensures false
    {
      Side(l, hash, key, value, r, f, k);
    }
  }

  lemma {:induction false} SizeIsCount<V>(t: Tree<V>, f: Hash)
    requires Ordered(t, f)
    ensures Size(t) == |ToMap(t)|
  {
    if t.Node? {
      SizeIsCount(t.left, f);
      SizeIsCount(t.right, f);
      JoinedCount(ToMap(t.left), t.hash, t.key, t.value, ToMap(t.right), f);
    }
  }

  /** `node_lookup`: the walk meets the key wherever hashes collide. */
  method Lookup<V>(root: Tree<V>, key: Text, hash: nat, ghost f: Hash) returns (found: Option<V>)
    requires Ordered(root, f) && hash == f(key)
    ensures found.Some? <==> key in ToMap(root)
    ensures found.Some? ==> found.value == ToMap(root)[key]
  {
    var node := root;
    while node != Leaf
      invariant Ordered(node, f)
      invariant key in ToMap(root) <==> key in ToMap(node)
      invariant key in ToMap(root) ==> ToMap(root)[key] == ToMap(node)[key]
      decreases node
    {
      Side(ToMap(node.left), node.hash, node.key, node.value, ToMap(node.right), f, key);
      BeforeIsStrict(hash, key, node.hash, node.key);
      if hash < node.hash {
        node := node.left;
      } else if hash > node.hash {
        node := node.right;
      } else if key == node.key {
        return Some(node.value);
      } else {
        node := if LexLess(key, node.key) then node.left else node.right;
      }
    }
    return None;
  }

  /** Where `rbtree_insert_value` hangs a new node, before any rebalancing. */
  function InsertLeaf<V>(t: Tree<V>, hash: nat, key: Text, value: V): Tree<V> {
    if t.Leaf? then Node(Leaf, hash, key, value, Leaf)
    else if Before(hash, key, t.hash, t.key) then t.(left := InsertLeaf(t.left, hash, key, value))
    else t.(right := InsertLeaf(t.right, hash, key, value))
  }

  lemma {:induction false} InsertLeafAdds<V>(t: Tree<V>, hash: nat, key: Text, value: V, f: Hash)
    requires Ordered(t, f) && hash == f(key) && key !in ToMap(t)
    ensures Ordered(InsertLeaf(t, hash, key, value), f)
    ensures ToMap(InsertLeaf(t, hash, key, value)) == ToMap(t)[key := value]
  {
    hide Joined, Fits;
    if t.Leaf? {
      JustOne(hash, key, value, f);
    } else {
      Side(ToMap(t.left), t.hash, t.key, t.value, ToMap(t.right), f, key);
      if Before(hash, key, t.hash, t.key) {
        InsertLeft(ToMap(t.left), t.hash, t.key, t.value, ToMap(t.right), f, key, value);
        InsertLeafAdds(t.left, hash, key, value, f);
      } else {
        InsertRight(ToMap(t.left), t.hash, t.key, t.value, ToMap(t.right), f, key, value);
        InsertLeafAdds(t.right, hash, key, value, f);
      }
    }
  }

  lemma JustOne<V>(hash: nat, key: Text, value: V, f: Hash)
    requires hash == f(key)
    ensures Fits<V>(map[], hash, key, map[], f) && Joined(map[], key, value, map[]) == map[key := value]
  {
  }

  /** The value stored under a key replaced, the shape kept. */
  function Changed<V>(t: Tree<V>, hash: nat, key: Text, value: V): Tree<V> {
    if t.Leaf? then Leaf
    else if t.key == key then t.(value := value)
    else if Before(hash, key, t.hash, t.key) then t.(left := Changed(t.left, hash, key, value))
    else t.(right := Changed(t.right, hash, key, value))
  }

  lemma {:induction false} ChangedMap<V>(t: Tree<V>, key: Text, value: V, f: Hash)
    requires Ordered(t, f) && key in ToMap(t)
    ensures Ordered(Changed(t, f(key), key, value), f)
    ensures ToMap(Changed(t, f(key), key, value)) == ToMap(t)[key := value]
  {
    hide Joined, Fits;
    if t.Node? {
      Side(ToMap(t.left), t.hash, t.key, t.value, ToMap(t.right), f, key);
      if t.key == key {
        ChangeNode(ToMap(t.left), t.key, t.value, ToMap(t.right), value);
      } else {
        if Before(f(key), key, t.hash, t.key) {
          InsertLeft(ToMap(t.left), t.hash, t.key, t.value, ToMap(t.right), f, key, value);
          ChangedMap(t.left, key, value, f);
        } else {
          InsertRight(ToMap(t.left), t.hash, t.key, t.value, ToMap(t.right), f, key, value);
          ChangedMap(t.right, key, value, f);
        }
      }
    }
  }

  lemma ChangeNode<V>(l: map<Text, V>, key: Text, value: V, r: map<Text, V>, v: V)
    ensures Joined(l, key, v, r) == Joined(l, key, value, r)[key := v]
  {
  }

  // ---- Deletion, and rotations: any rebalancing keeps order and map ----

  function Smallest<V>(t: Tree<V>): Tree<V>
    requires t.Node?
    ensures Smallest(t).Node?
  {
    if t.left.Leaf? then t else Smallest(t.left)
  }

  function WithoutSmallest<V>(t: Tree<V>): Tree<V>
    requires t.Node?
  {
    if t.left.Leaf? then t.right else t.(left := WithoutSmallest(t.left))
  }

  lemma {:induction false} SmallestFirst<V>(t: Tree<V>, f: Hash)
    requires Ordered(t, f) && t.Node?
    ensures var s := Smallest(t); var rest := WithoutSmallest(t);
            s.hash == f(s.key) && s.key !in ToMap(rest) && Ordered(rest, f) &&
            ToMap(t) == ToMap(rest)[s.key := s.value] &&
            forall k | k in ToMap(rest) :: Before(s.hash, s.key, f(k), k)
  {
    hide Joined, Fits;
    if t.left.Node? {
      var s := Smallest(t.left);
      SmallestFirst(t.left, f);
      SmallestStep(ToMap(WithoutSmallest(t.left)), t.hash, t.key, t.value, ToMap(t.right), f, s.key, s.value);
    } else {
      SmallestEnd(t.hash, t.key, t.value, ToMap(t.right), f);
    }
  }

  lemma SmallestStep<V>(rest: map<Text, V>, hash: nat, key: Text, value: V, r: map<Text, V>, f: Hash, k: Text, v: V)
    requires Fits(rest[k := v], hash, key, r, f) && k !in rest
    requires forall x | x in rest :: Before(f(k), k, f(x), x)
    ensures Fits(rest, hash, key, r, f) && k !in Joined(rest, key, value, r)
    ensures Joined(rest[k := v], key, value, r) == Joined(rest, key, value, r)[k := v]
    ensures forall x | x in Joined(rest, key, value, r) :: Before(f(k), k, f(x), x)
  {
    var l := rest[k := v];
    assert k in l && forall x | x in rest :: x in l;
    Side(l, hash, key, value, r, f, k);
    BeforeIsStrict(f(k), k, hash, key);
    forall x | x in r
      ensures Before(f(k), k, f(x), x)
    {
      BeforeOverNode(f(k), k, hash, key, f(x), x);
    }
  }

  lemma SmallestEnd<V>(hash: nat, key: Text, value: V, r: map<Text, V>, f: Hash)
    requires Fits(map[], hash, key, r, f)
    ensures hash == f(key) && key !in r && Joined(map[], key, value, r) == r[key := value]
    ensures forall k | k in r :: Before(hash, key, f(k), k)
  {
    BeforeIsStrict(hash, key, hash, key);
  }

  function Removed<V>(t: Tree<V>, hash: nat, key: Text): Tree<V> {
    if t.Leaf? then Leaf
    else if key == t.key then
      if t.right.Leaf? then t.left
      else
        var s := Smallest(t.right);
        Node(t.left, s.hash, s.key, s.value, WithoutSmallest(t.right))
    else if Before(hash, key, t.hash, t.key) then t.(left := Removed(t.left, hash, key))
    else t.(right := Removed(t.right, hash, key))
  }

  lemma {:induction false} RemovedMap<V>(t: Tree<V>, key: Text, f: Hash)
    requires Ordered(t, f)
    ensures Ordered(Removed(t, f(key), key), f)
    ensures ToMap(Removed(t, f(key), key)) == ToMap(t) - {key}
  {
    hide Joined, Fits;
    if t.Node? {
      var l, r := ToMap(t.left), ToMap(t.right);
      Side(l, t.hash, t.key, t.value, r, f, key);
      if key != t.key {
        if Before(f(key), key, t.hash, t.key) {
          RemoveLeft(l, t.hash, t.key, t.value, r, f, key);
          RemovedMap(t.left, key, f);
        } else {
          RemoveRight(l, t.hash, t.key, t.value, r, f, key);
          RemovedMap(t.right, key, f);
        }
      } else if t.right.Node? {
        var s := Smallest(t.right);
        SmallestFirst(t.right, f);
        RemoveNode(l, t.hash, t.key, t.value, ToMap(WithoutSmallest(t.right)), f, s.key, s.value);
      } else {
        RemoveLast(l, t.hash, t.key, t.value, f);
      }
    }
  }

  lemma RemoveLast<V>(l: map<Text, V>, hash: nat, key: Text, value: V, f: Hash)
    requires Fits(l, hash, key, map[], f)
    ensures Joined(l, key, value, map[]) - {key} == l
  {
    BeforeIsStrict(hash, key, hash, key);
  }

  function RotatedLeft<V>(t: Tree<V>): Tree<V>
    requires t.Node? && t.right.Node?
  {
    var r := t.right;
    Node(Node(t.left, t.hash, t.key, t.value, r.left), r.hash, r.key, r.value, r.right)
  }

  function RotatedRight<V>(t: Tree<V>): Tree<V>
    requires t.Node? && t.left.Node?
  {
    var l := t.left;
    Node(l.left, l.hash, l.key, l.value, Node(l.right, t.hash, t.key, t.value, t.right))
  }

  /** A rotation keeps the order and the map, and the other rotation undoes it. */
  lemma RotationKeepsOrder<V>(t: Tree<V>, f: Hash)
    requires Ordered(t, f) && t.Node? && t.right.Node?
    ensures Ordered(RotatedLeft(t), f) && ToMap(RotatedLeft(t)) == ToMap(t)
    ensures RotatedRight(RotatedLeft(t)) == t
  {
    hide Joined, Fits;
    var r := t.right;
    assert ToMap(r) == Joined(ToMap(r.left), r.key, r.value, ToMap(r.right));
    RotateMaps(ToMap(t.left), t.hash, t.key, t.value, ToMap(r.left), r.hash, r.key, r.value, ToMap(r.right), f);
  }

  /** The mirror image. */
  lemma RotationRightKeepsOrder<V>(t: Tree<V>, f: Hash)
    requires Ordered(t, f) && t.Node? && t.left.Node?
    ensures Ordered(RotatedRight(t), f) && ToMap(RotatedRight(t)) == ToMap(t)
    ensures RotatedLeft(RotatedRight(t)) == t
  {
    hide Joined, Fits;
    var l := t.left;
    assert ToMap(l) == Joined(ToMap(l.left), l.key, l.value, ToMap(l.right));
    RotateMapsBack(ToMap(l.left), l.hash, l.key, l.value, ToMap(l.right), t.hash, t.key, t.value, ToMap(t.right), f);
  }

  lemma RotateMapsBack<V>(a: map<Text, V>, hash: nat, key: Text, value: V, b: map<Text, V>,
                          hash': nat, key': Text, value': V, c: map<Text, V>, f: Hash)
    requires Fits(a, hash, key, b, f) && Fits(Joined(a, key, value, b), hash', key', c, f)
    ensures Fits(b, hash', key', c, f) && Fits(a, hash, key, Joined(b, key', value', c), f)
    ensures Joined(Joined(a, key, value, b), key', value', c) == Joined(a, key, value, Joined(b, key', value', c))
  {
    hide Before;
    var r, l := Joined(b, key', value', c), Joined(a, key, value, b);
    assert key in l && (forall k | k in a || k in b :: k in l);
    forall k | k in r
      ensures Before(hash, key, f(k), k)
    {
      if k in c {
        BeforeOverNode(hash, key, hash', key', f(k), k);
      }
    }
    Apart(a, hash, key, value, r, f);
    Apart(b, hash', key', value', c, f);
    JoinedTwice(a, key, value, b, key', value', c);
  }

  lemma RotateMaps<V>(a: map<Text, V>, hash: nat, key: Text, value: V, b: map<Text, V>,
                      hash': nat, key': Text, value': V, c: map<Text, V>, f: Hash)
    requires Fits(b, hash', key', c, f) && Fits(a, hash, key, Joined(b, key', value', c), f)
    ensures Fits(a, hash, key, b, f) && Fits(Joined(a, key, value, b), hash', key', c, f)
    ensures Joined(Joined(a, key, value, b), key', value', c) == Joined(a, key, value, Joined(b, key', value', c))
  {
    hide Before;
    var r, l := Joined(b, key', value', c), Joined(a, key, value, b);
    assert key' in r && (forall k | k in b || k in c :: k in r);
    forall k | k in l
      ensures Before(f(k), k, hash', key')
    {
      if k in a {
        BeforeOverNode(f(k), k, hash, key, hash', key');
      }
    }
    Apart(a, hash, key, value, r, f);
    Apart(b, hash', key', value', c, f);
    JoinedTwice(a, key, value, b, key', value', c);
  }

  lemma JoinedTwice<V>(a: map<Text, V>, key: Text, value: V, b: map<Text, V>, key': Text, value': V, c: map<Text, V>)
    requires a.Keys !! Joined(b, key', value', c).Keys && key !in Joined(b, key', value', c)
    requires b.Keys !! c.Keys && key' !in b && key' !in c
    ensures Joined(Joined(a, key, value, b), key', value', c) == Joined(a, key, value, Joined(b, key', value', c))
  {
  }
}
