/** The walks over the linked tree, in place: `node_lookup` and `rbtree_insert_value`. */
module LinkedTree {
  import opened Bytes
  import opened Trees

  class Cell<V> {
    const hash: nat
    const key: Text
    const value: V
    var left: Cell?<V>
    var right: Cell?<V>
    var parent: Cell?<V>

    constructor (hash: nat, key: Text, value: V)
      ensures this.hash == hash && this.key == key && this.value == value && left == right == parent == null
    {
      this.hash, this.key, this.value := hash, key, value;
      left, right, parent := null, null, null;
    }
  }

  /** Which cell hangs where; `null` plays the sentinel. */
  datatype Shape<V> = Nil | Fork(left: Shape<V>, cell: Cell<V>, right: Shape<V>)

  ghost function Cells<V>(s: Shape<V>): set<Cell<V>> {
    if s.Nil? then {} else Cells(s.left) + {s.cell} + Cells(s.right)
  }

  ghost predicate Distinct<V>(s: Shape<V>) {
    s.Fork? ==>
      Distinct(s.left) && Distinct(s.right) && s.cell !in Cells(s.left) && s.cell !in Cells(s.right) &&
      Cells(s.left) !! Cells(s.right)
  }

  /** The pointers from `n` on spell the shape `s`. */
  ghost predicate Linked<V>(n: Cell?<V>, s: Shape<V>)
    reads Cells(s)
  {
    if s.Nil? then n == null
    else n == s.cell && Linked(n.left, s.left) && Linked(n.right, s.right)
  }

  /** The tree a shape holds. */
  ghost function TreeOf<V>(s: Shape<V>): Tree<V>
  {
    if s.Nil? then Leaf
    else Node(TreeOf(s.left), s.cell.hash, s.cell.key, s.cell.value, TreeOf(s.right))
  }

  ghost predicate GoesLeft<V>(node: Cell<V>, at: Cell<V>) {
    Before(node.hash, node.key, at.hash, at.key)
  }

  /** The cell under which `node` will hang. */
  ghost function Parent<V>(s: Shape<V>, node: Cell<V>): Cell<V>
    requires s.Fork?
  {
    if GoesLeft(node, s.cell) then
      if s.left.Nil? then s.cell else Parent(s.left, node)
    else
      if s.right.Nil? then s.cell else Parent(s.right, node)
  }

  ghost function Grown<V>(s: Shape<V>, node: Cell<V>): Shape<V> {
    if s.Nil? then Fork(Nil, node, Nil)
    else if GoesLeft(node, s.cell) then s.(left := Grown(s.left, node))
    else s.(right := Grown(s.right, node))
  }

  lemma {:induction false} ParentInside<V>(s: Shape<V>, node: Cell<V>)
    requires s.Fork?
    ensures Parent(s, node) in Cells(s)
  {
    if GoesLeft(node, s.cell) {
      if s.left.Fork? {
        ParentInside(s.left, node);
      }
    } else if s.right.Fork? {
      ParentInside(s.right, node);
    }
  }

  lemma {:induction false} GrownCells<V>(s: Shape<V>, node: Cell<V>)
    requires Distinct(s) && node !in Cells(s)
    ensures Cells(Grown(s, node)) == Cells(s) + {node} && Distinct(Grown(s, node))
  {
    if s.Fork? {
      if GoesLeft(node, s.cell) {
        GrownCells(s.left, node);
      } else {
        GrownCells(s.right, node);
      }
    }
  }

  lemma {:induction false} GrownTree<V>(s: Shape<V>, node: Cell<V>)
    ensures TreeOf(Grown(s, node)) == InsertLeaf(TreeOf(s), node.hash, node.key, node.value)
  {
    if s.Fork? {
      if GoesLeft(node, s.cell) {
        GrownTree(s.left, node);
      } else {
        GrownTree(s.right, node);
      }
    }
  }

  /** The two pointers of every cell. */
  type Links<V> = map<Cell<V>, (Cell?<V>, Cell?<V>)>

  ghost function LinksOf<V>(cells: set<Cell<V>>): Links<V>
    reads cells
  {
    map c | c in cells :: (c.left, c.right)
  }

  ghost predicate Spells<V>(links: Links<V>, n: Cell?<V>, s: Shape<V>) {
    if s.Nil? then n == null
    else n == s.cell && n in links && Spells(links, links[n].0, s.left) && Spells(links, links[n].1, s.right)
  }

  lemma {:induction false} LinkedSpells<V>(cells: set<Cell<V>>, n: Cell?<V>, s: Shape<V>)
    requires Cells(s) <= cells
    ensures Linked(n, s) <==> Spells(LinksOf(cells), n, s)
  {
    if s.Fork? && n == s.cell {
      LinkedSpells(cells, n.left, s.left);
      LinkedSpells(cells, n.right, s.right);
    }
  }

  /** `now` is `was` with `node` hung under `at`. */
  ghost predicate Hung<V>(was: Links<V>, now: Links<V>, at: Cell<V>, node: Cell<V>) {
    at in was && at in now && node in now && now[node] == (null, null) &&
    now[at] == (if GoesLeft(node, at) then (node, was[at].1) else (was[at].0, node)) &&
    forall c | c in was && c != at && c != node :: c in now && now[c] == was[c]
  }

  lemma {:induction false} SpellsElsewhere<V>(was: Links<V>, now: Links<V>, at: Cell<V>, node: Cell<V>,
                                              n: Cell?<V>, s: Shape<V>)
    requires Hung(was, now, at, node) && Spells(was, n, s) && at !in Cells(s) && node !in Cells(s)
    ensures Spells(now, n, s)
  {
    if s.Fork? {
      SpellsElsewhere(was, now, at, node, was[n].0, s.left);
      SpellsElsewhere(was, now, at, node, was[n].1, s.right);
    }
  }

  lemma {:induction false} SpellsGrown<V>(was: Links<V>, now: Links<V>, node: Cell<V>, s: Shape<V>)
    requires s.Fork? && Distinct(s) && node !in Cells(s) && Spells(was, s.cell, s)
    requires Hung(was, now, Parent(s, node), node)
    ensures Spells(now, s.cell, Grown(s, node))
  {
    var at := Parent(s, node);
    ParentInside(s, node);
    if GoesLeft(node, s.cell) {
      if s.left.Fork? {
        ParentInside(s.left, node);
        SpellsGrown(was, now, node, s.left);
      }
      SpellsElsewhere(was, now, at, node, was[s.cell].1, s.right);
    } else {
      if s.right.Fork? {
        ParentInside(s.right, node);
        SpellsGrown(was, now, node, s.right);
      }
      SpellsElsewhere(was, now, at, node, was[s.cell].0, s.left);
    }
  }

  /** Every cell points back to the one above it. */
  ghost predicate Rooted<V>(s: Shape<V>, above: Cell?<V>)
    reads Cells(s)
  {
    s.Fork? ==> s.cell.parent == above && Rooted(s.left, s.cell) && Rooted(s.right, s.cell)
  }

  type Parents<V> = map<Cell<V>, Cell?<V>>

  ghost function ParentsOf<V>(cells: set<Cell<V>>): Parents<V>
    reads cells
  {
    map c | c in cells :: c.parent
  }

  ghost predicate PointsBack<V>(parents: Parents<V>, s: Shape<V>, above: Cell?<V>) {
    s.Fork? ==>
      s.cell in parents && parents[s.cell] == above &&
      PointsBack(parents, s.left, s.cell) && PointsBack(parents, s.right, s.cell)
  }

  lemma {:induction false} RootedPointsBack<V>(cells: set<Cell<V>>, s: Shape<V>, above: Cell?<V>)
    requires Cells(s) <= cells
    ensures Rooted(s, above) <==> PointsBack(ParentsOf(cells), s, above)
  {
    if s.Fork? {
      RootedPointsBack(cells, s.left, s.cell);
      RootedPointsBack(cells, s.right, s.cell);
    }
  }

  /** Parents of a tree that has grown: the new cell points to where it hangs, the others as before. */
  lemma {:induction false} GrownPointsBack<V>(was: Parents<V>, now: Parents<V>, node: Cell<V>, s: Shape<V>,
                                              above: Cell?<V>)
    requires PointsBack(was, s, above) && node in now
    requires forall c | c in Cells(s) :: c in now && c in was && now[c] == was[c]
    requires now[node] == if s.Nil? then above else Parent(s, node)
    ensures PointsBack(now, Grown(s, node), above)
  {
    if s.Fork? {
      if GoesLeft(node, s.cell) {
        GrownPointsBack(was, now, node, s.left, s.cell);
        SamePointsBack(was, now, s.right, s.cell);
      } else {
        GrownPointsBack(was, now, node, s.right, s.cell);
        SamePointsBack(was, now, s.left, s.cell);
      }
    }
  }

  lemma {:induction false} SamePointsBack<V>(was: Parents<V>, now: Parents<V>, s: Shape<V>, above: Cell?<V>)
    requires PointsBack(was, s, above) && forall c | c in Cells(s) :: c in now && c in was && now[c] == was[c]
    ensures PointsBack(now, s, above)
  {
    if s.Fork? {
      SamePointsBack(was, now, s.left, s.cell);
      SamePointsBack(was, now, s.right, s.cell);
    }
  }

  /** The pointers after the write spell the grown tree, down and up. */
  lemma GrownInPlace<V>(was: Links<V>, above: Parents<V>, node: Cell<V>, s: Shape<V>, root: Cell?<V>)
    requires s.Fork? && Distinct(s) && node !in Cells(s) && Spells(was, root, s) && PointsBack(above, s, null)
    requires Hung(was, LinksOf(Cells(s) + {node}), Parent(s, node), node)
    requires node.parent == Parent(s, node)
    requires forall c | c in Cells(s) :: c in above && c.parent == above[c]
    ensures Linked(root, Grown(s, node)) && Rooted(Grown(s, node), null)
  {
    hide Distinct, Rooted, PointsBack, Spells, Hung;
    var cells := Cells(s) + {node};
    GrownCells(s, node);
    SpellsRoot(was, s, root);
    SpellsGrown(was, LinksOf(cells), node, s);
    LinkedSpells(cells, root, Grown(s, node));
    GrownPointsBack(above, ParentsOf(cells), node, s, null);
    RootedPointsBack(cells, Grown(s, node), null);
  }

  lemma SpellsRoot<V>(links: Links<V>, s: Shape<V>, root: Cell?<V>)
    requires s.Fork? && Spells(links, root, s)
    ensures root == s.cell
  {
  }

  class Chain<V> {
    var root: Cell?<V>
    ghost var shape: Shape<V>

    ghost predicate Valid()
      reads this, Cells(shape)
    {
      Distinct(shape) && Linked(root, shape) && Rooted(shape, null)
    }

    constructor ()
      ensures Valid() && shape == Nil
    {
      root, shape := null, Nil;
    }

    /** The cell of a key, found by comparing hashes first and key bytes where they collide. */
    method Lookup(key: Text, hash: nat, ghost f: Hash) returns (found: Cell?<V>)
      requires Valid() && Ordered(TreeOf(shape), f) && hash == f(key)
      ensures found == null <==> key !in ToMap(TreeOf(shape))
      ensures found != null ==>
                found in Cells(shape) && found.key == key && found.value == ToMap(TreeOf(shape))[key]
    {
      var node := root;
      ghost var s := shape;
      while node != null
        invariant Linked(node, s) && Ordered(TreeOf(s), f) && Cells(s) <= Cells(shape)
        invariant key in ToMap(TreeOf(shape)) <==> key in ToMap(TreeOf(s))
        invariant key in ToMap(TreeOf(s)) ==> ToMap(TreeOf(shape))[key] == ToMap(TreeOf(s))[key]
        decreases s
      {
        Side(ToMap(TreeOf(s.left)), node.hash, node.key, node.value, ToMap(TreeOf(s.right)), f, key);
        BeforeIsStrict(hash, key, node.hash, node.key);
        if hash < node.hash {
          node, s := node.left, s.left;
        } else if hash > node.hash {
          node, s := node.right, s.right;
        } else if key == node.key {
          return node;
        } else if LexLess(key, node.key) {
          node, s := node.left, s.left;
        } else {
          node, s := node.right, s.right;
        }
      }
      return null;
    }

    /** `ngx_rbtree_insert` without the rebalancing: an empty tree takes the node as its root. */
    method Insert(node: Cell<V>)
      requires Valid() && node !in Cells(shape)
      modifies this, node, Cells(shape)
      ensures Valid() && shape == Grown(old(shape), node)
      ensures TreeOf(shape) == InsertLeaf(TreeOf(old(shape)), node.hash, node.key, node.value)
    {
      GrownCells(shape, node);
      GrownTree(shape, node);
      if root == null {
        node.left, node.right, node.parent := null, null, null;
        root := node;
      } else {
        InsertValue(root, node);
      }
      shape := Grown(shape, node);
    }

    /** Walk down from `temp` to a free place and hang the node there: one pointer of the tree is written. */
    method InsertValue(temp: Cell<V>, node: Cell<V>)
      requires Valid() && node !in Cells(shape) && temp == root
      modifies node, Cells(shape)
      ensures Linked(root, Grown(shape, node)) && Rooted(Grown(shape, node), null)
      ensures node.parent == Parent(shape, node)
      ensures forall c | c in Cells(shape) :: c.parent == old(ParentsOf(Cells(shape)))[c]
      ensures Hung(old(LinksOf(Cells(shape))), LinksOf(Cells(shape) + {node}), Parent(shape, node), node)
    {
      hide Distinct, Rooted, PointsBack, Spells, LexLess, Grown, Parent, Cells, Linked;
      LinkedSpells(Cells(shape), root, shape);
      RootedPointsBack(Cells(shape), shape, null);
      ghost var was, above := LinksOf(Cells(shape)), ParentsOf(Cells(shape));
      var at, left := FreePlace(temp, node);
      if left {
        at.left := node;
      } else {
        at.right := node;
      }
      node.parent := at;
      node.left := null;
      node.right := null;
      GrownInPlace(was, above, node, shape, root);
    }

    /** The loop of the walk: the cell it ends at, and on which side of it the place is free. */
    method FreePlace(temp: Cell<V>, node: Cell<V>) returns (at: Cell<V>, left: bool)
      requires Valid() && temp == root
      ensures shape.Fork? && at == Parent(shape, node) && at in Cells(shape) && left == GoesLeft(node, at)
      ensures (if left then at.left else at.right) == null
    {
      hide Distinct, Rooted;
      at := temp;
      ghost var s := shape;
      while true
        invariant s.Fork? && Linked(at, s) && Cells(s) <= Cells(shape) && Parent(shape, node) == Parent(s, node)
        decreases s
      {
        if node.hash < at.hash {
          left := true;
        } else if node.hash > at.hash {
          left := false;
        } else {
          left := LexLess(node.key, at.key);
        }
        var next := if left then at.left else at.right;
        if next == null {
          break;
        }
        at := next;
        s := if left then s.left else s.right;
      }
    }
  }
}
