/**
  The persistent B-tree map: the operations rewrite the nodes of the pool in
  place, walking down with preemptive splits and repairing deficient nodes.
 */
module PersistentBTree {
  import opened BTreeShape
  import opened BTreeEdits
  import opened BTreePool
  import opened BTreeRepair
  import opened BTreeRemoval

  class BTreeMap {
    var pool: Pool
    var root: nat
    /** The tree the pool represents, and its height; none while the root id is null. */
    ghost var tree: Tree
    ghost var height: nat

    ghost predicate Valid()
      reads this
    {
      root != 0 ==>
        && tree.oid == root && Sound(pool, tree, height) && WellFormed(tree, height)
    }

    /** The stored items, in key order. */
    ghost function Contents(): seq<Item>
      reads this
    {
      if root == 0 then [] else InOrder(tree)
    }

    /** The objects of the pool that cannot be reached from the root. */
    ghost function Unlinked(): set<nat>
      reads this
    {
      if root == 0 then pool.Keys else Spare(pool, tree)
    }

    constructor ()
      ensures Valid() && Contents() == [] && Unlinked() == {}
    {
      pool, root := map[], 0;
    }

    /** TX_ZNEW: a zeroed node under an unused, non-null id. */
    method ZNew() returns (oid: nat)
      modifies `pool
      ensures oid != 0 && oid !in old(pool)
      ensures pool == old(pool)[oid := Node(0, seq(ORDER - 1, _ => EMPTY_ITEM), seq(ORDER, _ => 0))]
    {
      oid := 1;
      ghost var above := pool.Keys;
      while oid in pool
        invariant oid != 0
        invariant forall o :: o in pool && oid <= o ==> o in above
        invariant above <= pool.Keys
        decreases above
      {
        above := above - {oid};
        oid := oid + 1;
      }
      pool := pool[oid := Node(0, seq(ORDER - 1, _ => EMPTY_ITEM), seq(ORDER, _ => 0))];
    }

    // ---------- insertion ----------

    method InsertItemAt(node: nat, pos: nat, item: Item)
      requires node in pool && Cells(pool[node]) && pos < ORDER - 1
      modifies `pool
      ensures
        var nd := old(pool)[node];
        pool == old(pool)[node := Node(nd.n + 1, nd.items[pos := item], nd.slots)]
    {
      pool := pool[node := pool[node].(items := pool[node].items[pos := item])];
      pool := pool[node := pool[node].(n := pool[node].n + 1)];
    }

    method InsertNode(node: nat, p: nat, item: Item, left: nat, right: nat)
      requires node in pool && Cells(pool[node]) && p <= pool[node].n < ORDER - 1
      modifies `pool
      ensures pool == old(pool)[node := NodeWithSplit(old(pool)[node], p, item, left, right)]
    {
      if pool[node].items[p].key != 0 {
        var nd := pool[node];
        pool := pool[node := nd.(items := Moved(nd.items, p + 1, nd.items, p, ORDER - 2 - p))];
        pool := pool[node := pool[node].(slots := Moved(nd.slots, p + 1, nd.slots, p, ORDER - 1 - p))];
      }
      pool := pool[node := pool[node].(slots := pool[node].slots[p := left])];
      pool := pool[node := pool[node].(slots := pool[node].slots[p + 1 := right])];
      InsertItemAt(node, p, item);
    }

    method InsertItem(node: nat, p: nat, item: Item)
      requires node in pool && Cells(pool[node]) && p <= pool[node].n < ORDER - 1
      modifies `pool
      ensures pool == old(pool)[node := NodeWithItem(old(pool)[node], p, item)]
    {
      if pool[node].items[p].key != 0 {
        var nd := pool[node];
        pool := pool[node := nd.(items := Moved(nd.items, p + 1, nd.items, p, ORDER - 2 - p))];
      }
      InsertItemAt(node, p, item);
    }

    /** Splits a full node: the upper half moves to a new node, the median is handed out. */
    method CreateSplitNode(node: nat, ghost c: Tree) returns (right: nat, m: Item)
      requires Represents(pool, c) && Distinct(c) && node == c.oid && |c.items| == ORDER - 1
      modifies `pool
      ensures right != 0 && right !in old(pool) && pool.Keys == old(pool).Keys + {right}
      ensures forall o :: o in old(pool) && o != node ==> pool[o] == old(pool)[o]
      ensures m == c.items[3]
      ensures c.kids == [] || |c.kids| == ORDER
      ensures Represents(pool, LeftHalf(c)) && Represents(pool, RightHalf(c, right))
    {
      right := ZNew();
      var nd, rn;
      nd, rn, m := SplitCells(pool[node], pool[right]);
      pool := pool[right := rn][node := nd];
      SplitStores(old(pool)[node], nd, rn, c, right);
      RepresentedInPool(old(pool), c);
      FrameKids(old(pool), pool, c.kids);
    }

    /** Splits kid p of `parent` and links both halves in the parent. */
    method SplitAndLink(n: nat, parent: nat, p: nat, ghost t: Tree) returns (right: nat, m: Item)
      requires Represents(pool, t) && Distinct(t) && t.oid == parent
      requires p < |t.kids| && |t.items| < ORDER - 1 && (p < |t.items| ==> t.items[p].key != 0)
      requires t.kids[p].oid == n && |t.kids[p].items| == ORDER - 1
      modifies `pool
      ensures right !in old(pool) && pool.Keys == old(pool).Keys + {right}
      ensures m == t.kids[p].items[3]
      ensures t.kids[p].kids == [] || |t.kids[p].kids| == ORDER
      ensures Represents(pool, WithSplit(t, p, LeftHalf(t.kids[p]), m, RightHalf(t.kids[p], right)))
      ensures forall o :: o in old(pool) && o != n && o != parent ==> pool[o] == old(pool)[o]
    {
      RepresentedInPool(pool, t);
      SplitTreeOids(t, p, pool.Keys);
      assert t.kids[p] in t.kids;
      right, m := CreateSplitNode(n, t.kids[p]);
      ghost var mid := pool;
      InsertNode(parent, p, m, n, right);
      SplitLinked(old(pool), mid, pool, t, p, right);
    }

    /** The tree stored under `parent` takes up the two halves of its full kid p; `next` is the half to go on in. */
    method SplitKid(n: nat, parent: nat, p: nat, key: nat, ghost t: Tree, ghost h: nat)
      returns (next: nat, ghost t': Tree, ghost q: nat)
      requires Sound(pool, t, h) && Sorted(InOrder(t))
      requires h > 0 && t.oid == parent && |t.items| < ORDER - 1
      requires Fits(t, p, key) && (p < |t.items| ==> t.items[p].key != 0)
      requires t.kids[p].oid == n && |t.kids[p].items| == ORDER - 1
      modifies `pool
      ensures Sound(pool, t', h) && InOrder(t') == InOrder(t)
      ensures t'.oid == parent && |t.items| <= |t'.items|
      ensures Fits(t', q, key) && t'.kids[q].oid == next && |t'.kids[q].items| < ORDER - 1
      ensures Sorted(InOrder(t'.kids[q]))
      ensures Within(old(pool), pool, t, t')
    {
      ghost var c := t.kids[p];
      var right, m := SplitAndLink(n, parent, p, t);
      SplitKidFacts(old(pool), pool, t, p, right, key, h);
      next := if key > m.key then right else n;
      t', q := WithSplit(t, p, LeftHalf(c), m, RightHalf(c, right)), if key > m.key then p + 1 else p;
    }

    /** The tree grows: a new root takes up the two halves of the full old one. */
    method SplitRoot(n: nat, ghost t: Tree, ghost h: nat) returns (up: nat, ghost t': Tree)
      requires Sound(pool, t, h) && t.oid == n && |t.items| == ORDER - 1
      modifies `pool, `root
      ensures root == up == t'.oid && |t'.items| == 1
      ensures Sound(pool, t', h + 1) && InOrder(t') == InOrder(t)
      ensures Within(old(pool), pool, t, t')
    {
      RepresentedInPool(pool, t);
      var right, m := CreateSplitNode(n, t);
      ghost var mid := pool;
      up := NewRoot(m, n, right);
      t' := Tree(up, [m], [LeftHalf(t), RightHalf(t, right)]);
      NewRootFacts(mid, pool, t, h, right, up);
    }

    /** A new root with one item and two kids. */
    method NewRoot(m: Item, left: nat, right: nat) returns (up: nat)
      modifies `pool, `root
      ensures up != 0 && up !in old(pool) && root == up
      ensures up in pool && pool == old(pool)[up := pool[up]]
      ensures Cells(pool[up]) && pool[up].n == 1 && pool[up].items[..1] == [m]
      ensures pool[up].slots[0] == left && pool[up].slots[1] == right
    {
      up := ZNew();
      pool := pool[up := pool[up].(n := 1)];
      pool := pool[up := pool[up].(items := pool[up].items[0 := m])];
      pool := pool[up := pool[up].(slots := pool[up].slots[0 := left])];
      pool := pool[up := pool[up].(slots := pool[up].slots[1 := right])];
      root := up;
    }

    /** The first half of the descent step: a full node is split before it is entered. */
    method MakeRoom(n: nat, parent: nat, key: nat, p: nat, ghost t: Tree, ghost h: nat)
      returns (cur: nat, ghost t': Tree, ghost h': nat, ghost q: nat)
      requires Sound(pool, t, h) && Sorted(InOrder(t))
      requires AtNode(t, h, n, parent, key, p) && (parent == 0 ==> root == n)
      modifies `pool, `root
      ensures Sound(pool, t', h') && InOrder(t') == InOrder(t)
      ensures parent == 0 ==>
        && root == t'.oid == cur && |t'.items| < ORDER - 1 && h <= h' <= h + 1
        && (t.items != [] ==> t'.items != [])
      ensures parent != 0 ==>
        && root == old(root) && t'.oid == parent && h' == h && |t.items| <= |t'.items|
        && Fits(t', q, key) && t'.kids[q].oid == cur && |t'.kids[q].items| < ORDER - 1
        && Sorted(InOrder(t'.kids[q]))
      ensures Within(old(pool), pool, t, t')
    {
      cur, t', h', q := n, t, h, p;
      if parent != 0 {
        assert t.kids[p] in t.kids && Represents(pool, t.kids[p]);
        InOrderAround(t, p);
        SortedMiddle(Left(t.items[..p], t.kids[..p]), InOrder(t.kids[p]), Right(t.items[p..], t.kids[p+1..]));
      }
      if pool[n].n == ORDER - 1 {
        if parent != 0 {
          cur, t', q := SplitKid(n, parent, p, key, t, h);
        } else {
          cur, t' := SplitRoot(n, t, h);
          h' := h + 1;
        }
      }
    }

    /**
      Walks from node n down to the leaf for `key`, splitting every full node on
      the way. With a parent, t is the parent's tree and n its kid p; without
      one, t is the whole tree.
     */
    method FindDest(n: nat, parent: nat, key: nat, p: nat, ghost t: Tree, ghost h: nat)
      returns (dest: nat, pos: nat, ghost t': Tree, ghost h': nat, ghost path: seq<nat>)
      requires Sound(pool, t, h) && Sorted(InOrder(t))
      requires AtNode(t, h, n, parent, key, p) && (parent == 0 ==> root == n)
      modifies `pool, `root
      ensures Sound(pool, t', h') && InOrder(t') == InOrder(t)
      ensures if parent == 0 then root == t'.oid && h <= h' <= h + 1 && (t.items != [] ==> t'.items != [])
              else root == old(root) && t'.oid == parent && h' == h && |t.items| <= |t'.items|
      ensures Reached(t', path, pos, dest, key)
      ensures Within(old(pool), pool, t, t')
      decreases if parent == 0 then 1 else 0, h, 0
    {
      var cur;
      ghost var q, t1;
      cur, t1, h', q := MakeRoom(n, parent, key, p, t, h);
      ghost var pool1 := pool;
      if parent == 0 {
        dest, pos, t', path := FindBelow(cur, key, t1, h');
        WithinTrans(old(pool), pool1, pool, t, t1, t');
      } else {
        EnteredNodeSound(pool, t1, h', q);
        ghost var k;
        dest, pos, k, path := FindBelow(cur, key, t1.kids[q], h' - 1);
        t' := ReplaceKid(t1, q, k);
        path := [q] + path;
        RejoinParent(pool1, pool, t1, h', q, k, path, pos, dest, key);
        WithinTrans(old(pool), pool1, pool, t, t1, t');
      }
    }

    /** The second half of the descent step: search the node, then stop at a leaf or go down. */
    method FindBelow(cur: nat, key: nat, ghost t: Tree, ghost h: nat)
      returns (dest: nat, pos: nat, ghost t': Tree, ghost path: seq<nat>)
      requires Sound(pool, t, h) && Sorted(InOrder(t)) && t.oid == cur && |t.items| < ORDER - 1
      modifies `pool, `root
      ensures Sound(pool, t', h) && InOrder(t') == InOrder(t) && t'.oid == cur && |t.items| <= |t'.items|
      ensures root == old(root)
      ensures Reached(t', path, pos, dest, key)
      ensures Within(old(pool), pool, t, t')
      decreases 0, h, 1
    {
      var i := SearchCells(pool[cur], key);
      if i < ORDER - 1 {
        if pool[cur].slots[i] == 0 {
          dest, pos, path, t' := cur, i, [], t;
          LeafReached(pool, t, i, key);
        } else {
          SearchFits(pool, t, i, key);
          ghost var h';
          assert t.kids != [];
          dest, pos, t', h', path := FindDest(pool[cur].slots[i], cur, key, i, t, h);
        }
      } else {
        // The call after the loop: a node that is entered has room, so the loop has returned.
        assert false;
      }
    }

    method IsEmpty() returns (empty: bool)
      requires Valid()
      ensures empty <==> Contents() == []
    {
      empty := root == 0 || pool[root].n == 0;
      if root != 0 && tree.items != [] { RootItemsListed(tree, height); }
    }

    /**
      Inserts a pair: the contents gain exactly that item, and stay in key order.
      All new objects are used; only the empty root of an emptied map is lost.
     */
    method Insert(key: nat, value: nat) returns (ghost at: nat)
      requires Valid()
      modifies this
      ensures Valid() && root != 0
      ensures at <= |old(Contents())|
      ensures Contents() == old(Contents())[..at] + [Item(key, value)] + old(Contents())[at..]
      ensures Unlinked() == old(Unlinked()) + if old(root) != 0 && old(Contents()) == [] then {old(root)} else {}
    {
      var item := Item(key, value);
      var empty := IsEmpty();
      if empty {
        root := ZNew();
        InsertItemAt(root, 0, item);
        tree, height, at := Tree(root, [item], []), 0, 0;
        SingleItemTree(pool, root, item);
        if old(root) != 0 { EmptyTreeOids(old(pool), old(tree), old(height)); }
      } else {
        at := InsertInTree(item);
      }
    }

    /** The same for a map that is not empty. */
    method InsertInTree(item: Item) returns (ghost at: nat)
      requires Valid() && Contents() != []
      modifies this
      ensures Valid() && root != 0
      ensures at <= |old(Contents())|
      ensures Contents() == old(Contents())[..at] + [item] + old(Contents())[at..]
      ensures Unlinked() == old(Unlinked())
    {
      ghost var path, t, h;
      var dest, p;
      dest, p, t, h, path := FindDest(root, 0, item.key, 0, tree, height);
      InsertIsGood(pool, t, h, path, p, dest, item);
      InsertItem(dest, p, item);
      tree, height, at := InsertAt(t, path, p, item), h, |Before(t, path, p)|;
    }

    /** 1 exactly when some stored item below t has the key. */
    method LookupInNode(node: nat, key: nat, ghost t: Tree, ghost h: nat) returns (r: int)
      requires Represents(pool, t) && Balanced(t, h) && Sorted(InOrder(t)) && t.oid == node
      ensures r == if HasKey(InOrder(t), key) then 1 else 0
      decreases h
    {
      var i := 0;
      while i <= pool[node].n
        invariant 0 <= i <= pool[node].n + 1
        invariant i == pool[node].n + 1 ==> t.kids == []
        invariant forall j :: 0 <= j < i && j < pool[node].n ==> t.items[j].key != key
        invariant t.kids != [] ==> forall j :: 0 <= j < i ==> t.items[j].key < key
      {
        if i != pool[node].n && pool[node].items[i].key == key {
          ItemListed(t, i);
          return 1;
        } else if (i == pool[node].n || pool[node].items[i].key > key) && pool[node].slots[i] != 0 {
          OnlyKidHasKey(t, i, key);
          assert t.kids[i] in t.kids;
          r := LookupInNode(pool[node].slots[i], key, t.kids[i], h - 1);
          return;
        }
        assert t.kids != [] ==> t.kids[i] in t.kids && t.kids[i].oid != 0;
        i := i + 1;
      }
      return 0;
    }

    /** The value of some stored item with the key, or the null id (0) when there is none. */
    method GetInNode(node: nat, key: nat, ghost t: Tree, ghost h: nat) returns (value: nat)
      requires Represents(pool, t) && Balanced(t, h) && Sorted(InOrder(t)) && t.oid == node
      ensures if HasKey(InOrder(t), key) then Item(key, value) in InOrder(t) else value == 0
      decreases h
    {
      var i := 0;
      while i <= pool[node].n
        invariant 0 <= i <= pool[node].n + 1
        invariant i == pool[node].n + 1 ==> t.kids == []
        invariant forall j :: 0 <= j < i && j < pool[node].n ==> t.items[j].key != key
        invariant t.kids != [] ==> forall j :: 0 <= j < i ==> t.items[j].key < key
      {
        if i != pool[node].n && pool[node].items[i].key == key {
          ItemListed(t, i);
          return pool[node].items[i].value;
        } else if (i == pool[node].n || pool[node].items[i].key > key) && pool[node].slots[i] != 0 {
          OnlyKidHasKey(t, i, key);
          assert t.kids[i] in t.kids;
          value := GetInNode(pool[node].slots[i], key, t.kids[i], h - 1);
          return;
        }
        assert t.kids != [] ==> t.kids[i] in t.kids && t.kids[i].oid != 0;
        i := i + 1;
      }
      return 0;
    }

    method Lookup(key: nat) returns (r: int)
      requires Valid()
      ensures r == if HasKey(Contents(), key) then 1 else 0
    {
      if root == 0 { return 0; }
      r := LookupInNode(root, key, tree, height);
    }

    method Get(key: nat) returns (value: nat)
      requires Valid()
      ensures if HasKey(Contents(), key) then Item(key, value) in Contents() else value == 0
    {
      if root == 0 { return 0; }
      value := GetInNode(root, key, tree, height);
    }

    // ---------- repairing a deficient node ----------

    /** Node takes the separator; the first item of its right neighbour becomes the separator. */
    method RotateRight(rsb: nat, node: nat, parent: nat, p: nat)
      requires {rsb, node, parent} <= pool.Keys && rsb != node && rsb != parent && node != parent
      requires Cells(pool[rsb]) && Cells(pool[node]) && Cells(pool[parent])
      requires p < pool[parent].n && pool[node].n < ORDER - 1 && 0 < pool[rsb].n
      modifies `pool
      ensures
        var np, nr := old(pool)[parent], old(pool)[rsb];
        RewiredTo(old(pool), pool, parent, ParentWith(np, p, nr.items[0]),
                  node, NodeWithLast(old(pool)[node], np.items[p], nr.slots[0]), rsb, NodeWithoutFirst(nr))
    {
      var sep := pool[parent].items[p];
      InsertItem(node, pool[node].n, sep);
      pool := pool[parent := ParentWith(pool[parent], p, pool[rsb].items[0])];
      pool := pool[node := pool[node].(slots := pool[node].slots[pool[node].n := pool[rsb].slots[0]])];
      var rn := pool[rsb];
      rn := rn.(n := rn.n - 1);
      rn := rn.(items := Moved(rn.items, 0, rn.items, 1, rn.n));
      rn := rn.(slots := Moved(rn.slots, 0, rn.slots, 1, rn.n + 1));
      pool := pool[rsb := rn];
    }

    /** Node takes the separator at the front; the last item of its left neighbour becomes the separator. */
    method RotateLeft(lsb: nat, node: nat, parent: nat, p: nat)
      requires {lsb, node, parent} <= pool.Keys && lsb != node && lsb != parent && node != parent
      requires Cells(pool[lsb]) && Cells(pool[node]) && Cells(pool[parent])
      requires 0 < p <= pool[parent].n && pool[node].n < ORDER - 1 && 0 < pool[lsb].n
      modifies `pool
      ensures
        var nl, np := old(pool)[lsb], old(pool)[parent];
        RewiredTo(old(pool), pool, parent, ParentWith(np, p - 1, nl.items[nl.n - 1]),
                  node, NodeWithFirst(old(pool)[node], np.items[p - 1], nl.slots[nl.n]), lsb, nl.(n := nl.n - 1))
    {
      var sep := pool[parent].items[p - 1];
      InsertItem(node, 0, sep);
      pool := pool[parent := ParentWith(pool[parent], p - 1, pool[lsb].items[pool[lsb].n - 1])];
      pool := pool[node := pool[node].(slots := Moved(pool[node].slots, 1, pool[node].slots, 0, pool[node].n))];
      pool := pool[node := pool[node].(slots := pool[node].slots[0 := pool[lsb].slots[pool[lsb].n]])];
      pool := pool[lsb := pool[lsb].(n := pool[lsb].n - 1)];
    }

    /** Appends the separator and then all of rn. */
    static method MergeCells(node: Node, sep: Item, rn: Node) returns (nd: Node)
      requires Cells(node) && Cells(rn) && node.n + 1 + rn.n <= ORDER - 1
      ensures nd == NodeMerged(node, sep, rn)
    {
      nd := node.(items := node.items[node.n := sep], n := node.n + 1);
      nd := nd.(items := Moved(nd.items, nd.n, rn.items, 0, rn.n));
      nd := nd.(slots := Moved(nd.slots, nd.n, rn.slots, 0, rn.n + 1));
      nd := nd.(n := nd.n + rn.n);
    }

    /** Closes the gap of the item at p and of the slot after it. */
    static method CloseUpCells(parent: Node, p: nat) returns (pn: Node)
      requires Cells(parent) && p < parent.n
      ensures pn == NodeClosedUp(parent, p)
    {
      pn := parent.(n := parent.n - 1);
      pn := pn.(items := Moved(pn.items, p, pn.items, p + 1, pn.n - p));
      pn := pn.(slots := Moved(pn.slots, p + 1, pn.slots, p + 2, pn.n - p));
    }

    /** Node takes over the separator and all of its right neighbour; an emptied root gives way to the node. */
    method Merge(rn: nat, node: nat, parent: nat, p: nat)
      requires {rn, node, parent} <= pool.Keys && rn != node && rn != parent && node != parent
      requires Cells(pool[rn]) && Cells(pool[node]) && Cells(pool[parent])
      requires p < pool[parent].n && pool[node].n + 1 + pool[rn].n <= ORDER - 1
      modifies `pool, `root
      ensures old(pool)[parent].n == 1 && parent == old(root) ==>
        pool == Freed(MergedPool(old(pool), rn, node, parent, p), parent) && root == node
      ensures old(pool)[parent].n != 1 || parent != old(root) ==>
        pool == MergedPool(old(pool), rn, node, parent, p) && root == old(root)
    {
      var sep := pool[parent].items[p];
      var nd := MergeCells(pool[node], sep, pool[rn]);
      pool := pool[node := nd];
      pool := pool - {rn};
      var pn := CloseUpCells(pool[parent], p);
      pool := pool[parent := pn];
      assert pool == MergedPool(old(pool), rn, node, parent, p) && pn.n == old(pool)[parent].n - 1;
      if pool[parent].n == 0 && parent == root {
        pool := Freed(pool, parent);
        root := node;
        assert pool == Freed(MergedPool(old(pool), rn, node, parent, p), parent);
      }
    }

    method RepairFromRight(rsb: nat, node: nat, parent: nat, p: nat, ghost t: Tree, ghost h: nat)
      requires Represents(pool, t) && Distinct(t) && Deficient(t, p, h) && TakesFromRight(t, p)
      requires t.oid == parent && t.kids[p].oid == node && t.kids[p+1].oid == rsb
      modifies `pool
      ensures RepairDone(old(pool), root, pool, root, t, p, h, RotatedRight(t, p))
    {
      RepairCells(pool, t, p, h);
      RotateRight(rsb, node, parent, p);
      AfterRotateRight(old(pool), root, pool, t, p, h);
    }

    method RepairFromLeft(lsb: nat, node: nat, parent: nat, p: nat, ghost t: Tree, ghost h: nat)
      returns (ghost t': Tree)
      requires Represents(pool, t) && Distinct(t) && Deficient(t, p, h) && TakesFromLeft(t, p)
      requires t.oid == parent && t.kids[p].oid == node && t.kids[p-1].oid == lsb
      modifies `pool
      ensures RepairDone(old(pool), root, pool, root, t, p, h, t')
    {
      RepairCells(pool, t, p - 1, h);
      t' := RotatedLeft(t, p, TakenRest(pool[node], t.kids[p]));
      RotateLeft(lsb, node, parent, p);
      AfterRotateLeft(old(pool), root, pool, t, p, h);
    }

    /** Merges kids p and p + 1, q being the deficient one of them. */
    method RepairByMerge(rn: nat, node: nat, parent: nat, p: nat, ghost q: nat, ghost t: Tree, ghost h: nat)
      requires Represents(pool, t) && Distinct(t) && Deficient(t, q, h) && Shrinks(t, q)
      requires (p == q || (p + 1 == q == |t.items|)) && p < |t.items|
      requires |t.kids[p].items| + |t.kids[p+1].items| <= 2 * MIN_KEYS - 1
      requires t.oid == parent && t.kids[p].oid == node && t.kids[p+1].oid == rn
      modifies `pool, `root
      ensures RepairDone(old(pool), old(root), pool, root, t, q, h, Merged(t, p))
    {
      RepairCells(pool, t, p, h);
      Merge(rn, node, parent, p);
      AfterMerge(old(pool), old(root), pool, root, t, p, q, h);
    }

    /** Brings kid p back to the minimum: takes an item from a neighbour that can spare one, or merges. */
    method Rebalance(node: nat, parent: nat, p: nat, ghost t: Tree, ghost h: nat) returns (ghost t': Tree)
      requires Represents(pool, t) && Distinct(t) && Deficient(t, p, h)
      requires t.oid == parent && t.kids[p].oid == node
      modifies `pool, `root
      ensures RepairDone(old(pool), old(root), pool, root, t, p, h, t')
    {
      KidOidsInside(pool, t, p, h);
      var rsb := if p >= pool[parent].n then 0 else pool[parent].slots[p + 1];
      var lsb := if p == 0 then 0 else pool[parent].slots[p - 1];
      if rsb != 0 && pool[rsb].n > MIN_KEYS {
        t' := RotatedRight(t, p);
        RepairFromRight(rsb, node, parent, p, t, h);
      } else if lsb != 0 && pool[lsb].n > MIN_KEYS {
        t' := RepairFromLeft(lsb, node, parent, p, t, h);
      } else if rsb == 0 {
        t' := Merged(t, p - 1);
        RepairByMerge(node, lsb, parent, p - 1, p, t, h);
      } else {
        t' := Merged(t, p);
        RepairByMerge(rsb, node, parent, p, p, t, h);
      }
    }

    /** Repairs kid p of t if it is one item short. */
    method RebalanceIfDeficient(node: nat, parent: nat, p: nat, ghost t: Tree, ghost h: nat) returns (ghost t': Tree)
      requires MayNeedRepair(pool, t, p, h) && t.oid == parent && t.kids[p].oid == node
      modifies `pool, `root
      ensures Replaced(old(pool), old(root), pool, root, t, t') && RepairedIfNeeded(t, t', p, h)
      ensures MIN_KEYS <= |t.kids[p].items| ==> pool == old(pool) && root == old(root)
    {
      assert t.kids[p] in t.kids && Represents(pool, t.kids[p]);
      t' := t;
      if pool[node].n < MIN_KEYS {
        ZeroOnceNeverClobbers(t, p, h);
        t' := Rebalance(node, parent, p, t, h);
      }
    }

    // ---------- removing ----------

    /** A leaf loses the item at p. */
    method RemoveFromLeaf(node: nat, p: nat)
      requires node in pool && Cells(pool[node]) && p < pool[node].n
      modifies `pool
      ensures pool == old(pool)[node := CellRemoved(old(pool)[node], p)]
    {
      var nd := pool[node];
      if nd.n == 1 || p == ORDER - 2 {
        nd := nd.(items := nd.items[p := EMPTY_ITEM]);
      } else {
        nd := nd.(items := Moved(nd.items, p, nd.items, p + 1, nd.n - 1 - p));
      }
      nd := nd.(n := nd.n - 1);
      pool := pool[node := nd];
    }

    /** The first leaf below n and its parent, which is p if n is that leaf. */
    method GetLeftmostLeaf(n: nat, p: nat, ghost c: Tree, ghost h: nat) returns (lm: nat, lp: nat)
      requires Represents(pool, c) && Balanced(c, h) && c.oid == n
      ensures if h == 0 then lm == n && lp == p
              else lp == LeafParent(c, h).oid && LeafParent(c, h).kids != [] && lm == LeafParent(c, h).kids[0].oid
      decreases h
    {
      assert h > 0 ==> c.kids[0] in c.kids;
      if pool[n].slots[0] == 0 { return n, p; }
      lm, lp := GetLeftmostLeaf(pool[n].slots[0], n, c.kids[0], h - 1);
    }

    /** The item at p of an inner node gives way to the first item of the leaf that is the next kid. */
    method RemoveWithKid(node: nat, p: nat, lm: nat, key: nat, ghost t: Tree) returns (ghost t': Tree, ghost at: nat)
      requires Removable(pool, root, t, 1) && t.oid == node && p < |t.items| && lm == t.kids[p+1].oid
      requires p == Spot(t.items, key) && t.items[p].key == key
      modifies `pool, `root
      ensures Outcome(t, t', 1, key) && Lost(t, t', key, t.items[p].value, true, at)
      ensures Replaced(old(pool), old(root), pool, root, t, t')
    {
      TakenFromKidReady(pool, root, t, p);
      MoveUpFirst(node, p, lm);
      ghost var mid := pool;
      t' := RebalanceIfDeficient(lm, node, p + 1, TakenFromKid(t, p), 1);
      at := TakenFromKidDone(t, p, t', key);
      ReplacedVia(old(pool), mid, pool, old(root), root, t, TakenFromKid(t, p), t');
    }

    /** The first item of a leaf becomes the item at p of a node. */
    method MoveUpFirst(node: nat, p: nat, lm: nat)
      requires node in pool && lm in pool && Cells(pool[node]) && p < pool[node].n && Cells(pool[lm]) && 0 < pool[lm].n
      requires node != lm
      modifies `pool
      ensures pool == SuccessorPool(old(pool), node, p, lm)
    {
      pool := pool[node := ParentWith(pool[node], p, pool[lm].items[0])];
      RemoveFromLeaf(lm, 0);
    }

    /** The item at p of an inner node gives way to the first item of a leaf further down. */
    method RemoveWithLeaf(node: nat, p: nat, lm: nat, lp: nat, key: nat, ghost t: Tree, ghost h: nat)
      returns (ghost t': Tree, ghost at: nat)
      requires Removable(pool, root, t, h) && 1 < h && t.oid == node && p < |t.items|
      requires Balanced(t.kids[p+1], h - 1) && lp == LeafParent(t.kids[p+1], h - 1).oid
      requires LeafParent(t.kids[p+1], h - 1).kids != [] && lm == LeafParent(t.kids[p+1], h - 1).kids[0].oid
      requires p == Spot(t.items, key) && t.items[p].key == key
      modifies `pool, `root
      ensures Outcome(t, t', h, key) && Lost(t, t', key, t.items[p].value, true, at)
      ensures Replaced(old(pool), old(root), pool, root, t, t')
    {
      ghost var edge := LeafParent(t.kids[p+1], h - 1);
      EdgeReady(pool, root, t, p, h);
      MoveUpFirst(node, p, lm);
      ghost var u := RebalanceIfDeficient(lm, lp, 0, FirstDropped(edge, 0), 1);
      at := EdgeDone(old(pool), pool, root, t, p, h, u, key);
      t' := EdgeResult(t, p, h, u);
    }

    /** Removes the item at p of a node. */
    method RemoveFromNode(node: nat, p: nat, key: nat, ghost t: Tree, ghost h: nat)
      returns (ghost t': Tree, ghost at: nat)
      requires Removable(pool, root, t, h) && t.oid == node && p < |t.items|
      requires p == Spot(t.items, key) && t.items[p].key == key
      modifies `pool, `root
      ensures Outcome(t, t', h, key) && Lost(t, t', key, t.items[p].value, true, at)
      ensures Replaced(old(pool), old(root), pool, root, t, t')
    {
      assert h > 0 ==> t.kids[0] in t.kids && t.kids[p+1] in t.kids && Represents(pool, t.kids[0]);
      if pool[node].slots[0] == 0 {
        CellRemovedStores(pool[node], t, p);
        RemoveFromLeaf(node, p);
        LeafOutcome(t, p, key);
        t', at := WithoutItem(t, p), p;
      } else {
        var rchild := pool[node].slots[p + 1];
        var lm, lp := GetLeftmostLeaf(rchild, node, t.kids[p+1], h - 1);
        if h > 1 { EdgeDropped(pool, root, t, p, h); }
        if lp == node {
          t', at := RemoveWithKid(node, p, lm, key, t);
        } else {
          t', at := RemoveWithLeaf(node, p, lm, lp, key, t, h);
        }
      }
    }

    /** The recursive call: removes the key below kid i of t, and repairs the kid if that leaves it one item short. */
    method RemoveFromKid(node: nat, parent: nat, key: nat, i: nat, ghost t: Tree, ghost h: nat)
      returns (value: nat, ghost t': Tree, ghost found: bool, ghost at: nat)
      requires Removable(pool, root, t, h) && 0 < h && t.oid == parent && i < |t.kids| && t.kids[i].oid == node
      requires forall j :: 0 <= j < i ==> t.items[j].key < key
      requires i < |t.items| ==> t.items[i].key > key
      modifies `pool, `root
      ensures Outcome(t, t', h, key) && Lost(t, t', key, value, found, at)
      ensures Replaced(old(pool), old(root), pool, root, t, t')
      ensures !found ==> pool == old(pool) && root == old(root)
      decreases h, 0
    {
      KidRemovable(pool, root, t, h, i);
      SpotIs(t.items, key, i);
      ghost var c;
      value, c, found, at := RemoveItem(node, key, t.kids[i], h - 1);
      if found {
        KidRemoved(old(pool), pool, root, t, i, c, h, key, value, at);
      } else {
        KidWithout(t, i, h, key);
      }
      ghost var mid := pool;
      t' := RebalanceIfDeficient(node, parent, i, if found then ReplaceKid(t, i, c) else t, h);
      if found {
        at := KidDone(t, i, c, t', h, key, value, at);
        ReplacedVia(old(pool), mid, pool, old(root), root, t, ReplaceKid(t, i, c), t');
      }
    }

    /** The search for the key, down to the node that has it. */
    method RemoveItem(node: nat, key: nat, ghost t: Tree, ghost h: nat)
      returns (value: nat, ghost t': Tree, ghost found: bool, ghost at: nat)
      requires Removable(pool, root, t, h) && t.oid == node
      modifies `pool, `root
      ensures Outcome(t, t', h, key) && Lost(t, t', key, value, found, at)
      ensures Replaced(old(pool), old(root), pool, root, t, t')
      ensures !found ==> pool == old(pool) && root == old(root)
      decreases h, 1
    {
      value, t', found, at := 0, t, false, 0;
      var i := 0;
      while i <= pool[node].n
        invariant pool == old(pool) && root == old(root)
        invariant 0 <= i <= pool[node].n + 1
        invariant i == pool[node].n + 1 ==> t.kids == []
        invariant forall j :: 0 <= j < i && j < pool[node].n ==> t.items[j].key != key
        invariant t.kids != [] ==> forall j :: 0 <= j < i ==> t.items[j].key < key
      {
        assert Represents(pool, t);
        if i != pool[node].n && pool[node].items[i].key == key {
          FoundSpot(t, i, key);
          value, found := pool[node].items[i].value, true;
          t', at := RemoveFromNode(node, i, key, t, h);
          return;
        } else if (i == pool[node].n || pool[node].items[i].key > key) && pool[node].slots[i] != 0 {
          assert t.kids[i].oid == pool[node].slots[i];
          value, t', found, at := RemoveFromKid(pool[node].slots[i], node, key, i, t, h);
          return;
        }
        assert t.kids != [] ==> t.kids[i] in t.kids && Represents(pool, t.kids[i]);
        i := i + 1;
      }
    }

    /** The pool holds the tree, sorted and balanced; nodes may be short of items. */
    ghost predicate Held()
      reads this
    {
      && tree.oid == root && Represents(pool, tree) && Distinct(tree) && Balanced(tree, height)
      && Sorted(InOrder(tree))
    }

    /**
      Removes one item with the key and returns its value, or null if there is
      none. The contents lose exactly that item, the leaves stay at one depth,
      every object that is no longer used is freed and no other, and the map
      stays well-formed exactly unless the removal lapses.
     */
    method Remove(key: nat) returns (value: nat, ghost found: bool, ghost at: nat)
      requires Valid() && root != 0 && ZeroOnce(Contents())
      modifies this
      ensures root != 0 && Held() && (Valid() <==> !Lapses(old(tree), old(height), key))
      ensures found <==> HasKey(old(Contents()), key)
      ensures found ==>
        && at < |old(Contents())| && old(Contents())[at] == Item(key, value)
        && Contents() == Drop(old(Contents()), at)
      ensures !found ==> value == 0 && Contents() == old(Contents()) && pool == old(pool)
      ensures Unlinked() == old(Unlinked())
    {
      ghost var t, h, t' := tree, height, tree;
      value, t', found, at := RemoveItem(root, key, t, h);
      WholeTree(old(pool), pool, root, t, t', h, key);
      if found {
        OrderAfterDrop(InOrder(t), at);
        assert InOrder(t)[at] in InOrder(t);
      }
      tree, height := NewTree(t'), NewHeight(t', h);
    }
  }
}
