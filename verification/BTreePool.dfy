/**
  A pool of B-tree nodes addressed by object id (0 is the null id), what it
  means for a pool to represent a tree, and the edits of a single node.

  D_RO and D_RW of the source are the lookup `pool[oid]` and the store
  `pool := pool[oid := ...]`; memmove and memcpy are `Moved`.
 */
module BTreePool {
  import opened BTreeShape
  import opened BTreeEdits

  const EMPTY_ITEM := Item(0, 0)

  datatype Node = Node(n: int, items: seq<Item>, slots: seq<nat>)

  type Pool = map<nat, Node>

  ghost predicate Cells(node: Node) {
    |node.items| == ORDER - 1 && |node.slots| == ORDER && 0 <= node.n <= ORDER - 1
  }

  /** The node's live cells are those of the root of t. Cells past the live ones may hold anything. */
  ghost predicate Stores(node: Node, t: Tree) {
    && Cells(node)
    && node.n == |t.items|
    && node.items[..node.n] == t.items
    && if t.kids == [] then forall i :: 0 <= i < ORDER ==> node.slots[i] == 0
       else |t.kids| == node.n + 1 && forall i :: 0 <= i <= node.n ==> node.slots[i] == t.kids[i].oid
  }

  ghost predicate Represents(pool: Pool, t: Tree) {
    && t.oid != 0 && t.oid in pool && Stores(pool[t.oid], t)
    && forall k :: k in t.kids ==> Represents(pool, k)
  }

  /** The objects that the tree has no use for. */
  ghost function Spare(pool: Pool, t: Tree): set<nat> {
    pool.Keys - Oids(t)
  }

  /** A stored tree with balance h and 3 to 7 keys in every node but the root. */
  ghost predicate Sound(pool: Pool, t: Tree, h: nat) {
    Represents(pool, t) && Distinct(t) && Balanced(t, h) && Occupied(t)
  }

  /** Only objects of t were stored to, none was dropped, and t' uses those of t and exactly the new ones. */
  ghost predicate Within(pool: Pool, pool': Pool, t: Tree, t': Tree) {
    && pool.Keys <= pool'.Keys && Spare(pool', t') == Spare(pool, t)
    && (forall o :: o in pool && o !in Oids(t) ==> pool'[o] == pool[o])
    && (forall o :: o in Oids(t') ==> o in Oids(t) || o !in pool)
  }

  lemma {:induction false} KidWithin(kids: seq<Tree>, k: Tree)
    requires k in kids
    ensures Oids(k) <= KidOids(kids)
  {
    if k != kids[0] { KidWithin(kids[1..], k); }
  }

  lemma {:induction false} RepresentedInPool(pool: Pool, t: Tree)
    requires Represents(pool, t)
    ensures Oids(t) <= pool.Keys && 0 !in Oids(t)
    decreases t, 1
  {
    KidsInPool(pool, t.kids);
  }

  lemma {:induction false} KidsInPool(pool: Pool, kids: seq<Tree>)
    requires forall k :: k in kids ==> Represents(pool, k)
    ensures KidOids(kids) <= pool.Keys && 0 !in KidOids(kids)
    decreases kids, 0
  {
    if kids != [] {
      RepresentedInPool(pool, kids[0]);
      KidsInPool(pool, kids[1..]);
    }
  }

  /** A tree survives every store outside its own objects. */
  lemma {:induction false} Frame(pool: Pool, pool': Pool, t: Tree)
    requires Represents(pool, t)
    requires forall o :: o in Oids(t) && o in pool ==> o in pool' && pool'[o] == pool[o]
    ensures Represents(pool', t)
    decreases t
  {
    forall k | k in t.kids ensures Represents(pool', k) {
      KidWithin(t.kids, k);
      Frame(pool, pool', k);
    }
  }

  lemma {:induction false} FrameKids(pool: Pool, pool': Pool, kids: seq<Tree>)
    requires forall k :: k in kids ==> Represents(pool, k)
    requires forall o :: o in KidOids(kids) && o in pool ==> o in pool' && pool'[o] == pool[o]
    ensures forall k :: k in kids ==> Represents(pool', k)
  {
    forall k | k in kids ensures Represents(pool', k) {
      KidWithin(kids, k);
      Frame(pool, pool', k);
    }
  }

  /** memmove / memcpy: `count` cells of `from`, starting at src, land in `s` at dst. */
  function Moved<T>(s: seq<T>, dst: nat, from: seq<T>, src: nat, count: nat): (r: seq<T>)
    requires dst + count <= |s| && src + count <= |from|
    ensures |r| == |s|
    ensures forall i :: 0 <= i < |s| ==> r[i] == if dst <= i < dst + count then from[src + (i - dst)] else s[i]
  {
    s[..dst] + from[src..src+count] + s[dst+count..]
  }

  // ---------- edits of one node ----------

  /** A node after an item and the two kids around it were put in at p, later cells moved up by one. */
  function NodeWithSplit(nd: Node, p: nat, item: Item, left: nat, right: nat): (r: Node)
    requires Cells(nd) && p <= nd.n < ORDER - 1
    ensures Cells(r) && r.n == nd.n + 1
  {
    var items := if nd.items[p].key != 0 then Moved(nd.items, p + 1, nd.items, p, ORDER - 2 - p) else nd.items;
    var slots := if nd.items[p].key != 0 then Moved(nd.slots, p + 1, nd.slots, p, ORDER - 1 - p) else nd.slots;
    Node(nd.n + 1, items[p := item], slots[p := left][p + 1 := right])
  }

  /** A node after an item was put in at p, later items moved up by one. */
  function NodeWithItem(nd: Node, p: nat, item: Item): (r: Node)
    requires Cells(nd) && p <= nd.n < ORDER - 1
    ensures Cells(r) && r.n == nd.n + 1 && r.slots == nd.slots
  {
    var items := if nd.items[p].key != 0 then Moved(nd.items, p + 1, nd.items, p, ORDER - 2 - p) else nd.items;
    Node(nd.n + 1, items[p := item], nd.slots)
  }

  lemma NodeWithItemInserts(nd: Node, p: nat, item: Item)
    requires Cells(nd) && p <= nd.n < ORDER - 1
    requires p < nd.n ==> nd.items[p].key != 0
    ensures NodeWithItem(nd, p, item).items[..nd.n + 1] == nd.items[..p] + [item] + nd.items[p..nd.n]
  {
    var r := NodeWithItem(nd, p, item);
    assert forall i :: 0 <= i < p ==> r.items[i] == nd.items[i];
    assert forall i :: p <= i < nd.n ==> r.items[i + 1] == nd.items[i];
  }

  lemma NodeWithSplitItems(nd: Node, p: nat, item: Item, left: nat, right: nat)
    requires Cells(nd) && p <= nd.n < ORDER - 1
    requires p < nd.n ==> nd.items[p].key != 0
    ensures NodeWithSplit(nd, p, item, left, right).items[..nd.n + 1] == nd.items[..p] + [item] + nd.items[p..nd.n]
  {
    NodeWithItemInserts(nd, p, item);
    assert NodeWithSplit(nd, p, item, left, right).items == NodeWithItem(nd, p, item).items;
  }

  lemma {:induction false} NodeWithSplitStores(nd: Node, t: Tree, p: nat, l: Tree, m: Item, r: Tree)
    requires Stores(nd, t) && p <= nd.n < ORDER - 1 && t.kids != []
    requires p < nd.n ==> nd.items[p].key != 0
    ensures Stores(NodeWithSplit(nd, p, m, l.oid, r.oid), WithSplit(t, p, l, m, r))
  {
    var nd', t' := NodeWithSplit(nd, p, m, l.oid, r.oid), WithSplit(t, p, l, m, r);
    NodeWithSplitItems(nd, p, m, l.oid, r.oid);
    assert nd.items[..p] == t.items[..p] && nd.items[p..nd.n] == t.items[p..];
    forall i | 0 <= i <= nd'.n ensures nd'.slots[i] == t'.kids[i].oid {
      if i < p {
        assert nd'.slots[i] == nd.slots[i] && t'.kids[i] == t.kids[i];
      } else if i > p + 1 {
        assert nd'.slots[i] == nd.slots[i - 1] && t'.kids[i] == t.kids[i - 1];
      }
    }
  }

  /** The loop of the split: cells 4.. of a full node move to a zeroed node. */
  method SplitCells(full: Node, zero: Node) returns (nd: Node, rn: Node, m: Item)
    requires Cells(full) && full.n == ORDER - 1
    requires zero == Node(0, seq(ORDER - 1, _ => EMPTY_ITEM), seq(ORDER, _ => 0))
    ensures m == full.items[3]
    ensures Cells(nd) && nd.n == 3 && Cells(rn) && rn.n == 3
    ensures forall j :: 0 <= j < 3 ==> nd.items[j] == full.items[j] && rn.items[j] == full.items[4 + j]
    ensures forall j :: 0 <= j < ORDER ==> nd.slots[j] == if j < 4 then full.slots[j] else 0
    ensures forall j :: 0 <= j < ORDER ==> rn.slots[j] == if j < 4 then full.slots[4 + j] else 0
  {
    nd, rn := full, zero;
    var c := ORDER / 2;
    m := nd.items[c - 1];
    nd := nd.(items := nd.items[c - 1 := EMPTY_ITEM]);
    var i := c;
    while i < ORDER
      invariant c <= i <= ORDER
      invariant |nd.items| == ORDER - 1 && |nd.slots| == ORDER
      invariant |rn.items| == ORDER - 1 && |rn.slots| == ORDER
      invariant rn.n == if i == ORDER then 3 else i - c
      invariant forall j :: 0 <= j < 3 ==> nd.items[j] == full.items[j]
      invariant forall j :: i <= j < ORDER - 1 ==> nd.items[j] == full.items[j]
      invariant forall j :: 0 <= j < rn.n ==> rn.items[j] == full.items[c + j]
      invariant forall j :: 0 <= j < ORDER ==> nd.slots[j] == if c <= j < i then 0 else full.slots[j]
      invariant forall j :: 0 <= j < ORDER ==> rn.slots[j] == if j < i - c then full.slots[c + j] else 0
    {
      if i != ORDER - 1 {
        rn := rn.(items := rn.items[rn.n := nd.items[i]], n := rn.n + 1);
        nd := nd.(items := nd.items[i := EMPTY_ITEM]);
      }
      rn := rn.(slots := rn.slots[i - c := nd.slots[i]]);
      nd := nd.(slots := nd.slots[i := 0]);
      i := i + 1;
    }
    nd := nd.(n := c - 1);
  }

  lemma {:induction false} SplitStores(full: Node, nd: Node, rn: Node, c: Tree, right: nat)
    requires Stores(full, c) && full.n == ORDER - 1
    requires Cells(nd) && nd.n == 3 && Cells(rn) && rn.n == 3
    requires forall j :: 0 <= j < 3 ==> nd.items[j] == full.items[j] && rn.items[j] == full.items[4 + j]
    requires forall j :: 0 <= j < ORDER ==> nd.slots[j] == if j < 4 then full.slots[j] else 0
    requires forall j :: 0 <= j < ORDER ==> rn.slots[j] == if j < 4 then full.slots[4 + j] else 0
    ensures Stores(nd, LeftHalf(c)) && Stores(rn, RightHalf(c, right))
  {
    assert nd.items[..3] == c.items[..3] && rn.items[..3] == c.items[4..];
    if c.kids != [] {
      assert forall i :: 0 <= i <= 3 ==>
        LeftHalf(c).kids[i] == c.kids[i] && RightHalf(c, right).kids[i] == c.kids[4 + i];
    }
  }

  /** The stored leaf after insertion represents the tree after insertion. */
  lemma {:induction false} InsertAtRepresented(pool: Pool, t: Tree, path: seq<nat>, p: nat, item: Item, nd: Node)
    requires PathToRoom(t, path, p) && Represents(pool, t) && Distinct(t)
    requires LeafOid(t, path, p) in pool
    requires var leaf := pool[LeafOid(t, path, p)];
      Cells(leaf) && p <= leaf.n < ORDER - 1 && (p < leaf.n ==> leaf.items[p].key != 0) &&
      nd == NodeWithItem(leaf, p, item)
    ensures Represents(pool[LeafOid(t, path, p) := nd], InsertAt(t, path, p, item))
    decreases path
  {
    if path == [] {
      var leaf := pool[t.oid];
      NodeWithItemInserts(leaf, p, item);
      assert leaf.items[..p] == t.items[..p] && leaf.items[p..leaf.n] == t.items[p..];
    } else {
      var q, k := path[0], t.kids[path[0]];
      var oid := LeafOid(t, path, p);
      KidApart(t, q);
      InsertAtOids(k, path[1..], p, item);
      InsertAtRepresented(pool, k, path[1..], p, item, nd);
      ReplacedKidRepresented(pool, pool[oid := nd], t, q, InsertAt(k, path[1..], p, item));
    }
  }

  /** Swapping one kid's tree for another one stored under the same id. */
  lemma {:induction false} ReplacedKidRepresented(pool: Pool, pool': Pool, t: Tree, q: nat, k: Tree)
    requires Represents(pool, t) && q < |t.kids| && k.oid == t.kids[q].oid
    requires Represents(pool', k)
    requires t.oid in pool' && pool'[t.oid] == pool[t.oid]
    requires forall o :: o in KidOids(t.kids[..q]) + KidOids(t.kids[q+1..]) && o in pool ==>
      o in pool' && pool'[o] == pool[o]
    ensures Represents(pool', ReplaceKid(t, q, k))
  {
    FrameKids(pool, pool', t.kids[..q]);
    FrameKids(pool, pool', t.kids[q+1..]);
    var t' := ReplaceKid(t, q, k);
    assert Stores(pool'[t.oid], t') by {
      assert forall i :: 0 <= i < |t.kids| ==> t'.kids[i].oid == t.kids[i].oid;
    }
  }

  lemma {:induction false} SplitTreeOids(t: Tree, p: nat, taken: set<nat>)
    requires p < |t.kids| && Distinct(t) && Oids(t) <= taken
    ensures Distinct(t.kids[p]) && t.oid !in Oids(t.kids[p]) && Oids(t.kids[p]) <= taken
    ensures KidOids(t.kids[..p]) + KidOids(t.kids[p+1..]) !! Oids(t.kids[p]) + {t.oid}
    ensures KidOids(t.kids[..p]) + KidOids(t.kids[p+1..]) + Oids(t.kids[p]) <= Oids(t)
    ensures t.kids[p].oid in Oids(t.kids[p])
  {
    KidApart(t, p);
  }

  lemma {:induction false} SplitTreeShape(t: Tree, p: nat, right: nat, h: nat)
    requires Balanced(t, h) && Occupied(t) && h > 0 && |t.items| < ORDER - 1
    requires p < |t.kids| && |t.kids[p].items| == ORDER - 1
    ensures t.kids[p].kids == [] || |t.kids[p].kids| == ORDER
    ensures
      var c := t.kids[p];
      var l, m, r := LeftHalf(c), c.items[3], RightHalf(c, right);
      var t' := WithSplit(t, p, l, m, r);
      && Balanced(t', h) && Occupied(t') && InOrder(t') == InOrder(t)
      && InOrder(c) == InOrder(l) + [m] + InOrder(r)
  {
    var c := t.kids[p];
    GoodNode(t, h);
    KidsSplitAt(t, p, h - 1);
    SplitKeeps(c, right, h - 1);
    WithSplitKeeps(t, p, LeftHalf(c), c.items[3], RightHalf(c, right), h);
  }

  lemma {:induction false} SplitTreeFits(t: Tree, p: nat, l: Tree, m: Item, r: Tree, key: nat)
    requires Sorted(InOrder(t)) && Fits(t, p, key) && InOrder(t.kids[p]) == InOrder(l) + [m] + InOrder(r)
    ensures
      var t', q := WithSplit(t, p, l, m, r), if key > m.key then p + 1 else p;
      Fits(t', q, key) && t'.kids[q] == (if key > m.key then r else l) && Sorted(InOrder(t'.kids[q]))
  {
    InOrderAround(t, p);
    SortedMiddle(Left(t.items[..p], t.kids[..p]), InOrder(t.kids[p]), Right(t.items[p..], t.kids[p+1..]));
    ChosenHalfFits(t, p, l, m, r, key);
  }

  /** All that holds of the trees when the full kid p is split. */
  lemma {:induction false} SplitTreeFacts(t: Tree, p: nat, right: nat, key: nat, h: nat, taken: set<nat>)
    requires Distinct(t) && Balanced(t, h) && Occupied(t) && Sorted(InOrder(t))
    requires h > 0 && |t.items| < ORDER - 1 && Fits(t, p, key) && |t.kids[p].items| == ORDER - 1
    requires Oids(t) <= taken && right !in taken
    ensures t.kids[p].kids == [] || |t.kids[p].kids| == ORDER
    ensures
      var c := t.kids[p];
      var l, m, r := LeftHalf(c), c.items[3], RightHalf(c, right);
      var t', q := WithSplit(t, p, l, m, r), if key > m.key then p + 1 else p;
      && Distinct(t') && Balanced(t', h) && Occupied(t') && InOrder(t') == InOrder(t)
      && Fits(t', q, key) && t'.kids[q] == (if key > m.key then r else l) && Sorted(InOrder(t'.kids[q]))
      && (forall o :: o in Oids(t') ==> o in Oids(t) || o !in taken)
      && Oids(l) + Oids(r) !! {t.oid}
  {
    var c := t.kids[p];
    SplitTreeOids(t, p, taken);
    SplitTreeShape(t, p, right, h);
    SplitOids(c, right);
    var l, m, r := LeftHalf(c), c.items[3], RightHalf(c, right);
    WithSplitOids(t, p, l, m, r, taken);
    SplitTreeFits(t, p, l, m, r, key);
  }

  lemma {:induction false} SplitKidFacts(pool: Pool, pool': Pool, t: Tree, p: nat, right: nat, key: nat, h: nat)
    requires Sound(pool, t, h) && Sorted(InOrder(t))
    requires h > 0 && |t.items| < ORDER - 1 && Fits(t, p, key) && |t.kids[p].items| == ORDER - 1
    requires t.kids[p].kids == [] || |t.kids[p].kids| == ORDER
    requires right !in pool && pool'.Keys == pool.Keys + {right}
    requires Represents(pool', WithSplit(t, p, LeftHalf(t.kids[p]), t.kids[p].items[3], RightHalf(t.kids[p], right)))
    requires forall o :: o in pool && o != t.kids[p].oid && o != t.oid ==> pool'[o] == pool[o]
    ensures
      var c := t.kids[p];
      var l, m, r := LeftHalf(c), c.items[3], RightHalf(c, right);
      var t', q := WithSplit(t, p, l, m, r), if key > m.key then p + 1 else p;
      && Sound(pool', t', h) && InOrder(t') == InOrder(t) && Within(pool, pool', t, t')
      && Fits(t', q, key) && t'.kids[q] == (if key > m.key then r else l) && Sorted(InOrder(t'.kids[q]))
  {
    RepresentedInPool(pool, t);
    SplitTreeFacts(t, p, right, key, h, pool.Keys);
    SplitWithin(pool, pool', t, p, right);
  }

  lemma {:induction false} SplitWithin(pool: Pool, pool': Pool, t: Tree, p: nat, right: nat)
    requires Distinct(t) && Oids(t) <= pool.Keys && p < |t.kids| && p <= |t.items|
    requires |t.kids[p].items| == ORDER - 1 && (t.kids[p].kids == [] || |t.kids[p].kids| == ORDER)
    requires right !in pool && pool'.Keys == pool.Keys + {right}
    requires forall o :: o in pool && o != t.kids[p].oid && o != t.oid ==> pool'[o] == pool[o]
    ensures
      var c := t.kids[p];
      Within(pool, pool', t, WithSplit(t, p, LeftHalf(c), c.items[3], RightHalf(c, right)))
  {
    var c := t.kids[p];
    SplitTreeOids(t, p, pool.Keys);
    SplitOids(c, right);
    WithSplitOids(t, p, LeftHalf(c), c.items[3], RightHalf(c, right), pool.Keys);
    assert Oids(WithSplit(t, p, LeftHalf(c), c.items[3], RightHalf(c, right))) == Oids(t) + {right};
  }

  /** The pool `mid` after kid p was split, and pool' after its parent took up the halves. */
  lemma {:induction false} SplitLinked(pool: Pool, mid: Pool, pool': Pool, t: Tree, p: nat, right: nat)
    requires Represents(pool, t) && Distinct(t) && p < |t.kids| && |t.items| < ORDER - 1
    requires p < |t.items| ==> t.items[p].key != 0
    requires |t.kids[p].items| == ORDER - 1 && (t.kids[p].kids == [] || |t.kids[p].kids| == ORDER)
    requires right !in pool && right != 0 && mid.Keys == pool.Keys + {right}
    requires Represents(mid, LeftHalf(t.kids[p])) && Represents(mid, RightHalf(t.kids[p], right))
    requires forall o :: o in pool && o != t.kids[p].oid ==> mid[o] == pool[o]
    requires t.oid in pool
    requires pool' == mid[t.oid := NodeWithSplit(pool[t.oid], p, t.kids[p].items[3], t.kids[p].oid, right)]
    ensures Represents(pool', WithSplit(t, p, LeftHalf(t.kids[p]), t.kids[p].items[3], RightHalf(t.kids[p], right)))
  {
    var c := t.kids[p];
    RepresentedInPool(pool, t);
    SplitTreeOids(t, p, pool.Keys);
    SplitOids(c, right);
    SplitRepresented(pool, mid, pool', t, p, LeftHalf(c), c.items[3], RightHalf(c, right));
  }

  /** The pool after the split, seen from the parent. */
  lemma {:induction false} SplitRepresented(
    pool: Pool, mid: Pool, pool': Pool, t: Tree, p: nat, l: Tree, m: Item, r: Tree)
    requires Represents(pool, t) && p < |t.kids| && |t.items| < ORDER - 1
    requires p < |t.items| ==> t.items[p].key != 0
    requires t.oid in pool'
    requires pool'[t.oid] == NodeWithSplit(pool[t.oid], p, m, l.oid, r.oid)
    requires Oids(l) + Oids(r) !! {t.oid}
    requires Represents(mid, l) && Represents(mid, r)
    requires forall o :: o in mid && o != t.oid ==> o in pool' && pool'[o] == mid[o]
    requires forall o :: o in KidOids(t.kids[..p]) + KidOids(t.kids[p+1..]) && o in pool ==>
      o in pool' && pool'[o] == pool[o]
    ensures Represents(pool', WithSplit(t, p, l, m, r))
  {
    Frame(mid, pool', l);
    Frame(mid, pool', r);
    FrameKids(pool, pool', t.kids[..p]);
    FrameKids(pool, pool', t.kids[p+1..]);
    NodeWithSplitStores(pool[t.oid], t, p, l, m, r);
  }

  ghost predicate HasKey(s: seq<Item>, key: nat) {
    exists x :: x in s && x.key == key
  }

  lemma {:induction false} ItemListed(t: Tree, i: nat)
    requires i < |t.items| && (t.kids == [] || |t.kids| == |t.items| + 1)
    ensures t.items[i] in InOrder(t)
  {
    if t.kids != [] {
      InOrderAround(t, i);
      assert t.items[i] in Right(t.items[i..], t.kids[i+1..]);
    }
  }

  lemma {:induction false} RootItemsListed(t: Tree, h: nat)
    requires Balanced(t, h) && t.items != []
    ensures InOrder(t) != []
  {
    ItemListed(t, 0);
  }

  /** When the keys around kid i are strictly smaller and larger, only that kid can have the key. */
  lemma {:induction false} OnlyKidHasKey(t: Tree, i: nat, key: nat)
    requires |t.kids| == |t.items| + 1 && i <= |t.items| && Sorted(InOrder(t))
    requires forall j :: 0 <= j < i ==> t.items[j].key < key
    requires i < |t.items| ==> t.items[i].key > key
    ensures HasKey(InOrder(t), key) <==> HasKey(InOrder(t.kids[i]), key)
    ensures forall x :: x in InOrder(t.kids[i]) ==> x in InOrder(t)
    ensures Sorted(InOrder(t.kids[i]))
  {
    InOrderAround(t, i);
    var l, m, r := Left(t.items[..i], t.kids[..i]), InOrder(t.kids[i]), Right(t.items[i..], t.kids[i+1..]);
    assert InOrder(t) == l + m + r;
    SortedMiddle(l, m, r);
    assert l + m + r == l + (m + r);
    if i > 0 { LeftAtMost(t.items[..i], t.kids[..i], m + r, t.items[i - 1].key); }
    if i < |t.items| { RightAtLeast(l + m, t.items[i..], t.kids[i+1..], t.items[i].key); }
    assert forall x :: x in l ==> x.key < key;
    assert forall x :: x in r ==> x.key > key;
  }

  /** Storing the item at the reached leaf gives a well-formed tree with just that item added. */
  lemma {:induction false} InsertIsGood(pool: Pool, t: Tree, h: nat, path: seq<nat>, p: nat, dest: nat, item: Item)
    requires Sound(pool, t, h) && WellFormed(t, h) && Reached(t, path, p, dest, item.key)
    ensures dest in pool && Cells(pool[dest]) && p <= pool[dest].n < ORDER - 1
    ensures InsertAt(t, path, p, item).oid == t.oid
    ensures
      var t', pool' := InsertAt(t, path, p, item), pool[dest := NodeWithItem(pool[dest], p, item)];
      && Sound(pool', t', h) && WellFormed(t', h) && Spare(pool', t') == Spare(pool, t)
    ensures |Before(t, path, p)| <= |InOrder(t)|
    ensures InOrder(InsertAt(t, path, p, item)) ==
      InOrder(t)[..|Before(t, path, p)|] + [item] + InOrder(t)[|Before(t, path, p)|..]
  {
    LeafNode(pool, t, path, p, item.key);
    InsertAtContents(t, path, p, item);
    InsertAtShape(t, path, p, item, h);
    InsertAtOids(t, path, p, item);
    InsertionKeepsOrder(Before(t, path, p), item, After(t, path, p));
    InsertAtRepresented(pool, t, path, p, item, NodeWithItem(pool[dest], p, item));
    var s, b, a := InOrder(t), Before(t, path, p), After(t, path, p);
    assert s[..|b|] == b && s[|b|..] == a;
  }

  /** What the pool holds at the leaf a path ends in. */
  lemma {:induction false} LeafNode(pool: Pool, t: Tree, path: seq<nat>, p: nat, key: nat)
    requires Represents(pool, t) && PathToRoom(t, path, p) && LeafItemLarger(t, path, p, key)
    ensures LeafOid(t, path, p) in pool
    ensures var nd := pool[LeafOid(t, path, p)];
      Cells(nd) && p <= nd.n < ORDER - 1 && (p < nd.n ==> nd.items[p].key > key)
    decreases path
  {
    if path == [] {
      var nd := pool[t.oid];
      assert p < nd.n ==> nd.items[p] == t.items[p];
    } else {
      assert t.kids[path[0]] in t.kids;
      LeafNode(pool, t.kids[path[0]], path[1..], p, key);
    }
  }

  lemma {:induction false} SingleItemTree(pool: Pool, oid: nat, item: Item)
    requires oid != 0 && oid in pool && Cells(pool[oid]) && pool[oid].n == 1 && pool[oid].items[..1] == [item]
    requires forall i :: 0 <= i < ORDER ==> pool[oid].slots[i] == 0
    ensures Sound(pool, Tree(oid, [item], []), 0) && WellFormed(Tree(oid, [item], []), 0)
    ensures InOrder(Tree(oid, [item], [])) == [item] && Oids(Tree(oid, [item], [])) == {oid}
  {
    assert KidOids([]) == {};
  }

  /** A well-formed tree without items is a single node. */
  lemma {:induction false} EmptyTreeOids(pool: Pool, t: Tree, h: nat)
    requires Represents(pool, t) && WellFormed(t, h) && InOrder(t) == []
    ensures Oids(t) == {t.oid}
  {
    if t.items != [] { RootItemsListed(t, h); }
    assert KidOids([]) == {};
  }

  lemma WithinTrans(a: Pool, b: Pool, c: Pool, t: Tree, t1: Tree, t2: Tree)
    requires Within(a, b, t, t1) && Within(b, c, t1, t2)
    ensures Within(a, c, t, t2)
  {
  }

  lemma {:induction false} NewRootRepresented(mid: Pool, pool: Pool, up: nat, l: Tree, m: Item, r: Tree)
    requires Represents(mid, l) && Represents(mid, r) && l.oid != 0 && r.oid != 0
    requires up != 0 && up !in mid && up in pool && pool == mid[up := pool[up]]
    requires Stores(pool[up], Tree(up, [m], [l, r]))
    ensures Represents(pool, Tree(up, [m], [l, r]))
  {
    RepresentedInPool(mid, l);
    RepresentedInPool(mid, r);
    Frame(mid, pool, l);
    Frame(mid, pool, r);
  }

  lemma {:induction false} NewRootFacts(mid: Pool, pool: Pool, t: Tree, h: nat, right: nat, up: nat)
    requires Distinct(t) && Balanced(t, h) && Occupied(t) && |t.items| == ORDER - 1
    requires t.kids == [] || |t.kids| == ORDER
    requires Represents(mid, LeftHalf(t)) && Represents(mid, RightHalf(t, right)) && right !in Oids(t)
    requires up != 0 && up !in mid && up in pool && pool == mid[up := pool[up]]
    requires Cells(pool[up]) && pool[up].n == 1 && pool[up].items[..1] == [t.items[3]]
    requires pool[up].slots[0] == t.oid && pool[up].slots[1] == right
    ensures
      var t' := Tree(up, [t.items[3]], [LeftHalf(t), RightHalf(t, right)]);
      Sound(pool, t', h + 1) && InOrder(t') == InOrder(t) && Oids(t') == Oids(t) + {right, up}
  {
    var l, m, r := LeftHalf(t), t.items[3], RightHalf(t, right);
    assert up !in Oids(t) + {right} by {
      RepresentedInPool(mid, l);
      RepresentedInPool(mid, r);
      SplitOids(t, right);
    }
    NewRootShape(t, h, right, up);
    NewRootStores(pool[up], up, l, m, r);
    NewRootRepresented(mid, pool, up, l, m, r);
  }

  lemma {:induction false} NewRootStores(nd: Node, up: nat, l: Tree, m: Item, r: Tree)
    requires Cells(nd) && nd.n == 1 && nd.items[..1] == [m] && nd.slots[0] == l.oid && nd.slots[1] == r.oid
    ensures Stores(nd, Tree(up, [m], [l, r]))
  {
  }

  lemma {:induction false} NewRootShape(t: Tree, h: nat, right: nat, up: nat)
    requires Distinct(t) && Balanced(t, h) && Occupied(t) && |t.items| == ORDER - 1
    requires t.kids == [] || |t.kids| == ORDER
    requires right !in Oids(t) && up !in Oids(t) + {right}
    ensures
      var t' := Tree(up, [t.items[3]], [LeftHalf(t), RightHalf(t, right)]);
      && Distinct(t') && Balanced(t', h + 1) && Occupied(t') && InOrder(t') == InOrder(t)
      && Oids(t') == Oids(t) + {right, up}
  {
    var l, m, r := LeftHalf(t), t.items[3], RightHalf(t, right);
    SplitKeeps(t, right, h);
    SplitOids(t, right);
    TwoKids(up, l, m, r);
    GoodNode(Tree(up, [m], [l, r]), h + 1);
  }

  /** n is the root (no parent), or kid p of the parent's tree t, which has room and where `key` belongs in kid p. */
  ghost predicate AtNode(t: Tree, h: nat, n: nat, parent: nat, key: nat, p: nat) {
    if parent == 0 then t.oid == n
    else
      && h > 0 && t.oid == parent && |t.items| < ORDER - 1 && Fits(t, p, key)
      && (p < |t.items| ==> t.items[p].key != 0) && t.kids[p].oid == n
  }

  /** The path ends at a leaf with room, stored under `dest`, where `key` belongs at `pos`. */
  ghost predicate Reached(t: Tree, path: seq<nat>, pos: nat, dest: nat, key: nat) {
    && PathToRoom(t, path, pos) && LeafOid(t, path, pos) == dest
    && AtMost(Before(t, path, pos), key) && AtLeast(After(t, path, pos), key)
    && LeafItemLarger(t, path, pos, key)
  }

  ghost predicate LeafItemLarger(t: Tree, path: seq<nat>, p: nat, key: nat)
    requires PathToRoom(t, path, p)
  {
    if path == [] then p < |t.items| ==> t.items[p].key > key
    else LeafItemLarger(t.kids[path[0]], path[1..], p, key)
  }

  /** The search loop: the first position whose key is larger, or the end of the live cells. */
  method SearchCells(nd: Node, key: nat) returns (i: nat)
    requires Cells(nd)
    ensures i <= nd.n
    ensures forall j :: 0 <= j < i ==> nd.items[j].key <= key
    ensures i < nd.n ==> nd.items[i].key > key
    ensures nd.n < ORDER - 1 ==> i < ORDER - 1
  {
    i := 0;
    while i < ORDER - 1 && !(nd.n == i || nd.items[i].key > key)
      invariant 0 <= i <= nd.n
      invariant forall j :: 0 <= j < i ==> nd.items[j].key <= key
    {
      i := i + 1;
    }
  }

  lemma {:induction false} EnteredNodeSound(pool: Pool, t: Tree, h: nat, q: nat)
    requires Sound(pool, t, h) && h > 0 && q < |t.kids|
    ensures Sound(pool, t.kids[q], h - 1)
  {
    assert t.kids[q] in t.kids;
    KidApart(t, q);
  }

  lemma {:induction false} LeafReached(pool: Pool, t: Tree, i: nat, key: nat)
    requires Represents(pool, t) && |t.items| < ORDER - 1 && i <= |t.items| && Sorted(InOrder(t))
    requires pool[t.oid].slots[i] == 0
    requires forall j :: 0 <= j < i ==> pool[t.oid].items[j].key <= key
    requires i < |t.items| ==> pool[t.oid].items[i].key > key
    ensures Reached(t, [], i, t.oid, key)
  {
    forall k | k in t.kids ensures k.oid != 0 {
      assert Represents(pool, k);
    }
    assert forall j :: 0 <= j < |t.items| ==> t.items[j] == pool[t.oid].items[j];
  }

  lemma {:induction false} SearchFits(pool: Pool, t: Tree, i: nat, key: nat)
    requires Represents(pool, t) && i <= |t.items| && Sorted(InOrder(t))
    requires pool[t.oid].slots[i] != 0
    requires forall j :: 0 <= j < i ==> pool[t.oid].items[j].key <= key
    requires i < |t.items| ==> pool[t.oid].items[i].key > key
    ensures Fits(t, i, key) && t.kids[i].oid == pool[t.oid].slots[i]
    ensures i < |t.items| ==> t.items[i].key != 0
  {
    assert forall j :: 0 <= j < |t.items| ==> t.items[j] == pool[t.oid].items[j];
    FoundFits(t, i, key);
  }

  lemma {:induction false} RejoinReached(t: Tree, q: nat, k: Tree, path: seq<nat>, pos: nat, dest: nat, key: nat)
    requires Fits(t, q, key) && InOrder(k) == InOrder(t.kids[q])
    requires path != [] && path[0] == q && Reached(k, path[1..], pos, dest, key)
    requires InOrder(ReplaceKid(t, q, k)) == InOrder(t)
    ensures Reached(ReplaceKid(t, q, k), path, pos, dest, key)
  {
    var t' := ReplaceKid(t, q, k);
    assert t'.kids[q] == k && t'.kids[..q] == t.kids[..q] && t'.kids[q+1..] == t.kids[q+1..];
  }

  lemma {:induction false} RejoinParent(
    pool: Pool, pool': Pool, t: Tree, h: nat, q: nat, k: Tree, path: seq<nat>, pos: nat, dest: nat, key: nat)
    requires Sound(pool, t, h) && h > 0 && Fits(t, q, key)
    requires Sound(pool', k, h - 1) && InOrder(k) == InOrder(t.kids[q]) && k.oid == t.kids[q].oid
    requires |t.kids[q].items| <= |k.items|
    requires path != [] && path[0] == q && Reached(k, path[1..], pos, dest, key)
    requires Within(pool, pool', t.kids[q], k)
    ensures Sound(pool', ReplaceKid(t, q, k), h) && InOrder(ReplaceKid(t, q, k)) == InOrder(t)
    ensures Reached(ReplaceKid(t, q, k), path, pos, dest, key)
    ensures Within(pool, pool', t, ReplaceKid(t, q, k))
  {
    var t' := ReplaceKid(t, q, k);
    RepresentedInPool(pool, t);
    assert t.kids[q] in t.kids;
    ReplaceKidKeeps(t, q, k, h);
    ReplaceKidOids(t, q, k, pool.Keys);
    ReplacedKidRepresented(pool, pool', t, q, k);
    RejoinReached(t, q, k, path, pos, dest, key);
    RejoinWithin(pool, pool', t, q, k);
  }

  lemma {:induction false} RejoinWithin(pool: Pool, pool': Pool, t: Tree, q: nat, k: Tree)
    requires Distinct(t) && q < |t.kids| && Within(pool, pool', t.kids[q], k)
    ensures Within(pool, pool', t, ReplaceKid(t, q, k))
  {
    KidApart(t, q);
    KidsAround(t.kids[..q], k, t.kids[q+1..]);
    var others := {t.oid} + KidOids(t.kids[..q]) + KidOids(t.kids[q+1..]);
    SpareOfPart(pool'.Keys, Oids(k), pool.Keys, Oids(t.kids[q]), others);
    assert Oids(ReplaceKid(t, q, k)) == others + Oids(k) && Oids(t) == others + Oids(t.kids[q]);
  }

  /** What is spare for a part of a tree is spare for the tree, but for the objects of the other parts. */
  lemma SpareOfPart(keys': set<nat>, part': set<nat>, keys: set<nat>, part: set<nat>, others: set<nat>)
    requires keys' - part' == keys - part
    ensures keys' - (others + part') == keys - (others + part)
  {
    assert keys' - (others + part') == (keys' - part') - others;
    assert keys - (others + part) == (keys - part) - others;
  }

  lemma {:induction false} TwoKids(up: nat, l: Tree, m: Item, r: Tree)
    requires Distinct(l) && Distinct(r) && Oids(l) !! Oids(r) && up !in Oids(l) + Oids(r)
    ensures Distinct(Tree(up, [m], [l, r])) && Oids(Tree(up, [m], [l, r])) == {up} + Oids(l) + Oids(r)
    ensures InOrder(Tree(up, [m], [l, r])) == InOrder(l) + [m] + InOrder(r)
  {
    KidsAround([l], r, []);
    KidsOfOne(l);
    assert [l] + [r] + [] == [l, r];
    assert [l, r][1..] == [r] && [m][1..] == [];
    assert Weave([], [r]) == InOrder(r);
  }

  lemma {:induction false} SortedMiddle(a: seq<Item>, b: seq<Item>, c: seq<Item>)
    requires Sorted(a + b + c)
    ensures Sorted(b)
  {
    SortedConcat(a + b, c);
    SortedConcat(a, b);
  }
}
