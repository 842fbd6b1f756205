/**
  The three repairs of a deficient node, cell by cell: the edited nodes of the
  pool represent the edited trees.
 */
module BTreeRepair {
  import opened BTreeShape
  import opened BTreeEdits
  import opened BTreePool

  /** Kid p of t is one key short; every other kid has at least the minimum. */
  ghost predicate Deficient(t: Tree, p: nat, h: nat) {
    && Balanced(t, h) && 0 < h && p < |t.kids| && 1 <= |t.items| <= ORDER - 1
    && (forall k :: k in t.kids ==> Occupied(k))
    && |t.kids[p].items| == MIN_KEYS - 1
    && forall i :: 0 <= i < |t.kids| && i != p ==> MIN_KEYS <= |t.kids[i].items|
  }

  // ---------- which repair is chosen ----------

  ghost predicate TakesFromRight(t: Tree, p: nat)
    requires |t.kids| == |t.items| + 1
  {
    p < |t.items| && |t.kids[p+1].items| > MIN_KEYS
  }

  ghost predicate TakesFromLeft(t: Tree, p: nat)
    requires |t.kids| == |t.items| + 1 && p < |t.kids|
  {
    !TakesFromRight(t, p) && p > 0 && |t.kids[p-1].items| > MIN_KEYS
  }

  /** Neither neighbour can spare an item: two kids are merged. */
  ghost predicate Shrinks(t: Tree, p: nat)
    requires |t.kids| == |t.items| + 1 && p < |t.kids|
  {
    !TakesFromRight(t, p) && !TakesFromLeft(t, p)
  }

  /** Taking from the left puts the separator at cell 0, which only moves the others up if its key is not 0. */
  ghost predicate Clobbers(t: Tree, p: nat)
    requires |t.kids| == |t.items| + 1 && p < |t.kids| && t.kids[p].items != []
  {
    TakesFromLeft(t, p) && t.kids[p].items[0].key == 0
  }

  // ---------- cells ----------

  function ParentWith(nd: Node, p: nat, m: Item): Node
    requires Cells(nd) && p < nd.n
  {
    nd.(items := nd.items[p := m])
  }

  /** The deficient node after the separator and the first kid of its right neighbour were added at the end. */
  function NodeWithLast(nd: Node, sep: Item, slot: nat): Node
    requires Cells(nd) && nd.n < ORDER - 1
  {
    var nd1 := NodeWithItem(nd, nd.n, sep);
    nd1.(slots := nd1.slots[nd1.n := slot])
  }

  /** A node whose cells were moved down by one. */
  function NodeWithoutFirst(nd: Node): Node
    requires Cells(nd) && 0 < nd.n
  {
    Node(nd.n - 1, Moved(nd.items, 0, nd.items, 1, nd.n - 1), Moved(nd.slots, 0, nd.slots, 1, nd.n))
  }

  lemma {:induction false} TakerOnLeftStores(nd: Node, a: Tree, sep: Item, slot: nat, b: Tree)
    requires Stores(nd, a) && nd.n < ORDER - 1 && Peers(a, b)
    requires slot == if b.kids == [] then 0 else b.kids[0].oid
    ensures Stores(NodeWithLast(nd, sep, slot), WithLast(a, sep, FirstKid(b)))
  {
    NodeWithItemInserts(nd, nd.n, sep);
    var nd1 := NodeWithItem(nd, nd.n, sep);
    assert nd1.items[..nd1.n] == a.items + [sep];
    if a.kids != [] {
      assert forall i :: 0 <= i <= nd.n ==> (a.kids + FirstKid(b))[i] == a.kids[i];
    }
  }

  lemma {:induction false} GiverOnRightStores(nd: Node, b: Tree)
    requires Stores(nd, b) && b.items != []
    ensures Stores(NodeWithoutFirst(nd), WithoutFirst(b))
  {
    var nd' := NodeWithoutFirst(nd);
    assert forall i :: 0 <= i < nd.n - 1 ==> nd'.items[i] == b.items[1..][i] by {
      assert forall i :: 0 <= i < nd.n ==> nd.items[i] == b.items[i];
    }
    assert nd'.items[..nd.n - 1] == b.items[1..];
    if b.kids != [] {
      assert forall i :: 0 <= i < nd.n ==> b.kids[1..][i] == b.kids[i + 1];
    }
  }

  lemma {:induction false} GiverOnLeftStores(nd: Node, a: Tree)
    requires Stores(nd, a) && a.items != []
    ensures Stores(nd.(n := nd.n - 1), WithoutLast(a))
  {
    assert nd.items[..nd.n - 1] == a.items[..nd.n - 1];
  }

  /** The deficient node after the separator went into cell 0 and the last kid of its left neighbour into slot 0. */
  function NodeWithFirst(nd: Node, sep: Item, slot: nat): (r: Node)
    requires Cells(nd) && nd.n < ORDER - 1
  {
    var nd1 := NodeWithItem(nd, 0, sep);
    nd1.(slots := Moved(nd1.slots, 1, nd1.slots, 0, nd1.n)[0 := slot])
  }

  /** What the items of that node are: the old ones moved up, or (cell 0 holding key 0) the first one overwritten. */
  lemma {:induction false} TakerOnRightStores(nd: Node, b: Tree, sep: Item, slot: nat, a: Tree)
    requires Stores(nd, b) && 0 < nd.n < ORDER - 1 && Peers(a, b)
    requires slot == if a.kids == [] then 0 else a.kids[|a.kids| - 1].oid
    ensures
      var rest := if nd.items[0].key != 0 then b.items else nd.items[1..nd.n + 1];
      Stores(NodeWithFirst(nd, sep, slot), Tree(b.oid, [sep] + rest, LastKid(a) + b.kids))
  {
    var nd' := NodeWithFirst(nd, sep, slot);
    var rest := if nd.items[0].key != 0 then b.items else nd.items[1..nd.n + 1];
    if nd.items[0].key != 0 { NodeWithItemInserts(nd, 0, sep); }
    assert nd'.items[..nd'.n] == [sep] + rest;
    if a.kids != [] {
      var kids := LastKid(a) + b.kids;
      assert forall i :: 1 <= i <= nd'.n ==> kids[i] == b.kids[i - 1];
    }
  }

  /** The node that takes over all cells of its right neighbour. */
  function NodeMerged(nd: Node, sep: Item, rn: Node): (r: Node)
    requires Cells(nd) && Cells(rn) && nd.n + 1 + rn.n <= ORDER - 1
  {
    var n := nd.n + 1;
    Node(n + rn.n, Moved(nd.items[nd.n := sep], n, rn.items, 0, rn.n), Moved(nd.slots, n, rn.slots, 0, rn.n + 1))
  }

  lemma {:induction false} NodeMergedStores(nd: Node, a: Tree, sep: Item, rn: Node, b: Tree)
    requires Stores(nd, a) && Stores(rn, b) && Peers(a, b) && nd.n + 1 + rn.n <= ORDER - 1
    ensures Stores(NodeMerged(nd, sep, rn), Joined(a, sep, b))
  {
    var nd', j := NodeMerged(nd, sep, rn), Joined(a, sep, b);
    forall i | 0 <= i < nd'.n ensures nd'.items[i] == j.items[i] {
      if i > nd.n { assert nd'.items[i] == rn.items[i - nd.n - 1] == b.items[i - nd.n - 1]; }
      if i < nd.n { assert nd'.items[i] == nd.items[i] == a.items[i]; }
    }
    assert nd'.items[..nd'.n] == j.items;
    if a.kids != [] {
      forall i | 0 <= i <= nd'.n ensures nd'.slots[i] == j.kids[i].oid {
        if i > nd.n { assert nd'.slots[i] == rn.slots[i - nd.n - 1] == b.kids[i - nd.n - 1].oid; }
      }
    }
  }

  /** The parent after the separator p and the slot to its right were closed up (live cells). */
  function NodeClosedUp(nd: Node, p: nat): (r: Node)
    requires Cells(nd) && p < nd.n
  {
    var n := nd.n - 1;
    Node(n, Moved(nd.items, p, nd.items, p + 1, n - p), Moved(nd.slots, p + 1, nd.slots, p + 2, n - p))
  }

  lemma {:induction false} NodeClosedUpStores(nd: Node, t: Tree, p: nat, k: Tree)
    requires Stores(nd, t) && p < nd.n && t.kids != [] && k.oid == t.kids[p].oid
    ensures Stores(NodeClosedUp(nd, p), WithMerged(t, p, k))
  {
    var nd', t' := NodeClosedUp(nd, p), WithMerged(t, p, k);
    forall i | 0 <= i < nd'.n ensures nd'.items[i] == t'.items[i] {
      if i < p { assert nd.items[i] == t.items[i]; } else { assert nd.items[i + 1] == t.items[i + 1]; }
    }
    assert nd'.items[..nd'.n] == t'.items;
    forall i | 0 <= i <= nd'.n ensures nd'.slots[i] == t'.kids[i].oid {
      if i < p { assert t'.kids[i] == t.kids[i]; }
      if i > p { assert t'.kids[i] == t.kids[i + 1] && nd'.slots[i] == nd.slots[i + 1]; }
    }
  }

  lemma {:induction false} ParentItemStores(nd: Node, t: Tree, p: nat, a: Tree, m: Item, b: Tree)
    requires Stores(nd, t) && p < nd.n && t.kids != []
    requires a.oid == t.kids[p].oid && b.oid == t.kids[p+1].oid
    ensures Stores(nd.(items := nd.items[p := m]), WithPair(t, p, a, m, b))
  {
    var nd', t' := nd.(items := nd.items[p := m]), WithPair(t, p, a, m, b);
    forall i | 0 <= i < nd.n ensures nd'.items[i] == t'.items[i] {
      if i != p { assert nd.items[i] == t.items[i]; }
    }
    assert nd'.items[..nd.n] == t'.items;
    forall i | 0 <= i <= nd.n ensures nd'.slots[i] == t'.kids[i].oid {
      if i != p && i != p + 1 { assert t'.kids[i] == t.kids[i]; }
    }
  }

  // ---------- trees ----------

  /** What every repair keeps: balance, occupancy of all kids, the objects used, all but at most one item of t. */
  ghost predicate Repaired(t: Tree, t': Tree, h: nat) {
    && t'.oid == t.oid && Distinct(t') && Balanced(t', h) && Occupied(t')
    && |t.items| - 1 <= |t'.items| <= |t.items|
    && Oids(t') <= Oids(t)
  }

  ghost function RotatedRight(t: Tree, p: nat): Tree
    requires p + 1 < |t.kids| && p < |t.items| && t.kids[p+1].items != []
  {
    var a, b := t.kids[p], t.kids[p+1];
    WithPair(t, p, WithLast(a, t.items[p], FirstKid(b)), b.items[0], WithoutFirst(b))
  }

  /** Kid p takes from its left neighbour; `rest` are the items that follow the separator in it. */
  ghost function RotatedLeft(t: Tree, p: nat, rest: seq<Item>): Tree
    requires 0 < p < |t.kids| && p <= |t.items| && t.kids[p-1].items != []
  {
    var a, b := t.kids[p-1], t.kids[p];
    WithPair(t, p - 1, WithoutLast(a), a.items[|a.items| - 1], Tree(b.oid, [t.items[p-1]] + rest, LastKid(a) + b.kids))
  }

  ghost function Merged(t: Tree, p: nat): Tree
    requires p + 1 < |t.kids| && p < |t.items|
  {
    WithMerged(t, p, Joined(t.kids[p], t.items[p], t.kids[p+1]))
  }

  /** Facts about two neighbouring kids. */
  lemma {:induction false} Neighbours(t: Tree, p: nat, h: nat)
    requires Balanced(t, h) && 0 < h && p + 1 < |t.kids|
    ensures Peers(t.kids[p], t.kids[p+1])
    ensures Balanced(t.kids[p], h - 1) && Balanced(t.kids[p+1], h - 1)
    ensures Distinct(t) ==>
      var a, b := t.kids[p], t.kids[p+1];
      && Distinct(a) && Distinct(b) && Oids(a) !! Oids(b)
      && t.oid !in KidOids(t.kids[..p]) + KidOids(t.kids[p+2..])
      && {t.oid} + KidOids(t.kids[..p]) + KidOids(t.kids[p+2..]) !! Oids(a) + Oids(b)
      && Oids(t) == {t.oid} + KidOids(t.kids[..p]) + KidOids(t.kids[p+2..]) + Oids(a) + Oids(b)
      && DistinctKids(t.kids[..p]) && DistinctKids(t.kids[p+2..]) && KidOids(t.kids[..p]) !! KidOids(t.kids[p+2..])
  {
    assert t.kids[p] in t.kids && t.kids[p+1] in t.kids;
    PairOids(t, p, t.kids[p], t.items[p], t.kids[p+1]);
    PairIsIdentity(t, p);
  }

  lemma {:induction false} RotatedRightIsGood(t: Tree, p: nat, h: nat)
    requires Deficient(t, p, h) && Distinct(t) && TakesFromRight(t, p)
    ensures Repaired(t, RotatedRight(t, p), h)
    ensures InOrder(RotatedRight(t, p)) == InOrder(t)
  {
    RotatedRightContents(t, p, h);
    RotatedRightShape(t, p, h);
  }

  lemma {:induction false} RotatedRightContents(t: Tree, p: nat, h: nat)
    requires Balanced(t, h) && 0 < h && p < |t.items| && t.kids[p+1].items != []
    ensures InOrder(RotatedRight(t, p)) == InOrder(t)
  {
    var a, b, sep := t.kids[p], t.kids[p+1], t.items[p];
    Neighbours(t, p, h);
    PairIsIdentity(t, p);
    PairContents(t, p, a, sep, b);
    PairContents(t, p, WithLast(a, sep, FirstKid(b)), b.items[0], WithoutFirst(b));
    RotateRightContents(a, sep, b);
  }

  lemma {:induction false} RotatedRightShape(t: Tree, p: nat, h: nat)
    requires Deficient(t, p, h) && Distinct(t) && TakesFromRight(t, p)
    ensures Repaired(t, RotatedRight(t, p), h)
  {
    var a, b, sep := t.kids[p], t.kids[p+1], t.items[p];
    RotatedRightOids(t, p, h);
    DeficientKids(t, p, h, p);
    DeficientKids(t, p, h, p + 1);
    TookLast(a, sep, b, h - 1);
    GaveFirst(b, h - 1);
    PairShape(t, p, p, h, WithLast(a, sep, FirstKid(b)), b.items[0], WithoutFirst(b));
  }

  lemma {:induction false} RotatedRightOids(t: Tree, p: nat, h: nat)
    requires Balanced(t, h) && 0 < h && Distinct(t) && p < |t.items| && t.kids[p+1].items != []
    ensures Distinct(RotatedRight(t, p)) && Oids(RotatedRight(t, p)) == Oids(t)
  {
    var a, b, sep := t.kids[p], t.kids[p+1], t.items[p];
    Neighbours(t, p, h);
    RotateRightOids(a, sep, b);
    TradedOids(t, p, h, WithLast(a, sep, FirstKid(b)), b.items[0], WithoutFirst(b));
  }

  /** Neighbours may trade objects between them. */
  lemma {:induction false} TradedOids(t: Tree, p: nat, h: nat, a: Tree, m: Item, b: Tree)
    requires Balanced(t, h) && 0 < h && Distinct(t) && p < |t.items|
    requires Distinct(a) && Distinct(b) && Oids(a) !! Oids(b)
    requires Oids(a) + Oids(b) == Oids(t.kids[p]) + Oids(t.kids[p+1])
    ensures Distinct(WithPair(t, p, a, m, b)) && Oids(WithPair(t, p, a, m, b)) == Oids(t)
  {
    Neighbours(t, p, h);
    PairOids(t, p, a, m, b);
    DisjointParts(t.oid, KidOids(t.kids[..p]), KidOids(t.kids[p+2..]), Oids(a), Oids(b), Oids(a) + Oids(b));
  }

  lemma DisjointParts(o: nat, l: set<nat>, r: set<nat>, a: set<nat>, b: set<nat>, both: set<nat>)
    requires {o} + l + r !! both && a + b == both && a !! b && l !! r && o !in l + r
    ensures o !in l + a + b + r && l !! a + b + r && a !! b + r && b !! r
  {
  }

  lemma {:induction false} RotatedLeftIsGood(t: Tree, p: nat, h: nat, rest: seq<Item>)
    requires Deficient(t, p, h) && Distinct(t) && TakesFromLeft(t, p) && |rest| == MIN_KEYS - 1
    ensures Repaired(t, RotatedLeft(t, p, rest), h)
    ensures InOrder(RotatedLeft(t, p, rest)) == InOrder(t) <==> rest == t.kids[p].items
  {
    RotatedLeftShape(t, p, h, rest);
    RotatedLeftContents(t, p, h, rest);
  }

  lemma {:induction false} RotatedLeftShape(t: Tree, p: nat, h: nat, rest: seq<Item>)
    requires Deficient(t, p, h) && Distinct(t) && TakesFromLeft(t, p) && |rest| == MIN_KEYS - 1
    ensures Repaired(t, RotatedLeft(t, p, rest), h)
  {
    var a, b, sep := t.kids[p-1], t.kids[p], t.items[p-1];
    var a', m, b' := WithoutLast(a), a.items[|a.items| - 1], Tree(b.oid, [sep] + rest, LastKid(a) + b.kids);
    RotatedLeftOids(t, p, h, rest);
    DeficientKids(t, p, h, p - 1);
    DeficientKids(t, p, h, p);
    GaveLast(a, h - 1);
    TookFirst(a, b, [sep] + rest, h - 1);
    PairShape(t, p - 1, p, h, a', m, b');
  }

  lemma {:induction false} RotatedLeftOids(t: Tree, p: nat, h: nat, rest: seq<Item>)
    requires Balanced(t, h) && 0 < h && Distinct(t) && 0 < p <= |t.items| && t.kids[p-1].items != []
    ensures Distinct(RotatedLeft(t, p, rest)) && Oids(RotatedLeft(t, p, rest)) == Oids(t)
  {
    var a, b, sep := t.kids[p-1], t.kids[p], t.items[p-1];
    Neighbours(t, p - 1, h);
    RotateLeftOids(a, [sep] + rest, b);
    TradedOids(t, p - 1, h, WithoutLast(a), a.items[|a.items| - 1], Tree(b.oid, [sep] + rest, LastKid(a) + b.kids));
  }

  lemma {:induction false} RotatedLeftContents(t: Tree, p: nat, h: nat, rest: seq<Item>)
    requires Balanced(t, h) && 0 < h && 0 < p < |t.kids| && t.kids[p-1].items != [] && |rest| == |t.kids[p].items|
    ensures InOrder(RotatedLeft(t, p, rest)) == InOrder(t) <==> rest == t.kids[p].items
  {
    var a, b, sep := t.kids[p-1], t.kids[p], t.items[p-1];
    var a', m := WithoutLast(a), a.items[|a.items| - 1];
    var good, b' := WithFirst(b, sep, LastKid(a)), Tree(b.oid, [sep] + rest, LastKid(a) + b.kids);
    Neighbours(t, p - 1, h);
    PairIsIdentity(t, p - 1);
    PairContents(t, p - 1, a, sep, b);
    PairContents(t, p - 1, a', m, b');
    RotateLeftContents(a, sep, b);
    var l, r := Left(t.items[..p-1], t.kids[..p-1]), Right(t.items[p..], t.kids[p+1..]);
    var x, y, z := InOrder(a') + [m], InOrder(good), InOrder(b');
    assert InOrder(t) == l + (x + y) + r;
    assert InOrder(RotatedLeft(t, p, rest)) == l + (x + z) + r;
    if l + (x + z) + r == l + (x + y) + r {
      SameMiddle(l, x, y, z, r);
      if b.kids != [] {
        WeaveTellsItems([sep] + b.items, [sep] + rest, LastKid(a) + b.kids);
      }
      assert rest == ([sep] + rest)[1..] == ([sep] + b.items)[1..] == b.items;
    }
  }

  lemma {:induction false} SameMiddle(l: seq<Item>, x: seq<Item>, y: seq<Item>, z: seq<Item>, r: seq<Item>)
    requires l + (x + z) + r == l + (x + y) + r
    ensures y == z
  {
    var s := l + (x + y) + r;
    assert |y| == |z|;
    assert y == s[|l| + |x|..|l| + |x| + |y|];
    assert z == (l + (x + z) + r)[|l| + |x|..|l| + |x| + |z|];
  }

  lemma {:induction false} MergedIsGood(t: Tree, p: nat, q: nat, h: nat)
    requires Deficient(t, q, h) && Distinct(t) && (p == q || p + 1 == q) && p < |t.items|
    requires |t.kids[p].items| + |t.kids[p+1].items| <= 2 * MIN_KEYS - 1
    ensures Repaired(t, Merged(t, p), h)
    ensures InOrder(Merged(t, p)) == InOrder(t)
    ensures t.kids[p+1].oid !in Oids(Merged(t, p))
  {
    var a, b, sep := t.kids[p], t.kids[p+1], t.items[p];
    var k := Joined(a, sep, b);
    Neighbours(t, p, h);
    JoinedContents(a, sep, b);
    JoinedOids(a, sep, b);
    PairIsIdentity(t, p);
    PairContents(t, p, a, sep, b);
    MergedContents(t, p, k);
    PairOids(t, p, a, sep, b);
    KidsAround(t.kids[..p], k, t.kids[p+2..]);
    MergedShape(t, p, q, h);
  }

  /** The kids around an underfull one are good. */
  lemma {:induction false} DeficientKids(t: Tree, p: nat, h: nat, i: nat)
    requires Deficient(t, p, h) && i < |t.kids|
    ensures Balanced(t.kids[i], h - 1) && Occupied(t.kids[i])
    ensures i != p ==> GoodKid(t.kids[i], h - 1)
  {
    assert t.kids[i] in t.kids;
  }

  lemma {:induction false} PairShape(t: Tree, p: nat, q: nat, h: nat, a: Tree, m: Item, b: Tree)
    requires Deficient(t, q, h) && (q == p || q == p + 1) && p < |t.items|
    requires GoodKid(a, h - 1) && GoodKid(b, h - 1)
    ensures Balanced(WithPair(t, p, a, m, b), h) && Occupied(WithPair(t, p, a, m, b))
  {
    var t' := WithPair(t, p, a, m, b);
    forall i | 0 <= i < |t'.kids| ensures GoodKid(t'.kids[i], h - 1) {
      if i < p || p + 1 < i {
        DeficientKids(t, q, h, i);
        assert t'.kids[i] == t.kids[i];
      }
    }
    GoodNode(t', h);
  }

  /** The shapes of two neighbours after an item went from one to the other. */
  lemma {:induction false} GaveLast(a: Tree, h: nat)
    requires Balanced(a, h) && Occupied(a) && MIN_KEYS < |a.items|
    ensures GoodKid(WithoutLast(a), h)
  {
    if h > 0 {
      var n := |a.kids| - 1;
      GoodNode(a, h);
      GoodNode(WithoutLast(a), h);
      GoodKidsConcat(a.kids[..n], [a.kids[n]], h - 1);
      assert a.kids[..n] + [a.kids[n]] == a.kids;
    }
  }

  lemma {:induction false} TookFirst(a: Tree, b: Tree, items: seq<Item>, h: nat)
    requires Balanced(a, h) && Occupied(a) && a.items != [] && Balanced(b, h) && Occupied(b)
    requires |items| == |b.items| + 1 && MIN_KEYS <= |items| <= ORDER - 1
    ensures GoodKid(Tree(b.oid, items, LastKid(a) + b.kids), h)
  {
    if h > 0 {
      var n := |a.kids| - 1;
      GoodNode(a, h);
      GoodNode(b, h);
      GoodNode(Tree(b.oid, items, LastKid(a) + b.kids), h);
      GoodKidsConcat(a.kids[..n], [a.kids[n]], h - 1);
      assert a.kids[..n] + [a.kids[n]] == a.kids;
      GoodKidsConcat(LastKid(a), b.kids, h - 1);
    }
  }

  lemma {:induction false} GaveFirst(b: Tree, h: nat)
    requires Balanced(b, h) && Occupied(b) && MIN_KEYS < |b.items|
    ensures GoodKid(WithoutFirst(b), h)
  {
    if h > 0 {
      GoodNode(b, h);
      GoodNode(WithoutFirst(b), h);
      GoodKidsConcat([b.kids[0]], b.kids[1..], h - 1);
      assert [b.kids[0]] + b.kids[1..] == b.kids;
    }
  }

  lemma {:induction false} TookLast(a: Tree, sep: Item, b: Tree, h: nat)
    requires Balanced(a, h) && Occupied(a) && Balanced(b, h) && Occupied(b) && b.items != []
    requires MIN_KEYS <= |a.items| + 1 <= ORDER - 1
    ensures GoodKid(WithLast(a, sep, FirstKid(b)), h)
  {
    if h > 0 {
      GoodNode(a, h);
      GoodNode(b, h);
      GoodNode(WithLast(a, sep, FirstKid(b)), h);
      GoodKidsConcat([b.kids[0]], b.kids[1..], h - 1);
      assert [b.kids[0]] + b.kids[1..] == b.kids;
      GoodKidsConcat(a.kids, FirstKid(b), h - 1);
    }
  }

  lemma {:induction false} JoinedGood(a: Tree, sep: Item, b: Tree, h: nat)
    requires Balanced(a, h) && Occupied(a) && Balanced(b, h) && Occupied(b)
    requires MIN_KEYS <= |a.items| + 1 + |b.items| <= ORDER - 1
    ensures GoodKid(Joined(a, sep, b), h)
  {
    if h > 0 {
      GoodNode(a, h);
      GoodNode(b, h);
      GoodNode(Joined(a, sep, b), h);
      GoodKidsConcat(a.kids, b.kids, h - 1);
    }
  }

  lemma {:induction false} MergedShape(t: Tree, p: nat, q: nat, h: nat)
    requires Deficient(t, q, h) && (p == q || p + 1 == q) && p < |t.items|
    requires |t.kids[p].items| + |t.kids[p+1].items| <= 2 * MIN_KEYS - 1
    ensures Balanced(Merged(t, p), h) && Occupied(Merged(t, p))
  {
    var t' := Merged(t, p);
    DeficientKids(t, q, h, p);
    DeficientKids(t, q, h, p + 1);
    JoinedGood(t.kids[p], t.items[p], t.kids[p+1], h - 1);
    forall i | 0 <= i < |t'.kids| ensures GoodKid(t'.kids[i], h - 1) {
      if i < p {
        DeficientKids(t, q, h, i);
        assert t'.kids[i] == t.kids[i];
      } else if p < i {
        DeficientKids(t, q, h, i + 1);
        assert t'.kids[i] == t.kids[i + 1];
      }
    }
    GoodNode(t', h);
  }

  // ---------- pool ----------

  /** Stores to a parent and two neighbouring kids leave all other subtrees alone. */
  /** All objects but these three are as they were. */
  ghost predicate Untouched(pool: Pool, pool': Pool, x: nat, y: nat, z: nat) {
    forall o :: o in pool && o != x && o != y && o != z ==> o in pool' && pool'[o] == pool[o]
  }

  /** Exactly three objects changed, to these nodes. */
  ghost predicate RewiredTo(pool: Pool, pool': Pool, x: nat, nx: Node, y: nat, ny: Node, z: nat, nz: Node) {
    && {x, y, z} <= pool'.Keys == pool.Keys && pool'[x] == nx && pool'[y] == ny && pool'[z] == nz
    && Untouched(pool, pool', x, y, z)
  }

  lemma {:induction false} OthersFramed(pool: Pool, pool': Pool, t: Tree, p: nat, h: nat)
    requires Represents(pool, t) && Distinct(t) && Balanced(t, h) && 0 < h && p < |t.items|
    requires Untouched(pool, pool', t.oid, t.kids[p].oid, t.kids[p+1].oid)
    ensures forall k :: k in t.kids[p].kids || k in t.kids[p+1].kids ==> Represents(pool', k)
    ensures forall k :: k in t.kids[..p] || k in t.kids[p+2..] ==> Represents(pool', k)
  {
    var a, b := t.kids[p], t.kids[p+1];
    assert a in t.kids && b in t.kids;
    OthersApart(t, p, h);
    FrameKids(pool, pool', a.kids);
    FrameKids(pool, pool', b.kids);
    FrameKids(pool, pool', t.kids[..p]);
    FrameKids(pool, pool', t.kids[p+2..]);
  }

  /** Neither of the three nodes a repair works on is used below them, or by the other kids. */
  lemma {:induction false} OthersApart(t: Tree, p: nat, h: nat)
    requires Distinct(t) && Balanced(t, h) && 0 < h && p < |t.items|
    ensures
      var a, b := t.kids[p], t.kids[p+1];
      KidOids(a.kids) + KidOids(b.kids) + KidOids(t.kids[..p]) + KidOids(t.kids[p+2..]) !! {t.oid, a.oid, b.oid}
  {
    var a, b := t.kids[p], t.kids[p+1];
    Neighbours(t, p, h);
    assert a.oid in Oids(a) && b.oid in Oids(b);
    assert KidOids(a.kids) <= Oids(a) && KidOids(b.kids) <= Oids(b);
  }

  /** The three nodes a repair works on are distinct and store what t says. */
  lemma {:induction false} RepairCells(pool: Pool, t: Tree, p: nat, h: nat)
    requires Represents(pool, t) && Distinct(t) && Balanced(t, h) && 0 < h && p < |t.items|
    ensures var a, b := t.kids[p], t.kids[p+1];
      && a.oid in pool && b.oid in pool && a.oid != 0 && b.oid != 0
      && Stores(pool[a.oid], a) && Stores(pool[b.oid], b)
      && t.oid != a.oid && t.oid != b.oid && a.oid != b.oid && Peers(a, b)
      && pool[t.oid].items[p] == t.items[p]
  {
    assert t.kids[p] in t.kids && t.kids[p+1] in t.kids;
    Neighbours(t, p, h);
    assert t.kids[p].oid in Oids(t.kids[p]) && t.kids[p+1].oid in Oids(t.kids[p+1]);
  }

  /** Two neighbours and their parent were rewritten. */
  lemma {:induction false} PairRepresented(
    pool: Pool, pool': Pool, t: Tree, p: nat, h: nat, a: Tree, m: Item, b: Tree)
    requires Represents(pool, t) && Distinct(t) && Balanced(t, h) && 0 < h && p < |t.items|
    requires Untouched(pool, pool', t.oid, t.kids[p].oid, t.kids[p+1].oid)
    requires {t.oid, a.oid, b.oid} <= pool'.Keys && a.oid == t.kids[p].oid && b.oid == t.kids[p+1].oid
    requires Stores(pool'[a.oid], a) && Stores(pool'[b.oid], b)
    requires pool'[t.oid] == ParentWith(pool[t.oid], p, m)
    requires forall k :: k in a.kids || k in b.kids ==> k in t.kids[p].kids || k in t.kids[p+1].kids
    ensures Represents(pool', WithPair(t, p, a, m, b))
  {
    var t' := WithPair(t, p, a, m, b);
    assert t.kids[p] in t.kids && t.kids[p+1] in t.kids && a.oid != 0 && b.oid != 0;
    OthersFramed(pool, pool', t, p, h);
    ParentItemStores(pool[t.oid], t, p, a, m, b);
    assert Represents(pool', a) && Represents(pool', b);
    assert forall k :: k in t'.kids ==> k in t.kids[..p] || k == a || k == b || k in t.kids[p+2..];
  }

  /** A node took over its right neighbour, whose object is gone. */
  lemma {:induction false} MergedRepresented(pool: Pool, pool': Pool, t: Tree, p: nat, h: nat)
    requires Represents(pool, t) && Distinct(t) && Balanced(t, h) && 0 < h && p < |t.items|
    requires Untouched(pool, pool', t.oid, t.kids[p].oid, t.kids[p+1].oid)
    requires {t.oid, t.kids[p].oid} <= pool'.Keys
    requires Stores(pool'[t.kids[p].oid], Joined(t.kids[p], t.items[p], t.kids[p+1]))
    requires pool'[t.oid] == NodeClosedUp(pool[t.oid], p)
    ensures Represents(pool', Merged(t, p))
  {
    var t', k := Merged(t, p), Joined(t.kids[p], t.items[p], t.kids[p+1]);
    assert t.kids[p] in t.kids && k.oid != 0;
    OthersFramed(pool, pool', t, p, h);
    NodeClosedUpStores(pool[t.oid], t, p, k);
    assert Represents(pool', k);
    assert forall x :: x in t'.kids ==> x in t.kids[..p] || x == k || x in t.kids[p+2..];
  }

  /** The merged kid of an emptied root does not need the root. */
  lemma {:induction false} OnlyKidSurvives(pool: Pool, pool': Pool, t: Tree, p: nat, h: nat)
    requires |t.items| == 1 && |t.kids| == 2 && p == 0 && Balanced(t, h) && 0 < h && Distinct(t)
    requires Represents(pool, Merged(t, p))
    requires pool' == pool - {t.oid}
    ensures Represents(pool', Joined(t.kids[p], t.items[p], t.kids[p+1]))
  {
    var k := Joined(t.kids[p], t.items[p], t.kids[p+1]);
    assert Merged(t, p).kids == [k];
    assert k in Merged(t, p).kids;
    Neighbours(t, p, h);
    JoinedOids(t.kids[p], t.items[p], t.kids[p+1]);
    Frame(pool, pool', k);
  }

  /** Where the kids next to p are stored. */
  lemma {:induction false} KidOidsInside(pool: Pool, t: Tree, p: nat, h: nat)
    requires Represents(pool, t) && Distinct(t) && Deficient(t, p, h)
    ensures t.kids[p].oid in pool && Stores(pool[t.kids[p].oid], t.kids[p]) && t.kids[p].oid in Oids(t)
    ensures forall i :: 0 <= i < |t.kids| ==>
      && t.kids[i].oid != 0 && t.kids[i].oid in pool && pool[t.kids[i].oid].n == |t.kids[i].items|
      && pool[t.oid].slots[i] == t.kids[i].oid && t.kids[i].oid in Oids(t)
  {
    forall i | 0 <= i < |t.kids|
      ensures t.kids[i].oid != 0 && t.kids[i].oid in pool && Stores(pool[t.kids[i].oid], t.kids[i])
      ensures t.kids[i].oid in Oids(t)
    {
      assert t.kids[i] in t.kids;
      KidWithin(t.kids, t.kids[i]);
    }
  }

  /**
    What a repair of kid p of t amounts to. The contents are kept exactly when
    the clobbering case is avoided, or makes no difference; an emptied root is
    replaced by its only kid; objects outside t are not touched.
   */
  ghost predicate RepairDone(pool: Pool, root: nat, pool': Pool, root': nat, t: Tree, p: nat, h: nat, t': Tree)
    requires Represents(pool, t) && Deficient(t, p, h)
  {
    && Repaired(t, t', h) && |t'.items| == |t.items| - (if Shrinks(t, p) then 1 else 0) && Evened(t, p, t')
    && t.kids[p].oid in pool && Stores(pool[t.kids[p].oid], t.kids[p])
    && KeptUnlessClobbered(pool[t.kids[p].oid], t, p, t')
    && Replaced(pool, root, pool', root', t, t')
  }

  /** Kid `from` gave one item up and kid `to` got one more; the other kids are the same. */
  ghost predicate OneMoved(t: Tree, t': Tree, to: nat, from: nat)
    requires to < |t.kids| && from < |t.kids|
  {
    && |t'.kids| == |t.kids| && |t'.kids[to].items| == |t.kids[to].items| + 1
    && |t'.kids[from].items| == |t.kids[from].items| - 1
    && forall j :: 0 <= j < |t.kids| && j != to && j != from ==> t'.kids[j] == t.kids[j]
  }

  /** Kids i and i + 1 and the item between them became one kid; the other kids are the same. */
  ghost predicate TwoJoined(t: Tree, t': Tree, i: nat)
    requires i + 1 < |t.kids|
  {
    && |t'.kids| == |t.kids| - 1 && |t'.kids[i].items| == |t.kids[i].items| + 1 + |t.kids[i+1].items|
    && (forall j :: 0 <= j < i ==> t'.kids[j] == t.kids[j])
    && (forall j :: i < j < |t'.kids| ==> t'.kids[j] == t.kids[j+1])
  }

  /**
    The right neighbour gives an item if it can spare one, or else the left one;
    if neither can, the kid is joined with its right neighbour, or with the left
    one if it is the last kid.
   */
  ghost predicate Evened(t: Tree, p: nat, t': Tree)
    requires p < |t.kids| && 2 <= |t.kids|
  {
    var last := |t.kids| - 1;
    if p < last && |t.kids[p+1].items| > MIN_KEYS then OneMoved(t, t', p, p + 1)
    else if 0 < p && |t.kids[p-1].items| > MIN_KEYS then OneMoved(t, t', p, p - 1)
    else TwoJoined(t, t', if p < last then p else p - 1)
  }

  lemma {:induction false} PairMoved(t: Tree, p: nat, a: Tree, m: Item, b: Tree)
    requires p + 1 < |t.kids| && p < |t.items|
    ensures
      var t' := WithPair(t, p, a, m, b);
      && |t'.kids| == |t.kids| && t'.kids[p] == a && t'.kids[p+1] == b
      && forall j :: 0 <= j < |t.kids| && j != p && j != p + 1 ==> t'.kids[j] == t.kids[j]
  {
  }

  lemma {:induction false} MergedJoins(t: Tree, i: nat)
    requires i + 1 < |t.kids| && i < |t.items|
    ensures TwoJoined(t, Merged(t, i), i)
  {
  }

  ghost predicate KeptUnlessClobbered(nd: Node, t: Tree, p: nat, t': Tree)
    requires |t.kids| == |t.items| + 1 && p < |t.kids| && t.kids[p].items != [] && Cells(nd)
  {
    InOrder(t') == InOrder(t) <==> !Clobbers(t, p) || nd.items[1..3] == t.kids[p].items
  }

  /** Objects outside t are not touched; those of t that t' has no use for are freed, and no others. */
  ghost predicate Framed(pool: Pool, pool': Pool, t: Tree, t': Tree) {
    && (forall o :: o in pool && o !in Oids(t) ==> o in pool' && pool'[o] == pool[o])
    && Spare(pool', t') == Spare(pool, t)
  }

  lemma {:induction false} FramedByThree(pool: Pool, pool': Pool, t: Tree, p: nat, h: nat, t': Tree)
    requires Distinct(t) && Balanced(t, h) && 0 < h && p < |t.items|
    requires Untouched(pool, pool', t.oid, t.kids[p].oid, t.kids[p+1].oid) && Spare(pool', t') == Spare(pool, t)
    ensures Framed(pool, pool', t, t')
  {
    Neighbours(t, p, h);
    assert t.kids[p].oid in Oids(t.kids[p]) && t.kids[p+1].oid in Oids(t.kids[p+1]);
  }

  /** The pool holds t' in place of t, or the only kid of t' when t was the root and has no items left. */
  ghost predicate Replaced(pool: Pool, root: nat, pool': Pool, root': nat, t: Tree, t': Tree) {
    if t'.items == [] && t'.kids != [] && t.oid == root
    then root' == t'.kids[0].oid && Represents(pool', t'.kids[0]) && Framed(pool, pool', t, t'.kids[0])
    else root' == root && Represents(pool', t') && Framed(pool, pool', t, t')
  }

  lemma {:induction false} RotatedRightRepresented(pool: Pool, pool': Pool, t: Tree, p: nat, h: nat)
    requires Represents(pool, t) && Distinct(t) && Deficient(t, p, h) && TakesFromRight(t, p)
    requires
      var a, b := t.kids[p], t.kids[p+1];
      && {a.oid, b.oid} <= pool.Keys && Stores(pool[a.oid], a) && Stores(pool[b.oid], b)
      && RewiredTo(pool, pool', t.oid, ParentWith(pool[t.oid], p, pool[b.oid].items[0]),
                           a.oid, NodeWithLast(pool[a.oid], pool[t.oid].items[p], pool[b.oid].slots[0]),
                           b.oid, NodeWithoutFirst(pool[b.oid]))
    ensures Represents(pool', RotatedRight(t, p)) && Framed(pool, pool', t, RotatedRight(t, p))
  {
    var a, b, sep := t.kids[p], t.kids[p+1], t.items[p];
    RepairCells(pool, t, p, h);
    RotatedRightOids(t, p, h);
    FramedByThree(pool, pool', t, p, h, RotatedRight(t, p));
    TakerOnLeftStores(pool[a.oid], a, sep, pool[b.oid].slots[0], b);
    GiverOnRightStores(pool[b.oid], b);
    assert pool[b.oid].items[0] == b.items[0];
    PairRepresented(pool, pool', t, p, h, WithLast(a, sep, FirstKid(b)), b.items[0], WithoutFirst(b));
  }

  lemma {:induction false} AfterRotateRight(pool: Pool, root: nat, pool': Pool, t: Tree, p: nat, h: nat)
    requires Represents(pool, t) && Distinct(t) && Deficient(t, p, h) && TakesFromRight(t, p)
    requires
      var a, b := t.kids[p], t.kids[p+1];
      && {a.oid, b.oid} <= pool.Keys && Stores(pool[a.oid], a) && Stores(pool[b.oid], b)
      && RewiredTo(pool, pool', t.oid, ParentWith(pool[t.oid], p, pool[b.oid].items[0]),
                           a.oid, NodeWithLast(pool[a.oid], pool[t.oid].items[p], pool[b.oid].slots[0]),
                           b.oid, NodeWithoutFirst(pool[b.oid]))
    ensures RepairDone(pool, root, pool', root, t, p, h, RotatedRight(t, p))
  {
    var a, b := t.kids[p], t.kids[p+1];
    PairMoved(t, p, WithLast(a, t.items[p], FirstKid(b)), b.items[0], WithoutFirst(b));
    RepairCells(pool, t, p, h);
    RotatedRightIsGood(t, p, h);
    RotatedRightRepresented(pool, pool', t, p, h);
  }

  /** The items that follow the separator in the node that took it at the front. */
  ghost function TakenRest(nd: Node, b: Tree): seq<Item>
    requires Cells(nd) && nd.n < ORDER - 1 && b.items != []
  {
    if b.items[0].key != 0 then b.items else nd.items[1..nd.n + 1]
  }

  lemma {:induction false} RotatedLeftRepresented(pool: Pool, pool': Pool, t: Tree, p: nat, h: nat)
    requires Represents(pool, t) && Distinct(t) && Deficient(t, p, h) && TakesFromLeft(t, p)
    requires
      var a, b := t.kids[p-1], t.kids[p];
      && {a.oid, b.oid} <= pool.Keys && Stores(pool[a.oid], a) && Stores(pool[b.oid], b)
      && RewiredTo(pool, pool', t.oid, ParentWith(pool[t.oid], p - 1, pool[a.oid].items[pool[a.oid].n - 1]),
                           b.oid, NodeWithFirst(pool[b.oid], pool[t.oid].items[p-1], pool[a.oid].slots[pool[a.oid].n]),
                           a.oid, pool[a.oid].(n := pool[a.oid].n - 1))
    ensures Represents(pool', RotatedLeft(t, p, TakenRest(pool[t.kids[p].oid], t.kids[p])))
  {
    var a, b, sep := t.kids[p-1], t.kids[p], t.items[p-1];
    var rest := TakenRest(pool[b.oid], b);
    RepairCells(pool, t, p - 1, h);
    assert pool[b.oid].items[0] == b.items[0];
    TakerOnRightStores(pool[b.oid], b, sep, pool[a.oid].slots[pool[a.oid].n], a);
    GiverOnLeftStores(pool[a.oid], a);
    assert pool[a.oid].items[pool[a.oid].n - 1] == a.items[|a.items| - 1];
    PairRepresented(pool, pool', t, p - 1, h,
      WithoutLast(a), a.items[|a.items| - 1], Tree(b.oid, [sep] + rest, LastKid(a) + b.kids));
  }

  lemma {:induction false} AfterRotateLeft(pool: Pool, root: nat, pool': Pool, t: Tree, p: nat, h: nat)
    requires Represents(pool, t) && Distinct(t) && Deficient(t, p, h) && TakesFromLeft(t, p)
    requires
      var a, b := t.kids[p-1], t.kids[p];
      && {a.oid, b.oid} <= pool.Keys && Stores(pool[a.oid], a) && Stores(pool[b.oid], b)
      && RewiredTo(pool, pool', t.oid, ParentWith(pool[t.oid], p - 1, pool[a.oid].items[pool[a.oid].n - 1]),
                           b.oid, NodeWithFirst(pool[b.oid], pool[t.oid].items[p-1], pool[a.oid].slots[pool[a.oid].n]),
                           a.oid, pool[a.oid].(n := pool[a.oid].n - 1))
    ensures RepairDone(pool, root, pool', root, t, p, h, RotatedLeft(t, p, TakenRest(pool[t.kids[p].oid], t.kids[p])))
  {
    RepairCells(pool, t, p - 1, h);
    var rest := TakenRest(pool[t.kids[p].oid], t.kids[p]);
    TakenRestTells(pool[t.kids[p].oid], t.kids[p]);
    RotatedLeftIsGood(t, p, h, rest);
    RotatedLeftEvened(t, p, h, rest);
    RotatedLeftRepresented(pool, pool', t, p, h);
    RotatedLeftFramed(pool, pool', t, p, h, rest);
  }

  lemma {:induction false} RotatedLeftEvened(t: Tree, p: nat, h: nat, rest: seq<Item>)
    requires Deficient(t, p, h) && TakesFromLeft(t, p) && |rest| == MIN_KEYS - 1
    ensures Evened(t, p, RotatedLeft(t, p, rest))
  {
    var a, b := t.kids[p-1], t.kids[p];
    PairMoved(t, p - 1, WithoutLast(a), a.items[|a.items| - 1],
              Tree(b.oid, [t.items[p-1]] + rest, LastKid(a) + b.kids));
  }

  lemma {:induction false} RotatedLeftFramed(pool: Pool, pool': Pool, t: Tree, p: nat, h: nat, rest: seq<Item>)
    requires Distinct(t) && Balanced(t, h) && 0 < h && 0 < p <= |t.items| && t.kids[p-1].items != []
    requires Untouched(pool, pool', t.oid, t.kids[p-1].oid, t.kids[p].oid) && pool'.Keys == pool.Keys
    ensures Framed(pool, pool', t, RotatedLeft(t, p, rest))
  {
    RotatedLeftOids(t, p, h, rest);
    FramedByThree(pool, pool', t, p - 1, h, RotatedLeft(t, p, rest));
  }

  lemma {:induction false} TakenRestTells(nd: Node, b: Tree)
    requires Stores(nd, b) && |b.items| == MIN_KEYS - 1
    ensures |TakenRest(nd, b)| == MIN_KEYS - 1
    ensures TakenRest(nd, b) == b.items <==> b.items[0].key != 0 || nd.items[1..3] == b.items
  {
  }

  /** The objects after `node` took over the separator at p and all of rn. */
  function MergedPool(pool: Pool, rn: nat, node: nat, parent: nat, p: nat): Pool
    requires {rn, node, parent} <= pool.Keys && Cells(pool[rn]) && Cells(pool[node]) && Cells(pool[parent])
    requires p < pool[parent].n && pool[node].n + 1 + pool[rn].n <= ORDER - 1
  {
    var merged := NodeMerged(pool[node], pool[parent].items[p], pool[rn]);
    (pool[node := merged] - {rn})[parent := NodeClosedUp(pool[parent], p)]
  }

  lemma {:induction false} MergedPoolReads(pool: Pool, rn: nat, node: nat, parent: nat, p: nat)
    requires {rn, node, parent} <= pool.Keys && Cells(pool[rn]) && Cells(pool[node]) && Cells(pool[parent])
    requires p < pool[parent].n && pool[node].n + 1 + pool[rn].n <= ORDER - 1
    requires rn != node && rn != parent && node != parent
    ensures var pool' := MergedPool(pool, rn, node, parent, p);
      && pool'.Keys == pool.Keys - {rn} && pool'[node] == NodeMerged(pool[node], pool[parent].items[p], pool[rn])
      && pool'[parent] == NodeClosedUp(pool[parent], p) && Untouched(pool, pool', parent, node, rn)
  {
  }

  function Freed(pool: Pool, oid: nat): Pool {
    pool - {oid}
  }

  lemma {:induction false} MergedPoolRepresents(pool: Pool, t: Tree, p: nat, h: nat)
    requires Represents(pool, t) && Distinct(t) && Balanced(t, h) && 0 < h && p < |t.items|
    requires |t.kids[p].items| + |t.kids[p+1].items| <= 2 * MIN_KEYS - 1
    ensures {t.kids[p+1].oid, t.kids[p].oid, t.oid} <= pool.Keys
    ensures Cells(pool[t.kids[p+1].oid]) && Cells(pool[t.kids[p].oid]) && Cells(pool[t.oid])
    ensures p < pool[t.oid].n && pool[t.kids[p].oid].n + 1 + pool[t.kids[p+1].oid].n <= ORDER - 1
    ensures Represents(MergedPool(pool, t.kids[p+1].oid, t.kids[p].oid, t.oid, p), Merged(t, p))
  {
    var a, b := t.kids[p], t.kids[p+1];
    RepairCells(pool, t, p, h);
    NodeMergedStores(pool[a.oid], a, t.items[p], pool[b.oid], b);
    var pool' := MergedPool(pool, b.oid, a.oid, t.oid, p);
    MergedPoolReads(pool, b.oid, a.oid, t.oid, p);
    MergedRepresented(pool, pool', t, p, h);
  }

  /** The pool with the merged kids, as long as the parent stays. */
  lemma {:induction false} MergedPoolFramed(pool: Pool, t: Tree, p: nat, h: nat)
    requires Represents(pool, t) && Distinct(t) && Balanced(t, h) && 0 < h && p < |t.items|
    requires |t.kids[p].items| + |t.kids[p+1].items| <= 2 * MIN_KEYS - 1
    ensures {t.kids[p+1].oid, t.kids[p].oid, t.oid} <= pool.Keys
    ensures Cells(pool[t.kids[p+1].oid]) && Cells(pool[t.kids[p].oid]) && Cells(pool[t.oid])
    ensures p < pool[t.oid].n && pool[t.kids[p].oid].n + 1 + pool[t.kids[p+1].oid].n <= ORDER - 1
    ensures Framed(pool, MergedPool(pool, t.kids[p+1].oid, t.kids[p].oid, t.oid, p), t, Merged(t, p))
  {
    RepairCells(pool, t, p, h);
    MergedPoolReads(pool, t.kids[p+1].oid, t.kids[p].oid, t.oid, p);
    MergedOids(t, p, h);
    FramedByThree(pool, MergedPool(pool, t.kids[p+1].oid, t.kids[p].oid, t.oid, p), t, p, h, Merged(t, p));
  }

  /** The objects after a merge: all but the one that was merged away. */
  lemma {:induction false} MergedOids(t: Tree, p: nat, h: nat)
    requires Distinct(t) && Balanced(t, h) && 0 < h && p < |t.items|
    ensures Oids(Merged(t, p)) == Oids(t) - {t.kids[p+1].oid} && t.kids[p+1].oid in Oids(t)
  {
    var a, b, sep := t.kids[p], t.kids[p+1], t.items[p];
    Neighbours(t, p, h);
    JoinedOids(a, sep, b);
    KidsAround(t.kids[..p], Joined(a, sep, b), t.kids[p+2..]);
    assert b.oid in Oids(b);
  }

  /** An emptied root gives way to its only kid, and its object is freed. */
  lemma {:induction false} FreedFramed(pool: Pool, pool': Pool, t: Tree, t': Tree, k: Tree)
    requires Framed(pool, pool', t, t') && t'.oid == t.oid && t'.kids == [k] && t.oid !in Oids(k)
    ensures Framed(pool, Freed(pool', t.oid), t, k)
  {
    KidsOfOne(k);
  }

  lemma {:induction false} MergedPoolReplaced(
    pool: Pool, root: nat, pool': Pool, root': nat, t: Tree, p: nat, h: nat)
    requires Represents(pool, t) && Distinct(t) && Balanced(t, h) && 0 < h && p < |t.items|
    requires |t.kids[p].items| + |t.kids[p+1].items| <= 2 * MIN_KEYS - 1
    requires
      var a, b := t.kids[p], t.kids[p+1];
      && {a.oid, b.oid} <= pool.Keys && Stores(pool[a.oid], a) && Stores(pool[b.oid], b)
      && var merged := MergedPool(pool, b.oid, a.oid, t.oid, p);
         if |t.items| == 1 && t.oid == root then pool' == Freed(merged, t.oid) && root' == a.oid
         else pool' == merged && root' == root
    ensures Replaced(pool, root, pool', root', t, Merged(t, p))
  {
    var a, b := t.kids[p], t.kids[p+1];
    var merged := MergedPool(pool, b.oid, a.oid, t.oid, p);
    MergedPoolRepresents(pool, t, p, h);
    MergedPoolFramed(pool, t, p, h);
    if |t.items| == 1 && t.oid == root {
      var k := Joined(a, t.items[p], b);
      assert Merged(t, p).kids == [k];
      OnlyKidSurvives(merged, pool', t, p, h);
      Neighbours(t, p, h);
      JoinedOids(a, t.items[p], b);
      FreedFramed(pool, merged, t, Merged(t, p), k);
    }
  }

  /** Kids p and p + 1 were merged, q being the deficient one. */
  lemma {:induction false} AfterMerge(
    pool: Pool, root: nat, pool': Pool, root': nat, t: Tree, p: nat, q: nat, h: nat)
    requires Represents(pool, t) && Distinct(t) && Deficient(t, q, h) && (p == q || p + 1 == q) && p < |t.items|
    requires |t.kids[p].items| + |t.kids[p+1].items| <= 2 * MIN_KEYS - 1
    requires
      var a, b := t.kids[p], t.kids[p+1];
      && {a.oid, b.oid} <= pool.Keys && Stores(pool[a.oid], a) && Stores(pool[b.oid], b)
      && var merged := MergedPool(pool, b.oid, a.oid, t.oid, p);
         if |t.items| == 1 && t.oid == root then pool' == Freed(merged, t.oid) && root' == a.oid
         else pool' == merged && root' == root
    requires Shrinks(t, q) && (p == q || q == |t.items|)
    ensures RepairDone(pool, root, pool', root', t, q, h, Merged(t, p))
  {
    RepairCells(pool, t, p, h);
    MergedJoins(t, p);
    MergedIsGood(t, p, q, h);
    MergedPoolReplaced(pool, root, pool', root', t, p, h);
  }

  // ---------- when taking from the left loses an item ----------

  /** Strictly increasing keys rule the loss out. */
  lemma {:induction false} DistinctKeysNeverClobber(t: Tree, p: nat, h: nat)
    requires Deficient(t, p, h)
    requires forall i, j :: 0 <= i < j < |InOrder(t)| ==> InOrder(t)[i].key < InOrder(t)[j].key
    ensures !Clobbers(t, p)
  {
    if 0 < p {
      var s, b := InOrder(t), t.kids[p];
      assert t.kids[p] in t.kids;
      InOrderAround(t, p);
      var l, r := Left(t.items[..p], t.kids[..p]), Right(t.items[p..], t.kids[p+1..]);
      LeftEndsWithLastItem(t.items[..p], t.kids[..p]);
      assert Balanced(b, h - 1);
      ItemListed(b, 0);
      var x :| 0 <= x < |InOrder(b)| && InOrder(b)[x] == b.items[0];
      assert s == l + InOrder(b) + r;
      assert s[|l| + x] == b.items[0];
      assert s[|l| - 1].key < s[|l| + x].key;
    }
  }

  /** Items with keys 0 and 5 in two leaves: the right one is underfull, and the left one can spare an item. */
  function ZeroKeys(): Tree {
    Tree(1, [Item(0, 9)],
         [Tree(2, [Item(0, 1), Item(0, 2), Item(0, 3), Item(0, 4)], []), Tree(3, [Item(0, 7), Item(5, 8)], [])])
  }

  lemma {:induction false} ZeroKeysMeets()
    ensures var t := ZeroKeys();
      Deficient(t, 1, 1) && TakesFromLeft(t, 1) && Clobbers(t, 1) && Distinct(t) && Sorted(InOrder(t))
  {
    var t := ZeroKeys();
    var a, b := t.kids[0], t.kids[1];
    assert t.kids == [a, b];
    assert KidOids([]) == {} && Oids(a) == {2} && Oids(b) == {3};
    KidsAround([a], b, []);
    KidsOfOne(a);
    assert [a] + [b] + [] == t.kids;
    assert t.kids[1..] == [b] && t.items[1..] == [];
    assert Weave([], [b]) == b.items;
    assert InOrder(t) == a.items + t.items + b.items;
  }

  /** A pool that holds it, with empty cells behind the live ones. */
  function ZeroKeysPool(): Pool {
    var dead := EMPTY_ITEM;
    map[1 := Node(1, [Item(0, 9), dead, dead, dead, dead, dead, dead], [2, 3, 0, 0, 0, 0, 0, 0]),
        2 := Node(4, [Item(0, 1), Item(0, 2), Item(0, 3), Item(0, 4), dead, dead, dead], [0, 0, 0, 0, 0, 0, 0, 0]),
        3 := Node(2, [Item(0, 7), Item(5, 8), dead, dead, dead, dead, dead], [0, 0, 0, 0, 0, 0, 0, 0])]
  }

  lemma {:induction false} ZeroKeysStored()
    ensures Represents(ZeroKeysPool(), ZeroKeys())
  {
    var pool, t := ZeroKeysPool(), ZeroKeys();
    assert t.kids == [t.kids[0], t.kids[1]];
    assert pool[1].items[..1] == t.items;
    assert pool[2].items[..4] == t.kids[0].items;
    assert pool[3].items[..2] == t.kids[1].items;
    assert Represents(pool, t.kids[0]) && Represents(pool, t.kids[1]);
  }

  /**
    Taking from the left can lose an item: this sorted tree in this pool meets
    all that the repair asks for, and no outcome of the repair has its contents.
   */
  lemma {:induction false} ZeroKeyIsOverwritten(root: nat, pool': Pool, root': nat, t': Tree)
    ensures
      var pool, t := ZeroKeysPool(), ZeroKeys();
      && Represents(pool, t) && Distinct(t) && Deficient(t, 1, 1) && Sorted(InOrder(t))
      && (RepairDone(pool, root, pool', root', t, 1, 1, t') ==> InOrder(t') != InOrder(t))
      && InOrder(RotatedLeft(t, 1, TakenRest(pool[3], t.kids[1]))) != InOrder(t)
  {
    var pool, t := ZeroKeysPool(), ZeroKeys();
    ZeroKeysStored();
    ZeroKeysMeets();
    var b := t.kids[1];
    assert pool[3].items[1..3][1] == EMPTY_ITEM && b.items[1] == Item(5, 8);
    TakenRestTells(pool[3], b);
    RotatedLeftIsGood(t, 1, 1, TakenRest(pool[3], b));
  }
}
