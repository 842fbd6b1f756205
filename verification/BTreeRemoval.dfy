/**
  Removing an item from a tree: from a leaf directly, from an inner node by
  moving its successor up, and the repairs that follow.
 */
module BTreeRemoval {
  import opened BTreeShape
  import opened BTreeEdits
  import opened BTreePool
  import opened BTreeRepair

  ghost function Drop(s: seq<Item>, at: nat): seq<Item>
    requires at < |s|
  {
    s[..at] + s[at+1..]
  }

  /** Only the first item may have key 0. */
  ghost predicate ZeroOnce(s: seq<Item>) {
    forall j :: 0 < j < |s| ==> s[j].key != 0
  }

  lemma {:induction false} OrderAfterDrop(s: seq<Item>, at: nat)
    requires Sorted(s) && ZeroOnce(s) && at < |s|
    ensures Sorted(Drop(s, at)) && ZeroOnce(Drop(s, at))
  {
  }

  lemma {:induction false} PartInOrder(l: seq<Item>, m: seq<Item>, r: seq<Item>)
    requires Sorted(l + m + r) && ZeroOnce(l + m + r)
    ensures Sorted(m) && ZeroOnce(m)
  {
    SortedMiddle(l, m, r);
    forall j | 0 < j < |m| ensures m[j].key != 0 { assert (l + m + r)[|l| + j] == m[j]; }
  }

  lemma {:induction false} KidInOrder(t: Tree, i: nat)
    requires |t.kids| == |t.items| + 1 && i <= |t.items| && Sorted(InOrder(t)) && ZeroOnce(InOrder(t))
    ensures Sorted(InOrder(t.kids[i])) && ZeroOnce(InOrder(t.kids[i]))
  {
    InOrderAround(t, i);
    PartInOrder(Left(t.items[..i], t.kids[..i]), InOrder(t.kids[i]), Right(t.items[i..], t.kids[i+1..]));
  }

  /** With at most one key 0, taking from the left overwrites nothing. */
  lemma {:induction false} ZeroOnceNeverClobbers(t: Tree, p: nat, h: nat)
    requires Deficient(t, p, h) && (0 < p ==> ZeroOnce(InOrder(t)))
    ensures !Clobbers(t, p)
  {
    if 0 < p {
      var s, b := InOrder(t), t.kids[p];
      var l, r := Left(t.items[..p], t.kids[..p]), Right(t.items[p..], t.kids[p+1..]);
      InOrderAround(t, p);
      LeftEndsWithLastItem(t.items[..p], t.kids[..p]);
      DeficientKids(t, p, h, p);
      ItemListed(b, 0);
      var x :| 0 <= x < |InOrder(b)| && InOrder(b)[x] == b.items[0];
      assert s[|l| + x] == b.items[0];
    }
  }

  // ---------- one kid changes ----------

  /** An item dropped from kid i is dropped from t. */
  lemma {:induction false} KidDropped(t: Tree, i: nat, c: Tree, at: nat)
    requires |t.kids| == |t.items| + 1 && i <= |t.items| && at < |InOrder(t.kids[i])|
    requires InOrder(c) == Drop(InOrder(t.kids[i]), at)
    ensures var all := |Left(t.items[..i], t.kids[..i])| + at;
      && all < |InOrder(t)| && InOrder(t)[all] == InOrder(t.kids[i])[at]
      && InOrder(ReplaceKid(t, i, c)) == Drop(InOrder(t), all)
  {
    InOrderAround(t, i);
    ReplaceKidListed(t, i, c);
    DropInside(Left(t.items[..i], t.kids[..i]), InOrder(t.kids[i]), Right(t.items[i..], t.kids[i+1..]), at);
  }

  lemma {:induction false} ReplaceKidListed(t: Tree, i: nat, c: Tree)
    requires |t.kids| == |t.items| + 1 && i <= |t.items|
    ensures InOrder(ReplaceKid(t, i, c)) ==
      Left(t.items[..i], t.kids[..i]) + InOrder(c) + Right(t.items[i..], t.kids[i+1..])
  {
    var t' := ReplaceKid(t, i, c);
    InOrderAround(t', i);
    assert t'.kids[..i] == t.kids[..i] && t'.kids[i+1..] == t.kids[i+1..] && t'.kids[i] == c;
  }

  lemma {:induction false} DropInside(l: seq<Item>, m: seq<Item>, r: seq<Item>, at: nat)
    requires at < |m|
    ensures (l + m + r)[|l| + at] == m[at] && l + Drop(m, at) + r == Drop(l + m + r, |l| + at)
  {
  }

  /** The shape after kid i was replaced. */
  lemma {:induction false} KidReplacedShape(t: Tree, i: nat, c: Tree, h: nat)
    requires 0 < h && Balanced(t, h) && Occupied(t) && i < |t.kids| && Balanced(c, h - 1)
    ensures Balanced(ReplaceKid(t, i, c), h)
    ensures Occupied(ReplaceKid(t, i, c)) <==> GoodKid(c, h - 1)
  {
    var t' := ReplaceKid(t, i, c);
    GoodNode(t, h);
    assert forall j :: 0 <= j < |t.kids| ==> t'.kids[j] == if j == i then c else t.kids[j];
    assert Balanced(t', h) by {
      forall k | k in t'.kids ensures Balanced(k, h - 1) {
        var j :| 0 <= j < |t'.kids| && t'.kids[j] == k;
        assert j != i ==> GoodKid(t.kids[j], h - 1);
      }
    }
    GoodNode(t', h);
    if GoodKid(c, h - 1) {
      forall j | 0 <= j < |t'.kids| ensures GoodKid(t'.kids[j], h - 1) { assert j != i ==> GoodKid(t.kids[j], h - 1); }
    }
    if Occupied(t') { assert GoodKid(t'.kids[i], h - 1); }
  }

  /** A kid one short, and all others good: what a repair asks for. */
  lemma {:induction false} KidReplacedDeficient(t: Tree, i: nat, c: Tree, h: nat)
    requires 0 < h && Balanced(t, h) && Occupied(t) && i < |t.kids| && t.items != []
    requires Balanced(c, h - 1) && Occupied(c) && |c.items| == MIN_KEYS - 1
    ensures Deficient(ReplaceKid(t, i, c), i, h)
  {
    var t' := ReplaceKid(t, i, c);
    KidReplacedShape(t, i, c, h);
    GoodNode(t, h);
    assert forall j :: 0 <= j < |t.kids| ==> t'.kids[j] == if j == i then c else t.kids[j];
    forall j | 0 <= j < |t'.kids| && j != i ensures GoodKid(t'.kids[j], h - 1) { assert GoodKid(t.kids[j], h - 1); }
    forall k | k in t'.kids ensures Occupied(k) {
      var j :| 0 <= j < |t'.kids| && t'.kids[j] == k;
      if j != i { assert GoodKid(t'.kids[j], h - 1); }
    }
  }

  lemma {:induction false} KidReplacedOids(t: Tree, i: nat, c: Tree)
    requires i < |t.kids| && Distinct(t) && Distinct(c) && Oids(c) <= Oids(t.kids[i])
    ensures Distinct(ReplaceKid(t, i, c)) && Oids(ReplaceKid(t, i, c)) <= Oids(t)
    ensures Oids(t.kids[i]) <= Oids(t)
  {
    ReplaceKidOids(t, i, c, Oids(t));
  }

  lemma {:induction false} KidReplacedStored(pool: Pool, pool': Pool, t: Tree, i: nat, c: Tree)
    requires Represents(pool, t) && Distinct(t) && i < |t.kids| && c.oid == t.kids[i].oid
    requires Represents(pool', c) && Framed(pool, pool', t.kids[i], c)
    ensures Represents(pool', ReplaceKid(t, i, c)) && Framed(pool, pool', t, ReplaceKid(t, i, c))
  {
    KidApart(t, i);
    KidsAround(t.kids[..i], c, t.kids[i+1..]);
    var others := {t.oid} + KidOids(t.kids[..i]) + KidOids(t.kids[i+1..]);
    SpareOfPart(pool'.Keys, Oids(c), pool.Keys, Oids(t.kids[i]), others);
    assert Oids(ReplaceKid(t, i, c)) == others + Oids(c) && Oids(t) == others + Oids(t.kids[i]);
    ReplacedKidRepresented(pool, pool', t, i, c);
  }

  // ---------- the cells of a leaf ----------

  function CellRemoved(nd: Node, p: nat): Node
    requires Cells(nd) && p < nd.n
  {
    if nd.n == 1 || p == ORDER - 2 then nd.(items := nd.items[p := EMPTY_ITEM], n := nd.n - 1)
    else nd.(items := Moved(nd.items, p, nd.items, p + 1, nd.n - 1 - p), n := nd.n - 1)
  }

  ghost function WithoutItem(t: Tree, p: nat): Tree
    requires p < |t.items|
  {
    t.(items := Drop(t.items, p))
  }

  lemma {:induction false} CellRemovedStores(nd: Node, t: Tree, p: nat)
    requires Stores(nd, t) && t.kids == [] && p < |t.items|
    ensures Stores(CellRemoved(nd, p), WithoutItem(t, p))
  {
    var nd', items := CellRemoved(nd, p), Drop(t.items, p);
    forall i | 0 <= i < nd'.n ensures nd'.items[i] == items[i] {
      assert nd.items[i] == t.items[i] && nd.items[i + 1] == t.items[i + 1];
    }
    assert nd'.items[..nd'.n] == items;
  }

  // ---------- the successor of an inner item ----------

  /** The lowest inner node on the left edge of c. */
  ghost function LeafParent(c: Tree, h: nat): Tree
    requires Balanced(c, h) && 0 < h
    decreases h
  {
    assert c.kids[0] in c.kids;
    if h == 1 then c else LeafParent(c.kids[0], h - 1)
  }

  /** c with that node replaced. */
  ghost function WithLeafParent(c: Tree, h: nat, u: Tree): Tree
    requires Balanced(c, h) && 0 < h
    decreases h
  {
    assert c.kids[0] in c.kids;
    if h == 1 then u else ReplaceKid(c, 0, WithLeafParent(c.kids[0], h - 1, u))
  }

  lemma {:induction false} LeafParentGood(c: Tree, h: nat)
    requires Balanced(c, h) && 0 < h && Distinct(c) && GoodKid(c, h)
    ensures GoodKid(LeafParent(c, h), 1) && Distinct(LeafParent(c, h)) && Oids(LeafParent(c, h)) <= Oids(c)
    decreases h
  {
    assert c.kids[0] in c.kids;
    if h > 1 {
      KidApart(c, 0);
      LeafParentGood(c.kids[0], h - 1);
    }
  }

  /** Dropping the first item at the left edge drops the first item of all. */
  lemma {:induction false} LeafParentContents(c: Tree, h: nat, u: Tree)
    requires Balanced(c, h) && 0 < h
    requires InOrder(LeafParent(c, h)) != [] && InOrder(u) == InOrder(LeafParent(c, h))[1..]
    ensures InOrder(c) != [] && InOrder(c)[0] == InOrder(LeafParent(c, h))[0]
    ensures InOrder(WithLeafParent(c, h, u)) == InOrder(c)[1..]
    decreases h
  {
    assert c.kids[0] in c.kids;
    if h > 1 {
      var k := WithLeafParent(c.kids[0], h - 1, u);
      LeafParentContents(c.kids[0], h - 1, u);
      InOrderAround(c, 0);
      InOrderAround(ReplaceKid(c, 0, k), 0);
      assert ReplaceKid(c, 0, k).kids == [k] + c.kids[1..];
      assert Left([], []) == [];
      var m, r := InOrder(c.kids[0]), Right(c.items, c.kids[1..]);
      assert (m + r)[1..] == m[1..] + r;
      assert c.items[..0] == [] && c.items[0..] == c.items;
    }
  }

  lemma {:induction false} LeafParentShape(c: Tree, h: nat, u: Tree)
    requires Balanced(c, h) && 0 < h && GoodKid(c, h) && Balanced(u, 1) && Occupied(u)
    ensures Balanced(WithLeafParent(c, h, u), h)
    ensures GoodKid(WithLeafParent(c, h, u), h) <==> MIN_KEYS <= |u.items|
    decreases h
  {
    assert c.kids[0] in c.kids;
    if h > 1 {
      GoodNode(c, h);
      assert GoodKid(c.kids[0], h - 1);
      LeafParentShape(c.kids[0], h - 1, u);
      KidReplacedShape(c, 0, WithLeafParent(c.kids[0], h - 1, u), h);
    }
  }

  lemma {:induction false} LeafParentOids(c: Tree, h: nat, u: Tree)
    requires Balanced(c, h) && 0 < h && Distinct(c)
    requires Distinct(u) && Oids(u) <= Oids(LeafParent(c, h)) && u.oid == LeafParent(c, h).oid
    ensures Distinct(WithLeafParent(c, h, u)) && Oids(WithLeafParent(c, h, u)) <= Oids(c)
    ensures WithLeafParent(c, h, u).oid == c.oid
    decreases h
  {
    assert c.kids[0] in c.kids;
    if h > 1 {
      KidApart(c, 0);
      LeafParentOids(c.kids[0], h - 1, u);
      KidReplacedOids(c, 0, WithLeafParent(c.kids[0], h - 1, u));
    }
  }

  lemma {:induction false} LeafParentStored(pool: Pool, pool': Pool, c: Tree, h: nat, u: Tree)
    requires Represents(pool, c) && Distinct(c) && Balanced(c, h) && 0 < h
    requires Distinct(u) && Oids(u) <= Oids(LeafParent(c, h)) && u.oid == LeafParent(c, h).oid
    requires Represents(pool', u) && Framed(pool, pool', LeafParent(c, h), u)
    ensures Represents(pool', WithLeafParent(c, h, u)) && Framed(pool, pool', c, WithLeafParent(c, h, u))
    decreases h
  {
    assert c.kids[0] in c.kids;
    if h > 1 {
      KidApart(c, 0);
      LeafParentStored(pool, pool', c.kids[0], h - 1, u);
      LeafParentOids(c.kids[0], h - 1, u);
      KidReplacedStored(pool, pool', c, 0, WithLeafParent(c.kids[0], h - 1, u));
    }
  }

  /** Represented trees have their left edge represented. */
  lemma {:induction false} LeafParentRepresented(pool: Pool, c: Tree, h: nat)
    requires Represents(pool, c) && Balanced(c, h) && 0 < h
    ensures Represents(pool, LeafParent(c, h)) && Balanced(LeafParent(c, h), 1)
    decreases h
  {
    assert c.kids[0] in c.kids;
    if h > 1 { LeafParentRepresented(pool, c.kids[0], h - 1); }
  }

  /** t with another item at p. */
  ghost function WithItem(t: Tree, p: nat, m: Item): Tree
    requires p < |t.items|
  {
    t.(items := t.items[p := m])
  }

  lemma {:induction false} WithItemKeeps(pool: Pool, t: Tree, p: nat, m: Item, h: nat)
    requires Represents(pool, t) && Distinct(t) && Balanced(t, h) && Occupied(t) && 0 < h && p < |t.items|
    ensures
      var t', pool' := WithItem(t, p, m), pool[t.oid := ParentWith(pool[t.oid], p, m)];
      && Represents(pool', t') && Distinct(t') && Oids(t') == Oids(t) && Balanced(t', h) && Occupied(t')
      && Framed(pool, pool', t, t')
  {
    var t', pool' := WithItem(t, p, m), pool[t.oid := ParentWith(pool[t.oid], p, m)];
    FrameKids(pool, pool', t.kids);
    assert pool'[t.oid].items[..pool'[t.oid].n] == t'.items;
    GoodNode(t, h);
    GoodNode(t', h);
  }

  /** The item at p gives way to its successor, the first item of the next kid, which goes from there. */
  lemma {:induction false} SuccessorMoved(t: Tree, p: nat, c: Tree)
    requires |t.kids| == |t.items| + 1 && p < |t.items|
    requires InOrder(t.kids[p+1]) != [] && InOrder(c) == InOrder(t.kids[p+1])[1..]
    ensures
      var at := |Left(t.items[..p], t.kids[..p]) + InOrder(t.kids[p])|;
      && at < |InOrder(t)| && InOrder(t)[at] == t.items[p]
      && InOrder(ReplaceKid(WithItem(t, p, InOrder(t.kids[p+1])[0]), p + 1, c)) == Drop(InOrder(t), at)
  {
    var m, l, k := InOrder(t.kids[p+1]), Left(t.items[..p], t.kids[..p]), InOrder(t.kids[p]);
    var t' := ReplaceKid(WithItem(t, p, m[0]), p + 1, c);
    var r := Right(t.items[p+1..], t.kids[p+2..]);
    InOrderAround(t, p + 1);
    InOrderAround(t', p + 1);
    assert t.items[..p+1] == t.items[..p] + [t.items[p]] && t.kids[..p+1] == t.kids[..p] + [t.kids[p]];
    assert t'.items[..p+1] == t.items[..p] + [m[0]] && t'.kids[..p+1] == t.kids[..p] + [t.kids[p]];
    assert t'.items[p+1..] == t.items[p+1..] && t'.kids[p+2..] == t.kids[p+2..] && t'.kids[p+1] == c;
    LeftConcatOne(t.items[..p], t.kids[..p], t.items[p], t.kids[p]);
    LeftConcatOne(t.items[..p], t.kids[..p], m[0], t.kids[p]);
    SuccessorInPlace(l + k, t.items[p], m, r);
  }

  lemma {:induction false} SuccessorInPlace(l: seq<Item>, x: Item, m: seq<Item>, r: seq<Item>)
    requires m != []
    ensures (l + [x] + m + r)[|l|] == x && l + [m[0]] + m[1..] + r == Drop(l + [x] + m + r, |l|)
  {
  }

  // ---------- when a removal leaves a node underfull ----------

  /** How many items come before the key. */
  ghost function Spot(items: seq<Item>, key: nat): (i: nat)
    ensures i <= |items|
  {
    if items == [] || items[0].key >= key then 0 else 1 + Spot(items[1..], key)
  }

  lemma {:induction false} SpotIs(items: seq<Item>, key: nat, i: nat)
    requires i <= |items| && (forall j :: 0 <= j < i ==> items[j].key < key) && (i < |items| ==> items[i].key >= key)
    ensures Spot(items, key) == i
  {
    if i > 0 { SpotIs(items[1..], key, i - 1); }
  }

  /** Dropping the first item at the left edge makes two leaves merge under a node that cannot spare an item. */
  ghost predicate EdgeLapses(u: Tree) {
    && |u.items| == MIN_KEYS && |u.kids| > 1
    && |u.kids[0].items| == MIN_KEYS && |u.kids[1].items| <= MIN_KEYS
  }

  /**
    The key is at an inner node, and its successor comes from a leaf that is not
    a kid of that node: only the leaf is repaired, and its parent may then be
    one item short.
   */
  ghost predicate Lapses(t: Tree, h: nat, key: nat)
    requires Balanced(t, h)
    decreases h
  {
    var i := Spot(t.items, key);
    if i < |t.items| && t.items[i].key == key then
      h > 1 && (assert t.kids[i+1] in t.kids; EdgeLapses(LeafParent(t.kids[i+1], h - 1)))
    else
      h > 0 && (assert t.kids[i] in t.kids; Lapses(t.kids[i], h - 1, key))
  }

  lemma {:induction false} LapsesFar(t: Tree, p: nat, h: nat, key: nat)
    requires Balanced(t, h) && 1 < h && p < |t.items| && p == Spot(t.items, key) && t.items[p].key == key
    requires Balanced(t.kids[p+1], h - 1)
    ensures Lapses(t, h, key) <==> EdgeLapses(LeafParent(t.kids[p+1], h - 1))
  {
  }

  lemma {:induction false} LapsesBelow(t: Tree, i: nat, h: nat, key: nat)
    requires Balanced(t, h) && 0 < h && i == Spot(t.items, key) && (i < |t.items| ==> t.items[i].key != key)
    requires Balanced(t.kids[i], h - 1)
    ensures Lapses(t, h, key) <==> Lapses(t.kids[i], h - 1, key)
  {
  }

  /** The shape of what a removal makes of t. */
  ghost predicate Outcome(t: Tree, t': Tree, h: nat, key: nat)
    requires Balanced(t, h)
  {
    && t'.oid == t.oid && Distinct(t') && Oids(t') <= Oids(t) && Balanced(t', h)
    && |t.items| - 1 <= |t'.items| <= |t.items|
    && (Occupied(t') <==> !Lapses(t, h, key)) && (Lapses(t, h, key) ==> |t'.items| == |t.items|)
  }

  /** Its contents: one item with the key less, or nothing changed as there is none. */
  ghost predicate Lost(t: Tree, t': Tree, key: nat, value: nat, found: bool, at: nat) {
    if found then at < |InOrder(t)| && InOrder(t)[at] == Item(key, value) && InOrder(t') == Drop(InOrder(t), at)
    else !HasKey(InOrder(t), key) && value == 0 && t' == t
  }

  /** An item goes from a leaf. */
  lemma {:induction false} LeafOutcome(t: Tree, p: nat, key: nat)
    requires Balanced(t, 0) && Occupied(t) && Distinct(t) && p < |t.items| && t.items[p].key == key
    ensures Outcome(t, WithoutItem(t, p), 0, key) && Lost(t, WithoutItem(t, p), key, t.items[p].value, true, p)
  {
  }

  /** What a removal does to kid i, seen from t, if the kid keeps enough items. */
  lemma {:induction false} KidOutcome(t: Tree, i: nat, c: Tree, h: nat, key: nat)
    requires 0 < h && Balanced(t, h) && Occupied(t) && Distinct(t)
    requires i == Spot(t.items, key) && (i < |t.items| ==> t.items[i].key != key)
    requires Balanced(t.kids[i], h - 1) && Outcome(t.kids[i], c, h - 1, key) && MIN_KEYS <= |c.items|
    ensures Outcome(t, ReplaceKid(t, i, c), h, key)
  {
    LapsesBelow(t, i, h, key);
    KidReplacedOids(t, i, c);
    KidReplacedShape(t, i, c, h);
  }

  /** And if it has to be repaired. */
  lemma {:induction false} RepairedOutcome(t: Tree, i: nat, c: Tree, t': Tree, h: nat, key: nat)
    requires 0 < h && Balanced(t, h) && Occupied(t) && Distinct(t) && t.items != []
    requires i == Spot(t.items, key) && (i < |t.items| ==> t.items[i].key != key)
    requires Balanced(t.kids[i], h - 1) && Outcome(t.kids[i], c, h - 1, key) && |c.items| == MIN_KEYS - 1
    requires MIN_KEYS <= |t.kids[i].items| && Repaired(ReplaceKid(t, i, c), t', h)
    ensures Outcome(t, t', h, key)
  {
    LapsesBelow(t, i, h, key);
    KidReplacedOids(t, i, c);
  }

  /** The successor of the item at p came from a leaf that is a kid of t. */
  lemma {:induction false} NearOutcome(t: Tree, p: nat, t1: Tree, t': Tree, key: nat)
    requires Balanced(t, 1) && Occupied(t) && p < |t.items| && p == Spot(t.items, key) && t.items[p].key == key
    requires t1.oid == t.oid && |t1.items| == |t.items| && Oids(t1) <= Oids(t)
    requires (t' == t1 && Distinct(t1) && Balanced(t1, 1) && Occupied(t1)) || Repaired(t1, t', 1)
    ensures Outcome(t, t', 1, key)
  {
  }

  /** It came from further down. */
  lemma {:induction false} FarOutcome(t: Tree, p: nat, m: Item, u: Tree, h: nat, key: nat)
    requires 1 < h && Balanced(t, h) && Occupied(t) && Distinct(t) && p < |t.items|
    requires p == Spot(t.items, key) && t.items[p].key == key
    requires Balanced(t.kids[p+1], h - 1) && Balanced(u, 1) && Occupied(u) && Distinct(u)
    requires
      var lp := LeafParent(t.kids[p+1], h - 1);
      u.oid == lp.oid && Oids(u) <= Oids(lp) && (MIN_KEYS <= |u.items| <==> !EdgeLapses(lp))
    ensures Outcome(t, ReplaceKid(WithItem(t, p, m), p + 1, WithLeafParent(t.kids[p+1], h - 1, u)), h, key)
  {
    LapsesFar(t, p, h, key);
    FarShape(t, p, m, u, h);
  }

  lemma {:induction false} FarShape(t: Tree, p: nat, m: Item, u: Tree, h: nat)
    requires 1 < h && Balanced(t, h) && Occupied(t) && Distinct(t) && p < |t.items|
    requires Balanced(t.kids[p+1], h - 1) && Balanced(u, 1) && Occupied(u) && Distinct(u)
    requires var lp := LeafParent(t.kids[p+1], h - 1); u.oid == lp.oid && Oids(u) <= Oids(lp)
    ensures
      var t' := ReplaceKid(WithItem(t, p, m), p + 1, WithLeafParent(t.kids[p+1], h - 1, u));
      && t'.oid == t.oid && |t'.items| == |t.items| && Distinct(t') && Oids(t') <= Oids(t) && Balanced(t', h)
      && (Occupied(t') <==> MIN_KEYS <= |u.items|)
  {
    var t0, c := WithItem(t, p, m), t.kids[p+1];
    var k := WithLeafParent(c, h - 1, u);
    GoodNode(t, h);
    GoodNode(t0, h);
    assert GoodKid(t.kids[p+1], h - 1);
    LeafParentShape(c, h - 1, u);
    KidReplacedShape(t0, p + 1, k, h);
    FarOids(t, p, m, u, h);
  }

  lemma {:induction false} FarOids(t: Tree, p: nat, m: Item, u: Tree, h: nat)
    requires 1 < h && Balanced(t, h) && Distinct(t) && p < |t.items|
    requires Balanced(t.kids[p+1], h - 1) && Distinct(u)
    requires var lp := LeafParent(t.kids[p+1], h - 1); u.oid == lp.oid && Oids(u) <= Oids(lp)
    ensures
      var t' := ReplaceKid(WithItem(t, p, m), p + 1, WithLeafParent(t.kids[p+1], h - 1, u));
      Distinct(t') && Oids(t') <= Oids(t)
  {
    var t0, c := WithItem(t, p, m), t.kids[p+1];
    KidApart(t, p + 1);
    LeafParentOids(c, h - 1, u);
    KidReplacedOids(t0, p + 1, WithLeafParent(c, h - 1, u));
  }

  // ---------- the pool after each step ----------

  lemma {:induction false} FramedTwice(a: Pool, b: Pool, c: Pool, t: Tree, t1: Tree, t': Tree)
    requires Framed(a, b, t, t1) && Framed(b, c, t1, t') && Oids(t1) <= Oids(t)
    ensures Framed(a, c, t, t')
  {
  }

  /** The leaf that is kid i of u loses its first item. */
  ghost function FirstDropped(u: Tree, i: nat): Tree
    requires i < |u.kids| && u.kids[i].items != []
  {
    ReplaceKid(u, i, WithoutItem(u.kids[i], 0))
  }

  lemma {:induction false} FirstDroppedStored(pool: Pool, u: Tree, i: nat)
    requires Represents(pool, u) && Distinct(u) && i < |u.kids| && u.kids[i].kids == [] && u.kids[i].items != []
    ensures u.kids[i].oid in pool && Stores(pool[u.kids[i].oid], u.kids[i])
    ensures
      var k := u.kids[i];
      var pool' := pool[k.oid := CellRemoved(pool[k.oid], 0)];
      && Represents(pool', FirstDropped(u, i)) && Framed(pool, pool', u, FirstDropped(u, i))
      && Distinct(FirstDropped(u, i)) && Oids(FirstDropped(u, i)) <= Oids(u)
  {
    var k := u.kids[i];
    assert k in u.kids;
    var pool' := pool[k.oid := CellRemoved(pool[k.oid], 0)];
    CellRemovedStores(pool[k.oid], k, 0);
    KidApart(u, i);
    KidReplacedOids(u, i, WithoutItem(k, 0));
    KidReplacedStored(pool, pool', u, i, WithoutItem(k, 0));
  }

  /** It is then good, or what a repair asks for. */
  lemma {:induction false} FirstDroppedShape(u: Tree, i: nat)
    requires Balanced(u, 1) && Occupied(u) && u.items != [] && i < |u.kids|
    ensures u.kids[i].kids == [] && MIN_KEYS <= |u.kids[i].items|
    ensures |FirstDropped(u, i).kids[i].items| == |u.kids[i].items| - 1
    ensures |u.kids[i].items| == MIN_KEYS ==> Deficient(FirstDropped(u, i), i, 1)
    ensures |u.kids[i].items| != MIN_KEYS ==> Balanced(FirstDropped(u, i), 1) && Occupied(FirstDropped(u, i))
  {
    var k := u.kids[i];
    assert k in u.kids;
    if |k.items| == MIN_KEYS {
      KidReplacedDeficient(u, i, WithoutItem(k, 0), 1);
    } else {
      KidReplacedShape(u, i, WithoutItem(k, 0), 1);
    }
  }

  lemma {:induction false} LeafFirst(k: Tree)
    requires k.kids == [] && k.items != []
    ensures InOrder(k) == k.items && InOrder(WithoutItem(k, 0)) == InOrder(k)[1..]
  {
    assert Drop(k.items, 0) == k.items[1..];
  }

  /** The first leaf of u loses its first item, and so does u. */
  lemma {:induction false} FirstDroppedContents(u: Tree)
    requires |u.kids| == |u.items| + 1 && u.kids[0].kids == [] && u.kids[0].items != []
    ensures InOrder(u) != [] && InOrder(u)[0] == u.kids[0].items[0]
    ensures InOrder(FirstDropped(u, 0)) == InOrder(u)[1..]
  {
    var k := u.kids[0];
    var u' := FirstDropped(u, 0);
    LeafFirst(k);
    WeaveIsKidThenRight(u.items, u.kids);
    WeaveIsKidThenRight(u'.items, u'.kids);
    assert u'.kids[1..] == u.kids[1..] && u'.kids[0] == WithoutItem(k, 0);
    var r := Right(u.items, u.kids[1..]);
    assert (InOrder(k) + r)[1..] == InOrder(k)[1..] + r;
  }

  /** All that a removal needs to know of a tree. */
  ghost predicate Removable(pool: Pool, root: nat, t: Tree, h: nat) {
    && Sound(pool, t, h) && Sorted(InOrder(t)) && ZeroOnce(InOrder(t)) && root !in KidOids(t.kids)
    && (0 < h ==> t.items != [])
  }

  /** So it needs to know nothing more of its kids. */
  lemma {:induction false} KidRemovable(pool: Pool, root: nat, t: Tree, h: nat, i: nat)
    requires Removable(pool, root, t, h) && 0 < h && i < |t.kids|
    ensures Removable(pool, root, t.kids[i], h - 1) && root !in Oids(t.kids[i])
    ensures GoodKid(t.kids[i], h - 1) && t.kids[i].oid != t.oid
  {
    assert t.kids[i] in t.kids;
    GoodNode(t, h);
    assert GoodKid(t.kids[i], h - 1);
    KidApart(t, i);
    KidWithin(t.kids, t.kids[i]);
    KidInOrder(t, i);
    assert t.kids[i].oid in Oids(t.kids[i]);
  }

  /** The first item of the kid after item p, where that kid is a leaf, moves up to p. */
  ghost function TakenFromKid(t: Tree, p: nat): Tree
    requires p < |t.items| && p + 1 < |t.kids| && t.kids[p+1].items != []
  {
    FirstDropped(WithItem(t, p, t.kids[p+1].items[0]), p + 1)
  }

  lemma {:induction false} TakenFromKidStored(pool: Pool, root: nat, t: Tree, p: nat)
    requires Removable(pool, root, t, 1) && p < |t.items|
    ensures t.kids[p+1].oid in pool && t.kids[p+1].oid != t.oid && Stores(pool[t.kids[p+1].oid], t.kids[p+1])
    ensures t.kids[p+1].kids == [] && t.kids[p+1].items != []
    ensures
      var c := t.kids[p+1];
      var pool1 := pool[t.oid := ParentWith(pool[t.oid], p, c.items[0])];
      var pool2 := pool1[c.oid := CellRemoved(pool1[c.oid], 0)];
      && Represents(pool2, TakenFromKid(t, p)) && Framed(pool, pool2, t, TakenFromKid(t, p))
      && Distinct(TakenFromKid(t, p)) && Oids(TakenFromKid(t, p)) <= Oids(t)
  {
    var c := t.kids[p+1];
    KidRemovable(pool, root, t, 1, p + 1);
    var t0, pool1 := WithItem(t, p, c.items[0]), pool[t.oid := ParentWith(pool[t.oid], p, c.items[0])];
    WithItemKeeps(pool, t, p, c.items[0], 1);
    FirstDroppedStored(pool1, t0, p + 1);
    FramedTwice(pool, pool1, pool1[c.oid := CellRemoved(pool1[c.oid], 0)], t, t0, TakenFromKid(t, p));
  }

  lemma {:induction false} TakenFromKidShape(t: Tree, p: nat)
    requires Balanced(t, 1) && Occupied(t) && p < |t.items|
    ensures t.kids[p+1].kids == [] && MIN_KEYS <= |t.kids[p+1].items|
    ensures
      var t1 := TakenFromKid(t, p);
      && |t1.items| == |t.items| && |t1.kids[p+1].items| == |t.kids[p+1].items| - 1
      && t1.kids[p+1].oid == t.kids[p+1].oid
      && (|t.kids[p+1].items| == MIN_KEYS ==> Deficient(t1, p + 1, 1))
      && (|t.kids[p+1].items| != MIN_KEYS ==> Balanced(t1, 1) && Occupied(t1))
  {
    GoodNode(t, 1);
    assert GoodKid(t.kids[p+1], 0);
    GoodNode(WithItem(t, p, t.kids[p+1].items[0]), 1);
    FirstDroppedShape(WithItem(t, p, t.kids[p+1].items[0]), p + 1);
  }

  lemma {:induction false} TakenFromKidContents(t: Tree, p: nat) returns (at: nat)
    requires |t.kids| == |t.items| + 1 && p < |t.items| && t.kids[p+1].kids == [] && t.kids[p+1].items != []
    requires Sorted(InOrder(t)) && ZeroOnce(InOrder(t))
    ensures at < |InOrder(t)| && InOrder(t)[at] == t.items[p] && InOrder(TakenFromKid(t, p)) == Drop(InOrder(t), at)
    ensures ZeroOnce(InOrder(TakenFromKid(t, p)))
  {
    LeafFirst(t.kids[p+1]);
    SuccessorMoved(t, p, WithoutItem(t.kids[p+1], 0));
    at := |Left(t.items[..p], t.kids[..p]) + InOrder(t.kids[p])|;
    OrderAfterDrop(InOrder(t), at);
  }

  /** The successor of item p comes from further down: its leaf's parent first. */
  lemma {:induction false} EdgeDropped(pool: Pool, root: nat, t: Tree, p: nat, h: nat)
    requires Removable(pool, root, t, h) && 1 < h && p < |t.items| && Balanced(t.kids[p+1], h - 1)
    ensures
      var u := LeafParent(t.kids[p+1], h - 1);
      && GoodKid(u, 1) && |u.kids| > 1 && u.kids[0].kids == [] && u.kids[0].items != []
      && u.kids[0].oid in pool && Stores(pool[u.kids[0].oid], u.kids[0])
      && u.oid != t.oid && u.kids[0].oid != t.oid && root != u.oid
    ensures
      var u := LeafParent(t.kids[p+1], h - 1);
      var m, k := u.kids[0].items[0], u.kids[0];
      var pool1 := pool[t.oid := ParentWith(pool[t.oid], p, m)];
      var pool2 := pool1[k.oid := CellRemoved(pool1[k.oid], 0)];
      && Represents(pool2, FirstDropped(u, 0)) && Framed(pool1, pool2, u, FirstDropped(u, 0))
      && Distinct(FirstDropped(u, 0)) && Oids(FirstDropped(u, 0)) <= Oids(u) && Distinct(u)
  {
    var c := t.kids[p+1];
    var u := LeafParent(c, h - 1);
    KidRemovable(pool, root, t, h, p + 1);
    KidApart(t, p + 1);
    LeafParentGood(c, h - 1);
    LeafParentRepresented(pool, c, h - 1);
    GoodNode(u, 1);
    assert GoodKid(u.kids[0], 0) && u.kids[0] in u.kids;
    KidWithin(u.kids, u.kids[0]);
    assert u.oid in Oids(u) && u.kids[0].oid in Oids(u.kids[0]);
    var pool1 := pool[t.oid := ParentWith(pool[t.oid], p, u.kids[0].items[0])];
    Frame(pool, pool1, u);
    FirstDroppedStored(pool1, u, 0);
  }

  /** After the repair of that parent. */
  lemma {:induction false} EdgeStored(pool: Pool, pool': Pool, root: nat, t: Tree, p: nat, h: nat, m: Item, u: Tree)
    requires Removable(pool, root, t, h) && 1 < h && p < |t.items| && Balanced(t.kids[p+1], h - 1)
    requires
      var lp := LeafParent(t.kids[p+1], h - 1);
      && Distinct(u) && Oids(u) <= Oids(lp) && u.oid == lp.oid && Represents(pool', u)
      && Framed(pool[t.oid := ParentWith(pool[t.oid], p, m)], pool', lp, u)
    ensures
      var t' := ReplaceKid(WithItem(t, p, m), p + 1, WithLeafParent(t.kids[p+1], h - 1, u));
      Represents(pool', t') && Framed(pool, pool', t, t')
  {
    var t0, c := WithItem(t, p, m), t.kids[p+1];
    var pool1 := pool[t.oid := ParentWith(pool[t.oid], p, m)];
    WithItemKeeps(pool, t, p, m, h);
    assert t0.kids[p+1] == c;
    EdgeStoredBelow(pool1, pool', t0, p + 1, h, u);
    FramedTwice(pool, pool1, pool', t, t0, ReplaceKid(t0, p + 1, WithLeafParent(c, h - 1, u)));
  }

  lemma {:induction false} EdgeStoredBelow(pool: Pool, pool': Pool, t: Tree, q: nat, h: nat, u: Tree)
    requires Represents(pool, t) && Distinct(t) && 1 < h && q < |t.kids| && Balanced(t.kids[q], h - 1)
    requires
      var lp := LeafParent(t.kids[q], h - 1);
      && Distinct(u) && Oids(u) <= Oids(lp) && u.oid == lp.oid && Represents(pool', u) && Framed(pool, pool', lp, u)
    ensures
      var t' := ReplaceKid(t, q, WithLeafParent(t.kids[q], h - 1, u));
      Represents(pool', t') && Framed(pool, pool', t, t')
  {
    var c := t.kids[q];
    assert c in t.kids;
    KidApart(t, q);
    LeafParentStored(pool, pool', c, h - 1, u);
    LeafParentOids(c, h - 1, u);
    KidReplacedStored(pool, pool', t, q, WithLeafParent(c, h - 1, u));
  }

  lemma {:induction false} EdgeContents(t: Tree, p: nat, h: nat, u: Tree) returns (at: nat)
    requires Balanced(t, h) && 1 < h && p < |t.items| && Balanced(t.kids[p+1], h - 1)
    requires
      var lp := LeafParent(t.kids[p+1], h - 1);
      && |lp.kids| == |lp.items| + 1 && lp.kids[0].kids == [] && lp.kids[0].items != []
      && InOrder(u) == InOrder(FirstDropped(lp, 0))
    ensures
      var m := LeafParent(t.kids[p+1], h - 1).kids[0].items[0];
      var t' := ReplaceKid(WithItem(t, p, m), p + 1, WithLeafParent(t.kids[p+1], h - 1, u));
      at < |InOrder(t)| && InOrder(t)[at] == t.items[p] && InOrder(t') == Drop(InOrder(t), at)
  {
    var c := t.kids[p+1];
    FirstDroppedContents(LeafParent(c, h - 1));
    LeafParentContents(c, h - 1, u);
    SuccessorMoved(t, p, WithLeafParent(c, h - 1, u));
    at := |Left(t.items[..p], t.kids[..p]) + InOrder(t.kids[p])|;
  }

  /** The parent keeps enough items, unless it lapses. */
  lemma {:induction false} EdgeShape(lp: Tree, u: Tree)
    requires GoodKid(lp, 1) && |lp.kids| > 1 && lp.kids[0].kids == [] && lp.kids[0].items != []
    requires
      var u1 := FirstDropped(lp, 0);
      if MIN_KEYS < |lp.kids[0].items| then u == u1
      else
        && |u1.kids| == |u1.items| + 1 && Repaired(u1, u, 1)
        && |u.items| == |u1.items| - if Shrinks(u1, 0) then 1 else 0
    ensures Balanced(u, 1) && Occupied(u) && (MIN_KEYS <= |u.items| <==> !EdgeLapses(lp))
  {
    GoodNode(lp, 1);
    assert GoodKid(lp.kids[0], 0);
    FirstDroppedShape(lp, 0);
    assert FirstDropped(lp, 0).kids[1] == lp.kids[1];
  }

  // ---------- a repair, if one is needed ----------

  /** Kid p of t has enough items, or is one short. */
  ghost predicate MayNeedRepair(pool: Pool, t: Tree, p: nat, h: nat) {
    && Represents(pool, t) && Distinct(t) && t.items != [] && p < |t.kids| && (0 < p ==> ZeroOnce(InOrder(t)))
    && (MIN_KEYS <= |t.kids[p].items| || Deficient(t, p, h))
  }

  /** Nothing was done, or a repair. */
  ghost predicate RepairedIfNeeded(t: Tree, t': Tree, p: nat, h: nat)
    requires p < |t.kids|
  {
    && InOrder(t') == InOrder(t)
    && if MIN_KEYS <= |t.kids[p].items| then t' == t
       else |t.kids| == |t.items| + 1 && Repaired(t, t', h) && |t'.items| == |t.items| - if Shrinks(t, p) then 1 else 0
  }

  lemma {:induction false} ReplacedVia(
    pool: Pool, mid: Pool, pool': Pool, root: nat, root': nat, t: Tree, t1: Tree, t': Tree)
    requires Framed(pool, mid, t, t1) && Replaced(mid, root, pool', root', t1, t')
    requires Oids(t1) <= Oids(t) && t1.oid == t.oid
    ensures Replaced(pool, root, pool', root', t, t')
  {
    var now := if t'.items == [] && t'.kids != [] && t.oid == root then t'.kids[0] else t';
    FramedTwice(pool, mid, pool', t, t1, now);
  }

  /** The pool with the item of the next kid at p, and without it in the kid. */
  function SuccessorPool(pool: Pool, node: nat, p: nat, lm: nat): Pool
    requires node in pool && lm in pool && Cells(pool[node]) && p < pool[node].n && Cells(pool[lm]) && 0 < pool[lm].n
    requires node != lm
  {
    var pool1 := pool[node := ParentWith(pool[node], p, pool[lm].items[0])];
    pool1[lm := CellRemoved(pool1[lm], 0)]
  }

  lemma {:induction false} TakenFromKidReady(pool: Pool, root: nat, t: Tree, p: nat)
    requires Removable(pool, root, t, 1) && p < |t.items|
    ensures
      var c := t.kids[p+1];
      && c.oid in pool && t.oid in pool && c.oid != t.oid && Cells(pool[c.oid]) && 0 < pool[c.oid].n
      && Cells(pool[t.oid]) && p < pool[t.oid].n && c.items != []
    ensures
      var pool', t1 := SuccessorPool(pool, t.oid, p, t.kids[p+1].oid), TakenFromKid(t, p);
      && MayNeedRepair(pool', t1, p + 1, 1) && Framed(pool, pool', t, t1) && Oids(t1) <= Oids(t)
      && t1.oid == t.oid && t1.kids[p+1].oid == t.kids[p+1].oid
  {
    TakenFromKidStored(pool, root, t, p);
    TakenFromKidShape(t, p);
    var at := TakenFromKidContents(t, p);
    assert pool[t.kids[p+1].oid].items[0] == t.kids[p+1].items[0];
  }

  lemma {:induction false} TakenFromKidDone(t: Tree, p: nat, t': Tree, key: nat) returns (at: nat)
    requires Balanced(t, 1) && Occupied(t) && Distinct(t) && Sorted(InOrder(t)) && ZeroOnce(InOrder(t))
    requires p < |t.items| && p == Spot(t.items, key) && t.items[p].key == key
    requires p + 1 < |t.kids| && t.kids[p+1].items != []
    requires Distinct(TakenFromKid(t, p)) && Oids(TakenFromKid(t, p)) <= Oids(t)
    requires RepairedIfNeeded(TakenFromKid(t, p), t', p + 1, 1)
    ensures Outcome(t, t', 1, key) && Lost(t, t', key, t.items[p].value, true, at)
  {
    TakenFromKidShape(t, p);
    at := TakenFromKidContents(t, p);
    NearOutcome(t, p, TakenFromKid(t, p), t', key);
  }

  lemma {:induction false} EdgeReady(pool: Pool, root: nat, t: Tree, p: nat, h: nat)
    requires Removable(pool, root, t, h) && 1 < h && p < |t.items| && Balanced(t.kids[p+1], h - 1)
    ensures
      var u := LeafParent(t.kids[p+1], h - 1);
      && GoodKid(u, 1) && |u.kids| > 1 && u.kids[0].kids == [] && u.kids[0].items != []
      && u.kids[0].oid in pool && t.oid in pool && u.kids[0].oid != t.oid
      && Cells(pool[u.kids[0].oid]) && 0 < pool[u.kids[0].oid].n && Cells(pool[t.oid]) && p < pool[t.oid].n
      && pool[u.kids[0].oid].items[0] == u.kids[0].items[0] && u.oid != root
    ensures
      var u := LeafParent(t.kids[p+1], h - 1);
      var u1 := FirstDropped(u, 0);
      && MayNeedRepair(SuccessorPool(pool, t.oid, p, u.kids[0].oid), u1, 0, 1)
      && u1.oid == u.oid && u1.kids[0].oid == u.kids[0].oid
  {
    var u := LeafParent(t.kids[p+1], h - 1);
    EdgeDropped(pool, root, t, p, h);
    FirstDroppedShape(u, 0);
    assert pool[u.kids[0].oid].items[0] == u.kids[0].items[0];
  }

  /** What the removal makes of t, once the leaf's parent has become u. */
  ghost function EdgeResult(t: Tree, p: nat, h: nat, u: Tree): Tree
    requires Balanced(t, h) && 1 < h && p < |t.items| && Balanced(t.kids[p+1], h - 1)
    requires LeafParent(t.kids[p+1], h - 1).kids != [] && LeafParent(t.kids[p+1], h - 1).kids[0].items != []
  {
    var m := LeafParent(t.kids[p+1], h - 1).kids[0].items[0];
    ReplaceKid(WithItem(t, p, m), p + 1, WithLeafParent(t.kids[p+1], h - 1, u))
  }

  lemma {:induction false} EdgeDone(
    pool: Pool, pool': Pool, root: nat, t: Tree, p: nat, h: nat, u: Tree, key: nat) returns (at: nat)
    requires Removable(pool, root, t, h) && 1 < h && p < |t.items| && Balanced(t.kids[p+1], h - 1)
    requires p == Spot(t.items, key) && t.items[p].key == key
    requires
      var lp := LeafParent(t.kids[p+1], h - 1);
      && GoodKid(lp, 1) && |lp.kids| > 1 && lp.kids[0].kids == [] && lp.kids[0].items != []
      && lp.kids[0].oid in pool && t.oid in pool && lp.kids[0].oid != t.oid
      && Cells(pool[lp.kids[0].oid]) && 0 < pool[lp.kids[0].oid].n && Cells(pool[t.oid]) && p < pool[t.oid].n
      && Replaced(SuccessorPool(pool, t.oid, p, lp.kids[0].oid), root, pool', root, FirstDropped(lp, 0), u)
      && Represents(pool', u) && RepairedIfNeeded(FirstDropped(lp, 0), u, 0, 1)
    ensures
      var t' := EdgeResult(t, p, h, u);
      && Outcome(t, t', h, key) && Lost(t, t', key, t.items[p].value, true, at)
      && Represents(pool', t') && Framed(pool, pool', t, t')
  {
    var lp := LeafParent(t.kids[p+1], h - 1);
    var u1, m := FirstDropped(lp, 0), lp.kids[0].items[0];
    EdgeDropped(pool, root, t, p, h);
    assert pool[lp.kids[0].oid].items[0] == m;
    FirstDroppedShape(lp, 0);
    EdgeShape(lp, u);
    var pool1, pool2 := pool[t.oid := ParentWith(pool[t.oid], p, m)], SuccessorPool(pool, t.oid, p, lp.kids[0].oid);
    FramedTwice(pool1, pool2, pool', lp, u1, u);
    EdgeStored(pool, pool', root, t, p, h, m, u);
    FarOutcome(t, p, m, u, h, key);
    at := EdgeContents(t, p, h, u);
  }

  // ---------- from kid to parent ----------

  /** After a removal in kid i, before the kid is looked at. */
  lemma {:induction false} KidRemoved(
    pool: Pool, pool': Pool, root: nat, t: Tree, i: nat, c: Tree, h: nat, key: nat, value: nat, at: nat)
    requires Removable(pool, root, t, h) && 0 < h && i < |t.kids| && Balanced(t.kids[i], h - 1)
    requires Outcome(t.kids[i], c, h - 1, key) && Lost(t.kids[i], c, key, value, true, at)
    requires Represents(pool', c) && Framed(pool, pool', t.kids[i], c)
    ensures var t1 := ReplaceKid(t, i, c);
      && MayNeedRepair(pool', t1, i, h) && Framed(pool, pool', t, t1) && Oids(t1) <= Oids(t)
      && t1.oid == t.oid && t1.kids[i] == c
  {
    assert GoodKid(t.kids[i], h - 1) by { KidRemovable(pool, root, t, h, i); }
    KidReplacedOids(t, i, c);
    KidReplacedStored(pool, pool', t, i, c);
    KidRemovedShape(t, i, c, h, at);
  }

  lemma {:induction false} KidRemovedShape(t: Tree, i: nat, c: Tree, h: nat, at: nat)
    requires 0 < h && Balanced(t, h) && Occupied(t) && t.items != [] && i < |t.kids|
    requires Sorted(InOrder(t)) && ZeroOnce(InOrder(t))
    requires Balanced(c, h - 1) && at < |InOrder(t.kids[i])| && InOrder(c) == Drop(InOrder(t.kids[i]), at)
    requires |c.items| < MIN_KEYS ==> Occupied(c) && |c.items| == MIN_KEYS - 1
    ensures ZeroOnce(InOrder(ReplaceKid(t, i, c))) && ReplaceKid(t, i, c).kids[i] == c
    ensures |c.items| < MIN_KEYS ==> Deficient(ReplaceKid(t, i, c), i, h)
  {
    KidDropped(t, i, c, at);
    OrderAfterDrop(InOrder(t), |Left(t.items[..i], t.kids[..i])| + at);
    if |c.items| < MIN_KEYS { KidReplacedDeficient(t, i, c, h); }
  }

  /** And once it has been repaired if necessary. */
  lemma {:induction false} KidDone(
    t: Tree, i: nat, c: Tree, t': Tree, h: nat, key: nat, value: nat, at: nat) returns (all: nat)
    requires 0 < h && Balanced(t, h) && Occupied(t) && Distinct(t) && t.items != []
    requires i == Spot(t.items, key) && (i < |t.items| ==> t.items[i].key != key)
    requires GoodKid(t.kids[i], h - 1) && Outcome(t.kids[i], c, h - 1, key)
    requires Lost(t.kids[i], c, key, value, true, at) && RepairedIfNeeded(ReplaceKid(t, i, c), t', i, h)
    ensures Outcome(t, t', h, key) && Lost(t, t', key, value, true, all)
  {
    assert ReplaceKid(t, i, c).kids[i] == c;
    all := |Left(t.items[..i], t.kids[..i])| + at;
    assert Lost(t, t', key, value, true, all) by { KidDropped(t, i, c, at); }
    if MIN_KEYS <= |c.items| { KidOutcome(t, i, c, h, key); } else { RepairedOutcome(t, i, c, t', h, key); }
  }

  /** A kid without the key: t does not have it either. */
  lemma {:induction false} KidWithout(t: Tree, i: nat, h: nat, key: nat)
    requires 0 < h && Balanced(t, h) && Occupied(t) && Distinct(t) && Sorted(InOrder(t)) && i <= |t.items|
    requires forall j :: 0 <= j < i ==> t.items[j].key < key
    requires i < |t.items| ==> t.items[i].key > key
    requires Balanced(t.kids[i], h - 1) && Outcome(t.kids[i], t.kids[i], h - 1, key)
    requires GoodKid(t.kids[i], h - 1) && !HasKey(InOrder(t.kids[i]), key)
    ensures Outcome(t, t, h, key) && !HasKey(InOrder(t), key)
  {
    OnlyKidHasKey(t, i, key);
    SpotIs(t.items, key, i);
  }

  /** The first item found with the key is at the spot of the key. */
  lemma {:induction false} FoundSpot(t: Tree, i: nat, key: nat)
    requires Sorted(InOrder(t)) && i < |t.items| && t.items[i].key == key
    requires forall j :: 0 <= j < i ==> t.items[j].key != key
    requires t.kids != [] ==> forall j :: 0 <= j < i ==> t.items[j].key < key
    ensures Spot(t.items, key) == i
  {
    if t.kids == [] {
      forall j | 0 <= j < i ensures t.items[j].key < key { assert InOrder(t)[j].key <= InOrder(t)[i].key; }
    }
    SpotIs(t.items, key, i);
  }

  // ---------- the whole tree ----------

  /** The tree below the root id after a removal: the only kid of an emptied root, or the changed root. */
  ghost function NewTree(t': Tree): Tree {
    if t'.items == [] && t'.kids != [] then t'.kids[0] else t'
  }

  ghost function NewHeight(t': Tree, h: nat): nat
    requires t'.items == [] && t'.kids != [] ==> 0 < h
  {
    if t'.items == [] && t'.kids != [] then h - 1 else h
  }

  lemma {:induction false} WholeTree(pool: Pool, pool': Pool, root': nat, t: Tree, t': Tree, h: nat, key: nat)
    requires Sound(pool, t, h) && WellFormed(t, h) && Outcome(t, t', h, key)
    requires Replaced(pool, t.oid, pool', root', t, t')
    ensures t'.items == [] && t'.kids != [] ==> 0 < h
    ensures
      var n, k := NewTree(t'), NewHeight(t', h);
      && n.oid == root' && Represents(pool', n) && Distinct(n) && Balanced(n, k) && InOrder(n) == InOrder(t')
      && (n.items == [] ==> k == 0) && Spare(pool', n) == Spare(pool, t)
      && (Occupied(n) <==> !Lapses(t, h, key))
  {
    if t'.items == [] && t'.kids != [] {
      var k := t'.kids[0];
      assert t'.kids == [k] && k in t'.kids;
      KidApart(t', 0);
    } else if t'.items == [] {
      assert h == 0;
    }
  }

  /** A tree of height 2 with keys all alike, whose every node but the root has as few items as it may. */
  ghost function Sparse(): Tree {
    Tree(1, [Item(7, 0)], [SparseKid(10), SparseKid(20)])
  }

  ghost function SparseKid(oid: nat): Tree {
    Tree(oid, [Item(7, 0), Item(7, 0), Item(7, 0)],
         [SparseLeaf(oid + 1), SparseLeaf(oid + 2), SparseLeaf(oid + 3), SparseLeaf(oid + 4)])
  }

  ghost function SparseLeaf(oid: nat): Tree {
    Tree(oid, [Item(7, 0), Item(7, 0), Item(7, 0)], [])
  }

  ghost predicate Alike(t: Tree, x: Item) {
    (forall y :: y in t.items ==> y == x) && forall k :: k in t.kids ==> Alike(k, x)
  }

  lemma {:induction false} AlikeListed(t: Tree, x: Item)
    requires Alike(t, x)
    ensures forall y :: y in InOrder(t) ==> y == x
    decreases t, 1
  {
    if |t.kids| == |t.items| + 1 { AlikeWoven(t.items, t.kids, x); }
  }

  lemma {:induction false} AlikeWoven(items: seq<Item>, kids: seq<Tree>, x: Item)
    requires |kids| == |items| + 1 && (forall y :: y in items ==> y == x) && forall k :: k in kids ==> Alike(k, x)
    ensures forall y :: y in Weave(items, kids) ==> y == x
    decreases kids, 0
  {
    assert kids[0] in kids;
    AlikeListed(kids[0], x);
    if items != [] {
      assert items[0] in items;
      assert forall y :: y in items[1..] ==> y in items;
      assert forall k :: k in kids[1..] ==> k in kids;
      AlikeWoven(items[1..], kids[1..], x);
    }
  }

  lemma {:induction false} SparseLeafGood(oid: nat)
    ensures GoodKid(SparseLeaf(oid), 0) && Alike(SparseLeaf(oid), Item(7, 0))
  {
  }

  lemma {:induction false} SparseKidGood(oid: nat)
    ensures GoodKid(SparseKid(oid), 1) && Alike(SparseKid(oid), Item(7, 0))
  {
    var t := SparseKid(oid);
    SparseLeafGood(oid + 1);
    SparseLeafGood(oid + 2);
    SparseLeafGood(oid + 3);
    SparseLeafGood(oid + 4);
    GoodNode(t, 1);
  }

  /** From this well-formed tree, removing the item of the root lapses. */
  lemma {:induction false} SparseLapses()
    ensures WellFormed(Sparse(), 2) && ZeroOnce(InOrder(Sparse())) && Lapses(Sparse(), 2, 7)
  {
    SparseWellFormed();
    SpotIs([Item(7, 0)], 7, 0);
    SparseKidGood(20);
    LapsesFar(Sparse(), 0, 2, 7);
    assert Sparse().kids[1] == SparseKid(20) && LeafParent(SparseKid(20), 1) == SparseKid(20);
    assert SparseKid(20).kids[0] == SparseLeaf(21) && SparseKid(20).kids[1] == SparseLeaf(22);
  }

  lemma {:induction false} SparseWellFormed()
    ensures WellFormed(Sparse(), 2) && ZeroOnce(InOrder(Sparse()))
  {
    SparseKidGood(10);
    SparseKidGood(20);
    AlikePair(SparseKid(10), SparseKid(20), Item(7, 0));
  }

  lemma {:induction false} AlikePair(a: Tree, b: Tree, x: Item)
    requires GoodKid(a, 1) && GoodKid(b, 1) && Alike(a, x) && Alike(b, x) && x.key != 0
    ensures WellFormed(Tree(1, [x], [a, b]), 2) && ZeroOnce(InOrder(Tree(1, [x], [a, b])))
  {
    var t := Tree(1, [x], [a, b]);
    GoodNode(t, 2);
    AlikeListed(t, x);
    AlikeInOrder(InOrder(t), x);
  }

  lemma {:induction false} AlikeInOrder(s: seq<Item>, x: Item)
    requires x.key != 0 && forall y :: y in s ==> y == x
    ensures Sorted(s) && ZeroOnce(s)
  {
    assert forall i :: 0 <= i < |s| ==> s[i] in s;
  }
}
