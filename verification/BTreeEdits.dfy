/**
  The edits that insertion and rebalancing make, on trees as values: each keeps
  the contents in key order, the balance, the occupancy and the disjointness
  of the objects used.
 */
module BTreeEdits {
  import opened BTreeShape

  /** Kid p is where `key` belongs: what is left of it is at most, what is right of it at least `key`. */
  ghost predicate Fits(t: Tree, p: nat, key: nat) {
    && |t.kids| == |t.items| + 1 && p <= |t.items|
    && AtMost(Left(t.items[..p], t.kids[..p]), key)
    && AtLeast(Right(t.items[p..], t.kids[p+1..]), key)
  }

  /** The position the search loop stops at fits. */
  lemma {:induction false} FoundFits(t: Tree, p: nat, key: nat)
    requires |t.kids| == |t.items| + 1 && p <= |t.items|
    requires Sorted(InOrder(t))
    requires p > 0 ==> t.items[p - 1].key <= key
    requires p < |t.items| ==> key <= t.items[p].key
    ensures Fits(t, p, key)
    ensures Sorted(InOrder(t.kids[p]))
  {
    InOrderAround(t, p);
    var l, m, r := Left(t.items[..p], t.kids[..p]), InOrder(t.kids[p]), Right(t.items[p..], t.kids[p+1..]);
    assert l + m + r == l + (m + r);
    LeftAtMost(t.items[..p], t.kids[..p], m + r, key);
    RightAtLeast(l + m, t.items[p..], t.kids[p+1..], key);
    SortedConcat(l, m + r);
    SortedConcat(m, r);
  }

  // ---------- replacing one kid ----------

  ghost function ReplaceKid(t: Tree, p: nat, k: Tree): Tree
    requires p < |t.kids|
  {
    t.(kids := t.kids[..p] + [k] + t.kids[p+1..])
  }

  lemma {:induction false} ReplaceKidContents(t: Tree, p: nat, k: Tree)
    requires |t.kids| == |t.items| + 1 && p < |t.kids| && InOrder(k) == InOrder(t.kids[p])
    ensures InOrder(ReplaceKid(t, p, k)) == InOrder(t)
  {
    var t' := ReplaceKid(t, p, k);
    InOrderAround(t, p);
    InOrderAround(t', p);
    assert t'.kids[..p] == t.kids[..p] && t'.kids[p+1..] == t.kids[p+1..];
  }

  lemma {:induction false} ReplaceKidKeeps(t: Tree, p: nat, k: Tree, h: nat)
    requires 0 < h && Balanced(t, h) && Occupied(t) && p < |t.kids|
    requires Balanced(k, h - 1) && Occupied(k) && MIN_KEYS <= |k.items|
    requires InOrder(k) == InOrder(t.kids[p])
    ensures Balanced(ReplaceKid(t, p, k), h) && Occupied(ReplaceKid(t, p, k))
    ensures InOrder(ReplaceKid(t, p, k)) == InOrder(t)
  {
    ReplaceKidContents(t, p, k);
    GoodNode(t, h);
    GoodNode(ReplaceKid(t, p, k), h);
    KidsSplitAt(t, p, h - 1);
    GoodKidsConcat(t.kids[..p] + [k], t.kids[p+1..], h - 1);
    GoodKidsConcat(t.kids[..p], [k], h - 1);
  }

  /** The kids before and after kid p are good when all are. */
  lemma {:induction false} KidsSplitAt(t: Tree, p: nat, h: nat)
    requires p < |t.kids| && GoodKids(t.kids, h)
    ensures GoodKids(t.kids[..p], h) && GoodKid(t.kids[p], h) && GoodKids(t.kids[p+1..], h)
  {
    var after := t.kids[p+1..];
    forall i | 0 <= i < |after| ensures GoodKid(after[i], h) {
      assert after[i] == t.kids[p + 1 + i];
    }
  }

  lemma {:induction false} ReplaceKidOids(t: Tree, p: nat, k: Tree, taken: set<nat>)
    requires p < |t.kids| && Distinct(t) && Distinct(k)
    requires Oids(t) <= taken
    requires forall o :: o in Oids(k) ==> o in Oids(t.kids[p]) || o !in taken
    ensures Distinct(ReplaceKid(t, p, k))
    ensures forall o :: o in Oids(ReplaceKid(t, p, k)) ==> o in Oids(t) || o !in taken
    ensures Oids(ReplaceKid(t, p, k)) == {t.oid} + KidOids(t.kids[..p]) + Oids(k) + KidOids(t.kids[p+1..])
    ensures Oids(k) !! {t.oid} + KidOids(t.kids[..p]) + KidOids(t.kids[p+1..])
    ensures Oids(t.kids[p]) !! {t.oid} + KidOids(t.kids[..p]) + KidOids(t.kids[p+1..])
    ensures Oids(t) == {t.oid} + KidOids(t.kids[..p]) + Oids(t.kids[p]) + KidOids(t.kids[p+1..])
  {
    KidApart(t, p);
    KidsAround(t.kids[..p], k, t.kids[p+1..]);
  }

  // ---------- splitting a full node ----------

  ghost function LeftHalf(c: Tree): Tree
    requires |c.items| == ORDER - 1 && (c.kids == [] || |c.kids| == ORDER)
  {
    Tree(c.oid, c.items[..3], if c.kids == [] then [] else c.kids[..4])
  }

  ghost function RightHalf(c: Tree, oid: nat): Tree
    requires |c.items| == ORDER - 1 && (c.kids == [] || |c.kids| == ORDER)
  {
    Tree(oid, c.items[4..], if c.kids == [] then [] else c.kids[4..])
  }

  lemma {:induction false} SplitKeeps(c: Tree, oid: nat, h: nat)
    requires |c.items| == ORDER - 1 && Balanced(c, h) && Occupied(c)
    ensures c.kids == [] || |c.kids| == ORDER
    ensures InOrder(c) == InOrder(LeftHalf(c)) + [c.items[3]] + InOrder(RightHalf(c, oid))
    ensures Balanced(LeftHalf(c), h) && Occupied(LeftHalf(c))
    ensures Balanced(RightHalf(c, oid), h) && Occupied(RightHalf(c, oid))
  {
    var l, m, r := LeftHalf(c), c.items[3], RightHalf(c, oid);
    if h == 0 {
      assert c.items == c.items[..3] + [m] + c.items[4..];
    } else {
      assert c.kids[..4] + c.kids[4..] == c.kids;
      GoodNode(c, h);
      GoodNode(l, h);
      GoodNode(r, h);
      GoodKidsConcat(c.kids[..4], c.kids[4..], h - 1);
      SplitContents(c, oid);
    }
  }

  lemma {:induction false} SplitContents(c: Tree, oid: nat)
    requires |c.items| == ORDER - 1 && |c.kids| == ORDER
    ensures InOrder(c) == InOrder(LeftHalf(c)) + [c.items[3]] + InOrder(RightHalf(c, oid))
  {
    var l, m, r := LeftHalf(c), c.items[3], RightHalf(c, oid);
    WeaveWindow(l.items + [m], l.kids, r.items, r.kids, [], []);
    assert l.items + [m] + r.items + [] == c.items;
    assert l.kids + r.kids + [] == c.kids;
    LeftIsWeaveThenItem(l.items, l.kids, m);
    assert Right([], []) == [];
  }

  lemma {:induction false} LeftIsWeaveThenItem(items: seq<Item>, kids: seq<Tree>, m: Item)
    requires |kids| == |items| + 1
    ensures Left(items + [m], kids) == Weave(items, kids) + [m]
  {
    if items == [] {
      assert Left([], []) == [];
      assert kids[1..] == [];
      assert (items + [m])[1..] == [];
    } else {
      LeftIsWeaveThenItem(items[1..], kids[1..], m);
      assert (items + [m])[1..] == items[1..] + [m];
      var head := InOrder(kids[0]) + [items[0]];
      assert Left(items + [m], kids) == head + (Weave(items[1..], kids[1..]) + [m]);
    }
  }

  lemma {:induction false} SplitOids(c: Tree, oid: nat)
    requires |c.items| == ORDER - 1 && (c.kids == [] || |c.kids| == ORDER)
    requires Distinct(c) && oid !in Oids(c)
    ensures Distinct(LeftHalf(c)) && Distinct(RightHalf(c, oid))
    ensures Oids(LeftHalf(c)) !! Oids(RightHalf(c, oid))
    ensures Oids(LeftHalf(c)) + Oids(RightHalf(c, oid)) == Oids(c) + {oid}
  {
    if c.kids != [] {
      KidsConcat(c.kids[..4], c.kids[4..]);
      assert c.kids[..4] + c.kids[4..] == c.kids;
    }
  }

  /** The parent after kid p has been split around the median m. */
  ghost function WithSplit(t: Tree, p: nat, l: Tree, m: Item, r: Tree): Tree
    requires p < |t.kids| && p <= |t.items|
  {
    Tree(t.oid, t.items[..p] + [m] + t.items[p..], t.kids[..p] + [l, r] + t.kids[p+1..])
  }

  lemma {:induction false} WithSplitKeeps(t: Tree, p: nat, l: Tree, m: Item, r: Tree, h: nat)
    requires 0 < h && Balanced(t, h) && Occupied(t) && p < |t.kids| && |t.items| < ORDER - 1
    requires Balanced(l, h - 1) && Occupied(l) && MIN_KEYS <= |l.items|
    requires Balanced(r, h - 1) && Occupied(r) && MIN_KEYS <= |r.items|
    requires InOrder(t.kids[p]) == InOrder(l) + [m] + InOrder(r)
    ensures Balanced(WithSplit(t, p, l, m, r), h) && Occupied(WithSplit(t, p, l, m, r))
    ensures InOrder(WithSplit(t, p, l, m, r)) == InOrder(t)
  {
    WithSplitShape(t, p, l, m, r, h);
    WithSplitContents(t, p, l, m, r);
  }

  lemma {:induction false} WithSplitShape(t: Tree, p: nat, l: Tree, m: Item, r: Tree, h: nat)
    requires 0 < h && Balanced(t, h) && Occupied(t) && p < |t.kids| && |t.items| < ORDER - 1
    requires GoodKid(l, h - 1) && GoodKid(r, h - 1)
    ensures Balanced(WithSplit(t, p, l, m, r), h) && Occupied(WithSplit(t, p, l, m, r))
  {
    GoodNode(t, h);
    GoodNode(WithSplit(t, p, l, m, r), h);
    KidsSplitAt(t, p, h - 1);
    GoodKidsConcat(t.kids[..p] + [l, r], t.kids[p+1..], h - 1);
    GoodKidsConcat(t.kids[..p], [l, r], h - 1);
  }

  lemma {:induction false} WithSplitContents(t: Tree, p: nat, l: Tree, m: Item, r: Tree)
    requires |t.kids| == |t.items| + 1 && p < |t.kids| && InOrder(t.kids[p]) == InOrder(l) + [m] + InOrder(r)
    ensures InOrder(WithSplit(t, p, l, m, r)) == InOrder(t)
  {
    InOrderAround(t, p);
    WeaveWindow(t.items[..p], t.kids[..p], [m], [l, r], t.items[p..], t.kids[p+1..]);
    assert Weave([m], [l, r]) == InOrder(l) + [m] + InOrder(r) by {
      assert [l, r][1..] == [r] && [m][1..] == [];
      assert Weave([], [r]) == InOrder(r);
    }
  }

  /** The ids of t, and the ids that its kid p shares with no other part of t. */
  lemma {:induction false} KidApart(t: Tree, p: nat)
    requires p < |t.kids| && Distinct(t)
    ensures Oids(t) == {t.oid} + KidOids(t.kids[..p]) + Oids(t.kids[p]) + KidOids(t.kids[p+1..])
    ensures Oids(t.kids[p]) !! {t.oid} + KidOids(t.kids[..p]) + KidOids(t.kids[p+1..])
    ensures KidOids(t.kids[..p]) !! KidOids(t.kids[p+1..]) && t.oid !in KidOids(t.kids[..p]) + KidOids(t.kids[p+1..])
    ensures DistinctKids(t.kids[..p]) && DistinctKids(t.kids[p+1..]) && Distinct(t.kids[p])
  {
    KidsAround(t.kids[..p], t.kids[p], t.kids[p+1..]);
    assert t.kids[..p] + [t.kids[p]] + t.kids[p+1..] == t.kids;
  }

  lemma {:induction false} WithSplitOids(t: Tree, p: nat, l: Tree, m: Item, r: Tree, taken: set<nat>)
    requires p < |t.kids| && p <= |t.items| && Distinct(t) && Distinct(l) && Distinct(r) && Oids(l) !! Oids(r)
    requires Oids(t) <= taken
    requires forall o :: o in Oids(l) + Oids(r) ==> o in Oids(t.kids[p]) || o !in taken
    ensures Distinct(WithSplit(t, p, l, m, r))
    ensures forall o :: o in Oids(WithSplit(t, p, l, m, r)) ==> o in Oids(t) || o !in taken
    ensures Oids(WithSplit(t, p, l, m, r)) ==
      {t.oid} + KidOids(t.kids[..p]) + (Oids(l) + Oids(r)) + KidOids(t.kids[p+1..])
    ensures Oids(l) + Oids(r) !! {t.oid} + KidOids(t.kids[..p]) + KidOids(t.kids[p+1..])
    ensures Oids(t.kids[p]) !! {t.oid} + KidOids(t.kids[..p]) + KidOids(t.kids[p+1..])
    ensures Oids(t) == {t.oid} + KidOids(t.kids[..p]) + Oids(t.kids[p]) + KidOids(t.kids[p+1..])
  {
    KidApart(t, p);
    KidsAround(t.kids[..p], l, [r] + t.kids[p+1..]);
    KidsAround([], r, t.kids[p+1..]);
    assert [] + [r] + t.kids[p+1..] == [r] + t.kids[p+1..];
    assert t.kids[..p] + [l] + ([r] + t.kids[p+1..]) == t.kids[..p] + [l, r] + t.kids[p+1..];
  }

  /** After the split, the half chosen by comparing with the median fits. */
  lemma {:induction false} ChosenHalfFits(t: Tree, p: nat, l: Tree, m: Item, r: Tree, key: nat)
    requires Fits(t, p, key)
    requires InOrder(t.kids[p]) == InOrder(l) + [m] + InOrder(r)
    requires Sorted(InOrder(t.kids[p]))
    ensures Fits(WithSplit(t, p, l, m, r), if key > m.key then p + 1 else p, key)
    ensures Sorted(InOrder(l)) && Sorted(InOrder(r))
  {
    MedianSplits(InOrder(l), m, InOrder(r));
    if key > m.key { RightHalfFits(t, p, l, m, r, key); } else { LeftHalfFits(t, p, l, m, r, key); }
  }

  lemma {:induction false} MedianSplits(a: seq<Item>, m: Item, c: seq<Item>)
    requires Sorted(a + [m] + c)
    ensures Sorted(a) && Sorted(c) && AtMost(a, m.key) && AtLeast(c, m.key)
  {
    Assoc(a, [m], c);
    SortedConcat(a, [m] + c);
    SortedConcat([m], c);
    assert m in [m] && m in [m] + c;
  }

  lemma {:induction false} RightHalfFits(t: Tree, p: nat, l: Tree, m: Item, r: Tree, key: nat)
    requires Fits(t, p, key) && AtMost(InOrder(l), m.key) && m.key <= key
    ensures Fits(WithSplit(t, p, l, m, r), p + 1, key)
  {
    var t' := WithSplit(t, p, l, m, r);
    assert t'.items[..p+1] == t.items[..p] + [m] && t'.items[p+1..] == t.items[p..];
    assert t'.kids[..p+1] == t.kids[..p] + [l] && t'.kids[p+2..] == t.kids[p+1..];
    LeftConcatOne(t.items[..p], t.kids[..p], m, l);
  }

  lemma {:induction false} LeftHalfFits(t: Tree, p: nat, l: Tree, m: Item, r: Tree, key: nat)
    requires Fits(t, p, key) && AtLeast(InOrder(r), m.key) && key <= m.key
    ensures Fits(WithSplit(t, p, l, m, r), p, key)
  {
    var t' := WithSplit(t, p, l, m, r);
    assert t'.items[..p] == t.items[..p] && t'.items[p..] == [m] + t.items[p..];
    assert t'.kids[..p] == t.kids[..p] && t'.kids[p+1..] == [r] + t.kids[p+1..];
    assert ([m] + t.items[p..])[1..] == t.items[p..] && ([r] + t.kids[p+1..])[1..] == t.kids[p+1..];
  }

  lemma {:induction false} LeftConcatOne(items: seq<Item>, kids: seq<Tree>, m: Item, k: Tree)
    requires |kids| == |items|
    ensures Left(items + [m], kids + [k]) == Left(items, kids) + InOrder(k) + [m]
  {
    if items == [] {
      assert Left([], []) == [];
      assert (kids + [k])[1..] == [];
      assert (items + [m])[1..] == [];
    } else {
      LeftConcatOne(items[1..], kids[1..], m, k);
      assert (items + [m])[1..] == items[1..] + [m];
      assert (kids + [k])[1..] == kids[1..] + [k];
      var head := InOrder(kids[0]) + [items[0]];
      assert Left(items + [m], kids + [k]) == head + (Left(items[1..], kids[1..]) + InOrder(k) + [m]);
    }
  }

  // ---------- inserting into the leaf at the end of a path ----------

  /** `path` leads down to a leaf with room for one more item, at position p. */
  ghost predicate PathToRoom(t: Tree, path: seq<nat>, p: nat) {
    if path == [] then t.kids == [] && p <= |t.items| < ORDER - 1
    else |t.kids| == |t.items| + 1 && path[0] < |t.kids| && PathToRoom(t.kids[path[0]], path[1..], p)
  }

  ghost function LeafOid(t: Tree, path: seq<nat>, p: nat): nat
    requires PathToRoom(t, path, p)
  {
    if path == [] then t.oid else LeafOid(t.kids[path[0]], path[1..], p)
  }

  ghost function InsertAt(t: Tree, path: seq<nat>, p: nat, item: Item): Tree
    requires PathToRoom(t, path, p)
  {
    if path == [] then t.(items := t.items[..p] + [item] + t.items[p..])
    else ReplaceKid(t, path[0], InsertAt(t.kids[path[0]], path[1..], p, item))
  }

  /** The contents to the left and to the right of the insertion point. */
  ghost function Before(t: Tree, path: seq<nat>, p: nat): seq<Item>
    requires PathToRoom(t, path, p)
  {
    if path == [] then t.items[..p]
    else Left(t.items[..path[0]], t.kids[..path[0]]) + Before(t.kids[path[0]], path[1..], p)
  }

  ghost function After(t: Tree, path: seq<nat>, p: nat): seq<Item>
    requires PathToRoom(t, path, p)
  {
    if path == [] then t.items[p..]
    else After(t.kids[path[0]], path[1..], p) + Right(t.items[path[0]..], t.kids[path[0]+1..])
  }

  lemma Regrouped(l: seq<Item>, b: seq<Item>, a: seq<Item>, r: seq<Item>, item: Item)
    ensures l + (b + a) + r == (l + b) + (a + r)
    ensures l + (b + [item] + a) + r == (l + b) + [item] + (a + r)
  {
  }

  lemma {:induction false} InsertAtContents(t: Tree, path: seq<nat>, p: nat, item: Item)
    requires PathToRoom(t, path, p)
    ensures InOrder(t) == Before(t, path, p) + After(t, path, p)
    ensures InOrder(InsertAt(t, path, p, item)) == Before(t, path, p) + [item] + After(t, path, p)
  {
    if path == [] {
      assert t.items == t.items[..p] + t.items[p..];
    } else {
      var q, k := path[0], t.kids[path[0]];
      var t' := InsertAt(t, path, p, item);
      InsertAtContents(k, path[1..], p, item);
      InOrderAround(t, q);
      InOrderAround(t', q);
      assert t'.kids[..q] == t.kids[..q] && t'.kids[q+1..] == t.kids[q+1..];
      var l, b, a, r := Left(t.items[..q], t.kids[..q]), Before(k, path[1..], p), After(k, path[1..], p),
        Right(t.items[q..], t.kids[q+1..]);
      Regrouped(l, b, a, r, item);
    }
  }

  lemma {:induction false} InsertAtShape(t: Tree, path: seq<nat>, p: nat, item: Item, h: nat)
    requires PathToRoom(t, path, p) && Balanced(t, h) && Occupied(t)
    ensures Balanced(InsertAt(t, path, p, item), h) && Occupied(InsertAt(t, path, p, item))
    ensures |t.items| <= |InsertAt(t, path, p, item).items|
  {
    if path != [] {
      InsertAtShape(t.kids[path[0]], path[1..], p, item, h - 1);
    }
  }

  lemma {:induction false} InsertAtOids(t: Tree, path: seq<nat>, p: nat, item: Item)
    requires PathToRoom(t, path, p) && Distinct(t)
    ensures Oids(InsertAt(t, path, p, item)) == Oids(t) && Distinct(InsertAt(t, path, p, item))
    ensures LeafOid(t, path, p) in Oids(t)
    ensures InsertAt(t, path, p, item).oid == t.oid
  {
    if path != [] {
      var q := path[0];
      KidsAround(t.kids[..q], t.kids[q], t.kids[q+1..]);
      assert t.kids[..q] + [t.kids[q]] + t.kids[q+1..] == t.kids;
      InsertAtOids(t.kids[q], path[1..], p, item);
      KidsAround(t.kids[..q], InsertAt(t.kids[q], path[1..], p, item), t.kids[q+1..]);
    }
  }

  /** An item placed where its key fits keeps the order. */
  lemma {:induction false} InsertionKeepsOrder(before: seq<Item>, item: Item, after: seq<Item>)
    requires Sorted(before + after) && AtMost(before, item.key) && AtLeast(after, item.key)
    ensures Sorted(before + [item] + after)
  {
    SortedConcat(before, after);
    var s := before + [item] + after;
    forall i, j | 0 <= i < j < |s| ensures s[i].key <= s[j].key {
      if i < |before| { assert s[i] in before; }
      if j > |before| { assert s[j] in after && s[j] == after[j - |before| - 1]; }
      if i > |before| { assert s[i] == after[i - |before| - 1]; }
    }
  }

  // ---------- moving items between neighbours ----------

  /** Two trees that can stand side by side: both leaves, or both inner nodes. */
  ghost predicate Peers(a: Tree, b: Tree) {
    || (a.kids == [] && b.kids == [])
    || (|a.kids| == |a.items| + 1 && |b.kids| == |b.items| + 1)
  }

  ghost function Joined(a: Tree, sep: Item, b: Tree): Tree {
    Tree(a.oid, a.items + [sep] + b.items, a.kids + b.kids)
  }

  ghost function FirstKid(b: Tree): seq<Tree> { if b.kids == [] then [] else [b.kids[0]] }

  ghost function LastKid(a: Tree): seq<Tree> { if a.kids == [] then [] else [a.kids[|a.kids| - 1]] }

  ghost function WithoutFirst(b: Tree): Tree
    requires b.items != []
  {
    Tree(b.oid, b.items[1..], if b.kids == [] then [] else b.kids[1..])
  }

  ghost function WithoutLast(a: Tree): Tree
    requires a.items != []
  {
    Tree(a.oid, a.items[..|a.items| - 1], if a.kids == [] then [] else a.kids[..|a.kids| - 1])
  }

  ghost function WithLast(a: Tree, sep: Item, kid: seq<Tree>): Tree {
    Tree(a.oid, a.items + [sep], a.kids + kid)
  }

  ghost function WithFirst(b: Tree, sep: Item, kid: seq<Tree>): Tree {
    Tree(b.oid, [sep] + b.items, kid + b.kids)
  }

  lemma {:induction false} JoinedContents(a: Tree, sep: Item, b: Tree)
    requires Peers(a, b)
    ensures InOrder(Joined(a, sep, b)) == InOrder(a) + [sep] + InOrder(b)
  {
    if a.kids != [] {
      WeaveWindow(a.items + [sep], a.kids, b.items, b.kids, [], []);
      assert a.items + [sep] + b.items + [] == a.items + [sep] + b.items && a.kids + b.kids + [] == a.kids + b.kids;
      LeftIsWeaveThenItem(a.items, a.kids, sep);
    }
  }

  lemma Reassociated(a: seq<Item>, x: Item, b: seq<Item>, y: Item, c: seq<Item>)
    ensures (a + [x] + b) + [y] + c == a + [x] + (b + [y] + c)
  {
  }

  /** Moving the first item of b over the separator into a. */
  lemma {:induction false} RotateRightContents(a: Tree, sep: Item, b: Tree)
    requires Peers(a, b) && b.items != []
    ensures InOrder(WithLast(a, sep, FirstKid(b))) + [b.items[0]] + InOrder(WithoutFirst(b)) ==
      InOrder(a) + [sep] + InOrder(b)
  {
    if a.kids == [] {
      assert b.items == [b.items[0]] + b.items[1..];
    } else {
      var k := Tree(b.oid, [], [b.kids[0]]);
      assert Weave([], [b.kids[0]]) == InOrder(b.kids[0]);
      JoinedContents(a, sep, k);
      assert a.items + [sep] + [] == a.items + [sep];
      JoinedContents(k, b.items[0], WithoutFirst(b));
      assert [] + [b.items[0]] + b.items[1..] == b.items && [b.kids[0]] + b.kids[1..] == b.kids;
      Reassociated(InOrder(a), sep, InOrder(k), b.items[0], InOrder(WithoutFirst(b)));
      assert Joined(k, b.items[0], WithoutFirst(b)) == Tree(k.oid, b.items, b.kids);
    }
  }

  /** Moving the last item of a over the separator into b. */
  lemma {:induction false} RotateLeftContents(a: Tree, sep: Item, b: Tree)
    requires Peers(a, b) && a.items != []
    ensures InOrder(WithoutLast(a)) + [a.items[|a.items| - 1]] + InOrder(WithFirst(b, sep, LastKid(a))) ==
      InOrder(a) + [sep] + InOrder(b)
  {
    var n := |a.items|;
    if a.kids == [] {
      assert a.items == a.items[..n-1] + [a.items[n-1]];
    } else {
      var k := Tree(b.oid, [], [a.kids[n]]);
      assert Weave([], [a.kids[n]]) == InOrder(a.kids[n]);
      JoinedContents(k, sep, b);
      assert [] + [sep] + b.items == [sep] + b.items;
      JoinedContents(WithoutLast(a), a.items[n-1], k);
      assert a.items[..n-1] + [a.items[n-1]] + [] == a.items && a.kids[..n] + [a.kids[n]] == a.kids;
      Reassociated(InOrder(WithoutLast(a)), a.items[n-1], InOrder(k), sep, InOrder(b));
      assert Joined(WithoutLast(a), a.items[n-1], k) == a;
    }
  }

  /** t with the neighbours p and p + 1 and the item between them replaced. */
  ghost function WithPair(t: Tree, p: nat, a: Tree, m: Item, b: Tree): Tree
    requires p + 1 < |t.kids| && p < |t.items|
  {
    Tree(t.oid, t.items[..p] + [m] + t.items[p+1..], t.kids[..p] + [a, b] + t.kids[p+2..])
  }

  /** t with the neighbours p and p + 1 and the item between them replaced by one kid. */
  ghost function WithMerged(t: Tree, p: nat, k: Tree): Tree
    requires p + 1 < |t.kids| && p < |t.items|
  {
    Tree(t.oid, t.items[..p] + t.items[p+1..], t.kids[..p] + [k] + t.kids[p+2..])
  }

  /** What t lists, seen from the neighbours p and p + 1. */
  lemma {:induction false} PairContents(t: Tree, p: nat, a: Tree, m: Item, b: Tree)
    requires |t.kids| == |t.items| + 1 && p < |t.items|
    ensures InOrder(WithPair(t, p, a, m, b)) ==
      Left(t.items[..p], t.kids[..p]) + (InOrder(a) + [m] + InOrder(b)) + Right(t.items[p+1..], t.kids[p+2..])
  {
    WeaveWindow(t.items[..p], t.kids[..p], [m], [a, b], t.items[p+1..], t.kids[p+2..]);
    assert [a, b][1..] == [b] && [m][1..] == [];
    assert Weave([], [b]) == InOrder(b);
  }

  lemma {:induction false} PairIsIdentity(t: Tree, p: nat)
    requires |t.kids| == |t.items| + 1 && p < |t.items|
    ensures WithPair(t, p, t.kids[p], t.items[p], t.kids[p+1]) == t
  {
    assert t.items[..p] + [t.items[p]] + t.items[p+1..] == t.items;
    assert t.kids[..p] + [t.kids[p], t.kids[p+1]] + t.kids[p+2..] == t.kids;
  }

  lemma {:induction false} MergedContents(t: Tree, p: nat, k: Tree)
    requires |t.kids| == |t.items| + 1 && p < |t.items|
    ensures InOrder(WithMerged(t, p, k)) ==
      Left(t.items[..p], t.kids[..p]) + InOrder(k) + Right(t.items[p+1..], t.kids[p+2..])
  {
    WeaveWindow(t.items[..p], t.kids[..p], [], [k], t.items[p+1..], t.kids[p+2..]);
    assert t.items[..p] + [] + t.items[p+1..] == t.items[..p] + t.items[p+1..];
    assert Weave([], [k]) == InOrder(k);
  }

  /** The objects of t, seen from the neighbours p and p + 1. */
  lemma {:induction false} PairOids(t: Tree, p: nat, a: Tree, m: Item, b: Tree)
    requires |t.kids| == |t.items| + 1 && p < |t.items|
    ensures Oids(WithPair(t, p, a, m, b)) ==
      {t.oid} + KidOids(t.kids[..p]) + Oids(a) + Oids(b) + KidOids(t.kids[p+2..])
    ensures Distinct(WithPair(t, p, a, m, b)) <==>
      && t.oid !in KidOids(t.kids[..p]) + Oids(a) + Oids(b) + KidOids(t.kids[p+2..])
      && DistinctKids(t.kids[..p]) && Distinct(a) && Distinct(b) && DistinctKids(t.kids[p+2..])
      && KidOids(t.kids[..p]) !! Oids(a) + Oids(b) + KidOids(t.kids[p+2..])
      && Oids(a) !! Oids(b) + KidOids(t.kids[p+2..]) && Oids(b) !! KidOids(t.kids[p+2..])
  {
    KidsAround(t.kids[..p], a, [b] + t.kids[p+2..]);
    KidsAround([], b, t.kids[p+2..]);
    assert [] + [b] + t.kids[p+2..] == [b] + t.kids[p+2..];
    assert t.kids[..p] + [a] + ([b] + t.kids[p+2..]) == t.kids[..p] + [a, b] + t.kids[p+2..];
  }

  lemma {:induction false} RotateRightOids(a: Tree, sep: Item, b: Tree)
    requires Peers(a, b) && b.items != [] && Distinct(a) && Distinct(b) && Oids(a) !! Oids(b)
    ensures Distinct(WithLast(a, sep, FirstKid(b))) && Distinct(WithoutFirst(b))
    ensures Oids(WithLast(a, sep, FirstKid(b))) !! Oids(WithoutFirst(b))
    ensures Oids(WithLast(a, sep, FirstKid(b))) + Oids(WithoutFirst(b)) == Oids(a) + Oids(b)
  {
    KidsConcat(a.kids, FirstKid(b));
    if b.kids != [] {
      KidsConcat([b.kids[0]], b.kids[1..]);
      assert [b.kids[0]] + b.kids[1..] == b.kids;
    }
  }

  lemma {:induction false} RotateLeftOids(a: Tree, items: seq<Item>, b: Tree)
    requires Peers(a, b) && a.items != [] && Distinct(a) && Distinct(b) && Oids(a) !! Oids(b)
    ensures var b' := Tree(b.oid, items, LastKid(a) + b.kids);
      && Distinct(WithoutLast(a)) && Distinct(b') && Oids(WithoutLast(a)) !! Oids(b')
      && Oids(WithoutLast(a)) + Oids(b') == Oids(a) + Oids(b)
  {
    KidsConcat(LastKid(a), b.kids);
    if a.kids != [] {
      var n := |a.kids| - 1;
      KidsConcat(a.kids[..n], [a.kids[n]]);
      assert a.kids[..n] + [a.kids[n]] == a.kids;
    }
  }

  lemma {:induction false} JoinedOids(a: Tree, sep: Item, b: Tree)
    requires Distinct(a) && Distinct(b) && Oids(a) !! Oids(b)
    ensures Distinct(Joined(a, sep, b)) && Oids(Joined(a, sep, b)) == Oids(a) + Oids(b) - {b.oid}
  {
    KidsConcat(a.kids, b.kids);
  }

  /** Same kids, different items: different contents. */
  lemma {:induction false} WeaveTellsItems(i1: seq<Item>, i2: seq<Item>, kids: seq<Tree>)
    requires |kids| == |i1| + 1 == |i2| + 1
    requires Weave(i1, kids) == Weave(i2, kids)
    ensures i1 == i2
  {
    if i1 != [] {
      var k, r1, r2 := InOrder(kids[0]), Weave(i1[1..], kids[1..]), Weave(i2[1..], kids[1..]);
      assert i1[0] == (k + [i1[0]] + r1)[|k|] == (k + [i2[0]] + r2)[|k|] == i2[0];
      assert r1 == (k + [i1[0]] + r1)[|k| + 1..] == (k + [i2[0]] + r2)[|k| + 1..] == r2;
      WeaveTellsItems(i1[1..], i2[1..], kids[1..]);
      assert i1 == [i1[0]] + i1[1..] && i2 == [i2[0]] + i2[1..];
    }
  }
}
