/**
  The order-8 B-tree as a value: its contents in key order, its balance, the
  number of keys per node and the set of pool objects it occupies.

  A `Tree` is what a pool of nodes (module BTreePool) represents; every tree
  node remembers the object id it is stored under.
 */
module BTreeShape {

  const ORDER := 8
  const MIN_KEYS := 3  // ORDER / 2 - 1

  datatype Item = Item(key: nat, value: nat)

  /** A leaf has no kids; an inner node has one kid more than it has items. */
  datatype Tree = Tree(oid: nat, items: seq<Item>, kids: seq<Tree>)

  // ---------- contents in key order ----------

  ghost function InOrder(t: Tree): seq<Item>
    decreases t, 1
  {
    if |t.kids| != |t.items| + 1 then t.items else Weave(t.items, t.kids)
  }

  ghost function Weave(items: seq<Item>, kids: seq<Tree>): seq<Item>
    requires |kids| == |items| + 1
    decreases kids, 0
  {
    if items == [] then InOrder(kids[0])
    else InOrder(kids[0]) + [items[0]] + Weave(items[1..], kids[1..])
  }

  /** kid, item, kid, item: what stands to the left of a kid. */
  ghost function Left(items: seq<Item>, kids: seq<Tree>): seq<Item>
    requires |kids| == |items|
  {
    if items == [] then [] else InOrder(kids[0]) + [items[0]] + Left(items[1..], kids[1..])
  }

  /** item, kid, item, kid: what stands to the right of a kid. */
  ghost function Right(items: seq<Item>, kids: seq<Tree>): seq<Item>
    requires |kids| == |items|
  {
    if items == [] then [] else [items[0]] + InOrder(kids[0]) + Right(items[1..], kids[1..])
  }

  lemma Assoc(a: seq<Item>, b: seq<Item>, c: seq<Item>)
    ensures a + (b + c) == a + b + c
  {
  }

  lemma {:induction false} WeaveIsKidThenRight(items: seq<Item>, kids: seq<Tree>)
    requires |kids| == |items| + 1
    ensures Weave(items, kids) == InOrder(kids[0]) + Right(items, kids[1..])
  {
    if items == [] {
      assert Right(items, kids[1..]) == [];
    } else {
      WeaveIsKidThenRight(items[1..], kids[1..]);
      Assoc(InOrder(kids[0]), [items[0]], InOrder(kids[1]) + Right(items[1..], kids[2..]));
      Assoc([items[0]], InOrder(kids[1]), Right(items[1..], kids[2..]));
      assert kids[1..][1..] == kids[2..];
    }
  }

  lemma {:induction false} RightConcat(i1: seq<Item>, k1: seq<Tree>, i2: seq<Item>, k2: seq<Tree>)
    requires |k1| == |i1| && |k2| == |i2|
    ensures Right(i1 + i2, k1 + k2) == Right(i1, k1) + Right(i2, k2)
  {
    if i1 == [] {
      assert i1 + i2 == i2 && k1 + k2 == k2;
    } else {
      var head := [i1[0]] + InOrder(k1[0]);
      var tail, rest := Right(i1[1..], k1[1..]), Right(i2, k2);
      RightConcat(i1[1..], k1[1..], i2, k2);
      assert (i1 + i2)[0] == i1[0] && (i1 + i2)[1..] == i1[1..] + i2;
      assert (k1 + k2)[0] == k1[0] && (k1 + k2)[1..] == k1[1..] + k2;
      Assoc(head, tail, rest);
    }
  }

  /**
    The one structural fact behind every repair of a node: a window of kids
    (with the items between them) contributes one contiguous stretch.
   */
  lemma {:induction false} WeaveWindow(
    i1: seq<Item>, k1: seq<Tree>, im: seq<Item>, km: seq<Tree>, i2: seq<Item>, k2: seq<Tree>)
    requires |k1| == |i1| && |km| == |im| + 1 && |k2| == |i2|
    ensures Weave(i1 + im + i2, k1 + km + k2) == Left(i1, k1) + Weave(im, km) + Right(i2, k2)
  {
    if i1 == [] {
      assert i1 + im + i2 == im + i2 && k1 + km + k2 == km + k2;
      WindowAtStart(im, km, i2, k2);
    } else {
      var head := InOrder(k1[0]) + [i1[0]];
      var tail, mid, rest := Left(i1[1..], k1[1..]), Weave(im, km), Right(i2, k2);
      var items, kids := i1 + im + i2, k1 + km + k2;
      WeaveWindow(i1[1..], k1[1..], im, km, i2, k2);
      assert items[0] == i1[0] && items[1..] == i1[1..] + im + i2;
      assert kids[0] == k1[0] && kids[1..] == k1[1..] + km + k2;
      Assoc(head, tail + mid, rest);
      Assoc(head, tail, mid);
    }
  }

  lemma {:induction false} WindowAtStart(im: seq<Item>, km: seq<Tree>, i2: seq<Item>, k2: seq<Tree>)
    requires |km| == |im| + 1 && |k2| == |i2|
    ensures Weave(im + i2, km + k2) == Weave(im, km) + Right(i2, k2)
  {
    WeaveIsKidThenRight(im + i2, km + k2);
    assert (km + k2)[1..] == km[1..] + k2;
    RightConcat(im, km[1..], i2, k2);
    WeaveIsKidThenRight(im, km);
    assert (km + k2)[0] == km[0];
    Assoc(InOrder(km[0]), Right(im, km[1..]), Right(i2, k2));
  }

  /** The contents of an inner node, seen from kid p. */
  lemma {:induction false} InOrderAround(t: Tree, p: nat)
    requires |t.kids| == |t.items| + 1 && p <= |t.items|
    ensures InOrder(t) == Left(t.items[..p], t.kids[..p]) + InOrder(t.kids[p]) + Right(t.items[p..], t.kids[p+1..])
  {
    WeaveWindow(t.items[..p], t.kids[..p], [], [t.kids[p]], t.items[p..], t.kids[p+1..]);
    assert t.items[..p] + [] + t.items[p..] == t.items;
    assert t.kids[..p] + [t.kids[p]] + t.kids[p+1..] == t.kids;
  }

  // ---------- order ----------

  ghost predicate Sorted(s: seq<Item>) {
    forall i, j :: 0 <= i < j < |s| ==> s[i].key <= s[j].key
  }

  ghost predicate AtMost(s: seq<Item>, key: nat) {
    forall x :: x in s ==> x.key <= key
  }

  ghost predicate AtLeast(s: seq<Item>, key: nat) {
    forall x :: x in s ==> key <= x.key
  }

  lemma {:induction false} SortedConcat(a: seq<Item>, b: seq<Item>)
    requires Sorted(a + b)
    ensures Sorted(a) && Sorted(b)
    ensures forall x, y :: x in a && y in b ==> x.key <= y.key
  {
    var s := a + b;
    forall i, j | 0 <= i < j < |a| ensures a[i].key <= a[j].key { assert s[i] == a[i] && s[j] == a[j]; }
    forall i, j | 0 <= i < j < |b| ensures b[i].key <= b[j].key { assert s[|a| + i] == b[i] && s[|a| + j] == b[j]; }
    forall x, y | x in a && y in b ensures x.key <= y.key {
      var i :| 0 <= i < |a| && a[i] == x;
      var j :| 0 <= j < |b| && b[j] == y;
      assert s[i] == x && s[|a| + j] == y;
    }
  }

  /** The last item to the left of kid p bounds everything to the left. */
  lemma {:induction false} LeftAtMost(items: seq<Item>, kids: seq<Tree>, rest: seq<Item>, key: nat)
    requires |kids| == |items|
    requires Sorted(Left(items, kids) + rest)
    requires items != [] ==> items[|items| - 1].key <= key
    ensures AtMost(Left(items, kids), key)
  {
    if items != [] {
      var l := Left(items, kids);
      LeftEndsWithLastItem(items, kids);
      SortedConcat(l, rest);
      forall x | x in l ensures x.key <= key {
        var i :| 0 <= i < |l| && l[i] == x;
        assert l[|l| - 1].key <= key;
      }
    }
  }

  lemma {:induction false} LeftEndsWithLastItem(items: seq<Item>, kids: seq<Tree>)
    requires |kids| == |items| > 0
    ensures Left(items, kids) != []
    ensures Left(items, kids)[|Left(items, kids)| - 1] == items[|items| - 1]
  {
    if |items| > 1 {
      LeftEndsWithLastItem(items[1..], kids[1..]);
    }
  }

  lemma {:induction false} RightAtLeast(before: seq<Item>, items: seq<Item>, kids: seq<Tree>, key: nat)
    requires |kids| == |items|
    requires Sorted(before + Right(items, kids))
    requires items != [] ==> key <= items[0].key
    ensures AtLeast(Right(items, kids), key)
  {
    if items != [] {
      var r := Right(items, kids);
      SortedConcat(before, r);
      assert r[0] == items[0];
      forall x | x in r ensures key <= x.key {
        var i :| 0 <= i < |r| && r[i] == x;
      }
    }
  }

  // ---------- balance and occupancy ----------

  ghost predicate Balanced(t: Tree, h: nat)
    decreases h
  {
    if h == 0 then t.kids == []
    else |t.kids| == |t.items| + 1 && forall k :: k in t.kids ==> Balanced(k, h - 1)
  }

  /** Every node below t holds 3 to 7 keys, and t itself at most 7. */
  ghost predicate Occupied(t: Tree)
  {
    && |t.items| <= ORDER - 1
    && forall k :: k in t.kids ==> MIN_KEYS <= |k.items| && Occupied(k)
  }

  /** Kids that an inner node may have: of height h, and none with too few or too many keys. */
  ghost predicate GoodKids(kids: seq<Tree>, h: nat) {
    forall i :: 0 <= i < |kids| ==> GoodKid(kids[i], h)
  }

  ghost predicate GoodKid(k: Tree, h: nat) {
    Balanced(k, h) && Occupied(k) && MIN_KEYS <= |k.items|
  }

  /** Balance and occupancy of an inner node, kid by kid. */
  lemma {:induction false} GoodNode(t: Tree, h: nat)
    requires 0 < h
    ensures Balanced(t, h) && Occupied(t) <==>
      |t.kids| == |t.items| + 1 && |t.items| <= ORDER - 1 && GoodKids(t.kids, h - 1)
  {
    if Balanced(t, h) && Occupied(t) {
      forall i | 0 <= i < |t.kids| ensures GoodKid(t.kids[i], h - 1) {
        assert t.kids[i] in t.kids;
      }
    }
    if |t.kids| == |t.items| + 1 && |t.items| <= ORDER - 1 && GoodKids(t.kids, h - 1) {
      forall k | k in t.kids ensures GoodKid(k, h - 1) {
        var i :| 0 <= i < |t.kids| && t.kids[i] == k;
      }
    }
  }

  lemma {:induction false} GoodKidsConcat(a: seq<Tree>, b: seq<Tree>, h: nat)
    ensures GoodKids(a + b, h) <==> GoodKids(a, h) && GoodKids(b, h)
  {
    var s := a + b;
    if GoodKids(s, h) {
      forall i | 0 <= i < |a| ensures GoodKid(a[i], h) { assert GoodKid(s[i], h); }
      forall i | 0 <= i < |b| ensures GoodKid(b[i], h) { assert GoodKid(s[|a| + i], h); }
    }
  }

  ghost predicate WellFormed(t: Tree, h: nat) {
    && Balanced(t, h)
    && Occupied(t)
    && (t.items == [] ==> h == 0)
    && Sorted(InOrder(t))
  }

  // ---------- the objects a tree occupies ----------

  ghost function Oids(t: Tree): set<nat>
    decreases t, 1
  {
    {t.oid} + KidOids(t.kids)
  }

  ghost function KidOids(kids: seq<Tree>): set<nat>
    decreases kids, 0
  {
    if kids == [] then {} else Oids(kids[0]) + KidOids(kids[1..])
  }

  /** No object is used for two nodes of the tree. */
  ghost predicate Distinct(t: Tree)
    decreases t, 1
  {
    t.oid !in KidOids(t.kids) && DistinctKids(t.kids)
  }

  ghost predicate DistinctKids(kids: seq<Tree>)
    decreases kids, 0
  {
    kids != [] ==>
      && Distinct(kids[0])
      && Oids(kids[0]) !! KidOids(kids[1..])
      && DistinctKids(kids[1..])
  }

  lemma {:induction false} KidsConcat(a: seq<Tree>, b: seq<Tree>)
    ensures KidOids(a + b) == KidOids(a) + KidOids(b)
    ensures DistinctKids(a + b) <==> DistinctKids(a) && DistinctKids(b) && KidOids(a) !! KidOids(b)
  {
    if a == [] {
      assert a + b == b;
    } else {
      KidsConcat(a[1..], b);
      assert (a + b)[1..] == a[1..] + b;
    }
  }

  lemma {:induction false} KidsOfOne(k: Tree)
    ensures KidOids([k]) == Oids(k)
    ensures DistinctKids([k]) <==> Distinct(k)
  {
    assert KidOids([k][1..]) == {};
  }

  /** Kids around position p: their objects, and when they are pairwise disjoint. */
  lemma {:induction false} KidsAround(a: seq<Tree>, k: Tree, b: seq<Tree>)
    ensures KidOids(a + [k] + b) == KidOids(a) + Oids(k) + KidOids(b)
    ensures DistinctKids(a + [k] + b) <==>
      DistinctKids(a) && Distinct(k) && DistinctKids(b) &&
      KidOids(a) !! Oids(k) && KidOids(a) !! KidOids(b) && Oids(k) !! KidOids(b)
  {
    KidsConcat(a + [k], b);
    KidsConcat(a, [k]);
    KidsOfOne(k);
  }
}
