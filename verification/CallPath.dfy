/**
  Call paths: one node per (call site, function) along a chain of calls, where
  a recursive call leads back to the node already on the chain; and the summary
  of a statistic over all calls below a node and below a (call site, function).
 */
module CallPaths {

  datatype Key = Key(callSite: nat, fn: nat)

  datatype Node = Node(parent: nat, key: Key, children: map<Key, nat>, count: nat, statistics: nat)

  const NO_KEY := Key(0, 0)

  /** Node 0 is the root; parents come before their children. */
  ghost predicate Tree(nodes: seq<Node>) {
    && 0 < |nodes| && nodes[0].key == NO_KEY
    && forall i :: 0 < i < |nodes| ==> nodes[i].parent < i && nodes[i].key.fn != 0
  }

  /** i is j or lies on the parent chain of j. */
  ghost predicate OnChain(nodes: seq<Node>, i: nat, j: nat)
    requires Tree(nodes) && j < |nodes|
  {
    i == j || (j != 0 && OnChain(nodes, i, nodes[j].parent))
  }

  lemma {:induction false} ChainGoesDown(nodes: seq<Node>, i: nat, j: nat)
    requires Tree(nodes) && j < |nodes| && OnChain(nodes, i, j)
    ensures i <= j
  {
    if i != j { ChainGoesDown(nodes, i, nodes[j].parent); }
  }

  lemma {:induction false} ChainTrans(nodes: seq<Node>, i: nat, j: nat, k: nat)
    requires Tree(nodes) && k < |nodes| && OnChain(nodes, j, k)
    ensures j < |nodes|
    ensures OnChain(nodes, i, j) ==> OnChain(nodes, i, k)
  {
    ChainGoesDown(nodes, j, k);
    if j != k { ChainTrans(nodes, i, j, nodes[k].parent); }
  }

  /** Of two nodes on one chain, one is on the chain of the other. */
  lemma {:induction false} ChainLinear(nodes: seq<Node>, i: nat, j: nat, k: nat)
    requires Tree(nodes) && k < |nodes| && OnChain(nodes, i, k) && OnChain(nodes, j, k) && i <= j
    ensures j < |nodes| && OnChain(nodes, i, j)
  {
    ChainGoesDown(nodes, j, k);
    if j != k {
      if i == k { ChainGoesDown(nodes, j, k); } else { ChainLinear(nodes, i, j, nodes[k].parent); }
    }
  }

  /** No key occurs twice on a parent chain. */
  ghost predicate NoRepeat(nodes: seq<Node>)
    requires Tree(nodes)
  {
    forall i: nat, j: nat :: j < |nodes| && i != j && OnChain(nodes, i, j) ==>
      i < |nodes| && nodes[i].key != nodes[j].key
  }

  ghost predicate ChildrenNamed(nodes: seq<Node>)
    requires Tree(nodes)
  {
    forall i, key :: 0 <= i < |nodes| && key in nodes[i].children ==>
      Answers(nodes, i, key, nodes[i].children[key])
  }

  /** The answer for a key under i: the node with that key on the chain of i, or else a child of i. */
  ghost predicate Answers(nodes: seq<Node>, i: nat, key: Key, r: nat)
    requires Tree(nodes) && i < |nodes|
  {
    r < |nodes| && nodes[r].key == key && (OnChain(nodes, r, i) || (r != 0 && nodes[r].parent == i))
  }

  /** Every path is remembered by its parent. */
  ghost predicate Linked(nodes: seq<Node>)
    requires Tree(nodes)
  {
    forall c :: 0 < c < |nodes| ==> IsChild(nodes, c)
  }

  ghost predicate IsChild(nodes: seq<Node>, c: nat)
    requires Tree(nodes) && 0 < c < |nodes|
  {
    var p := nodes[nodes[c].parent];
    nodes[c].key in p.children && p.children[nodes[c].key] == c
  }

  /** There is one answer at most. */
  lemma {:induction false} AnswerUnique(nodes: seq<Node>, i: nat, key: Key, r: nat, q: nat)
    requires Tree(nodes) && NoRepeat(nodes) && Linked(nodes) && i < |nodes|
    requires Answers(nodes, i, key, r) && Answers(nodes, i, key, q)
    ensures r == q
  {
    if OnChain(nodes, r, i) && OnChain(nodes, q, i) {
      if r <= q { ChainLinear(nodes, r, q, i); } else { ChainLinear(nodes, q, r, i); }
    } else if !OnChain(nodes, r, i) && !OnChain(nodes, q, i) {
      assert IsChild(nodes, r) && IsChild(nodes, q);
    } else {
      var c, a := if OnChain(nodes, r, i) then q else r, if OnChain(nodes, r, i) then r else q;
      assert OnChain(nodes, a, c);
      ChainGoesDown(nodes, a, i);
    }
  }

  ghost predicate Valid(nodes: seq<Node>) {
    Tree(nodes) && NoRepeat(nodes) && ChildrenNamed(nodes)
  }

  // ---------- finding a path ----------

  /** Chains only depend on parents. */
  lemma {:induction false} SameChains(nodes: seq<Node>, nodes': seq<Node>, i: nat, j: nat)
    requires Tree(nodes) && Tree(nodes') && j < |nodes| <= |nodes'|
    requires forall k :: 0 <= k < |nodes| ==> nodes'[k].parent == nodes[k].parent
    ensures OnChain(nodes', i, j) <==> OnChain(nodes, i, j)
  {
    if j != 0 { SameChains(nodes, nodes', i, nodes[j].parent); }
  }

  lemma {:induction false} AppendKeepsNoRepeat(nodes: seq<Node>, n: Node)
    requires Tree(nodes) && NoRepeat(nodes) && n.parent < |nodes| && n.key.fn != 0
    requires !KeyOnChain(nodes, n.key, n.parent)
    ensures Tree(nodes + [n]) && NoRepeat(nodes + [n])
  {
    var nodes' := nodes + [n];
    assert Tree(nodes');
    forall i: nat, j: nat | j < |nodes'| && i != j && OnChain(nodes', i, j)
      ensures i < |nodes'| && nodes'[i].key != nodes'[j].key
    {
      ChainGoesDown(nodes', i, j);
      if j < |nodes| {
        SameChains(nodes, nodes', i, j);
      } else {
        SameChains(nodes, nodes', i, n.parent);
        ChainGoesDown(nodes', i, n.parent);
      }
    }
  }

  ghost predicate KeyOnChain(nodes: seq<Node>, key: Key, p: nat)
    requires Tree(nodes) && p < |nodes|
  {
    exists i: nat :: i < |nodes| && OnChain(nodes, i, p) && nodes[i].key == key
  }

  /** Without the key on the chain or among the remembered children there is no answer. */
  lemma {:induction false} NoAnswer(nodes: seq<Node>, p: nat, key: Key)
    requires Tree(nodes) && Linked(nodes) && p < |nodes| && key !in nodes[p].children && !KeyOnChain(nodes, key, p)
    ensures forall q: nat :: !Answers(nodes, p, key, q)
  {
    forall q: nat ensures !Answers(nodes, p, key, q) {
      assert 0 < q < |nodes| ==> IsChild(nodes, q);
    }
  }

  lemma {:induction false} AppendKeepsLinks(nodes: seq<Node>, n: Node)
    requires Tree(nodes) && Linked(nodes) && Tree(nodes + [n])
    ensures forall d :: 0 < d < |nodes| ==> IsChild(nodes + [n], d)
  {
    forall d | 0 < d < |nodes| ensures IsChild(nodes + [n], d) { assert IsChild(nodes, d); }
  }

  /** Remembering an answer, or adding a node, keeps all answers. */
  lemma {:induction false} SameAnswers(nodes: seq<Node>, nodes': seq<Node>, i: nat, key: Key, r: nat)
    requires Tree(nodes) && Tree(nodes') && i < |nodes| <= |nodes'| && Answers(nodes, i, key, r)
    requires forall k :: 0 <= k < |nodes| ==> nodes'[k].parent == nodes[k].parent && nodes'[k].key == nodes[k].key
    ensures Answers(nodes', i, key, r)
  {
    SameChains(nodes, nodes', r, i);
  }

  lemma {:induction false} AppendKeepsNames(nodes: seq<Node>, n: Node)
    requires Valid(nodes) && Tree(nodes + [n]) && n.children == map[]
    ensures ChildrenNamed(nodes + [n])
  {
    var nodes' := nodes + [n];
    forall i, k | 0 <= i < |nodes'| && k in nodes'[i].children ensures Answers(nodes', i, k, nodes'[i].children[k]) {
      SameAnswers(nodes, nodes', i, k, nodes[i].children[k]);
    }
  }

  lemma {:induction false} ChildAddedKeeps(nodes: seq<Node>, p: nat, key: Key, c: nat)
    requires Valid(nodes) && p < |nodes| && Answers(nodes, p, key, c)
    ensures Valid(WithChild(nodes, p, key, c))
  {
    var nodes' := WithChild(nodes, p, key, c);
    forall i: nat, j: nat | j < |nodes'| && i != j && OnChain(nodes', i, j)
      ensures i < |nodes'| && nodes'[i].key != nodes'[j].key
    {
      SameChains(nodes, nodes', i, j);
    }
    forall i, k | 0 <= i < |nodes'| && k in nodes'[i].children ensures Answers(nodes', i, k, nodes'[i].children[k]) {
      SameAnswers(nodes, nodes', i, k, if i == p && k == key then c else nodes[i].children[k]);
    }
  }

  lemma {:induction false} ChildAddedLinks(nodes: seq<Node>, p: nat, key: Key, c: nat)
    requires Valid(nodes) && p < |nodes| && key !in nodes[p].children && Answers(nodes, p, key, c)
    requires forall d :: 0 < d < |nodes| && d != c ==> IsChild(nodes, d)
    requires 0 < c && (nodes[c].parent == p || IsChild(nodes, c))
    ensures Linked(WithChild(nodes, p, key, c))
  {
    var nodes' := WithChild(nodes, p, key, c);
    forall d | 0 < d < |nodes'| ensures IsChild(nodes', d) {
      if d != c { assert IsChild(nodes, d); }
    }
  }

  /** What remembering a new answer does. */
  lemma {:induction false} Remembered(nodes: seq<Node>, p: nat, key: Key, c: nat)
    requires Valid(nodes) && p < |nodes| && key !in nodes[p].children && Answers(nodes, p, key, c) && 0 < c
    requires forall d :: 0 < d < |nodes| && d != c ==> IsChild(nodes, d)
    requires nodes[c].parent == p || IsChild(nodes, c)
    ensures Valid(WithChild(nodes, p, key, c)) && Linked(WithChild(nodes, p, key, c))
    ensures Answers(WithChild(nodes, p, key, c), p, key, c)
  {
    ChildAddedKeeps(nodes, p, key, c);
    ChildAddedLinks(nodes, p, key, c);
    SameAnswers(nodes, WithChild(nodes, p, key, c), p, key, c);
  }

  function WithChild(nodes: seq<Node>, p: nat, key: Key, c: nat): seq<Node>
    requires p < |nodes|
  {
    nodes[p := nodes[p].(children := nodes[p].children[key := c])]
  }

  function Recorded(nodes: seq<Node>, i: nat, calls: nat, amount: nat): seq<Node>
    requires i < |nodes|
  {
    nodes[i := nodes[i].(count := nodes[i].count + calls, statistics := nodes[i].statistics + amount)]
  }

  lemma {:induction false} RecordedKeeps(nodes: seq<Node>, i: nat, calls: nat, amount: nat)
    requires Valid(nodes) && Linked(nodes) && i < |nodes|
    ensures Valid(Recorded(nodes, i, calls, amount)) && Linked(Recorded(nodes, i, calls, amount))
  {
    var nodes' := Recorded(nodes, i, calls, amount);
    forall j: nat, k: nat | k < |nodes'| && j != k && OnChain(nodes', j, k)
      ensures j < |nodes'| && nodes'[j].key != nodes'[k].key
    {
      SameChains(nodes, nodes', j, k);
    }
    forall j, key | 0 <= j < |nodes'| && key in nodes'[j].children
      ensures Answers(nodes', j, key, nodes'[j].children[key])
    {
      SameAnswers(nodes, nodes', j, key, nodes[j].children[key]);
    }
    forall c | 0 < c < |nodes'| ensures IsChild(nodes', c) { assert IsChild(nodes, c); }
  }

  /** The walk up the parent chain. */
  method FindOnChain(nodes: seq<Node>, parent: nat, key: Key) returns (found: bool, r: nat)
    requires Tree(nodes) && parent < |nodes| && key.fn != 0
    ensures found ==> r < |nodes| && OnChain(nodes, r, parent) && nodes[r].key == key
    ensures found <==> KeyOnChain(nodes, key, parent)
  {
    var p: nat := parent;
    while p != 0
      invariant p < |nodes| && OnChain(nodes, p, parent)
      invariant forall i: nat :: i < |nodes| && OnChain(nodes, i, parent) ==>
        OnChain(nodes, i, p) || nodes[i].key != key
      decreases p
    {
      if nodes[p].key == key { return true, p; }
      assert OnChain(nodes, nodes[p].parent, p);
      ChainTrans(nodes, nodes[p].parent, p, parent);
      p := nodes[p].parent;
    }
    return false, 0;
  }

  // ---------- what a summary is ----------

  /** The nodes at or below i. */
  ghost function Below(nodes: seq<Node>, i: nat): set<nat>
    requires Tree(nodes)
  {
    set j: nat | j < |nodes| && OnChain(nodes, i, j)
  }

  /** The nodes at or below some node with this key whose number is k or more. */
  ghost function BelowKey(nodes: seq<Node>, key: Key, k: nat): set<nat>
    requires Tree(nodes)
  {
    set j: nat | j < |nodes| && HasOnChain(nodes, key, k, j)
  }

  ghost predicate HasOnChain(nodes: seq<Node>, key: Key, k: nat, j: nat)
    requires Tree(nodes) && j < |nodes|
  {
    exists i: nat :: k <= i < |nodes| && OnChain(nodes, i, j) && nodes[i].key == key
  }

  /** Some path with this key has number k or more. */
  ghost predicate Called(nodes: seq<Node>, key: Key, k: nat) {
    exists i: nat :: k <= i < |nodes| && nodes[i].key == key
  }

  /** How often the paths with this key whose number is k or more were called. */
  ghost function Calls(nodes: seq<Node>, key: Key, k: nat): nat
    decreases |nodes| - k
  {
    if k >= |nodes| then 0 else (if nodes[k].key == key then nodes[k].count else 0) + Calls(nodes, key, k + 1)
  }

  /** The statistic summed over a set of nodes. */
  ghost function Sum(nodes: seq<Node>, s: set<nat>): nat
    decreases |nodes|
  {
    if nodes == [] then 0
    else
      var n := |nodes| - 1;
      Sum(nodes[..n], s) + if n in s then nodes[n].statistics else 0
  }

  lemma {:induction false} SumUnion(nodes: seq<Node>, s: set<nat>, t: set<nat>)
    requires forall x :: 0 <= x < |nodes| ==> !(x in s && x in t)
    ensures Sum(nodes, s + t) == Sum(nodes, s) + Sum(nodes, t)
    decreases |nodes|
  {
    if nodes != [] { SumUnion(nodes[..|nodes| - 1], s, t); }
  }

  lemma {:induction false} SumNone(nodes: seq<Node>, s: set<nat>)
    requires forall x :: 0 <= x < |nodes| ==> x !in s
    ensures Sum(nodes, s) == 0
    decreases |nodes|
  {
    if nodes != [] { SumNone(nodes[..|nodes| - 1], s); }
  }

  lemma {:induction false} SumOne(nodes: seq<Node>, i: nat)
    requires i < |nodes|
    ensures Sum(nodes, {i}) == nodes[i].statistics
    decreases |nodes|
  {
    var n := |nodes| - 1;
    if i == n { SumNone(nodes[..n], {i}); } else { SumOne(nodes[..n], i); }
  }

  lemma {:induction false} RecordedInSum(nodes: seq<Node>, i: nat, calls: nat, amount: nat, s: set<nat>)
    requires i < |nodes|
    ensures Sum(Recorded(nodes, i, calls, amount), s) == Sum(nodes, s) + if i in s then amount else 0
    decreases |nodes|
  {
    var n := |nodes| - 1;
    var nodes' := Recorded(nodes, i, calls, amount);
    if i == n {
      assert nodes'[..n] == nodes[..n];
    } else {
      RecordedInSum(nodes[..n], i, calls, amount, s);
      assert nodes'[..n] == Recorded(nodes[..n], i, calls, amount);
    }
  }

  lemma {:induction false} RecordedInCalls(nodes: seq<Node>, i: nat, calls: nat, amount: nat, key: Key, k: nat)
    requires i < |nodes|
    ensures Calls(Recorded(nodes, i, calls, amount), key, k) ==
      Calls(nodes, key, k) + if k <= i && nodes[i].key == key then calls else 0
    decreases |nodes| - k
  {
    if k < |nodes| { RecordedInCalls(nodes, i, calls, amount, key, k + 1); }
  }

  /** What is recorded for path i shows once in the sum of every path on its chain, and in no other. */
  lemma {:induction false} RecordedShowsBelow(nodes: seq<Node>, i: nat, calls: nat, amount: nat, j: nat)
    requires Tree(nodes) && i < |nodes| && j < |nodes|
    ensures
      var nodes' := Recorded(nodes, i, calls, amount);
      && Tree(nodes')
      && Sum(nodes', Below(nodes', j)) == Sum(nodes, Below(nodes, j)) + if OnChain(nodes, j, i) then amount else 0
  {
    var nodes' := Recorded(nodes, i, calls, amount);
    forall k: nat | k < |nodes| ensures OnChain(nodes', j, k) <==> OnChain(nodes, j, k) {
      SameChains(nodes, nodes', j, k);
    }
    assert Below(nodes', j) == Below(nodes, j);
    RecordedInSum(nodes, i, calls, amount, Below(nodes, j));
  }

  /** And in the table, for its own key as calls, and for every key on its chain as an amount. */
  lemma {:induction false} RecordedShowsInTable(nodes: seq<Node>, i: nat, calls: nat, amount: nat, key: Key)
    requires Tree(nodes) && 0 < i < |nodes| && key.fn != 0
    ensures
      var nodes' := Recorded(nodes, i, calls, amount);
      && Tree(nodes')
      && Calls(nodes', key, 1) == Calls(nodes, key, 1) + (if nodes[i].key == key then calls else 0)
      && Sum(nodes', BelowKey(nodes', key, 1)) ==
         Sum(nodes, BelowKey(nodes, key, 1)) + if KeyOnChain(nodes, key, i) then amount else 0
  {
    var nodes' := Recorded(nodes, i, calls, amount);
    forall j: nat | j < |nodes| ensures HasOnChain(nodes', key, 1, j) <==> HasOnChain(nodes, key, 1, j) {
      forall k: nat ensures OnChain(nodes', k, j) <==> OnChain(nodes, k, j) { SameChains(nodes, nodes', k, j); }
    }
    assert BelowKey(nodes', key, 1) == BelowKey(nodes, key, 1);
    RecordedInSum(nodes, i, calls, amount, BelowKey(nodes, key, 1));
    RecordedInCalls(nodes, i, calls, amount, key, 1);
  }

  /** What node i has gathered when all nodes from k on have been added to their parents. */
  ghost function Gathered(nodes: seq<Node>, i: nat, k: nat): set<nat>
    requires Tree(nodes) && i < |nodes|
  {
    {i} + set j: nat | j < |nodes| && Via(nodes, i, k, j)
  }

  /** j lies at or below a child of i whose number is k or more. */
  ghost predicate Via(nodes: seq<Node>, i: nat, k: nat, j: nat)
    requires Tree(nodes) && j < |nodes|
  {
    exists c: nat :: k <= c < |nodes| && c != 0 && nodes[c].parent == i && OnChain(nodes, c, j)
  }

  /** Once its children have been added, a node has gathered all that is below it. */
  lemma {:induction false} GatheredAll(nodes: seq<Node>, i: nat)
    requires Tree(nodes) && i < |nodes|
    ensures Gathered(nodes, i, i + 1) == Below(nodes, i)
  {
    forall j: nat | j < |nodes| && OnChain(nodes, i, j) ensures j in Gathered(nodes, i, i + 1) {
      if j != i {
        var c := ChildTowards(nodes, i, j);
        assert i + 1 <= c < |nodes| && c != 0 && nodes[c].parent == i && OnChain(nodes, c, j);
      }
    }
    forall j: nat | j in Gathered(nodes, i, i + 1) ensures OnChain(nodes, i, j) {
      if j != i {
        var c: nat :| i + 1 <= c < |nodes| && c != 0 && nodes[c].parent == i && OnChain(nodes, c, j);
        assert OnChain(nodes, i, c);
        ChainTrans(nodes, i, c, j);
      }
    }
  }

  lemma {:induction false} ChildTowards(nodes: seq<Node>, i: nat, j: nat) returns (c: nat)
    requires Tree(nodes) && j < |nodes| && OnChain(nodes, i, j) && i != j
    ensures i < c <= j && nodes[c].parent == i && OnChain(nodes, c, j)
  {
    if nodes[j].parent == i { c := j; } else { c := ChildTowards(nodes, i, nodes[j].parent); }
  }

  /** Adding node k to its parent adds the part of the tree below k, which was not there yet. */
  lemma {:induction false} GatheredOneMore(nodes: seq<Node>, i: nat, k: nat)
    requires Tree(nodes) && i < |nodes| && 0 < k < |nodes|
    ensures nodes[k].parent != i ==> Gathered(nodes, i, k) == Gathered(nodes, i, k + 1)
    ensures nodes[k].parent == i ==>
      && Gathered(nodes, i, k) == Gathered(nodes, i, k + 1) + Below(nodes, k)
      && Gathered(nodes, i, k + 1) !! Below(nodes, k)
  {
    if nodes[k].parent == i {
      forall j: nat | j in Below(nodes, k) ensures j !in Gathered(nodes, i, k + 1) {
        ChainGoesDown(nodes, k, j);
        if j in Gathered(nodes, i, k + 1) {
          var c: nat :| k + 1 <= c < |nodes| && c != 0 && nodes[c].parent == i && OnChain(nodes, c, j);
          ChainLinear(nodes, k, c, j);
          ChainGoesDown(nodes, k, i);
        }
      }
    }
  }

  lemma {:induction false} GatheredNothing(nodes: seq<Node>, i: nat)
    requires Tree(nodes) && i < |nodes|
    ensures Gathered(nodes, i, |nodes|) == {i} && Sum(nodes, {i}) == nodes[i].statistics
  {
    SumOne(nodes, i);
  }

  datatype Entry = Entry(count: nat, statistics: nat)

  /** Without repeated keys on chains, the parts below two nodes with one key are disjoint. */
  lemma {:induction false} BelowKeyOneMore(nodes: seq<Node>, key: Key, k: nat)
    requires Tree(nodes) && NoRepeat(nodes) && k < |nodes|
    ensures nodes[k].key != key ==> BelowKey(nodes, key, k) == BelowKey(nodes, key, k + 1)
    ensures nodes[k].key == key ==>
      && BelowKey(nodes, key, k) == BelowKey(nodes, key, k + 1) + Below(nodes, k)
      && BelowKey(nodes, key, k + 1) !! Below(nodes, k)
  {
    if nodes[k].key == key {
      forall j: nat | j in Below(nodes, k) ensures j !in BelowKey(nodes, key, k + 1) {
        if j in BelowKey(nodes, key, k + 1) {
          var i: nat :| k + 1 <= i < |nodes| && OnChain(nodes, i, j) && nodes[i].key == key;
          ChainLinear(nodes, k, i, j);
        }
      }
    }
  }

  /** Node i's sum when all nodes from k on have been added to their parents. */
  ghost predicate SumAt(nodes: seq<Node>, sums: seq<nat>, i: nat, k: nat)
    requires Tree(nodes) && |sums| == |nodes| && i < |nodes|
  {
    sums[i] == Sum(nodes, Gathered(nodes, i, k))
  }

  ghost predicate SumsFrom(nodes: seq<Node>, sums: seq<nat>, rootSum: nat, k: nat)
    requires Tree(nodes)
  {
    && |sums| == |nodes|
    && (forall i: nat :: 0 < i < |nodes| ==> SumAt(nodes, sums, i, k))
    && sums[0] + nodes[0].statistics == rootSum + Sum(nodes, Gathered(nodes, 0, k))
  }

  ghost predicate EntryAt(nodes: seq<Node>, results: map<Key, Entry>, key: Key, k: nat)
    requires Tree(nodes)
  {
    && (key in results <==> Called(nodes, key, k))
    && (key in results ==> results[key] == Entry(Calls(nodes, key, k), Sum(nodes, BelowKey(nodes, key, k))))
    && (key !in results ==> Calls(nodes, key, k) == 0 && Sum(nodes, BelowKey(nodes, key, k)) == 0)
  }

  /** Every path starts from its own statistics; the root starts from what it had. */
  function OwnStatistics(nodes: seq<Node>, rootSum: nat): seq<nat>
    requires 0 < |nodes|
  {
    [rootSum] + seq(|nodes| - 1, i requires 0 <= i < |nodes| - 1 => nodes[i + 1].statistics)
  }

  lemma {:induction false} StartSums(nodes: seq<Node>, rootSum: nat)
    requires Tree(nodes)
    ensures SumsFrom(nodes, OwnStatistics(nodes, rootSum), rootSum, |nodes|)
  {
    forall i: nat | i < |nodes| ensures Sum(nodes, Gathered(nodes, i, |nodes|)) == nodes[i].statistics {
      GatheredNothing(nodes, i);
    }
  }

  ghost predicate TableFrom(nodes: seq<Node>, results: map<Key, Entry>, k: nat)
    requires Tree(nodes)
  {
    forall key :: EntryAt(nodes, results, key, k)
  }

  lemma {:induction false} StartTable(nodes: seq<Node>)
    requires Tree(nodes)
    ensures TableFrom(nodes, map[], |nodes|)
  {
    forall key ensures EntryAt(nodes, map[], key, |nodes|) {
      SumNone(nodes, BelowKey(nodes, key, |nodes|));
    }
  }

  lemma {:induction false} AddToParent(nodes: seq<Node>, sums: seq<nat>, rootSum: nat, k: nat)
    requires Tree(nodes) && 0 < k < |nodes| && SumsFrom(nodes, sums, rootSum, k + 1)
    ensures sums[k] == Sum(nodes, Below(nodes, k))
    ensures SumsFrom(nodes, AddedToParent(nodes, sums, k), rootSum, k)
  {
    assert SumAt(nodes, sums, k, k + 1);
    GatheredAll(nodes, k);
    var sums' := AddedToParent(nodes, sums, k);
    forall i: nat | i < |nodes|
      ensures sums'[i] - sums[i] == Sum(nodes, Gathered(nodes, i, k)) - Sum(nodes, Gathered(nodes, i, k + 1))
    {
      GatheredOneMore(nodes, i, k);
      if nodes[k].parent == i { SumUnion(nodes, Gathered(nodes, i, k + 1), Below(nodes, k)); }
    }
    forall i: nat | 0 < i < |nodes| ensures SumAt(nodes, sums', i, k) {
      assert SumAt(nodes, sums, i, k + 1);
    }
  }

  function AddedToParent(nodes: seq<Node>, sums: seq<nat>, k: nat): seq<nat>
    requires k < |nodes| == |sums| && nodes[k].parent < |nodes|
  {
    var sum: nat := sums[nodes[k].parent] + sums[k];
    sums[nodes[k].parent := sum]
  }

  function AddedToTable(n: Node, sum: nat, results: map<Key, Entry>): map<Key, Entry> {
    var e := if n.key in results then results[n.key] else Entry(0, 0);
    results[n.key := Entry(e.count + n.count, e.statistics + sum)]
  }

  lemma {:induction false} AddToEntry(nodes: seq<Node>, results: map<Key, Entry>, key: Key, k: nat)
    requires Tree(nodes) && NoRepeat(nodes) && k < |nodes| && EntryAt(nodes, results, key, k + 1)
    ensures EntryAt(nodes, AddedToTable(nodes[k], Sum(nodes, Below(nodes, k)), results), key, k)
  {
    BelowKeyOneMore(nodes, key, k);
    if nodes[k].key == key {
      SumUnion(nodes, BelowKey(nodes, key, k + 1), Below(nodes, k));
    } else {
      assert Called(nodes, key, k) <==> Called(nodes, key, k + 1);
    }
  }

  lemma {:induction false} AddToTable(nodes: seq<Node>, results: map<Key, Entry>, k: nat)
    requires Tree(nodes) && NoRepeat(nodes) && k < |nodes| && TableFrom(nodes, results, k + 1)
    ensures TableFrom(nodes, AddedToTable(nodes[k], Sum(nodes, Below(nodes, k)), results), k)
  {
    var results' := AddedToTable(nodes[k], Sum(nodes, Below(nodes, k)), results);
    forall key ensures EntryAt(nodes, results', key, k) {
      AddToEntry(nodes, results, key, k);
    }
  }

  /** A path's sum is over all nodes at or below it; the root adds that to what it had, its own statistics left out. */
  ghost predicate SumsExact(nodes: seq<Node>, sums: seq<nat>, rootSum: nat)
    requires Tree(nodes) && |sums| == |nodes|
  {
    && (forall i: nat :: 0 < i < |nodes| ==> sums[i] == Sum(nodes, Below(nodes, i)))
    && sums[0] + nodes[0].statistics == rootSum + Sum(nodes, Below(nodes, 0))
  }

  lemma {:induction false} SumsDone(nodes: seq<Node>, sums: seq<nat>, rootSum: nat)
    requires Tree(nodes) && SumsFrom(nodes, sums, rootSum, 1)
    ensures SumsExact(nodes, sums, rootSum)
  {
    forall i: nat | i < |nodes| ensures Gathered(nodes, i, 1) == Below(nodes, i) {
      assert Gathered(nodes, i, 1) == Gathered(nodes, i, i + 1);
      GatheredAll(nodes, i);
    }
    forall i: nat | 0 < i < |nodes| ensures sums[i] == Sum(nodes, Below(nodes, i)) {
      assert SumAt(nodes, sums, i, 1);
    }
  }

  /** Starting from the own statistics, each path, the last one first, is added to its parent and to the table. */
  method Summarize(nodes: seq<Node>, rootSum: nat) returns (sums: seq<nat>, results: map<Key, Entry>)
    requires Tree(nodes) && NoRepeat(nodes)
    ensures |sums| == |nodes| && SumsExact(nodes, sums, rootSum)
    ensures TableFrom(nodes, results, 1)
  {
    results := map[];
    sums := OwnStatistics(nodes, rootSum);
    StartSums(nodes, rootSum);
    StartTable(nodes);
    for k := |nodes| downto 1
      invariant SumsFrom(nodes, sums, rootSum, k)
      invariant TableFrom(nodes, results, k)
    {
      AddToParent(nodes, sums, rootSum, k);
      AddToTable(nodes, results, k);
      results := AddedToTable(nodes[k], sums[k], results);
      sums := AddedToParent(nodes, sums, k);
    }
    SumsDone(nodes, sums, rootSum);
  }

  class CallPathManager {
    /** The root and then all paths, in the order they were made. */
    var nodes: seq<Node>
    var summaries: seq<nat>

    ghost predicate Ok()
      reads this
    {
      Valid(nodes) && |summaries| == |nodes|
    }

    constructor ()
      ensures Ok() && Linked(nodes) && |nodes| == 1
    {
      nodes, summaries := [Node(0, NO_KEY, map[], 0, 0)], [0];
    }

    /** The node with this key on the chain of `parent`, or a new child of `parent`. */
    method ComputeCallPath(parent: nat, key: Key) returns (r: nat)
      requires Ok() && parent < |nodes| && key.fn != 0
      modifies this
      ensures Ok() && r < |nodes| && nodes[r].key == key
      ensures if KeyOnChain(old(nodes), key, parent)
              then nodes == old(nodes) && OnChain(nodes, r, parent)
              else r == |old(nodes)| && nodes == old(nodes) + [Node(parent, key, map[], 0, 0)]
    {
      var found;
      found, r := FindOnChain(nodes, parent, key);
      if !found {
        var n := Node(parent, key, map[], 0, 0);
        AppendKeepsNoRepeat(nodes, n);
        AppendKeepsNames(nodes, n);
        r := |nodes|;
        nodes, summaries := nodes + [n], summaries + [0];
      }
    }

    /** Looks the key up among the children first, and remembers the answer there. */
    method GetCallPath(parent: nat, key: Key) returns (r: nat)
      requires Ok() && Linked(nodes) && parent < |nodes| && key.fn != 0
      modifies this
      ensures Ok() && Linked(nodes) && parent < |nodes|
      ensures Answers(nodes, parent, key, r)
      ensures key in nodes[parent].children && nodes[parent].children[key] == r
      ensures |nodes| == |old(nodes)| <==> exists q: nat :: Answers(old(nodes), parent, key, q)
      ensures |nodes| == |old(nodes)| ==> Answers(old(nodes), parent, key, r)
      ensures |nodes| != |old(nodes)| ==> r == |old(nodes)| == |nodes| - 1 && nodes[r].parent == parent
      ensures key in old(nodes)[parent].children ==> nodes == old(nodes)
      ensures key !in old(nodes)[parent].children ==>
        var made := if r < |old(nodes)| then [] else [Node(parent, key, map[], 0, 0)];
        nodes == WithChild(old(nodes) + made, parent, key, r)
    {
      if key in nodes[parent].children {
        return nodes[parent].children[key];
      }
      r := ComputeCallPath(parent, key);
      if !KeyOnChain(old(nodes), key, parent) {
        NoAnswer(old(nodes), parent, key);
        AppendKeepsLinks(old(nodes), nodes[r]);
      } else {
        assert Answers(old(nodes), parent, key, r);
        assert old(nodes) + [] == nodes;
      }
      Remembered(nodes, parent, key, r);
      nodes := WithChild(nodes, parent, key, r);
    }

    /** A call of a path, or an amount of its statistic, is counted. */
    method Record(i: nat, calls: nat, amount: nat)
      requires Ok() && Linked(nodes) && i < |nodes|
      modifies `nodes
      ensures Ok() && Linked(nodes)
      ensures nodes == Recorded(old(nodes), i, calls, amount)
    {
      RecordedKeeps(nodes, i, calls, amount);
      nodes := Recorded(nodes, i, calls, amount);
    }

    /**
      The summary of every path is the sum over the nodes at or below it. The
      table adds up, for each key, the calls of its paths and, for the
      statistic, every node below the key exactly once.
     */
    method GetSummaryStatistics() returns (results: map<Key, Entry>)
      requires Ok()
      modifies `summaries
      ensures Ok()
      ensures SumsExact(nodes, summaries, old(summaries[0]))
      ensures TableFrom(nodes, results, 1)
    {
      summaries, results := Summarize(nodes, summaries[0]);
    }
  }
}
