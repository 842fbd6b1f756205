/**
  The process tree: one leaf per live execution state. A fork attaches two
  leaves, the end of a state removes its leaf together with all nodes that have
  nothing else below them, and the random-path searcher goes down from the root
  with one coin flip wherever there are two ways.
 */
module ProcessTrees {

  import opened Exprs

  datatype Node = Node(parent: Option<nat>, left: Option<nat>, right: Option<nat>, state: Option<nat>) {
    predicate Leaf() {
      left.None? && right.None?
    }

    predicate HasChild(c: nat) {
      left == Some(c) || right == Some(c)
    }

    predicate Forks() {
      left.Some? && right.Some?
    }
  }

  type Nodes = map<nat, Node>

  /** Node 0 is the root; every node but the root is a child of its parent, and later than it. */
  ghost predicate Linked(nodes: Nodes) {
    && 0 in nodes && nodes[0].parent.None?
    && forall n {:trigger LinkedAt(nodes, n)} :: n in nodes ==> LinkedAt(nodes, n)
  }

  ghost predicate LinkedAt(nodes: Nodes, n: nat)
    requires n in nodes
  {
    && (nodes[n].left.Some? ==> ParentOf(nodes, n, nodes[n].left.value))
    && (nodes[n].right.Some? ==> ParentOf(nodes, n, nodes[n].right.value))
    && (nodes[n].Forks() ==> nodes[n].left != nodes[n].right)
    && (n != 0 ==> nodes[n].parent.Some?)
    && (nodes[n].parent.Some? ==> ChildOf(nodes, n, nodes[n].parent.value))
  }

  ghost predicate ParentOf(nodes: Nodes, n: nat, c: nat) {
    n < c && c in nodes && nodes[c].parent == Some(n)
  }

  ghost predicate ChildOf(nodes: Nodes, n: nat, p: nat) {
    p < n && p in nodes && nodes[p].HasChild(n)
  }

  /** Live states and their nodes point at each other; only leaves carry states. */
  ghost predicate StatesLinked(nodes: Nodes, nodeOf: map<nat, nat>) {
    && (forall s :: s in nodeOf ==> nodeOf[s] in nodes && nodes[nodeOf[s]].state == Some(s))
    && (forall n :: n in nodes && nodes[n].state.Some? ==> nodes[n].Leaf())
  }

  /** Every leaf but this one carries a live state. */
  ghost predicate LeavesLive(nodes: Nodes, nodeOf: map<nat, nat>, but: Option<nat>) {
    forall n {:trigger LiveAt(nodes, nodeOf, n)} ::
      n in nodes && nodes[n].Leaf() && but != Some(n) ==> LiveAt(nodes, nodeOf, n)
  }

  ghost predicate LiveAt(nodes: Nodes, nodeOf: map<nat, nat>, n: nat)
    requires n in nodes
  {
    nodes[n].state.Some? && nodes[n].state.value in nodeOf && nodeOf[nodes[n].state.value] == n
  }

  /** Without live states only the root is left. */
  ghost predicate Valid(nodes: Nodes, nodeOf: map<nat, nat>) {
    && Linked(nodes) && StatesLinked(nodes, nodeOf)
    && LeavesLive(nodes, nodeOf, if nodeOf == map[] then Some(0) else None)
  }

  // ---------- the way from the root ----------

  /** The flips on the way to n: one at each node with two children, true for the left one. */
  ghost function Word(nodes: Nodes, n: nat): seq<bool>
    requires Linked(nodes) && n in nodes
    decreases n
  {
    assert LinkedAt(nodes, n);
    if n == 0 then []
    else
      var p := nodes[n].parent.value;
      Word(nodes, p) + if nodes[p].Forks() then [nodes[p].left == Some(n)] else []
  }

  /** a is m or one of its ancestors. */
  ghost predicate Above(nodes: Nodes, a: nat, m: nat)
    requires Linked(nodes) && m in nodes
    decreases m
  {
    assert LinkedAt(nodes, m);
    a == m || (m != 0 && Above(nodes, a, nodes[m].parent.value))
  }

  lemma {:induction false} RootAbove(nodes: Nodes, m: nat)
    requires Linked(nodes) && m in nodes
    ensures Above(nodes, 0, m)
    decreases m
  {
    assert LinkedAt(nodes, m);
    if m != 0 { RootAbove(nodes, nodes[m].parent.value); }
  }

  lemma {:induction false} ChildTowards(nodes: Nodes, a: nat, m: nat) returns (c: nat)
    requires Linked(nodes) && m in nodes && Above(nodes, a, m) && a != m
    ensures a in nodes && c in nodes && nodes[a].HasChild(c) && Above(nodes, c, m)
    ensures Word(nodes, c) <= Word(nodes, m)
    decreases m
  {
    assert LinkedAt(nodes, m);
    if nodes[m].parent.value == a { c := m; } else { c := ChildTowards(nodes, a, nodes[m].parent.value); }
  }

  ghost predicate Prefix(word: seq<bool>, flips: nat -> bool) {
    forall i :: 0 <= i < |word| ==> word[i] == flips(i)
  }

  /** From a node above a leaf whose word agrees with the flips, the flips choose a child above that leaf. */
  lemma {:induction false} RightTurn(nodes: Nodes, n: nat, m: nat, flips: nat -> bool)
    requires Linked(nodes) && n in nodes && m in nodes && Above(nodes, n, m) && n != m
    requires Prefix(Word(nodes, m), flips)
    ensures nodes[n].Forks() ==>
      Above(nodes, if flips(|Word(nodes, n)|) then nodes[n].left.value else nodes[n].right.value, m)
    ensures !nodes[n].Forks() && nodes[n].left.Some? ==> Above(nodes, nodes[n].left.value, m)
    ensures !nodes[n].Forks() && nodes[n].right.Some? ==> Above(nodes, nodes[n].right.value, m)
  {
    var c := ChildTowards(nodes, n, m);
    assert LinkedAt(nodes, n) && LinkedAt(nodes, c);
    if nodes[n].Forks() {
      assert Word(nodes, c)[|Word(nodes, n)|] == (nodes[n].left == Some(c));
    }
  }

  /** The flips lead to n, and on to every state whose word agrees with them. */
  ghost predicate Heading(nodes: Nodes, nodeOf: map<nat, nat>, n: nat, flips: nat -> bool)
    requires Valid(nodes, nodeOf) && n in nodes
  {
    && Prefix(Word(nodes, n), flips)
    && forall s :: s in nodeOf && Prefix(Word(nodes, nodeOf[s]), flips) ==> Above(nodes, n, nodeOf[s])
  }

  lemma {:induction false} StartHeading(nodes: Nodes, nodeOf: map<nat, nat>, flips: nat -> bool)
    requires Valid(nodes, nodeOf)
    ensures Heading(nodes, nodeOf, 0, flips)
  {
    forall s | s in nodeOf { RootAbove(nodes, nodeOf[s]); }
  }

  /** Where the descent goes from n. */
  function Turn(node: Node, flip: bool): nat
    requires !node.Leaf()
  {
    if node.left.None? then node.right.value
    else if node.right.None? then node.left.value
    else if flip then node.left.value else node.right.value
  }

  lemma {:induction false} KeepsHeading(nodes: Nodes, nodeOf: map<nat, nat>, n: nat, flips: nat -> bool)
    requires Valid(nodes, nodeOf) && nodeOf != map[] && n in nodes && Heading(nodes, nodeOf, n, flips)
    requires nodes[n].state.None?
    ensures !nodes[n].Leaf()
    ensures var c := Turn(nodes[n], flips(|Word(nodes, n)|));
      && n < c && c in nodes && Heading(nodes, nodeOf, c, flips)
      && |Word(nodes, c)| == |Word(nodes, n)| + if nodes[n].Forks() then 1 else 0
  {
    assert nodes[n].Leaf() ==> LiveAt(nodes, nodeOf, n);
    assert LinkedAt(nodes, n);
    var c := Turn(nodes[n], flips(|Word(nodes, n)|));
    assert LinkedAt(nodes, c);
    forall s | s in nodeOf && Prefix(Word(nodes, nodeOf[s]), flips) ensures Above(nodes, c, nodeOf[s]) {
      RightTurn(nodes, n, nodeOf[s], flips);
    }
  }

  lemma {:induction false} Arrived(nodes: Nodes, nodeOf: map<nat, nat>, n: nat, flips: nat -> bool)
    requires Valid(nodes, nodeOf) && nodeOf != map[] && n in nodes && Heading(nodes, nodeOf, n, flips)
    requires nodes[n].state.Some?
    ensures LiveAt(nodes, nodeOf, n)
    ensures forall s :: s in nodeOf ==> (Prefix(Word(nodes, nodeOf[s]), flips) <==> nodeOf[s] == n)
  {
    assert nodes[n].Leaf();
    forall s | s in nodeOf && Prefix(Word(nodes, nodeOf[s]), flips) ensures nodeOf[s] == n {
      LeafAbove(nodes, n, nodeOf[s]);
    }
  }

  lemma {:induction false} LeafAbove(nodes: Nodes, n: nat, m: nat)
    requires Linked(nodes) && n in nodes && m in nodes && nodes[n].Leaf() && Above(nodes, n, m)
    ensures n == m
  {
    if n != m { var c := ChildTowards(nodes, n, m); }
  }

  // ---------- forking and removing ----------

  function Forked(nodes: Nodes, n: nat, l: nat, r: nat, ls: nat, rs: nat): Nodes
    requires n in nodes
  {
    nodes[n := Node(nodes[n].parent, Some(l), Some(r), None)]
         [l := Node(Some(n), None, None, Some(ls))]
         [r := Node(Some(n), None, None, Some(rs))]
  }

  function Renamed(nodeOf: map<nat, nat>, l: nat, r: nat, ls: nat, rs: nat): map<nat, nat> {
    nodeOf[ls := l][rs := r]
  }

  lemma {:induction false} ForkedLinked(nodes: Nodes, n: nat, l: nat, r: nat, ls: nat, rs: nat)
    requires Linked(nodes) && n in nodes && nodes[n].Leaf() && l !in nodes && r !in nodes && n < l < r
    ensures Linked(Forked(nodes, n, l, r, ls, rs))
  {
    var nodes' := Forked(nodes, n, l, r, ls, rs);
    forall m | m in nodes' ensures LinkedAt(nodes', m) {
      assert m in nodes ==> LinkedAt(nodes, m);
    }
  }

  lemma {:induction false} ForkedStates(nodes: Nodes, nodeOf: map<nat, nat>, n: nat, l: nat, r: nat, ls: nat, rs: nat)
    requires StatesLinked(nodes, nodeOf) && n in nodes && l !in nodes && r !in nodes && l != r
    requires LiveAt(nodes, nodeOf, n) && ls != rs && nodes[n].state.value in {ls, rs}
    ensures StatesLinked(Forked(nodes, n, l, r, ls, rs), Renamed(nodeOf, l, r, ls, rs))
  {
  }

  lemma {:induction false} ForkedLiveAt(
    nodes: Nodes, nodeOf: map<nat, nat>, n: nat, l: nat, r: nat, ls: nat, rs: nat, m: nat)
    requires n in nodes && l !in nodes && r !in nodes && m in nodes && m != n && LiveAt(nodes, nodeOf, m)
    requires forall s :: s in {ls, rs} && s in nodeOf ==> nodeOf[s] == n
    ensures LiveAt(Forked(nodes, n, l, r, ls, rs), Renamed(nodeOf, l, r, ls, rs), m)
  {
    assert nodes[m].state.value !in {ls, rs};
  }

  lemma {:induction false} ForkedValid(nodes: Nodes, nodeOf: map<nat, nat>, n: nat, l: nat, r: nat, ls: nat, rs: nat)
    requires Valid(nodes, nodeOf) && n in nodes && l !in nodes && r !in nodes && n < l < r
    requires LiveAt(nodes, nodeOf, n) && ls != rs && nodes[n].state.value in {ls, rs}
    requires forall s :: s in {ls, rs} && s in nodeOf ==> nodeOf[s] == n
    ensures Valid(Forked(nodes, n, l, r, ls, rs), Renamed(nodeOf, l, r, ls, rs))
  {
    assert nodes[n].Leaf();
    ForkedLinked(nodes, n, l, r, ls, rs);
    ForkedStates(nodes, nodeOf, n, l, r, ls, rs);
    var nodes', nodeOf' := Forked(nodes, n, l, r, ls, rs), Renamed(nodeOf, l, r, ls, rs);
    assert ls in nodeOf';
    forall m | m in nodes' && nodes'[m].Leaf() ensures LiveAt(nodes', nodeOf', m) {
      if m in nodes {
        assert LiveAt(nodes, nodeOf, m);
        ForkedLiveAt(nodes, nodeOf, n, l, r, ls, rs, m);
      }
    }
  }

  /** A fork lengthens the words below it and leaves all others alone. */
  lemma {:induction false} ForkedWords(nodes: Nodes, n: nat, l: nat, r: nat, ls: nat, rs: nat, m: nat)
    requires Linked(nodes) && n in nodes && nodes[n].Leaf() && l !in nodes && r !in nodes && n < l < r && m in nodes
    requires Linked(Forked(nodes, n, l, r, ls, rs))
    ensures Word(Forked(nodes, n, l, r, ls, rs), m) == Word(nodes, m)
    ensures m == n ==> Word(Forked(nodes, n, l, r, ls, rs), l) == Word(nodes, n) + [true]
    ensures m == n ==> Word(Forked(nodes, n, l, r, ls, rs), r) == Word(nodes, n) + [false]
    decreases m
  {
    assert LinkedAt(nodes, m);
    if m != 0 { ForkedWords(nodes, n, l, r, ls, rs, nodes[m].parent.value); }
  }

  /** What a fork at n does to the words of all states. */
  ghost predicate WordsForked(
    nodes: Nodes, nodeOf: map<nat, nat>, nodes': Nodes, nodeOf': map<nat, nat>, n: nat, ls: nat, rs: nat)
    requires Valid(nodes, nodeOf) && Valid(nodes', nodeOf') && n in nodes
  {
    && nodeOf'.Keys == nodeOf.Keys + {ls, rs}
    && Word(nodes', nodeOf'[ls]) == Word(nodes, n) + [true]
    && Word(nodes', nodeOf'[rs]) == Word(nodes, n) + [false]
    && forall s :: s in nodeOf && s != ls && s != rs ==>
         nodeOf'[s] == nodeOf[s] && Word(nodes', nodeOf'[s]) == Word(nodes, nodeOf[s])
  }

  lemma {:induction false} ForkedAll(nodes: Nodes, nodeOf: map<nat, nat>, n: nat, l: nat, r: nat, ls: nat, rs: nat)
    requires Valid(nodes, nodeOf) && n in nodes && l !in nodes && r !in nodes && n < l < r
    requires LiveAt(nodes, nodeOf, n) && ls != rs && nodes[n].state.value in {ls, rs}
    requires forall s :: s in {ls, rs} && s in nodeOf ==> nodeOf[s] == n
    ensures Valid(Forked(nodes, n, l, r, ls, rs), Renamed(nodeOf, l, r, ls, rs))
    ensures WordsForked(nodes, nodeOf, Forked(nodes, n, l, r, ls, rs), Renamed(nodeOf, l, r, ls, rs), n, ls, rs)
  {
    ForkedValid(nodes, nodeOf, n, l, r, ls, rs);
    assert nodes[n].Leaf();
    ForkedWords(nodes, n, l, r, ls, rs, n);
    forall s | s in nodeOf && s != ls && s != rs
      ensures Word(Forked(nodes, n, l, r, ls, rs), nodeOf[s]) == Word(nodes, nodeOf[s])
    {
      ForkedWords(nodes, n, l, r, ls, rs, nodeOf[s]);
    }
  }

  lemma {:induction false} ForkedBefore(nodes: Nodes, n: nat, next: nat, ls: nat, rs: nat)
    requires Before(nodes, next) && n in nodes
    ensures Before(Forked(nodes, n, next, next + 1, ls, rs), next + 2)
  {
  }

  function Detached(nodes: Nodes, n: nat): Nodes
    requires n in nodes && nodes[n].parent.Some? && nodes[n].parent.value in nodes
  {
    var p := nodes[n].parent.value;
    (nodes - {n})[p := if nodes[p].left == Some(n) then nodes[p].(left := None) else nodes[p].(right := None)]
  }

  lemma {:induction false} DetachedLinked(nodes: Nodes, n: nat)
    requires Linked(nodes) && n in nodes && n != 0 && nodes[n].Leaf()
    ensures LinkedAt(nodes, n) && Linked(Detached(nodes, n))
  {
    assert LinkedAt(nodes, n);
    var nodes' := Detached(nodes, n);
    assert LinkedAt(nodes, nodes[n].parent.value);
    forall m | m in nodes' ensures LinkedAt(nodes', m) {
      assert LinkedAt(nodes, m);
    }
  }

  // ---------- the words after a removal ----------

  lemma {:induction false} AboveIsEarlier(nodes: Nodes, a: nat, m: nat)
    requires Linked(nodes) && m in nodes && Above(nodes, a, m)
    ensures a <= m && a in nodes && Word(nodes, a) <= Word(nodes, m)
    decreases m
  {
    assert LinkedAt(nodes, m);
    if a != m { AboveIsEarlier(nodes, a, nodes[m].parent.value); }
  }

  /** Below a fork there is at least one flip more. */
  lemma {:induction false} BelowFork(nodes: Nodes, f: nat, m: nat)
    requires Linked(nodes) && m in nodes && Above(nodes, f, m) && f != m && f in nodes && nodes[f].Forks()
    ensures Word(nodes, f) < Word(nodes, m)
  {
    var c := ChildTowards(nodes, f, m);
    assert LinkedAt(nodes, f) && LinkedAt(nodes, c);
  }

  /** A fork whose word is the beginning of a longer one lies on the way there. */
  lemma {:induction false} ForkOnTheWay(nodes: Nodes, n: nat, f: nat, m: nat)
    requires Linked(nodes) && n in nodes && f in nodes && m in nodes && nodes[f].Forks()
    requires Above(nodes, n, f) && Above(nodes, n, m) && Word(nodes, f) < Word(nodes, m)
    ensures Above(nodes, f, m)
    decreases f - n
  {
    AboveIsEarlier(nodes, n, f);
    if n != f {
      var c := ChildTowards(nodes, n, f);
      var d := ChildTowards(nodes, n, m);
      assert LinkedAt(nodes, n) && LinkedAt(nodes, c) && LinkedAt(nodes, d);
      AboveIsEarlier(nodes, c, f);
      if nodes[n].Forks() {
        var k := |Word(nodes, n)|;
        assert Word(nodes, c)[k] == Word(nodes, f)[k] == Word(nodes, m)[k] == Word(nodes, d)[k];
      }
      ForkOnTheWay(nodes, c, f, m);
    }
  }

  /** The word without flip k. */
  function Without(word: seq<bool>, k: nat): seq<bool>
    requires k < |word|
  {
    word[..k] + word[k + 1..]
  }

  /** The word of the parent's fork is no longer part of the words below, and all other words stay. */
  lemma {:induction false} DetachedWords(nodes: Nodes, n: nat, m: nat)
    requires Linked(nodes) && n in nodes && n != 0 && nodes[n].Leaf() && m in nodes && m != n
    requires LinkedAt(nodes, n) && Linked(Detached(nodes, n))
    ensures var p := nodes[n].parent.value;
      if nodes[p].Forks() && Above(nodes, p, m) && m != p
      then
        && |Word(nodes, p)| < |Word(nodes, m)|
        && Word(Detached(nodes, n), m) == Without(Word(nodes, m), |Word(nodes, p)|)
      else Word(Detached(nodes, n), m) == Word(nodes, m)
    decreases m
  {
    var nodes', p := Detached(nodes, n), nodes[n].parent.value;
    assert LinkedAt(nodes, m) && LinkedAt(nodes', m);
    if nodes[p].Forks() && Above(nodes, p, m) && m != p { BelowFork(nodes, p, m); }
    if m != 0 {
      var q := nodes[m].parent.value;
      DetachedWords(nodes, n, q);
      if q == p {
        assert Above(nodes, p, p) && Above(nodes, p, m);
        assert nodes[p].Forks() && !nodes'[p].Forks();
      } else {
        var x := if nodes[q].Forks() then [nodes[q].left == Some(m)] else [];
        assert Word(nodes', m) == Word(nodes', q) + x && Word(nodes, m) == Word(nodes, q) + x;
        if m == p && Above(nodes, p, q) { AboveIsEarlier(nodes, p, q); }
      }
    }
  }

  /** A word after the state with word w has gone: its last fork is a fork no longer. */
  ghost function Rejoined(word: seq<bool>, w: seq<bool>): seq<bool> {
    if w != [] && w[..|w| - 1] < word then Without(word, |w| - 1) else word
  }

  /** Cutting leaf n off a fork. */
  lemma {:induction false} CutWords(nodes: Nodes, n: nat, m: nat)
    requires Linked(nodes) && n in nodes && n != 0 && nodes[n].Leaf() && m in nodes && m != n && nodes[m].Leaf()
    requires LinkedAt(nodes, n) && nodes[nodes[n].parent.value].Forks() && Linked(Detached(nodes, n))
    ensures Word(Detached(nodes, n), m) == Rejoined(Word(nodes, m), Word(nodes, n))
  {
    var p, w := nodes[n].parent.value, Word(nodes, n);
    assert w != [] && w[..|w| - 1] == Word(nodes, p);
    DetachedWords(nodes, n, m);
    if Above(nodes, p, m) {
      BelowFork(nodes, p, m);
    } else if Word(nodes, p) < Word(nodes, m) {
      RootAbove(nodes, p);
      RootAbove(nodes, m);
      ForkOnTheWay(nodes, 0, p, m);
    }
  }

  /** The nodes from which the loop of the removal goes on. */
  ghost predicate Removing(nodes: Nodes, nodeOf: map<nat, nat>, n: nat) {
    && Linked(nodes) && StatesLinked(nodes, nodeOf) && LeavesLive(nodes, nodeOf, Some(n))
    && n in nodes && nodes[n].Leaf() && forall s :: s in nodeOf ==> nodeOf[s] != n
  }

  ghost predicate Before(nodes: Nodes, next: nat) {
    forall n :: n in nodes ==> n < next
  }

  lemma {:induction false} StartRemoving(nodes: Nodes, nodeOf: map<nat, nat>, s: nat)
    requires Valid(nodes, nodeOf) && s in nodeOf
    ensures Removing(nodes, nodeOf - {s}, nodeOf[s])
  {
    var n := nodeOf[s];
    forall m | m in nodes && nodes[m].Leaf() && m != n ensures LiveAt(nodes, nodeOf - {s}, m) {
      assert LiveAt(nodes, nodeOf, m);
    }
  }

  lemma {:induction false} DetachedKeeps(nodes: Nodes, nodeOf: map<nat, nat>, n: nat)
    requires Removing(nodes, nodeOf, n) && n != 0
    ensures LinkedAt(nodes, n)
    ensures var p := nodes[n].parent.value;
      if Detached(nodes, n)[p].Leaf() then Removing(Detached(nodes, n), nodeOf, p)
      else Valid(Detached(nodes, n), nodeOf)
  {
    DetachedLinked(nodes, n);
    var nodes', p := Detached(nodes, n), nodes[n].parent.value;
    assert StatesLinked(nodes', nodeOf);
    forall m | m in nodes' && nodes'[m].Leaf() && m != p ensures LiveAt(nodes', nodeOf, m) {
      assert LiveAt(nodes, nodeOf, m);
    }
  }

  /** While the loop goes on no word changes, and its last step takes the last fork of the removed word away. */
  lemma {:induction false} RemovedWords(nodes: Nodes, nodeOf: map<nat, nat>, n: nat)
    requires Removing(nodes, nodeOf, n) && n != 0 && LinkedAt(nodes, n) && Linked(Detached(nodes, n))
    ensures
      var nodes', p := Detached(nodes, n), nodes[n].parent.value;
      if nodes'[p].Leaf()
      then
        && Word(nodes', p) == Word(nodes, n)
        && forall s :: s in nodeOf ==> Word(nodes', nodeOf[s]) == Word(nodes, nodeOf[s])
      else forall s :: s in nodeOf ==> Word(nodes', nodeOf[s]) == Rejoined(Word(nodes, nodeOf[s]), Word(nodes, n))
  {
    var nodes', p := Detached(nodes, n), nodes[n].parent.value;
    DetachedWords(nodes, n, p);
    forall s | s in nodeOf
      ensures if nodes'[p].Leaf() then Word(nodes', nodeOf[s]) == Word(nodes, nodeOf[s])
              else Word(nodes', nodeOf[s]) == Rejoined(Word(nodes, nodeOf[s]), Word(nodes, n))
    {
      DetachedWords(nodes, n, nodeOf[s]);
      if !nodes'[p].Leaf() { CutWords(nodes, n, nodeOf[s]); }
    }
  }

  /** The nodes that are left are the same, but for the children that have gone. */
  ghost predicate Pruned(nodes: Nodes, nodes': Nodes) {
    forall m :: m in nodes' ==>
      && m in nodes && nodes'[m].parent == nodes[m].parent && nodes'[m].left == Kept(nodes[m].left, nodes')
      && nodes'[m].right == Kept(nodes[m].right, nodes') && nodes'[m].state == nodes[m].state
  }

  function Kept(child: Option<nat>, nodes: Nodes): Option<nat> {
    if child.Some? && child.value in nodes then child else None
  }

  lemma {:induction false} StartPruned(nodes: Nodes)
    requires Linked(nodes)
    ensures Pruned(nodes, nodes)
  {
    forall m | m in nodes
      ensures nodes[m].left == Kept(nodes[m].left, nodes) && nodes[m].right == Kept(nodes[m].right, nodes)
    {
      assert LinkedAt(nodes, m);
    }
  }

  lemma {:induction false} DetachedPruned(nodes0: Nodes, nodes: Nodes, n: nat)
    requires Pruned(nodes0, nodes) && Linked(nodes) && n in nodes && n != 0 && LinkedAt(nodes, n)
    ensures Pruned(nodes0, Detached(nodes, n))
  {
    var nodes', p := Detached(nodes, n), nodes[n].parent.value;
    assert LinkedAt(nodes, p);
    forall m | m in nodes'
      ensures nodes'[m].left == Kept(nodes0[m].left, nodes') && nodes'[m].right == Kept(nodes0[m].right, nodes')
    {
      assert LinkedAt(nodes, m);
    }
  }

  /** A root without children is the whole tree. */
  lemma {:induction false} RootOnly(nodes: Nodes, n: nat)
    requires Linked(nodes) && nodes[0].Leaf() && n in nodes
    ensures n == 0
  {
    RootAbove(nodes, n);
    if n != 0 { var c := ChildTowards(nodes, 0, n); }
  }

  lemma {:induction false} RemovedRoot(nodes: Nodes, nodeOf: map<nat, nat>)
    requires Removing(nodes, nodeOf, 0)
    ensures nodeOf == map[] && Valid(nodes, nodeOf)
  {
    if s :| s in nodeOf { RootOnly(nodes, nodeOf[s]); }
  }

  class PTree {
    var nodes: Nodes
    /** The live states, each with its node. */
    var nodeOf: map<nat, nat>
    var nextNode: nat

    ghost predicate Ok()
      reads this
    {
      Valid(nodes, nodeOf) && Before(nodes, nextNode)
    }

    constructor (initialState: nat)
      ensures Ok() && nodeOf.Keys == {initialState}
    {
      nodes, nodeOf, nextNode := map[0 := Node(None, None, None, Some(initialState))], map[initialState := 0], 1;
    }

    /** The leaf of one of the two states becomes a fork with a leaf for each. */
    method Attach(node: nat, leftState: nat, rightState: nat)
      requires Ok() && node in nodes && LiveAt(nodes, nodeOf, node)
      requires leftState != rightState && nodes[node].state.value in {leftState, rightState}
      requires forall s :: s in {leftState, rightState} && s in nodeOf ==> nodeOf[s] == node
      modifies this
      ensures Ok() && WordsForked(old(nodes), old(nodeOf), nodes, nodeOf, node, leftState, rightState)
    {
      var l, r := nextNode, nextNode + 1;
      ForkedAll(nodes, nodeOf, node, l, r, leftState, rightState);
      ForkedBefore(nodes, node, nextNode, leftState, rightState);
      var nodes', nodeOf' := Forked(nodes, node, l, r, leftState, rightState),
        Renamed(nodeOf, l, r, leftState, rightState);
      nodes, nodeOf, nextNode := nodes', nodeOf', nextNode + 2;
      assert Valid(nodes', nodeOf') && Before(nodes', nextNode);
    }

    /**
      The leaf goes, and with it every node above that has nothing else below.
      The words of the states on the other side of its last fork lose that flip,
      and all others stay.
     */
    method Remove(state: nat)
      requires Ok() && state in nodeOf
      modifies this
      ensures Ok() && nodeOf == old(nodeOf) - {state}
      ensures Pruned(old(nodes), nodes)
      ensures forall s :: s in nodeOf ==>
        Word(nodes, nodeOf[s]) == Rejoined(Word(old(nodes), nodeOf[s]), Word(old(nodes), old(nodeOf)[state]))
    {
      var n := nodeOf[state];
      nodeOf := nodeOf - {state};
      StartRemoving(nodes, old(nodeOf), state);
      StartPruned(nodes);
      while true
        invariant Removing(nodes, nodeOf, n) && nodeOf == old(nodeOf) - {state}
        invariant Before(nodes, nextNode) && Pruned(old(nodes), nodes)
        invariant Word(nodes, n) == Word(old(nodes), old(nodeOf)[state])
        invariant forall s :: s in nodeOf ==> Word(nodes, nodeOf[s]) == Word(old(nodes), nodeOf[s])
        decreases n
      {
        var parent := nodes[n].parent;
        assert LinkedAt(nodes, n);
        if parent.None? {
          RemovedRoot(nodes, nodeOf);
          return;
        }
        DetachedKeeps(nodes, nodeOf, n);
        RemovedWords(nodes, nodeOf, n);
        DetachedPruned(old(nodes), nodes, n);
        nodes := Detached(nodes, n);
        n := parent.value;
        if !nodes[n].Leaf() { return; }
      }
    }

    /** The state whose word is a prefix of the flips: there is exactly one. */
    method SelectState(flips: nat -> bool) returns (state: nat)
      requires Ok() && nodeOf != map[]
      ensures state in nodeOf
      ensures forall s :: s in nodeOf ==> (Prefix(Word(nodes, nodeOf[s]), flips) <==> s == state)
    {
      var n, used: nat := 0, 0;
      StartHeading(nodes, nodeOf, flips);
      while nodes[n].state.None?
        invariant n in nodes && used == |Word(nodes, n)| && Heading(nodes, nodeOf, n, flips)
        decreases nextNode - n
      {
        KeepsHeading(nodes, nodeOf, n, flips);
        if nodes[n].left.None? {
          n := nodes[n].right.value;
        } else if nodes[n].right.None? {
          n := nodes[n].left.value;
        } else {
          n := if flips(used) then nodes[n].left.value else nodes[n].right.value;
          used := used + 1;
        }
      }
      Arrived(nodes, nodeOf, n, flips);
      state := nodes[n].state.value;
    }
  }
}
