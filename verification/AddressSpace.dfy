/**
  Copy-on-write address spaces: forked spaces share object states until one of
  them writes, and an epoch key decides who may write in place.

  Object states live in a store and are named by their address, so that two
  spaces can share one; a space maps memory objects to such names.
 */
module CopyOnWrite {

  datatype ObjectState = ObjectState(copyOnWriteOwner: nat, contents: seq<nat>)

  datatype Space = Space(cowKey: nat, objects: map<nat, nat>)

  type Spaces = map<nat, Space>

  type Store = map<nat, ObjectState>

  /** Space s has an object bound for mo. */
  ghost predicate Bound(spaces: Spaces, s: nat, mo: nat) {
    s in spaces && mo in spaces[s].objects
  }

  ghost predicate WellBound(spaces: Spaces, store: Store) {
    forall s, mo :: Bound(spaces, s, mo) ==> spaces[s].objects[mo] in store
  }

  /** Every bound object has been given an owner key, which is at most the key of each space it is bound in. */
  ghost predicate KeysBounded(spaces: Spaces, store: Store)
    requires WellBound(spaces, store)
  {
    forall s, mo :: Bound(spaces, s, mo) ==> 0 < store[spaces[s].objects[mo]].copyOnWriteOwner <= spaces[s].cowKey
  }

  /** Whether space s and space t have the same object bound, under mo and mo'. */
  ghost predicate Shared(spaces: Spaces, s: nat, mo: nat, t: nat, mo': nat) {
    Bound(spaces, s, mo) && Bound(spaces, t, mo') && spaces[s].objects[mo] == spaces[t].objects[mo']
  }

  /** An object is bound under one memory object only, and in a single space if that space owns it. */
  ghost predicate OwnedAlone(spaces: Spaces, store: Store)
    requires WellBound(spaces, store)
  {
    forall s, mo, t, mo' :: Shared(spaces, s, mo, t, mo') ==>
      mo == mo' && (s != t ==> store[spaces[s].objects[mo]].copyOnWriteOwner != spaces[s].cowKey)
  }

  ghost predicate Isolated(spaces: Spaces, store: Store) {
    && WellBound(spaces, store) && KeysBounded(spaces, store) && OwnedAlone(spaces, store)
    && forall s :: s in spaces ==> 0 < spaces[s].cowKey
  }

  // ---------- the reference: every space has its own contents ----------

  type Memories = map<nat, map<nat, seq<nat>>>

  /** The shared representation reads as m says, space by space and object by object. */
  ghost predicate ReadsAs(spaces: Spaces, store: Store, m: Memories)
    requires WellBound(spaces, store)
  {
    && m.Keys == spaces.Keys
    && (forall s {:trigger m[s]} :: s in spaces ==> m[s].Keys == spaces[s].objects.Keys)
    && (forall s, mo :: Bound(spaces, s, mo) ==> m[s][mo] == store[spaces[s].objects[mo]].contents)
  }

  datatype Op =
    | Fork(from: nat, to: nat)
    | Bind(s: nat, mo: nat, contents: seq<nat>)
    | Unbind(s: nat, mo: nat)
    | Write(s: nat, mo: nat, contents: seq<nat>)

  ghost predicate Enabled(m: Memories, op: Op) {
    match op
    case Fork(from, to) => from in m && to !in m
    case Bind(s, _, _) => s in m
    case Unbind(s, _) => s in m
    case Write(s, mo, _) => s in m && mo in m[s]
  }

  /** Space s reads `contents` for mo from now on. */
  ghost function PutIn(m: Memories, s: nat, mo: nat, contents: seq<nat>): Memories
    requires s in m
  {
    var memory: map<nat, seq<nat>> := m[s][mo := contents];
    m[s := memory]
  }

  ghost function Effect(m: Memories, op: Op): Memories
    requires Enabled(m, op)
  {
    match op
    case Fork(from, to) => m[to := m[from]]
    case Bind(s, mo, contents) => PutIn(m, s, mo, contents)
    case Unbind(s, mo) => m[s := m[s] - {mo}]
    case Write(s, mo, contents) => PutIn(m, s, mo, contents)
  }

  // ---------- what a space reads ----------

  datatype Reading = Missing | Holds(contents: seq<nat>)

  /** What space s finds under mo. */
  ghost function Read(spaces: Spaces, store: Store, s: nat, mo: nat): Reading {
    if Bound(spaces, s, mo) && spaces[s].objects[mo] in store then Holds(store[spaces[s].objects[mo]].contents)
    else Missing
  }

  ghost function Recall(m: Memories, s: nat, mo: nat): Reading {
    if s in m && mo in m[s] then Holds(m[s][mo]) else Missing
  }

  lemma {:induction false} ReadIsRecall(spaces: Spaces, store: Store, m: Memories, s: nat, mo: nat)
    requires WellBound(spaces, store) && ReadsAs(spaces, store, m)
    ensures Read(spaces, store, s, mo) == Recall(m, s, mo)
  {
    if s in spaces { assert m[s].Keys == spaces[s].objects.Keys; }
  }

  /** From now on space s finds `now` under mo; what it finds elsewhere, and what all others find, stays. */
  ghost predicate OnlyReads(spaces: Spaces, store: Store, spaces': Spaces, store': Store, s: nat, mo: nat, now: Reading)
  {
    && spaces'.Keys == spaces.Keys
    && forall t, y :: Read(spaces', store', t, y) == if t == s && y == mo then now else Read(spaces, store, t, y)
  }

  /** Nobody finds anything else than before. */
  ghost predicate SameReads(spaces: Spaces, store: Store, spaces': Spaces, store': Store) {
    spaces'.Keys == spaces.Keys && forall t, y :: Read(spaces', store', t, y) == Read(spaces, store, t, y)
  }

  /** Space `to` is new and finds what b finds; all others find what they found before. */
  ghost predicate CopyReads(spaces: Spaces, store: Store, spaces': Spaces, store': Store, b: nat, to: nat) {
    && spaces'.Keys == spaces.Keys + {to}
    && forall t, y :: Read(spaces', store', t, y) == Read(spaces, store, if t == to then b else t, y)
  }

  /** What space t recalls under y after an operation. */
  ghost function RecallAfter(m: Memories, op: Op, t: nat, y: nat): Reading {
    match op
    case Fork(from, to) => Recall(m, if t == to then from else t, y)
    case Bind(s, mo, contents) => if t == s && y == mo then Holds(contents) else Recall(m, t, y)
    case Unbind(s, mo) => if t == s && y == mo then Missing else Recall(m, t, y)
    case Write(s, mo, contents) => if t == s && y == mo then Holds(contents) else Recall(m, t, y)
  }

  /** The effect of each operation on what is read. */
  lemma {:induction false} EffectReads(m: Memories, op: Op, t: nat, y: nat)
    requires Enabled(m, op)
    ensures Recall(Effect(m, op), t, y) == RecallAfter(m, op, t, y)
    ensures Effect(m, op).Keys == m.Keys + if op.Fork? then {op.to} else {}
  {
  }

  /** What the shared representation shows, if it reads as m before and as Effect(m, op) after. */
  lemma {:induction false} EffectShows(
    spaces: Spaces, store: Store, spaces': Spaces, store': Store, m: Memories, op: Op)
    requires WellBound(spaces, store) && ReadsAs(spaces, store, m) && Enabled(m, op)
    requires WellBound(spaces', store') && ReadsAs(spaces', store', Effect(m, op))
    ensures
      match op
      case Fork(from, to) => CopyReads(spaces, store, spaces', store', from, to)
      case Bind(s, mo, contents) => OnlyReads(spaces, store, spaces', store', s, mo, Holds(contents))
      case Unbind(s, mo) => OnlyReads(spaces, store, spaces', store', s, mo, Missing)
      case Write(s, mo, contents) => OnlyReads(spaces, store, spaces', store', s, mo, Holds(contents))
  {
    EffectReads(m, op, 0, 0);
    forall t: nat, y: nat
      ensures Read(spaces, store, t, y) == Recall(m, t, y)
      ensures Read(spaces', store', t, y) == Recall(Effect(m, op), t, y)
    {
      ReadIsRecall(spaces, store, m, t, y);
      ReadIsRecall(spaces', store', Effect(m, op), t, y);
    }
    forall t: nat, y: nat ensures Recall(Effect(m, op), t, y) == RecallAfter(m, op, t, y) {
      EffectReads(m, op, t, y);
    }
  }

  // ---------- the steps ----------

  /** Space `to` becomes a copy of b, and both move on to a new key. */
  function Forked(spaces: Spaces, b: nat, to: nat): Spaces
    requires b in spaces
  {
    var copy := Space(spaces[b].cowKey + 1, spaces[b].objects);
    spaces[b := copy][to := copy]
  }

  /** What is bound after a fork was bound before, for the copy in b. */
  lemma {:induction false} BoundBeforeFork(spaces: Spaces, b: nat, to: nat, s: nat, mo: nat)
    requires b in spaces && to !in spaces && Bound(Forked(spaces, b, to), s, mo)
    ensures var s0 := if s == to then b else s;
      && Bound(spaces, s0, mo) && Forked(spaces, b, to)[s].objects[mo] == spaces[s0].objects[mo]
      && Forked(spaces, b, to)[s].cowKey == spaces[s0].cowKey + if s0 == b then 1 else 0
  {
  }

  lemma {:induction false} ForkKeysBounded(spaces: Spaces, store: Store, b: nat, to: nat)
    requires WellBound(spaces, store) && KeysBounded(spaces, store) && b in spaces && to !in spaces
    ensures WellBound(Forked(spaces, b, to), store) && KeysBounded(Forked(spaces, b, to), store)
  {
    var spaces' := Forked(spaces, b, to);
    forall s: nat, mo: nat | Bound(spaces', s, mo) ensures spaces'[s].objects[mo] in store {
      BoundBeforeFork(spaces, b, to, s, mo);
    }
    forall s: nat, mo: nat | Bound(spaces', s, mo)
      ensures 0 < store[spaces'[s].objects[mo]].copyOnWriteOwner <= spaces'[s].cowKey
    {
      BoundBeforeFork(spaces, b, to, s, mo);
    }
  }

  lemma {:induction false} ForkOwnedAlone(spaces: Spaces, store: Store, b: nat, to: nat)
    requires Isolated(spaces, store) && b in spaces && to !in spaces
    requires WellBound(Forked(spaces, b, to), store)
    ensures OwnedAlone(Forked(spaces, b, to), store)
  {
    var spaces' := Forked(spaces, b, to);
    forall s: nat, mo: nat, t: nat, mo': nat | Shared(spaces', s, mo, t, mo')
      ensures mo == mo' && (s != t ==> store[spaces'[s].objects[mo]].copyOnWriteOwner != spaces'[s].cowKey)
    {
      BoundBeforeFork(spaces, b, to, s, mo);
      BoundBeforeFork(spaces, b, to, t, mo');
      assert Shared(spaces, if s == to then b else s, mo, if t == to then b else t, mo');
    }
  }

  lemma {:induction false} ForkReads(spaces: Spaces, store: Store, m: Memories, b: nat, to: nat)
    requires WellBound(spaces, store) && ReadsAs(spaces, store, m) && b in spaces && to !in spaces
    requires WellBound(Forked(spaces, b, to), store)
    ensures ReadsAs(Forked(spaces, b, to), store, m[to := m[b]])
  {
    var spaces', m' := Forked(spaces, b, to), m[to := m[b]];
    forall s: nat, mo: nat | Bound(spaces', s, mo)
      ensures mo in m'[s] && m'[s][mo] == store[spaces'[s].objects[mo]].contents
    {
      BoundBeforeFork(spaces, b, to, s, mo);
    }
  }

  lemma {:induction false} ForkIsolated(spaces: Spaces, store: Store, m: Memories, b: nat, to: nat)
    requires Isolated(spaces, store) && ReadsAs(spaces, store, m) && b in spaces && to !in spaces
    ensures Isolated(Forked(spaces, b, to), store)
    ensures ReadsAs(Forked(spaces, b, to), store, Effect(m, Fork(b, to)))
  {
    ForkKeysBounded(spaces, store, b, to);
    ForkOwnedAlone(spaces, store, b, to);
    ForkReads(spaces, store, m, b, to);
  }

  ghost predicate Unbound(spaces: Spaces, o: nat) {
    forall t, m :: Bound(spaces, t, m) ==> spaces[t].objects[m] != o
  }

  function Rebound(spaces: Spaces, s: nat, mo: nat, o: nat): Spaces
    requires s in spaces
  {
    spaces[s := Space(spaces[s].cowKey, spaces[s].objects[mo := o])]
  }

  /** What is bound after o was bound: o itself, or what was bound before. */
  lemma {:induction false} BoundBeforeBind(spaces: Spaces, s: nat, mo: nat, o: nat, x: nat, y: nat)
    requires s in spaces && Bound(Rebound(spaces, s, mo, o), x, y)
    ensures Rebound(spaces, s, mo, o)[x].cowKey == spaces[x].cowKey
    ensures if x == s && y == mo then Rebound(spaces, s, mo, o)[x].objects[y] == o
            else Bound(spaces, x, y) && Rebound(spaces, s, mo, o)[x].objects[y] == spaces[x].objects[y]
  {
  }

  lemma {:induction false} BindKeysBounded(spaces: Spaces, store: Store, s: nat, mo: nat, o: nat, contents: seq<nat>)
    requires Isolated(spaces, store) && s in spaces && Unbound(spaces, o)
    ensures var spaces', store' := Rebound(spaces, s, mo, o), store[o := ObjectState(spaces[s].cowKey, contents)];
      WellBound(spaces', store') && KeysBounded(spaces', store')
  {
    var spaces', store' := Rebound(spaces, s, mo, o), store[o := ObjectState(spaces[s].cowKey, contents)];
    forall x: nat, y: nat | Bound(spaces', x, y) ensures spaces'[x].objects[y] in store' {
      BoundBeforeBind(spaces, s, mo, o, x, y);
    }
    forall x: nat, y: nat | Bound(spaces', x, y)
      ensures 0 < store'[spaces'[x].objects[y]].copyOnWriteOwner <= spaces'[x].cowKey
    {
      BoundBeforeBind(spaces, s, mo, o, x, y);
    }
  }

  /** Binding an object that no space has bound keeps the isolation. */
  lemma {:induction false} BindIsolated(spaces: Spaces, store: Store, s: nat, mo: nat, o: nat, contents: seq<nat>)
    requires Isolated(spaces, store) && s in spaces && Unbound(spaces, o)
    ensures Isolated(Rebound(spaces, s, mo, o), store[o := ObjectState(spaces[s].cowKey, contents)])
  {
    var spaces', store' := Rebound(spaces, s, mo, o), store[o := ObjectState(spaces[s].cowKey, contents)];
    BindKeysBounded(spaces, store, s, mo, o, contents);
    forall x: nat, m: nat, t: nat, m': nat | Shared(spaces', x, m, t, m')
      ensures m == m' && (x != t ==> store'[spaces'[x].objects[m]].copyOnWriteOwner != spaces'[x].cowKey)
    {
      BoundBeforeBind(spaces, s, mo, o, x, m);
      BoundBeforeBind(spaces, s, mo, o, t, m');
      if spaces'[x].objects[m] != o { assert Shared(spaces, x, m, t, m'); }
    }
  }

  lemma {:induction false} BindReads(
    spaces: Spaces, store: Store, m: Memories, s: nat, mo: nat, o: nat, key: nat, contents: seq<nat>)
    requires WellBound(spaces, store) && ReadsAs(spaces, store, m) && s in spaces && Unbound(spaces, o)
    requires WellBound(Rebound(spaces, s, mo, o), store[o := ObjectState(key, contents)])
    ensures ReadsAs(Rebound(spaces, s, mo, o), store[o := ObjectState(key, contents)], PutIn(m, s, mo, contents))
  {
    var spaces', store' := Rebound(spaces, s, mo, o), store[o := ObjectState(key, contents)];
    var m' := PutIn(m, s, mo, contents);
    forall x: nat, y: nat | Bound(spaces', x, y)
      ensures y in m'[x] && m'[x][y] == store'[spaces'[x].objects[y]].contents
    {
      BoundBeforeBind(spaces, s, mo, o, x, y);
    }
  }

  function Removed(spaces: Spaces, s: nat, mo: nat): Spaces
    requires s in spaces
  {
    spaces[s := Space(spaces[s].cowKey, spaces[s].objects - {mo})]
  }

  lemma {:induction false} BoundBeforeUnbind(spaces: Spaces, s: nat, mo: nat, x: nat, y: nat)
    requires s in spaces && Bound(Removed(spaces, s, mo), x, y)
    ensures Bound(spaces, x, y) && !(x == s && y == mo)
    ensures Removed(spaces, s, mo)[x].objects[y] == spaces[x].objects[y]
    ensures Removed(spaces, s, mo)[x].cowKey == spaces[x].cowKey
  {
  }

  lemma {:induction false} UnbindOwned(spaces: Spaces, store: Store, s: nat, mo: nat)
    requires Isolated(spaces, store) && s in spaces
    ensures Isolated(Removed(spaces, s, mo), store)
  {
    var spaces' := Removed(spaces, s, mo);
    forall x: nat, y: nat | Bound(spaces', x, y) ensures spaces'[x].objects[y] in store {
      BoundBeforeUnbind(spaces, s, mo, x, y);
    }
    forall x: nat, y: nat | Bound(spaces', x, y)
      ensures 0 < store[spaces'[x].objects[y]].copyOnWriteOwner <= spaces'[x].cowKey
    {
      BoundBeforeUnbind(spaces, s, mo, x, y);
    }
    forall x: nat, y: nat, t: nat, y': nat | Shared(spaces', x, y, t, y')
      ensures y == y' && (x != t ==> store[spaces'[x].objects[y]].copyOnWriteOwner != spaces'[x].cowKey)
    {
      BoundBeforeUnbind(spaces, s, mo, x, y);
      BoundBeforeUnbind(spaces, s, mo, t, y');
      assert Shared(spaces, x, y, t, y');
    }
  }

  lemma {:induction false} UnbindIsolated(spaces: Spaces, store: Store, m: Memories, s: nat, mo: nat)
    requires Isolated(spaces, store) && ReadsAs(spaces, store, m) && s in spaces
    ensures Isolated(Removed(spaces, s, mo), store)
    ensures ReadsAs(Removed(spaces, s, mo), store, Effect(m, Unbind(s, mo)))
  {
    UnbindOwned(spaces, store, s, mo);
    var spaces', m' := Removed(spaces, s, mo), Effect(m, Unbind(s, mo));
    forall x: nat, y: nat | Bound(spaces', x, y)
      ensures y in m'[x] && m'[x][y] == store[spaces'[x].objects[y]].contents
    {
      BoundBeforeUnbind(spaces, s, mo, x, y);
    }
  }

  function Stored(store: Store, o: nat, contents: seq<nat>): Store
    requires o in store
  {
    store[o := store[o].(contents := contents)]
  }

  /** New contents change no owner. */
  lemma {:induction false} StoredIsolated(spaces: Spaces, store: Store, o: nat, contents: seq<nat>)
    requires Isolated(spaces, store) && o in store
    ensures Isolated(spaces, Stored(store, o, contents))
  {
    var store' := Stored(store, o, contents);
    assert forall x :: x in store ==> x in store' && store'[x].copyOnWriteOwner == store[x].copyOnWriteOwner;
  }

  /** Writing in place to an object the space owns shows in this space only. */
  lemma {:induction false} WriteInPlace(
    spaces: Spaces, store: Store, m: Memories, s: nat, mo: nat, contents: seq<nat>)
    requires Isolated(spaces, store) && ReadsAs(spaces, store, m) && Bound(spaces, s, mo)
    requires store[spaces[s].objects[mo]].copyOnWriteOwner == spaces[s].cowKey
    ensures Isolated(spaces, Stored(store, spaces[s].objects[mo], contents))
    ensures ReadsAs(spaces, Stored(store, spaces[s].objects[mo], contents), PutIn(m, s, mo, contents))
  {
    var o := spaces[s].objects[mo];
    StoredIsolated(spaces, store, o, contents);
    var store', m' := Stored(store, o, contents), PutIn(m, s, mo, contents);
    forall t: nat, y: nat | Bound(spaces, t, y)
      ensures y in m'[t] && m'[t][y] == store'[spaces[t].objects[y]].contents
    {
      if spaces[t].objects[y] == o { assert Shared(spaces, s, mo, t, y); }
    }
  }

  class AddressSpaces {
    var spaces: Spaces
    var store: Store
    /** What each space reads: the reference. */
    ghost var memories: Memories

    ghost predicate Valid()
      reads this
    {
      Isolated(spaces, store) && ReadsAs(spaces, store, memories)
    }

    /** One empty space, named `first`. */
    constructor (first: nat)
      ensures Valid() && memories == map[first := map[]]
    {
      spaces, store, memories := map[first := Space(1, map[])], map[], map[first := map[]];
    }

    /** The copy constructor: both spaces move on to a new key. */
    method ForkSpace(b: nat, to: nat)
      requires Valid() && b in spaces && to !in spaces
      modifies this
      ensures Valid() && memories == Effect(old(memories), Fork(b, to))
      ensures CopyReads(old(spaces), old(store), spaces, store, b, to)
    {
      ForkIsolated(spaces, store, memories, b, to);
      var copy := Space(spaces[b].cowKey + 1, spaces[b].objects);
      spaces := spaces[b := copy];
      spaces := spaces[to := copy];
      memories := Effect(memories, Fork(b, to));
      EffectShows(old(spaces), old(store), spaces, store, old(memories), Fork(b, to));
    }

    /** A new object state, owned by nobody. */
    method NewObject(contents: seq<nat>) returns (o: nat)
      modifies `store
      ensures o !in old(store) && store == old(store)[o := ObjectState(0, contents)]
    {
      o := 0;
      ghost var above := store.Keys;
      while o in store
        invariant forall k :: k in store && o <= k ==> k in above
        invariant above <= store.Keys
        decreases above
      {
        above := above - {o};
        o := o + 1;
      }
      store := store[o := ObjectState(0, contents)];
    }

    method BindObject(s: nat, mo: nat, o: nat)
      requires Valid() && s in spaces && o in store && store[o].copyOnWriteOwner == 0
      modifies this
      ensures Valid() && memories == Effect(old(memories), Bind(s, mo, old(store)[o].contents))
      ensures OnlyReads(old(spaces), old(store), spaces, store, s, mo, Holds(old(store)[o].contents))
    {
      ghost var contents := store[o].contents;
      BindIsolated(spaces, store, s, mo, o, contents);
      BindReads(spaces, store, memories, s, mo, o, spaces[s].cowKey, contents);
      store := store[o := store[o].(copyOnWriteOwner := spaces[s].cowKey)];
      spaces := Rebound(spaces, s, mo, o);
      memories := PutIn(memories, s, mo, contents);
      EffectShows(old(spaces), old(store), spaces, store, old(memories), Bind(s, mo, contents));
    }

    method UnbindObject(s: nat, mo: nat)
      requires Valid() && s in spaces
      modifies this
      ensures Valid() && memories == Effect(old(memories), Unbind(s, mo))
      ensures OnlyReads(old(spaces), old(store), spaces, store, s, mo, Missing)
    {
      UnbindIsolated(spaces, store, memories, s, mo);
      spaces := Removed(spaces, s, mo);
      memories := Effect(memories, Unbind(s, mo));
      EffectShows(old(spaces), old(store), spaces, store, old(memories), Unbind(s, mo));
    }

    /** An object state the space owns: the bound one, or a copy that takes its place. */
    method GetWriteable(s: nat, mo: nat) returns (o: nat)
      requires Valid() && Bound(spaces, s, mo)
      modifies `spaces, `store
      ensures Valid()
      ensures Bound(spaces, s, mo) && spaces[s].objects[mo] == o
      ensures store[o].copyOnWriteOwner == spaces[s].cowKey
      ensures SameReads(old(spaces), old(store), spaces, store)
      ensures
        var o0 := old(spaces)[s].objects[mo];
        if old(store)[o0].copyOnWriteOwner == old(spaces)[s].cowKey
        then o == o0 && spaces == old(spaces) && store == old(store)
        else o !in old(store) && spaces == Rebound(old(spaces), s, mo, o) && store - {o} == old(store)
    {
      o := spaces[s].objects[mo];
      if spaces[s].cowKey != store[o].copyOnWriteOwner {
        ghost var spaces0, store0, contents := spaces, store, store[o].contents;
        var n := NewObject(store[o].contents);
        BindIsolated(spaces0, store0, s, mo, n, contents);
        BindReads(spaces0, store0, memories, s, mo, n, spaces[s].cowKey, contents);
        store := store[n := store[n].(copyOnWriteOwner := spaces[s].cowKey)];
        spaces := Rebound(spaces, s, mo, n);
        assert store == store0[n := ObjectState(spaces0[s].cowKey, contents)];
        SamePut(memories, s, mo);
        SameMemories(spaces0, store0, spaces, store, memories);
        o := n;
      }
    }

    /** A write shows in its own space and in no other. */
    method WriteObject(s: nat, mo: nat, contents: seq<nat>)
      requires Valid() && Bound(spaces, s, mo)
      modifies this
      ensures Valid() && memories == Effect(old(memories), Write(s, mo, contents))
      ensures OnlyReads(old(spaces), old(store), spaces, store, s, mo, Holds(contents))
    {
      var o := GetWriteable(s, mo);
      WriteOwned(s, mo, contents);
      EffectShows(old(spaces), old(store), spaces, store, old(memories), Write(s, mo, contents));
    }

    /** A write to an object state the space owns. */
    method WriteOwned(s: nat, mo: nat, contents: seq<nat>)
      requires Valid() && Bound(spaces, s, mo) && store[spaces[s].objects[mo]].copyOnWriteOwner == spaces[s].cowKey
      modifies `store, `memories
      ensures Valid() && s in old(memories) && memories == PutIn(old(memories), s, mo, contents)
    {
      WriteInPlace(spaces, store, memories, s, mo, contents);
      store := Stored(store, spaces[s].objects[mo], contents);
      memories := PutIn(memories, s, mo, contents);
    }

    method Perform(op: Op)
      requires Valid() && Enabled(memories, op)
      modifies this
      ensures Valid() && memories == Effect(old(memories), op)
    {
      match op {
        case Fork(from, to) => ForkSpace(from, to);
        case Bind(s, mo, contents) => var o := NewObject(contents); BindObject(s, mo, o);
        case Unbind(s, mo) => UnbindObject(s, mo);
        case Write(s, mo, contents) => WriteObject(s, mo, contents);
      }
    }

    /** Any run of operations: each space reads what it would if nothing were ever shared. */
    method Run(ops: seq<Op>)
      requires Valid() && AllEnabled(memories, ops)
      modifies this
      ensures Valid() && memories == Effects(old(memories), ops)
    {
      for i := 0 to |ops|
        invariant Valid() && AllEnabled(memories, ops[i..])
        invariant Effects(memories, ops[i..]) == Effects(old(memories), ops)
      {
        assert ops[i..][0] == ops[i] && ops[i..][1..] == ops[i + 1..];
        Perform(ops[i]);
      }
    }
  }

  lemma {:induction false} SameMemories(spaces: Spaces, store: Store, spaces': Spaces, store': Store, m: Memories)
    requires WellBound(spaces, store) && ReadsAs(spaces, store, m)
    requires WellBound(spaces', store') && ReadsAs(spaces', store', m)
    ensures SameReads(spaces, store, spaces', store')
  {
    forall t: nat, y: nat ensures Read(spaces', store', t, y) == Read(spaces, store, t, y) {
      ReadIsRecall(spaces, store, m, t, y);
      ReadIsRecall(spaces', store', m, t, y);
    }
  }

  lemma SamePut(m: Memories, s: nat, mo: nat)
    requires s in m && mo in m[s]
    ensures PutIn(m, s, mo, m[s][mo]) == m
  {
    assert m[s][mo := m[s][mo]] == m[s];
  }

  ghost predicate AllEnabled(m: Memories, ops: seq<Op>)
    decreases |ops|
  {
    ops != [] ==> Enabled(m, ops[0]) && AllEnabled(Effect(m, ops[0]), ops[1..])
  }

  ghost function Effects(m: Memories, ops: seq<Op>): Memories
    requires AllEnabled(m, ops)
    decreases |ops|
  {
    if ops == [] then m else Effects(Effect(m, ops[0]), ops[1..])
  }

  /** A run may be cut anywhere. */
  lemma {:induction false} RunInTwo(m: Memories, xs: seq<Op>, ys: seq<Op>)
    requires AllEnabled(m, xs) && AllEnabled(Effects(m, xs), ys)
    ensures AllEnabled(m, xs + ys) && Effects(m, xs + ys) == Effects(Effects(m, xs), ys)
    decreases |xs|
  {
    if xs == [] {
      assert xs + ys == ys;
    } else {
      assert (xs + ys)[0] == xs[0] && (xs + ys)[1..] == xs[1..] + ys;
      RunInTwo(Effect(m, xs[0]), xs[1..], ys);
    }
  }

  lemma {:induction false} Unrelated(m: Memories, ops: seq<Op>, s: nat, mo: nat)
    requires AllEnabled(m, ops) && s in m && forall x :: x in ops ==> x.Fork? || x.s != s || x.mo != mo
    ensures Recall(Effects(m, ops), s, mo) == Recall(m, s, mo)
    decreases |ops|
  {
    if ops != [] {
      assert ops[0] in ops;
      EffectReads(m, ops[0], s, mo);
      Unrelated(Effect(m, ops[0]), ops[1..], s, mo);
    }
  }

  /** Over any run, a space that no bind, unbind or write names keeps all that it reads, whatever it shared. */
  lemma {:induction false} OthersDoNotShow(m: Memories, ops: seq<Op>, s: nat)
    requires AllEnabled(m, ops) && s in m && forall x :: x in ops ==> x.Fork? || x.s != s
    ensures forall mo :: Recall(Effects(m, ops), s, mo) == Recall(m, s, mo)
  {
    forall mo: nat ensures Recall(Effects(m, ops), s, mo) == Recall(m, s, mo) { Unrelated(m, ops, s, mo); }
  }

  /** Until it is written, unbound or bound anew in its own space, an object reads as it was last written there. */
  lemma {:induction false} LastWriteShows(
    m: Memories, before: seq<Op>, s: nat, mo: nat, contents: seq<nat>, after: seq<Op>)
    requires AllEnabled(m, before) && Enabled(Effects(m, before), Write(s, mo, contents))
    requires AllEnabled(Effect(Effects(m, before), Write(s, mo, contents)), after)
    requires forall x :: x in after ==> x.Fork? || x.s != s || x.mo != mo
    ensures AllEnabled(m, before + [Write(s, mo, contents)] + after)
    ensures Recall(Effects(m, before + [Write(s, mo, contents)] + after), s, mo) == Holds(contents)
  {
    var m1, op := Effects(m, before), Write(s, mo, contents);
    assert [op][1..] == [] && Effects(m1, [op]) == Effect(m1, op);
    RunInTwo(m, before, [op]);
    RunInTwo(m, before + [op], after);
    EffectReads(m1, op, s, mo);
    Unrelated(Effect(m1, op), after, s, mo);
  }
}
