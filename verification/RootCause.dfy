/**
  Root causes: every location gets one id, a new store records all earlier
  stores it may mask, and marking a bug counts an id together with all it masks.
 */
module RootCauses {

  datatype Reason =
    | Unpersisted | UnnecessaryFlush | FlushOnUnmodified | UnnecessaryFence | SemanticPerformance | SemanticCorrectness

  datatype Location = Location(allocSite: nat, inst: nat, stack: seq<nat>, reason: Reason)

  datatype Info = Info(location: Location, masked: set<nat>, masking: set<nat>, occurrences: nat)

  type Infos = map<nat, Info>

  /** The reasons that make a program wrong and not just slow. */
  const CORRECTNESS: set<Reason> := {Unpersisted, SemanticCorrectness}

  // ---------- the masking relation ----------

  ghost predicate Masks(roots: Infos, i: nat, j: nat) { i in roots && j in roots[i].masked }

  ghost predicate IsMaskedBy(roots: Infos, j: nat, i: nat) { j in roots && i in roots[j].masking }

  /** Masked ids exist and were created earlier. */
  ghost predicate Earlier(roots: Infos, created: map<nat, nat>) {
    && created.Keys == roots.Keys
    && forall i, j :: Masks(roots, i, j) ==> j in roots && created[j] < created[i]
  }

  /** What a masked id masks is masked too. */
  ghost predicate Transitive(roots: Infos) {
    forall i, j, k :: Masks(roots, i, j) && Masks(roots, j, k) ==> Masks(roots, i, k)
  }

  /** "masked by" is the converse of "masks". */
  ghost predicate Converse(roots: Infos) {
    forall i, j :: Masks(roots, i, j) <==> IsMaskedBy(roots, j, i)
  }

  ghost predicate Closed(roots: Infos, created: map<nat, nat>) {
    Earlier(roots, created) && Transitive(roots) && Converse(roots)
  }

  /** ids and everything they mask. */
  ghost function Flattened(roots: Infos, ids: set<nat>): set<nat>
    requires ids <= roots.Keys
  {
    ids + set i, j | i in ids && j in roots[i].masked :: j
  }

  /** The roots after `id` was added for a location that masks `all`. */
  ghost function WithRoot(roots: Infos, id: nat, loc: Location, all: set<nat>): Infos {
    map i | i in roots.Keys + {id} ::
      if i == id then Info(loc, all, {}, 0)
      else if i in all then roots[i].(masking := roots[i].masking + {id})
      else roots[i]
  }

  lemma WithRootClosed(roots: Infos, created: map<nat, nat>, id: nat, loc: Location, ids: set<nat>, time: nat)
    requires Closed(roots, created) && ids <= roots.Keys && id !in roots
    requires forall i :: i in roots ==> created[i] < time
    ensures Closed(WithRoot(roots, id, loc, Flattened(roots, ids)), created[id := time])
  {
    var all := Flattened(roots, ids);
    var roots', created' := WithRoot(roots, id, loc, all), created[id := time];
    FlattenedIsClosed(roots, created, ids);
    forall i: nat, j: nat ensures Masks(roots', i, j) <==> Masks(roots, i, j) || (i == id && j in all) {
    }
    forall i: nat, j: nat ensures IsMaskedBy(roots', j, i) <==> IsMaskedBy(roots, j, i) || (i == id && j in all) {
      assert Masks(roots, id, j) <==> IsMaskedBy(roots, j, id);
      assert Masks(roots, i, id) <==> IsMaskedBy(roots, id, i);
    }
    forall i: nat, j: nat ensures Masks(roots', i, j) <==> IsMaskedBy(roots', j, i) {
      assert Masks(roots, i, j) <==> IsMaskedBy(roots, j, i);
    }
    forall i: nat, j: nat | Masks(roots', i, j) ensures j in roots' && created'[j] < created'[i] {
      assert Masks(roots, i, j) || (i == id && j in all);
    }
  }

  /** What a new root adds: it masks the given ids and all they mask, both ways, and nothing else changes. */
  ghost predicate RootAdded(roots: Infos, roots': Infos, id: nat, loc: Location, ids: set<nat>) {
    && roots'.Keys == roots.Keys + {id} && roots'[id].location == loc && roots'[id].occurrences == 0
    && (forall j :: Masks(roots', id, j) <==> j in ids || exists i :: i in ids && Masks(roots, i, j))
    && (forall i, j :: i != id ==> (Masks(roots', i, j) <==> Masks(roots, i, j)))
    && (forall i, j :: j in roots' ==> (IsMaskedBy(roots', j, i) <==> Masks(roots', i, j)))
    && (forall i :: i in roots ==>
          roots'[i].location == roots[i].location && roots'[i].occurrences == roots[i].occurrences)
  }

  lemma {:induction false} WithRootAdds(
    roots: Infos, created: map<nat, nat>, id: nat, loc: Location, ids: set<nat>, time: nat)
    requires Closed(roots, created) && ids <= roots.Keys && id !in roots
    requires forall i :: i in roots ==> created[i] < time
    ensures RootAdded(roots, WithRoot(roots, id, loc, Flattened(roots, ids)), id, loc, ids)
  {
    var roots' := WithRoot(roots, id, loc, Flattened(roots, ids));
    WithRootClosed(roots, created, id, loc, ids, time);
    forall j: nat ensures Masks(roots', id, j) <==> j in ids || exists i :: i in ids && Masks(roots, i, j) {
    }
  }

  /** The flattened set exists, and what its members mask is in it. */
  lemma FlattenedIsClosed(roots: Infos, created: map<nat, nat>, ids: set<nat>)
    requires Closed(roots, created) && ids <= roots.Keys
    ensures Flattened(roots, ids) <= roots.Keys
    ensures forall j, k :: j in Flattened(roots, ids) && Masks(roots, j, k) ==> k in Flattened(roots, ids)
  {
    forall j: nat | j in Flattened(roots, ids) ensures j in roots {
      if j !in ids {
        var i :| i in ids && j in roots[i].masked;
        assert Masks(roots, i, j);
      }
    }
    forall j: nat, k: nat | j in Flattened(roots, ids) && Masks(roots, j, k) ensures k in Flattened(roots, ids) {
      if j !in ids {
        var i :| i in ids && j in roots[i].masked;
        assert Masks(roots, i, j) && Masks(roots, i, k);
      }
    }
  }

  /** With transitive masked sets, flattening a masked set gives that set. */
  lemma FlattenedIsOneLevel(roots: Infos, created: map<nat, nat>, id: nat)
    requires Closed(roots, created) && id in roots
    ensures roots[id].masked <= roots.Keys
    ensures Flattened(roots, roots[id].masked) == roots[id].masked
    ensures forall j :: j in roots[id].masked ==> created[j] < created[id]
  {
    forall j: nat | j in roots[id].masked ensures j in roots && created[j] < created[id] {
      assert Masks(roots, id, j);
    }
    forall j: nat, k: nat | j in roots[id].masked && k in roots[j].masked ensures k in roots[id].masked {
      assert Masks(roots, id, j) && Masks(roots, j, k);
      assert Masks(roots, id, k);
    }
  }

  lemma FlattenedOneMore(roots: Infos, ids: set<nat>, id: nat)
    requires ids <= roots.Keys && id in roots
    ensures Flattened(roots, ids + {id}) == Flattened(roots, ids) + {id} + roots[id].masked
  {
  }

  /** The recursion over masked sets: it ends, because masked ids are older, and adds just one level. */
  method GetAllMaskedIDs(roots: Infos, ids: set<nat>, ghost created: map<nat, nat>, ghost bound: nat)
    returns (ret: set<nat>)
    requires Closed(roots, created) && ids <= roots.Keys && forall id :: id in ids ==> created[id] < bound
    ensures ret == Flattened(roots, ids)
    decreases bound
  {
    ret := ids;
    var rest := ids;
    while rest != {}
      invariant rest <= ids
      invariant ret == ids + Flattened(roots, ids - rest)
      decreases rest
    {
      var id :| id in rest;
      FlattenedIsOneLevel(roots, created, id);
      FlattenedOneMore(roots, ids - rest, id);
      var subset := GetAllMaskedIDs(roots, roots[id].masked, created, created[id]);
      ret := ret + subset;
      assert ids - (rest - {id}) == (ids - rest) + {id};
      rest := rest - {id};
    }
    assert ids - rest == ids;
  }

  /** Every id in `some` learns that it is masked by `id`. */
  ghost function Masked(roots: Infos, id: nat, some: set<nat>): Infos {
    map i | i in roots :: if i in some then roots[i].(masking := roots[i].masking + {id}) else roots[i]
  }

  method AddMasking(roots: Infos, id: nat, all: set<nat>) returns (r: Infos)
    requires all <= roots.Keys
    ensures r == Masked(roots, id, all)
  {
    r := roots;
    var rest := all;
    while rest != {}
      invariant rest <= all && r == Masked(roots, id, all - rest)
      decreases rest
    {
      var i :| i in rest;
      r := r[i := r[i].(masking := r[i].masking + {id})];
      rest := rest - {i};
    }
    assert all - rest == all;
  }

  // ---------- ids and locations ----------

  ghost predicate Named(rootToId: map<Location, nat>, loc: Location, id: nat) { loc in rootToId && rootToId[loc] == id }

  ghost predicate Located(roots: Infos, id: nat, loc: Location) { id in roots && roots[id].location == loc }

  /** The two maps are inverse to each other. */
  ghost predicate Inverse(rootToId: map<Location, nat>, roots: Infos) {
    forall loc, id :: Named(rootToId, loc, id) <==> Located(roots, id, loc)
  }

  lemma InverseKept(rootToId: map<Location, nat>, roots: Infos, id: nat, loc: Location, all: set<nat>)
    requires Inverse(rootToId, roots) && id !in roots && loc !in rootToId
    ensures Inverse(rootToId[loc := id], WithRoot(roots, id, loc, all))
  {
    var roots' := WithRoot(roots, id, loc, all);
    forall l, i: nat ensures Named(rootToId[loc := id], l, i) <==> Located(roots', i, l) {
      assert Named(rootToId, l, i) <==> Located(roots, i, l);
      assert Named(rootToId, loc, i) <==> Located(roots, i, loc);
      assert Named(rootToId, l, id) <==> Located(roots, id, l);
    }
  }

  // ---------- counting ----------

  datatype Tally = Tally(
    occurrences: nat, correctnessOccurrences: nat, performanceOccurrences: nat,
    unique: nat, correctnessUnique: nat, performanceUnique: nat)

  ghost function CorrectnessIds(ids: set<nat>, roots: Infos): set<nat> {
    set id | id in ids && id in roots && roots[id].location.reason in CORRECTNESS
  }

  /** All markings so far: of ids with a correctness reason, and of all others. */
  datatype Markings = Markings(correctness: multiset<nat>, performance: multiset<nat>)

  /** The counters count the markings: per id, in total and by kind, and how many ids have any. */
  ghost predicate Counted(roots: Infos, buggy: set<nat>, t: Tally, m: Markings) {
    && t.correctnessOccurrences == |m.correctness| && t.performanceOccurrences == |m.performance|
    && t.occurrences == |m.correctness| + |m.performance|
    && t.unique == |buggy| && t.correctnessUnique == |CorrectnessIds(buggy, roots)|
    && t.performanceUnique == |buggy| - |CorrectnessIds(buggy, roots)|
    && forall id :: CountedAt(roots, buggy, m, id)
  }

  ghost predicate CountedAt(roots: Infos, buggy: set<nat>, m: Markings, id: nat) {
    && (id in roots ==> roots[id].occurrences == m.correctness[id] + m.performance[id])
    && (id in buggy <==> id in m.correctness || id in m.performance)
    && (id in m.correctness ==> id in roots && roots[id].location.reason in CORRECTNESS)
    && (id in m.performance ==> id in roots && roots[id].location.reason !in CORRECTNESS)
  }

  ghost function WithMark(m: Markings, roots: Infos, i: nat): Markings
    requires i in roots
  {
    if roots[i].location.reason in CORRECTNESS then m.(correctness := m.correctness + multiset{i})
    else m.(performance := m.performance + multiset{i})
  }

  function Tallied(t: Tally, correctness: bool, first: bool): Tally {
    var n := if first then 1 else 0;
    if correctness then
      Tally(t.occurrences + 1, t.correctnessOccurrences + 1, t.performanceOccurrences,
            t.unique + n, t.correctnessUnique + n, t.performanceUnique)
    else
      Tally(t.occurrences + 1, t.correctnessOccurrences, t.performanceOccurrences + 1,
            t.unique + n, t.correctnessUnique, t.performanceUnique + n)
  }

  /** The roots after one more occurrence of i. */
  function WithOccurrence(roots: Infos, i: nat): Infos
    requires i in roots
  {
    roots[i := roots[i].(occurrences := roots[i].occurrences + 1)]
  }

  lemma OneMoreBuggy(buggy: set<nat>, roots: Infos, i: nat)
    requires i in roots
    ensures |buggy + {i}| == |buggy| + if i in buggy then 0 else 1
    ensures |CorrectnessIds(buggy + {i}, roots)| ==
      |CorrectnessIds(buggy, roots)| + if i !in buggy && roots[i].location.reason in CORRECTNESS then 1 else 0
  {
    var c := CorrectnessIds(buggy, roots);
    assert i in buggy ==> buggy + {i} == buggy;
    assert CorrectnessIds(buggy + {i}, roots) == if roots[i].location.reason in CORRECTNESS then c + {i} else c;
    assert i in buggy && roots[i].location.reason in CORRECTNESS ==> c + {i} == c;
  }

  lemma OneMoreCounted(roots: Infos, buggy: set<nat>, t: Tally, m: Markings, i: nat)
    requires Counted(roots, buggy, t, m) && i in roots
    ensures
      var t' := Tallied(t, roots[i].location.reason in CORRECTNESS, roots[i].occurrences == 0);
      Counted(WithOccurrence(roots, i), buggy + {i}, t', WithMark(m, roots, i))
  {
    OneMoreBuggy(buggy, roots, i);
    assert CountedAt(roots, buggy, m, i);
    forall id: nat ensures CountedAt(WithOccurrence(roots, i), buggy + {i}, WithMark(m, roots, i), id) {
      assert CountedAt(roots, buggy, m, id);
    }
    assert CorrectnessIds(buggy + {i}, WithOccurrence(roots, i)) == CorrectnessIds(buggy + {i}, roots);
  }

  lemma CountedWithRoot(
    roots: Infos, buggy: set<nat>, t: Tally, m: Markings, id: nat, loc: Location, all: set<nat>)
    requires Counted(roots, buggy, t, m) && id !in roots
    ensures Counted(WithRoot(roots, id, loc, all), buggy, t, m)
  {
    assert CountedAt(roots, buggy, m, id);
    forall i: nat ensures CountedAt(WithRoot(roots, id, loc, all), buggy, m, i) {
      assert CountedAt(roots, buggy, m, i);
    }
    assert CorrectnessIds(buggy, WithRoot(roots, id, loc, all)) == CorrectnessIds(buggy, roots);
  }

  /** Occurrence counts play no part in the masking relation or in the locations. */
  lemma OccurrencesDoNotMask(roots: Infos, created: map<nat, nat>, rootToId: map<Location, nat>, i: nat)
    requires Closed(roots, created) && Inverse(rootToId, roots) && i in roots
    ensures Closed(WithOccurrence(roots, i), created) && Inverse(rootToId, WithOccurrence(roots, i))
  {
    var roots' := WithOccurrence(roots, i);
    forall x: nat, y: nat
      ensures Masks(roots', x, y) <==> Masks(roots, x, y)
      ensures IsMaskedBy(roots', x, y) <==> IsMaskedBy(roots, x, y)
    {
    }
    forall loc, id: nat ensures Named(rootToId, loc, id) <==> Located(roots', id, loc) {
      assert Named(rootToId, loc, id) <==> Located(roots, id, loc);
    }
  }

  // ---------- the manager ----------

  /** The store of root causes, the times the ids were made, and all markings so far. */
  ghost predicate Kept(rootToId: map<Location, nat>, roots: Infos, buggy: set<nat>, t: Tally,
                       created: map<nat, nat>, clock: nat, m: Markings)
  {
    && Inverse(rootToId, roots) && Closed(roots, created) && Counted(roots, buggy, t, m)
    && (forall id :: id in created ==> created[id] < clock)
  }

  lemma {:induction false} KeptAtFirst(rootToId: map<Location, nat>, roots: Infos, buggy: set<nat>, t: Tally,
                                       created: map<nat, nat>, clock: nat, m: Markings)
    requires rootToId == map[] && roots == map[] && buggy == {} && created == map[]
    requires t == Tally(0, 0, 0, 0, 0, 0) && m == Markings(multiset{}, multiset{})
    ensures Kept(rootToId, roots, buggy, t, created, clock, m)
  {
    assert CorrectnessIds(buggy, roots) == {};
    assert |m.correctness| == 0 && |m.performance| == 0;
  }

  lemma {:induction false} KeptWithRoot(
    rootToId: map<Location, nat>, roots: Infos, buggy: set<nat>, t: Tally,
    created: map<nat, nat>, clock: nat, m: Markings, id: nat, loc: Location, ids: set<nat>)
    requires Kept(rootToId, roots, buggy, t, created, clock, m)
    requires ids <= roots.Keys && id !in roots && loc !in rootToId
    ensures Kept(rootToId[loc := id], WithRoot(roots, id, loc, Flattened(roots, ids)), buggy, t,
                 created[id := clock], clock + 1, m)
  {
    WithRootClosed(roots, created, id, loc, ids, clock);
    InverseKept(rootToId, roots, id, loc, Flattened(roots, ids));
    CountedWithRoot(roots, buggy, t, m, id, loc, Flattened(roots, ids));
  }

  class RootCauseManager {
    var usedIds: set<nat>
    var rootToId: map<Location, nat>
    var idToRoot: Infos
    var buggyIds: set<nat>
    var stats: Tally
    /** When each id was created. */
    ghost var created: map<nat, nat>
    ghost var clock: nat
    ghost var markings: Markings

    ghost predicate Valid()
      reads this
    {
      usedIds == idToRoot.Keys && Kept(rootToId, idToRoot, buggyIds, stats, created, clock, markings)
    }

    /** All markings so far. */
    ghost function Marks(): multiset<nat>
      reads this
    {
      markings.correctness + markings.performance
    }

    constructor ()
      ensures Valid() && idToRoot == map[] && markings == Markings(multiset{}, multiset{})
    {
      usedIds, rootToId, idToRoot, buggyIds := {}, map[], map[], {};
      stats := Tally(0, 0, 0, 0, 0, 0);
      created, clock, markings := map[], 0, Markings(multiset{}, multiset{});
      new;
      KeptAtFirst(rootToId, idToRoot, buggyIds, stats, created, clock, markings);
    }

    /** The first unused id from a hash on. */
    method GetNewId(hash: nat) returns (id: nat)
      modifies `usedIds
      ensures id !in old(usedIds) && usedIds == old(usedIds) + {id}
      ensures hash <= id && forall i :: hash <= i < id ==> i in old(usedIds)
    {
      id := hash;
      ghost var above := usedIds;
      while id in usedIds
        invariant hash <= id && above <= usedIds
        invariant forall i :: i in usedIds && id <= i ==> i in above
        invariant forall i :: hash <= i < id ==> i in usedIds
        decreases above
      {
        above := above - {id};
        id := id + 1;
      }
      usedIds := usedIds + {id};
    }

    /** One id per location; a new location records all that the given ids stand for as masked by it. */
    method GetRootCauseLocationID(loc: Location, hash: nat, ids: set<nat>) returns (id: nat)
      requires Valid() && ids <= idToRoot.Keys
      modifies this
      ensures Valid()
      ensures loc in rootToId && rootToId[loc] == id
      ensures loc in old(rootToId) ==> unchanged(this)
      ensures loc !in old(rootToId) ==>
        && id !in old(idToRoot) && RootAdded(old(idToRoot), idToRoot, id, loc, ids)
        && rootToId == old(rootToId)[loc := id] && Marks() == old(Marks())
        && buggyIds == old(buggyIds) && stats == old(stats)
    {
      if loc in rootToId { return rootToId[loc]; }
      var all := GetAllMaskedIDs(idToRoot, ids, created, clock);
      id := GetNewId(hash);
      AddRoot(loc, id, all, ids);
    }

    /** The new id masks `all`, and everything in `all` learns of it. */
    method AddRoot(loc: Location, id: nat, all: set<nat>, ghost ids: set<nat>)
      requires Kept(rootToId, idToRoot, buggyIds, stats, created, clock, markings)
      requires ids <= idToRoot.Keys && all == Flattened(idToRoot, ids) && id !in idToRoot && loc !in rootToId
      requires usedIds == idToRoot.Keys + {id}
      modifies `rootToId, `idToRoot, `created, `clock
      ensures Valid() && RootAdded(old(idToRoot), idToRoot, id, loc, ids) && rootToId == old(rootToId)[loc := id]
    {
      WithRootAdds(idToRoot, created, id, loc, ids, clock);
      KeptWithRoot(rootToId, idToRoot, buggyIds, stats, created, clock, markings, id, loc, ids);
      FlattenedIsClosed(idToRoot, created, ids);
      var roots := AddMasking(idToRoot, id, all);
      rootToId := rootToId[loc := id];
      idToRoot := roots[id := Info(loc, all, {}, 0)];
      assert idToRoot == WithRoot(old(idToRoot), id, loc, all);
      created, clock := created[id := clock], clock + 1;
    }

    /** Counts one occurrence for the id and one for everything it masks. */
    method MarkAsBug(id: nat)
      requires Valid() && id in idToRoot
      modifies `idToRoot, `buggyIds, `stats, `markings
      ensures Valid() && SameButOccurrences(old(idToRoot), idToRoot)
      ensures
        var all := old(idToRoot)[id].masked + {id};
        && Marks() == old(Marks()) + multiset(all) && buggyIds == old(buggyIds) + all
        && MoreOccurrences(old(stats), stats, |CorrectnessIds(all, old(idToRoot))|, |all|)
    {
      FlattenedIsOneLevel(idToRoot, created, id);
      MarkAll(idToRoot[id].masked + {id});
    }

    /** One occurrence for each of these ids, in any order. */
    method MarkAll(ids: set<nat>)
      requires Valid() && ids <= idToRoot.Keys
      modifies `idToRoot, `buggyIds, `stats, `markings
      ensures Valid() && Marked(old(Snapshot()), Snapshot(), ids)
    {
      var rest := ids;
      ghost var s0, done: set<nat> := Snapshot(), {};
      while rest != {}
        invariant Valid() && Marked(s0, Snapshot(), done)
        invariant Parted(ids, done, rest)
        decreases rest
      {
        var i :| i in rest;
        assert i in s0.roots;
        MarkOne(i, s0, done);
        PartedOneMore(ids, done, rest, i);
        rest, done := rest - {i}, done + {i};
      }
    }

    method MarkOne(i: nat, ghost s0: Snap, ghost done: set<nat>)
      requires Valid() && i in idToRoot && i !in done && Marked(s0, Snapshot(), done)
      modifies `idToRoot, `buggyIds, `stats, `markings
      ensures Valid() && Marked(s0, Snapshot(), done + {i})
    {
      ghost var s1 := Snapshot();
      Count(i);
      MarkedOneMore(s0, s1, Snapshot(), done, i);
    }

    ghost function Snapshot(): Snap
      reads this
    {
      Snap(idToRoot, buggyIds, stats, Marks())
    }

    /** One occurrence of i. */
    method Count(i: nat)
      requires Valid() && i in idToRoot
      modifies `idToRoot, `buggyIds, `stats, `markings
      ensures Valid() && Marks() == old(Marks()) + multiset{i} && buggyIds == old(buggyIds) + {i}
      ensures idToRoot == WithOccurrence(old(idToRoot), i)
      ensures MoreOccurrences(old(stats), stats, if old(idToRoot)[i].location.reason in CORRECTNESS then 1 else 0, 1)
    {
      OneMoreCounted(idToRoot, buggyIds, stats, markings, i);
      OccurrencesDoNotMask(idToRoot, created, rootToId, i);
      var r := idToRoot[i].location.reason;
      stats := Tallied(stats, r == Unpersisted || r == SemanticCorrectness, idToRoot[i].occurrences == 0);
      markings := WithMark(markings, idToRoot, i);
      idToRoot := WithOccurrence(idToRoot, i);
      buggyIds := buggyIds + {i};
    }
  }

  /** `all` occurrences more, `correctness` of them of ids with a correctness reason. */
  ghost predicate MoreOccurrences(t: Tally, t': Tally, correctness: nat, all: nat) {
    && t'.occurrences == t.occurrences + all
    && t'.correctnessOccurrences == t.correctnessOccurrences + correctness
    && t'.performanceOccurrences == t.performanceOccurrences + all - correctness
  }

  ghost predicate Parted(ids: set<nat>, done: set<nat>, rest: set<nat>) {
    done !! rest && done + rest == ids
  }

  lemma PartedOneMore(ids: set<nat>, done: set<nat>, rest: set<nat>, i: nat)
    requires Parted(ids, done, rest) && i in rest
    ensures Parted(ids, done + {i}, rest - {i})
  {
  }

  /** What marking changes. */
  datatype Snap = Snap(roots: Infos, buggy: set<nat>, stats: Tally, marks: multiset<nat>)

  /** Each id in `done` has been marked once. */
  ghost predicate Marked(s: Snap, s': Snap, done: set<nat>) {
    && SameButOccurrences(s.roots, s'.roots) && s'.buggy == s.buggy + done && s'.marks == s.marks + multiset(done)
    && MoreOccurrences(s.stats, s'.stats, |CorrectnessIds(done, s.roots)|, |done|)
  }

  lemma {:induction false} MarkedOneMore(s: Snap, s1: Snap, s2: Snap, done: set<nat>, i: nat)
    requires Marked(s, s1, done) && i in s1.roots && i !in done
    requires s2.roots == WithOccurrence(s1.roots, i) && s2.buggy == s1.buggy + {i} && s2.marks == s1.marks + multiset{i}
    requires MoreOccurrences(s1.stats, s2.stats, if s1.roots[i].location.reason in CORRECTNESS then 1 else 0, 1)
    ensures Marked(s, s2, done + {i})
  {
    OneMoreBuggy(done, s.roots, i);
    assert multiset(done + {i}) == multiset(done) + multiset{i};
  }

  ghost predicate SameButOccurrences(roots: Infos, roots': Infos) {
    roots'.Keys == roots.Keys && forall i :: i in roots ==> roots'[i] == roots[i].(occurrences := roots'[i].occurrences)
  }
}
