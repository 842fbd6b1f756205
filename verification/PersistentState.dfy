/**
  The persistence tracker of one object, driven by stores, flushes and fences,
  and the fence over all persistent objects. Solver answers are parameters,
  required to be exact for the assignments that are still feasible.
 */
module PersistenceTracker {
  import opened Arithmetic
  import opened Exprs
  import ObjectCells
  import opened Persistence

  datatype FlushBug = FlushOnUnmodified | UnnecessaryFlush

  /** How many cache lines an object of this size spans. */
  function SizeInCacheLines(size: nat, lineSize: nat): nat
    requires lineSize > 0
  {
    if size % lineSize == 0 then size / lineSize else size / lineSize + 1
  }

  /** Every offset lies in one of the lines. */
  lemma {:induction false} OffsetInSomeLine(size: nat, lineSize: nat, offset: nat)
    requires lineSize > 0 && offset < size
    ensures offset / lineSize < SizeInCacheLines(size, lineSize)
  {
    var d, q := offset / lineSize, size / lineSize;
    assert offset == d * lineSize + offset % lineSize;
    assert size == q * lineSize + size % lineSize;
    assert (d - q) * lineSize == d * lineSize - q * lineSize;
    assert (d - q) * lineSize < lineSize;
    if d > q { AtLeastOnce(d - q, lineSize); }
  }

  /** Every line has an offset: its first one. */
  lemma {:induction false} LineHasOffset(size: nat, lineSize: nat, l: nat)
    requires lineSize > 0 && l < SizeInCacheLines(size, lineSize)
    ensures l * lineSize < size && l * lineSize / lineSize == l
  {
    var q := size / lineSize;
    assert size == q * lineSize + size % lineSize;
    if l < q {
      AtLeastOnce(q - l, lineSize);
      assert (q - l) * lineSize == q * lineSize - l * lineSize;
    }
    QuotientIsUnique(l * lineSize, lineSize, l, 0);
  }

  class PersistentState {
    const size: nat
    const lineSize: nat
    const numLines: nat
    var cacheLineUpdates: UpdateList
    var pendingCacheLineUpdates: UpdateList
    var rootCauseWrites: UpdateList
    var pendingRootCauseWrites: UpdateList
    var rootCauseFlushes: UpdateList
    var pendingRootCauseFlushes: UpdateList
    /** All stores, flush requests and fences so far. */
    ghost var history: seq<Event>
    /** The assignments that satisfy the path constraints. */
    ghost var feasible: iset<Assignment>

    ghost function View(): Lists
      reads this
    {
      Lists(cacheLineUpdates, pendingCacheLineUpdates, rootCauseWrites, pendingRootCauseWrites,
            rootCauseFlushes, pendingRootCauseFlushes)
    }

    ghost function LineNow(l: nat, a: Assignment): Line
      reads this
    {
      LineAfter(history, l, lineSize, a)
    }

    ghost predicate Valid()
      reads this
    {
      && lineSize > 0 && numLines == SizeInCacheLines(size, lineSize) && numLines <= WORD
      && Tracks(View(), history, numLines, lineSize, feasible)
    }

    /** Offsets are inside the object under every feasible assignment. */
    ghost predicate InObject(offset: Expr)
      reads this
    {
      forall a :: a in feasible ==> Eval(offset, a) < size
    }

    constructor (size: nat, lineSize: nat, ghost feasible: iset<Assignment>)
      requires lineSize > 0 && SizeInCacheLines(size, lineSize) <= WORD
      ensures Valid() && history == [] && this.feasible == feasible && this.size == size && this.lineSize == lineSize
    {
      var n := SizeInCacheLines(size, lineSize);
      this.size, this.lineSize, this.numLines := size, lineSize, n;
      var ones := UpdateList(ConstArray(seq(n, _ => 1)), Nil);
      var zeros := UpdateList(ConstArray(seq(n, _ => 0)), Nil);
      cacheLineUpdates, pendingCacheLineUpdates := ones, ones;
      rootCauseWrites, pendingRootCauseWrites := zeros, zeros;
      rootCauseFlushes, pendingRootCauseFlushes := zeros, zeros;
      history, this.feasible := [], feasible;
      new;
      StartTracks(numLines, lineSize, feasible);
    }

    /** The path constraints grow. */
    ghost method Constrain(smaller: iset<Assignment>)
      requires Valid() && smaller <= feasible
      modifies `feasible
      ensures Valid() && feasible == smaller
    {
      feasible := smaller;
    }

    /** `id` wrote the line of the offset last, and the line has not been flushed since, under a. */
    ghost predicate Overwritten(offset: Expr, a: Assignment, id: nat)
      reads this
    {
      a in feasible && LineNow(Eval(LineOf(offset, lineSize), a), a) == Dirty(id)
    }

    /** The stores that a store at the offset may overwrite before they are flushed; the new one masks them. */
    method PreviousWrites(offset: Expr, values: set<nat>, lo: nat, hi: nat) returns (prev: set<nat>)
      requires Valid() && InObject(offset)
      requires forall a :: a in feasible ==>
        ListAt(pendingRootCauseWrites, Eval(LineOf(offset, lineSize), a), a) in values
      requires forall v :: v in values ==>
        exists a :: a in feasible && ListAt(pendingRootCauseWrites, Eval(LineOf(offset, lineSize), a), a) == v
      requires lo in values && hi in values && forall v :: v in values ==> lo <= v <= hi
      ensures forall id :: id in prev <==> exists a :: Overwritten(offset, a, id)
    {
      prev := GetRootCause(values, lo, hi);
      forall a | a in feasible
        ensures ListAt(pendingRootCauseWrites, Eval(LineOf(offset, lineSize), a), a) ==
          WriterIfDirty(LineNow(Eval(LineOf(offset, lineSize), a), a))
        ensures LineNow(Eval(LineOf(offset, lineSize), a), a).Dirty? ==>
          LineNow(Eval(LineOf(offset, lineSize), a), a).writer != 0
      {
        QueryIsExact(offset, true, a);
        assert Agrees(View(), history, Eval(LineOf(offset, lineSize), a), lineSize, a);
      }
      forall id ensures id in prev <==> exists a :: Overwritten(offset, a, id) {
        if id in prev {
          var a :| a in feasible && ListAt(pendingRootCauseWrites, Eval(LineOf(offset, lineSize), a), a) == id;
          assert Overwritten(offset, a, id);
        }
        if a :| Overwritten(offset, a, id) {
          assert ListAt(pendingRootCauseWrites, Eval(LineOf(offset, lineSize), a), a) in values;
        }
      }
    }

    method DirtyCacheLineAtOffset(offset: Expr, id: nat)
      requires Valid() && id != 0
      modifies this
      ensures Valid() && history == old(history) + [Store(offset, id)] && feasible == old(feasible)
    {
      var cacheLine := LineOf(offset, lineSize);
      StoreTracks(View(), history, numLines, lineSize, feasible, offset, id);
      if !HeadIs(pendingCacheLineUpdates, cacheLine, DIRTY) {
        cacheLineUpdates := Extend(cacheLineUpdates, cacheLine, DIRTY);
        pendingCacheLineUpdates := Extend(pendingCacheLineUpdates, cacheLine, DIRTY);
      }
      rootCauseWrites := Extend(rootCauseWrites, cacheLine, Const(id));
      pendingRootCauseWrites := Extend(pendingRootCauseWrites, cacheLine, Const(id));
      history := history + [Store(offset, id)];
    }

    method PersistCacheLineAtOffset(offset: Expr, id: nat)
      requires Valid() && id != 0
      modifies this
      ensures Valid() && history == old(history) + [Flush(offset, id, true)] && feasible == old(feasible)
    {
      var cacheLine := LineOf(offset, lineSize);
      FlushTracks(View(), history, numLines, lineSize, feasible, offset, id);
      pendingCacheLineUpdates := Extend(pendingCacheLineUpdates, cacheLine, PERSISTED);
      rootCauseFlushes := Extend(rootCauseFlushes, cacheLine, Const(id));
      pendingRootCauseFlushes := Extend(pendingRootCauseFlushes, cacheLine, Const(id));
      pendingRootCauseWrites := Extend(pendingRootCauseWrites, cacheLine, NO_CAUSE);
      history := history + [Flush(offset, id, true)];
    }

    /** True exactly when a flush or a non-temporal store was recorded since the last fence. */
    method CommitPendingPersists() returns (any: bool)
      requires Valid()
      modifies this
      ensures Valid() && history == old(history) + [Fence] && feasible == old(feasible)
      ensures any <==> Waiting(old(history)) > 0
    {
      FenceTracks(View(), history, numLines, lineSize, feasible);
      var prevSz := Length(cacheLineUpdates.head);
      cacheLineUpdates := pendingCacheLineUpdates;
      rootCauseWrites := pendingRootCauseWrites;
      pendingRootCauseFlushes := pendingRootCauseFlushes.(head := Nil);
      any := prevSz != Length(cacheLineUpdates.head);
      history := history + [Fence];
    }

    /** The query: 1 if the line of the offset is persisted, or (pending) flushed. */
    function IsOffsetPersisted(offset: Expr, pending: bool): Expr
      reads this
    {
      IsLinePersisted(if pending then pendingCacheLineUpdates else cacheLineUpdates, LineOf(offset, lineSize))
    }

    /** The query answers what the reference machine says. */
    lemma QueryIsExact(offset: Expr, pending: bool, a: Assignment)
      requires Valid() && a in feasible && Eval(offset, a) < size
      ensures Eval(LineOf(offset, lineSize), a) < numLines
      ensures
        var line := LineNow(Eval(LineOf(offset, lineSize), a), a);
        Eval(IsOffsetPersisted(offset, pending), a) != 0 <==> if pending then !line.Dirty? else line.Clean?
    {
      var l := Eval(offset, a) / lineSize;
      OffsetInSomeLine(size, lineSize, Eval(offset, a));
      LineUnderAssignment(offset, lineSize, a);
      assert Agrees(View(), history, l, lineSize, a);
      var ul := if pending then pendingCacheLineUpdates else cacheLineUpdates;
      QueryReadsList(ul, LineOf(offset, lineSize), numLines, a);
    }

    /**
      A flush instruction. It is found redundant exactly when the line is dirty
      under no feasible assignment, and then leaves the lists alone; either
      way all later answers are those of a history with the flush in it.
     */
    method FlushOffset(offset: Expr, id: nat, alreadyPersisted: bool)
      requires Valid() && InObject(offset) && id != 0
      requires alreadyPersisted <==> forall a :: a in feasible ==> Eval(IsOffsetPersisted(offset, true), a) != 0
      modifies this
      ensures Valid() && history == old(history) + [Flush(offset, id, !alreadyPersisted)] && feasible == old(feasible)
      ensures alreadyPersisted <==>
        forall a :: a in feasible ==> !old(LineNow(Eval(LineOf(offset, lineSize), a), a)).Dirty?
    {
      forall a | a in feasible
        ensures Eval(IsOffsetPersisted(offset, true), a) != 0 <==> !LineNow(Eval(LineOf(offset, lineSize), a), a).Dirty?
      {
        QueryIsExact(offset, true, a);
      }
      if alreadyPersisted {
        SkipTracks(View(), history, numLines, lineSize, feasible, offset, id);
        history := history + [Flush(offset, id, false)];
      } else {
        PersistCacheLineAtOffset(offset, id);
      }
    }

    /** A store of n bytes that bypasses the cache: every byte dirties its line, the line of the first is flushed. */
    method NonTemporalStore(offset: Expr, n: nat, little: bool, storeId: nat, flushId: nat)
      requires Valid() && storeId != 0 && flushId != 0
      modifies this
      ensures Valid() && feasible == old(feasible)
      ensures history == NonTemporal(old(history), offset, n, little, storeId, flushId)
    {
      for i := 0 to n
        invariant Valid() && feasible == old(feasible)
        invariant history == Stored(old(history), offset, n, little, storeId, i)
      {
        DirtyCacheLineAtOffset(ByteOffset(offset, ObjectCells.Place(little, n, i)), storeId);
      }
      PersistCacheLineAtOffset(offset, flushId);
    }

    // ---------- reporting ----------

    /** `id` is the last writer of line l, still unpersisted under a. */
    ghost predicate Unpersisted(l: nat, a: Assignment, id: nat)
      reads this
    {
      l < numLines && a in feasible && !LineNow(l, a).Clean? && LineNow(l, a).writer == id
    }

    /** The answers of the solver about line l: is it persisted in all cases, and which writers are possible. */
    ghost predicate ExactLineAnswers(l: nat, must: bool, values: set<nat>, lo: nat, hi: nat)
      reads this
    {
      && (must <==> forall a :: a in feasible ==> Eval(IsLinePersisted(cacheLineUpdates, Const(l)), a) != 0)
      && (forall a :: a in feasible ==> ListAt(rootCauseWrites, l, a) in values)
      && (forall v :: v in values ==> exists a :: a in feasible && ListAt(rootCauseWrites, l, a) == v)
      && lo in values && hi in values && forall v :: v in values ==> lo <= v <= hi
    }

    lemma LineAnswersMeaning(l: nat, must: bool, values: set<nat>, lo: nat, hi: nat)
      requires Valid() && l < numLines && ExactLineAnswers(l, must, values, lo, hi)
      ensures must <==> forall a :: a in feasible ==> LineNow(l, a).Clean?
      ensures forall id :: id in values - {0} <==> exists a :: Unpersisted(l, a, id)
    {
      forall a | a in feasible
        ensures Agrees(View(), history, l, lineSize, a)
        ensures Eval(IsLinePersisted(cacheLineUpdates, Const(l)), a) != 0 <==> LineNow(l, a).Clean?
      {
        assert Agrees(View(), history, l, lineSize, a);
        QueryReadsList(cacheLineUpdates, Const(l), numLines, a);
      }
      forall id ensures id in values - {0} <==> exists a :: Unpersisted(l, a, id) {
        if id in values - {0} {
          var a :| a in feasible && ListAt(rootCauseWrites, l, a) == id;
          assert Unpersisted(l, a, id);
        }
        if exists a :: Unpersisted(l, a, id) {
          var a :| Unpersisted(l, a, id);
          assert ListAt(rootCauseWrites, l, a) in values;
        }
      }
    }

    /** `id` is the last writer of a line below `upTo` that some feasible assignment leaves unpersisted. */
    ghost predicate Blamed(upTo: nat, id: nat)
      reads this
    {
      exists l: nat, a :: l < upTo && Unpersisted(l, a, id)
    }

    lemma NoWritesNoBlame()
      requires Valid() && rootCauseWrites.head == Nil
      ensures forall id :: !Blamed(numLines, id)
    {
      forall l: nat, a, id ensures !Unpersisted(l, a, id) {
        if l < numLines && a in feasible { assert Agrees(View(), history, l, lineSize, a); }
      }
    }

    lemma OneMoreLine(l: nat)
      ensures forall id :: Blamed(l + 1, id) <==> Blamed(l, id) || exists a :: Unpersisted(l, a, id)
    {
      forall id ensures Blamed(l + 1, id) <==> Blamed(l, id) || exists a :: Unpersisted(l, a, id) {
        if Blamed(l + 1, id) {
          var k: nat, a :| k < l + 1 && Unpersisted(k, a, id);
          assert k == l || k < l;
        }
      }
    }

    /** The writers of all lines that some feasible assignment leaves unpersisted. */
    method GetRootCauses(must: seq<bool>, values: seq<set<nat>>, lo: seq<nat>, hi: seq<nat>) returns (causes: set<nat>)
      requires Valid() && |must| == |values| == |lo| == |hi| == numLines
      requires forall l :: 0 <= l < numLines ==> ExactLineAnswers(l, must[l], values[l], lo[l], hi[l])
      ensures forall id :: id in causes <==> Blamed(numLines, id)
    {
      causes := {};
      if rootCauseWrites.head == Nil {
        NoWritesNoBlame();
        return;
      }
      for cl := 0 to numLines
        invariant forall id :: id in causes <==> Blamed(cl, id)
      {
        LineAnswersMeaning(cl, must[cl], values[cl], lo[cl], hi[cl]);
        OneMoreLine(cl);
        if !must[cl] {
          var ids := GetRootCause(values[cl], lo[cl], hi[cl]);
          causes := causes + ids;
        }
      }
    }

    /**
      The persistence check. It reports nothing exactly when every line is clean
      under every feasible assignment, and otherwise exactly the last writers of
      unpersisted lines, of which there is at least one.
     */
    method MarkPersistenceErrors(
      allPersisted: bool, must: seq<bool>, values: seq<set<nat>>, lo: seq<nat>, hi: seq<nat>) returns (causes: set<nat>)
      requires Valid() && |must| == |values| == |lo| == |hi| == numLines
      requires forall l :: 0 <= l < numLines ==> ExactLineAnswers(l, must[l], values[l], lo[l], hi[l])
      requires allPersisted <==> AnyOffsetPersisted()
      ensures causes == {} <==> AllClean()
      ensures forall id :: id in causes <==> Blamed(numLines, id)
    {
      AllPersistedMeaning();
      CleanMeansNoBlame();
      if allPersisted {
        causes := {};
      } else {
        causes := GetRootCauses(must, values, lo, hi);
        CleanMeansNoBlame();
        AllPersistedMeaning();
        // The assertion of the source: there is something to report.
        assert causes != {};
      }
    }

    lemma CleanMeansNoBlame()
      ensures AllClean() <==> forall id :: !Blamed(numLines, id)
    {
      if AllClean() {
        forall id ensures !Blamed(numLines, id) {
          assert forall l: nat, a :: Unpersisted(l, a, id) ==> !CleanAt(l, a);
        }
      } else {
        var l: nat, a: Assignment :| l < numLines && a in feasible && !CleanAt(l, a);
        assert Unpersisted(l, a, LineNow(l, a).writer);
        assert Blamed(numLines, LineNow(l, a).writer);
      }
    }

    ghost predicate CleanAt(l: nat, a: Assignment)
      reads this
    {
      LineNow(l, a).Clean?
    }

    ghost predicate AllClean()
      reads this
    {
      forall l: nat, a :: l < numLines && a in feasible ==> CleanAt(l, a)
    }

    /** The solver's question: an arbitrary offset inside the object is persisted. */
    ghost predicate AnyOffsetPersisted()
      reads this
    {
      forall offset: nat, a :: offset < size && a in feasible ==> PersistedAt(offset, a)
    }

    ghost predicate PersistedAt(offset: nat, a: Assignment)
      reads this
    {
      Eval(IsOffsetPersisted(Const(offset), false), a) != 0
    }

    lemma OffsetQuery(offset: nat, a: Assignment)
      requires Valid() && offset < size && a in feasible
      ensures offset / lineSize < numLines
      ensures PersistedAt(offset, a) <==> CleanAt(offset / lineSize, a)
    {
      QueryIsExact(Const(offset), false, a);
      OffsetInSomeLine(size, lineSize, offset);
      LineUnderAssignment(Const(offset), lineSize, a);
    }

    lemma LineCleanIfOffsets(l: nat, a: Assignment)
      requires Valid() && AnyOffsetPersisted() && l < numLines && a in feasible
      ensures CleanAt(l, a)
    {
      LineHasOffset(size, lineSize, l);
      OffsetQuery(l * lineSize, a);
    }

    lemma OffsetPersistedIfClean(offset: nat, a: Assignment)
      requires Valid() && AllClean() && offset < size && a in feasible
      ensures PersistedAt(offset, a)
    {
      OffsetQuery(offset, a);
    }

    /** Asking about an arbitrary offset inside the object is asking about every line. */
    lemma AllPersistedMeaning()
      requires Valid()
      ensures AnyOffsetPersisted() <==> AllClean()
    {
      if AnyOffsetPersisted() {
        forall l: nat, a | l < numLines && a in feasible ensures CleanAt(l, a) {
          LineCleanIfOffsets(l, a);
        }
      }
      if AllClean() {
        forall offset: nat, a | offset < size && a in feasible ensures PersistedAt(offset, a) {
          OffsetPersistedIfClean(offset, a);
        }
      }
    }

    /** A redundant flush is blamed on an earlier one, unless no flush of the line was ever recorded. */
    method MarkFlushAsBug(offset: Expr, values: set<nat>, lo: nat, hi: nat) returns (bug: FlushBug)
      requires Valid() && InObject(offset)
      requires forall a :: a in feasible ==> ListAt(rootCauseFlushes, Eval(LineOf(offset, lineSize), a), a) in values
      requires forall v :: v in values ==>
        exists a :: a in feasible && ListAt(rootCauseFlushes, Eval(LineOf(offset, lineSize), a), a) == v
      requires lo in values && hi in values && forall v :: v in values ==> lo <= v <= hi
      ensures bug == FlushOnUnmodified <==>
        forall a :: a in feasible ==> !WasFlushed(history, Eval(LineOf(offset, lineSize), a), lineSize, a)
    {
      forall a | a in feasible
        ensures ListAt(rootCauseFlushes, Eval(LineOf(offset, lineSize), a), a) ==
          LastFlush(history, Eval(LineOf(offset, lineSize), a), lineSize, a)
      {
        QueryIsExact(offset, false, a);
        assert Agrees(View(), history, Eval(LineOf(offset, lineSize), a), lineSize, a);
      }
      forall a | a in feasible
        ensures LastFlush(history, Eval(LineOf(offset, lineSize), a), lineSize, a) == 0 <==>
          !WasFlushed(history, Eval(LineOf(offset, lineSize), a), lineSize, a)
      {
        LastFlushTells(history, Eval(LineOf(offset, lineSize), a), lineSize, a);
      }
      var ids := GetRootCause(values, lo, hi);
      bug := if ids == {} then FlushOnUnmodified else UnnecessaryFlush;
      if ids != {} {
        ghost var v :| v in ids;
        ghost var a :| a in feasible && ListAt(rootCauseFlushes, Eval(LineOf(offset, lineSize), a), a) == v;
        assert LastFlush(history, Eval(LineOf(offset, lineSize), a), lineSize, a) != 0;
      } else {
        forall a | a in feasible ensures LastFlush(history, Eval(LineOf(offset, lineSize), a), lineSize, a) == 0 {
          var v := ListAt(rootCauseFlushes, Eval(LineOf(offset, lineSize), a), a);
          assert v in values && v !in values - {0};
        }
      }
    }
  }

  /** The object is at this point of its history. */
  ghost predicate At(o: PersistentState, history: seq<Event>, feasible: iset<Assignment>)
    reads o
  {
    o.Valid() && o.history == history && o.feasible == feasible
  }

  /** A fence commits every persistent object; it is unnecessary exactly when none of them had a flush waiting. */
  method ExecuteFence(objects: seq<PersistentState>) returns (necessary: bool)
    requires forall i :: 0 <= i < |objects| ==> objects[i].Valid()
    requires forall i, j :: 0 <= i < j < |objects| ==> objects[i] != objects[j]
    modifies objects
    ensures forall i :: 0 <= i < |objects| ==>
      At(objects[i], old(objects[i].history) + [Fence], old(objects[i].feasible))
    ensures necessary <==> exists i :: 0 <= i < |objects| && Waiting(old(objects[i].history)) > 0
  {
    necessary := false;
    for n := 0 to |objects|
      invariant forall i :: 0 <= i < n ==> At(objects[i], old(objects[i].history) + [Fence], old(objects[i].feasible))
      invariant forall i :: n <= i < |objects| ==> At(objects[i], old(objects[i].history), old(objects[i].feasible))
      invariant necessary <==> exists i :: 0 <= i < n && Waiting(old(objects[i].history)) > 0
    {
      assert At(objects[n], old(objects[n].history), old(objects[n].feasible));
      var commitNecessary := Commit(objects[n]);
      necessary := commitNecessary || necessary;
    }
  }

  /** The fence for one object. */
  method Commit(os: PersistentState) returns (any: bool)
    requires os.Valid()
    modifies os
    ensures At(os, old(os.history) + [Fence], old(os.feasible))
    ensures any <==> Waiting(old(os.history)) > 0
  {
    any := os.CommitPendingPersists();
  }

  lemma LineUnderAssignment(offset: Expr, lineSize: nat, a: Assignment)
    requires lineSize > 0 && Eval(offset, a) / lineSize < WORD
    ensures Eval(LineOf(offset, lineSize), a) == Eval(offset, a) / lineSize
  {
    assert Eval(Div(offset, lineSize), a) == Eval(offset, a) / lineSize;
    TruncOfSmall(Div(offset, lineSize), a);
  }
}
