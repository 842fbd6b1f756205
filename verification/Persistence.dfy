/**
  Persistence of the cache lines of one object: six update lists record the
  writes, the flushes waiting for a fence, and the instruction behind each.
  The reference is a history of events and, per line and assignment, a machine
  with the states clean, dirty and flushed.
 */
module Persistence {
  import opened Exprs
  import opened Arithmetic
  import ObjectCells

  const PERSISTED := Const(1)
  const DIRTY := Const(0)
  const NO_CAUSE := Const(0)

  // ---------- the reference ----------

  /** `accepted` tells a flush that was recorded from one that was found redundant. */
  datatype Event =
    | Store(offset: Expr, id: nat)
    | Flush(offset: Expr, id: nat, accepted: bool)
    | Fence

  /** What a cache line holds: nothing unpersisted, or the store of `writer`, unflushed or awaiting a fence. */
  datatype Line = Clean | Dirty(writer: nat) | Flushed(writer: nat)

  function LineOf(offset: Expr, lineSize: nat): Expr {
    Trunc(Div(offset, lineSize))
  }

  function Step(line: Line, e: Event, l: nat, lineSize: nat, a: Assignment): Line {
    match e
    case Store(offset, id) => if Eval(LineOf(offset, lineSize), a) == l then Dirty(id) else line
    case Flush(offset, _, _) =>
      if Eval(LineOf(offset, lineSize), a) == l && line.Dirty? then Flushed(line.writer) else line
    case Fence => if line.Flushed? then Clean else line
  }

  /** Line l after the whole history. */
  function LineAfter(h: seq<Event>, l: nat, lineSize: nat, a: Assignment): Line {
    if h == [] then Clean else Step(LineAfter(h[..|h| - 1], l, lineSize, a), h[|h| - 1], l, lineSize, a)
  }

  /** Flushes recorded since the last fence. */
  function Waiting(h: seq<Event>): nat {
    if h == [] || h[|h| - 1].Fence? then 0
    else Waiting(h[..|h| - 1]) + if h[|h| - 1].Flush? && h[|h| - 1].accepted then 1 else 0
  }

  /** The last recorded flush of line l, 0 if there is none. */
  function LastFlush(h: seq<Event>, l: nat, lineSize: nat, a: Assignment): nat {
    if h == [] then 0
    else
      var e := h[|h| - 1];
      if e.Flush? && e.accepted && Eval(LineOf(e.offset, lineSize), a) == l then e.id
      else LastFlush(h[..|h| - 1], l, lineSize, a)
  }

  /** The last flush of line l recorded since the last fence, 0 if there is none. */
  function PendingFlush(h: seq<Event>, l: nat, lineSize: nat, a: Assignment): nat {
    if h == [] || h[|h| - 1].Fence? then 0
    else
      var e := h[|h| - 1];
      if e.Flush? && e.accepted && Eval(LineOf(e.offset, lineSize), a) == l then e.id
      else PendingFlush(h[..|h| - 1], l, lineSize, a)
  }

  /** Some flush of line l was recorded. */
  ghost predicate WasFlushed(h: seq<Event>, l: nat, lineSize: nat, a: Assignment) {
    exists k :: 0 <= k < |h| && FlushesLine(h[k], l, lineSize, a)
  }

  ghost predicate FlushesLine(e: Event, l: nat, lineSize: nat, a: Assignment) {
    e.Flush? && e.accepted && Eval(LineOf(e.offset, lineSize), a) == l
  }

  ghost predicate FlushesNamed(h: seq<Event>) {
    forall k :: 0 <= k < |h| ==> Named(h[k])
  }

  predicate Named(e: Event) {
    e.Flush? ==> e.id != 0
  }

  /** With non-zero flush ids, a last flush of 0 means that there was none. */
  lemma {:induction false} LastFlushTells(h: seq<Event>, l: nat, lineSize: nat, a: Assignment)
    requires FlushesNamed(h)
    ensures LastFlush(h, l, lineSize, a) == 0 <==> !WasFlushed(h, l, lineSize, a)
  {
    if h != [] {
      var n := |h| - 1;
      var before := h[..n];
      assert Named(h[n]);
      assert FlushesNamed(before) by { assert forall k :: 0 <= k < n ==> before[k] == h[k] && Named(h[k]); }
      LastFlushTells(before, l, lineSize, a);
      assert forall k :: 0 <= k < n ==> before[k] == h[k];
      assert WasFlushed(h, l, lineSize, a) <==> WasFlushed(before, l, lineSize, a) || FlushesLine(h[n], l, lineSize, a);
    }
  }

  // ---------- what a history says, event by event ----------

  ghost predicate StoresLine(e: Event, l: nat, lineSize: nat, a: Assignment) {
    e.Store? && Eval(LineOf(e.offset, lineSize), a) == l
  }

  /** A flush instruction for the line, recorded or not. */
  ghost predicate AsksFor(e: Event, l: nat, lineSize: nat, a: Assignment) {
    e.Flush? && Eval(LineOf(e.offset, lineSize), a) == l
  }

  /** Event k of the history stores to line l, and no later one does. */
  ghost predicate LastStore(h: seq<Event>, k: nat, l: nat, lineSize: nat, a: Assignment) {
    k < |h| && StoresLine(h[k], l, lineSize, a) && forall i :: k < i < |h| ==> !StoresLine(h[i], l, lineSize, a)
  }

  /** The line was flushed after event k. */
  ghost predicate FlushedAfter(h: seq<Event>, k: nat, l: nat, lineSize: nat, a: Assignment) {
    exists i :: k < i < |h| && AsksFor(h[i], l, lineSize, a)
  }

  /** The line was flushed after event k, and a fence came after that. */
  ghost predicate FencedAfter(h: seq<Event>, k: nat, l: nat, lineSize: nat, a: Assignment) {
    exists i, j :: k < i < j < |h| && AsksFor(h[i], l, lineSize, a) && h[j].Fence?
  }

  lemma {:induction false} NeverStored(h: seq<Event>, l: nat, lineSize: nat, a: Assignment)
    requires forall k :: 0 <= k < |h| ==> !StoresLine(h[k], l, lineSize, a)
    ensures LineAfter(h, l, lineSize, a) == Clean
  {
    if h != [] {
      var before := h[..|h| - 1];
      assert forall k :: 0 <= k < |before| ==> before[k] == h[k];
      NeverStored(before, l, lineSize, a);
      assert !StoresLine(h[|h| - 1], l, lineSize, a);
    }
  }

  /**
    Since its last store, a line is dirty until it is flushed, and clean from
    the first fence after that on.
   */
  lemma {:induction false} SinceLastStore(h: seq<Event>, k: nat, l: nat, lineSize: nat, a: Assignment)
    requires LastStore(h, k, l, lineSize, a)
    ensures LineAfter(h, l, lineSize, a) ==
      if !FlushedAfter(h, k, l, lineSize, a) then Dirty(h[k].id)
      else if !FencedAfter(h, k, l, lineSize, a) then Flushed(h[k].id)
      else Clean
    decreases |h|
  {
    var n := |h| - 1;
    if k < n {
      var before, e := h[..n], h[n];
      assert forall i :: 0 <= i < n ==> before[i] == h[i];
      SinceLastStore(before, k, l, lineSize, a);
      assert !StoresLine(e, l, lineSize, a);
      OneMoreFlushed(h, k, l, lineSize, a);
    }
  }

  lemma {:induction false} OneMoreFlushed(h: seq<Event>, k: nat, l: nat, lineSize: nat, a: Assignment)
    requires k < |h| - 1
    ensures
      var before, e := h[..|h| - 1], h[|h| - 1];
      && (FlushedAfter(h, k, l, lineSize, a) <==> FlushedAfter(before, k, l, lineSize, a) || AsksFor(e, l, lineSize, a))
      && (FencedAfter(h, k, l, lineSize, a) <==>
            FencedAfter(before, k, l, lineSize, a) || (e.Fence? && FlushedAfter(before, k, l, lineSize, a)))
  {
    var n := |h| - 1;
    var before, e := h[..n], h[n];
    assert forall i :: 0 <= i < n ==> before[i] == h[i];
    if FlushedAfter(before, k, l, lineSize, a) {
      var i :| k < i < n && AsksFor(before[i], l, lineSize, a);
      assert AsksFor(h[i], l, lineSize, a);
    }
    if FencedAfter(before, k, l, lineSize, a) {
      var i, j :| k < i < j < n && AsksFor(before[i], l, lineSize, a) && before[j].Fence?;
      assert AsksFor(h[i], l, lineSize, a) && h[j].Fence?;
    }
    if FencedAfter(h, k, l, lineSize, a) {
      var i, j :| k < i < j < |h| && AsksFor(h[i], l, lineSize, a) && h[j].Fence?;
      assert AsksFor(before[i], l, lineSize, a);
      assert j < n ==> before[j].Fence?;
    }
  }

  /** Flushes are waiting exactly if one was recorded that no fence follows. */
  lemma {:induction false} WaitingMeans(h: seq<Event>)
    ensures Waiting(h) > 0 <==> exists k :: 0 <= k < |h| && Recorded(h[k]) && NoFenceAfter(h, k)
  {
    if h != [] {
      var n := |h| - 1;
      var before := h[..n];
      assert forall i :: 0 <= i < n ==> before[i] == h[i];
      WaitingMeans(before);
      if k :| 0 <= k < n && Recorded(before[k]) && NoFenceAfter(before, k) && !h[n].Fence? {
        assert Recorded(h[k]) && NoFenceAfter(h, k);
      }
      if k :| 0 <= k < |h| && Recorded(h[k]) && NoFenceAfter(h, k) && k < n {
        assert Recorded(before[k]) && NoFenceAfter(before, k);
      }
    }
  }

  ghost predicate Recorded(e: Event) { e.Flush? && e.accepted }

  ghost predicate NoFenceAfter(h: seq<Event>, k: nat) {
    forall i :: k < i < |h| ==> !h[i].Fence?
  }

  /** The last recorded flush of a line, and the one that is waiting, are those of the history. */
  lemma {:induction false} LastFlushIs(h: seq<Event>, k: nat, l: nat, lineSize: nat, a: Assignment)
    requires k < |h| && FlushesLine(h[k], l, lineSize, a)
    requires forall i :: k < i < |h| ==> !FlushesLine(h[i], l, lineSize, a)
    ensures LastFlush(h, l, lineSize, a) == h[k].id
    ensures PendingFlush(h, l, lineSize, a) == if NoFenceAfter(h, k) then h[k].id else 0
  {
    var n := |h| - 1;
    if k < n {
      var before := h[..n];
      assert forall i :: 0 <= i < n ==> before[i] == h[i];
      assert !FlushesLine(h[n], l, lineSize, a);
      LastFlushIs(before, k, l, lineSize, a);
      assert NoFenceAfter(h, k) <==> NoFenceAfter(before, k) && !h[n].Fence?;
    }
  }

  function WriterUnlessClean(line: Line): nat { if line.Clean? then 0 else line.writer }

  function WriterIfDirty(line: Line): nat { if line.Dirty? then line.writer else 0 }

  // ---------- the lists ----------

  datatype Lists = Lists(
    cacheLines: UpdateList, pendingCacheLines: UpdateList,
    rootCauseWrites: UpdateList, pendingRootCauseWrites: UpdateList,
    rootCauseFlushes: UpdateList, pendingRootCauseFlushes: UpdateList)

  function Start(lines: nat): Lists {
    var ones := UpdateList(ConstArray(seq(lines, _ => 1)), Nil);
    var zeros := UpdateList(ConstArray(seq(lines, _ => 0)), Nil);
    Lists(ones, ones, zeros, zeros, zeros, zeros)
  }

  /** The newest entry already says that this line is dirty. */
  predicate HeadIs(ul: UpdateList, index: Expr, value: Expr) {
    ul.head.Upd? && ul.head.index == index && ul.head.value == value
  }

  function Dirtied(s: Lists, line: Expr, id: nat): Lists {
    var s1 :=
      if HeadIs(s.pendingCacheLines, line, DIRTY) then s
      else s.(cacheLines := Extend(s.cacheLines, line, DIRTY),
              pendingCacheLines := Extend(s.pendingCacheLines, line, DIRTY));
    s1.(rootCauseWrites := Extend(s.rootCauseWrites, line, Const(id)),
        pendingRootCauseWrites := Extend(s.pendingRootCauseWrites, line, Const(id)))
  }

  function Persisted(s: Lists, line: Expr, id: nat): Lists {
    s.(pendingCacheLines := Extend(s.pendingCacheLines, line, PERSISTED),
       rootCauseFlushes := Extend(s.rootCauseFlushes, line, Const(id)),
       pendingRootCauseFlushes := Extend(s.pendingRootCauseFlushes, line, Const(id)),
       pendingRootCauseWrites := Extend(s.pendingRootCauseWrites, line, NO_CAUSE))
  }

  function Committed(s: Lists): Lists {
    s.(cacheLines := s.pendingCacheLines, rootCauseWrites := s.pendingRootCauseWrites,
       pendingRootCauseFlushes := s.pendingRootCauseFlushes.(head := Nil))
  }

  // ---------- lists and reference agree ----------

  /** What the lists answer for line l under a, in terms of the reference machine. */
  ghost predicate Agrees(s: Lists, h: seq<Event>, l: nat, lineSize: nat, a: Assignment) {
    var line := LineAfter(h, l, lineSize, a);
    && ListAt(s.cacheLines, l, a) == (if line.Clean? then 1 else 0)
    && ListAt(s.pendingCacheLines, l, a) == (if line.Dirty? then 0 else 1)
    && ListAt(s.rootCauseWrites, l, a) == WriterUnlessClean(line)
    && ListAt(s.pendingRootCauseWrites, l, a) == WriterIfDirty(line)
    && ListAt(s.rootCauseFlushes, l, a) == LastFlush(h, l, lineSize, a)
    && ListAt(s.pendingRootCauseFlushes, l, a) == PendingFlush(h, l, lineSize, a)
    && RootAt(s.pendingRootCauseFlushes.root, l, a) == 0
    && (!line.Clean? ==> line.writer != 0)
  }

  /** A dirty entry at the head of the pending list is at the head of the authoritative list too. */
  ghost predicate HeadsAgree(s: Lists) {
    s.pendingCacheLines.head.Upd? && s.pendingCacheLines.head.value == DIRTY ==>
      HeadIs(s.cacheLines, s.pendingCacheLines.head.index, DIRTY)
  }

  /** The pending list is ahead of the authoritative one by the flushes recorded since the last fence. */
  ghost predicate LengthsAgree(s: Lists, h: seq<Event>) {
    Length(s.pendingCacheLines.head) == Length(s.cacheLines.head) + Waiting(h)
  }

  lemma {:induction false} AfterEvent(h: seq<Event>, e: Event, l: nat, lineSize: nat, a: Assignment)
    ensures LineAfter(h + [e], l, lineSize, a) == Step(LineAfter(h, l, lineSize, a), e, l, lineSize, a)
    ensures Waiting(h + [e]) == if e.Fence? then 0 else Waiting(h) + if e.Flush? && e.accepted then 1 else 0
    ensures LastFlush(h + [e], l, lineSize, a) ==
      if e.Flush? && e.accepted && Eval(LineOf(e.offset, lineSize), a) == l then e.id else LastFlush(h, l, lineSize, a)
    ensures PendingFlush(h + [e], l, lineSize, a) ==
      if e.Fence? then 0
      else if e.Flush? && e.accepted && Eval(LineOf(e.offset, lineSize), a) == l then e.id
      else PendingFlush(h, l, lineSize, a)
  {
    assert (h + [e])[..|h + [e]| - 1] == h;
  }

  lemma {:induction false} StartAgrees(lines: nat, l: nat, lineSize: nat, a: Assignment)
    requires l < lines
    ensures Agrees(Start(lines), [], l, lineSize, a)
  {
  }

  /** A dirty entry on top of the pending list is not repeated: the line reads as dirty without it. */
  lemma {:induction false} DirtyHeadReads(s: Lists, line: Expr, l: nat, a: Assignment)
    requires HeadsAgree(s) && HeadIs(s.pendingCacheLines, line, DIRTY) && Eval(line, a) == l
    ensures ListAt(s.cacheLines, l, a) == 0 && ListAt(s.pendingCacheLines, l, a) == 0
  {
    var below := UpdateList(s.cacheLines.root, s.cacheLines.head.next);
    var pendingBelow := UpdateList(s.pendingCacheLines.root, s.pendingCacheLines.head.next);
    ExtendReads(below, line, DIRTY);
    ExtendReads(pendingBelow, line, DIRTY);
    assert s.cacheLines == Extend(below, line, DIRTY) && s.pendingCacheLines == Extend(pendingBelow, line, DIRTY);
  }

  lemma {:induction false} DirtiedAgrees(
    s: Lists, h: seq<Event>, offset: Expr, id: nat, l: nat, lineSize: nat, a: Assignment)
    requires Agrees(s, h, l, lineSize, a) && HeadsAgree(s) && id != 0
    ensures Agrees(Dirtied(s, LineOf(offset, lineSize), id), h + [Store(offset, id)], l, lineSize, a)
  {
    var line := LineOf(offset, lineSize);
    AfterEvent(h, Store(offset, id), l, lineSize, a);
    ExtendReads(s.cacheLines, line, DIRTY);
    ExtendReads(s.pendingCacheLines, line, DIRTY);
    ExtendReads(s.rootCauseWrites, line, Const(id));
    ExtendReads(s.pendingRootCauseWrites, line, Const(id));
    if HeadIs(s.pendingCacheLines, line, DIRTY) && Eval(line, a) == l { DirtyHeadReads(s, line, l, a); }
  }

  lemma {:induction false} PersistedAgrees(
    s: Lists, h: seq<Event>, offset: Expr, id: nat, l: nat, lineSize: nat, a: Assignment)
    requires Agrees(s, h, l, lineSize, a)
    ensures Agrees(Persisted(s, LineOf(offset, lineSize), id), h + [Flush(offset, id, true)], l, lineSize, a)
  {
    var line := LineOf(offset, lineSize);
    AfterEvent(h, Flush(offset, id, true), l, lineSize, a);
    ExtendReads(s.pendingCacheLines, line, PERSISTED);
    ExtendReads(s.rootCauseFlushes, line, Const(id));
    ExtendReads(s.pendingRootCauseFlushes, line, Const(id));
    ExtendReads(s.pendingRootCauseWrites, line, NO_CAUSE);
  }

  /** Leaving out a flush of a line that is not dirty changes no answer. */
  lemma {:induction false} RedundantFlushAgrees(
    s: Lists, h: seq<Event>, offset: Expr, id: nat, l: nat, lineSize: nat, a: Assignment)
    requires Agrees(s, h, l, lineSize, a)
    requires Eval(LineOf(offset, lineSize), a) == l ==> ListAt(s.pendingCacheLines, l, a) == 1
    ensures Agrees(s, h + [Flush(offset, id, false)], l, lineSize, a)
  {
    AfterEvent(h, Flush(offset, id, false), l, lineSize, a);
  }

  lemma {:induction false} CommittedAgrees(s: Lists, h: seq<Event>, l: nat, lineSize: nat, a: Assignment)
    requires Agrees(s, h, l, lineSize, a)
    ensures Agrees(Committed(s), h + [Fence], l, lineSize, a)
  {
    AfterEvent(h, Fence, l, lineSize, a);
  }

  lemma {:induction false} HeadsAndLengths(s: Lists, h: seq<Event>, offset: Expr, id: nat, line: Expr)
    requires HeadsAgree(s) && LengthsAgree(s, h)
    ensures HeadsAgree(Dirtied(s, line, id)) && LengthsAgree(Dirtied(s, line, id), h + [Store(offset, id)])
    ensures HeadsAgree(Persisted(s, line, id)) && LengthsAgree(Persisted(s, line, id), h + [Flush(offset, id, true)])
    ensures LengthsAgree(s, h + [Flush(offset, id, false)])
    ensures HeadsAgree(Committed(s)) && LengthsAgree(Committed(s), h + [Fence])
  {
    AfterEvent(h, Store(offset, id), 0, 1, map[]);
    AfterEvent(h, Flush(offset, id, true), 0, 1, map[]);
    AfterEvent(h, Flush(offset, id, false), 0, 1, map[]);
    AfterEvent(h, Fence, 0, 1, map[]);
  }

  /** Lists and history agree on all lines under all feasible assignments. */
  ghost predicate AllAgree(s: Lists, h: seq<Event>, lines: nat, lineSize: nat, feasible: iset<Assignment>) {
    forall l, a :: 0 <= l < lines && a in feasible ==> Agrees(s, h, l, lineSize, a)
  }

  ghost predicate Rooted(s: Lists, lines: nat) {
    && s.cacheLines.root == s.pendingCacheLines.root == ConstArray(seq(lines, _ => 1))
    && s.rootCauseWrites.root == s.pendingRootCauseWrites.root == ConstArray(seq(lines, _ => 0))
  }

  /** The lists are those of this history. */
  ghost predicate Tracks(s: Lists, h: seq<Event>, lines: nat, lineSize: nat, feasible: iset<Assignment>) {
    && Rooted(s, lines) && HeadsAgree(s) && LengthsAgree(s, h) && FlushesNamed(h)
    && AllAgree(s, h, lines, lineSize, feasible)
  }

  lemma {:induction false} StartTracks(lines: nat, lineSize: nat, feasible: iset<Assignment>)
    ensures Tracks(Start(lines), [], lines, lineSize, feasible)
  {
    forall l, a | 0 <= l < lines ensures Agrees(Start(lines), [], l, lineSize, a) {
      StartAgrees(lines, l, lineSize, a);
    }
  }

  lemma {:induction false} StoreTracks(
    s: Lists, h: seq<Event>, lines: nat, lineSize: nat, feasible: iset<Assignment>, offset: Expr, id: nat)
    requires Tracks(s, h, lines, lineSize, feasible) && id != 0
    ensures Tracks(Dirtied(s, LineOf(offset, lineSize), id), h + [Store(offset, id)], lines, lineSize, feasible)
  {
    HeadsAndLengths(s, h, offset, id, LineOf(offset, lineSize));
    forall l, a | 0 <= l < lines && a in feasible
      ensures Agrees(Dirtied(s, LineOf(offset, lineSize), id), h + [Store(offset, id)], l, lineSize, a)
    {
      DirtiedAgrees(s, h, offset, id, l, lineSize, a);
    }
  }

  lemma {:induction false} FlushTracks(
    s: Lists, h: seq<Event>, lines: nat, lineSize: nat, feasible: iset<Assignment>, offset: Expr, id: nat)
    requires Tracks(s, h, lines, lineSize, feasible) && id != 0
    ensures Tracks(Persisted(s, LineOf(offset, lineSize), id), h + [Flush(offset, id, true)], lines, lineSize, feasible)
  {
    HeadsAndLengths(s, h, offset, id, LineOf(offset, lineSize));
    forall l, a | 0 <= l < lines && a in feasible
      ensures Agrees(Persisted(s, LineOf(offset, lineSize), id), h + [Flush(offset, id, true)], l, lineSize, a)
    {
      PersistedAgrees(s, h, offset, id, l, lineSize, a);
    }
  }

  lemma {:induction false} SkipTracks(
    s: Lists, h: seq<Event>, lines: nat, lineSize: nat, feasible: iset<Assignment>, offset: Expr, id: nat)
    requires Tracks(s, h, lines, lineSize, feasible) && id != 0
    requires forall a :: a in feasible ==> !LineAfter(h, Eval(LineOf(offset, lineSize), a), lineSize, a).Dirty?
    ensures Tracks(s, h + [Flush(offset, id, false)], lines, lineSize, feasible)
  {
    HeadsAndLengths(s, h, offset, id, DIRTY);
    forall l, a | 0 <= l < lines && a in feasible
      ensures Agrees(s, h + [Flush(offset, id, false)], l, lineSize, a)
    {
      RedundantFlushAgrees(s, h, offset, id, l, lineSize, a);
    }
  }

  lemma {:induction false} FenceTracks(s: Lists, h: seq<Event>, lines: nat, lineSize: nat, feasible: iset<Assignment>)
    requires Tracks(s, h, lines, lineSize, feasible)
    ensures Tracks(Committed(s), h + [Fence], lines, lineSize, feasible)
  {
    HeadsAndLengths(s, h, DIRTY, 0, DIRTY);
    forall l, a | 0 <= l < lines && a in feasible ensures Agrees(Committed(s), h + [Fence], l, lineSize, a) {
      CommittedAgrees(s, h, l, lineSize, a);
    }
  }

  // ---------- stores of several bytes ----------

  /** The offset of byte k of a value stored at `offset`. */
  function ByteOffset(offset: Expr, k: nat): Expr {
    if offset.Const? then Const(offset.v + k) else Add(Trunc(offset), Const(k))
  }

  /** The history after the stores of the first `count` of n bytes, in the order they are made. */
  function Stored(h: seq<Event>, offset: Expr, n: nat, little: bool, id: nat, count: nat): seq<Event>
    requires count <= n
    decreases count
  {
    if count == 0 then h
    else
      var k := ObjectCells.Place(little, n, count - 1);
      Stored(h, offset, n, little, id, count - 1) + [Store(ByteOffset(offset, k), id)]
  }

  lemma {:induction false} ByteOffsetValue(offset: Expr, k: nat, a: Assignment)
    requires Eval(offset, a) + k < WORD
    ensures Eval(ByteOffset(offset, k), a) == Eval(offset, a) + k
  {
    if !offset.Const? {
      TruncOfSmall(offset, a);
      assert Eval(Add(Trunc(offset), Const(k)), a) == (Eval(Trunc(offset), a) + k) % WORD;
    }
  }

  function LineNumber(offset: nat, lineSize: nat): nat
    requires lineSize > 0
  {
    offset / lineSize
  }

  lemma {:induction false} LineOfValue(offset: Expr, lineSize: nat, a: Assignment)
    requires lineSize > 0 && Eval(offset, a) < WORD
    ensures Eval(LineOf(offset, lineSize), a) == LineNumber(Eval(offset, a), lineSize)
  {
    assert Eval(Div(offset, lineSize), a) == Eval(offset, a) / lineSize;
    QuotientIsSmaller(Eval(offset, a), lineSize);
    TruncOfSmall(Div(offset, lineSize), a);
  }

  /** One of the first `count` bytes stored lies in line l. */
  ghost predicate StoredTo(o: nat, n: nat, little: bool, count: nat, l: nat, lineSize: nat)
    requires count <= n && lineSize > 0
    decreases count
  {
    count > 0 &&
    (LineNumber(o + ObjectCells.Place(little, n, count - 1), lineSize) == l ||
     StoredTo(o, n, little, count - 1, l, lineSize))
  }

  lemma {:induction false} ByteIsStored(o: nat, n: nat, little: bool, count: nat, i: nat, lineSize: nat)
    requires i < count <= n && lineSize > 0
    ensures StoredTo(o, n, little, count, LineNumber(o + ObjectCells.Place(little, n, i), lineSize), lineSize)
    decreases count
  {
    if i < count - 1 { ByteIsStored(o, n, little, count - 1, i, lineSize); }
  }

  /** A store of byte k of a value. */
  lemma {:induction false} LineAfterByte(
    h: seq<Event>, offset: Expr, k: nat, id: nat, l: nat, lineSize: nat, a: Assignment)
    requires lineSize > 0 && Eval(offset, a) + k < WORD
    ensures LineAfter(h + [Store(ByteOffset(offset, k), id)], l, lineSize, a) ==
      if LineNumber(Eval(offset, a) + k, lineSize) == l then Dirty(id) else LineAfter(h, l, lineSize, a)
  {
    AfterEvent(h, Store(ByteOffset(offset, k), id), l, lineSize, a);
    ByteOffsetValue(offset, k, a);
    LineOfValue(ByteOffset(offset, k), lineSize, a);
  }

  /** After the stores, a line is dirty if one of the bytes lies in it, and else as it was. */
  lemma {:induction false} LineAfterStores(
    h: seq<Event>, offset: Expr, n: nat, little: bool, id: nat, count: nat, l: nat, lineSize: nat, a: Assignment)
    requires count <= n && lineSize > 0 && Eval(offset, a) + n <= WORD
    ensures LineAfter(Stored(h, offset, n, little, id, count), l, lineSize, a) ==
      if StoredTo(Eval(offset, a), n, little, count, l, lineSize) then Dirty(id) else LineAfter(h, l, lineSize, a)
    decreases count
  {
    if count > 0 {
      var before, k := Stored(h, offset, n, little, id, count - 1), ObjectCells.Place(little, n, count - 1);
      LineAfterStores(h, offset, n, little, id, count - 1, l, lineSize, a);
      LineAfterByte(before, offset, k, id, l, lineSize, a);
    }
  }

  /** The history after a non-temporal store: every byte dirties its line, and the line of the first is flushed. */
  function NonTemporal(h: seq<Event>, offset: Expr, n: nat, little: bool, storeId: nat, flushId: nat): seq<Event> {
    Stored(h, offset, n, little, storeId, n) + [Flush(offset, flushId, true)]
  }

  /** A stored line awaits a fence if it is the line of the first byte, and else stays dirty. */
  lemma {:induction false} NonTemporalLine(
    h: seq<Event>, offset: Expr, n: nat, little: bool, storeId: nat, flushId: nat, k: nat, lineSize: nat, a: Assignment)
    requires lineSize > 0 && k < n && Eval(offset, a) + n <= WORD
    ensures
      var o := Eval(offset, a);
      LineAfter(NonTemporal(h, offset, n, little, storeId, flushId), LineNumber(o + k, lineSize), lineSize, a) ==
      if LineNumber(o + k, lineSize) == LineNumber(o, lineSize) then Flushed(storeId) else Dirty(storeId)
  {
    var o := Eval(offset, a);
    var l := LineNumber(o + k, lineSize);
    LineOfValue(offset, lineSize, a);
    LineAfterStores(h, offset, n, little, storeId, n, l, lineSize, a);
    AfterEvent(Stored(h, offset, n, little, storeId, n), Flush(offset, flushId, true), l, lineSize, a);
    var i := ObjectCells.Place(little, n, k);
    assert ObjectCells.Place(little, n, i) == k;
    ByteIsStored(o, n, little, n, i, lineSize);
  }

  /** A non-temporal store awaits a fence with all its lines exactly when it does not straddle two of them. */
  lemma {:induction false} NonTemporalStoreFlushed(
    h: seq<Event>, offset: Expr, n: nat, little: bool, storeId: nat, flushId: nat, lineSize: nat, a: Assignment)
    requires lineSize > 0 && 0 < n && Eval(offset, a) + n <= WORD
    ensures
      var h', o := NonTemporal(h, offset, n, little, storeId, flushId), Eval(offset, a);
      (forall x :: o <= x < o + n ==> LineAfter(h', LineNumber(x, lineSize), lineSize, a) == Flushed(storeId)) <==>
      LineNumber(o, lineSize) == LineNumber(o + n - 1, lineSize)
  {
    var h', o := NonTemporal(h, offset, n, little, storeId, flushId), Eval(offset, a);
    forall x | o <= x < o + n
      ensures LineAfter(h', LineNumber(x, lineSize), lineSize, a) ==
        if LineNumber(x, lineSize) == LineNumber(o, lineSize) then Flushed(storeId) else Dirty(storeId)
      ensures LineNumber(o, lineSize) <= LineNumber(x, lineSize) <= LineNumber(o + n - 1, lineSize)
    {
      NonTemporalLine(h, offset, n, little, storeId, flushId, x - o, lineSize, a);
      QuotientGrows(o, x, lineSize);
      QuotientGrows(x, o + n - 1, lineSize);
    }
  }

  // ---------- queries ----------

  /** The query expression: the list says "persisted" for the line; an empty list says so for every line. */
  function IsLinePersisted(ul: UpdateList, line: Expr): Expr {
    if ul.head == Nil then Const(1) else Eq(Read(ul, Trunc(line)), PERSISTED)
  }

  lemma {:induction false} QueryReadsList(ul: UpdateList, line: Expr, lines: nat, a: Assignment)
    requires ul.root == ConstArray(seq(lines, _ => 1)) && Eval(line, a) < lines <= WORD
    ensures Eval(IsLinePersisted(ul, line), a) != 0 <==> ListAt(ul, Eval(line, a), a) == 1
  {
    TruncOfSmall(line, a);
    if ul.head != Nil {
      assert Eval(Read(ul, Trunc(line)), a) == ListAt(ul, Eval(Trunc(line), a), a);
    }
  }

  /** The ids a root-cause expression can have: the values the solver finds feasible, but for 0. */
  method GetRootCause(values: set<nat>, lo: nat, hi: nat) returns (ids: set<nat>)
    requires lo in values && hi in values && forall v :: v in values ==> lo <= v <= hi
    ensures ids == values - {0}
  {
    ids := {};
    if lo == 0 && hi == 0 { return; }
    var from := if lo == 0 then 1 else lo;
    if from == hi {
      ids := {from};
    } else {
      for id := from to hi + 1
        invariant ids == set v | v in values && from <= v < id
      {
        if id in values { ids := ids + {id}; }
      }
    }
  }
}
