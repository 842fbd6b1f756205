/**
  The cooperative thread scheduler: threads in the order of their ids, waiting
  lists of sleeping threads, and the choice of the first enabled thread after
  the current one. A run is any sequence of thread operations.
 */
module Scheduler {

  datatype Thread = Thread(enabled: bool, waitingList: nat)

  datatype State = State(threads: map<nat, Thread>, lists: map<nat, set<nat>>, crt: nat)

  datatype Op = Create(tid: nat) | Preempt | Sleep(wlist: nat) | NotifyOne(wlist: nat) | NotifyAll(wlist: nat) | Exit

  /** After an operation: on with a thread, ended by the last thread, ended by a hang, or a failed assertion. */
  datatype Outcome = Running(state: State) | Ended | Hang | Failed

  // ---------- the cyclic order of ids ----------

  /** Going up from `a`, and from the largest id on to the smallest, x comes strictly before b. */
  predicate Between(a: nat, x: nat, b: nat) {
    if a < b then a < x < b else a < x || x < b
  }

  /** The first of these ids after `a`; `a` itself comes last. */
  predicate IsFirst(ids: set<nat>, a: nat, n: nat) {
    n in ids && forall x :: x in ids ==> !Between(a, x, n)
  }

  predicate IsLeast(ids: set<nat>, t: nat) {
    t in ids && forall x :: x in ids ==> t <= x
  }

  lemma {:induction false} LeastExists(ids: set<nat>)
    requires ids != {}
    ensures exists m :: IsLeast(ids, m)
  {
    var m :| m in ids;
    var rest := ids - {m};
    assert ids == rest + {m};
    if rest == {} {
      assert IsLeast(ids, m);
    } else {
      LeastExists(rest);
      var k :| IsLeast(rest, k);
      assert IsLeast(ids, if k < m then k else m);
    }
  }

  lemma {:induction false} FirstExists(ids: set<nat>, a: nat)
    requires ids != {}
    ensures exists n :: IsFirst(ids, a, n)
  {
    var above := set x | x in ids && a < x;
    LeastExists(if above != {} then above else ids);
    var n :| IsLeast(if above != {} then above else ids, n);
    assert IsFirst(ids, a, n) by {
      forall x | x in ids ensures !Between(a, x, n) {
        assert a < x ==> x in above;
      }
    }
  }

  function Enabled(threads: map<nat, Thread>): set<nat> {
    set t | t in threads && threads[t].enabled
  }

  ghost function NextEnabled(threads: map<nat, Thread>, a: nat): (n: nat)
    requires Enabled(threads) != {}
    ensures IsFirst(Enabled(threads), a, n)
    ensures forall m :: IsFirst(Enabled(threads), a, m) ==> m == n
  {
    FirstExists(Enabled(threads), a);
    var n :| IsFirst(Enabled(threads), a, n);
    n
  }

  // ---------- what each operation does ----------

  /** Between two operations of a live state. */
  ghost predicate Live(s: State) {
    && s.crt in s.threads && s.threads[s.crt].enabled
    && (forall t :: t in s.threads ==> Placed(s, t))
    && (forall w :: w in s.lists ==> 0 < w && s.lists[w] != {})
    && (forall w, t :: w in s.lists && t in s.lists[w] ==> t in s.threads && s.threads[t].waitingList == w)
  }

  /** A thread is disabled exactly when it is in the waiting list it names. */
  ghost predicate Placed(s: State, t: nat)
    requires t in s.threads
  {
    && (s.threads[t].enabled <==> s.threads[t].waitingList == 0)
    && (!s.threads[t].enabled ==> t in ListOf(s, s.threads[t].waitingList))
  }

  function ListOf(s: State, w: nat): set<nat> {
    if w in s.lists then s.lists[w] else {}
  }

  ghost function Scheduled(s: State): Outcome {
    if Enabled(s.threads) == {} then Hang else Running(s.(crt := NextEnabled(s.threads, s.crt)))
  }

  function Slept(s: State, w: nat): State
    requires s.crt in s.threads
  {
    s.(threads := s.threads[s.crt := Thread(false, w)], lists := s.lists[w := ListOf(s, w) + {s.crt}])
  }

  /** All threads in `awake` are enabled and leave list w. */
  function Woken(s: State, w: nat, awake: set<nat>): State {
    s.(threads := map t | t in s.threads :: if t in awake then Thread(true, 0) else s.threads[t],
       lists := if ListOf(s, w) <= awake then s.lists - {w} else s.lists[w := ListOf(s, w) - awake])
  }

  /** The assertions of the operations are kept: a failed one gives `Failed`. */
  ghost function Step(s: State, op: Op): Outcome
    requires s.crt in s.threads
  {
    match op
    case Create(tid) =>
      if tid in s.threads then Failed else Running(s.(threads := s.threads[tid := Thread(true, 0)]))
    case Preempt => Scheduled(s)
    case Sleep(w) => if !s.threads[s.crt].enabled || w == 0 then Failed else Scheduled(Slept(s, w))
    case NotifyOne(w) =>
      if ListOf(s, w) == {} then Running(s.(lists := s.lists - {w}))
      else
        LeastExists(ListOf(s, w));
        var t :| IsLeast(ListOf(s, w), t);
        if w == 0 || t !in s.threads || s.threads[t].enabled then Failed else Running(Woken(s, w, {t}))
    case NotifyAll(w) =>
      if w == 0 || !(ListOf(s, w) <= s.threads.Keys) then Failed else Running(Woken(s, w, ListOf(s, w)))
    case Exit =>
      if |s.threads| == 1 then Ended
      else
        var out := Scheduled(s.(threads := s.threads[s.crt := s.threads[s.crt].(enabled := false)]));
        if out.Hang? then Hang
        else if out.state.crt == s.crt || s.threads[s.crt].waitingList != 0 then Failed
        else Running(out.state.(threads := out.state.threads - {s.crt}))
  }

  // ---------- what changes and what stays ----------

  /** The least id above a, or the least of all if there is none above. */
  ghost predicate IsNext(ids: set<nat>, a: nat, n: nat) {
    var above := set x | x in ids && a < x;
    IsLeast(if above != {} then above else ids, n)
  }

  /** The first in cyclic order is the next one up, going round once. */
  lemma {:induction false} FirstIsNext(ids: set<nat>, a: nat, n: nat)
    ensures IsFirst(ids, a, n) <==> IsNext(ids, a, n)
  {
    var above := set x | x in ids && a < x;
    if IsFirst(ids, a, n) {
      if x :| x in above { assert !Between(a, x, n); }
      var up := if above != {} then above else ids;
      forall x | x in up ensures n <= x {
        assert !Between(a, x, n);
        assert above == {} ==> n !in above && x !in above;
      }
    }
    if IsNext(ids, a, n) {
      forall x | x in ids ensures !Between(a, x, n) { assert a < x ==> x in above; }
    }
  }

  /** Apart from those in `but`, the threads are the same. */
  ghost predicate SameThreads(s: State, s': State, but: set<nat>) {
    forall t :: t !in but ==>
      (t in s'.threads <==> t in s.threads) && (t in s.threads ==> s'.threads[t] == s.threads[t])
  }

  ghost predicate SameLists(s: State, s': State, but: set<nat>) {
    forall w :: w !in but ==> (w in s'.lists <==> w in s.lists) && (w in s.lists ==> s'.lists[w] == s.lists[w])
  }

  /** Exactly the threads in `awake` are enabled and leave list w, which goes when it has no others. */
  ghost predicate Awakened(s: State, s': State, w: nat, awake: set<nat>) {
    && Enabled(s'.threads) == Enabled(s.threads) + awake && s'.threads.Keys == s.threads.Keys
    && SameThreads(s, s', awake) && (forall t :: t in awake ==> t in s'.threads && s'.threads[t].waitingList == 0)
    && SameLists(s, s', {w}) && ListOf(s', w) == ListOf(s, w) - awake && (w in s'.lists ==> s'.lists[w] != {})
    && s'.crt == s.crt
  }

  lemma {:induction false} WokenAwakens(s: State, w: nat, awake: set<nat>)
    requires Live(s) && awake <= ListOf(s, w)
    ensures Awakened(s, Woken(s, w, awake), w, awake)
  {
    var s' := Woken(s, w, awake);
    assert Enabled(s'.threads) == Enabled(s.threads) + awake;
    if !(ListOf(s, w) <= awake) {
      var x :| x in ListOf(s, w) && x !in awake;
      assert x in ListOf(s, w) - awake;
    }
  }

  /** Notifying one: the least thread of the list wakes up, or nothing happens if the list is empty. */
  lemma {:induction false} NotifyOneWakes(s: State, w: nat)
    requires Live(s)
    ensures Step(s, NotifyOne(w)).Running?
    ensures w !in s.lists ==> Step(s, NotifyOne(w)).state == s
    ensures w in s.lists ==>
      exists t :: IsLeast(s.lists[w], t) && Awakened(s, Step(s, NotifyOne(w)).state, w, {t})
  {
    if w in s.lists {
      LeastExists(s.lists[w]);
      var t :| IsLeast(s.lists[w], t);
      assert forall u :: IsLeast(ListOf(s, w), u) ==> u == t;
      assert Placed(s, t);
      WokenAwakens(s, w, {t});
    } else {
      assert s.lists - {w} == s.lists;
    }
  }

  /** Notifying all: exactly the threads of the list wake up. */
  lemma {:induction false} NotifyAllWakes(s: State, w: nat)
    requires Live(s) && 0 < w
    ensures Step(s, NotifyAll(w)).Running? && Awakened(s, Step(s, NotifyAll(w)).state, w, ListOf(s, w))
  {
    WokenAwakens(s, w, ListOf(s, w));
  }

  /** Creating: one more thread, enabled, and nothing else. */
  lemma {:induction false} CreateAdds(s: State, tid: nat)
    requires Live(s) && tid !in s.threads
    ensures Step(s, Create(tid)).Running?
    ensures
      var s' := Step(s, Create(tid)).state;
      && s'.threads.Keys == s.threads.Keys + {tid} && Enabled(s'.threads) == Enabled(s.threads) + {tid}
      && SameThreads(s, s', {tid}) && s'.threads[tid].waitingList == 0
      && s'.lists == s.lists && s'.crt == s.crt
  {
    assert Enabled(s.threads[tid := Thread(true, 0)]) == Enabled(s.threads) + {tid};
  }

  /** Preempting: the next enabled thread goes on, and nothing else changes. */
  lemma {:induction false} PreemptMovesOn(s: State)
    requires Live(s)
    ensures Step(s, Preempt).Running?
    ensures
      var s' := Step(s, Preempt).state;
      s'.threads == s.threads && s'.lists == s.lists && IsNext(Enabled(s.threads), s.crt, s'.crt)
  {
    assert s.crt in Enabled(s.threads);
    FirstIsNext(Enabled(s.threads), s.crt, Step(s, Preempt).state.crt);
  }

  /** Sleeping: exactly the current thread goes into list w, and the next enabled one goes on. */
  lemma {:induction false} SleepWaits(s: State, w: nat)
    requires Live(s) && 0 < w && Step(s, Sleep(w)).Running?
    ensures
      var s' := Step(s, Sleep(w)).state;
      && s'.threads.Keys == s.threads.Keys && Enabled(s'.threads) == Enabled(s.threads) - {s.crt}
      && SameThreads(s, s', {s.crt}) && s'.threads[s.crt].waitingList == w
      && SameLists(s, s', {w}) && w in s'.lists && s'.lists[w] == ListOf(s, w) + {s.crt}
      && IsNext(Enabled(s'.threads), s.crt, s'.crt)
  {
    var s' := Step(s, Sleep(w)).state;
    assert Enabled(s'.threads) == Enabled(s.threads) - {s.crt};
    FirstIsNext(Enabled(s'.threads), s.crt, s'.crt);
  }

  /** Exiting: exactly the current thread goes, and the next enabled one goes on. */
  lemma {:induction false} ExitRemoves(s: State)
    requires Live(s) && Step(s, Exit).Running?
    ensures
      var s' := Step(s, Exit).state;
      && s'.threads == s.threads - {s.crt} && s'.lists == s.lists
      && IsNext(Enabled(s'.threads), s.crt, s'.crt)
  {
    var s' := Step(s, Exit).state;
    var stopped := s.threads[s.crt := s.threads[s.crt].(enabled := false)];
    assert Enabled(stopped) == Enabled(s'.threads);
    assert stopped - {s.crt} == s.threads - {s.crt};
    FirstIsNext(Enabled(stopped), s.crt, s'.crt);
  }

  /** The state ends with its last thread. */
  lemma {:induction false} LastExitEnds(s: State)
    requires Live(s)
    ensures Step(s, Exit) == Ended <==> s.threads.Keys == {s.crt}
  {
    assert s.threads.Keys == {s.crt} + (s.threads.Keys - {s.crt});
    assert |s.threads| == |s.threads.Keys|;
  }

  // ---------- every operation keeps a live state live ----------

  /** When an assertion fails: a thread id used twice, or a waiting list that is not positive. */
  predicate Misused(s: State, op: Op) {
    match op
    case Create(tid) => tid in s.threads
    case Sleep(w) => w == 0
    case NotifyAll(w) => w == 0
    case _ => false
  }

  lemma {:induction false} WokenLive(s: State, w: nat, awake: set<nat>)
    requires Live(s) && awake <= ListOf(s, w)
    ensures Live(Woken(s, w, awake))
  {
    if !(ListOf(s, w) <= awake) {
      var x :| x in ListOf(s, w) && x !in awake;
      assert x in ListOf(s, w) - awake;
    }
  }

  lemma {:induction false} SleptPlaced(s: State, w: nat)
    requires Live(s) && 0 < w && Enabled(Slept(s, w).threads) != {}
    ensures Live(Scheduled(Slept(s, w)).state)
  {
  }

  /** The thread that exits is not the one chosen next, and leaves no trace. */
  lemma {:induction false} ExitLive(s: State)
    requires Live(s)
    ensures Step(s, Exit) != Failed
    ensures Step(s, Exit).Running? ==> Live(Step(s, Exit).state)
  {
  }

  /** From a live state an operation fails exactly on misuse, and otherwise leads to a live state or ends the state. */
  lemma {:induction false} StepKeepsLive(s: State, op: Op)
    requires Live(s)
    ensures Step(s, op) == Failed <==> Misused(s, op)
    ensures Step(s, op).Running? ==> Live(Step(s, op).state)
  {
    match op
    case Create(tid) =>
    case Preempt =>
    case Sleep(w) => if 0 < w && Enabled(Slept(s, w).threads) != {} { SleptPlaced(s, w); }
    case NotifyOne(w) =>
      if ListOf(s, w) != {} {
        LeastExists(ListOf(s, w));
        var t :| IsLeast(ListOf(s, w), t);
        assert forall u :: IsLeast(ListOf(s, w), u) ==> u == t;
        WokenLive(s, w, {t});
      }
    case NotifyAll(w) => if 0 < w { WokenLive(s, w, ListOf(s, w)); }
    case Exit => ExitLive(s);
  }

  /** A hang is the current thread sleeping or exiting while every other thread is in a waiting list. */
  lemma {:induction false} HangIsDeadlock(s: State, op: Op)
    requires Live(s)
    ensures Step(s, op) == Hang <==>
      && ((op.Sleep? && op.wlist != 0) || (op.Exit? && |s.threads| != 1))
      && forall t :: t in s.threads && t != s.crt ==> t in ListOf(s, s.threads[t].waitingList)
  {
    var others := Enabled(s.threads) - {s.crt};
    assert others == {} <==> forall t :: t in s.threads && t != s.crt ==> t in ListOf(s, s.threads[t].waitingList) by {
      forall t | t in s.threads ensures t in Enabled(s.threads) <==> t !in ListOf(s, s.threads[t].waitingList) {
        assert Placed(s, t);
      }
      if others != {} { var t :| t in others; }
      assert forall t :: t in s.threads && t != s.crt ==> (t in others <==> t in Enabled(s.threads));
    }
    match op
    case Sleep(w) => assert Enabled(Slept(s, w).threads) == others;
    case Preempt => assert s.crt in Enabled(s.threads);
    case Exit =>
      assert Enabled(s.threads[s.crt := s.threads[s.crt].(enabled := false)]) == others;
    case _ =>
  }

  // ---------- runs ----------

  ghost function Run(s: State, ops: seq<Op>): Outcome
    requires Live(s)
    decreases |ops|
  {
    if ops == [] then Running(s)
    else
      StepKeepsLive(s, ops[0]);
      var out := Step(s, ops[0]);
      if out.Running? then Run(out.state, ops[1..]) else out
  }

  /** Every state reached by any run is live. */
  lemma {:induction false} RunKeepsLive(s: State, ops: seq<Op>)
    requires Live(s)
    ensures Run(s, ops).Running? ==> Live(Run(s, ops).state)
    decreases |ops|
  {
    if ops != [] {
      StepKeepsLive(s, ops[0]);
      var out := Step(s, ops[0]);
      if out.Running? { RunKeepsLive(out.state, ops[1..]); }
    }
  }

  predicate Schedules(op: Op) {
    op.Preempt? || op.Sleep? || op.Exit?
  }

  ghost function ScheduleCount(ops: seq<Op>): nat {
    if ops == [] then 0 else (if Schedules(ops[0]) then 1 else 0) + ScheduleCount(ops[1..])
  }

  /** The threads whose turn comes before t's. */
  ghost function Ahead(s: State, t: nat): set<nat> {
    AheadOf(s.threads.Keys, s.crt, t)
  }

  ghost function AheadOf(ids: set<nat>, a: nat, t: nat): set<nat> {
    set x | x in ids && Between(a, x, t)
  }

  lemma {:induction false} Passing(ids: set<nat>, a: nat, n: nat, t: nat)
    requires n in ids && Between(a, n, t) && a != t && n != t
    ensures AheadOf(ids, n, t) < AheadOf(ids, a, t)
  {
    assert n in AheadOf(ids, a, t) && n !in AheadOf(ids, n, t);
  }

  lemma {:induction false} ScheduleApproaches(s: State, t: nat)
    requires t in s.threads && s.threads[t].enabled && s.crt != t
    ensures Scheduled(s).Running?
    ensures Scheduled(s).state.crt == t || Scheduled(s).state.crt in Ahead(s, t)
    ensures Scheduled(s).state.crt == t || forall x :: x in s.threads && Between(Scheduled(s).state.crt, x, t) ==>
      Between(s.crt, x, t) && x != Scheduled(s).state.crt
  {
    assert t in Enabled(s.threads);
  }

  /** No operation of another thread disables t, and each schedule either chooses t or passes a thread ahead of t. */
  lemma {:induction false} StepApproaches(s: State, op: Op, t: nat)
    requires Live(s) && t in s.threads && s.threads[t].enabled && s.crt != t
    requires !op.Create? && Step(s, op) != Failed
    ensures Step(s, op).Running?
    ensures t in Step(s, op).state.threads && Step(s, op).state.threads[t].enabled
    ensures Step(s, op).state.crt == t || Ahead(Step(s, op).state, t) <= Ahead(s, t)
    ensures Schedules(op) ==> Step(s, op).state.crt == t || Ahead(Step(s, op).state, t) < Ahead(s, t)
  {
    HangIsDeadlock(s, op);
    assert Placed(s, t);
    Smaller({s.crt, t}, s.threads.Keys);
    var s' := Step(s, op).state;
    match op {
      case Preempt => ScheduleApproaches(s, t);
      case Sleep(w) => ScheduleApproaches(Slept(s, w), t);
      case Exit => ScheduleApproaches(s.(threads := s.threads[s.crt := s.threads[s.crt].(enabled := false)]), t);
      case _ =>
    }
    assert Schedules(op) && s'.crt != t ==> s'.crt in Ahead(s, t) && s'.crt !in Ahead(s', t);
  }

  /**
    An enabled thread is chosen at the latest by the schedule that follows one
    schedule for each thread ahead of it, if no thread is created meanwhile.
   */
  lemma {:induction false} Fair(s: State, ops: seq<Op>, t: nat) returns (k: nat)
    requires Live(s) && t in s.threads && s.threads[t].enabled
    requires (forall op :: op in ops ==> !op.Create?) && Run(s, ops) != Failed
    requires s.crt == t || |Ahead(s, t)| < ScheduleCount(ops)
    ensures k <= |ops| && Run(s, ops[..k]).Running? && Run(s, ops[..k]).state.crt == t
    decreases |ops|
  {
    if s.crt == t {
      k := 0;
    } else {
      StepKeepsLive(s, ops[0]);
      StepApproaches(s, ops[0], t);
      var s' := Step(s, ops[0]).state;
      if s'.crt != t { Smaller(Ahead(s', t), Ahead(s, t)); }
      k := Fair(s', ops[1..], t);
      k := k + 1;
      assert ops[..k][1..] == ops[1..][..k - 1];
    }
  }

  lemma {:induction false} Smaller(a: set<nat>, b: set<nat>)
    requires a <= b
    ensures |a| <= |b| && (a < b ==> |a| < |b|)
  {
    assert b == a + (b - a);
  }

  /** There are at most as many threads ahead as there are threads besides the current one and t. */
  lemma {:induction false} AheadBounded(s: State, t: nat)
    requires Live(s) && t in s.threads && s.crt != t
    ensures |Ahead(s, t)| + 2 <= |s.threads|
  {
    Smaller(Ahead(s, t), s.threads.Keys - {s.crt} - {t});
  }

  /** Without new threads, an enabled thread is chosen within as many schedules as there are threads. */
  lemma {:induction false} ChosenInTime(s: State, ops: seq<Op>, t: nat)
    requires Live(s) && t in s.threads && s.threads[t].enabled
    requires (forall op :: op in ops ==> !op.Create?) && Run(s, ops) != Failed
    requires |s.threads| <= ScheduleCount(ops)
    ensures exists k: nat :: k <= |ops| && Run(s, ops[..k]).Running? && Run(s, ops[..k]).state.crt == t
  {
    if s.crt != t { AheadBounded(s, t); }
    var k := Fair(s, ops, t);
  }

  // ---------- the state that is updated ----------

  /** How an operation left the state: live, ended by its last thread, or ended by a hang. */
  datatype Ending = Goes | Ends | Hangs

  ghost predicate Agrees(out: Outcome, e: Ending, s: State) {
    match out
    case Running(s') => e == Goes && s == s'
    case Ended => e == Ends
    case Hang => e == Hangs
    case Failed => false
  }

  class ExecutionState {
    var threads: map<nat, Thread>
    var waitingLists: map<nat, set<nat>>
    var crtThread: nat
    var wlistCounter: nat

    ghost function View(): State
      reads this
    {
      State(threads, waitingLists, crtThread)
    }

    constructor (tid: nat)
      ensures Live(View()) && threads.Keys == {tid} && wlistCounter == 1
    {
      threads, waitingLists, crtThread, wlistCounter := map[tid := Thread(true, 0)], map[], tid, 1;
    }

    /** Hands out each waiting list once, and never list 0. */
    method GetWaitingList() returns (w: nat)
      requires 0 < wlistCounter
      modifies `wlistCounter
      ensures 0 < w == old(wlistCounter) == wlistCounter - 1
    {
      w := wlistCounter;
      wlistCounter := wlistCounter + 1;
    }

    method CreateThread(tid: nat)
      requires crtThread in threads && !Misused(View(), Create(tid))
      modifies `threads
      ensures Step(old(View()), Create(tid)) == Running(View())
    {
      threads := threads[tid := Thread(true, 0)];
      assert crtThread != tid;
    }

    /** The thread after `it` in the order of ids, or the first one. */
    method NextThread(it: nat) returns (n: nat)
      requires it in threads
      ensures IsFirst(threads.Keys, it, n)
    {
      var above := set x | x in threads && it < x;
      if above != {} {
        LeastExists(above);
        n :| n in above && IsLeast(above, n);
      } else {
        LeastExists(threads.Keys);
        n :| n in threads.Keys && IsLeast(threads.Keys, n);
      }
      forall x | x in threads ensures !Between(it, x, n) {
        assert it < x ==> x in above;
      }
    }

    method CountEnabled() returns (count: nat)
      ensures count == |Enabled(threads)|
    {
      var rest := threads.Keys;
      ghost var seen: set<nat> := {};
      count := 0;
      while rest != {}
        invariant rest <= threads.Keys
        invariant seen == Enabled(threads) - rest && count == |seen|
        decreases rest
      {
        var t :| t in rest;
        if threads[t].enabled {
          count := count + 1;
          seen := seen + {t};
        }
        rest := rest - {t};
      }
      assert seen == Enabled(threads);
    }

    /** Fails exactly when no thread is enabled, and else moves to the first enabled thread after the current one. */
    method Schedule() returns (ok: bool)
      requires crtThread in threads
      modifies `crtThread
      ensures ok ==> Scheduled(old(View())) == Running(View())
      ensures !ok ==> Scheduled(old(View())) == Hang && crtThread == old(crtThread)
    {
      var count := CountEnabled();
      if count == 0 { return false; }
      var it := NextThread(crtThread);
      ghost var goal := NextEnabled(threads, crtThread);
      while !threads[it].enabled
        invariant crtThread == old(crtThread) && it in threads && !Between(crtThread, goal, it)
        decreases !threads[it].enabled, AheadOf(threads.Keys, it, goal)
      {
        var next := NextThread(it);
        if next != goal { Passing(threads.Keys, it, next, goal); }
        it := next;
      }
      assert it in Enabled(threads);
      crtThread := it;
      return true;
    }

    method SleepThread(wlist: nat)
      requires crtThread in threads && threads[crtThread].enabled && 0 < wlist
      modifies `threads, `waitingLists
      ensures View() == Slept(old(View()), wlist)
    {
      threads := threads[crtThread := Thread(false, wlist)];
      var wl := if wlist in waitingLists then waitingLists[wlist] else {};
      waitingLists := waitingLists[wlist := wl + {crtThread}];
    }

    /** Wakes one thread that is waiting in this list, and drops the list when it was the last one. */
    method NotifyOneThread(wlist: nat, tid: nat)
      requires 0 < wlist && wlist in waitingLists && tid in waitingLists[wlist]
      requires tid in threads && !threads[tid].enabled
      modifies `threads, `waitingLists
      ensures View() == Woken(old(View()), wlist, {tid})
    {
      var wl := waitingLists[wlist] - {tid};
      waitingLists := waitingLists[wlist := wl];
      threads := threads[tid := Thread(true, 0)];
      if |wl| == 0 {
        waitingLists := waitingLists - {wlist};
      }
    }

    /** Wakes all threads of the list, in any order, and drops the list. */
    method NotifyAllThreads(wlist: nat)
      requires 0 < wlist && ListOf(View(), wlist) <= threads.Keys
      modifies `threads, `waitingLists
      ensures View() == Woken(old(View()), wlist, ListOf(old(View()), wlist))
    {
      var wl := if wlist in waitingLists then waitingLists[wlist] else {};
      var rest := wl;
      while rest != {}
        invariant rest <= wl && threads.Keys == old(threads).Keys && waitingLists == old(waitingLists)
        invariant forall t :: t in threads ==> threads[t] == if t in wl - rest then Thread(true, 0) else old(threads)[t]
        decreases rest
      {
        var t :| t in rest;
        threads := threads[t := Thread(true, 0)];
        rest := rest - {t};
      }
      waitingLists := waitingLists - {wlist};
      assert threads == Woken(old(View()), wlist, wl).threads;
    }

    method TerminateThread(tid: nat)
      requires tid in threads && tid != crtThread && !threads[tid].enabled && threads[tid].waitingList == 0
      modifies `threads
      ensures threads == old(threads) - {tid}
    {
      threads := threads - {tid};
    }

    method ExecuteThreadExit() returns (e: Ending)
      requires Live(View())
      modifies `threads, `crtThread
      ensures Agrees(Step(old(View()), Exit), e, View())
    {
      if |threads| == 1 { return Ends; }
      var tid := crtThread;
      assert Placed(View(), tid);
      threads := threads[tid := threads[tid].(enabled := false)];
      var ok := Schedule();
      if !ok { return Hangs; }
      TerminateThread(tid);
      return Goes;
    }

    method HandleThreadSleep(wlist: nat) returns (e: Ending)
      requires Live(View()) && 0 < wlist
      modifies this
      ensures Agrees(Step(old(View()), Sleep(wlist)), e, View())
    {
      SleepThread(wlist);
      var ok := Schedule();
      e := if ok then Goes else Hangs;
    }

    /** Wakes the least thread of the list if only one is to be notified. */
    method HandleThreadNotify(wlist: nat, all: bool)
      requires Live(View()) && (all ==> 0 < wlist)
      modifies `threads, `waitingLists
      ensures Step(old(View()), if all then NotifyAll(wlist) else NotifyOne(wlist)) == Running(View())
    {
      StepKeepsLive(View(), if all then NotifyAll(wlist) else NotifyOne(wlist));
      if all {
        NotifyAllThreads(wlist);
      } else {
        var wl := if wlist in waitingLists then waitingLists[wlist] else {};
        if |wl| == 0 {
          waitingLists := waitingLists - {wlist};
        } else {
          LeastExists(wl);
          var first :| first in wl && IsLeast(wl, first);
          assert forall t :: IsLeast(wl, t) ==> t == first;
          NotifyOneThread(wlist, first);
        }
      }
    }

    method Perform(op: Op) returns (e: Ending)
      requires Live(View()) && !Misused(View(), op)
      modifies this
      ensures Agrees(Step(old(View()), op), e, View())
    {
      e := Goes;
      match op
      case Create(tid) => CreateThread(tid);
      case Preempt =>
        var ok := Schedule();
        e := if ok then Goes else Hangs;
      case Sleep(w) => e := HandleThreadSleep(w);
      case NotifyOne(w) => HandleThreadNotify(w, false);
      case NotifyAll(w) => HandleThreadNotify(w, true);
      case Exit => e := ExecuteThreadExit();
    }
  }
}
