/**
  The interprocedural distance to a return: for every instruction the least
  number of instructions to execute until its function returns, calls
  included, computed by passes over all instructions until nothing changes.
  The value 0 stands for "no return is reachable".
 */
module ReturnDistance {

  datatype Kind = Ret | Plain | Call(targets: seq<nat>)

  datatype Instr = Instr(kind: Kind, succs: seq<nat>, fn: nat)

  datatype Func = Declared(comesBack: bool) | Defined(entry: nat)

  datatype Program = Program(instrs: seq<Instr>, funcs: seq<Func>)
  {
    ghost predicate WellFormed() {
      && (forall i :: 0 <= i < |instrs| ==> InRange(instrs[i].succs, |instrs|))
      && (forall i :: 0 <= i < |instrs| && instrs[i].kind.Call? ==> InRange(instrs[i].kind.targets, |funcs|))
      && (forall i :: 0 <= i < |instrs| ==> instrs[i].fn < |funcs| && funcs[instrs[i].fn].Defined?)
      && (forall f :: 0 <= f < |funcs| && funcs[f].Defined? ==>
            funcs[f].entry < |instrs| && instrs[funcs[f].entry].fn == f)
    }
  }

  ghost predicate InRange(xs: seq<nat>, n: nat) {
    forall j :: 0 <= j < |xs| ==> xs[j] < n
  }

  // ---------- executions ----------

  /**
    An execution of exactly k steps leads from pc, with the given return
    addresses, out of the bottom function. A declared function that returns
    counts as one step.
   */
  ghost predicate Reaches(P: Program, pc: nat, stack: seq<nat>, k: nat)
    requires P.WellFormed()
    decreases k, 0
  {
    && k > 0 && pc < |P.instrs|
    && match P.instrs[pc].kind
       case Ret => if stack == [] then k == 1 else Reaches(P, stack[0], stack[1..], k - 1)
       case Plain => exists j :: 0 <= j < |P.instrs[pc].succs| && Reaches(P, P.instrs[pc].succs[j], stack, k - 1)
       case Call(targets) => exists t, j ::
         && 0 <= t < |targets| && 0 <= j < |P.instrs[pc].succs|
         && Enters(P, targets[t], P.instrs[pc].succs[j], stack, k - 1)
  }

  /** k steps lead from the start of function f, called with return address s, out of the bottom function. */
  ghost predicate Enters(P: Program, f: nat, s: nat, stack: seq<nat>, k: nat)
    requires P.WellFormed() && f < |P.funcs|
    decreases k, 1
  {
    match P.funcs[f]
    case Declared(comesBack) => comesBack && k > 0 && Reaches(P, s, stack, k - 1)
    case Defined(entry) => Reaches(P, entry, [s] + stack, k)
  }

  // ---------- the same as runs of a machine ----------

  /** At an instruction, in a declared function that will go back to an instruction, or out of the bottom function. */
  datatype Config = At(pc: nat, stack: seq<nat>) | Outside(back: nat, stack: seq<nat>) | Done

  /** The machine executes one instruction, or comes back from a declared function. */
  ghost predicate Moves(P: Program, c: Config, c': Config)
    requires P.WellFormed()
  {
    match c
    case Done => false
    case Outside(back, stack) => c' == At(back, stack)
    case At(pc, stack) =>
      && pc < |P.instrs|
      && match P.instrs[pc].kind
         case Ret => c' == if stack == [] then Done else At(stack[0], stack[1..])
         case Plain => exists j :: 0 <= j < |P.instrs[pc].succs| && c' == At(P.instrs[pc].succs[j], stack)
         case Call(targets) => exists t, j ::
           0 <= t < |targets| && 0 <= j < |P.instrs[pc].succs| && Calls(P, targets[t], P.instrs[pc].succs[j], stack, c')
  }

  ghost predicate Calls(P: Program, f: nat, s: nat, stack: seq<nat>, c: Config)
    requires P.WellFormed() && f < |P.funcs|
  {
    match P.funcs[f]
    case Declared(comesBack) => comesBack && c == Outside(s, stack)
    case Defined(entry) => c == At(entry, [s] + stack)
  }

  /** A run from c out of the bottom function. */
  ghost predicate RunsOut(P: Program, cs: seq<Config>, c: Config)
    requires P.WellFormed()
  {
    && cs != [] && cs[0] == c && cs[|cs| - 1] == Done
    && forall i :: 0 <= i < |cs| - 1 ==> Moves(P, cs[i], cs[i+1])
  }

  lemma {:induction false} RunLonger(P: Program, cs: seq<Config>, c: Config, c': Config)
    requires P.WellFormed() && RunsOut(P, cs, c') && Moves(P, c, c')
    ensures RunsOut(P, [c] + cs, c)
  {
    var run := [c] + cs;
    forall i | 0 <= i < |run| - 1 ensures Moves(P, run[i], run[i+1]) {
      if i > 0 { assert run[i] == cs[i-1] && run[i+1] == cs[i]; }
    }
  }

  lemma {:induction false} RunShorter(P: Program, cs: seq<Config>, c: Config)
    requires P.WellFormed() && RunsOut(P, cs, c) && c != Done
    ensures |cs| > 1 && Moves(P, c, cs[1]) && RunsOut(P, cs[1..], cs[1])
  {
    var rest := cs[1..];
    assert |cs| > 1;
    forall i | 0 <= i < |rest| - 1 ensures Moves(P, rest[i], rest[i+1]) {
      assert Moves(P, cs[i+1], cs[i+2]);
    }
  }

  lemma {:induction false} RunOfExecution(P: Program, pc: nat, stack: seq<nat>, k: nat) returns (cs: seq<Config>)
    requires P.WellFormed() && Reaches(P, pc, stack, k)
    ensures |cs| == k + 1 && RunsOut(P, cs, At(pc, stack))
    decreases k, 1
  {
    var c' := Done;
    cs := [Done];
    match P.instrs[pc].kind {
      case Ret =>
        if stack != [] {
          cs := RunOfExecution(P, stack[0], stack[1..], k - 1);
          c' := At(stack[0], stack[1..]);
        }
      case Plain =>
        var j :| 0 <= j < |P.instrs[pc].succs| && Reaches(P, P.instrs[pc].succs[j], stack, k - 1);
        cs := RunOfExecution(P, P.instrs[pc].succs[j], stack, k - 1);
        c' := At(P.instrs[pc].succs[j], stack);
      case Call(targets) =>
        var t, j :| 0 <= t < |targets| && 0 <= j < |P.instrs[pc].succs| &&
          Enters(P, targets[t], P.instrs[pc].succs[j], stack, k - 1);
        cs, c' := RunOfCall(P, targets[t], P.instrs[pc].succs[j], stack, k - 1);
    }
    RunLonger(P, cs, At(pc, stack), c');
    cs := [At(pc, stack)] + cs;
  }

  lemma {:induction false} RunOfCall(P: Program, f: nat, s: nat, stack: seq<nat>, k: nat)
    returns (cs: seq<Config>, c: Config)
    requires P.WellFormed() && f < |P.funcs| && Enters(P, f, s, stack, k)
    ensures |cs| == k + 1 && RunsOut(P, cs, c) && Calls(P, f, s, stack, c)
    decreases k, 2
  {
    match P.funcs[f]
    case Declared(_) =>
      cs := RunOfExecution(P, s, stack, k - 1);
      c := Outside(s, stack);
      RunLonger(P, cs, c, At(s, stack));
      cs := [c] + cs;
    case Defined(entry) =>
      cs := RunOfExecution(P, entry, [s] + stack, k);
      c := At(entry, [s] + stack);
  }

  lemma {:induction false} ExecutionOfRun(P: Program, cs: seq<Config>, pc: nat, stack: seq<nat>)
    requires P.WellFormed() && RunsOut(P, cs, At(pc, stack))
    ensures Reaches(P, pc, stack, |cs| - 1)
    decreases |cs|, 0
  {
    RunShorter(P, cs, At(pc, stack));
    match P.instrs[pc].kind {
      case Ret =>
        if stack == [] {
          assert |cs| == 2 by { assert |cs| > 2 ==> Moves(P, cs[1], cs[2]); }
        } else {
          ExecutionOfRun(P, cs[1..], stack[0], stack[1..]);
        }
      case Plain =>
        var j :| 0 <= j < |P.instrs[pc].succs| && cs[1] == At(P.instrs[pc].succs[j], stack);
        ExecutionOfRun(P, cs[1..], P.instrs[pc].succs[j], stack);
      case Call(targets) =>
        var t, j :| 0 <= t < |targets| && 0 <= j < |P.instrs[pc].succs| &&
          Calls(P, targets[t], P.instrs[pc].succs[j], stack, cs[1]);
        CallOfRun(P, targets[t], P.instrs[pc].succs[j], stack, cs[1..]);
        assert Enters(P, targets[t], P.instrs[pc].succs[j], stack, |cs| - 1 - 1);
    }
  }

  lemma {:induction false} CallOfRun(P: Program, f: nat, s: nat, stack: seq<nat>, cs: seq<Config>)
    requires P.WellFormed() && f < |P.funcs| && cs != [] && RunsOut(P, cs, cs[0]) && Calls(P, f, s, stack, cs[0])
    ensures Enters(P, f, s, stack, |cs| - 1)
    decreases |cs|, 1
  {
    match P.funcs[f]
    case Declared(_) =>
      RunShorter(P, cs, cs[0]);
      ExecutionOfRun(P, cs[1..], s, stack);
    case Defined(entry) =>
      ExecutionOfRun(P, cs, entry, [s] + stack);
  }

  /** The executions counted are the runs of the machine, move by move. */
  lemma {:induction false} ExecutionsAreRuns(P: Program, pc: nat, stack: seq<nat>, k: nat)
    requires P.WellFormed()
    ensures Reaches(P, pc, stack, k) <==> exists cs :: |cs| == k + 1 && RunsOut(P, cs, At(pc, stack))
  {
    if Reaches(P, pc, stack, k) { var cs := RunOfExecution(P, pc, stack, k); }
    if cs :| |cs| == k + 1 && RunsOut(P, cs, At(pc, stack)) { ExecutionOfRun(P, cs, pc, stack); }
  }

  /** d is 0 and no execution from i returns, or d is the length of a shortest one that does. */
  ghost predicate ShortestReturn(P: Program, i: nat, d: nat)
    requires P.WellFormed()
  {
    if d == 0 then forall k :: !Reaches(P, i, [], k)
    else Reaches(P, i, [], d) && forall k :: Reaches(P, i, [], k) ==> d <= k
  }

  /** m steps lead from the return into the given stack out of the bottom function. */
  ghost predicate Resumes(P: Program, stack: seq<nat>, m: nat)
    requires P.WellFormed()
  {
    if stack == [] then m == 0 else Reaches(P, stack[0], stack[1..], m)
  }

  /** From i, d steps lead to the return of i's function, whatever the stack. */
  ghost predicate Passes(P: Program, i: nat, d: nat)
    requires P.WellFormed()
  {
    forall stack, m :: Resumes(P, stack, m) ==> Reaches(P, i, stack, d + m)
  }

  ghost predicate FunctionPasses(P: Program, f: nat, d: nat)
    requires P.WellFormed() && f < |P.funcs|
  {
    match P.funcs[f]
    case Declared(comesBack) => comesBack && d == 1
    case Defined(entry) => Passes(P, entry, d)
  }

  lemma {:induction false} ReturnPasses(P: Program, i: nat)
    requires P.WellFormed() && i < |P.instrs| && P.instrs[i].kind.Ret?
    ensures Passes(P, i, 1)
  {
  }

  lemma {:induction false} PlainPasses(P: Program, i: nat, j: nat, d: nat)
    requires P.WellFormed() && i < |P.instrs| && P.instrs[i].kind.Plain? && j < |P.instrs[i].succs|
    requires Passes(P, P.instrs[i].succs[j], d)
    ensures Passes(P, i, 1 + d)
  {
    forall stack, m | Resumes(P, stack, m) ensures Reaches(P, i, stack, 1 + d + m) {
      assert Reaches(P, P.instrs[i].succs[j], stack, d + m);
    }
  }

  lemma {:induction false} EntersFunction(P: Program, f: nat, e: nat, s: nat, stack: seq<nat>, m: nat)
    requires P.WellFormed() && f < |P.funcs| && FunctionPasses(P, f, e) && Reaches(P, s, stack, m)
    ensures Enters(P, f, s, stack, e + m)
  {
    if P.funcs[f].Defined? {
      assert ([s] + stack)[1..] == stack;
      assert Resumes(P, [s] + stack, m);
    }
  }

  lemma {:induction false} CallPasses(P: Program, i: nat, t: nat, e: nat, j: nat, d: nat)
    requires P.WellFormed() && i < |P.instrs| && P.instrs[i].kind.Call?
    requires t < |P.instrs[i].kind.targets| && j < |P.instrs[i].succs|
    requires FunctionPasses(P, P.instrs[i].kind.targets[t], e) && Passes(P, P.instrs[i].succs[j], d)
    ensures Passes(P, i, 1 + e + d)
  {
    var f, s := P.instrs[i].kind.targets[t], P.instrs[i].succs[j];
    forall stack, m | Resumes(P, stack, m) ensures Reaches(P, i, stack, 1 + e + d + m) {
      assert Reaches(P, s, stack, d + m);
      EntersFunction(P, f, e, s, stack, d + m);
      assert Enters(P, P.instrs[i].kind.targets[t], P.instrs[i].succs[j], stack, (1 + e + d + m) - 1);
    }
  }

  // ---------- the equations the passes work towards ----------

  /** The least cost of a call: one for the call itself plus the cheapest returning target; 0 if none returns. */
  function CheapestCall(targets: seq<nat>, shortest: seq<nat>): (r: nat)
    requires InRange(targets, |shortest|)
    ensures r == 0 <==> forall t :: 0 <= t < |targets| ==> shortest[targets[t]] == 0
    ensures r != 0 ==> exists t :: 0 <= t < |targets| && shortest[targets[t]] != 0 && r == 1 + shortest[targets[t]]
    ensures forall t :: 0 <= t < |targets| && shortest[targets[t]] != 0 ==> r <= 1 + shortest[targets[t]]
  {
    if targets == [] then 0
    else
      var n := |targets| - 1;
      var r := CheapestCall(targets[..n], shortest);
      var d := shortest[targets[n]];
      if d != 0 && (r == 0 || 1 + d < r) then 1 + d else r
  }

  function StepCost(P: Program, i: nat, shortest: seq<nat>): nat
    requires P.WellFormed() && i < |P.instrs| && |shortest| == |P.funcs|
  {
    match P.instrs[i].kind
    case Call(targets) => CheapestCall(targets, shortest)
    case _ => 1
  }

  /** No single update could improve instruction i. */
  ghost predicate Settled(P: Program, dist: seq<nat>, shortest: seq<nat>, i: nat)
    requires P.WellFormed() && |dist| == |P.instrs| && |shortest| == |P.funcs| && i < |P.instrs|
  {
    var c := StepCost(P, i, shortest);
    && (c != 0 ==> forall j :: 0 <= j < |P.instrs[i].succs| && dist[P.instrs[i].succs[j]] != 0 ==>
          dist[i] != 0 && dist[i] <= c + dist[P.instrs[i].succs[j]])
    && (c != 0 && P.funcs[P.instrs[i].fn].entry == i ==> shortest[P.instrs[i].fn] == dist[i])
  }

  /** How the two tables relate at all times. */
  ghost predicate Consistent(P: Program, dist: seq<nat>, shortest: seq<nat>)
    requires P.WellFormed()
  {
    && |dist| == |P.instrs| && |shortest| == |P.funcs|
    && (forall i :: 0 <= i < |dist| && dist[i] != 0 ==> StepCost(P, i, shortest) != 0)
    && (forall i :: 0 <= i < |dist| && P.instrs[i].kind.Ret? ==> dist[i] == 1)
    && (forall f :: 0 <= f < |shortest| ==>
          match P.funcs[f]
          case Declared(comesBack) => shortest[f] == if comesBack then 1 else 0
          case Defined(entry) => shortest[f] != 0 ==> dist[entry] != 0 && dist[entry] <= shortest[f])
  }

  /** Every finite value is the length of some execution. */
  ghost predicate Attained(P: Program, dist: seq<nat>, shortest: seq<nat>)
    requires P.WellFormed() && |shortest| == |P.funcs|
  {
    && (forall i :: 0 <= i < |dist| && dist[i] != 0 ==> Passes(P, i, dist[i]))
    && (forall f :: 0 <= f < |shortest| && shortest[f] != 0 ==> FunctionPasses(P, f, shortest[f]))
  }

  ghost predicate AllSettled(P: Program, dist: seq<nat>, shortest: seq<nat>)
    requires P.WellFormed() && |dist| == |P.instrs| && |shortest| == |P.funcs|
  {
    forall i :: 0 <= i < |dist| ==> Settled(P, dist, shortest, i)
  }

  // ---------- settled values are lower bounds ----------

  ghost function Total(dist: seq<nat>, stack: seq<nat>): nat
    requires InRange(stack, |dist|)
  {
    if stack == [] then 0 else dist[stack[0]] + Total(dist, stack[1..])
  }

  /** The value of an instruction is at most the cost of a step plus the value reached by it. */
  lemma {:induction false} StepPays(P: Program, dist: seq<nat>, shortest: seq<nat>, pc: nat, j: nat, cost: nat)
    requires P.WellFormed() && |dist| == |P.instrs| && |shortest| == |P.funcs| && pc < |dist|
    requires Settled(P, dist, shortest, pc) && 0 < StepCost(P, pc, shortest) <= cost
    requires j < |P.instrs[pc].succs| && dist[P.instrs[pc].succs[j]] != 0
    ensures dist[pc] != 0 && dist[pc] <= cost + dist[P.instrs[pc].succs[j]]
  {
  }

  /** The entry's value prices the call. */
  lemma {:induction false} CallPays(P: Program, dist: seq<nat>, shortest: seq<nat>, pc: nat, t: nat, j: nat)
    requires P.WellFormed() && Consistent(P, dist, shortest) && AllSettled(P, dist, shortest)
    requires pc < |dist| && P.instrs[pc].kind.Call? && t < |P.instrs[pc].kind.targets|
    requires j < |P.instrs[pc].succs| && dist[P.instrs[pc].succs[j]] != 0
    requires var f := P.funcs[P.instrs[pc].kind.targets[t]];
      if f.Declared? then f.comesBack else dist[f.entry] != 0
    ensures var f := P.funcs[P.instrs[pc].kind.targets[t]];
      var body := if f.Declared? then 1 else dist[f.entry];
      dist[pc] != 0 && dist[pc] <= 1 + body + dist[P.instrs[pc].succs[j]]
  {
    var f := P.instrs[pc].kind.targets[t];
    assert Settled(P, dist, shortest, pc);
    if P.funcs[f].Defined? { assert Settled(P, dist, shortest, P.funcs[f].entry); }
    StepPays(P, dist, shortest, pc, j, 1 + shortest[f]);
  }

  /** Potential argument: each step pays for at most one unit of the distances along the stack. */
  lemma {:induction false} ExecutionsAreNoShorter(
    P: Program, dist: seq<nat>, shortest: seq<nat>, pc: nat, stack: seq<nat>, k: nat)
    requires P.WellFormed() && Consistent(P, dist, shortest) && AllSettled(P, dist, shortest)
    requires Reaches(P, pc, stack, k)
    ensures dist[pc] != 0
    ensures InRange(stack, |dist|) && dist[pc] + Total(dist, stack) <= k
    ensures forall j :: 0 <= j < |stack| ==> dist[stack[j]] != 0
    decreases k
  {
    match P.instrs[pc].kind
    case Ret =>
      if stack != [] {
        ExecutionsAreNoShorter(P, dist, shortest, stack[0], stack[1..], k - 1);
        PushedStack(dist, stack[0], stack[1..]);
        assert [stack[0]] + stack[1..] == stack;
      }
    case Plain =>
      var j :| 0 <= j < |P.instrs[pc].succs| && Reaches(P, P.instrs[pc].succs[j], stack, k - 1);
      ExecutionsAreNoShorter(P, dist, shortest, P.instrs[pc].succs[j], stack, k - 1);
      assert Settled(P, dist, shortest, pc);
      StepPays(P, dist, shortest, pc, j, 1);
    case Call(targets) =>
      CallsAreNoShorter(P, dist, shortest, pc, stack, k);
  }

  lemma {:induction false} CallsAreNoShorter(
    P: Program, dist: seq<nat>, shortest: seq<nat>, pc: nat, stack: seq<nat>, k: nat)
    requires P.WellFormed() && Consistent(P, dist, shortest) && AllSettled(P, dist, shortest)
    requires Reaches(P, pc, stack, k) && P.instrs[pc].kind.Call?
    ensures dist[pc] != 0
    ensures InRange(stack, |dist|) && dist[pc] + Total(dist, stack) <= k
    ensures forall j :: 0 <= j < |stack| ==> dist[stack[j]] != 0
    decreases k, 0
  {
    var targets := P.instrs[pc].kind.targets;
    var t, j :|
      0 <= t < |targets| && 0 <= j < |P.instrs[pc].succs| && Enters(P, targets[t], P.instrs[pc].succs[j], stack, k - 1);
    var s := P.instrs[pc].succs[j];
    match P.funcs[targets[t]]
    case Declared(_) =>
      ExecutionsAreNoShorter(P, dist, shortest, s, stack, k - 2);
      CallPays(P, dist, shortest, pc, t, j);
    case Defined(entry) =>
      ExecutionsAreNoShorter(P, dist, shortest, entry, [s] + stack, k - 1);
      PushedStack(dist, s, stack);
      CallPays(P, dist, shortest, pc, t, j);
  }

  lemma PushedStack(dist: seq<nat>, s: nat, stack: seq<nat>)
    ensures InRange([s] + stack, |dist|) <==> s < |dist| && InRange(stack, |dist|)
    ensures InRange([s] + stack, |dist|) ==>
      && Total(dist, [s] + stack) == dist[s] + Total(dist, stack)
      && ((forall j :: 0 <= j < |[s] + stack| ==> dist[([s] + stack)[j]] != 0) <==>
          dist[s] != 0 && forall j :: 0 <= j < |stack| ==> dist[stack[j]] != 0)
  {
    var st := [s] + stack;
    assert st[0] == s && st[1..] == stack;
    assert forall j :: 0 <= j < |stack| ==> stack[j] == st[j + 1];
  }

  // ---------- progress ----------

  ghost function Zeros(s: seq<nat>): nat {
    if s == [] then 0 else (if s[0] == 0 then 1 else 0) + Zeros(s[1..])
  }

  ghost function Sum(s: seq<nat>): nat {
    if s == [] then 0 else s[0] + Sum(s[1..])
  }

  lemma {:induction false} UpdateProgress(s: seq<nat>, i: nat, v: nat)
    requires i < |s|
    ensures Zeros(s[i := v]) == Zeros(s) - (if s[i] == 0 then 1 else 0) + (if v == 0 then 1 else 0)
    ensures Sum(s[i := v]) == Sum(s) - s[i] + v
  {
    if i > 0 {
      UpdateProgress(s[1..], i - 1, v);
      assert s[i := v][1..] == s[1..][i - 1 := v];
    } else {
      assert s[i := v][1..] == s[1..];
    }
  }

  /** A finite value is better than 0, a smaller one better than a larger one. */
  ghost predicate NoWorse(a: nat, b: nat) {
    a == b || (a != 0 && (b == 0 || a < b))
  }

  // ---------- one instruction ----------

  /** `best` is the cost of a step from i to its j-th successor plus the value there. */
  ghost predicate Through(P: Program, dist: seq<nat>, i: nat, j: nat, cost: nat, best: nat)
    requires P.WellFormed() && |dist| == |P.instrs| && i < |dist| && j < |P.instrs[i].succs|
  {
    var s := P.instrs[i].succs[j];
    dist[s] != 0 && best == cost + dist[s]
  }

  /** The best value for i: its own, or the cost of a step plus the value of some successor. */
  method BestFor(P: Program, dist: seq<nat>, i: nat, cost: nat) returns (best: nat)
    requires P.WellFormed() && |dist| == |P.instrs| && i < |dist| && cost != 0
    ensures NoWorse(best, dist[i])
    ensures best != dist[i] ==> exists j :: 0 <= j < |P.instrs[i].succs| && Through(P, dist, i, j, cost, best)
    ensures forall j :: 0 <= j < |P.instrs[i].succs| && dist[P.instrs[i].succs[j]] != 0 ==>
      best != 0 && best <= cost + dist[P.instrs[i].succs[j]]
  {
    best := dist[i];
    var succs := P.instrs[i].succs;
    for j := 0 to |succs|
      invariant NoWorse(best, dist[i])
      invariant best != dist[i] ==> exists l :: 0 <= l < |succs| && Through(P, dist, i, l, cost, best)
      invariant forall l :: 0 <= l < j && dist[succs[l]] != 0 ==> best != 0 && best <= cost + dist[succs[l]]
    {
      var d := dist[succs[j]];
      if d != 0 {
        var val := cost + d;
        if best == 0 || val < best {
          best := val;
          assert Through(P, dist, i, j, cost, best);
        }
      }
    }
  }

  /** The loop over the possible callees of one call. */
  method CostOfCall(targets: seq<nat>, shortest: seq<nat>) returns (best: nat)
    requires InRange(targets, |shortest|)
    ensures best == CheapestCall(targets, shortest)
  {
    best := 0;
    for j := 0 to |targets|
      invariant best == CheapestCall(targets[..j], shortest)
    {
      var d := shortest[targets[j]];
      assert targets[..j + 1][..j] == targets[..j];
      if d != 0 {
        d := 1 + d;
        if best == 0 || d < best {
          best := d;
        }
      }
    }
    assert targets[..|targets|] == targets;
  }

  lemma {:induction false} BestPasses(P: Program, dist: seq<nat>, shortest: seq<nat>, i: nat, j: nat, best: nat)
    requires P.WellFormed() && |dist| == |P.instrs| && |shortest| == |P.funcs| && Attained(P, dist, shortest)
    requires i < |dist| && !P.instrs[i].kind.Ret? && StepCost(P, i, shortest) != 0
    requires j < |P.instrs[i].succs| && Through(P, dist, i, j, StepCost(P, i, shortest), best)
    ensures Passes(P, i, best)
  {
    var d := dist[P.instrs[i].succs[j]];
    assert Passes(P, P.instrs[i].succs[j], d);
    if P.instrs[i].kind.Plain? {
      PlainPasses(P, i, j, d);
    } else {
      BestCallPasses(P, shortest, i, j, d);
    }
  }

  lemma {:induction false} BestCallPasses(P: Program, shortest: seq<nat>, i: nat, j: nat, d: nat)
    requires P.WellFormed() && |shortest| == |P.funcs| && i < |P.instrs| && P.instrs[i].kind.Call?
    requires forall f :: 0 <= f < |shortest| && shortest[f] != 0 ==> FunctionPasses(P, f, shortest[f])
    requires StepCost(P, i, shortest) != 0 && j < |P.instrs[i].succs| && Passes(P, P.instrs[i].succs[j], d)
    ensures Passes(P, i, StepCost(P, i, shortest) + d)
  {
    var t := CheapestTarget(P.instrs[i].kind.targets, shortest);
    CallPasses(P, i, t, shortest[P.instrs[i].kind.targets[t]], j, d);
  }

  lemma {:induction false} CheapestTarget(targets: seq<nat>, shortest: seq<nat>) returns (t: nat)
    requires InRange(targets, |shortest|) && CheapestCall(targets, shortest) != 0
    ensures t < |targets| && shortest[targets[t]] != 0 && CheapestCall(targets, shortest) == 1 + shortest[targets[t]]
  {
    t :| 0 <= t < |targets| && shortest[targets[t]] != 0 && CheapestCall(targets, shortest) == 1 + shortest[targets[t]];
  }

  /** The function table after instruction i got the value `best`. */
  function ShortestAfter(P: Program, shortest: seq<nat>, i: nat, best: nat): (r: seq<nat>)
    requires P.WellFormed() && i < |P.instrs| && |shortest| == |P.funcs|
    ensures |r| == |shortest|
  {
    var f := P.instrs[i].fn;
    if P.funcs[f].entry == i then shortest[f := best] else shortest
  }

  /** Improving one instruction, and the function it is the entry of, keeps all values attained. */
  lemma {:induction false} ImprovementAttained(P: Program, dist: seq<nat>, shortest: seq<nat>, i: nat, best: nat)
    requires P.WellFormed() && |dist| == |P.instrs| && |shortest| == |P.funcs| && i < |dist|
    requires best != 0 ==> Passes(P, i, best)
    requires Attained(P, dist, shortest)
    ensures Attained(P, dist[i := best], ShortestAfter(P, shortest, i, best))
  {
  }

  /** Better function values keep calls possible. */
  lemma {:induction false} CostStays(P: Program, shortest: seq<nat>, shortest': seq<nat>, i: nat)
    requires P.WellFormed() && i < |P.instrs| && |shortest| == |shortest'| == |P.funcs|
    requires forall f :: 0 <= f < |shortest| && shortest[f] != 0 ==> shortest'[f] != 0
    requires StepCost(P, i, shortest) != 0
    ensures StepCost(P, i, shortest') != 0
  {
    if P.instrs[i].kind.Call? {
      var targets := P.instrs[i].kind.targets;
      var t :| 0 <= t < |targets| && shortest[targets[t]] != 0;
      assert shortest'[targets[t]] != 0;
    }
  }

  lemma {:induction false} ImprovementConsistent(P: Program, dist: seq<nat>, shortest: seq<nat>, i: nat, best: nat)
    requires P.WellFormed() && Consistent(P, dist, shortest) && i < |dist|
    requires StepCost(P, i, shortest) != 0 && NoWorse(best, dist[i])
    ensures Consistent(P, dist[i := best], ShortestAfter(P, shortest, i, best))
  {
    var dist', shortest' := dist[i := best], ShortestAfter(P, shortest, i, best);
    assert forall f :: 0 <= f < |shortest| && shortest[f] != 0 ==> shortest'[f] != 0;
    forall j | 0 <= j < |dist| && dist'[j] != 0 ensures StepCost(P, j, shortest') != 0 {
      CostStays(P, shortest, shortest', j);
    }
  }

  // ---------- the passes ----------

  /** The shortest path through a function: through its entry, or one step if it is only declared. */
  function PathThrough(f: Func, dist: seq<nat>): nat
    requires f.Defined? ==> f.entry < |dist|
  {
    match f
    case Declared(comesBack) => if comesBack then 1 else 0
    case Defined(entry) => dist[entry]
  }

  /**
    The computed values are exact: 0 where no execution reaches the return of
    the function, and otherwise the length of a shortest one.
   */
  method ComputeReturnDistances(P: Program) returns (dist: seq<nat>, shortest: seq<nat>)
    requires P.WellFormed()
    ensures |dist| == |P.instrs| && |shortest| == |P.funcs|
    ensures forall i :: 0 <= i < |dist| ==> ShortestReturn(P, i, dist[i])
    ensures forall f :: 0 <= f < |shortest| ==> shortest[f] == PathThrough(P.funcs[f], dist)
  {
    shortest := seq(|P.funcs|, f requires 0 <= f < |P.funcs| =>
      match P.funcs[f] case Declared(comesBack) => (if comesBack then 1 else 0) case Defined(_) => 0);
    dist := seq(|P.instrs|, i requires 0 <= i < |P.instrs| => if P.instrs[i].kind.Ret? then 1 else 0);
    StartAttained(P, dist, shortest);
    var changed := true;
    while changed
      invariant Consistent(P, dist, shortest) && Attained(P, dist, shortest)
      invariant !changed ==> AllSettled(P, dist, shortest)
      decreases Zeros(dist) + Zeros(shortest), Sum(dist) + Sum(shortest), if changed then 1 else 0
    {
      dist, shortest, changed := Pass(P, dist, shortest);
    }
    forall i | 0 <= i < |dist| ensures ShortestReturn(P, i, dist[i]) {
      Exact(P, dist, shortest, i);
    }
    FunctionsExact(P, dist, shortest);
  }

  lemma {:induction false} StartAttained(P: Program, dist: seq<nat>, shortest: seq<nat>)
    requires P.WellFormed() && |dist| == |P.instrs| && |shortest| == |P.funcs|
    requires forall i :: 0 <= i < |dist| ==> dist[i] == if P.instrs[i].kind.Ret? then 1 else 0
    requires forall f :: 0 <= f < |shortest| ==>
      shortest[f] == if P.funcs[f].Declared? && P.funcs[f].comesBack then 1 else 0
    ensures Consistent(P, dist, shortest) && Attained(P, dist, shortest)
  {
    forall i | 0 <= i < |dist| && dist[i] != 0 ensures Passes(P, i, dist[i]) { ReturnPasses(P, i); }
  }

  lemma {:induction false} FunctionsExact(P: Program, dist: seq<nat>, shortest: seq<nat>)
    requires P.WellFormed() && Consistent(P, dist, shortest) && AllSettled(P, dist, shortest)
    ensures forall f :: 0 <= f < |shortest| ==> shortest[f] == PathThrough(P.funcs[f], dist)
  {
    forall f | 0 <= f < |shortest| && P.funcs[f].Defined? ensures shortest[f] == dist[P.funcs[f].entry] {
      assert Settled(P, dist, shortest, P.funcs[f].entry);
    }
  }

  lemma {:induction false} Exact(P: Program, dist: seq<nat>, shortest: seq<nat>, i: nat)
    requires P.WellFormed() && Consistent(P, dist, shortest) && Attained(P, dist, shortest)
    requires AllSettled(P, dist, shortest) && i < |dist|
    ensures ShortestReturn(P, i, dist[i])
  {
    forall k | Reaches(P, i, [], k) ensures dist[i] != 0 && dist[i] <= k {
      ExecutionsAreNoShorter(P, dist, shortest, i, [], k);
    }
    if dist[i] != 0 {
      assert Resumes(P, [], 0);
      assert Reaches(P, i, [], dist[i] + 0);
    }
  }

  /** One pass over all instructions, last one first. */
  method Pass(P: Program, dist0: seq<nat>, shortest0: seq<nat>)
    returns (dist: seq<nat>, shortest: seq<nat>, changed: bool)
    requires P.WellFormed() && Consistent(P, dist0, shortest0) && Attained(P, dist0, shortest0)
    ensures Consistent(P, dist, shortest) && Attained(P, dist, shortest)
    ensures !changed ==> dist == dist0 && shortest == shortest0 && AllSettled(P, dist, shortest)
    ensures changed ==> Lower(dist, shortest, dist0, shortest0)
  {
    dist, shortest, changed := dist0, shortest0, false;
    for n := |P.instrs| downto 0
      invariant Consistent(P, dist, shortest) && Attained(P, dist, shortest)
      invariant !changed ==> dist == dist0 && shortest == shortest0
      invariant !changed ==> forall i :: n <= i < |dist| ==> Settled(P, dist, shortest, i)
      invariant changed ==> Lower(dist, shortest, dist0, shortest0)
    {
      var improved;
      dist, shortest, improved := Update(P, dist, shortest, n);
      changed := changed || improved;
    }
  }

  /** One step of a pass: instruction n. */
  method Update(P: Program, dist0: seq<nat>, shortest0: seq<nat>, n: nat)
    returns (dist: seq<nat>, shortest: seq<nat>, changed: bool)
    requires P.WellFormed() && Consistent(P, dist0, shortest0) && Attained(P, dist0, shortest0) && n < |dist0|
    ensures Consistent(P, dist, shortest) && Attained(P, dist, shortest)
    ensures !changed ==> dist == dist0 && shortest == shortest0 && Settled(P, dist, shortest, n)
    ensures changed ==> Lower(dist, shortest, dist0, shortest0)
  {
    dist, shortest, changed := dist0, shortest0, false;
    var cost;
    if P.instrs[n].kind.Call? {
      cost := CostOfCall(P.instrs[n].kind.targets, shortest);
    } else {
      cost := 1;
    }
    if cost != 0 {
      var cur := dist[n];
      var best := BestFor(P, dist, n, cost);
      NewValuePasses(P, dist, shortest, n, best);
      var f := P.instrs[n].fn;
      if best != cur || (P.funcs[f].entry == n && shortest[f] != best) {
        ImprovementAttained(P, dist, shortest, n, best);
        ImprovementConsistent(P, dist, shortest, n, best);
        ImprovementLowers(P, dist, shortest, n, best);
        dist := dist[n := best];
        changed := true;
        if P.funcs[f].entry == n {
          shortest := shortest[f := best];
        }
      }
    }
  }

  lemma {:induction false} NewValuePasses(P: Program, dist: seq<nat>, shortest: seq<nat>, i: nat, best: nat)
    requires P.WellFormed() && Consistent(P, dist, shortest) && Attained(P, dist, shortest) && i < |dist|
    requires StepCost(P, i, shortest) != 0 && NoWorse(best, dist[i])
    requires best != dist[i] ==>
      exists j :: 0 <= j < |P.instrs[i].succs| && Through(P, dist, i, j, StepCost(P, i, shortest), best)
    ensures best != 0 ==> Passes(P, i, best)
  {
    if best != dist[i] {
      var j :| 0 <= j < |P.instrs[i].succs| && Through(P, dist, i, j, StepCost(P, i, shortest), best);
      BestPasses(P, dist, shortest, i, j, best);
    }
  }

  /** Fewer unreachable entries, or as many and a smaller sum. */
  ghost predicate Lower(dist: seq<nat>, shortest: seq<nat>, dist0: seq<nat>, shortest0: seq<nat>) {
    var z, z0 := Zeros(dist) + Zeros(shortest), Zeros(dist0) + Zeros(shortest0);
    z < z0 || (z == z0 && Sum(dist) + Sum(shortest) < Sum(dist0) + Sum(shortest0))
  }

  lemma {:induction false} ImprovementLowers(P: Program, dist: seq<nat>, shortest: seq<nat>, i: nat, best: nat)
    requires P.WellFormed() && Consistent(P, dist, shortest) && i < |dist| && NoWorse(best, dist[i])
    requires best != dist[i] || (P.funcs[P.instrs[i].fn].entry == i && shortest[P.instrs[i].fn] != best)
    ensures Lower(dist[i := best], ShortestAfter(P, shortest, i, best), dist, shortest)
  {
    UpdateProgress(dist, i, best);
    if P.funcs[P.instrs[i].fn].entry == i { UpdateProgress(shortest, P.instrs[i].fn, best); }
  }
}
