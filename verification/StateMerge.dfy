/**
  Merging two execution states that stand at the same instruction into one that
  represents exactly the union of their paths. One thread, no persistent objects.
 */
module StateMerge {
  import opened Exprs

  datatype Function = Function(id: nat, numRegisters: nat)

  /** A register may be unbound. */
  datatype Frame = Frame(caller: nat, fn: Function, locals: seq<Option<Expr>>)

  /** A memory object, the identity of the object state bound to it, and its bytes. */
  datatype Binding = Binding(mo: nat, os: nat, bytes: seq<Expr>)

  ghost predicate Sat(constraints: set<Expr>, a: Assignment) {
    forall c :: c in constraints ==> Eval(c, a) != 0
  }

  // ---------- constraints ----------

  /** Adds a constraint: conjunctions are split, true is dropped. */
  function AddConstraint(constraints: set<Expr>, e: Expr): set<Expr>
    decreases e
  {
    match e
    case Const(v) => if v != 0 then constraints else constraints + {e}
    case And(l, r) => AddConstraint(AddConstraint(constraints, l), r)
    case _ => constraints + {e}
  }

  lemma {:induction false} AddConstraintMeaning(constraints: set<Expr>, e: Expr, a: Assignment)
    ensures Sat(AddConstraint(constraints, e), a) <==> Sat(constraints, a) && Eval(e, a) != 0
    decreases e
  {
    match e
    case Const(v) =>
      if v == 0 { assert e in constraints + {e}; }
    case And(l, r) =>
      AddConstraintMeaning(constraints, l, a);
      AddConstraintMeaning(AddConstraint(constraints, l), r, a);
    case _ =>
      assert e in constraints + {e};
  }

  /** The conjunction of a set of constraints. */
  method Conjoin(constraints: set<Expr>) returns (e: Expr)
    ensures forall a :: Eval(e, a) != 0 <==> Sat(constraints, a)
  {
    e := Const(1);
    var rest := constraints;
    while rest != {}
      invariant rest <= constraints
      invariant forall a :: Eval(e, a) != 0 <==> Sat(constraints - rest, a)
      decreases rest
    {
      var c :| c in rest;
      assert constraints - (rest - {c}) == (constraints - rest) + {c};
      forall a ensures Eval(And(e, c), a) != 0 <==> Sat((constraints - rest) + {c}, a) {
        assert c in (constraints - rest) + {c};
      }
      e := And(e, c);
      rest := rest - {c};
    }
    assert constraints - rest == constraints;
  }

  method AddAll(constraints: set<Expr>) returns (r: set<Expr>)
    ensures forall a :: Sat(r, a) <==> Sat(constraints, a)
  {
    r := {};
    var rest := constraints;
    while rest != {}
      invariant rest <= constraints
      invariant forall a :: Sat(r, a) <==> Sat(constraints - rest, a)
      decreases rest
    {
      var c :| c in rest;
      assert constraints - (rest - {c}) == (constraints - rest) + {c};
      forall a ensures Sat(AddConstraint(r, c), a) <==> Sat((constraints - rest) + {c}, a) {
        AddConstraintMeaning(r, c, a);
        assert c in (constraints - rest) + {c};
      }
      r := AddConstraint(r, c);
      rest := rest - {c};
    }
    assert constraints - rest == constraints;
  }

  /** Common constraints and one of the two rests, against the two sets. */
  lemma UnionOfPaths(ca: set<Expr>, cb: set<Expr>, a: Assignment)
    ensures Sat(ca * cb, a) && (Sat(ca - ca * cb, a) || Sat(cb - ca * cb, a)) <==> Sat(ca, a) || Sat(cb, a)
    ensures Sat(ca * cb, a) ==> (Sat(ca - ca * cb, a) <==> Sat(ca, a))
  {
    assert ca == ca * cb + (ca - ca * cb);
    assert cb == ca * cb + (cb - ca * cb);
  }

  // ---------- values ----------

  /** The two versions of a value, told apart by whether A's own constraints hold. */
  ghost predicate Joins(e: Expr, inA: Expr, x: Expr, y: Expr) {
    forall a :: Eval(e, a) == if Eval(inA, a) != 0 then Eval(x, a) else Eval(y, a)
  }

  ghost predicate JoinsLocal(v: Option<Expr>, inA: Expr, x: Option<Expr>, y: Option<Expr>) {
    if x.Some? && y.Some? then v.Some? && Joins(v.value, inA, x.value, y.value) else v == x
  }

  ghost predicate JoinsFrame(f: Frame, inA: Expr, x: Frame, y: Frame) {
    && f.caller == x.caller && f.fn == x.fn && |f.locals| == |x.locals| == |y.locals|
    && forall r :: 0 <= r < |f.locals| ==> JoinsLocal(f.locals[r], inA, x.locals[r], y.locals[r])
  }

  /** A binding that both states share is kept; otherwise its bytes are joined. */
  ghost predicate JoinsBinding(v: Binding, inA: Expr, x: Binding, y: Binding) {
    && v.mo == x.mo && |v.bytes| == |x.bytes| == |y.bytes|
    && if x.os == y.os then v == x
       else forall i :: 0 <= i < |v.bytes| ==> Joins(v.bytes[i], inA, x.bytes[i], y.bytes[i])
  }

  method MergeFrame(inA: Expr, x: Frame, y: Frame) returns (f: Frame)
    requires |x.locals| == |y.locals|
    ensures JoinsFrame(f, inA, x, y)
  {
    var locals := x.locals;
    for i := 0 to |x.locals|
      invariant |locals| == |x.locals| && forall r :: i <= r < |locals| ==> locals[r] == x.locals[r]
      invariant forall r :: 0 <= r < i ==> JoinsLocal(locals[r], inA, x.locals[r], y.locals[r])
    {
      var av, bv := x.locals[i], y.locals[i];
      if av.Some? && bv.Some? {
        locals := locals[i := Some(Select(inA, av.value, bv.value))];
      }
    }
    f := x.(locals := locals);
  }

  method MergeBytes(inA: Expr, x: Binding, y: Binding, os: nat) returns (v: Binding)
    requires |x.bytes| == |y.bytes| && x.os != y.os
    ensures v.os == os && JoinsBinding(v, inA, x, y)
  {
    v := x.(os := os);
    for i := 0 to |x.bytes|
      invariant v.mo == x.mo && v.os == os && |v.bytes| == |x.bytes|
      invariant forall k :: i <= k < |v.bytes| ==> v.bytes[k] == x.bytes[k]
      invariant forall k :: 0 <= k < i ==> Joins(v.bytes[k], inA, x.bytes[k], y.bytes[k])
    {
      v := v.(bytes := v.bytes[i := Select(inA, v.bytes[i], y.bytes[i])]);
    }
  }

  // ---------- states ----------

  class ExecutionState {
    var pc: nat
    var symbolics: seq<nat>
    var stack: seq<Frame>
    var constraints: set<Expr>
    /** In address order. */
    var objects: seq<Binding>

    /** Registers are as many as the function has; one object state has one contents. */
    ghost predicate Compatible(b: ExecutionState)
      reads this, b
    {
      && (forall i :: 0 <= i < |stack| ==> |stack[i].locals| == stack[i].fn.numRegisters)
      && (forall i :: 0 <= i < |b.stack| ==> |b.stack[i].locals| == b.stack[i].fn.numRegisters)
      && (forall i, j :: 0 <= i < |objects| && 0 <= j < |b.objects| && objects[i].mo == b.objects[j].mo ==>
            && |objects[i].bytes| == |b.objects[j].bytes|
            && (objects[i].os == b.objects[j].os ==> objects[i].bytes == b.objects[j].bytes))
    }

    /** Same place, same symbolics, same calls, same memory objects. */
    ghost predicate Mergeable(b: ExecutionState)
      reads this, b
    {
      && pc == b.pc && symbolics == b.symbolics
      && |stack| == |b.stack|
      && (forall i :: 0 <= i < |stack| ==> stack[i].caller == b.stack[i].caller && stack[i].fn == b.stack[i].fn)
      && |objects| == |b.objects|
      && (forall i :: 0 <= i < |objects| ==> objects[i].mo == b.objects[i].mo)
    }

    method SameCalls(b: ExecutionState) returns (same: bool)
      ensures same <==>
        && |stack| == |b.stack|
        && forall i :: 0 <= i < |stack| ==> stack[i].caller == b.stack[i].caller && stack[i].fn == b.stack[i].fn
    {
      var i := 0;
      while i < |stack| && i < |b.stack|
        invariant i <= |stack| && i <= |b.stack|
        invariant forall k :: 0 <= k < i ==> stack[k].caller == b.stack[k].caller && stack[k].fn == b.stack[k].fn
      {
        if stack[i].caller != b.stack[i].caller || stack[i].fn != b.stack[i].fn { return false; }
        i := i + 1;
      }
      return i == |stack| && i == |b.stack|;
    }

    /** The positions at which the two states have different object states bound, if the memory objects agree. */
    method FindMutated(b: ExecutionState) returns (same: bool, mutated: set<nat>)
      ensures same <==> |objects| == |b.objects| && forall i :: 0 <= i < |objects| ==> objects[i].mo == b.objects[i].mo
      ensures same ==> forall i :: i in mutated <==> 0 <= i < |objects| && objects[i].os != b.objects[i].os
    {
      mutated := {};
      var i := 0;
      while i < |objects| && i < |b.objects|
        invariant i <= |objects| && i <= |b.objects|
        invariant forall k :: 0 <= k < i ==> objects[k].mo == b.objects[k].mo
        invariant forall k :: k in mutated <==> 0 <= k < i && objects[k].os != b.objects[k].os
      {
        if objects[i].mo != b.objects[i].mo { return false, mutated; }
        if objects[i].os != b.objects[i].os { mutated := mutated + {i}; }
        i := i + 1;
      }
      return i == |objects| && i == |b.objects|, mutated;
    }

    /**
      Merges b into this state; object states from `newStates` on are those made for changed objects.
      The merged constraints hold exactly where A's or B's did, and every value
      is A's where A's constraints hold and B's elsewhere.
     */
    method Merge(b: ExecutionState, newStates: nat) returns (merged: bool)
      requires b != this && Compatible(b)
      modifies this
      ensures merged <==> old(Mergeable(b))
      ensures !merged ==> unchanged(this)
      ensures merged ==> pc == old(pc) && symbolics == old(symbolics)
      ensures merged ==> forall a :: Sat(constraints, a) <==> Sat(old(constraints), a) || Sat(b.constraints, a)
      ensures merged ==> |stack| == |old(stack)| == |b.stack| && |objects| == |old(objects)| == |b.objects|
      ensures merged ==> forall i, a :: 0 <= i < |stack| && Sat(constraints, a) ==>
        FrameUnder(stack[i], old(stack)[i], b.stack[i], Sat(old(constraints), a), a)
      ensures merged ==> forall i :: 0 <= i < |objects| ==>
        Rebound(objects[i], old(objects)[i], b.objects[i], newStates + i)
      ensures merged ==> forall i, a :: 0 <= i < |objects| && Sat(constraints, a) ==>
        BytesUnder(objects[i], old(objects)[i], b.objects[i], Sat(old(constraints), a), a)
    {
      if pc != b.pc { return false; }
      if symbolics != b.symbolics { return false; }
      var sameCalls := SameCalls(b);
      if !sameCalls { return false; }
      var common := constraints * b.constraints;
      var sameObjects, mutated := FindMutated(b);
      if !sameObjects { return false; }
      var inA := Conjoin(constraints - common);
      var inB := Conjoin(b.constraints - common);
      MergeStack(b, inA);
      MergeObjects(b, inA, mutated, newStates);
      ghost var ca := constraints;
      var cs := AddAll(common);
      constraints := AddConstraint(cs, Or(inA, inB));
      forall a ensures Sat(constraints, a) <==> Sat(ca, a) || Sat(b.constraints, a)
        ensures Sat(constraints, a) ==> (Eval(inA, a) != 0 <==> Sat(ca, a))
      {
        AddConstraintMeaning(cs, Or(inA, inB), a);
        UnionOfPaths(ca, b.constraints, a);
      }
      merged := true;
    }

    method MergeStack(b: ExecutionState, inA: Expr)
      requires b != this && |stack| == |b.stack|
      requires forall i :: 0 <= i < |stack| ==> |stack[i].locals| == |b.stack[i].locals|
      modifies `stack
      ensures |stack| == |old(stack)|
      ensures forall i :: 0 <= i < |stack| ==> JoinsFrame(stack[i], inA, old(stack)[i], b.stack[i])
    {
      for n := 0 to |stack|
        invariant |stack| == |old(stack)|
        invariant forall i :: n <= i < |stack| ==> stack[i] == old(stack)[i]
        invariant forall i :: 0 <= i < n ==> JoinsFrame(stack[i], inA, old(stack)[i], b.stack[i])
      {
        var f := MergeFrame(inA, stack[n], b.stack[n]);
        stack := stack[n := f];
      }
    }

    method MergeObjects(b: ExecutionState, inA: Expr, mutated: set<nat>, newStates: nat)
      requires b != this && |objects| == |b.objects|
      requires forall i :: 0 <= i < |objects| ==> |objects[i].bytes| == |b.objects[i].bytes|
      requires forall i :: i in mutated <==> 0 <= i < |objects| && objects[i].os != b.objects[i].os
      modifies `objects
      ensures |objects| == |old(objects)|
      ensures forall i :: 0 <= i < |objects| ==> JoinsBinding(objects[i], inA, old(objects)[i], b.objects[i])
      ensures forall i :: 0 <= i < |objects| ==> Rebound(objects[i], old(objects)[i], b.objects[i], newStates + i)
    {
      for n := 0 to |objects|
        invariant |objects| == |old(objects)|
        invariant forall i :: n <= i < |objects| ==> objects[i] == old(objects)[i]
        invariant forall i :: 0 <= i < n ==> JoinsBinding(objects[i], inA, old(objects)[i], b.objects[i])
        invariant forall i :: 0 <= i < n ==> Rebound(objects[i], old(objects)[i], b.objects[i], newStates + i)
      {
        if n in mutated {
          var v := MergeBytes(inA, objects[n], b.objects[n], newStates + n);
          objects := objects[n := v];
        }
      }
    }
  }

  /** Under a, a frame has A's or B's values in all registers both had bound, and is A's in all others. */
  ghost predicate FrameUnder(f: Frame, x: Frame, y: Frame, fromA: bool, a: Assignment) {
    && f.caller == x.caller && f.fn == x.fn && |f.locals| == |x.locals| == |y.locals|
    && (forall r :: 0 <= r < |f.locals| && x.locals[r].Some? && y.locals[r].Some? ==>
          && f.locals[r].Some?
          && Eval(f.locals[r].value, a) == Eval(if fromA then x.locals[r].value else y.locals[r].value, a))
    && forall r :: 0 <= r < |f.locals| && (x.locals[r].None? || y.locals[r].None?) ==> f.locals[r] == x.locals[r]
  }

  /** An object state that both states share stays as it is; otherwise a new one is made. */
  ghost predicate Rebound(v: Binding, x: Binding, y: Binding, os: nat) {
    if x.os == y.os then v == x else v.os == os
  }

  ghost predicate BytesUnder(v: Binding, x: Binding, y: Binding, fromA: bool, a: Assignment) {
    && v.mo == x.mo == y.mo && |v.bytes| == |x.bytes| == |y.bytes|
    && forall i :: 0 <= i < |v.bytes| ==> Eval(v.bytes[i], a) == Eval(if fromA then x.bytes[i] else y.bytes[i], a)
  }
}
