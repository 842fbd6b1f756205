/**
  Runs of reads and writes on a memory object, at constant and at symbolic
  offsets, next to the same accesses on a plain byte array.
 */
module ObjectRuns {
  import opened Exprs
  import opened ObjectCells
  import opened SymbolicObject

  datatype Access =
    | Load(offset: Expr, n: nat, little: bool)
    | Save(offset: Expr, n: nat, little: bool, value: Expr)

  // ---------- the plain byte array ----------

  ghost function At(op: Access, a: Assignment): nat {
    if op.offset.Const? then op.offset.v else Eval(Trunc(op.offset), a)
  }

  ghost predicate Inside(op: Access, size: nat, a: Assignment) {
    At(op, a) + op.n <= size
  }

  ghost function PlainRead(mem: seq<nat>, o: nat, n: nat, little: bool): nat
    requires o + n <= |mem|
  {
    FromBytes(seq(n, i requires 0 <= i < n => mem[o + Place(little, n, i)]))
  }

  ghost function PlainWrite(mem: seq<nat>, o: nat, n: nat, little: bool, value: nat): seq<nat>
    requires o + n <= |mem|
  {
    seq(|mem|, i requires 0 <= i < |mem| => ByteAfter(mem, o, n, little, value, i))
  }

  ghost function ByteAfter(mem: seq<nat>, o: nat, n: nat, little: bool, value: nat, i: nat): nat
    requires i < |mem|
  {
    if o <= i < o + n then ByteOf(value, Place(little, n, i - o)) else mem[i]
  }

  /** The array after a write: the digits of the value in the byte order, and no other byte changed. */
  lemma {:induction false} PlainWriteLaysOut(mem: seq<nat>, o: nat, n: nat, little: bool, value: nat)
    requires o + n <= |mem|
    ensures
      var mem' := PlainWrite(mem, o, n, little, value);
      && |mem'| == |mem| && mem'[..o] == mem[..o] && mem'[o + n..] == mem[o + n..]
      && forall k: nat :: k < n ==> mem'[if little then o + k else o + n - 1 - k] == value / Pow256(k) % 256
  {
    var mem' := PlainWrite(mem, o, n, little, value);
    forall k: nat | k < n ensures mem'[if little then o + k else o + n - 1 - k] == value / Pow256(k) % 256 {
      var i := if little then o + k else o + n - 1 - k;
      assert mem'[i] == ByteAfter(mem, o, n, little, value, i);
      ByteIsDigit(value, k);
    }
  }

  /** A read gives the number whose digits are the bytes, in the byte order. */
  lemma {:induction false} PlainReadDigits(mem: seq<nat>, o: nat, n: nat, little: bool, k: nat)
    requires o + n <= |mem| && k < n && forall i :: o <= i < o + n ==> mem[i] < 256
    ensures PlainRead(mem, o, n, little) / Pow256(k) % 256 == mem[if little then o + k else o + n - 1 - k]
  {
    DigitsOfBytes(seq(n, i requires 0 <= i < n => mem[o + Place(little, n, i)]), k);
    ByteIsDigit(PlainRead(mem, o, n, little), k);
  }

  /** The byte at the low end has weight 1, and the others are a value in themselves. */
  lemma {:induction false} PlainReadOneByteMore(mem: seq<nat>, o: nat, n: nat, little: bool)
    requires o + n < |mem|
    ensures PlainRead(mem, o, 0, little) == 0
    ensures PlainRead(mem, o, n + 1, little) ==
      if little then mem[o] + 256 * PlainRead(mem, o + 1, n, true) else mem[o + n] + 256 * PlainRead(mem, o, n, false)
  {
    var s: seq<nat> := seq(n + 1, i requires 0 <= i < n + 1 => mem[o + Place(little, n + 1, i)]);
    var rest: seq<nat> :=
      if little then seq(n, i requires 0 <= i < n => mem[o + 1 + Place(true, n, i)])
      else seq(n, i requires 0 <= i < n => mem[o + Place(false, n, i)]);
    assert s[1..] == rest;
  }

  /** The memory and the answers of the reads so far. */
  datatype Plain = Plain(mem: seq<nat>, answers: seq<nat>)

  ghost function Performed(p: Plain, op: Access, a: Assignment): Plain
    requires Inside(op, |p.mem|, a)
  {
    match op
    case Load(_, n, little) => p.(answers := p.answers + [PlainRead(p.mem, At(op, a), n, little)])
    case Save(_, n, little, value) => p.(mem := PlainWrite(p.mem, At(op, a), n, little, Eval(value, a)))
  }

  ghost predicate AllInside(ops: seq<Access>, size: nat, a: Assignment) {
    forall k :: 0 <= k < |ops| ==> Inside(ops[k], size, a)
  }

  ghost function Run(mem: seq<nat>, ops: seq<Access>, a: Assignment): (p: Plain)
    requires AllInside(ops, |mem|, a)
    ensures |p.mem| == |mem|
  {
    if ops == [] then Plain(mem, []) else Performed(Run(mem, ops[..|ops| - 1], a), ops[|ops| - 1], a)
  }

  /** A read gives what was last written to the same bytes, and does not change them. */
  lemma {:induction false} SaveThenLoad(p: Plain, save: Access, load: Access, a: Assignment)
    requires save.Save? && load == Load(save.offset, save.n, save.little)
    requires Inside(save, |p.mem|, a) && Eval(save.value, a) < Pow256(save.n)
    ensures
      var p1 := Performed(p, save, a);
      && |p1.mem| == |p.mem| && p1.answers == p.answers
      && Performed(p1, load, a) == p1.(answers := p.answers + [Eval(save.value, a)])
  {
    var o, n, little, value := At(save, a), save.n, save.little, Eval(save.value, a);
    var mem' := PlainWrite(p.mem, o, n, little, value);
    var s: seq<nat> := seq(n, i requires 0 <= i < n => mem'[o + Place(little, n, i)]);
    forall i | 0 <= i < n ensures s[i] == ByteOf(value, i) {
      assert mem'[o + Place(little, n, i)] == ByteAfter(p.mem, o, n, little, value, o + Place(little, n, i));
      assert Place(little, n, Place(little, n, i)) == i;
    }
    assert s == BytesOf(value, n);
    BytesRoundTrip(value, n);
  }

  /** A write to other bytes does not show in a read. */
  lemma {:induction false} LoadElsewhere(p: Plain, save: Access, load: Access, a: Assignment)
    requires save.Save? && load.Load? && Inside(save, |p.mem|, a) && Inside(load, |p.mem|, a)
    requires At(save, a) + save.n <= At(load, a) || At(load, a) + load.n <= At(save, a)
    ensures
      var p1 := Performed(p, save, a);
      |p1.mem| == |p.mem| && Performed(p1, load, a).answers == Performed(p, load, a).answers
  {
    var o, n, little := At(load, a), load.n, load.little;
    var mem' := Performed(p, save, a).mem;
    var x: seq<nat> := seq(n, i requires 0 <= i < n => p.mem[o + Place(little, n, i)]);
    var y: seq<nat> := seq(n, i requires 0 <= i < n => mem'[o + Place(little, n, i)]);
    assert x == y;
  }

  // ---------- the object ----------

  ghost function Bytes(c: Cells, a: Assignment): seq<nat>
    requires c.Shape()
  {
    seq(|c.store|, i requires 0 <= i < |c.store| => c.ByteAt(i, a))
  }

  ghost function Values(es: seq<Expr>, a: Assignment): seq<nat> {
    seq(|es|, i requires 0 <= i < |es| => Eval(es[i], a))
  }

  /** From c with the values `before`, the access leads to d with the values `after`, under a. */
  ghost predicate Follows(c: Cells, before: seq<Expr>, op: Access, d: Cells, after: seq<Expr>, a: Assignment)
    requires c.Shape() && d.Shape()
  {
    Inside(op, |c.store|, a) ==>
      Plain(Bytes(d, a), Values(after, a)) == Performed(Plain(Bytes(c, a), Values(before, a)), op, a)
  }

  lemma {:induction false} SpanIsPlain(c: Cells, d: Cells, o: nat, n: nat, little: bool, a: Assignment)
    requires SameBytes(c, d) && o + n <= |c.store|
    ensures Bytes(d, a) == Bytes(c, a)
    ensures FromBytes(Span(d, o, n, little, a)) == PlainRead(Bytes(c, a), o, n, little)
  {
    var plain: seq<nat> := seq(n, i requires 0 <= i < n => Bytes(c, a)[o + Place(little, n, i)]);
    forall i | 0 <= i < n ensures Span(d, o, n, little, a)[i] == plain[i] {
      assert c.ByteAt(o + Place(little, n, i), a) == d.ByteAt(o + Place(little, n, i), a);
    }
    assert Span(d, o, n, little, a) == plain;
  }

  lemma {:induction false} ReadFollows(c: Cells, before: seq<Expr>, op: Access, d: Cells, e: Expr, a: Assignment)
    requires SameBytes(c, d) && op.Load? && Inside(op, |c.store|, a)
    requires Eval(e, a) == FromBytes(Span(d, At(op, a), op.n, op.little, a))
    ensures Follows(c, before, op, d, before + [e], a)
  {
    SpanIsPlain(c, d, At(op, a), op.n, op.little, a);
    assert Values(before + [e], a) == Values(before, a) + [Eval(e, a)];
  }

  lemma {:induction false} WriteFollows(c: Cells, before: seq<Expr>, op: Access, d: Cells, a: Assignment)
    requires c.Shape() && d.Shape() && |c.store| == |d.store| && op.Save? && Inside(op, |c.store|, a)
    requires LaidOut(c, d, At(op, a), Eval(op.value, a), op.n, op.little, a)
    ensures Follows(c, before, op, d, before, a)
  {
    WrittenIsLaidOut(c, d, At(op, a), Eval(op.value, a), op.n, op.little, a);
    assert Bytes(d, a) == PlainWrite(Bytes(c, a), At(op, a), op.n, op.little, Eval(op.value, a));
  }

  /** What the object's callers guarantee: a read is not empty, and a constant offset is inside. */
  ghost predicate Proper(op: Access, size: nat) {
    && (op.Load? ==> 0 < op.n)
    && (op.offset.Const? ==> op.offset.v + op.n <= size)
  }

  method Perform(os: ObjectState, op: Access, before: seq<Expr>) returns (after: seq<Expr>)
    requires os.Valid() && Proper(op, |os.concreteStore|) && |os.concreteStore| <= WORD
    modifies os
    ensures os.Valid() && |os.concreteStore| == old(|os.concreteStore|)
    ensures forall a :: Follows(old(os.View()), before, op, os.View(), after, a)
  {
    ghost var c := os.View();
    match op {
      case Load(offset, n, little) =>
        var e;
        if offset.Const? { e := os.ReadBytes(offset.v, n, little); } else { e := os.ReadBytesAt(offset, n, little); }
        after := before + [e];
        forall a | Inside(op, |c.store|, a) { ReadFollows(c, before, op, os.View(), e, a); }
      case Save(offset, n, little, value) =>
        if offset.Const? {
          os.WriteBytes(offset.v, value, n, little);
        } else {
          os.WriteBytesAt(offset, value, n, little);
        }
        after := before;
        forall a | Inside(op, |c.store|, a) { WriteFollows(c, before, op, os.View(), a); }
    }
  }

  /** After k accesses, the object and the plain array agree wherever all of them were inside. */
  ghost predicate Agree(c: Cells, ops: seq<Access>, d: Cells, values: seq<Expr>, a: Assignment)
    requires c.Shape() && d.Shape()
  {
    AllInside(ops, |c.store|, a) ==> Run(Bytes(c, a), ops, a) == Plain(Bytes(d, a), Values(values, a))
  }

  lemma {:induction false} OneMore(
    c: Cells, ops: seq<Access>, k: nat, d: Cells, values: seq<Expr>, d': Cells, values': seq<Expr>, a: Assignment)
    requires c.Shape() && d.Shape() && d'.Shape() && |c.store| == |d.store| && k < |ops|
    requires Agree(c, ops[..k], d, values, a) && Follows(d, values, ops[k], d', values', a)
    ensures Agree(c, ops[..k + 1], d', values', a)
  {
    var up := ops[..k + 1];
    assert up[..k] == ops[..k];
    if AllInside(up, |c.store|, a) {
      assert Inside(up[k], |c.store|, a);
      forall i | 0 <= i < k ensures Inside(ops[..k][i], |c.store|, a) { assert Inside(up[i], |c.store|, a); }
    }
  }

  /** Any run of accesses gives, under every assignment that stays inside, what a plain byte array gives. */
  method RunAccesses(os: ObjectState, ops: seq<Access>) returns (values: seq<Expr>)
    requires os.Valid() && |os.concreteStore| <= WORD
    requires forall k :: 0 <= k < |ops| ==> Proper(ops[k], |os.concreteStore|)
    modifies os
    ensures os.Valid() && |os.concreteStore| == old(|os.concreteStore|)
    ensures forall a :: Agree(old(os.View()), ops, os.View(), values, a)
  {
    values := [];
    ghost var c := os.View();
    forall a ensures Agree(c, ops[..0], os.View(), values, a) { assert Values([], a) == []; }
    for k := 0 to |ops|
      invariant os.Valid() && |os.concreteStore| == |c.store|
      invariant forall a :: Agree(c, ops[..k], os.View(), values, a)
    {
      ghost var d, before := os.View(), values;
      values := Perform(os, ops[k], values);
      ghost var done := ops[..k + 1];
      forall a ensures Agree(c, done, os.View(), values, a) {
        OneMore(c, ops, k, d, before, os.View(), values, a);
      }
    }
    assert ops[..|ops|] == ops;
  }
}
