/**
  The contents of one memory object: reads and writes of bytes and of wider
  values, at constant and at symbolic offsets, against the plain byte array
  that the caches and the log stand for.
 */
module SymbolicObject {
  import opened Exprs
  import opened ObjectCells

  class ObjectState {
    var concreteStore: seq<nat>
    var concreteMask: Option<seq<bool>>
    /** True marks a byte that is not in the log yet. */
    var flushMask: Option<seq<bool>>
    var knownSymbolics: Option<seq<Option<Expr>>>
    var updates: UpdateList

    ghost function View(): Cells
      reads this
    {
      Cells(concreteStore, concreteMask, flushMask, knownSymbolics, updates)
    }

    ghost predicate Valid()
      reads this
    {
      View().Valid()
    }

    /** An object with concrete contents, all zero. */
    constructor (size: nat)
      ensures Valid() && |concreteStore| == size
      ensures forall i, a :: 0 <= i < size ==> View().ByteAt(i, a) == 0
    {
      concreteStore := seq(size, _ => 0);
      concreteMask, flushMask, knownSymbolics := None, None, None;
      updates := UpdateList(NoRoot, Nil);
    }

    /** An object whose contents are a symbolic array. */
    constructor Symbolic(size: nat, id: nat)
      ensures Valid() && |concreteStore| == size
      ensures forall i, a :: 0 <= i < size ==> View().ByteAt(i, a) == RootAt(SymArray(id), i, a)
    {
      concreteStore := seq(size, _ => 0);
      concreteMask, flushMask, knownSymbolics := None, None, None;
      updates := UpdateList(SymArray(id), Nil);
      new;
      MakeSymbolic();
    }

    // ---------- the masks ----------

    method MarkByteConcrete(offset: nat)
      requires View().Shape() && offset < |concreteStore|
      modifies `concreteMask
      ensures View() == old(View()).MarkConcrete(offset)
    {
      if concreteMask.Some? { concreteMask := Some(concreteMask.value[offset := true]); }
    }

    method MarkByteSymbolic(offset: nat)
      requires View().Shape() && offset < |concreteStore|
      modifies `concreteMask
      ensures View() == old(View()).MarkSymbolic(offset)
    {
      if concreteMask.None? { concreteMask := Some(seq(|concreteStore|, _ => true)); }
      concreteMask := Some(concreteMask.value[offset := false]);
    }

    method MarkByteUnflushed(offset: nat)
      requires View().Shape() && offset < |concreteStore|
      modifies `flushMask
      ensures View() == old(View()).MarkUnflushed(offset)
    {
      if flushMask.Some? { flushMask := Some(flushMask.value[offset := true]); }
    }

    method MarkByteFlushed(offset: nat)
      requires View().Shape() && offset < |concreteStore|
      modifies `flushMask
      ensures View() == old(View()).MarkFlushed(offset)
    {
      if flushMask.None? {
        flushMask := Some(seq(|concreteStore|, _ => false));
      } else {
        flushMask := Some(flushMask.value[offset := false]);
      }
    }

    method SetKnownSymbolic(offset: nat, value: Option<Expr>)
      requires View().Shape() && offset < |concreteStore|
      modifies `knownSymbolics
      ensures View() == old(View()).SetKnown(offset, value)
    {
      if knownSymbolics.Some? {
        knownSymbolics := Some(knownSymbolics.value[offset := value]);
      } else if value.Some? {
        knownSymbolics := Some(seq(|concreteStore|, _ => None)[offset := value]);
      }
    }

    // ---------- whole-object changes ----------

    /** All bytes are the concrete ones. */
    method MakeConcrete()
      requires View().Shape()
      modifies this
      ensures Valid() && View() == old(View()).(concrete := None, unflushed := None, known := None)
      ensures forall i, a :: 0 <= i < |concreteStore| ==> View().ByteAt(i, a) == concreteStore[i]
    {
      concreteMask, flushMask, knownSymbolics := None, None, None;
    }

    method InitializeToZero()
      requires View().Shape()
      modifies this
      ensures Valid() && |concreteStore| == old(|concreteStore|)
      ensures forall i, a :: 0 <= i < |concreteStore| ==> View().ByteAt(i, a) == 0
    {
      MakeConcrete();
      concreteStore := seq(|concreteStore|, _ => 0);
    }

    /** Drops all caches: the log alone holds the contents. */
    method MakeSymbolic()
      requires View().Shape() && updates.head == Nil
      modifies this
      ensures Valid() && updates == old(updates) && |concreteStore| == old(|concreteStore|)
      ensures forall i, a :: 0 <= i < |concreteStore| ==> View().ByteAt(i, a) == RootAt(updates.root, i, a)
    {
      for n := 0 to |concreteStore|
        invariant View().Shape() && updates == old(updates) && |concreteStore| == old(|concreteStore|)
        invariant forall i :: 0 <= i < n ==>
          View().IsByteFlushed(i) && !View().IsByteConcrete(i) && !View().IsByteKnownSymbolic(i)
      {
        MadeSymbolic(View(), n);
        MarkByteSymbolic(n);
        SetKnownSymbolic(n, None);
        MarkByteFlushed(n);
      }
    }

    /** The log, with its array made. */
    method GetUpdates() returns (ul: UpdateList)
      requires Valid()
      modifies `updates
      ensures Valid() && SameBytes(old(View()), View())
      ensures ul == updates && updates.root != NoRoot
    {
      if updates.root == NoRoot {
        ghost var prefix;
        var made;
        made, prefix := MakeRoot(updates, |concreteStore|);
        LogReplaced(View(), made);
        updates := made;
      }
      ul := updates;
    }

    // ---------- flushing caches into the log ----------

    /** Writes every unflushed byte to the log and keeps the caches. */
    method FlushRangeForRead()
      requires Valid()
      modifies `flushMask, `updates
      ensures Valid() && SameBytes(old(View()), View())
      ensures forall i :: 0 <= i < |concreteStore| ==> View().IsByteFlushed(i)
    {
      if flushMask.None? {
        MaskMade(View());
        flushMask := Some(seq(|concreteStore|, _ => true));
      }
      for offset := 0 to |concreteStore|
        invariant Valid() && flushMask.Some? && SameBytes(old(View()), View())
        invariant forall i :: 0 <= i < offset ==> View().IsByteFlushed(i)
      {
        if flushMask.value[offset] {
          FlushedKeepsBytes(View(), offset);
          if concreteMask.None? || concreteMask.value[offset] {
            updates := Extend(updates, Const(offset), Const(concreteStore[offset]));
          } else {
            updates := Extend(updates, Const(offset), knownSymbolics.value[offset].value);
          }
          flushMask := Some(flushMask.value[offset := false]);
        }
      }
    }

    /** Writes every unflushed byte to the log and drops all caches. */
    method FlushRangeForWrite()
      requires Valid()
      modifies `flushMask, `updates, `concreteMask, `knownSymbolics
      ensures Valid() && SameBytes(old(View()), View())
      ensures forall i :: 0 <= i < |concreteStore| ==>
        View().IsByteFlushed(i) && !View().IsByteConcrete(i) && !View().IsByteKnownSymbolic(i)
    {
      if flushMask.None? {
        MaskMade(View());
        flushMask := Some(seq(|concreteStore|, _ => true));
      }
      for offset := 0 to |concreteStore|
        invariant Valid() && flushMask.Some? && SameBytes(old(View()), View())
        invariant forall i :: 0 <= i < offset ==>
          View().IsByteFlushed(i) && !View().IsByteConcrete(i) && !View().IsByteKnownSymbolic(i)
      {
        FlushByteForWrite(offset);
      }
    }

    /** One byte of that: it is in the log alone afterwards, and all others are where they were. */
    method FlushByteForWrite(offset: nat)
      requires Valid() && flushMask.Some? && offset < |concreteStore|
      modifies `flushMask, `updates, `concreteMask, `knownSymbolics
      ensures Valid() && flushMask.Some? && SameBytes(old(View()), View())
      ensures forall i :: 0 <= i < |concreteStore| ==>
        && View().IsByteFlushed(i) == (i == offset || old(View()).IsByteFlushed(i))
        && View().IsByteConcrete(i) == (i != offset && old(View()).IsByteConcrete(i))
        && View().IsByteKnownSymbolic(i) == (i != offset && old(View()).IsByteKnownSymbolic(i))
    {
      var wasConcrete := concreteMask.None? || concreteMask.value[offset];
      if flushMask.value[offset] {
        FlushedKeepsBytes(View(), offset);
        if wasConcrete {
          updates := Extend(updates, Const(offset), Const(concreteStore[offset]));
        } else {
          updates := Extend(updates, Const(offset), knownSymbolics.value[offset].value);
        }
        flushMask := Some(flushMask.value[offset := false]);
      }
      DroppedKeepsBytes(View(), offset);
      if wasConcrete {
        MarkByteSymbolic(offset);
      } else if knownSymbolics.Some? && knownSymbolics.value[offset].Some? {
        SetKnownSymbolic(offset, None);
      }
    }

    // ---------- single bytes ----------

    method Read8(offset: nat) returns (e: Expr)
      requires Valid() && offset < |concreteStore|
      modifies `updates
      ensures Valid() && SameBytes(old(View()), View())
      ensures forall a :: Eval(e, a) == View().ByteAt(offset, a)
    {
      assert View().CacheInvariant(offset);
      if concreteMask.None? || concreteMask.value[offset] {
        e := Const(concreteStore[offset]);
      } else if knownSymbolics.Some? && knownSymbolics.value[offset].Some? {
        e := knownSymbolics.value[offset].value;
      } else {
        var ul := GetUpdates();
        e := CreateRead(ul, Const(offset));
      }
    }

    /** A read at an offset that is not constant. */
    method Read8At(offset: Expr) returns (e: Expr)
      requires Valid() && !offset.Const?
      modifies `flushMask, `updates
      ensures Valid() && SameBytes(old(View()), View())
      ensures forall a :: Eval(Trunc(offset), a) < |concreteStore| ==>
        Eval(e, a) == View().ByteAt(Eval(Trunc(offset), a), a)
    {
      FlushRangeForRead();
      label flushed:
      var ul := GetUpdates();
      forall i | 0 <= i < |concreteStore| ensures View().IsByteFlushed(i) {
        assert old@flushed(View().IsByteFlushed(i));
      }
      e := CreateRead(ul, Trunc(offset));
      forall a | Eval(Trunc(offset), a) < |concreteStore|
        ensures Eval(e, a) == View().ByteAt(Eval(Trunc(offset), a), a)
      {
        var i := Eval(Trunc(offset), a);
        assert View().IsByteFlushed(i) && View().CacheInvariant(i);
        assert Eval(e, a) == ListAt(updates, i, a);
      }
    }

    method Write8Const(offset: nat, value: nat)
      requires Valid() && offset < |concreteStore| && value < 256
      modifies this
      ensures Valid() && OneByteWritten(old(View()), View(), offset, Const(value))
    {
      WrittenConstIsWrite(View(), offset, value);
      concreteStore := concreteStore[offset := value];
      SetKnownSymbolic(offset, None);
      MarkByteConcrete(offset);
      MarkByteUnflushed(offset);
    }

    method Write8(offset: nat, value: Expr)
      requires Valid() && offset < |concreteStore| && (value.Const? ==> value.v < 256)
      modifies this
      ensures Valid() && OneByteWritten(old(View()), View(), offset, value)
    {
      if value.Const? {
        Write8Const(offset, value.v);
      } else {
        WrittenSymbolicIsWrite(View(), offset, value);
        SetKnownSymbolic(offset, Some(value));
        MarkByteSymbolic(offset);
        MarkByteUnflushed(offset);
      }
    }

    /** A write at an offset that is not constant. */
    method Write8At(offset: Expr, value: Expr)
      requires Valid() && !offset.Const?
      modifies this
      ensures Valid() && |concreteStore| == old(|concreteStore|)
      ensures forall i, a :: 0 <= i < |concreteStore| ==>
        View().ByteAt(i, a) == if i == Eval(Trunc(offset), a) then Eval(value, a) else old(View()).ByteAt(i, a)
    {
      FlushRangeForWrite();
      LogExtended(View(), Trunc(offset), value);
      updates := Extend(updates, Trunc(offset), value);
    }

    // ---------- values of several bytes ----------

    method ReadBytes(offset: nat, n: nat, little: bool) returns (e: Expr)
      requires Valid() && 0 < n && offset + n <= |concreteStore|
      modifies `updates
      ensures Valid() && SameBytes(old(View()), View())
      ensures forall a :: Eval(e, a) == FromBytes(Span(View(), offset, n, little, a))
    {
      ghost var c := View();
      e := Const(0);
      for i := 0 to n
        invariant Valid() && SameBytes(c, View())
        invariant i == 0 ==> e == Const(0)
        invariant forall a :: Eval(e, a) == FromBytes(Span(c, offset, n, little, a)[..i])
      {
        var byte := Read8(offset + Place(little, n, i));
        forall a
          ensures Eval(if i > 0 then Concat(byte, e, i) else byte, a) ==
            FromBytes(Span(c, offset, n, little, a)[..i + 1])
        {
          SpanStep(c, offset, n, i, little, a, Eval(e, a));
        }
        e := if i > 0 then Concat(byte, e, i) else byte;
      }
      SameSpans(c, View(), offset, n, little);
    }

    /** A read at an offset that is not constant; what it promises is for assignments that keep it inside the object. */
    method ReadBytesAt(offset: Expr, n: nat, little: bool) returns (e: Expr)
      requires Valid() && 0 < n && !offset.Const? && |concreteStore| <= WORD
      modifies `flushMask, `updates
      ensures Valid() && SameBytes(old(View()), View())
      ensures forall a :: Eval(Trunc(offset), a) + n <= |concreteStore| ==>
        Eval(e, a) == FromBytes(Span(View(), Eval(Trunc(offset), a), n, little, a))
    {
      ghost var c := View();
      e := Const(0);
      for i := 0 to n
        invariant Valid() && SameBytes(c, View())
        invariant Gathers(c, offset, n, little, i, e)
      {
        var byte := Read8At(Add(Trunc(offset), Const(Place(little, n, i))));
        GathersOneMore(c, View(), offset, n, little, i, e, byte);
        e := if i > 0 then Concat(byte, e, i) else byte;
      }
      forall a | Eval(Trunc(offset), a) + n <= |concreteStore|
        ensures Eval(e, a) == FromBytes(Span(View(), Eval(Trunc(offset), a), n, little, a))
      {
        SameSpans(c, View(), Eval(Trunc(offset), a), n, little);
      }
    }

    method WriteBytes(offset: nat, value: Expr, n: nat, little: bool)
      requires Valid() && offset + n <= |concreteStore|
      modifies this
      ensures Valid() && |concreteStore| == old(|concreteStore|)
      ensures forall a :: LaidOut(old(View()), View(), offset, Eval(value, a), n, little, a)
    {
      ghost var c := View();
      for i := 0 to n
        invariant Valid() && |concreteStore| == |c.store|
        invariant forall a :: Written(c, View(), offset, Eval(value, a), n, i, little, a)
      {
        ghost var d := View();
        Write8(offset + Place(little, n, i), MakeByte(value, i));
        forall a ensures Written(c, View(), offset, Eval(value, a), n, i + 1, little, a) {
          WrittenStep(c, d, View(), offset, Eval(value, a), n, i, little, a);
        }
      }
      forall a ensures LaidOut(c, View(), offset, Eval(value, a), n, little, a) {
        WrittenIsLaidOut(c, View(), offset, Eval(value, a), n, little, a);
      }
    }

    /** A write at an offset that is not constant; its promise is for assignments that keep it inside the object. */
    method WriteBytesAt(offset: Expr, value: Expr, n: nat, little: bool)
      requires Valid() && !offset.Const? && |concreteStore| <= WORD
      modifies this
      ensures Valid() && |concreteStore| == old(|concreteStore|)
      ensures forall a :: Eval(Trunc(offset), a) + n <= |concreteStore| ==>
        LaidOut(old(View()), View(), Eval(Trunc(offset), a), Eval(value, a), n, little, a)
    {
      ghost var c := View();
      for i := 0 to n
        invariant Valid() && |concreteStore| == |c.store|
        invariant forall a :: Eval(Trunc(offset), a) + n <= |concreteStore| ==>
          Written(c, View(), Eval(Trunc(offset), a), Eval(value, a), n, i, little, a)
      {
        ghost var d := View();
        var at := Add(Trunc(offset), Const(Place(little, n, i)));
        Write8At(at, MakeByte(value, i));
        forall a | Eval(Trunc(offset), a) + n <= |concreteStore|
          ensures Written(c, View(), Eval(Trunc(offset), a), Eval(value, a), n, i + 1, little, a)
        {
          var o := Eval(Trunc(offset), a);
          OffsetPlus(offset, Place(little, n, i), a);
          WrittenStep(c, d, View(), o, Eval(value, a), n, i, little, a);
        }
      }
      forall a | Eval(Trunc(offset), a) + n <= |concreteStore|
        ensures LaidOut(c, View(), Eval(Trunc(offset), a), Eval(value, a), n, little, a)
      {
        WrittenIsLaidOut(c, View(), Eval(Trunc(offset), a), Eval(value, a), n, little, a);
      }
    }
  }
}
