/**
  The four caches of a memory object and its update log as one value, the
  plain byte array they stand for, and the elementary changes to them.
 */
module ObjectCells {
  import opened Exprs

  /**
    Concrete bytes; which of them count (all, without a mask); which bytes are
    not in the log yet (all, without a mask); known symbolic bytes; the log.
   */
  datatype Cells = Cells(
    store: seq<nat>,
    concrete: Option<seq<bool>>,
    unflushed: Option<seq<bool>>,
    known: Option<seq<Option<Expr>>>,
    log: UpdateList)
  {
    ghost predicate Shape() {
      && (concrete.Some? ==> |concrete.value| == |store|)
      && (unflushed.Some? ==> |unflushed.value| == |store|)
      && (known.Some? ==> |known.value| == |store|)
      && InBounds(log.head, |store|)
    }

    predicate IsByteConcrete(i: nat)
      requires Shape() && i < |store|
    {
      concrete.None? || concrete.value[i]
    }

    predicate IsByteFlushed(i: nat)
      requires Shape() && i < |store|
    {
      unflushed.Some? && !unflushed.value[i]
    }

    predicate IsByteKnownSymbolic(i: nat)
      requires Shape() && i < |store|
    {
      known.Some? && known.value[i].Some?
    }

    /** The plain byte array these caches stand for, under an assignment. */
    ghost function ByteAt(i: nat, a: Assignment): nat
      requires Shape() && i < |store|
    {
      if IsByteConcrete(i) then store[i]
      else if IsByteKnownSymbolic(i) then Eval(known.value[i].value, a)
      else ListAt(log, i, a)
    }

    /** The stated cache invariants of byte i, and: a flushed byte reads the same from the log. */
    ghost predicate CacheInvariant(i: nat)
      requires Shape() && i < |store|
    {
      && !(IsByteConcrete(i) && IsByteKnownSymbolic(i))
      && (!IsByteFlushed(i) ==> IsByteConcrete(i) || IsByteKnownSymbolic(i))
      && (IsByteFlushed(i) ==> forall a :: ListAt(log, i, a) == ByteAt(i, a))
    }

    ghost predicate Valid() {
      Shape() && forall i :: 0 <= i < |store| ==> CacheInvariant(i)
    }

    // ---------- elementary changes ----------

    function MarkConcrete(i: nat): Cells
      requires Shape() && i < |store|
    {
      if concrete.None? then this else this.(concrete := Some(concrete.value[i := true]))
    }

    function MarkSymbolic(i: nat): Cells
      requires Shape() && i < |store|
    {
      var mask := if concrete.None? then seq(|store|, _ => true) else concrete.value;
      this.(concrete := Some(mask[i := false]))
    }

    function MarkUnflushed(i: nat): Cells
      requires Shape() && i < |store|
    {
      if unflushed.None? then this else this.(unflushed := Some(unflushed.value[i := true]))
    }

    /** Without a mask, all bytes become flushed. */
    function MarkFlushed(i: nat): Cells
      requires Shape() && i < |store|
    {
      this.(unflushed := Some(if unflushed.None? then seq(|store|, _ => false) else unflushed.value[i := false]))
    }

    function SetKnown(i: nat, value: Option<Expr>): Cells
      requires Shape() && i < |store|
    {
      if known.Some? then this.(known := Some(known.value[i := value]))
      else if value.Some? then this.(known := Some(seq(|store|, _ => None)[i := value]))
      else this
    }
  }

  /** Two caches stand for the same bytes. */
  ghost predicate SameBytes(c: Cells, d: Cells) {
    && c.Shape() && d.Shape() && |c.store| == |d.store|
    && forall i, a :: 0 <= i < |c.store| ==> c.ByteAt(i, a) == d.ByteAt(i, a)
  }

  /** d stands for the bytes of c with byte `offset` replaced. */
  ghost predicate OneByteWritten(c: Cells, d: Cells, offset: nat, value: Expr) {
    && c.Shape() && d.Shape() && |c.store| == |d.store|
    && forall i, a :: 0 <= i < |c.store| ==> d.ByteAt(i, a) == if i == offset then Eval(value, a) else c.ByteAt(i, a)
  }

  function WrittenConst(c: Cells, offset: nat, value: nat): Cells
    requires c.Shape() && offset < |c.store|
  {
    c.(store := c.store[offset := value]).SetKnown(offset, None).MarkConcrete(offset).MarkUnflushed(offset)
  }

  function WrittenSymbolic(c: Cells, offset: nat, value: Expr): Cells
    requires c.Shape() && offset < |c.store|
  {
    c.SetKnown(offset, Some(value)).MarkSymbolic(offset).MarkUnflushed(offset)
  }

  lemma {:induction false} WrittenConstIsWrite(c: Cells, offset: nat, value: nat)
    requires c.Valid() && offset < |c.store|
    ensures WrittenConst(c, offset, value).Valid()
    ensures OneByteWritten(c, WrittenConst(c, offset, value), offset, Const(value))
  {
    var d := WrittenConst(c, offset, value);
    forall i | 0 <= i < |c.store| ensures d.CacheInvariant(i) { assert c.CacheInvariant(i); }
  }

  lemma {:induction false} WrittenSymbolicIsWrite(c: Cells, offset: nat, value: Expr)
    requires c.Valid() && offset < |c.store|
    ensures WrittenSymbolic(c, offset, value).Valid()
    ensures OneByteWritten(c, WrittenSymbolic(c, offset, value), offset, value)
  {
    var d := WrittenSymbolic(c, offset, value);
    forall i | 0 <= i < |c.store| ensures d.CacheInvariant(i) { assert c.CacheInvariant(i); }
  }

  /** Byte n is copied to the log; its cache stays. */
  function Flushed(c: Cells, n: nat): Cells
    requires c.Shape() && n < |c.store| && c.unflushed.Some? && (c.IsByteConcrete(n) || c.IsByteKnownSymbolic(n))
  {
    var value := if c.IsByteConcrete(n) then Const(c.store[n]) else c.known.value[n].value;
    c.(log := Extend(c.log, Const(n), value), unflushed := Some(c.unflushed.value[n := false]))
  }

  lemma {:induction false} FlushedKeepsBytes(c: Cells, n: nat)
    requires c.Valid() && n < |c.store| && c.unflushed.Some? && !c.IsByteFlushed(n)
    ensures c.IsByteConcrete(n) || c.IsByteKnownSymbolic(n)
    ensures Flushed(c, n).Valid() && SameBytes(c, Flushed(c, n))
    ensures forall i :: 0 <= i < |c.store| ==> Flushed(c, n).IsByteFlushed(i) == (i == n || c.IsByteFlushed(i))
  {
    assert c.CacheInvariant(n);
    var d := Flushed(c, n);
    ExtendReads(c.log, d.log.head.index, d.log.head.value);
    forall i | 0 <= i < |c.store| ensures d.CacheInvariant(i) { assert c.CacheInvariant(i); }
  }

  /** One round of making an object symbolic. */
  lemma {:induction false} MadeSymbolic(c: Cells, n: nat)
    requires c.Shape() && n < |c.store|
    ensures
      var d := c.MarkSymbolic(n).SetKnown(n, None).MarkFlushed(n);
      && d.Shape() && |d.store| == |c.store|
      && forall i :: 0 <= i < |c.store| ==>
           && d.IsByteFlushed(i) == (c.unflushed.None? || i == n || c.IsByteFlushed(i))
           && d.IsByteConcrete(i) == (i != n && c.IsByteConcrete(i))
           && d.IsByteKnownSymbolic(i) == (i != n && c.IsByteKnownSymbolic(i))
  {
  }

  /** The cache of a byte that is in the log is dropped. */
  function Dropped(c: Cells, n: nat): Cells
    requires c.Shape() && n < |c.store|
  {
    if c.IsByteConcrete(n) then c.MarkSymbolic(n) else if c.IsByteKnownSymbolic(n) then c.SetKnown(n, None) else c
  }

  lemma {:induction false} DroppedKeepsBytes(c: Cells, n: nat)
    requires c.Valid() && n < |c.store| && c.IsByteFlushed(n)
    ensures Dropped(c, n).Valid() && SameBytes(c, Dropped(c, n))
    ensures forall i :: 0 <= i < |c.store| ==>
      && Dropped(c, n).IsByteFlushed(i) == c.IsByteFlushed(i)
      && Dropped(c, n).IsByteConcrete(i) == (i != n && c.IsByteConcrete(i))
      && Dropped(c, n).IsByteKnownSymbolic(i) == (i != n && c.IsByteKnownSymbolic(i))
  {
    assert c.CacheInvariant(n);
    var d := Dropped(c, n);
    forall i | 0 <= i < |c.store| ensures d.CacheInvariant(i) { assert c.CacheInvariant(i); }
  }

  /** A mask that counts every byte as unflushed says the same as no mask. */
  lemma {:induction false} MaskMade(c: Cells)
    requires c.Valid() && c.unflushed.None?
    ensures var d := c.(unflushed := Some(seq(|c.store|, _ => true))); d.Valid() && SameBytes(c, d)
  {
    var d := c.(unflushed := Some(seq(|c.store|, _ => true)));
    forall i | 0 <= i < |c.store| ensures d.CacheInvariant(i) { assert c.CacheInvariant(i); }
  }

  /** A log that reads the same everywhere can take the place of the log. */
  lemma {:induction false} LogReplaced(c: Cells, log: UpdateList)
    requires c.Valid() && InBounds(log.head, |c.store|)
    requires forall i, a :: ListAt(log, i, a) == ListAt(c.log, i, a)
    ensures c.(log := log).Valid() && SameBytes(c, c.(log := log))
  {
    var d := c.(log := log);
    forall i | 0 <= i < |c.store| ensures d.CacheInvariant(i) { assert c.CacheInvariant(i); }
  }

  /** With nothing cached, a log update at a symbolic index is a write at that index. */
  lemma {:induction false} LogExtended(c: Cells, index: Expr, value: Expr)
    requires c.Valid() && !index.Const?
    requires forall i :: 0 <= i < |c.store| ==> c.IsByteFlushed(i) && !c.IsByteConcrete(i) && !c.IsByteKnownSymbolic(i)
    ensures
      var d := c.(log := Extend(c.log, index, value));
      && d.Valid()
      && forall i, a :: 0 <= i < |c.store| ==>
           d.ByteAt(i, a) == if i == Eval(index, a) then Eval(value, a) else c.ByteAt(i, a)
  {
    var d := c.(log := Extend(c.log, index, value));
    ExtendReads(c.log, index, value);
    forall i | 0 <= i < |c.store| ensures d.IsByteFlushed(i) && !d.IsByteConcrete(i) && !d.IsByteKnownSymbolic(i) {
      assert c.IsByteFlushed(i);
    }
    forall i, a | 0 <= i < |c.store|
      ensures d.ByteAt(i, a) == if i == Eval(index, a) then Eval(value, a) else c.ByteAt(i, a)
    {
      assert c.IsByteFlushed(i);
      assert d.ByteAt(i, a) == ListAt(Extend(c.log, index, value), i, a);
    }
  }

  // ---------- values of several bytes ----------

  /** Where the i-th least significant of n bytes lies, from the start of the value. */
  function Place(little: bool, n: nat, i: nat): (p: nat)
    requires i < n
    ensures p < n
  {
    if little then i else n - 1 - i
  }

  /** The n bytes at offset o, least significant first. */
  ghost function Span(c: Cells, o: nat, n: nat, little: bool, a: Assignment): (s: seq<nat>)
    requires c.Shape() && o + n <= |c.store|
    ensures |s| == n
  {
    seq(n, i requires 0 <= i < n => c.ByteAt(o + Place(little, n, i), a))
  }

  lemma {:induction false} SameSpans(c: Cells, d: Cells, o: nat, n: nat, little: bool)
    requires SameBytes(c, d) && o + n <= |c.store|
    ensures forall a :: Span(c, o, n, little, a) == Span(d, o, n, little, a)
    ensures forall a :: Span(c, o, n, little, a)[..n] == Span(d, o, n, little, a)
  {
  }

  /** d stands for the bytes of c with the k least significant of n bytes of a value written at offset o, under a. */
  ghost predicate Written(c: Cells, d: Cells, o: nat, value: nat, n: nat, k: nat, little: bool, a: Assignment)
    requires c.Shape() && d.Shape() && |c.store| == |d.store| && o + n <= |c.store| && k <= n
  {
    forall i :: 0 <= i < |c.store| ==>
      d.ByteAt(i, a) ==
      if o <= i < o + n && Place(little, n, i - o) < k then ByteOf(value, Place(little, n, i - o)) else c.ByteAt(i, a)
  }

  /** The byte order: digit k of a value lies k bytes after its start, or (big endian) k bytes before its last byte. */
  ghost predicate LaidOut(c: Cells, d: Cells, o: nat, value: nat, n: nat, little: bool, a: Assignment)
    requires c.Shape() && d.Shape() && |c.store| == |d.store| && o + n <= |c.store|
  {
    && (forall k: nat :: k < n ==>
          d.ByteAt(if little then o + k else o + n - 1 - k, a) == value / Pow256(k) % 256)
    && (forall i :: 0 <= i < |c.store| && !(o <= i < o + n) ==> d.ByteAt(i, a) == c.ByteAt(i, a))
  }

  /** A write of n bytes lays them out in the byte order and changes no other byte. */
  lemma {:induction false} WrittenIsLaidOut(
    c: Cells, d: Cells, o: nat, value: nat, n: nat, little: bool, a: Assignment)
    requires c.Shape() && d.Shape() && |c.store| == |d.store| && o + n <= |c.store|
    ensures Written(c, d, o, value, n, n, little, a) <==> LaidOut(c, d, o, value, n, little, a)
  {
    forall k: nat | k < n ensures ByteOf(value, k) == value / Pow256(k) % 256 { ByteIsDigit(value, k); }
    if LaidOut(c, d, o, value, n, little, a) {
      forall i | o <= i < o + n ensures d.ByteAt(i, a) == ByteOf(value, Place(little, n, i - o)) {
        var k := if little then i - o else o + n - 1 - i;
        assert d.ByteAt(if little then o + k else o + n - 1 - k, a) == value / Pow256(k) % 256;
      }
    }
    if Written(c, d, o, value, n, n, little, a) {
      forall k: nat | k < n
        ensures d.ByteAt(if little then o + k else o + n - 1 - k, a) == value / Pow256(k) % 256
      {
        var i := if little then o + k else o + n - 1 - k;
        assert d.ByteAt(i, a) == ByteOf(value, Place(little, n, i - o));
      }
    }
  }

  /** The digits of a value that is read are the bytes, in the byte order. */
  lemma {:induction false} ReadDigits(c: Cells, o: nat, n: nat, little: bool, a: Assignment, k: nat)
    requires c.Shape() && o + n <= |c.store| && k < n
    requires forall i :: o <= i < o + n ==> c.ByteAt(i, a) < 256
    ensures FromBytes(Span(c, o, n, little, a)) / Pow256(k) % 256 ==
      c.ByteAt(if little then o + k else o + n - 1 - k, a)
  {
    DigitsOfBytes(Span(c, o, n, little, a), k);
    ByteIsDigit(FromBytes(Span(c, o, n, little, a)), k);
  }

  /** The byte at the low end of a value that is read has weight 1, and the others are a value in themselves. */
  lemma {:induction false} ReadOneByteMore(c: Cells, o: nat, n: nat, little: bool, a: Assignment)
    requires c.Shape() && o + n < |c.store|
    ensures FromBytes(Span(c, o, 0, little, a)) == 0
    ensures FromBytes(Span(c, o, n + 1, little, a)) ==
      if little then c.ByteAt(o, a) + 256 * FromBytes(Span(c, o + 1, n, true, a))
      else c.ByteAt(o + n, a) + 256 * FromBytes(Span(c, o, n, false, a))
  {
    var s := Span(c, o, n + 1, little, a);
    var rest := if little then Span(c, o + 1, n, true, a) else Span(c, o, n, false, a);
    assert s[0] == c.ByteAt(if little then o else o + n, a);
    assert s[1..] == rest;
  }

  /** Reading back what was written gives the value, in both byte orders. */
  lemma {:induction false} WriteThenRead(c: Cells, d: Cells, o: nat, value: nat, n: nat, little: bool, a: Assignment)
    requires c.Shape() && d.Shape() && |c.store| == |d.store| && o + n <= |c.store|
    requires LaidOut(c, d, o, value, n, little, a) && value < Pow256(n)
    ensures FromBytes(Span(d, o, n, little, a)) == value
  {
    WrittenIsLaidOut(c, d, o, value, n, little, a);
    forall i | 0 <= i < n ensures Span(d, o, n, little, a)[i] == ByteOf(value, i) {
      assert Place(little, n, (o + Place(little, n, i)) - o) == i;
    }
    assert Span(d, o, n, little, a) == BytesOf(value, n);
    BytesRoundTrip(value, n);
  }

  /** Stepping from a 32-bit offset, as long as it does not wrap. */
  lemma OffsetPlus(offset: Expr, k: nat, a: Assignment)
    requires Eval(Trunc(offset), a) + k < WORD
    ensures Eval(Trunc(Add(Trunc(offset), Const(k))), a) == Eval(Trunc(offset), a) + k
  {
    var o := Eval(Trunc(offset), a);
    var sum := Add(Trunc(offset), Const(k));
    assert Eval(sum, a) == o + k by { SmallRest(o + k); }
    TruncOfSmall(sum, a);
  }

  /** One more byte of the value. */
  lemma {:induction false} WrittenStep(
    c: Cells, d: Cells, e: Cells, o: nat, value: nat, n: nat, k: nat, little: bool, a: Assignment)
    requires c.Shape() && d.Shape() && e.Shape() && |c.store| == |d.store| == |e.store| && o + n <= |c.store| && k < n
    requires Written(c, d, o, value, n, k, little, a)
    requires forall i :: 0 <= i < |c.store| ==>
      e.ByteAt(i, a) == if i == o + Place(little, n, k) then ByteOf(value, k) else d.ByteAt(i, a)
    ensures Written(c, e, o, value, n, k + 1, little, a)
  {
  }

  function MakeByte(value: Expr, i: nat): (e: Expr)
    ensures forall a :: Eval(e, a) == ByteOf(Eval(value, a), i)
  {
    if value.Const? then Const(ByteOf(value.v, i)) else Byte(value, i)
  }

  /** Putting one more byte in front. */
  lemma {:induction false} SpanStep(c: Cells, o: nat, n: nat, k: nat, little: bool, a: Assignment, lo: nat)
    requires c.Shape() && o + n <= |c.store| && k < n
    requires lo == FromBytes(Span(c, o, n, little, a)[..k])
    ensures c.ByteAt(o + Place(little, n, k), a) * Pow256(k) + lo == FromBytes(Span(c, o, n, little, a)[..k + 1])
  {
    var s := Span(c, o, n, little, a);
    FromBytesAppend(s[..k], s[k]);
    assert s[..k] + [s[k]] == s[..k + 1];
  }

  /** e stands for the k least significant of n bytes at the offset, wherever the offset keeps them inside. */
  ghost predicate Gathers(c: Cells, offset: Expr, n: nat, little: bool, k: nat, e: Expr)
    requires c.Shape() && k <= n
  {
    forall a :: Eval(Trunc(offset), a) + n <= |c.store| ==>
      Eval(e, a) == FromBytes(Span(c, Eval(Trunc(offset), a), n, little, a)[..k])
  }

  lemma {:induction false} ByteAdded(
    c: Cells, d: Cells, offset: Expr, n: nat, little: bool, k: nat, e: Expr, byte: Expr, a: Assignment)
    requires SameBytes(c, d) && k < n && |c.store| <= WORD
    requires var o := Eval(Trunc(offset), a);
      && o + n <= |c.store| && Eval(e, a) == FromBytes(Span(c, o, n, little, a)[..k])
      && Eval(byte, a) == d.ByteAt(o + Place(little, n, k), a)
    ensures Eval(if k > 0 then Concat(byte, e, k) else byte, a) ==
      FromBytes(Span(c, Eval(Trunc(offset), a), n, little, a)[..k + 1])
  {
    SpanStep(c, Eval(Trunc(offset), a), n, k, little, a, Eval(e, a));
  }

  lemma {:induction false} GathersOneMore(
    c: Cells, d: Cells, offset: Expr, n: nat, little: bool, k: nat, e: Expr, byte: Expr)
    requires SameBytes(c, d) && k < n && |c.store| <= WORD && Gathers(c, offset, n, little, k, e)
    requires var at := Trunc(Add(Trunc(offset), Const(Place(little, n, k))));
      forall a :: Eval(at, a) < |c.store| ==> Eval(byte, a) == d.ByteAt(Eval(at, a), a)
    ensures Gathers(c, offset, n, little, k + 1, if k > 0 then Concat(byte, e, k) else byte)
  {
    forall a | Eval(Trunc(offset), a) + n <= |c.store|
      ensures Eval(if k > 0 then Concat(byte, e, k) else byte, a) ==
        FromBytes(Span(c, Eval(Trunc(offset), a), n, little, a)[..k + 1])
    {
      OffsetPlus(offset, Place(little, n, k), a);
      ByteAdded(c, d, offset, n, little, k, e, byte, a);
    }
  }
}
