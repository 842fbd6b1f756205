/**
  The deterministic allocator: objects are handed out at growing addresses of a
  fixed space, with a redzone behind every call, and feed pointer resolution
  with the order and disjointness it relies on.
 */
module DeterministicAllocator {
  import opened Arithmetic
  import opened PointerResolution

  /** An allocated object and the number of the call that made it. */
  datatype Allocation = Allocation(mo: MemoryObject, call: nat, alignment: nat)

  predicate IsPowerOfTwo(n: nat) {
    n == 1 || (n > 1 && n % 2 == 0 && IsPowerOfTwo(n / 2))
  }

  function Pow2(k: nat): nat {
    if k == 0 then 1 else 2 * Pow2(k - 1)
  }

  /** Halving down to 1 finds exactly the powers of two. */
  lemma {:induction false} PowersOfTwo(n: nat)
    ensures IsPowerOfTwo(n) <==> exists k: nat :: n == Pow2(k)
    ensures IsPowerOfTwo(n) ==> n > 0
  {
    if IsPowerOfTwo(n) { var k := Exponent(n); }
    if k: nat :| n == Pow2(k) { PowerIsFound(k); }
  }

  lemma {:induction false} Exponent(n: nat) returns (k: nat)
    requires IsPowerOfTwo(n)
    ensures n == Pow2(k)
  {
    k := 0;
    if n > 1 {
      k := Exponent(n / 2);
      k := k + 1;
    }
  }

  lemma {:induction false} PowerIsFound(k: nat)
    ensures Pow2(k) > 0 && IsPowerOfTwo(Pow2(k))
  {
    if k > 0 {
      PowerIsFound(k - 1);
      Doubled(Pow2(k - 1));
    }
  }

  lemma Doubled(n: nat)
    requires n > 0
    ensures 2 * n > 1 && 2 * n % 2 == 0 && 2 * n / 2 == n
  {
  }

  /** The least multiple of `alignment` that is at least v. */
  function AlignTo(v: nat, alignment: nat): nat
    requires alignment > 0
  {
    (v + alignment - 1) / alignment * alignment
  }

  lemma AlignToIsLeast(v: nat, alignment: nat)
    requires alignment > 0
    ensures v <= AlignTo(v, alignment) < v + alignment && AlignTo(v, alignment) % alignment == 0
  {
    var x := v + alignment - 1;
    assert x == x / alignment * alignment + x % alignment;
    QuotientIsUnique(x / alignment * alignment, alignment, x / alignment, 0);
  }

  /** The addresses an object takes up: an empty one still takes one. */
  function End(mo: MemoryObject): nat {
    mo.address + if mo.size == 0 then 1 else mo.size
  }

  class MemoryManager {
    const space: nat
    const spaceSize: nat
    const redzone: nat
    const pageSize: nat
    const nullOnZero: bool
    var nextFreeSlot: nat
    var calls: nat
    var objects: seq<Allocation>

    ghost predicate Valid()
      reads this
    {
      && pageSize > 0 && 0 < space && space + spaceSize <= TOP
      && space <= nextFreeSlot
      && (forall i :: 0 <= i < |objects| ==> Placed(objects[i], space, spaceSize, nextFreeSlot, redzone, calls))
      && Separated(objects, redzone)
    }

    constructor (space: nat, spaceSize: nat, redzone: nat, pageSize: nat, nullOnZero: bool)
      requires pageSize > 0 && 0 < space && space + spaceSize <= TOP
      ensures Valid() && objects == []
    {
      this.space, this.spaceSize, this.redzone := space, spaceSize, redzone;
      this.pageSize, this.nullOnZero := pageSize, nullOnZero;
      nextFreeSlot, calls, objects := space, 0, [];
    }

    /** A new object behind all others, or nothing: wrong alignment, a refused empty object, no space left. */
    method Allocate(size: nat, alignment: nat) returns (ok: bool)
      requires Valid()
      modifies this
      ensures Valid()
      ensures !ok ==> objects == old(objects) && nextFreeSlot == old(nextFreeSlot)
      ensures ok ==> |objects| == |old(objects)| + 1 && objects[..|old(objects)|] == old(objects)
      ensures ok ==> objects[|old(objects)|].mo.size == size && objects[|old(objects)|].alignment == alignment
      ensures ok ==>
        0 < alignment && objects[|old(objects)|].mo.address == AlignTo(old(nextFreeSlot) + alignment - 1, alignment)
      ensures ok ==> nextFreeSlot == End(objects[|old(objects)|].mo) + redzone
      ensures ok <==>
        && 0 < alignment && !(nullOnZero && size == 0) && (exists k: nat :: alignment == Pow2(k))
        && AlignTo(old(nextFreeSlot) + alignment - 1, alignment) + (if size == 0 then 1 else size) < space + spaceSize
    {
      PowersOfTwo(alignment);
      if nullOnZero && size == 0 { return false; }
      if !IsPowerOfTwo(alignment) { return false; }
      assert alignment > 0;
      AlignToIsLeast(nextFreeSlot + alignment - 1, alignment);
      var address := AlignTo(nextFreeSlot + alignment - 1, alignment);
      var allocSize := if size < 1 then 1 else size;
      if address + allocSize >= space + spaceSize { return false; }
      nextFreeSlot := address + allocSize + redzone;
      objects := objects + [Allocation(MemoryObject(address, size), calls, alignment)];
      calls := calls + 1;
      return true;
    }

    /** Several objects of one size side by side, at a page boundary; none for a count or size of 0 or lack of space. */
    method AllocateContiguous(individualSize: nat, count: nat) returns (ok: bool)
      requires Valid()
      modifies this
      ensures Valid()
      ensures !ok ==> objects == old(objects) && nextFreeSlot == old(nextFreeSlot)
      ensures ok ==>
        var address := AlignTo(old(nextFreeSlot) + pageSize - 1, pageSize);
        address % pageSize == 0 && objects == old(objects) + Row(address, individualSize, count, old(calls))
      ensures ok ==>
        nextFreeSlot ==
        AlignTo(old(nextFreeSlot) + pageSize - 1, pageSize) + AlignTo(individualSize * count, pageSize) + redzone
      ensures ok <==>
        && 0 < individualSize && 0 < count
        && AlignTo(old(nextFreeSlot) + pageSize - 1, pageSize) + AlignTo(individualSize * count, pageSize)
           < space + spaceSize
    {
      if count == 0 || individualSize == 0 { return false; }
      var total := individualSize * count;
      AlignToIsLeast(nextFreeSlot + pageSize - 1, pageSize);
      AlignToIsLeast(total, pageSize);
      var address := AlignTo(nextFreeSlot + pageSize - 1, pageSize);
      var allocSize := AlignTo(total, pageSize);
      if address + allocSize >= space + spaceSize { return false; }
      var row := MakeRow(address, individualSize, count, calls);
      RowSeparated(objects, address, individualSize, count, calls,
                   space, spaceSize, nextFreeSlot, address + allocSize + redzone, redzone);
      nextFreeSlot := address + allocSize + redzone;
      calls := calls + 1;
      objects := objects + row;
      return true;
    }

    /** A freed object is forgotten, one that is not known changes nothing; addresses are not used again. */
    method MarkFreed(i: nat)
      requires Valid()
      modifies `objects
      ensures Valid()
      ensures objects == if i < |old(objects)| then old(objects)[..i] + old(objects)[i+1..] else old(objects)
    {
      if i < |objects| {
        objects := objects[..i] + objects[i+1..];
      }
    }

    /** What resolution needs, and therefore: a constant address resolves to the object that contains it. */
    lemma ObjectsAreOrdered()
      requires Valid()
      ensures Ordered(Objects(objects))
    {
      forall i, j | 0 <= i < j < |objects|
        ensures objects[i].mo.address < objects[j].mo.address
        ensures objects[i].mo.address + objects[i].mo.size <= objects[j].mo.address
      {
        assert Apart(objects[i], objects[j], redzone);
      }
    }
  }

  function Objects(s: seq<Allocation>): (r: seq<MemoryObject>)
    ensures |r| == |s|
  {
    seq(|s|, i requires 0 <= i < |s| => s[i].mo)
  }

  /** Aligned, inside the space, and with its redzone below the next free slot. */
  ghost predicate Placed(o: Allocation, space: nat, spaceSize: nat, next: nat, redzone: nat, calls: nat) {
    && o.alignment > 0 && o.mo.address % o.alignment == 0
    && space <= o.mo.address && End(o.mo) < space + spaceSize && End(o.mo) + redzone <= next
    && o.call < calls
  }

  /** b lies behind a, with a redzone between them unless one call made both. */
  ghost predicate Apart(a: Allocation, b: Allocation, redzone: nat) {
    && End(a.mo) <= b.mo.address
    && (a.call != b.call ==> End(a.mo) + redzone <= b.mo.address)
  }

  ghost predicate Separated(s: seq<Allocation>, redzone: nat) {
    forall i, j :: 0 <= i < j < |s| ==> Apart(s[i], s[j], redzone)
  }

  /** `count` objects of one size side by side. */
  function Row(address: nat, size: nat, count: nat, call: nat): (r: seq<Allocation>)
    ensures |r| == count
  {
    seq(count, i requires 0 <= i < count => Allocation(MemoryObject(address + i * size, size), call, 1))
  }

  method MakeRow(address: nat, size: nat, count: nat, call: nat) returns (row: seq<Allocation>)
    ensures row == Row(address, size, count, call)
  {
    row := [];
    for objNo := 0 to count
      invariant |row| == objNo
      invariant forall i :: 0 <= i < objNo ==> row[i] == Allocation(MemoryObject(address + i * size, size), call, 1)
    {
      row := row + [Allocation(MemoryObject(address + objNo * size, size), call, 1)];
    }
  }

  /** Where object k of a row lies. */
  lemma {:induction false} RowObject(address: nat, size: nat, count: nat, call: nat, k: nat)
    requires 0 < size && k < count
    ensures var row := Row(address, size, count, call);
      && row[k].mo.address == (if k == 0 then address else End(row[k - 1].mo)) && row[k].mo.size == size
      && address <= row[k].mo.address && End(row[k].mo) == row[k].mo.address + size <= address + size * count
  {
    PiecesFit(k, count, size);
    assert k > 0 ==> k * size == (k - 1) * size + size;
  }

  lemma {:induction false} RowObjectsApart(address: nat, size: nat, count: nat, call: nat, i: nat, j: nat)
    requires 0 < size && i < j < count
    ensures var row := Row(address, size, count, call); End(row[i].mo) <= row[j].mo.address
  {
    PiecesFit(i, j, size);
  }

  lemma RowSeparated(
    before: seq<Allocation>, address: nat, size: nat, count: nat, call: nat,
    space: nat, spaceSize: nat, next0: nat, next: nat, redzone: nat)
    requires 0 < size
    requires forall i :: 0 <= i < |before| ==> Placed(before[i], space, spaceSize, next0, redzone, call)
    requires Separated(before, redzone)
    requires space <= next0 <= address && address + size * count + redzone <= next
    requires address + size * count < space + spaceSize
    ensures Separated(before + Row(address, size, count, call), redzone)
    ensures forall i :: 0 <= i < |before| + count ==>
      Placed((before + Row(address, size, count, call))[i], space, spaceSize, next, redzone, call + 1)
  {
    var row := Row(address, size, count, call);
    var after := before + row;
    forall i | 0 <= i < |after| ensures Placed(after[i], space, spaceSize, next, redzone, call + 1) {
      if i < |before| {
        assert after[i] == before[i];
      } else {
        assert after[i] == row[i - |before|];
        RowObject(address, size, count, call, i - |before|);
      }
    }
    forall i, j | 0 <= i < j < |after| ensures Apart(after[i], after[j], redzone) {
      if j < |before| {
        assert after[i] == before[i] && after[j] == before[j];
      } else if i < |before| {
        assert after[i] == before[i] && after[j] == row[j - |before|];
        RowObject(address, size, count, call, j - |before|);
      } else {
        assert after[i] == row[i - |before|] && after[j] == row[j - |before|];
        RowObjectsApart(address, size, count, call, i - |before|, j - |before|);
      }
    }
  }
}
