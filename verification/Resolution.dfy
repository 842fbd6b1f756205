/**
  Resolving pointers to memory objects in an address-ordered map. The solver is
  exact: a question about the pointer is a question about the finite set of
  values it can still have.
 */
module PointerResolution {

  const TOP := 0x1_0000_0000_0000_0000  // 64-bit addresses wrap

  datatype MemoryObject = MemoryObject(address: nat, size: nat)

  /** Ordered by address, without overlap, below the top of the address space. */
  ghost predicate Ordered(objs: seq<MemoryObject>) {
    && (forall i :: 0 <= i < |objs| ==> objs[i].address + objs[i].size < TOP)
    && (forall i, j :: 0 <= i < j < |objs| ==>
          objs[i].address < objs[j].address && objs[i].address + objs[i].size <= objs[j].address)
  }

  /** p points into the object; an empty object still has its own address. */
  predicate Contains(mo: MemoryObject, p: nat) {
    if mo.size == 0 then p == mo.address else mo.address <= p < mo.address + mo.size
  }

  /** The bounds check as computed: on the wrapped difference. */
  predicate BoundsCheck(mo: MemoryObject, p: nat) {
    var offset := (p - mo.address) % TOP;
    if mo.size == 0 then offset == 0 else offset < mo.size
  }

  lemma BoundsCheckIsContains(mo: MemoryObject, p: nat)
    requires p < TOP && mo.address + mo.size < TOP
    ensures BoundsCheck(mo, p) <==> Contains(mo, p)
  {
    if p < mo.address {
      assert (p - mo.address) % TOP == p - mo.address + TOP;
    } else {
      assert (p - mo.address) % TOP == p - mo.address;
    }
  }

  /** The first position whose object starts above the address. */
  function UpperBound(objs: seq<MemoryObject>, address: nat): (k: nat)
    requires Ordered(objs)
    ensures k <= |objs|
    ensures forall i :: 0 <= i < k ==> objs[i].address <= address
    ensures forall i :: k <= i < |objs| ==> address < objs[i].address
  {
    if objs == [] || objs[|objs| - 1].address <= address then |objs|
    else UpperBound(objs[..|objs| - 1], address)
  }

  // ---------- constant addresses ----------

  datatype Found = NotFound | At(i: nat)

  /** The object at or before the address, if it reaches that far. */
  function ResolveOne(objs: seq<MemoryObject>, address: nat): Found
    requires Ordered(objs)
  {
    var k := UpperBound(objs, address);
    if k == 0 then NotFound
    else
      var mo := objs[k - 1];
      if (mo.size == 0 && address == mo.address) || address - mo.address < mo.size then At(k - 1) else NotFound
  }

  /** It finds the one object that contains the address, whenever there is one. */
  lemma ResolveOneIsExact(objs: seq<MemoryObject>, address: nat)
    requires Ordered(objs)
    ensures ResolveOne(objs, address) == NotFound <==> forall i :: 0 <= i < |objs| ==> !Contains(objs[i], address)
    ensures forall i :: 0 <= i < |objs| && Contains(objs[i], address) ==> ResolveOne(objs, address) == At(i)
  {
    var k := UpperBound(objs, address);
    if k > 0 {
      assert forall i :: 0 <= i < k - 1 ==> objs[i].address + objs[i].size <= objs[k - 1].address;
    }
  }

  // ---------- symbolic pointers ----------

  predicate MayHit(ptrs: set<nat>, mo: MemoryObject) { exists p :: p in ptrs && BoundsCheck(mo, p) }

  predicate MustHit(ptrs: set<nat>, mo: MemoryObject) { forall p :: p in ptrs ==> BoundsCheck(mo, p) }

  /** Some value of the pointer falls in the object. */
  ghost predicate Hit(ptrs: set<nat>, mo: MemoryObject) { exists p :: p in ptrs && Contains(mo, p) }

  ghost predicate Addresses(ptrs: set<nat>) { forall p :: p in ptrs ==> p < TOP }

  lemma MayHitIsHit(ptrs: set<nat>, mo: MemoryObject)
    requires Addresses(ptrs) && mo.address + mo.size < TOP
    ensures MayHit(ptrs, mo) <==> Hit(ptrs, mo)
    ensures MustHit(ptrs, mo) <==> forall p :: p in ptrs ==> Contains(mo, p)
  {
    forall p | p in ptrs ensures BoundsCheck(mo, p) <==> Contains(mo, p) { BoundsCheckIsContains(mo, p); }
    if Hit(ptrs, mo) {
      var p :| p in ptrs && Contains(mo, p);
      assert BoundsCheck(mo, p);
    }
    if MayHit(ptrs, mo) {
      var p :| p in ptrs && BoundsCheck(mo, p);
      assert Contains(mo, p);
    }
  }

  ghost predicate NoRepeats(rl: seq<nat>) {
    forall x, y :: 0 <= x < y < |rl| ==> rl[x] != rl[y]
  }

  /** rl lists the elements of s, once each. */
  ghost predicate Enumerates(rl: seq<nat>, s: set<nat>) {
    NoRepeats(rl) && forall x :: x in rl <==> x in s
  }

  lemma EnumeratesOneMore(rl: seq<nat>, s: set<nat>, i: nat)
    requires Enumerates(rl, s) && i !in s
    ensures Enumerates(rl + [i], s + {i})
  {
    forall x | 0 <= x < |rl| ensures rl[x] != i { assert rl[x] in rl; }
  }

  /** The objects of [from, to) that can be hit. */
  ghost function Hits(objs: seq<MemoryObject>, ptrs: set<nat>, from: nat, to: nat): set<nat>
    requires to <= |objs|
  {
    set i: nat | from <= i < to && Hit(ptrs, objs[i])
  }

  /** rl lists, once each, exactly those objects of [from, to) that can be hit. */
  ghost predicate Lists(objs: seq<MemoryObject>, ptrs: set<nat>, rl: seq<nat>, from: nat, to: nat)
    requires from <= to <= |objs|
  {
    Enumerates(rl, Hits(objs, ptrs, from, to))
  }

  /** Objects that all values are at or above cannot be hit from below. */
  lemma NoneBelow(objs: seq<MemoryObject>, ptrs: set<nat>, k: nat)
    requires Ordered(objs) && k < |objs| && forall p :: p in ptrs ==> objs[k].address <= p
    ensures forall i :: 0 <= i < k ==> !Hit(ptrs, objs[i])
  {
  }

  lemma NoneAbove(objs: seq<MemoryObject>, ptrs: set<nat>, k: nat)
    requires Ordered(objs) && k < |objs| && forall p :: p in ptrs ==> p < objs[k].address
    ensures forall i :: k <= i < |objs| ==> !Hit(ptrs, objs[i])
  {
    forall i | k <= i < |objs| ensures !Hit(ptrs, objs[i]) {
      assert objs[k].address <= objs[i].address;
    }
  }

  /** If all values fall in one object, no other object can be hit. */
  lemma OnlyOne(objs: seq<MemoryObject>, ptrs: set<nat>, k: nat)
    requires Ordered(objs) && k < |objs| && forall p :: p in ptrs ==> Contains(objs[k], p)
    ensures forall i :: 0 <= i < |objs| && i != k ==> !Hit(ptrs, objs[i])
  {
    forall i | 0 <= i < |objs| && i != k ensures !Hit(ptrs, objs[i]) {
      if i < k {
        assert objs[i].address + objs[i].size <= objs[k].address && objs[i].address < objs[k].address;
      } else {
        assert objs[k].address + objs[k].size <= objs[i].address && objs[k].address < objs[i].address;
      }
    }
  }

  datatype Answer = Complete | Incomplete | GoOn

  /** Object i was added if it can be hit; complete on one object that holds all values, incomplete at the limit. */
  ghost predicate Checked(
    objs: seq<MemoryObject>, ptrs: set<nat>, i: nat, rl: seq<nat>, maxResolutions: nat, answer: Answer, rl': seq<nat>)
    requires i < |objs|
  {
    && rl' == (if Hit(ptrs, objs[i]) then rl + [i] else rl)
    && (answer == Complete <==> |rl'| == 1 && rl' != rl && forall p :: p in ptrs ==> Contains(objs[i], p))
    && (answer == Incomplete <==> |rl'| != 1 && rl' != rl && |rl'| == maxResolutions)
  }

  /** Adds object i if the pointer may point to it; done at once if it must, given up at the limit. */
  method CheckPointerInObject(objs: seq<MemoryObject>, ptrs: set<nat>, i: nat, rl: seq<nat>, maxResolutions: nat)
    returns (answer: Answer, rl': seq<nat>)
    requires Ordered(objs) && Addresses(ptrs) && i < |objs|
    ensures Checked(objs, ptrs, i, rl, maxResolutions, answer, rl')
  {
    MayHitIsHit(ptrs, objs[i]);
    rl' := rl;
    if MayHit(ptrs, objs[i]) {
      rl' := rl' + [i];
      if |rl'| == 1 {
        if MustHit(ptrs, objs[i]) { return Complete, rl'; }
      } else if |rl'| == maxResolutions {
        return Incomplete, rl';
      }
    }
    return GoOn, rl';
  }

  /** The result of a search over [from, to): exact if it went on to the end, exact for all objects if cut short. */
  ghost predicate Searched(
    objs: seq<MemoryObject>, ptrs: set<nat>, rl: seq<nat>, from: nat, to: nat, answer: Answer, maxResolutions: nat)
    requires from <= to <= |objs|
  {
    && NoRepeats(rl) && (forall x :: x in rl ==> x < |objs| && Hit(ptrs, objs[x]))
    && match answer
       case Complete => Lists(objs, ptrs, rl, 0, |objs|) && |rl| == 1
       case Incomplete => |rl| == maxResolutions && 2 <= maxResolutions
       case GoOn => Lists(objs, ptrs, rl, from, to) && (2 <= maxResolutions ==> |rl| < maxResolutions)
  }

  lemma ListsOneAbove(objs: seq<MemoryObject>, ptrs: set<nat>, rl: seq<nat>, from: nat, to: nat)
    requires from <= to < |objs| && Lists(objs, ptrs, rl, from, to)
    ensures Lists(objs, ptrs, if Hit(ptrs, objs[to]) then rl + [to] else rl, from, to + 1)
  {
    var hits := Hits(objs, ptrs, from, to);
    assert Hits(objs, ptrs, from, to + 1) == if Hit(ptrs, objs[to]) then hits + {to} else hits;
    EnumeratesOneMore(rl, hits, to);
  }

  lemma ListsOneBelow(objs: seq<MemoryObject>, ptrs: set<nat>, rl: seq<nat>, from: nat, to: nat)
    requires 0 < from <= to <= |objs| && Lists(objs, ptrs, rl, from, to)
    ensures Lists(objs, ptrs, if Hit(ptrs, objs[from - 1]) then rl + [from - 1] else rl, from - 1, to)
  {
    var hits := Hits(objs, ptrs, from, to);
    assert Hits(objs, ptrs, from - 1, to) == if Hit(ptrs, objs[from - 1]) then hits + {from - 1} else hits;
    EnumeratesOneMore(rl, hits, from - 1);
  }

  /** Stretches without hits may be added. */
  lemma ListsMore(objs: seq<MemoryObject>, ptrs: set<nat>, rl: seq<nat>, from: nat, to: nat, from': nat, to': nat)
    requires from' <= from <= to <= to' <= |objs| && Lists(objs, ptrs, rl, from, to)
    requires forall i :: from' <= i < from || to <= i < to' ==> !Hit(ptrs, objs[i])
    ensures Lists(objs, ptrs, rl, from', to')
  {
    assert Hits(objs, ptrs, from', to') == Hits(objs, ptrs, from, to);
  }

  lemma MustIsOnly(objs: seq<MemoryObject>, ptrs: set<nat>, i: nat)
    requires Ordered(objs) && i < |objs| && ptrs != {} && forall p :: p in ptrs ==> Contains(objs[i], p)
    ensures Lists(objs, ptrs, [i], 0, |objs|)
  {
    OnlyOne(objs, ptrs, i);
    var p :| p in ptrs;
    assert Contains(objs[i], p);
    assert Hits(objs, ptrs, 0, |objs|) == {i};
  }

  lemma CheckedBelow(objs: seq<MemoryObject>, ptrs: set<nat>, rl: seq<nat>, from: nat, to: nat,
                     maxResolutions: nat, answer: Answer, rl': seq<nat>)
    requires Ordered(objs) && ptrs != {} && 0 < from <= to <= |objs|
    requires Searched(objs, ptrs, rl, from, to, GoOn, maxResolutions)
    requires Checked(objs, ptrs, from - 1, rl, maxResolutions, answer, rl')
    ensures Searched(objs, ptrs, rl', from - 1, to, answer, maxResolutions)
  {
    ListsOneBelow(objs, ptrs, rl, from, to);
    if answer == Complete { MustIsOnly(objs, ptrs, from - 1); assert rl' == [from - 1]; }
  }

  lemma CheckedAbove(objs: seq<MemoryObject>, ptrs: set<nat>, rl: seq<nat>, to: nat,
                     maxResolutions: nat, answer: Answer, rl': seq<nat>)
    requires Ordered(objs) && ptrs != {} && to < |objs|
    requires Searched(objs, ptrs, rl, 0, to, GoOn, maxResolutions)
    requires Checked(objs, ptrs, to, rl, maxResolutions, answer, rl')
    ensures Searched(objs, ptrs, rl', 0, to + 1, answer, maxResolutions)
  {
    ListsOneAbove(objs, ptrs, rl, 0, to);
    if answer == Complete { MustIsOnly(objs, ptrs, to); assert rl' == [to]; }
  }

  /** Down from `start`, until all values are known to lie at or above an object. */
  method SearchDown(objs: seq<MemoryObject>, ptrs: set<nat>, start: nat, maxResolutions: nat)
    returns (answer: Answer, rl: seq<nat>)
    requires Ordered(objs) && Addresses(ptrs) && ptrs != {} && start <= |objs|
    ensures Searched(objs, ptrs, rl, 0, start, answer, maxResolutions)
  {
    rl := [];
    var oi: nat := start;
    while oi != 0
      invariant oi <= start && Searched(objs, ptrs, rl, oi, start, GoOn, maxResolutions)
    {
      ghost var before := rl;
      oi := oi - 1;
      answer, rl := CheckPointerInObject(objs, ptrs, oi, rl, maxResolutions);
      CheckedBelow(objs, ptrs, before, oi + 1, start, maxResolutions, answer, rl);
      if answer != GoOn { return; }
      if forall p :: p in ptrs ==> p >= objs[oi].address {
        NoneBelow(objs, ptrs, oi);
        ListsMore(objs, ptrs, rl, oi, start, 0, start);
        break;
      }
    }
    answer := GoOn;
  }

  /** Up from `start`, until all values are known to lie below an object. */
  method SearchUp(objs: seq<MemoryObject>, ptrs: set<nat>, start: nat, found: seq<nat>, maxResolutions: nat)
    returns (answer: Answer, rl: seq<nat>)
    requires Ordered(objs) && Addresses(ptrs) && ptrs != {} && start <= |objs|
    requires Searched(objs, ptrs, found, 0, start, GoOn, maxResolutions)
    ensures Searched(objs, ptrs, rl, 0, |objs|, answer, maxResolutions)
  {
    rl := found;
    var oi: nat := start;
    while oi != |objs|
      invariant start <= oi <= |objs| && Searched(objs, ptrs, rl, 0, oi, GoOn, maxResolutions)
    {
      if forall p :: p in ptrs ==> p < objs[oi].address {
        NoneAbove(objs, ptrs, oi);
        ListsMore(objs, ptrs, rl, 0, oi, 0, |objs|);
        break;
      }
      ghost var before := rl;
      answer, rl := CheckPointerInObject(objs, ptrs, oi, rl, maxResolutions);
      CheckedAbove(objs, ptrs, before, oi, maxResolutions, answer, rl);
      if answer != GoOn { return; }
      oi := oi + 1;
    }
    answer := GoOn;
  }

  /** A complete answer lists exactly what can be hit; an incomplete one has reached a limit of 2 or more. */
  ghost predicate Resolved(
    objs: seq<MemoryObject>, ptrs: set<nat>, maxResolutions: nat, incomplete: bool, rl: seq<nat>)
  {
    && (!incomplete ==> Lists(objs, ptrs, rl, 0, |objs|))
    && (incomplete ==> |rl| == maxResolutions && 2 <= maxResolutions)
    && NoRepeats(rl) && (forall x :: x in rl ==> x < |objs| && Hit(ptrs, objs[x]))
    && (2 <= maxResolutions ==> |rl| <= maxResolutions)
  }

  /**
    Lists the objects a pointer can point to, searching from an example value
    down and then up. A complete answer is exact. An incomplete one has reached
    the limit, which a limit of 1 never does.
   */
  method Resolve(objs: seq<MemoryObject>, ptrs: set<nat>, example: nat, maxResolutions: nat)
    returns (incomplete: bool, rl: seq<nat>)
    requires Ordered(objs) && Addresses(ptrs) && example in ptrs
    ensures Resolved(objs, ptrs, maxResolutions, incomplete, rl)
  {
    var start := UpperBound(objs, example);
    var answer;
    answer, rl := SearchDown(objs, ptrs, start, maxResolutions);
    if answer == GoOn {
      answer, rl := SearchUp(objs, ptrs, start, rl, maxResolutions);
    }
    incomplete := answer == Incomplete;
  }

  lemma {:induction false} EnumeratesSize(rl: seq<nat>, s: set<nat>)
    requires Enumerates(rl, s)
    ensures |rl| == |s|
  {
    if rl != [] {
      var n := |rl| - 1;
      var last := rl[n];
      assert rl == rl[..n] + [last];
      forall x ensures x in rl[..n] <==> x in s - {last} {
        if x in rl[..n] {
          var k :| 0 <= k < n && rl[k] == x;
          assert rl[k] in rl;
        }
      }
      EnumeratesSize(rl[..n], s - {last});
      assert last in rl;
    } else {
      assert forall x :: x in s ==> x in rl;
      assert s == {};
    }
  }

  /** What is listed keeps within a limit, unless the limit is 1 and two objects can be hit. */
  lemma {:induction false} LimitOfOneIsIgnored(
    objs: seq<MemoryObject>, ptrs: set<nat>, maxResolutions: nat, incomplete: bool, rl: seq<nat>)
    requires Resolved(objs, ptrs, maxResolutions, incomplete, rl) && 1 <= maxResolutions
    ensures |rl| <= maxResolutions <==> 2 <= maxResolutions || |Hits(objs, ptrs, 0, |objs|)| <= 1
  {
    if !incomplete { EnumeratesSize(rl, Hits(objs, ptrs, 0, |objs|)); }
  }

  /** Two neighbouring objects, and a pointer to either: both are listed whatever the limit of 1 says. */
  lemma {:induction false} TwoListedDespiteLimit(incomplete: bool, rl: seq<nat>)
    requires Resolved([MemoryObject(8, 1), MemoryObject(9, 1)], {8, 9}, 1, incomplete, rl)
    ensures |rl| == 2
  {
    var two := [MemoryObject(8, 1), MemoryObject(9, 1)];
    assert Contains(two[0], 8) && Contains(two[1], 9);
    assert Hits(two, {8, 9}, 0, 2) == {0, 1};
    EnumeratesSize(rl, {0, 1});
  }

  // ---------- one object for a symbolic pointer ----------

  /** No object of [from, to) can be hit. */
  ghost predicate NoHits(objs: seq<MemoryObject>, ptrs: set<nat>, from: nat, to: nat)
    requires to <= |objs|
  {
    forall i :: from <= i < to ==> !Hit(ptrs, objs[i])
  }

  /** Down from `start`: some object that can be hit, if there is one below. */
  method FindDown(objs: seq<MemoryObject>, ptrs: set<nat>, start: nat) returns (r: Found)
    requires Ordered(objs) && Addresses(ptrs) && start <= |objs|
    ensures r.At? ==> r.i < start && Hit(ptrs, objs[r.i])
    ensures r == NotFound ==> NoHits(objs, ptrs, 0, start)
  {
    var oi: nat := start;
    while oi != 0
      invariant oi <= start && NoHits(objs, ptrs, oi, start)
    {
      oi := oi - 1;
      MayHitIsHit(ptrs, objs[oi]);
      if MayHit(ptrs, objs[oi]) { return At(oi); }
      if forall p :: p in ptrs ==> p >= objs[oi].address {
        NoneBelow(objs, ptrs, oi);
        break;
      }
    }
    return NotFound;
  }

  /** Up from `start`, in the same way. */
  method FindUp(objs: seq<MemoryObject>, ptrs: set<nat>, start: nat) returns (r: Found)
    requires Ordered(objs) && Addresses(ptrs) && start <= |objs|
    ensures r.At? ==> start <= r.i < |objs| && Hit(ptrs, objs[r.i])
    ensures r == NotFound ==> NoHits(objs, ptrs, start, |objs|)
  {
    var oi: nat := start;
    while oi != |objs|
      invariant start <= oi <= |objs| && NoHits(objs, ptrs, start, oi)
    {
      if forall p :: p in ptrs ==> p < objs[oi].address {
        NoneAbove(objs, ptrs, oi);
        break;
      }
      MayHitIsHit(ptrs, objs[oi]);
      if MayHit(ptrs, objs[oi]) { return At(oi); }
      oi := oi + 1;
    }
    return NotFound;
  }

  /**
    Finds an object that can be hit, and fails exactly when there is none. The
    object an example value lies in is taken at once, unless it is empty.
   */
  method ResolveOneSymbolic(objs: seq<MemoryObject>, ptrs: set<nat>, example: nat) returns (r: Found)
    requires Ordered(objs) && Addresses(ptrs) && example in ptrs
    ensures r == NotFound <==> NoHits(objs, ptrs, 0, |objs|)
    ensures r.At? ==> r.i < |objs| && Hit(ptrs, objs[r.i])
    ensures forall i :: 0 <= i < |objs| && 0 < objs[i].size && Contains(objs[i], example) ==> r == At(i)
  {
    var start := UpperBound(objs, example);
    ResolveOneIsExact(objs, example);
    if start > 0 && example - objs[start - 1].address < objs[start - 1].size {
      assert Contains(objs[start - 1], example);
      return At(start - 1);
    }
    r := FindDown(objs, ptrs, start);
    if r == NotFound { r := FindUp(objs, ptrs, start); }
  }

  // ---------- ranges ----------

  datatype Range = Range(begin: nat, end: nat)

  predicate Overlaps(mo: MemoryObject, r: Range) {
    r.begin < mo.address + mo.size && mo.address < r.end
  }

  /** The range and the object have an address in common; an empty object has to lie strictly inside the range. */
  ghost predicate Meets(mo: MemoryObject, r: Range) {
    if mo.size == 0 then r.begin < mo.address < r.end
    else exists x: nat :: r.begin <= x < r.end && Contains(mo, x)
  }

  /** The comparison of the ends tells whether there is a common address. */
  lemma {:induction false} OverlapsIsMeets(mo: MemoryObject, r: Range)
    requires r.begin < r.end
    ensures Overlaps(mo, r) <==> Meets(mo, r)
  {
    if 0 < mo.size && Overlaps(mo, r) {
      assert Contains(mo, if r.begin < mo.address then mo.address else r.begin);
    }
  }

  /** rl lists, once each, exactly the objects that every feasible range meets. */
  ghost predicate ListsRange(objs: seq<MemoryObject>, ranges: set<Range>, rl: seq<nat>) {
    && NoRepeats(rl)
    && (forall i: nat :: i in rl <==> i < |objs| && forall r :: r in ranges ==> Meets(objs[i], r))
  }

  /** Every feasible range overlaps the object. */
  predicate MustOverlap(mo: MemoryObject, ranges: set<Range>) { forall r :: r in ranges ==> Overlaps(mo, r) }

  /** The objects of [from, to) that every feasible range overlaps. */
  ghost function Overlapped(objs: seq<MemoryObject>, ranges: set<Range>, from: nat, to: nat): set<nat>
    requires to <= |objs|
  {
    set i: nat | from <= i < to && MustOverlap(objs[i], ranges)
  }

  lemma NoOverlapBelow(objs: seq<MemoryObject>, ranges: set<Range>, k: nat)
    requires Ordered(objs) && k < |objs| && ranges != {} && forall r :: r in ranges ==> objs[k].address <= r.begin
    ensures forall i :: 0 <= i < k ==> !MustOverlap(objs[i], ranges)
  {
    var r :| r in ranges;
    forall i | 0 <= i < k ensures !MustOverlap(objs[i], ranges) { assert !Overlaps(objs[i], r); }
  }

  lemma NoOverlapAbove(objs: seq<MemoryObject>, ranges: set<Range>, k: nat)
    requires Ordered(objs) && k < |objs| && ranges != {} && forall r :: r in ranges ==> r.end < objs[k].address
    ensures forall i :: k <= i < |objs| ==> !MustOverlap(objs[i], ranges)
  {
    var r :| r in ranges;
    forall i | k <= i < |objs| ensures !MustOverlap(objs[i], ranges) {
      assert objs[k].address <= objs[i].address;
      assert !Overlaps(objs[i], r);
    }
  }

  lemma {:induction false} OverlappedIsListed(objs: seq<MemoryObject>, ranges: set<Range>, rl: seq<nat>)
    requires Enumerates(rl, Overlapped(objs, ranges, 0, |objs|)) && forall r :: r in ranges ==> r.begin < r.end
    ensures ListsRange(objs, ranges, rl)
  {
    forall i: nat | i < |objs|
      ensures MustOverlap(objs[i], ranges) <==> forall r :: r in ranges ==> Meets(objs[i], r)
    {
      forall r | r in ranges ensures Overlaps(objs[i], r) <==> Meets(objs[i], r) { OverlapsIsMeets(objs[i], r); }
    }
    forall i: nat ensures i in rl <==> i < |objs| && forall r :: r in ranges ==> Meets(objs[i], r) {
      assert i in rl <==> i in Overlapped(objs, ranges, 0, |objs|);
    }
  }

  /** Lists exactly the objects that every feasible range overlaps. */
  method ResolveRange(objs: seq<MemoryObject>, ranges: set<Range>, example: Range) returns (rl: seq<nat>)
    requires Ordered(objs) && example in ranges && forall r :: r in ranges ==> r.begin < r.end
    ensures ListsRange(objs, ranges, rl)
  {
    rl := [];
    var start := UpperBound(objs, example.begin);
    var oi: nat := start;
    while oi != 0
      invariant oi <= start && Enumerates(rl, Overlapped(objs, ranges, oi, start))
    {
      ghost var above := Overlapped(objs, ranges, oi, start);
      oi := oi - 1;
      EnumeratesOneMore(rl, above, oi);
      assert Overlapped(objs, ranges, oi, start) == if MustOverlap(objs[oi], ranges) then above + {oi} else above;
      if MustOverlap(objs[oi], ranges) { rl := rl + [oi]; }
      if forall r :: r in ranges ==> r.begin >= objs[oi].address {
        NoOverlapBelow(objs, ranges, oi);
        assert Overlapped(objs, ranges, 0, start) == Overlapped(objs, ranges, oi, start);
        break;
      }
    }
    oi := start;
    while oi != |objs|
      invariant start <= oi <= |objs| && Enumerates(rl, Overlapped(objs, ranges, 0, oi))
    {
      if forall r :: r in ranges ==> r.end < objs[oi].address {
        NoOverlapAbove(objs, ranges, oi);
        assert Overlapped(objs, ranges, 0, |objs|) == Overlapped(objs, ranges, 0, oi);
        break;
      }
      ghost var below := Overlapped(objs, ranges, 0, oi);
      EnumeratesOneMore(rl, below, oi);
      assert Overlapped(objs, ranges, 0, oi + 1) == if MustOverlap(objs[oi], ranges) then below + {oi} else below;
      if MustOverlap(objs[oi], ranges) { rl := rl + [oi]; }
      oi := oi + 1;
    }
    OverlappedIsListed(objs, ranges, rl);
  }

  /** With constant bounds, exactly the objects that have an address in the range are listed. */
  lemma {:induction false} ConstantRangeIsExact(objs: seq<MemoryObject>, r: Range, rl: seq<nat>)
    requires ListsRange(objs, {r}, rl)
    ensures forall i: nat :: i in rl <==> i < |objs| && Meets(objs[i], r)
  {
    assert r in {r};
  }

  /** An object that one feasible range meets is met by all. */
  ghost predicate RangesAgree(objs: seq<MemoryObject>, ranges: set<Range>) {
    forall i, r, r' :: 0 <= i < |objs| && r in ranges && r' in ranges ==> (Meets(objs[i], r) <==> Meets(objs[i], r'))
  }

  /**
    The objects that some feasible range meets are the listed ones exactly
    when the feasible ranges agree about every object.
   */
  lemma RangeListsAllOverlaps(objs: seq<MemoryObject>, ranges: set<Range>, rl: seq<nat>)
    requires ListsRange(objs, ranges, rl) && ranges != {}
    ensures (forall i, r :: 0 <= i < |objs| && r in ranges && Meets(objs[i], r) ==> i in rl) <==>
      RangesAgree(objs, ranges)
  {
    if RangesAgree(objs, ranges) {
      forall i, r | 0 <= i < |objs| && r in ranges && Meets(objs[i], r) ensures i in rl {
        assert forall r' :: r' in ranges ==> Meets(objs[i], r');
      }
    }
  }

  /** The range of the cache line that p lies in. */
  function LineRange(p: nat): Range {
    Range(p / 64 * 64, p / 64 * 64 + 64)
  }

  lemma SomethingListed(rl: seq<nat>)
    requires rl != []
    ensures exists x: nat :: x in rl
  {
    assert rl[0] in rl;
  }

  /** A pointer to one of two cache lines, and an object that fills the first: the possible overlap is not listed. */
  lemma {:induction false} RangeMissesPossibleOverlap(rl: seq<nat>)
    requires ListsRange([MemoryObject(64, 64)], {LineRange(100), LineRange(130)}, rl)
    ensures rl == [] && Meets(MemoryObject(64, 64), LineRange(100))
  {
    var mo, other := MemoryObject(64, 64), LineRange(130);
    assert Contains(mo, 100);
    assert other == Range(128, 192) && !Meets(mo, other) && other in {LineRange(100), other};
    if rl != [] { SomethingListed(rl); }
  }
}
