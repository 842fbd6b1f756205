/**
  Symbolic expressions, and the update lists that reads are made of, with
  their value under an assignment of bytes to the symbolic arrays.
 */
module Exprs {
  import opened Arithmetic

  const WORD := 0x1_0000_0000  // 32-bit array indices wrap

  datatype Option<+T> = None | Some(value: T)

  /** The array below an update list; without one, all cells are zero until an array is made. */
  datatype Root = NoRoot | ConstArray(values: seq<nat>) | SymArray(id: nat)

  /** Updates, the newest first. */
  datatype Updates = Nil | Upd(index: Expr, value: Expr, next: Updates)

  datatype UpdateList = UpdateList(root: Root, head: Updates)

  datatype Expr =
    | Const(v: nat)
    | Read(ul: UpdateList, index: Expr)
    | Add(l: Expr, r: Expr)
    | Trunc(e: Expr)
    | Div(e: Expr, divisor: nat)
    | Byte(e: Expr, i: nat)
    | Concat(hi: Expr, lo: Expr, loBytes: nat)
    | Eq(l: Expr, r: Expr)
    | And(l: Expr, r: Expr)
    | Or(l: Expr, r: Expr)
    | Select(c: Expr, t: Expr, e: Expr)

  /** The bytes of each symbolic array. */
  type Assignment = map<nat, seq<nat>>

  function Pow256(n: nat): (r: nat)
    ensures r > 0
  {
    if n == 0 then 1 else 256 * Pow256(n - 1)
  }

  function ByteOf(v: nat, i: nat): (r: nat)
    ensures r < 256
    decreases i
  {
    if i == 0 then v % 256 else ByteOf(v / 256, i - 1)
  }

  function RootAt(root: Root, i: nat, a: Assignment): nat {
    match root
    case NoRoot => 0
    case ConstArray(values) => if i < |values| then values[i] else 0
    case SymArray(id) => if id in a && i < |a[id]| then a[id][i] % 256 else 0
  }

  function Eval(e: Expr, a: Assignment): nat
    decreases e
  {
    match e
    case Const(v) => v
    case Read(ul, index) => var i := Eval(index, a); UpdatesAt(ul.head, RootAt(ul.root, i, a), i, a)
    case Add(l, r) => (Eval(l, a) + Eval(r, a)) % WORD
    case Trunc(x) => Eval(x, a) % WORD
    case Div(x, d) => if d == 0 then 0 else Eval(x, a) / d
    case Byte(x, i) => ByteOf(Eval(x, a), i)
    case Concat(hi, lo, k) => Eval(hi, a) * Pow256(k) + Eval(lo, a)
    case Eq(l, r) => if Eval(l, a) == Eval(r, a) then 1 else 0
    case And(l, r) => if Eval(l, a) != 0 && Eval(r, a) != 0 then 1 else 0
    case Or(l, r) => if Eval(l, a) != 0 || Eval(r, a) != 0 then 1 else 0
    case Select(c, t, x) => if Eval(c, a) != 0 then Eval(t, a) else Eval(x, a)
  }

  lemma SmallRest(n: nat)
    requires n < WORD
    ensures n % WORD == n
  {
  }

  lemma TruncOfSmall(e: Expr, a: Assignment)
    requires Eval(e, a) < WORD
    ensures Eval(Trunc(e), a) == Eval(e, a)
  {
    SmallRest(Eval(e, a));
  }

  /** The newest update of cell i decides; below all updates the cell is `base`. */
  function UpdatesAt(u: Updates, base: nat, i: nat, a: Assignment): nat
    decreases u
  {
    match u
    case Nil => base
    case Upd(index, value, next) => if Eval(index, a) == i then Eval(value, a) else UpdatesAt(next, base, i, a)
  }

  function ListAt(ul: UpdateList, i: nat, a: Assignment): nat {
    UpdatesAt(ul.head, RootAt(ul.root, i, a), i, a)
  }

  function Extend(ul: UpdateList, index: Expr, value: Expr): UpdateList {
    ul.(head := Upd(index, value, ul.head))
  }

  lemma {:induction false} ExtendReads(ul: UpdateList, index: Expr, value: Expr)
    ensures forall i, a ::
      ListAt(Extend(ul, index, value), i, a) == if Eval(index, a) == i then Eval(value, a) else ListAt(ul, i, a)
  {
    forall i, a ensures ListAt(Extend(ul, index, value), i, a) ==
      if Eval(index, a) == i then Eval(value, a) else ListAt(ul, i, a)
    {
      var u := Upd(index, value, ul.head);
      assert UpdatesAt(u, RootAt(ul.root, i, a), i, a) ==
        if Eval(index, a) == i then Eval(value, a) else UpdatesAt(ul.head, RootAt(ul.root, i, a), i, a);
    }
  }

  function Length(u: Updates): nat {
    match u case Nil => 0 case Upd(_, _, next) => 1 + Length(next)
  }

  // ---------- building a read ----------

  /** What the builder can tell about the equality of two indices without a solver. */
  datatype Known = Same | Different | Unknown

  function Compare(x: Expr, y: Expr): Known {
    if x.Const? && y.Const? then (if x.v == y.v then Same else Different)
    else if x == y then Same
    else Unknown
  }

  /** Reads through updates that cannot matter, returning the value itself where it is certain. */
  method CreateRead(ul: UpdateList, index: Expr) returns (e: Expr)
    ensures forall a :: Eval(e, a) == ListAt(ul, Eval(index, a), a)
  {
    var un := ul.head;
    while un.Upd? && Compare(index, un.index).Different?
      invariant forall a ::
        ListAt(ul, Eval(index, a), a) == UpdatesAt(un, RootAt(ul.root, Eval(index, a), a), Eval(index, a), a)
      decreases un
    {
      un := un.next;
    }
    if un.Upd? && Compare(index, un.index).Same? {
      return un.value;
    }
    if ul.root.ConstArray? && un.Nil? && index.Const? && index.v < |ul.root.values| {
      return Const(ul.root.values[index.v]);
    }
    if index.Const? {
      return Read(UpdateList(ul.root, un), index);
    }
    return Read(ul, index);
  }

  // ---------- replaying writes, oldest first ----------

  datatype Write = Write(index: Expr, value: Expr)

  function OldestFirst(u: Updates): (ws: seq<Write>)
    ensures |ws| == Length(u)
  {
    match u case Nil => [] case Upd(index, value, next) => OldestFirst(next) + [Write(index, value)]
  }

  ghost function Replay(base: nat, ws: seq<Write>, i: nat, a: Assignment): nat {
    if ws == [] then base
    else
      var w := ws[|ws| - 1];
      if Eval(w.index, a) == i then Eval(w.value, a) else Replay(base, ws[..|ws| - 1], i, a)
  }

  lemma {:induction false} ReplayOneMore(base: nat, ws: seq<Write>, w: Write, i: nat, a: Assignment)
    ensures Replay(base, ws + [w], i, a) == if Eval(w.index, a) == i then Eval(w.value, a) else Replay(base, ws, i, a)
  {
    assert (ws + [w])[..|ws|] == ws && (ws + [w])[|ws|] == w;
  }

  lemma {:induction false} UpdatesAreReplayed(u: Updates, base: nat, i: nat, a: Assignment)
    ensures UpdatesAt(u, base, i, a) == Replay(base, OldestFirst(u), i, a)
  {
    if u.Upd? {
      UpdatesAreReplayed(u.next, base, i, a);
      ReplayOneMore(base, OldestFirst(u.next), Write(u.index, u.value), i, a);
    }
  }

  lemma {:induction false} ReplayInTwo(base: nat, xs: seq<Write>, ys: seq<Write>, i: nat, a: Assignment)
    ensures Replay(base, xs + ys, i, a) == Replay(Replay(base, xs, i, a), ys, i, a)
  {
    if ys == [] {
      assert xs + ys == xs;
    } else {
      ReplayInTwo(base, xs, ys[..|ys| - 1], i, a);
      assert (xs + ys)[..|xs + ys| - 1] == xs + ys[..|ys| - 1];
    }
  }

  predicate IsConstant(w: Write) { w.index.Const? && w.value.Const? }

  /** Constant updates stay inside the object. */
  ghost predicate InBounds(u: Updates, size: nat) {
    u.Upd? ==> (u.index.Const? ==> u.index.v < size) && InBounds(u.next, size)
  }

  lemma {:induction false} OldestInBounds(u: Updates, size: nat)
    requires InBounds(u, size)
    ensures forall k :: 0 <= k < |OldestFirst(u)| && OldestFirst(u)[k].index.Const? ==> OldestFirst(u)[k].index.v < size
  {
    if u.Upd? { OldestInBounds(u.next, size); }
  }

  /**
    The lazy making of the constant array: the longest prefix of constant
    writes goes into the array, the rest is replayed on top of it. No cell
    changes its value under any assignment.
   */
  method MakeRoot(ul: UpdateList, size: nat) returns (r: UpdateList, ghost prefix: nat)
    requires ul.root == NoRoot && InBounds(ul.head, size)
    ensures r.root.ConstArray? && |r.root.values| == size && InBounds(r.head, size)
    ensures forall i, a :: ListAt(r, i, a) == ListAt(ul, i, a)
    ensures prefix <= Length(ul.head) && OldestFirst(r.head) == OldestFirst(ul.head)[prefix..]
    ensures forall k :: 0 <= k < prefix ==> IsConstant(OldestFirst(ul.head)[k])
    ensures prefix < Length(ul.head) ==> !IsConstant(OldestFirst(ul.head)[prefix])
  {
    var writes := OldestFirst(ul.head);
    OldestInBounds(ul.head, size);
    var contents, begin := TakeConstants(writes, size);
    prefix := begin;
    r := UpdateList(ConstArray(contents), Nil);
    assert writes[begin..begin] == [];
    while begin < |writes|
      invariant prefix <= begin <= |writes|
      invariant r.root == ConstArray(contents) && InBounds(r.head, size)
      invariant OldestFirst(r.head) == writes[prefix..begin]
    {
      r := Extend(r, writes[begin].index, writes[begin].value);
      begin := begin + 1;
    }
    assert writes[prefix..begin] == writes[prefix..];
    forall i, a ensures ListAt(r, i, a) == ListAt(ul, i, a) { SameReplay(ul, r, prefix, i, a); }
  }

  /** Puts the longest constant prefix of the writes into an array. */
  method TakeConstants(writes: seq<Write>, size: nat) returns (contents: seq<nat>, begin: nat)
    requires forall k :: 0 <= k < |writes| && writes[k].index.Const? ==> writes[k].index.v < size
    ensures begin <= |writes| && |contents| == size
    ensures forall k :: 0 <= k < begin ==> IsConstant(writes[k])
    ensures begin < |writes| ==> !IsConstant(writes[begin])
    ensures forall i, a :: RootAt(ConstArray(contents), i, a) == Replay(0, writes[..begin], i, a)
  {
    contents := seq(size, _ => 0);
    begin := 0;
    while begin < |writes| && IsConstant(writes[begin])
      invariant begin <= |writes| && |contents| == size
      invariant forall k :: 0 <= k < begin ==> IsConstant(writes[k])
      invariant forall i, a :: RootAt(ConstArray(contents), i, a) == Replay(0, writes[..begin], i, a)
    {
      assert writes[..begin + 1][..begin] == writes[..begin];
      contents := contents[writes[begin].index.v := writes[begin].value.v];
      begin := begin + 1;
    }
  }

  /** A list whose array holds the first writes and whose log holds the others reads as the list of all writes. */
  lemma {:induction false} SameReplay(ul: UpdateList, r: UpdateList, prefix: nat, i: nat, a: Assignment)
    requires ul.root == NoRoot && prefix <= |OldestFirst(ul.head)|
    requires OldestFirst(r.head) == OldestFirst(ul.head)[prefix..]
    requires RootAt(r.root, i, a) == Replay(0, OldestFirst(ul.head)[..prefix], i, a)
    ensures ListAt(r, i, a) == ListAt(ul, i, a)
  {
    var writes, base := OldestFirst(ul.head), RootAt(r.root, i, a);
    calc {
      ListAt(r, i, a);
      UpdatesAt(r.head, base, i, a);
      { UpdatesAreReplayed(r.head, base, i, a); }
      Replay(Replay(0, writes[..prefix], i, a), writes[prefix..], i, a);
      { ReplayInTwo(0, writes[..prefix], writes[prefix..], i, a); }
      Replay(0, writes[..prefix] + writes[prefix..], i, a);
      { assert writes[..prefix] + writes[prefix..] == writes; }
      Replay(0, writes, i, a);
      { UpdatesAreReplayed(ul.head, 0, i, a); }
      ListAt(ul, i, a);
    }
  }

  // ---------- bytes of a number ----------

  function FromBytes(bs: seq<nat>): nat {
    if bs == [] then 0 else bs[0] + 256 * FromBytes(bs[1..])
  }

  lemma {:induction false} FromBytesAppend(bs: seq<nat>, b: nat)
    ensures FromBytes(bs + [b]) == FromBytes(bs) + b * Pow256(|bs|)
  {
    if bs == [] {
      assert bs + [b] == [b];
    } else {
      FromBytesAppend(bs[1..], b);
      assert (bs + [b])[1..] == bs[1..] + [b];
      var p := Pow256(|bs| - 1);
      assert 256 * (b * p) == b * (256 * p);
    }
  }

  /** Byte i of a number is its digit i to the base 256. */
  lemma {:induction false} ByteIsDigit(v: nat, i: nat)
    ensures ByteOf(v, i) == v / Pow256(i) % 256
  {
    if i > 0 {
      ByteIsDigit(v / 256, i - 1);
      DividedTwice(v, 256, Pow256(i - 1));
    }
  }

  lemma {:induction false} DigitsOfBytes(bs: seq<nat>, k: nat)
    requires k < |bs| && forall i :: 0 <= i < |bs| ==> bs[i] < 256
    ensures ByteOf(FromBytes(bs), k) == bs[k]
  {
    if k > 0 { DigitsOfBytes(bs[1..], k - 1); }
  }

  function BytesOf(v: nat, n: nat): (bs: seq<nat>)
    ensures |bs| == n
  {
    seq(n, i requires 0 <= i < n => ByteOf(v, i))
  }

  /** Taking a number apart into n bytes and putting it together again. */
  lemma {:induction false} BytesRoundTrip(v: nat, n: nat)
    requires v < Pow256(n)
    ensures FromBytes(BytesOf(v, n)) == v
  {
    if n > 0 {
      BytesRoundTrip(v / 256, n - 1);
      assert BytesOf(v, n)[1..] == BytesOf(v / 256, n - 1);
    }
  }
}
