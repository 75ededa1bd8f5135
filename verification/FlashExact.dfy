/** Exactly when a flash written page by page behaves as a disk. */
module FlashExact {
  import opened Bytes
  import opened Flash

  predicate Covers(op: FlashOp, x: address) {
    op.Page? && op.at <= x < op.at + PAGE
  }

  /** The same operations with other data. */
  predicate SameShape(a: seq<FlashOp>, b: seq<FlashOp>) {
    |a| == |b| && forall i | 0 <= i < |a| :: a[i].Page? == b[i].Page? && (a[i].Page? ==> a[i].at == b[i].at)
  }

  predicate Written(ops: seq<FlashOp>, x: address) {
    ops != [] && (Covers(ops[|ops| - 1], x) || Written(ops[..|ops| - 1], x))
  }

  /** What a disk would return: the datum written last. */
  function LastDatum(ops: seq<FlashOp>, x: address): byte
    requires Written(ops, x)
  {
    var op := ops[|ops| - 1];
    if Covers(op, x) then op.data[x - op.at] else LastDatum(ops[..|ops| - 1], x)
  }

  lemma {:induction false} HoldsLast(ops: seq<FlashOp>, x: address)
    requires CellOf(ops, x).Holds?
    ensures Written(ops, x) && CellOf(ops, x).d == LastDatum(ops, x)
  {
    if !Covers(ops[|ops| - 1], x) {
      HoldsLast(ops[..|ops| - 1], x);
    }
  }

  lemma {:induction false} ShapeDecides(a: seq<FlashOp>, b: seq<FlashOp>, x: address)
    requires SameShape(a, b)
    ensures CellOf(a, x).Holds? == CellOf(b, x).Holds? && CellOf(a, x).Blank? == CellOf(b, x).Blank?
    ensures Written(a, x) == Written(b, x)
  {
    if a != [] {
      var n := |a| - 1;
      assert a[n].Page? == b[n].Page?;
      ShapeDecides(a[..n], b[..n], x);
    }
  }

  // ---- Data that betray a flash that is not a disk

  function Filled(op: FlashOp, d: byte): FlashOp {
    if op.Page? then Page(op.at, seq(PAGE, _ => d)) else op
  }

  function ZeroData(ops: seq<FlashOp>): seq<FlashOp> {
    seq(|ops|, i requires 0 <= i < |ops| => Filled(ops[i], 0))
  }

  const Zeros: memory := seq(FLASH_SIZE, _ => 0)

  lemma ZeroStep(m: memory, op: FlashOp, c: Cell, x: address)
    requires !CellAfter(c, op, x).Blank? && (c.Blank? || m[x] == 0)
    ensures Apply(m, Filled(op, 0))[x] == 0
  {
    AndErased(0);
    if op.Page? && Covers(op, x) && !Erases(op.at) {
      AndAnyZero(m[x]);
    }
  }

  lemma AndAnyZero(a: byte)
    ensures And(a, 0) == 0
  {
    AndBound(a, 0, 8);
  }

  lemma {:induction false} ZeroStays(ops: seq<FlashOp>, x: address)
    requires !CellOf(ops, x).Blank?
    ensures ApplyAll(Zeros, ZeroData(ops))[x] == 0
  {
    if ops != [] {
      var n := |ops| - 1;
      assert ZeroData(ops)[..n] == ZeroData(ops[..n]);
      if !CellOf(ops[..n], x).Blank? {
        ZeroStays(ops[..n], x);
      }
      ZeroStep(ApplyAll(Zeros, ZeroData(ops[..n])), ops[n], CellOf(ops[..n], x), x);
    }
  }

  lemma {:induction false} ZeroLast(ops: seq<FlashOp>, x: address)
    requires Written(ops, x)
    ensures Written(ZeroData(ops), x) && LastDatum(ZeroData(ops), x) == 0
  {
    var n := |ops| - 1;
    assert ZeroData(ops)[..n] == ZeroData(ops[..n]);
    if !Covers(ops[n], x) {
      ZeroLast(ops[..n], x);
    }
  }

  /** All zeros, but 0xFF in the last page that covers `x`. */
  function Betray(ops: seq<FlashOp>, x: address): (r: seq<FlashOp>)
    ensures |r| == |ops|
  {
    if ops == [] then []
    else
      var n := |ops| - 1;
      if Covers(ops[n], x) then ZeroData(ops[..n]) + [Filled(ops[n], 0xFF)]
      else Betray(ops[..n], x) + [Filled(ops[n], 0)]
  }

  lemma {:induction false} BetrayShape(ops: seq<FlashOp>, x: address)
    requires Written(ops, x)
    ensures SameShape(ops, Betray(ops, x)) && Written(Betray(ops, x), x) && LastDatum(Betray(ops, x), x) == 0xFF
  {
    var n, b := |ops| - 1, Betray(ops, x);
    if !Covers(ops[n], x) {
      assert b[..n] == Betray(ops[..n], x);
      BetrayShape(ops[..n], x);
    }
  }

  lemma BetrayStep(m: memory, op: FlashOp, c: Cell, x: address)
    requires CellAfter(c, op, x).Unknown? && m[x] == 0
    ensures Apply(m, Filled(op, if Covers(op, x) then 0xFF else 0))[x] == 0
  {
    AndErased(0xFF);
  }

  lemma {:induction false} Betrayed(ops: seq<FlashOp>, x: address)
    requires CellOf(ops, x).Unknown? && Written(ops, x)
    ensures ApplyAll(Zeros, Betray(ops, x))[x] == 0
  {
    var n, b := |ops| - 1, Betray(ops, x);
    if Covers(ops[n], x) {
      assert b[..n] == ZeroData(ops[..n]);
      ZeroStays(ops[..n], x);
    } else {
      assert b[..n] == Betray(ops[..n], x);
      Betrayed(ops[..n], x);
    }
    BetrayStep(ApplyAll(Zeros, b[..n]), ops[n], CellOf(ops[..n], x), x);
  }

  /** As a disk would. */
  ghost predicate ReadsBack(m: memory, ops: seq<FlashOp>, x: address) {
    Written(ops, x) && ApplyAll(m, ops)[x] == LastDatum(ops, x)
  }

  // ---- The condition on the history

  /** The operation erases the sector of `x`. */
  predicate Wipes(op: FlashOp, x: address) {
    match op
    case EraseUser => SectorOf(x) >= USER_START_SECTOR
    case Page(a, _) => Erases(a) && SectorOf(a) == SectorOf(x)
  }

  /** Operation `j` erased the byte, and nothing was written to it from then to before `n`. */
  predicate BlankFrom(ops: seq<FlashOp>, x: address, n: nat, j: nat)
    requires n <= |ops|
  {
    j < n && Wipes(ops[j], x) && forall m | j <= m < n :: !Covers(ops[m], x)
  }

  /** Operation `k` wrote the byte when it was blank, or erased it first, and from then to
      before `n` it was neither written nor erased. */
  predicate HeldFrom(ops: seq<FlashOp>, x: address, n: nat, k: nat)
    requires n <= |ops|
  {
    && k < n && Covers(ops[k], x)
    && (Wipes(ops[k], x) || exists j :: 0 <= j < k && BlankFrom(ops, x, k, j))
    && forall m | k < m < n :: !Covers(ops[m], x) && !Wipes(ops[m], x)
  }

  lemma CellNext(ops: seq<FlashOp>, x: address, n: nat)
    requires n < |ops|
    ensures var c, d, op := CellOf(ops[..n], x), CellOf(ops[..n + 1], x), ops[n];
            && (d.Blank? <==> !Covers(op, x) && (Wipes(op, x) || c.Blank?))
            && (d.Holds? <==> if Covers(op, x) then Wipes(op, x) || c.Blank? else !Wipes(op, x) && c.Holds?)
  {
    assert ops[..n + 1][..n] == ops[..n];
  }

  lemma {:induction false} FindBlank(ops: seq<FlashOp>, x: address, n: nat) returns (j: nat)
    requires n <= |ops| && CellOf(ops[..n], x).Blank?
    ensures BlankFrom(ops, x, n, j)
  {
    CellNext(ops, x, n - 1);
    if Wipes(ops[n - 1], x) {
      j := n - 1;
    } else {
      j := FindBlank(ops, x, n - 1);
    }
  }

  lemma {:induction false} BlankStays(ops: seq<FlashOp>, x: address, n: nat, j: nat)
    requires n <= |ops| && BlankFrom(ops, x, n, j)
    ensures CellOf(ops[..n], x).Blank?
    decreases n
  {
    CellNext(ops, x, n - 1);
    if j < n - 1 {
      BlankStays(ops, x, n - 1, j);
    }
  }

  lemma {:induction false} FindHeld(ops: seq<FlashOp>, x: address, n: nat) returns (k: nat)
    requires n <= |ops| && CellOf(ops[..n], x).Holds?
    ensures HeldFrom(ops, x, n, k)
  {
    CellNext(ops, x, n - 1);
    if Covers(ops[n - 1], x) {
      k := n - 1;
      if !Wipes(ops[k], x) {
        var j := FindBlank(ops, x, k);
      }
    } else {
      k := FindHeld(ops, x, n - 1);
    }
  }

  lemma {:induction false} HeldStays(ops: seq<FlashOp>, x: address, n: nat, k: nat)
    requires n <= |ops| && HeldFrom(ops, x, n, k)
    ensures CellOf(ops[..n], x).Holds?
    decreases n
  {
    CellNext(ops, x, n - 1);
    if k < n - 1 {
      HeldStays(ops, x, n - 1, k);
    } else if !Wipes(ops[k], x) {
      var j :| 0 <= j < k && BlankFrom(ops, x, k, j);
      BlankStays(ops, x, k, j);
    }
  }

  /** The last page that covers the byte found it erased and not written since, or erased
      it itself, and no erasure followed. */
  predicate Fresh(ops: seq<FlashOp>, x: address) {
    exists k :: 0 <= k < |ops| && HeldFrom(ops, x, |ops|, k)
  }

  lemma FreshIsHeld(ops: seq<FlashOp>, x: address)
    ensures Fresh(ops, x) <==> CellOf(ops, x).Holds?
  {
    assert ops[..|ops|] == ops;
    if CellOf(ops, x).Holds? {
      var k := FindHeld(ops, x, |ops|);
    }
    if Fresh(ops, x) {
      var k :| 0 <= k < |ops| && HeldFrom(ops, x, |ops|, k);
      HeldStays(ops, x, |ops|, k);
    }
  }

  /** Reading back returns the datum written last, for all data and all previous
      contents, if and only if the history is fresh at the byte. */
  lemma DiskExactly(ops: seq<FlashOp>, x: address)
    requires Written(ops, x)
    ensures Fresh(ops, x) <==>
            forall m: memory, data | SameShape(ops, data) :: ReadsBack(m, data, x)
  {
    FreshIsHeld(ops, x);
    if CellOf(ops, x).Holds? {
      forall m: memory, data | SameShape(ops, data)
        ensures ReadsBack(m, data, x)
      {
        HeldReadsBack(ops, m, data, x);
      }
    } else if CellOf(ops, x).Blank? {
      ZeroLast(ops, x);
      ShapeDecides(ops, ZeroData(ops), x);
      CellSound(Zeros, ZeroData(ops), x);
      assert SameShape(ops, ZeroData(ops)) && !ReadsBack(Zeros, ZeroData(ops), x);
    } else {
      BetrayShape(ops, x);
      Betrayed(ops, x);
      assert !ReadsBack(Zeros, Betray(ops, x), x);
    }
  }

  lemma HeldReadsBack(ops: seq<FlashOp>, m: memory, data: seq<FlashOp>, x: address)
    requires SameShape(ops, data) && CellOf(ops, x).Holds?
    ensures ReadsBack(m, data, x)
  {
    ShapeDecides(ops, data, x);
    HoldsLast(data, x);
    CellSound(m, data, x);
  }

  lemma TwoOps(m: memory, p: FlashOp, q: FlashOp, x: address)
    ensures ApplyAll(m, [p, q]) == Apply(Apply(m, p), q)
    ensures CellOf([p, q], x) == CellAfter(CellAfter(Unknown, p, x), q, x)
  {
    var one := [p];
    assert [p, q][..1] == one && one[..0] == [];
    assert ApplyAll(m, one) == Apply(ApplyAll(m, []), p) == Apply(m, p);
    assert CellOf(one, x) == CellAfter(CellOf([], x), p, x);
  }

  /** A failing history: the same page inside a sector written twice without an erasure in
      between keeps the zeros of the first write, whatever the second one is. */
  lemma SecondWriteLost(m: memory, a: pageAddress, x: address)
    requires !Erases(a) && a <= x < a + PAGE
    ensures var ops := [Page(a, seq(PAGE, _ => 0)), Page(a, seq(PAGE, _ => 0xFF))];
            Written(ops, x) && !Fresh(ops, x) && LastDatum(ops, x) == 0xFF && ApplyAll(m, ops)[x] == 0
  {
    var first, second := Page(a, seq(PAGE, _ => 0)), Page(a, seq(PAGE, _ => 0xFF));
    TwoOps(m, first, second, x);
    AndAnyZero(m[x]);
    AndErased(0xFF);
    assert Apply(m, first)[x] == 0;
    FreshIsHeld([first, second], x);
  }
}
