/** Exactly when sessions of WRITE10 commands meet a disk: at a byte of the flash, the
    commands of one shape keep what they wrote last, for all data, or not. */
module Sessions {
  import opened Bytes
  import opened Flash
  import opened FlashExact
  import opened Disk
  import DiskWrite
  import opened Host
  import opened Firmware

  /** The same command with other data. */
  predicate SameCommand(c: command, d: command) {
    && c.tag == d.tag && c.lba == d.lba && c.Write? == d.Write?
    && if c.Write? then |d.data| == |c.data| else d == c
  }

  predicate SameCommands(cs: seq<command>, ds: seq<command>) {
    |cs| == |ds| && forall i | 0 <= i < |cs| :: SameCommand(cs[i], ds[i])
  }

  // ---- The shape of the page writes is that of the commands

  lemma {:induction false} SameShapePages(a: nat, d: seq<byte>, e: seq<byte>)
    requires USER_START <= a && a % PAGE == 0 && |d| % PAGE == 0 && |e| == |d| && a + |d| <= FLASH_SIZE
    ensures SameShape(PageOps(a, d), PageOps(a, e))
    decreases |d|
  {
    if d != [] {
      PageLess(|d|);
      var n := |d| - PAGE;
      SameShapePages(a, d[..n], e[..n]);
    }
  }

  lemma SameShapeConcat(a: seq<FlashOp>, b: seq<FlashOp>, c: seq<FlashOp>, d: seq<FlashOp>)
    requires SameShape(a, c) && SameShape(b, d)
    ensures SameShape(a + b, c + d)
  {
  }

  /** A write sends whole pages to the flash. */
  lemma PartPages(c: command)
    requires c.Write?
    ensures var a, d := DiskWrite.FlashBase(BLOCK * c.lba), DiskWrite.FlashPart(BLOCK * c.lba, c.data);
            && USER_START <= a && a % PAGE == 0 && |d| % PAGE == 0 && a + |d| <= FLASH_SIZE
            && OpsOf(c) == PageOps(a, d)
  {
    var base := BLOCK * c.lba;
    CommandExtent(c);
    DiskWrite.FlashBaseAligned(base);
    PartWhole(base, |c.data|);
    HalfBlocks(|DiskWrite.FlashPart(base, c.data)|);
    DiskWrite.FloorIs(|DiskWrite.FlashPart(base, c.data)|);
    assert DiskWrite.Whole(DiskWrite.FlashPart(base, c.data)) == DiskWrite.FlashPart(base, c.data);
  }

  lemma PartWhole(base: nat, n: nat)
    requires base % BLOCK == 0 && n % BLOCK == 0
    ensures base < DATA_START < base + n ==> (base + n - DATA_START) % BLOCK == 0
  {
  }

  lemma SameOps(c: command, d: command)
    requires SameCommand(c, d)
    ensures SameShape(OpsOf(c), OpsOf(d))
  {
    if c.Write? {
      PartPages(c);
      PartPages(d);
      var base := BLOCK * c.lba;
      SameShapePages(DiskWrite.FlashBase(base), DiskWrite.FlashPart(base, c.data), DiskWrite.FlashPart(base, d.data));
    }
  }

  lemma {:induction false} SameSessions(cs: seq<command>, ds: seq<command>)
    requires SameCommands(cs, ds)
    ensures SameShape(SessionOps(cs), SessionOps(ds))
  {
    if cs != [] {
      var n := |cs| - 1;
      SameSessions(cs[..n], ds[..n]);
      SameOps(cs[n], ds[n]);
      SameShapeConcat(SessionOps(cs[..n]), OpsOf(cs[n]), SessionOps(ds[..n]), OpsOf(ds[n]));
    }
  }

  // ---- And every choice of data for those pages is one session

  /** The data of page writes, joined. */
  function Joined(ops: seq<FlashOp>): seq<byte> {
    if ops == [] then []
    else Joined(ops[..|ops| - 1]) + if ops[|ops| - 1].Page? then ops[|ops| - 1].data else []
  }

  lemma {:induction false} PagesBack(a: nat, d: seq<byte>, ops: seq<FlashOp>)
    requires USER_START <= a && a % PAGE == 0 && |d| % PAGE == 0 && a + |d| <= FLASH_SIZE
    requires SameShape(PageOps(a, d), ops)
    ensures |Joined(ops)| == |d| && PageOps(a, Joined(ops)) == ops
    decreases |d|
  {
    if d != [] {
      PageLess(|d|);
      var front, op := LastPage(a, d, ops);
      PagesBack(a, d[..|d| - PAGE], front);
      PagesJoin(a, Joined(front), front, op);
    }
  }

  lemma LastPage(a: nat, d: seq<byte>, ops: seq<FlashOp>) returns (front: seq<FlashOp>, op: FlashOp)
    requires USER_START <= a && a % PAGE == 0 && |d| % PAGE == 0 && |d| >= PAGE && a + |d| <= FLASH_SIZE
    requires (|d| - PAGE) % PAGE == 0 && SameShape(PageOps(a, d), ops)
    ensures ops == front + [op] && op.Page? && op.at == a + |d| - PAGE
    ensures SameShape(PageOps(a, d[..|d| - PAGE]), front)
  {
    var all, k := PageOps(a, d), |ops| - 1;
    front, op := ops[..k], ops[k];
    assert all[k].Page? && all[..k] == PageOps(a, d[..|d| - PAGE]);
  }

  lemma PagesJoin(a: nat, d: seq<byte>, front: seq<FlashOp>, op: FlashOp)
    requires USER_START <= a && a % PAGE == 0 && |d| % PAGE == 0 && a + |d| + PAGE <= FLASH_SIZE
    requires d == Joined(front) && PageOps(a, d) == front && op.Page? && op.at == a + |d|
    ensures var j := Joined(front + [op]);
            |j| == |d| + PAGE && |j| % PAGE == 0 && PageOps(a, j) == front + [op]
  {
    JoinedMore(front, op);
    PageOpsMore(a, d, op.data);
  }

  lemma JoinedMore(front: seq<FlashOp>, op: FlashOp)
    requires op.Page?
    ensures Joined(front + [op]) == Joined(front) + op.data
  {
    assert (front + [op])[..|front|] == front;
  }

  lemma PageOpsMore(a: nat, d: seq<byte>, p: page)
    requires USER_START <= a && a % PAGE == 0 && |d| % PAGE == 0 && a + |d| + PAGE <= FLASH_SIZE
    ensures |d + p| % PAGE == 0 && (a + |d|) % PAGE == 0
    ensures PageOps(a, d + p) == PageOps(a, d) + [Page(a + |d|, p)]
  {
    PageSum(|d|, PAGE);
    PageSum(a, |d|);
    assert (d + p)[..|d|] == d && (d + p)[|d|..] == p;
  }

  /** The command that makes the flash see `ops`. */
  function Refill(c: command, ops: seq<FlashOp>): (r: command)
    requires SameShape(OpsOf(c), ops)
    ensures SameCommand(c, r)
  {
    if c.Write? then
      RefillFits(c, ops);
      WithData(c, c.data[..|c.data| - |Joined(ops)|] + Joined(ops))
    else c
  }

  function WithData(c: command, d: seq<byte>): (r: command)
    requires c.Write? && |d| == |c.data|
    ensures SameCommand(c, r) && r.Write? && r.data == d
  {
    c.(data := d)
  }

  lemma RefillFits(c: command, ops: seq<FlashOp>)
    requires c.Write? && SameShape(OpsOf(c), ops)
    ensures |Joined(ops)| <= |c.data|
  {
    PartPages(c);
    PagesBack(DiskWrite.FlashBase(BLOCK * c.lba), DiskWrite.FlashPart(BLOCK * c.lba, c.data), ops);
  }

  lemma RefillSends(c: command, ops: seq<FlashOp>)
    requires SameShape(OpsOf(c), ops)
    ensures OpsOf(Refill(c, ops)) == ops
  {
    if c.Write? {
      var base, r := BLOCK * c.lba, Refill(c, ops);
      PartPages(c);
      PartPages(r);
      PagesBack(DiskWrite.FlashBase(base), DiskWrite.FlashPart(base, c.data), ops);
      assert DiskWrite.FlashPart(base, r.data) == Joined(ops);
    }
  }

  lemma {:induction false} RefillSession(cs: seq<command>, ops: seq<FlashOp>) returns (ds: seq<command>)
    requires SameShape(SessionOps(cs), ops)
    ensures SameCommands(cs, ds) && SessionOps(ds) == ops
  {
    if cs == [] {
      ds := [];
    } else {
      var k, c := |cs| - 1, cs[|cs| - 1];
      var n := |SessionOps(cs[..k])|;
      ShapeParts(SessionOps(cs[..k]), OpsOf(c), ops);
      var front := RefillSession(cs[..k], ops[..n]);
      RefillSends(c, ops[n..]);
      ds := front + [Refill(c, ops[n..])];
      OneMore(cs, front, Refill(c, ops[n..]));
    }
  }

  lemma OneMore(cs: seq<command>, front: seq<command>, c: command)
    requires cs != [] && SameCommands(cs[..|cs| - 1], front) && SameCommand(cs[|cs| - 1], c)
    ensures SameCommands(cs, front + [c]) && SessionOps(front + [c]) == SessionOps(front) + OpsOf(c)
  {
    var k, ds := |cs| - 1, front + [c];
    assert ds[..k] == front;
    forall i | 0 <= i < |cs|
      ensures SameCommand(cs[i], ds[i])
    {
      if i < k {
        assert SameCommand(cs[..k][i], front[i]);
      }
    }
  }

  lemma ShapeParts(a: seq<FlashOp>, b: seq<FlashOp>, ops: seq<FlashOp>)
    requires SameShape(a + b, ops)
    ensures SameShape(a, ops[..|a|]) && SameShape(b, ops[|a|..]) && ops[..|a|] + ops[|a|..] == ops
  {
    forall i | 0 <= i < |a|
      ensures a[i].Page? == ops[i].Page? && (a[i].Page? ==> a[i].at == ops[i].at)
    {
      assert (a + b)[i] == a[i];
    }
    forall i | 0 <= i < |b|
      ensures b[i].Page? == ops[|a| + i].Page? && (b[i].Page? ==> b[i].at == ops[|a| + i].at)
    {
      assert (a + b)[|a| + i] == b[i];
    }
  }

  // ---- The theorem

  /** After the session the byte holds what was written to it last. */
  predicate Keeps(s: Store, cs: seq<command>, x: address) {
    Written(SessionOps(cs), x) && StoreAfter(s, cs).media.flash[x] == LastDatum(SessionOps(cs), x)
  }

  lemma KeepsIsReadsBack(s: Store, cs: seq<command>, x: address)
    requires s.media.crp == NoCrp
    ensures Keeps(s, cs, x) <==> ReadsBack(s.media.flash, SessionOps(cs), x)
  {
    SessionFlash(s, cs);
  }

  /** For a session of any commands on an unprotected disk: the byte holds what was written
      to it last for all data and whatever the disk held before, if and only if the history
      of page writes is fresh at the byte. */
  lemma SessionExactly(cs: seq<command>, x: address)
    requires Written(SessionOps(cs), x)
    ensures Fresh(SessionOps(cs), x) <==>
            forall s: Store, ds | s.media.crp == NoCrp && SameCommands(cs, ds) :: Keeps(s, ds, x)
  {
    DiskExactly(SessionOps(cs), x);
    if Fresh(SessionOps(cs), x) {
      forall s: Store, ds | s.media.crp == NoCrp && SameCommands(cs, ds)
        ensures Keeps(s, ds, x)
      {
        SameSessions(cs, ds);
        KeepsIsReadsBack(s, ds, x);
      }
    } else {
      var m: memory, data :| SameShape(SessionOps(cs), data) && !ReadsBack(m, data, x);
      var ds := RefillSession(cs, data);
      var s := Store(Media(seq(FAT_SIZE + ROOT_SIZE, _ => 0), m, NoCrp), false);
      KeepsIsReadsBack(s, ds, x);
    }
  }
}
