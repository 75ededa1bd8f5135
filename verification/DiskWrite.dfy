/** What a WRITE10 does to the media: the RAM copy of table and directory is
    overwritten, the data area becomes page writes. */
module DiskWrite {
  import opened Bytes
  import opened Flash
  import opened Disk

  const PACKET: nat := 64

  /** The first byte of the directory entry of firmware.bin; 0xE5 there deletes it. */
  const NAME_AT: nat := BLOCK + FAT_SIZE + 32
  const DELETED: byte := 0xE5

  /** Data for the disk from offset `base` on, in whole packets. */
  predicate Extent(base: nat, d: seq<byte>) {
    base % BLOCK == 0 && Packets(|d|) && base + |d| <= MEMORY_SIZE
  }

  /** A whole number of packets. */
  predicate Packets(n: nat) {
    n == 0 || (n >= PACKET && Packets(n - PACKET))
  }

  lemma {:induction false} PacketsAre(n: nat)
    ensures Packets(n) <==> n % PACKET == 0
  {
    if n >= PACKET {
      PacketsAre(n - PACKET);
      PacketShift(n - PACKET, 1);
    }
  }

  function FatAfter(f: fatRoot, base: nat, d: seq<byte>): fatRoot {
    seq<byte>(FAT_SIZE + ROOT_SIZE, i requires 0 <= i < FAT_SIZE + ROOT_SIZE =>
      if base <= i + BLOCK < base + |d| then d[i + BLOCK - base] else f[i])
  }

  /** Under CRP2 and CRP3 deleting firmware.bin erases the user flash, once. */
  predicate Deletes(base: nat, d: seq<byte>, crp: Crp, erased: bool) {
    (crp.Crp2? || crp.Crp3?) && !erased && base <= NAME_AT < base + |d| && d[NAME_AT - base] == DELETED
  }

  function EraseOps(base: nat, d: seq<byte>, crp: Crp, erased: bool): seq<FlashOp> {
    if Deletes(base, d, crp, erased) then [EraseUser] else []
  }

  /** The part of the data that belongs to the flash, and the address it goes to. */
  function FlashPart(base: nat, d: seq<byte>): seq<byte> {
    if base >= DATA_START then d else if base + |d| <= DATA_START then [] else d[DATA_START - base..]
  }

  function FlashBase(base: nat): nat {
    USER_START + if base >= DATA_START then base - DATA_START else 0
  }

  /** The last page boundary up to `n`. */
  function Floor(n: nat): (r: nat)
    ensures r <= n < r + PAGE
  {
    if n < PAGE then 0 else PAGE + Floor(n - PAGE)
  }

  lemma {:induction false} FloorIs(n: nat)
    ensures Floor(n) == n - n % PAGE && Floor(n) % PAGE == 0
  {
    if n >= PAGE {
      FloorIs(n - PAGE);
      PageShift(n - PAGE, 1);
      PageShift(Floor(n - PAGE), 1);
    }
  }

  /** Cut to whole pages. */
  function Whole(t: seq<byte>): (r: seq<byte>)
    ensures |r| == Floor(|t|)
  {
    t[..Floor(|t|)]
  }

  function PartOps(base: nat, d: seq<byte>): seq<FlashOp>
    requires Extent(base, d)
  {
    FloorIs(|FlashPart(base, d)|);
    FlashBaseAligned(base);
    PageOps(FlashBase(base), Whole(FlashPart(base, d)))
  }

  /** Everything the flash is told by `d`. */
  function WriteOps(base: nat, d: seq<byte>, crp: Crp, erased: bool): seq<FlashOp>
    requires Extent(base, d)
  {
    EraseOps(base, d, crp, erased) + PartOps(base, d)
  }

  /** The media after all of `d` is written from `base` on. */
  function Written(m: Media, base: nat, d: seq<byte>, erased: bool): Media
    requires Extent(base, d)
  {
    m.(fat := FatAfter(m.fat, base, d), flash := ApplyAll(m.flash, WriteOps(base, d, m.crp, erased)))
  }

  lemma WrittenNothing(m: Media, base: nat, erased: bool)
    requires Extent(base, [])
    ensures Written(m, base, [], erased) == m
  {
    assert FatAfter(m.fat, base, []) == m.fat;
  }

  lemma FatStep(f: fatRoot, base: nat, d: seq<byte>, c: seq<byte>)
    ensures FatAfter(FatAfter(f, base, d), base + |d|, c) == FatAfter(f, base, d + c)
  {
  }

  lemma EraseStep(base: nat, d: seq<byte>, c: seq<byte>, crp: Crp, erased: bool)
    ensures EraseOps(base, d + c, crp, erased) ==
            EraseOps(base, d, crp, erased) + EraseOps(base + |d|, c, crp, erased || Deletes(base, d, crp, erased))
    ensures Deletes(base, d + c, crp, erased) ==
            (Deletes(base, d, crp, erased) || Deletes(base + |d|, c, crp, erased || Deletes(base, d, crp, erased)))
  {
  }

  /** A packet below the data area adds no page. */
  lemma PartBelow(base: nat, d: seq<byte>, c: seq<byte>)
    requires Extent(base, d + c) && Packets(|d|) && base + |d| + |c| <= DATA_START
    ensures PartOps(base, d) == [] && PartOps(base, d + c) == []
  {
  }

  /** How many bytes of the page at disk offset `off` have arrived when all before it have. */
  function Pending(off: nat): nat {
    if off <= DATA_START then 0 else off - Floor(off)
  }

  /** What `c` adds to the flash part, without regard to pages. */
  lemma FlashPartAppend(base: nat, d: seq<byte>, c: seq<byte>, k: nat)
    requires base + |d| >= DATA_START && k <= |FlashPart(base, d)|
    ensures FlashPart(base, d + c) == FlashPart(base, d) + c
    ensures FlashBase(base) + |FlashPart(base, d)| == USER_START + base + |d| - DATA_START
    ensures |FlashPart(base, d)| == |d| - (if base >= DATA_START then 0 else DATA_START - base)
    ensures Last(FlashPart(base, d), k) == Last(d, k)
  {
    var cut := if base >= DATA_START then 0 else DATA_START - base;
    if base >= DATA_START {
      assert FlashPart(base, d) == d;
    } else if base + |d| == DATA_START {
      assert FlashPart(base, d) == [] && FlashPart(base, d + c) == c;
    } else {
      TailsAgree(d, c, cut, k);
    }
  }

  lemma TailsAgree(d: seq<byte>, c: seq<byte>, cut: nat, k: nat)
    requires cut + k <= |d|
    ensures (d + c)[cut..] == d[cut..] + c && Last(d[cut..], k) == Last(d, k)
  {
  }

  lemma FlashPartStep(base: nat, d: seq<byte>, c: seq<byte>) returns (t: seq<byte>, k: nat)
    requires base % BLOCK == 0 && Packets(|d|) && base + |d| >= DATA_START
    ensures t == FlashPart(base, d) && FlashPart(base, d + c) == t + c && Packets(|t|)
    ensures k == Pending(base + |d|) && k <= |t| <= |d| && Floor(|t|) == |t| - k && Last(t, k) == Last(d, k)
    ensures FlashBase(base) + |t| == USER_START + base + |d| - DATA_START
  {
    t, k := FlashPart(base, d), Pending(base + |d|);
    FlashPartAppend(base, d, c, 0);
    PendingIn(base, |d|, |t|);
    FlashPartAppend(base, d, c, k);
  }

  /** The data area starts on a page, and blocks are whole pages. */
  lemma PendingIn(base: nat, n: nat, m: nat)
    requires base % BLOCK == 0 && Packets(n) && base + n >= DATA_START
    requires m == n - if base >= DATA_START then 0 else DATA_START - base
    ensures Packets(m) && Pending(base + n) <= m && Floor(m) == m - Pending(base + n)
  {
    PacketsAre(n);
    PacketsAre(m);
    FloorIs(m);
    FloorIs(base + n);
    var q := base / BLOCK;
    if base >= DATA_START {
      assert m == base + n - PAGE * (2 * q);
      PageShift(m, 2 * q);
    } else {
      assert base + n == m + PAGE * 8 && n - m == PACKET * (32 - 8 * q);
      PageShift(m, 8);
      PacketShift(m, 32 - 8 * q);
    }
  }

  lemma PageShift(m: nat, k: nat)
    ensures (m + PAGE * k) % PAGE == m % PAGE <= m
  {
    var q, r := m / PAGE, m % PAGE;
    assert m + PAGE * k == PAGE * (q + k) + r;
  }

  lemma PacketShift(m: nat, k: nat)
    ensures (m + PACKET * k) % PACKET == m % PACKET
  {
    var q, r := m / PACKET, m % PACKET;
    assert m + PACKET * k == PACKET * (q + k) + r;
  }

  /** A packet inside a page adds nothing yet. */
  lemma PartInside(base: nat, d: seq<byte>, c: seq<byte>)
    requires Extent(base, d) && Extent(base, d + c) && |c| == PACKET && base + |d| >= DATA_START
    requires Pending(base + |d|) + PACKET < PAGE
    ensures PartOps(base, d + c) == PartOps(base, d)
  {
    var t, k := FlashPartStep(base, d, c);
    Floors(|t|);
    WholeInside(t, c);
  }

  /** The page that a packet ends, made of the pending bytes and the packet. */
  function LastPage(base: nat, d: seq<byte>, c: seq<byte>): FlashOp
    requires Extent(base, d) && |c| == PACKET && DATA_START <= base + |d| < MEMORY_SIZE
    requires Pending(base + |d|) + PACKET == PAGE && Pending(base + |d|) <= |d|
  {
    var k := Pending(base + |d|);
    PacketsFrom(base, |d|);
    PendingStep(base + |d|);
    FloorIs(USER_START + (base + |d|) - k - DATA_START);
    LastMore(d, c, k);
    Page(USER_START + (base + |d|) - k - DATA_START, Last(d, k) + c)
  }

  lemma PartEnds(base: nat, d: seq<byte>, c: seq<byte>)
    requires Extent(base, d) && Extent(base, d + c) && |c| == PACKET && base + |d| >= DATA_START
    requires Pending(base + |d|) + PACKET == PAGE && Pending(base + |d|) <= |d|
    ensures PartOps(base, d + c) == PartOps(base, d) + [LastPage(base, d, c)]
  {
    var t, k := FlashPartStep(base, d, c);
    Floors(|t|);
    WholeEnds(t, c);
    LastOps(FlashBase(base), t, c, LastPage(base, d, c), base);
  }

  lemma LastOps(a: nat, t: seq<byte>, c: seq<byte>, op: FlashOp, base: nat)
    requires base % BLOCK == 0 && a == FlashBase(base) && |c| == PACKET && |t| - Floor(|t|) + PACKET == PAGE
    requires a + |t| + PACKET <= FLASH_SIZE && op.Page? && op.at == a + Floor(|t|)
             && op.data == Last(t, |t| - Floor(|t|)) + c
    ensures Floor(|t|) % PAGE == 0 && a % PAGE == 0 && USER_START <= a
            && |Whole(t) + (t[Floor(|t|)..] + c)| % PAGE == 0
    ensures PageOps(a, Whole(t) + (t[Floor(|t|)..] + c)) == PageOps(a, Whole(t)) + [op]
  {
    FlashBaseAligned(base);
    FloorIs(|t|);
    PageShift(Floor(|t|), 1);
    PageOpsStep(a, Whole(t), t[Floor(|t|)..] + c);
  }

  lemma FlashBaseAligned(base: nat)
    requires base % BLOCK == 0
    ensures FlashBase(base) % PAGE == 0
  {
    if base >= DATA_START {
      PageShift(0, 40 + 2 * (base / BLOCK));
    }
  }

  /** A packet moves on inside the page or ends it. */
  lemma Floors(n: nat)
    requires Packets(n)
    ensures n - Floor(n) + PACKET <= PAGE
    ensures Floor(n + PACKET) == if n - Floor(n) + PACKET < PAGE then Floor(n) else n + PACKET
  {
    PacketsAre(n);
    FloorIs(n);
    FloorIs(n + PACKET);
    InPage(n);
  }

  lemma WholeInside(t: seq<byte>, c: seq<byte>)
    requires Floor(|t| + |c|) == Floor(|t|)
    ensures Whole(t + c) == Whole(t)
  {
    assert |t + c| == |t| + |c|;
    Cuts(t, c, Floor(|t|));
  }

  lemma WholeEnds(t: seq<byte>, c: seq<byte>)
    requires Floor(|t| + |c|) == |t| + |c|
    ensures Whole(t + c) == Whole(t) + (t[Floor(|t|)..] + c)
  {
    assert |t + c| == |t| + |c|;
    Cuts(t, c, Floor(|t|));
  }

  lemma Cuts(t: seq<byte>, c: seq<byte>, f: nat)
    requires f <= |t|
    ensures (t + c)[..f] == t[..f] && (t + c)[..|t| + |c|] == t[..f] + (t[f..] + c)
  {
  }

  lemma PageOpsStep(a: nat, w: seq<byte>, p: seq<byte>)
    requires USER_START <= a && a % PAGE == 0 && |w| % PAGE == 0 && |p| == PAGE && a + |w| + PAGE <= FLASH_SIZE
    ensures |w + p| % PAGE == 0 && PageOps(a, w + p) == PageOps(a, w) + [Page(a + |w|, p)]
  {
    PageShift(|w|, 1);
    PageSum(a, |w|);
    assert (w + p)[..|w|] == w && (w + p)[|w|..] == p;
  }

  // ---- The media after one more packet

  lemma WrittenBelow(m: Media, base: nat, d: seq<byte>, c: seq<byte>, erased: bool)
    requires Extent(base, d) && Extent(base, d + c) && base + |d| + |c| <= DATA_START
    ensures var w := Written(m, base, d, erased);
            var e := erased || Deletes(base, d, m.crp, erased);
            Written(m, base, d + c, erased) ==
            w.(fat := FatAfter(w.fat, base + |d|, c), flash := ApplyAll(w.flash, EraseOps(base + |d|, c, m.crp, e)))
  {
    PartBelow(base, d, c);
    FatStep(m.fat, base, d, c);
    EraseStep(base, d, c, m.crp, erased);
    var ops := EraseOps(base, d, m.crp, erased);
    var more := EraseOps(base + |d|, c, m.crp, erased || Deletes(base, d, m.crp, erased));
    assert WriteOps(base, d, m.crp, erased) == ops && WriteOps(base, d + c, m.crp, erased) == ops + more;
    ApplyConcat(m.flash, ops, more);
  }

  lemma AboveFat(m: Media, base: nat, d: seq<byte>, c: seq<byte>, erased: bool)
    requires base + |d| >= DATA_START
    ensures FatAfter(m.fat, base, d + c) == FatAfter(m.fat, base, d)
    ensures EraseOps(base, d + c, m.crp, erased) == EraseOps(base, d, m.crp, erased)
    ensures Deletes(base, d + c, m.crp, erased) == Deletes(base, d, m.crp, erased)
  {
  }

  lemma WrittenInside(m: Media, base: nat, d: seq<byte>, c: seq<byte>, erased: bool)
    requires Extent(base, d) && Extent(base, d + c) && |c| == PACKET && base + |d| >= DATA_START
    requires Pending(base + |d|) + PACKET < PAGE
    ensures Written(m, base, d + c, erased) == Written(m, base, d, erased)
  {
    AboveFat(m, base, d, c, erased);
    PartInside(base, d, c);
  }

  lemma WrittenEnds(m: Media, base: nat, d: seq<byte>, c: seq<byte>, erased: bool)
    requires Extent(base, d) && Extent(base, d + c) && |c| == PACKET && base + |d| >= DATA_START
    requires Pending(base + |d|) + PACKET == PAGE && Pending(base + |d|) <= |d|
    ensures var w := Written(m, base, d, erased);
            Written(m, base, d + c, erased) == w.(flash := Apply(w.flash, LastPage(base, d, c)))
  {
    AboveFat(m, base, d, c, erased);
    PartEnds(base, d, c);
    ApplySnoc(m.flash, WriteOps(base, d, m.crp, erased), LastPage(base, d, c), WriteOps(base, d + c, m.crp, erased));
  }

  lemma ApplySnoc(m: memory, ops: seq<FlashOp>, op: FlashOp, all: seq<FlashOp>)
    requires all == ops + [op]
    ensures ApplyAll(m, all) == Apply(ApplyAll(m, ops), op)
  {
    assert all[..|ops|] == ops;
  }

  // ---- Packets

  /** The media, whether the user flash has been erased by a deletion, and the bytes
      that wait for their page. */
  datatype DiskState = DiskState(media: Media, erased: bool, waiting: seq<byte>)

  predicate IsPageAddress(a: int) {
    USER_START <= a && a + PAGE <= FLASH_SIZE && Floor(a) == a
  }

  /** What one packet for disk offset `off` does. */
  function TakePacket(s: DiskState, off: nat, c: seq<byte>): DiskState
    requires |c| == PACKET
  {
    var m := s.media;
    if off < DATA_START then
      s.(media := m.(fat := FatAfter(m.fat, off, c), flash := ApplyAll(m.flash, EraseOps(off, c, m.crp, s.erased))),
         erased := s.erased || Deletes(off, c, m.crp, s.erased))
    else if |s.waiting| + PACKET < PAGE then
      s.(waiting := s.waiting + c)
    else
      var a := USER_START + off - |s.waiting| - DATA_START;
      if |s.waiting| + PACKET == PAGE && IsPageAddress(a) then
        FloorIs(a);
        s.(media := m.(flash := Apply(m.flash, Page(a, s.waiting + c))), waiting := [])
      else s
  }

  /** The last `k` bytes. */
  function Last(d: seq<byte>, k: nat): seq<byte> {
    if 0 < k <= |d| then d[|d| - k..] else []
  }

  lemma LastMore(d: seq<byte>, c: seq<byte>, k: nat)
    requires k <= |d| && |c| > 0
    ensures Last(d, k) + c == Last(d + c, k + |c|) && |Last(d, k)| == k
  {
    assert k == 0 ==> (d + c)[|d + c| - |c|..] == c;
  }

  /** The state when `d` has been sent from `base` on. */
  function After(m: Media, erased: bool, base: nat, d: seq<byte>): DiskState
    requires Extent(base, d)
  {
    DiskState(Written(m, base, d, erased), erased || Deletes(base, d, m.crp, erased), Last(d, Pending(base + |d|)))
  }

  /** Packet by packet the device does what the whole transfer means. */
  lemma AfterStep(m: Media, erased: bool, base: nat, d: seq<byte>, c: seq<byte>)
    requires Extent(base, d) && Extent(base, d + c) && |c| == PACKET
    ensures TakePacket(After(m, erased, base, d), base + |d|, c) == After(m, erased, base, d + c)
  {
    if base + |d| < DATA_START {
      PacketsFrom(base, |d|);
      PacketFits(base + |d|);
      AfterStepBelow(m, erased, base, d, c);
    } else {
      AfterStepAbove(m, erased, base, d, c);
    }
  }

  lemma PacketFits(off: nat)
    requires Packets(off) && off < DATA_START
    ensures off + PACKET <= DATA_START
  {
    PacketsAre(off);
  }

  lemma AfterStepBelow(m: Media, erased: bool, base: nat, d: seq<byte>, c: seq<byte>)
    requires Extent(base, d) && Extent(base, d + c) && |c| == PACKET && base + |d| + PACKET <= DATA_START
    ensures TakePacket(After(m, erased, base, d), base + |d|, c) == After(m, erased, base, d + c)
  {
    WrittenBelow(m, base, d, c, erased);
    EraseStep(base, d, c, m.crp, erased);
    NothingWaits(m, erased, base, d);
    NothingWaits(m, erased, base, d + c);
  }

  /** Packets never straddle pages, and the pages of the disk are pages of the flash. */
  lemma InPage(off: nat)
    requires off % PACKET == 0
    ensures off % PAGE + PACKET < PAGE ==> (off + PACKET) % PAGE == off % PAGE + PACKET
    ensures off % PAGE + PACKET >= PAGE ==> off % PAGE + PACKET == PAGE && (off + PACKET) % PAGE == 0
    ensures off >= DATA_START ==>
              && (USER_START + off - off % PAGE - DATA_START) % PAGE == 0
              && off - off % PAGE >= DATA_START
  {
    var q, r, j := off / PAGE, off % PAGE, off / PACKET;
    assert off == PAGE * q + r && off == PACKET * j;
    assert r == PACKET * (j - 4 * q);
    if r + PACKET < PAGE {
      PageShift(r + PACKET, q);
    } else {
      PageShift(0, q + 1);
    }
    if off >= DATA_START {
      assert q >= 8;
      PageShift(0, 40 + q);
    }
  }

  lemma PageFits(a: nat)
    requires a % PAGE == 0 && a < FLASH_SIZE
    ensures a + PAGE <= FLASH_SIZE
  {
  }

  lemma PacketsFrom(base: nat, n: nat)
    requires base % BLOCK == 0 && Packets(n)
    ensures Packets(base + n)
  {
    PacketsAre(n);
    PacketsAre(base + n);
    PacketShift(n, 8 * (base / BLOCK));
  }

  /** One more packet: still in the page, or at its end; the page is one of the flash. */
  lemma PendingStep(off: nat)
    requires Packets(off) && DATA_START <= off < MEMORY_SIZE
    ensures Pending(off) + PACKET <= PAGE
    ensures Pending(off + PACKET) == if Pending(off) + PACKET < PAGE then Pending(off) + PACKET else 0
    ensures IsPageAddress(USER_START + off - Pending(off) - DATA_START)
  {
    PacketsAre(off);
    FloorIs(off);
    InPage(off);
    Floors(off);
    PageFits(USER_START + Floor(off) - DATA_START);
    FloorIs(USER_START + Floor(off) - DATA_START);
  }

  lemma AfterStepAbove(m: Media, erased: bool, base: nat, d: seq<byte>, c: seq<byte>)
    requires Extent(base, d) && Extent(base, d + c) && |c| == PACKET && base + |d| >= DATA_START
    ensures TakePacket(After(m, erased, base, d), base + |d|, c) == After(m, erased, base, d + c)
  {
    var off := base + |d|;
    PacketsFrom(base, |d|);
    PendingStep(off);
    var t, k := FlashPartStep(base, d, c);
    assert base + |d + c| == off + PACKET;
    if Pending(off) + PACKET < PAGE {
      AfterStepInside(m, erased, base, d, c);
    } else {
      AfterStepEnds(m, erased, base, d, c);
    }
  }

  lemma AfterStepInside(m: Media, erased: bool, base: nat, d: seq<byte>, c: seq<byte>)
    requires Extent(base, d) && Extent(base, d + c) && |c| == PACKET && base + |d| >= DATA_START
    requires Pending(base + |d|) + PACKET < PAGE && Pending(base + |d|) <= |d|
    requires Pending(base + |d + c|) == Pending(base + |d|) + PACKET
    ensures TakePacket(After(m, erased, base, d), base + |d|, c) == After(m, erased, base, d + c)
  {
    AboveFat(m, base, d, c, erased);
    WrittenInside(m, base, d, c, erased);
    LastMore(d, c, Pending(base + |d|));
  }

  lemma AfterStepEnds(m: Media, erased: bool, base: nat, d: seq<byte>, c: seq<byte>)
    requires Extent(base, d) && Extent(base, d + c) && |c| == PACKET && base + |d| >= DATA_START
    requires Pending(base + |d|) + PACKET == PAGE && Pending(base + |d|) <= |d| && Pending(base + |d + c|) == 0
    ensures TakePacket(After(m, erased, base, d), base + |d|, c) == After(m, erased, base, d + c)
  {
    AboveFat(m, base, d, c, erased);
    WrittenEnds(m, base, d, c, erased);
    var w, e := Written(m, base, d, erased), erased || Deletes(base, d, m.crp, erased);
    LastTaken(w, e, base, d, c);
  }

  lemma LastTaken(w: Media, e: bool, base: nat, d: seq<byte>, c: seq<byte>)
    requires Extent(base, d) && |c| == PACKET && DATA_START <= base + |d| < MEMORY_SIZE
    requires Pending(base + |d|) + PACKET == PAGE && Pending(base + |d|) <= |d|
    ensures TakePacket(DiskState(w, e, Last(d, Pending(base + |d|))), base + |d|, c) ==
            DiskState(w.(flash := Apply(w.flash, LastPage(base, d, c))), e, [])
  {
    LastMore(d, c, Pending(base + |d|));
    TakeEnds(w, e, Last(d, Pending(base + |d|)), base + |d|, c, LastPage(base, d, c).at);
  }

  lemma TakeEnds(w: Media, erased: bool, waiting: seq<byte>, off: nat, c: seq<byte>, a: pageAddress)
    requires |c| == PACKET && off >= DATA_START && |waiting| + PACKET == PAGE
    requires a + |waiting| + DATA_START == USER_START + off
    ensures TakePacket(DiskState(w, erased, waiting), off, c) ==
            DiskState(w.(flash := Apply(w.flash, Page(a, waiting + c))), erased, [])
  {
    FloorIs(a);
  }

  lemma NothingWaits(m: Media, erased: bool, base: nat, d: seq<byte>)
    requires Extent(base, d) && Pending(base + |d|) == 0
    ensures After(m, erased, base, d) ==
            DiskState(Written(m, base, d, erased), erased || Deletes(base, d, m.crp, erased), [])
  {
  }

  /** The packets of `d`, one after the other. */
  function Sent(s: DiskState, base: nat, d: seq<byte>): DiskState {
    if |d| < PACKET then s
    else
      var n := |d| - PACKET;
      TakePacket(Sent(s, base, d[..n]), base + n, d[n..])
  }

  lemma SentNext(s: DiskState, base: nat, d: seq<byte>, done: nat)
    requires done + PACKET <= |d|
    ensures Sent(s, base, d[..done + PACKET]) ==
            TakePacket(Sent(s, base, d[..done]), base + done, d[done..done + PACKET])
  {
    assert d[..done + PACKET][..done] == d[..done] && d[..done + PACKET][done..] == d[done..done + PACKET];
  }

  /** Packet by packet the device does what the transfer means as a whole. */
  lemma {:induction false} SentIsAfter(m: Media, erased: bool, base: nat, d: seq<byte>)
    requires Extent(base, d)
    ensures Sent(DiskState(m, erased, []), base, d) == After(m, erased, base, d)
    decreases |d|
  {
    if d == [] {
      WrittenNothing(m, base, erased);
    } else {
      var front, last := PacketOff(d);
      SentIsAfter(m, erased, base, front);
      SentAppend(DiskState(m, erased, []), base, front, last);
      AfterStep(m, erased, base, front, last);
    }
  }

  lemma PacketOff(d: seq<byte>) returns (front: seq<byte>, last: seq<byte>)
    requires Packets(|d|) && d != []
    ensures d == front + last && |last| == PACKET && Packets(|front|)
  {
    front, last := d[..|d| - PACKET], d[|d| - PACKET..];
  }

  lemma SentAppend(s: DiskState, base: nat, front: seq<byte>, last: seq<byte>)
    requires |last| == PACKET
    ensures Sent(s, base, front + last) == TakePacket(Sent(s, base, front), base + |front|, last)
  {
    var d := front + last;
    assert d[..|front|] == front && d[|front|..] == last;
  }

  lemma PacketLess(n: nat)
    requires n > 0 && n % PACKET == 0
    ensures n >= PACKET && (n - PACKET) % PACKET == 0
  {
  }

  lemma BlocksEndPages(base: nat, n: nat)
    requires base % BLOCK == 0 && n % BLOCK == 0
    ensures Pending(base + n) == 0
  {
    PageShift(0, 2 * (base / BLOCK) + 2 * (n / BLOCK));
    FloorIs(base + n);
  }

  /** A transfer of whole blocks leaves no byte waiting. */
  lemma SentWhole(m: Media, erased: bool, base: nat, d: seq<byte>)
    requires Extent(base, d) && |d| % BLOCK == 0
    ensures Sent(DiskState(m, erased, []), base, d) ==
            DiskState(Written(m, base, d, erased), erased || Deletes(base, d, m.crp, erased), [])
  {
    BlocksEndPages(base, |d|);
    SentIsAfter(m, erased, base, d);
    NothingWaits(m, erased, base, d);
  }
}
