/** What a host can rely on, in terms of the bytes it sends and gets: the read protection,
    deletion, the directory, the capacity reply and the status wrapper. */
module HostView {
  import opened Bytes
  import opened Flash
  import opened Disk
  import DiskWrite
  import opened Bot
  import opened Msc
  import opened Host
  import Bus

  // ---- Read protection

  /** The same but for the flash. */
  predicate SameButFlash(m: Media, n: Media) {
    m.fat == n.fat && m.crp == n.crp
  }

  lemma BytesHidden(m: Media, n: Media, off: nat, k: nat)
    requires SameButFlash(m, n) && m.crp != NoCrp && off + k <= MEMORY_SIZE
    ensures DiskBytes(m, off, k) == DiskBytes(n, off, k)
  {
    forall i | 0 <= i < k
      ensures DiskBytes(m, off, k)[i] == DiskBytes(n, off, k)[i]
    {
      ByteHidden(m, n, off + i);
    }
  }

  lemma ByteHidden(m: Media, n: Media, off: nat)
    requires SameButFlash(m, n) && m.crp != NoCrp && off < MEMORY_SIZE
    ensures DiskByte(m, off) == DiskByte(n, off)
  {
  }

  lemma {:induction false} PacketsHidden(m: Media, n: Media, at: nat, want: nat)
    requires SameButFlash(m, n) && m.crp != NoCrp && at <= MEMORY_SIZE
    ensures ReadPackets(m, at, want) == ReadPackets(n, at, want)
    decreases want
  {
    var k := ReadCount(at, want);
    BytesHidden(m, n, at, k);
    if ReadStage(at, want) == DataIn {
      PacketsHidden(m, n, at + k, want - k);
    }
  }

  predicate AllZero(r: seq<byte>) {
    forall i | 0 <= i < |r| :: r[i] == 0
  }

  /** At any level of protection READ10 of the data area returns zeros. */
  lemma ProtectedReadsZeros(s: Store, c: command)
    requires s.media.crp != NoCrp && c.Read? && c.lba >= 4
    ensures var a := Answer(s, c); |a| > 0 && AllZero(Collected(a[..|a| - 1]))
  {
    AnswerCarries(s, c);
    DataZero(s.media, BLOCK * c.lba, OnDisk(BLOCK * c.lba, BLOCK * c.n));
  }

  lemma DataZero(m: Media, off: nat, k: nat)
    requires m.crp != NoCrp && DATA_START <= off && off + k <= MEMORY_SIZE
    ensures AllZero(DiskBytes(m, off, k))
  {
    var r := DiskBytes(m, off, k);
    forall i | 0 <= i < k
      ensures r[i] == 0
    {
      assert r[i] == DiskByte(m, off + i);
    }
  }

  predicate StoresAlike(s: Store, t: Store) {
    SameButFlash(s.media, t.media) && s.erased == t.erased
  }

  /** Under protection nothing a host is sent depends on the flash: two stores that differ
      in the flash alone give the same answers over every session. */
  lemma {:induction false} SessionHidden(s: Store, t: Store, cs: seq<command>)
    requires StoresAlike(s, t) && s.media.crp != NoCrp
    ensures StoresAlike(StoreAfter(s, cs), StoreAfter(t, cs)) && StoreAfter(s, cs).media.crp == s.media.crp
    ensures Answers(s, cs) == Answers(t, cs)
  {
    if cs != [] {
      var front, c := cs[..|cs| - 1], cs[|cs| - 1];
      SessionHidden(s, t, front);
      StepHidden(StoreAfter(s, front), StoreAfter(t, front), c);
    }
  }

  lemma StepHidden(s: Store, t: Store, c: command)
    requires StoresAlike(s, t) && s.media.crp != NoCrp
    ensures StoresAlike(StoreStep(s, c), StoreStep(t, c)) && StoreStep(s, c).media.crp == s.media.crp
    ensures Answer(s, c) == Answer(t, c)
  {
    if c.Read? {
      PacketsHidden(s.media, t.media, BLOCK * c.lba, BLOCK * c.n);
    }
  }

  /** Two states of the bus that differ in the flash alone. */
  predicate BusAlike(b: Bus.Bus, c: Bus.Bus) {
    && b.(disk := c.disk) == c && SameButFlash(b.disk.media, c.disk.media)
    && b.disk.erased == c.disk.erased && |b.disk.waiting| == |c.disk.waiting|
  }

  lemma TakenHidden(b: Bus.Bus, c: Bus.Bus)
    requires BusAlike(b, c) && b.disk.media.crp != NoCrp && Bus.Sane(b)
    ensures BusAlike(Bus.Taken(b), Bus.Taken(c)) && Bus.Taken(b).disk == b.disk
  {
    if b.stage == DataIn {
      BytesHidden(b.disk.media, c.disk.media, b.offset, ReadCount(b.offset, b.length));
    }
  }

  lemma GivenHidden(b: Bus.Bus, c: Bus.Bus, p: seq<byte>)
    requires BusAlike(b, c) && b.disk.media.crp != NoCrp && Bus.Sane(b) && Bus.Allowed(b.stage, Bus.HostSends(p))
    ensures BusAlike(Bus.Given(b, p), Bus.Given(c, p))
    ensures Bus.Given(b, p).disk.media.crp == b.disk.media.crp
  {
    if b.stage == AwaitCbw {
      CommandedHidden(b, c, p);
    } else if b.stage == DataOut {
      FedHidden(b, c, p);
    }
  }

  lemma FedHidden(b: Bus.Bus, c: Bus.Bus, p: seq<byte>)
    requires BusAlike(b, c) && Bus.Sane(b) && b.stage == DataOut && |p| == DiskWrite.PACKET
    ensures BusAlike(Bus.Fed(b, p), Bus.Fed(c, p)) && Bus.Fed(b, p).disk.media.crp == b.disk.media.crp
  {
    var x, y := DiskWrite.TakePacket(b.disk, b.offset, p), DiskWrite.TakePacket(c.disk, b.offset, p);
    assert SameButFlash(x.media, y.media) && x.erased == y.erased && |x.waiting| == |y.waiting|;
  }

  lemma CommandedHidden(b: Bus.Bus, c: Bus.Bus, p: seq<byte>)
    requires BusAlike(b, c) && b.disk.media.crp != NoCrp && Conforms(p)
    ensures BusAlike(Bus.Commanded(b, p), Bus.Commanded(c, p)) && Bus.Commanded(b, p).disk == b.disk
  {
    if |p| == CBW_SIZE && Signed(p) && ReadsDisk(p) {
      var at := BLOCK * Lba(p);
      BytesHidden(b.disk.media, c.disk.media, at, ReadCount(at, BLOCK * Blocks(p)));
    }
  }

  /** Nor over any run of bus events, down to the packets, stalls and status. */
  lemma {:induction false} RunHidden(b: Bus.Bus, c: Bus.Bus, es: seq<Bus.BulkEvent>)
    requires BusAlike(b, c) && b.disk.media.crp != NoCrp
    ensures BusAlike(Bus.After(b, es), Bus.After(c, es)) && Bus.After(b, es).disk.media.crp == b.disk.media.crp
    ensures Bus.After(b, es).outs == Bus.After(c, es).outs
  {
    if es != [] {
      var front, e := es[..|es| - 1], es[|es| - 1];
      RunHidden(b, c, front);
      var b1, c1 := Bus.After(b, front), Bus.After(c, front);
      if Bus.Sane(b1) && Bus.Allowed(b1.stage, e) {
        if e.HostSends? {
          GivenHidden(b1, c1, e.packet);
        } else {
          TakenHidden(b1, c1);
        }
      }
    }
  }

  /** Two live devices that differ in the flash alone, under the same protection, cannot be
      told apart by any host. */
  method Twins(d: Device, e: Device, es: seq<Bus.BulkEvent>)
    requires d.Valid() && e.Valid() && d.Parts() !! e.Parts()
    requires BusAlike(Bus.Abs(d), Bus.Abs(e)) && d.crp != NoCrp
    modifies d.Parts(), e.Parts()
    ensures d.Valid() && e.Valid() && d.outs == e.outs && d.stage == e.stage
  {
    RunHidden(Bus.Abs(d), Bus.Abs(e), es);
    ghost var c := Bus.Abs(e);
    Bus.Run(d, es);
    assert Bus.Abs(e) == c;
    Bus.Run(e, es);
  }

  // ---- Deletion and the directory

  /** The first byte of the name of firmware.bin is at 1568 of the disk. */
  lemma NamePlace(m: Media)
    requires RootIs(m.fat)
    ensures ReadGeometry(m).rootAt + 32 == 1568 && DiskByte(m, 1568) == 'F' as int
  {
    GeometryOf(m);
    EntryFields(m);
    assert DiskByte(m, BLOCK + FAT_SIZE + 32 + 0) == FIRMWARE_BIN[0];
  }

  /** The write marks that name as deleted. */
  predicate MarksDeleted(c: command) {
    c.Write? && 512 * c.lba <= 1568 < 512 * c.lba + |c.data| && c.data[1568 - 512 * c.lba] == 0xE5
  }

  /** A write in front of the data area changes the flash only if it marks firmware.bin as
      deleted, under CRP2 or CRP3, for the first time; then all of the user flash is blank. */
  lemma DirectoryWrite(s: Store, c: command)
    requires c.Write? && 512 * c.lba + |c.data| <= 2048
    ensures var erases := MarksDeleted(c) && !s.erased && (s.media.crp == Crp2 || s.media.crp == Crp3);
            var t := StoreStep(s, c);
            && t.erased == (s.erased || erases)
            && if erases then t.media.flash[..USER_START] == s.media.flash[..USER_START]
                              && forall x | USER_START <= x < FLASH_SIZE :: t.media.flash[x] == 0xFF
               else t.media.flash == s.media.flash
  {
    CommandExtent(c);
    var base := BLOCK * c.lba;
    assert DiskWrite.PartOps(base, c.data) == [];
    var ops := DiskWrite.EraseOps(base, c.data, s.media.crp, s.erased);
    assert ops + [] == ops;
    if ops != [] {
      ErasedIs(s.media.flash, ops);
    }
  }

  lemma ErasedIs(m: memory, ops: seq<FlashOp>)
    requires ops == [EraseUser]
    ensures ApplyAll(m, ops)[..USER_START] == m[..USER_START]
    ensures forall x | USER_START <= x < FLASH_SIZE :: ApplyAll(m, ops)[x] == 0xFF
  {
    assert ops[..0] == [];
    assert ApplyAll(m, ops) == Apply(m, EraseUser);
  }

  /** Byte `off` of the disk after `d` is written from `base` on: table and directory take
      it, the boot sector does not. */
  function LowByte(m: Media, base: nat, d: seq<byte>, off: nat): byte
    requires off < DATA_START
  {
    if 512 <= off && base <= off < base + |d| then d[off - base] else DiskByte(m, off)
  }

  /** Table and directory read back what was written to them; the boot sector stays. */
  lemma DirectoryReadsBack(s: Store, c: command, off: nat)
    requires c.Write? && off < 2048
    ensures DiskByte(StoreStep(s, c).media, off) == LowByte(s.media, 512 * c.lba, c.data, off)
  {
    StepFat(s, c);
    FatRead(s.media, StoreStep(s, c).media, 512 * c.lba, c.data, off);
  }

  lemma StepFat(s: Store, c: command)
    requires c.Write?
    ensures StoreStep(s, c).media.fat == DiskWrite.FatAfter(s.media.fat, 512 * c.lba, c.data)
  {
    CommandExtent(c);
  }

  lemma FatRead(m: Media, n: Media, base: nat, d: seq<byte>, off: nat)
    requires off < DATA_START && n.fat == DiskWrite.FatAfter(m.fat, base, d)
    ensures DiskByte(n, off) == LowByte(m, base, d, off)
  {
    if off >= BLOCK {
      FatByte(m.fat, base, d, off - BLOCK);
      assert DiskByte(n, off) == n.fat[off - BLOCK] && DiskByte(m, off) == m.fat[off - BLOCK];
    } else {
      assert DiskByte(n, off) == BootByte(off) == DiskByte(m, off);
    }
  }

  lemma FatByte(f: fatRoot, base: nat, d: seq<byte>, i: nat)
    requires i < FAT_SIZE + ROOT_SIZE
    ensures DiskWrite.FatAfter(f, base, d)[i] == if base <= i + BLOCK < base + |d| then d[i + BLOCK - base] else f[i]
  {
  }

  // ---- Replies

  /** READ CAPACITY tells the last block that can be read whole, and the block size. */
  lemma CapacityIsDisk(s: Store, tag: seq<byte>, lba: u16)
    requires |tag| == 4 && lba <= BLOCK_COUNT
    ensures var r := InfoReply(0x25);
            && |r| == 8 && Number(r[4], r[5], r[6], r[7]) == 512
            && (lba <= Number(r[0], r[1], r[2], r[3]) ==> |Reply(s, Read(tag, lba, 1))| == 512)
            && (StallIn in Answer(s, Read(tag, lba, 1)) <==> lba > Number(r[0], r[1], r[2], r[3]))
  {
    var ps := ReadPackets(s.media, BLOCK * lba, BLOCK);
    forall o | o in Ins(ps)
      ensures o.InPacket?
    {
    }
    if lba == BLOCK_COUNT {
      assert Answer(s, Read(tag, lba, 1))[|ps|] == StallIn;
    }
  }

  /** The boot sector and READ FORMAT CAPACITIES give the same number of blocks. */
  lemma SizesAgree(m: Media)
    ensures var r, f := InfoReply(0x25), InfoReply(0x23);
            && |r| == 8 && |f| == 12 && f[3] == 8
            && Le16(m, 19) == Number(r[0], r[1], r[2], r[3]) + 1 == Number(f[4], f[5], f[6], f[7])
            && Le16(m, 11) == 512 == 0x100 * f[10] as int + f[11] as int && 512 * Le16(m, 19) == MEMORY_SIZE
    ensures DiskByte(m, 510) == 0x55 && DiskByte(m, 511) == 0xAA
  {
    assert Le16(m, 19) == DiskByte(m, 19) as int + 0x100 * DiskByte(m, 20) as int;
  }

  /** The length a wrapper asks for, and the length of its blocks. */
  function Asked(c: wrapper): nat {
    c[8] as int + 0x100 * c[9] as int + 0x1_0000 * c[10] as int + 0x100_0000 * c[11] as int
  }

  function BlockBytes(c: wrapper): nat {
    512 * (0x100 * c[22] as int + c[23] as int)
  }

  predicate Usable(c: wrapper) {
    c[13] == 0 && 1 <= c[14] <= 16
  }

  /** Which wrappers start a transfer of disk data: READ10 and WRITE10 that ask for just
      their blocks, in the right direction. */
  lemma TransfersAre(c: wrapper)
    ensures ReadsDisk(c) <==> Usable(c) && c[15] == 0x28 && Asked(c) == BlockBytes(c) && c[12] >= 0x80
    ensures WritesDisk(c) <==> Usable(c) && c[15] == 0x2A && Asked(c) == BlockBytes(c) && c[12] < 0x80
    ensures Tag(c) == c[4..8] && Lba(c) as int ==
              c[20] as int + 0x100 * c[19] as int + 0x1_0000 * c[18] as int + 0x100_0000 * c[17] as int
  {
  }

  /** And how every other one is answered: status 0 for TEST UNIT READY and the information
      commands, 1 for what is not known, 2 where host and device do not agree on the data. */
  lemma CommandTable(c: wrapper)
    requires !ReadsDisk(c) && !WritesDisk(c)
    ensures var a := Immediate(c);
            if !Usable(c) then a == Ends([], 1)
            else if c[15] == 0x00 then
              a == Ends(if Asked(c) == 0 then [] else if c[12] >= 0x80 then [StallIn] else [StallOut], 0)
            else if c[15] in [0x03, 0x12, 0x1A, 0x23, 0x25, 0x5A] then
              if Asked(c) == 0 then a == Ends([], 2)
              else if c[12] < 0x80 then a == Ends([StallOut], 2)
              else a.Replies? && a.data <= InfoReply(c[15])
                   && |a.data| == if |InfoReply(c[15])| <= Asked(c) then |InfoReply(c[15])| else Asked(c)
            else if c[15] == 0x28 || c[15] == 0x2A then
              if Asked(c) != BlockBytes(c) then a == Ends([StallIn, StallOut], 2)
              else a == Ends([if c[15] == 0x28 then StallOut else StallIn], 2)
            else a == Ends([], 1)
  {
  }

  /** A status wrapper is read back as the host reads it. */
  lemma StatusFields(c: Csw)
    requires |c.tag| == 4
    ensures var b := CswBytes(c);
            && |b| == 13 && b[0] == 'U' as int && b[1] == 'S' as int && b[2] == 'B' as int && b[3] == 'S' as int
            && b[4..8] == c.tag && Number(b[11], b[10], b[9], b[8]) == c.residue && b[12] == c.status
  {
    Le32Inverse(c.residue);
    var b, len := CswBytes(c), Le32Bytes(c.residue);
    assert b[8] == len[0] && b[9] == len[1] && b[10] == len[2] && b[11] == len[3];
  }
}
