/** A host at the other end of the bulk pipes: whole READ10 and WRITE10 transactions,
    and sessions of them, against the device of module Msc. */
module Host {
  import opened Bytes
  import opened Disk
  import opened DiskWrite
  import opened Bot
  import opened Msc

  function Ins(ps: seq<seq<byte>>): seq<Out> {
    seq(|ps|, i requires 0 <= i < |ps| => InPacket(ps[i]))
  }

  function Flatten(ps: seq<seq<byte>>): seq<byte> {
    if ps == [] then [] else Flatten(ps[..|ps| - 1]) + ps[|ps| - 1]
  }

  lemma DiskBytesMore(m: Media, at: nat, a: nat, b: nat)
    requires at + a + b <= MEMORY_SIZE
    ensures DiskBytes(m, at, a) + DiskBytes(m, at + a, b) == DiskBytes(m, at, a + b)
  {
  }

  lemma FlattenMore(ps: seq<seq<byte>>, p: seq<byte>)
    ensures Flatten(ps + [p]) == Flatten(ps) + p && Ins(ps + [p]) == Ins(ps) + [InPacket(p)]
  {
    assert (ps + [p])[..|ps|] == ps;
  }

  /** The part of a transfer of `want` bytes at `at` that lies on the disk. */
  function OnDisk(at: nat, want: nat): nat
    requires at <= MEMORY_SIZE
  {
    if at + want <= MEMORY_SIZE then want else MEMORY_SIZE - at
  }

  /** The data packets of a read of `want` bytes at `at`, one after the other. */
  function ReadPackets(m: Media, at: nat, want: nat): (ps: seq<seq<byte>>)
    requires at <= MEMORY_SIZE
    ensures |ps| > 0
    decreases want
  {
    var n := ReadCount(at, want);
    [DiskBytes(m, at, n)] + if ReadStage(at, want) == DataIn then ReadPackets(m, at + n, want - n) else []
  }

  /** The packets after the first. */
  function MorePackets(m: Media, at: nat, want: nat): seq<seq<byte>>
    requires at <= MEMORY_SIZE
  {
    var n := ReadCount(at, want);
    if ReadStage(at, want) == DataIn then ReadPackets(m, at + n, want - n) else []
  }

  /** Together the packets are the slice of the disk, cut at its end. */
  lemma {:induction false} ReadPacketsAre(m: Media, at: nat, want: nat)
    requires at <= MEMORY_SIZE
    ensures Flatten(ReadPackets(m, at, want)) == DiskBytes(m, at, OnDisk(at, want))
    decreases want
  {
    var n := ReadCount(at, want);
    var first, more := DiskBytes(m, at, n), MorePackets(m, at, want);
    assert ReadPackets(m, at, want) == [first] + more;
    FlattenFirst(first, more);
    if ReadStage(at, want) == DataIn {
      ReadPacketsAre(m, at + n, want - n);
      DiskBytesMore(m, at, n, OnDisk(at + n, want - n));
    } else {
      assert first + [] == first;
    }
  }

  /** All but the last are full. */
  lemma {:induction false} ReadPacketsFull(m: Media, at: nat, want: nat, i: nat)
    requires at <= MEMORY_SIZE && i < |ReadPackets(m, at, want)|
    ensures |ReadPackets(m, at, want)[i]| <= PACKET
    ensures i < |ReadPackets(m, at, want)| - 1 ==> |ReadPackets(m, at, want)[i]| == PACKET
    decreases want
  {
    if ReadStage(at, want) == DataIn && i > 0 {
      ReadPacketsFull(m, at + PACKET, want - PACKET, i - 1);
    }
  }

  lemma {:induction false} FlattenFirst(p: seq<byte>, ps: seq<seq<byte>>)
    ensures Flatten([p] + ps) == p + Flatten(ps)
  {
    if ps == [] {
      FlattenMore([], p);
      assert [] + [p] == [p] + ps && p + Flatten(ps) == p;
    } else {
      var front, last := ps[..|ps| - 1], ps[|ps| - 1];
      FlattenFirst(p, front);
      assert ([p] + ps)[..|[p] + ps| - 1] == [p] + front;
      assert p + Flatten(front) + last == p + (Flatten(front) + last);
    }
  }

  /** A read in its data stage: the packets sent so far are the disk up to `offset`. */
  ghost predicate Reading(dev: Device, m: Media, at: nat, want: nat, packets: seq<seq<byte>>)
    reads dev, dev.cbw, dev.loader, dev.loader.iap
  {
    && dev.Valid() && at <= dev.offset <= MEMORY_SIZE && dev.offset + dev.length == at + want
    && dev.csw.residue == dev.length
    && Flatten(packets) == DiskBytes(m, at, dev.offset - at)
    && dev.stage in [DataIn, DataInLast, DataInLastStall]
    && (dev.stage == DataInLast ==> dev.length == 0)
    && (dev.stage == DataInLastStall ==> dev.length > 0 && dev.offset == MEMORY_SIZE)
    && (dev.stage != DataIn ==> dev.csw.status == CMD_PASSED)
  }

  method ReadStep(dev: Device, ghost m: Media, ghost at: nat, ghost want: nat, ghost packets: seq<seq<byte>>)
    returns (ghost p: seq<byte>)
    requires Reading(dev, m, at, want, packets) && dev.View() == m && dev.stage == DataIn
    modifies dev.memory, dev`stage, dev`offset, dev`length, dev`csw, dev`outs
    ensures Reading(dev, m, at, want, packets + [p]) && dev.View() == m && |p| <= PACKET
    ensures dev.outs == old(dev.outs) + [InPacket(p)] && dev.csw.tag == old(dev.csw.tag)
    ensures dev.length < old(dev.length) || dev.stage != DataIn
    ensures p == DiskBytes(m, old(dev.offset), ReadCount(old(dev.offset), old(dev.length)))
    ensures dev.stage == ReadStage(old(dev.offset), old(dev.length))
    ensures dev.stage == DataIn ==> dev.offset == old(dev.offset) + |p| && dev.length == old(dev.length) - |p|
  {
    var n := ReadCount(dev.offset, dev.length);
    p := DiskBytes(m, dev.offset, n);
    FlattenMore(packets, p);
    DiskBytesMore(m, at, dev.offset - at, n);
    dev.BulkIn();
  }

  method BeginRead(dev: Device, tag: seq<byte>, lba: u16, n: u16) returns (ghost p: seq<byte>)
    requires dev.Valid() && dev.stage == AwaitCbw && |tag| == 4 && lba <= BLOCK_COUNT
    modifies dev.memory, dev.cbw, dev.bulkBuf
    modifies dev`bulkLen, dev`stage, dev`offset, dev`length, dev`csw, dev`outs
    ensures dev.View() == old(dev.View()) && |p| <= PACKET
    ensures Reading(dev, dev.View(), BLOCK * lba, BLOCK * n, [p])
    ensures p == DiskBytes(dev.View(), BLOCK * lba, ReadCount(BLOCK * lba, BLOCK * n))
    ensures dev.stage == ReadStage(BLOCK * lba, BLOCK * n)
    ensures dev.stage == DataIn ==> dev.offset == BLOCK * lba + |p| && dev.length == BLOCK * n - |p|
    ensures dev.outs == old(dev.outs) + [InPacket(p)] && dev.csw.tag == tag
  {
    TransferFields(READ10, true, tag, lba, n);
    var c := TransferCbw(READ10, true, tag, lba, n);
    ghost var m := dev.View();
    dev.BulkOutCbw(c);
    p := DiskBytes(m, BLOCK * lba, ReadCount(BLOCK * lba, BLOCK * n));
    FirstPacket(p, []);
  }

  lemma FirstPacket(p: seq<byte>, ps: seq<seq<byte>>)
    ensures Flatten([p]) == p && [] + ps == ps && [] + [p] == [p]
  {
    FlattenMore([], p);
    assert Flatten([]) == [] && [] + [p] == [p] && [] + p == p;
  }

  /** The packets sent so far are the beginning of those the read consists of; in the data
      stage the others are those of a read from `off` on. */
  predicate Underway(m: Media, at: nat, want: nat, packets: seq<seq<byte>>, stage: Stage, off: nat, len: nat)
    requires at <= MEMORY_SIZE && off <= MEMORY_SIZE
  {
    ReadPackets(m, at, want) == packets + if stage == DataIn then ReadPackets(m, off, len) else []
  }

  lemma UnderwayNext(m: Media, at: nat, want: nat, packets: seq<seq<byte>>, off: nat, len: nat)
    requires at <= MEMORY_SIZE && off <= MEMORY_SIZE && Underway(m, at, want, packets, DataIn, off, len)
    ensures var n := ReadCount(off, len);
            Underway(m, at, want, packets + [DiskBytes(m, off, n)], ReadStage(off, len), off + n, len - n)
  {
    PacketMore(packets, m, off, len);
  }

  lemma PacketMore(packets: seq<seq<byte>>, m: Media, off: nat, len: nat)
    requires off <= MEMORY_SIZE
    ensures packets + ReadPackets(m, off, len) ==
            packets + [DiskBytes(m, off, ReadCount(off, len))] + MorePackets(m, off, len)
  {
    var p, more := DiskBytes(m, off, ReadCount(off, len)), MorePackets(m, off, len);
    assert ReadPackets(m, off, len) == [p] + more;
    assert packets + ([p] + more) == packets + [p] + more;
  }

  method DataStage(dev: Device, ghost m: Media, ghost at: nat, ghost want: nat, ghost first: seq<byte>,
      ghost o0: seq<Out>)
    returns (ghost packets: seq<seq<byte>>)
    requires Reading(dev, m, at, want, [first]) && dev.View() == m && |first| <= PACKET
    requires dev.outs == o0 + Ins([first]) && at <= MEMORY_SIZE && first == DiskBytes(m, at, ReadCount(at, want))
    requires dev.stage == ReadStage(at, want)
    requires dev.stage == DataIn ==> dev.offset == at + |first| && dev.length == want - |first|
    modifies dev.memory, dev`stage, dev`offset, dev`length, dev`csw, dev`outs
    ensures Reading(dev, m, at, want, packets) && dev.stage != DataIn && dev.View() == m
            && dev.csw.tag == old(dev.csw.tag)
    ensures dev.outs == o0 + Ins(packets) && packets == ReadPackets(m, at, want)
  {
    packets := [first];
    PacketMore([], m, at, want);
    FirstPacket(first, ReadPackets(m, at, want));
    while dev.stage == DataIn
      invariant Reading(dev, m, at, want, packets) && dev.View() == m && dev.csw.tag == old(dev.csw.tag)
      invariant dev.outs == o0 + Ins(packets)
      invariant Underway(m, at, want, packets, dev.stage, dev.offset, dev.length)
      decreases dev.length, dev.stage == DataIn
    {
      packets := NextPacket(dev, m, at, want, packets, o0);
    }
  }

  method NextPacket(dev: Device, ghost m: Media, ghost at: nat, ghost want: nat,
                    ghost done: seq<seq<byte>>, ghost o0: seq<Out>)
    returns (ghost packets: seq<seq<byte>>)
    requires Reading(dev, m, at, want, done) && dev.View() == m && dev.stage == DataIn && dev.outs == o0 + Ins(done)
    requires Underway(m, at, want, done, dev.stage, dev.offset, dev.length)
    modifies dev.memory, dev`stage, dev`offset, dev`length, dev`csw, dev`outs
    ensures Reading(dev, m, at, want, packets) && dev.View() == m && dev.csw.tag == old(dev.csw.tag)
    ensures dev.outs == o0 + Ins(packets) && (dev.length < old(dev.length) || dev.stage != DataIn)
    ensures Underway(m, at, want, packets, dev.stage, dev.offset, dev.length)
  {
    UnderwayNext(m, at, want, done, dev.offset, dev.length);
    ghost var p := ReadStep(dev, m, at, want, done);
    FlattenMore(done, p);
    packets := done + [p];
    OutsMore(o0, Ins(done), [InPacket(p)]);
  }

  method StatusStage(dev: Device, ghost m: Media, ghost at: nat, ghost want: nat, ghost packets: seq<seq<byte>>)
    requires Reading(dev, m, at, want, packets) && dev.stage != DataIn
    modifies dev.memory, dev`stage, dev`offset, dev`length, dev`csw, dev`outs
    ensures dev.Valid() && dev.stage == AwaitCbw
    ensures var got := OnDisk(at, want);
            && Flatten(packets) == DiskBytes(m, at, got)
            && dev.outs == old(dev.outs) + (if got < want then [StallIn] else [])
                             + [InPacket(CswBytes(Csw(old(dev.csw.tag), want - got, CMD_PASSED)))]
  {
    assert dev.csw == Csw(dev.csw.tag, want - OnDisk(at, want), CMD_PASSED);
    dev.BulkIn();
    dev.BulkIn();
  }

  /** The rest of a read whose first packet has been sent. */
  method FinishRead(dev: Device, ghost m: Media, ghost at: nat, ghost want: nat, ghost first: seq<byte>,
      ghost o0: seq<Out>)
    requires Reading(dev, m, at, want, [first]) && dev.View() == m && |first| <= PACKET
    requires dev.outs == o0 + [InPacket(first)] && at <= MEMORY_SIZE
    requires first == DiskBytes(m, at, ReadCount(at, want)) && dev.stage == ReadStage(at, want)
    requires dev.stage == DataIn ==> dev.offset == at + |first| && dev.length == want - |first|
    modifies dev.memory, dev`stage, dev`offset, dev`length, dev`csw, dev`outs
    ensures dev.Valid() && dev.stage == AwaitCbw && dev.View() == m
    ensures var got, packets := OnDisk(at, want), ReadPackets(m, at, want);
            && Flatten(packets) == DiskBytes(m, at, got)
            && dev.outs == o0 + Ins(packets) + (if got < want then [StallIn] else [])
                             + [InPacket(CswBytes(Csw(old(dev.csw.tag), want - got, CMD_PASSED)))]
  {
    assert Ins([first]) == [InPacket(first)];
    ghost var packets := DataStage(dev, m, at, want, first, o0);
    StatusStage(dev, m, at, want, packets);
  }

  /** READ10, from the command to the status: for every start up to the end of the disk
      and every length, the data packets are the disk slice, cut at the end of the
      disk; the status has the tag of the command, and its residue counts the bytes
      not sent; a cut is marked by a stall. The media do not change. */
  method ReadTransaction(dev: Device, tag: seq<byte>, lba: u16, n: u16)
    requires dev.Valid() && dev.stage == AwaitCbw && |tag| == 4 && lba <= BLOCK_COUNT
    modifies dev.memory, dev.cbw, dev.bulkBuf
    modifies dev`bulkLen, dev`stage, dev`offset, dev`length, dev`csw, dev`outs
    ensures dev.Valid() && dev.stage == AwaitCbw && dev.View() == old(dev.View())
    ensures var at, want := BLOCK * lba, BLOCK * n;
            var got, packets := OnDisk(at, want), ReadPackets(dev.View(), at, want);
            && Flatten(packets) == DiskBytes(dev.View(), at, got)
            && dev.outs == old(dev.outs) + Ins(packets) + (if got < want then [StallIn] else [])
                             + [InPacket(CswBytes(Csw(tag, want - got, CMD_PASSED)))]
  {
    ghost var m, o0 := dev.View(), dev.outs;
    ghost var first := BeginRead(dev, tag, lba, n);
    FinishRead(dev, m, BLOCK * lba, BLOCK * n, first, o0);
  }

  // ---- Writing

  /** A write in its data stage, `done` bytes having been sent, with the disk in state `s`. */
  ghost predicate Writing(dev: Device, s: DiskState, base: nat, data: seq<byte>, done: nat)
    reads dev, dev.cbw, dev.fat, dev.loader, dev.loader.flashBuf, dev.loader.iap
  {
    && dev.Valid() && Extent(base, data) && done <= |data| && done % PACKET == 0
    && dev.offset == base + done && dev.length == |data| - done && dev.csw.residue == dev.length
    && dev.stage == (if done < |data| then DataOut else AwaitCsw)
    && (done == |data| ==> dev.csw.status == CMD_PASSED)
    && dev.State() == s
  }

  method WriteStep(dev: Device, ghost s: DiskState, ghost base: nat, data: seq<byte>, done: nat)
    requires Writing(dev, s, base, data, done) && done < |data|
    modifies dev.fat, dev.bulkBuf, dev.loader`flashAddress, dev.loader`byteCtr, dev.loader`hung,
        dev.loader.flashBuf, dev.loader.iap
    modifies dev`bulkLen, dev`userFlashErased, dev`stage, dev`offset, dev`length, dev`csw, dev`outs
    ensures Writing(dev, TakePacket(s, base + done, data[done..done + PACKET]), base, data, done + PACKET)
    ensures dev.csw.tag == old(dev.csw.tag)
    ensures dev.outs == old(dev.outs) + if done + PACKET == |data| then [InPacket(CswBytes(dev.csw))] else []
  {
    RoomForPacket(|data|, done);
    dev.BulkOutData(data[done..done + PACKET]);
  }

  lemma RoomForPacket(n: nat, done: nat)
    requires Packets(n) && done % PACKET == 0 && done < n
    ensures done + PACKET <= n && (done + PACKET) % PACKET == 0
  {
    PacketsAre(n);
    PacketShift(done, 1);
  }

  method BeginWrite(dev: Device, tag: seq<byte>, lba: u16, n: u16, ghost data: seq<byte>)
    requires dev.Valid() && dev.stage == AwaitCbw && |tag| == 4
    requires 0 < n && |data| == BLOCK * n && lba + n <= BLOCK_COUNT
    modifies dev.memory, dev.cbw, dev.bulkBuf
    modifies dev`bulkLen, dev`stage, dev`offset, dev`length, dev`csw, dev`outs
    ensures Writing(dev, old(dev.State()), BLOCK * lba, data, 0)
    ensures dev.csw.tag == tag && dev.outs == old(dev.outs)
  {
    WriteCommand(tag, lba, n);
    BlockAligned(lba);
    BlockAligned(n);
    PacketsAre(|data|);
    dev.BulkOutCbw(TransferCbw(WRITE10, false, tag, lba, n));
  }

  /** The data stage of a write. */
  method WriteData(dev: Device, ghost s: DiskState, ghost base: nat, data: seq<byte>)
    requires Writing(dev, s, base, data, 0)
    modifies dev.Parts()
    ensures Writing(dev, Sent(s, base, data), base, data, |data|) && dev.csw.tag == old(dev.csw.tag)
    ensures |data| > 0 ==> dev.outs == old(dev.outs) + [InPacket(CswBytes(dev.csw))]
  {
    var done := 0;
    while done < |data|
      invariant done <= |data| && done % PACKET == 0
      invariant Writing(dev, Sent(s, base, data[..done]), base, data, done) && dev.csw.tag == old(dev.csw.tag)
      invariant dev.outs == old(dev.outs) + if done < |data| || done == 0 then [] else [InPacket(CswBytes(dev.csw))]
    {
      RoomForPacket(|data|, done);
      SentNext(s, base, data, done);
      WriteStep(dev, Sent(s, base, data[..done]), base, data, done);
      done := done + PACKET;
    }
    assert data[..done] == data;
  }

  /** WRITE10, from the command to the status: for all data inside the disk the media
      are what the transfer means as a whole, no byte is left waiting for its page, and
      the status has the tag of the command and residue zero. */
  method WriteTransaction(dev: Device, tag: seq<byte>, lba: u16, data: seq<byte>)
    requires dev.Valid() && dev.stage == AwaitCbw && |tag| == 4
    requires |data| > 0 && |data| % BLOCK == 0 && Extent(BLOCK * lba, data)
    modifies dev.Parts()
    ensures dev.Valid() && dev.stage == AwaitCbw
    ensures dev.View() == Written(old(dev.View()), BLOCK * lba, data, old(dev.userFlashErased))
    ensures dev.userFlashErased == (old(dev.userFlashErased) ||
                                    Deletes(BLOCK * lba, data, dev.crp, old(dev.userFlashErased)))
    ensures dev.loader.Waiting() == []
    ensures dev.outs == old(dev.outs) + [InPacket(CswBytes(Csw(tag, 0, CMD_PASSED)))]
  {
    ghost var s := dev.State();
    BeginWrite(dev, tag, lba, |data| / BLOCK, data);
    WriteData(dev, s, BLOCK * lba, data);
    SentWhole(s.media, s.erased, BLOCK * lba, data);
    assert dev.csw == Csw(tag, 0, CMD_PASSED);
    dev.BulkIn();
  }

  // ---- Sessions

  datatype Command =
    | Read(tag: seq<byte>, lba: u16, n: u16)
    | Write(tag: seq<byte>, lba: u16, data: seq<byte>)

  /** Reads start on the disk or at its end; writes lie inside it. */
  predicate Lawful(c: Command) {
    && |c.tag| == 4
    && match c
       case Read(_, lba, _) => lba <= BLOCK_COUNT
       case Write(_, lba, data) => |data| > 0 && |data| % BLOCK == 0 && BLOCK * lba + |data| <= MEMORY_SIZE
  }

  type command = c: Command | Lawful(c) witness Read([0, 0, 0, 0], 0, 0)

  lemma CommandExtent(c: command)
    requires c.Write?
    ensures Extent(BLOCK * c.lba, c.data)
  {
    BlocksArePackets(|c.data|);
    PacketsAre(|c.data|);
  }

  lemma BlocksArePackets(n: nat)
    requires n % BLOCK == 0
    ensures n % PACKET == 0
  {
    PacketShift(0, 8 * (n / BLOCK));
  }

  /** The disk as a simple store: the media, and whether a deletion erased the flash. */
  datatype Store = Store(media: Media, erased: bool)

  function StoreStep(s: Store, c: command): Store {
    match c
    case Read(_, _, _) => s
    case Write(_, lba, data) =>
      CommandExtent(c);
      var deletes := Deletes(BLOCK * lba, data, s.media.crp, s.erased);
      Store(Written(s.media, BLOCK * lba, data, s.erased), s.erased || deletes)
  }

  function StoreAfter(s: Store, cs: seq<command>): Store {
    if cs == [] then s else StoreStep(StoreAfter(s, cs[..|cs| - 1]), cs[|cs| - 1])
  }

  /** The data a read returns. */
  function Reply(s: Store, c: command): seq<byte> {
    if c.Read? then DiskBytes(s.media, BLOCK * c.lba, OnDisk(BLOCK * c.lba, BLOCK * c.n)) else []
  }

  /** Everything the device sends for a command: the data, a stall where they are cut at
      the end of the disk, and the status with the tag and the bytes not sent. */
  function Answer(s: Store, c: command): seq<Out> {
    match c
    case Read(tag, lba, n) =>
      var at, want := BLOCK * lba, BLOCK * n;
      var got := OnDisk(at, want);
      Ins(ReadPackets(s.media, at, want)) + (if got < want then [StallIn] else [])
      + [InPacket(CswBytes(Csw(tag, want - got, CMD_PASSED)))]
    case Write(tag, _, _) => [InPacket(CswBytes(Csw(tag, 0, CMD_PASSED)))]
  }

  /** What the device sends over a whole session. */
  function Answers(s: Store, cs: seq<command>): seq<Out> {
    if cs == [] then []
    else Answers(s, cs[..|cs| - 1]) + Answer(StoreAfter(s, cs[..|cs| - 1]), cs[|cs| - 1])
  }

  /** The bytes a host collects from packets. */
  function Collected(outs: seq<Out>): seq<byte> {
    if outs == [] then []
    else
      var o := outs[|outs| - 1];
      Collected(outs[..|outs| - 1]) + if o.InPacket? then o.data else []
  }

  lemma {:induction false} CollectedIns(ps: seq<seq<byte>>)
    ensures Collected(Ins(ps)) == Flatten(ps)
  {
    if ps != [] {
      assert Ins(ps)[..|ps| - 1] == Ins(ps[..|ps| - 1]);
      CollectedIns(ps[..|ps| - 1]);
    }
  }

  /** All that the host collects before the status is what the store holds. */
  lemma AnswerCarries(s: Store, c: command)
    ensures var a := Answer(s, c); |a| > 0 && Collected(a[..|a| - 1]) == Reply(s, c)
  {
    if c.Read? {
      var at, want := BLOCK * c.lba, BLOCK * c.n;
      var ps := ReadPackets(s.media, at, want);
      ReadPacketsAre(s.media, at, want);
      CollectedIns(ps);
      var a := Answer(s, c);
      if OnDisk(at, want) < want {
        CollectedStall(Ins(ps));
        assert a[..|a| - 1] == Ins(ps) + [StallIn];
      } else {
        assert a[..|a| - 1] == Ins(ps);
      }
    }
  }

  lemma CollectedStall(outs: seq<Out>)
    ensures Collected(outs + [StallIn]) == Collected(outs)
  {
    assert (outs + [StallIn])[..|outs|] == outs;
    assert Collected(outs) + [] == Collected(outs);
  }

  lemma StoreMore(s: Store, cs: seq<command>, i: nat)
    requires i < |cs|
    ensures StoreAfter(s, cs[..i + 1]) == StoreStep(StoreAfter(s, cs[..i]), cs[i])
    ensures Answers(s, cs[..i + 1]) == Answers(s, cs[..i]) + Answer(StoreAfter(s, cs[..i]), cs[i])
  {
    assert cs[..i + 1][..i] == cs[..i];
  }

  ghost function StoreOf(dev: Device): Store
    requires dev.Wired()
    reads dev`userFlashErased, dev.fat, dev.loader.iap
  {
    Store(dev.View(), dev.userFlashErased)
  }

  method RunCommand(dev: Device, c: command)
    requires dev.Valid() && dev.stage == AwaitCbw
    modifies dev.Parts()
    ensures dev.Valid() && dev.stage == AwaitCbw && dev.loader.byteCtr == 0
    ensures StoreOf(dev) == StoreStep(old(StoreOf(dev)), c)
    ensures dev.outs == old(dev.outs) + Answer(old(StoreOf(dev)), c)
  {
    match c {
      case Read(tag, lba, n) =>
        ReadTransaction(dev, tag, lba, n);
      case Write(tag, lba, d) =>
        CommandExtent(c);
        WriteTransaction(dev, tag, lba, d);
    }
  }

  /** The assembly is a disk: over every session of lawful commands the device does what
      the simple store does and sends exactly what the store answers, so that every read
      returns its contents; nothing waits between commands, the IAP discipline is kept
      throughout and no IAP call ever fails. */
  method Session(dev: Device, cs: seq<command>)
    requires dev.Valid() && dev.stage == AwaitCbw
    modifies dev.Parts()
    ensures dev.Valid() && dev.stage == AwaitCbw && dev.loader.byteCtr == 0 && !dev.loader.hung
    ensures StoreOf(dev) == StoreAfter(old(StoreOf(dev)), cs)
    ensures dev.outs == old(dev.outs) + Answers(old(StoreOf(dev)), cs)
  {
    ghost var s, o := StoreOf(dev), dev.outs;
    for i := 0 to |cs|
      invariant dev.Valid() && dev.stage == AwaitCbw
      invariant StoreOf(dev) == StoreAfter(s, cs[..i]) && dev.outs == o + Answers(s, cs[..i])
    {
      StoreMore(s, cs, i);
      SessionStep(dev, cs[i], StoreAfter(s, cs[..i]), o, Answers(s, cs[..i]));
    }
    assert cs[..|cs|] == cs;
  }

  method SessionStep(dev: Device, c: command, ghost s: Store, ghost o: seq<Out>, ghost a: seq<Out>)
    requires dev.Valid() && dev.stage == AwaitCbw && StoreOf(dev) == s && dev.outs == o + a
    modifies dev.Parts()
    ensures dev.Valid() && dev.stage == AwaitCbw && dev.loader.byteCtr == 0
    ensures StoreOf(dev) == StoreStep(s, c) && dev.outs == o + (a + Answer(s, c))
  {
    RunCommand(dev, c);
    OutsMore(o, a, Answer(s, c));
  }

  lemma OutsMore(o: seq<Out>, a: seq<Out>, x: seq<Out>)
    ensures o + a + x == o + (a + x)
  {
  }
}
