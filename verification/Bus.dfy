/** The bootloader as a pure machine over bus events: what the live device of module Msc
    does, whatever a conforming host sends or takes. */
module Bus {
  import opened Bytes
  import opened Flash
  import opened Sbl
  import opened Disk
  import opened DiskWrite
  import opened Bot
  import opened Msc

  /** Transport stage, place and length of the transfer under way, the status to come,
      everything sent so far, and the disk. */
  datatype Bus = Bus(stage: Stage, offset: nat, length: nat, csw: Csw, outs: seq<Out>, disk: DiskState)

  predicate Moving(stage: Stage) {
    stage == DataIn || stage == DataOut
  }

  /** Place and length mean something only in a data stage, and the status only outside. */
  function Settled(b: Bus): Bus {
    if Moving(b.stage) then b.(csw := b.csw.(status := 0)) else b.(offset := 0, length := 0)
  }

  ghost function Abs(dev: Device): Bus
    requires dev.Wired() && dev.loader.byteCtr <= dev.loader.flashBuf.Length
    reads dev, dev.fat, dev.loader, dev.loader.flashBuf, dev.loader.iap
  {
    Settled(Bus(dev.stage, dev.offset, dev.length, dev.csw, dev.outs, dev.State()))
  }

  datatype BulkEvent = HostSends(packet: seq<byte>) | HostTakes

  /** What a conforming host may do in the stage the device is in. */
  predicate Allowed(stage: Stage, e: BulkEvent) {
    e.HostSends? ==>
      && |e.packet| <= PACKET
      && (stage == AwaitCbw ==> Conforms(e.packet))
      && (stage == DataOut ==> |e.packet| == PACKET)
  }

  /** Data of a read: one packet of disk. */
  function ReadOn(b: Bus, tag: seq<byte>, at: nat, want: nat): Bus
    requires at <= MEMORY_SIZE && want < 0x1_0000_0000
  {
    var n := ReadCount(at, want);
    Settled(Bus(ReadStage(at, want), at + n, want - n, Csw(tag, want - n, CMD_PASSED),
                b.outs + [InPacket(DiskBytes(b.disk.media, at, n))], b.disk))
  }

  predicate Sane(b: Bus) {
    && (b.stage == DataIn ==> b.offset <= MEMORY_SIZE && b.length == b.csw.residue)
    && (b.stage == DataOut ==> b.length >= PACKET && b.length == b.csw.residue)
  }

  /** The host takes a packet. */
  function Taken(b: Bus): Bus
    requires Sane(b)
  {
    match b.stage
    case DataIn => ReadOn(b, b.csw.tag, b.offset, b.length)
    case DataInLast => b.(stage := AwaitCsw, outs := b.outs + [InPacket(CswBytes(b.csw))])
    case DataInLastStall => b.(stage := AwaitCsw, outs := b.outs + [StallIn, InPacket(CswBytes(b.csw))])
    case AwaitCsw => b.(stage := AwaitCbw)
    case _ => b
  }

  /** A command wrapper arrives. */
  function Commanded(b: Bus, p: seq<byte>): Bus
    requires Conforms(p)
  {
    if |p| != CBW_SIZE || !Signed(p) then b.(stage := Error, outs := b.outs + [StallIn, StallOut])
    else if ReadsDisk(p) then ReadOn(b, Tag(p), BLOCK * Lba(p), BLOCK * Blocks(p))
    else if WritesDisk(p) then
      Bus(DataOut, BLOCK * Lba(p), BLOCK * Blocks(p), Csw(Tag(p), BLOCK * Blocks(p), 0), b.outs, b.disk)
    else
      match Immediate(p)
      case Ends(stalls, status) =>
        var csw := Csw(Tag(p), DataLength(p), status);
        Bus(AwaitCsw, 0, 0, csw, b.outs + stalls + [InPacket(CswBytes(csw))], b.disk)
      case Replies(data) =>
        Bus(DataInLast, 0, 0, Csw(Tag(p), DataLength(p) - |data|, CMD_PASSED), b.outs + [InPacket(data)], b.disk)
  }

  /** A packet of data arrives. */
  function Fed(b: Bus, p: seq<byte>): Bus
    requires Sane(b) && b.stage == DataOut && |p| == PACKET
  {
    var left := b.length - PACKET;
    var csw := Csw(b.csw.tag, left, CMD_PASSED);
    Settled(Bus(if left == 0 then AwaitCsw else DataOut, b.offset + PACKET, left, csw,
                b.outs + (if left == 0 then [InPacket(CswBytes(csw))] else []), TakePacket(b.disk, b.offset, p)))
  }

  /** The host sends a packet; one that is not expected is a phase error. */
  function Given(b: Bus, p: seq<byte>): Bus
    requires Sane(b) && Allowed(b.stage, HostSends(p))
  {
    match b.stage
    case AwaitCbw => Commanded(b, p)
    case DataOut => Fed(b, p)
    case _ =>
      var csw := b.csw.(status := PHASE_ERROR);
      Bus(AwaitCsw, 0, 0, csw, b.outs + [StallOut, InPacket(CswBytes(csw))], b.disk)
  }

  function Next(b: Bus, e: BulkEvent): Bus {
    if !Sane(b) || !Allowed(b.stage, e) then b else if e.HostSends? then Given(b, e.packet) else Taken(b)
  }

  function After(b: Bus, es: seq<BulkEvent>): Bus {
    if es == [] then b else Next(After(b, es[..|es| - 1]), es[|es| - 1])
  }

  /** Nothing the host does changes the sectors of the boot loader. */
  lemma {:induction false} LoaderSafe(b: Bus, es: seq<BulkEvent>)
    ensures After(b, es).disk.media.flash[..USER_START] == b.disk.media.flash[..USER_START]
  {
    if es != [] {
      var front, e := es[..|es| - 1], es[|es| - 1];
      LoaderSafe(b, front);
      var c := After(b, front);
      if Sane(c) && Allowed(c.stage, e) && e.HostSends? && c.stage == DataOut {
        LoaderKept(c.disk, c.offset, e.packet);
      }
    }
  }

  /** Packets and stalls are never taken back. */
  lemma {:induction false} OutsGrow(b: Bus, es: seq<BulkEvent>)
    ensures b.outs <= After(b, es).outs
  {
    if es != [] {
      OutsGrow(b, es[..|es| - 1]);
    }
  }

  // ---- The live device

  /** A live device is in a sane state: the residue is the length still to go. */
  lemma SaneDevice(dev: Device)
    requires dev.Valid()
    ensures Sane(Abs(dev))
  {
    if dev.stage == DataOut {
      PacketLess(dev.length);
    }
  }

  method TakeStep(dev: Device)
    requires dev.Valid()
    modifies dev.memory, dev`stage, dev`offset, dev`length, dev`csw, dev`outs
    ensures dev.Valid() && Sane(old(Abs(dev))) && Abs(dev) == Taken(old(Abs(dev)))
  {
    SaneDevice(dev);
    dev.BulkIn();
  }

  method SendStep(dev: Device, p: seq<byte>)
    requires dev.Valid() && Allowed(dev.stage, HostSends(p))
    modifies dev.Parts()
    ensures dev.Valid() && Sane(old(Abs(dev))) && Abs(dev) == Given(old(Abs(dev)), p)
    ensures old(dev.loader.iap.calls) <= dev.loader.iap.calls
  {
    SaneDevice(dev);
    dev.BulkOut(p);
  }

  /** Over every run of events that a conforming host can cause, in any order and with any
      contents, the live device goes through the states of the pure machine. In every
      state reached every erasure and every programming so far directly follows the
      preparation of just those user sectors and no IAP call has failed; in a data stage
      the residue is the length still to go, and outside DATA OUT no page is pending. */
  method Run(dev: Device, es: seq<BulkEvent>)
    requires dev.Valid()
    modifies dev.Parts()
    ensures dev.Valid() && Abs(dev) == After(old(Abs(dev)), es)
    ensures old(dev.loader.iap.calls) <= dev.loader.iap.calls && Disciplined(dev.loader.iap.calls) && !dev.loader.hung
    ensures dev.loader.iap.mem[..USER_START] == old(dev.loader.iap.mem[..USER_START])
    ensures Moving(dev.stage) ==> dev.csw.residue == dev.length
    ensures dev.stage != DataOut ==> dev.loader.byteCtr == 0
  {
    ghost var b := Abs(dev);
    for i := 0 to |es|
      invariant dev.Valid() && Abs(dev) == After(b, es[..i])
      invariant old(dev.loader.iap.calls) <= dev.loader.iap.calls
    {
      SaneDevice(dev);
      assert es[..i + 1][..i] == es[..i];
      if Allowed(dev.stage, es[i]) {
        match es[i] {
          case HostSends(p) => SendStep(dev, p);
          case HostTakes => TakeStep(dev);
        }
      }
    }
    assert es[..|es|] == es;
    LoaderSafe(b, es);
  }
}
