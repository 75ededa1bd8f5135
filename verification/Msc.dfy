/** "USB bootloader for LPCmini/msc/mscuser.c": the Bulk-Only Transport state machine
    in front of the disk. */
module Msc {
  import opened Bytes
  import opened Flash
  import opened Sbl
  import opened Disk
  import opened DiskWrite
  import opened Bot

  /** The data packet a read of `length` bytes at `offset` sends next. */
  function ReadCount(offset: nat, length: nat): nat
    requires offset <= MEMORY_SIZE
  {
    var n := if length > PACKET then PACKET else length;
    if offset + n > MEMORY_SIZE then MEMORY_SIZE - offset else n
  }

  /** The stage after that packet: more data, the last of it, or a cut at the end. */
  function ReadStage(offset: nat, length: nat): Stage
    requires offset <= MEMORY_SIZE
  {
    var n := if length > PACKET then PACKET else length;
    if n == length && offset + n <= MEMORY_SIZE then DataInLast
    else if offset + n > MEMORY_SIZE then DataInLastStall
    else DataIn
  }

  /** `n * MSC_BlockSize` in a 32-bit register. */
  function ByteOffset(lba: u32): (r: u32)
    ensures lba <= BLOCK_COUNT ==> r == BLOCK * lba
  {
    BLOCK * lba % 0x1_0000_0000
  }

  class Device {
    const loader: Loader
    const fat: array<byte>      // Fat_RootDir
    const memory: array<byte>   // Memory, the staging buffer for reads
    const bulkBuf: array<byte>
    const cbw: array<byte>
    const crp: Crp
    var bulkLen: nat
    var stage: Stage
    var offset: nat
    var length: nat
    var csw: Csw
    var userFlashErased: bool
    var outs: seq<Out>

    /** `enter_usb_isp`: table and directory are generated, the transport is idle. */
    constructor (flash: memory, protection: Crp)
      ensures Valid() && stage == AwaitCbw && crp == protection && outs == [] && !userFlashErased
      ensures View().flash == flash && TableIs(View().fat) && RootIs(View().fat) && LabelIs(View().fat, protection)
      ensures fresh(Parts())
    {
      var iap := new Iap(flash);
      var l := new Loader(iap);
      var f := new byte[FAT_SIZE + ROOT_SIZE](_ => 0);
      BuildFatRoot(f, protection);
      loader, fat, crp := l, f, protection;
      memory := new byte[PACKET](_ => 0);
      bulkBuf := new byte[PACKET](_ => 0);
      cbw := new byte[CBW_SIZE](_ => 0);
      bulkLen, stage, offset, length, userFlashErased, outs := 0, AwaitCbw, 0, 0, false, [];
      csw := Csw([0, 0, 0, 0], 0, 0);
    }

    ghost function Parts(): set<object> {
      {this, fat, memory, bulkBuf, cbw, loader, loader.flashBuf, loader.iap}
    }

    /** What holds between any two events: in a data stage the residue is the length
        still to go, and outside a write no byte waits for its page. */
    ghost predicate Valid()
      reads this, cbw, loader, loader.iap
    {
      && Wired() && loader.Valid() && |csw.tag| == 4
      && match stage
         case DataIn => Op(cbw[..]) == READ10 && csw.residue == length && offset <= MEMORY_SIZE && loader.byteCtr == 0
         case DataOut => Op(cbw[..]) == WRITE10 && csw.residue == length > 0 && length % PACKET == 0
                         && offset + length <= MEMORY_SIZE && (offset + length) % BLOCK == 0 && Collecting(offset)
         case _ => loader.byteCtr == 0
    }

    /** The loader waits for the rest of the page that holds disk offset `off`. */
    ghost predicate Collecting(off: nat)
      reads loader
    {
      && off % PACKET == 0
      && loader.byteCtr == (if off < DATA_START then 0 else off % PAGE)
      && (loader.byteCtr > 0 ==> loader.flashAddress == USER_START + off - loader.byteCtr - DATA_START)
    }

    /** The buffers have their sizes and do not overlap. */
    predicate Wired() {
      && fat.Length == FAT_SIZE + ROOT_SIZE && memory.Length == PACKET && bulkBuf.Length == PACKET
          && cbw.Length == CBW_SIZE
      && fat != memory && fat != bulkBuf && fat != cbw && memory != bulkBuf && memory != cbw && bulkBuf != cbw
      && loader.flashBuf != fat && loader.flashBuf != memory && loader.flashBuf != bulkBuf && loader.flashBuf != cbw
    }

    ghost function View(): Media
      requires Wired()
      reads fat, loader.iap
    {
      Media(fat[..], loader.iap.mem, crp)
    }

    // ---- Reading

    /** `translate_rd`: one byte at a time into the staging buffer. */
    method TranslateRd(off: nat, n: nat)
      requires Wired() && n <= PACKET && off + n <= MEMORY_SIZE
      modifies memory
      ensures memory[..n] == DiskBytes(View(), off, n)
    {
      ghost var m := View();
      for i := 0 to n
        invariant View() == m
        invariant memory[..i] == DiskBytes(m, off, i)
      {
        var o := off + i;
        var data: byte;
        if o < BLOCK {
          data := if o == 19 then BLOCK_COUNT % 0x100 else if o == 20 then BLOCK_COUNT / 0x100 % 0x100
                  else if o == 510 then 0x55 else if o == 511 then 0xAA
                  else if o > 29 then 0 else BOOT_SECT[o];
        } else if o < DATA_START {
          data := fat[o - BLOCK];
        } else {
          data := if crp == NoCrp then loader.iap.mem[USER_START + (o - DATA_START)] else 0;
        }
        assert data == DiskByte(m, o);
        memory[i] := data;
        assert memory[..i + 1] == memory[..i] + [data];
        assert DiskBytes(m, off, i + 1) == DiskBytes(m, off, i) + [DiskByte(m, off + i)];
      }
    }

    /** `MSC_MemoryRead`: one packet of disk, and the bookkeeping. */
    method MemoryRead()
      requires Wired() && stage == DataIn && offset <= MEMORY_SIZE && csw.residue == length
      modifies memory, this`stage, this`offset, this`length, this`csw, this`outs
      ensures Wired() && csw.residue == length && csw.tag == old(csw.tag)
      ensures var n := ReadCount(old(offset), old(length));
              && offset == old(offset) + n <= MEMORY_SIZE && length == old(length) - n
              && stage == ReadStage(old(offset), old(length))
              && outs == old(outs) + [InPacket(DiskBytes(View(), old(offset), n))]
      ensures stage != DataIn ==> csw.status == CMD_PASSED
    {
      var n := if length > PACKET then PACKET else length;
      if offset + n > MEMORY_SIZE {
        n := MEMORY_SIZE - offset;
        stage := DataInLastStall;
      }
      TranslateRd(offset, n);
      outs := outs + [InPacket(memory[..n])];
      offset := offset + n;
      length := length - n;
      csw := csw.(residue := csw.residue - n);
      if length == 0 {
        stage := DataInLast;
      }
      if stage != DataIn {
        csw := csw.(status := CMD_PASSED);
      }
    }

    /** `MSC_SetCSW`. */
    method SetCsw()
      modifies this`stage, this`outs
      ensures stage == AwaitCsw && outs == old(outs) + [InPacket(CswBytes(csw))]
    {
      outs := outs + [InPacket(CswBytes(csw))];
      stage := AwaitCsw;
    }

    // ---- Writing

    /** `translate_wr` below the data area: the RAM copy takes the bytes, and under
        CRP2 or CRP3 the deletion of firmware.bin erases the user flash. */
    method TranslateWrFat(off: nat)
      requires Wired() && loader.Valid() && off % PACKET == 0 && BLOCK <= off && off + PACKET <= DATA_START
      modifies fat, this`userFlashErased, loader`hung, loader.iap
      ensures old(loader.iap.calls) <= loader.iap.calls
      ensures loader.Valid()
      ensures fat[..] == FatAfter(old(fat[..]), off, bulkBuf[..])
      ensures loader.iap.mem == ApplyAll(old(loader.iap.mem), EraseOps(off, bulkBuf[..], crp, old(userFlashErased)))
      ensures userFlashErased == (old(userFlashErased) || Deletes(off, bulkBuf[..], crp, old(userFlashErased)))
    {
      ghost var f0, m0, e0, c := fat[..], loader.iap.mem, userFlashErased, bulkBuf[..];
      assert FatAfter(f0, off, []) == f0;
      for i := 0 to PACKET
        invariant old(loader.iap.calls) <= loader.iap.calls
        invariant loader.Valid() && bulkBuf[..] == c
        invariant fat[..] == FatAfter(f0, off, c[..i])
        invariant loader.iap.mem == ApplyAll(m0, EraseOps(off, c[..i], crp, e0))
        invariant userFlashErased == (e0 || Deletes(off, c[..i], crp, e0))
      {
        TakeFatByte(off, i, f0, m0, e0, c);
      }
      assert c[..PACKET] == c;
    }

    /** One turn of that loop: byte `i` of the packet. */
    method TakeFatByte(off: nat, i: nat, ghost f0: fatRoot, ghost m0: memory, ghost e0: bool, ghost c: seq<byte>)
      requires Wired() && loader.Valid() && off % PACKET == 0 && BLOCK <= off && off + PACKET <= DATA_START
               && i < PACKET
      requires bulkBuf[..] == c && fat[..] == FatAfter(f0, off, c[..i])
      requires loader.iap.mem == ApplyAll(m0, EraseOps(off, c[..i], crp, e0))
      requires userFlashErased == (e0 || Deletes(off, c[..i], crp, e0))
      modifies fat, this`userFlashErased, loader`hung, loader.iap
      ensures old(loader.iap.calls) <= loader.iap.calls
      ensures loader.Valid() && fat[..] == FatAfter(f0, off, c[..i + 1])
      ensures loader.iap.mem == ApplyAll(m0, EraseOps(off, c[..i + 1], crp, e0))
      ensures userFlashErased == (e0 || Deletes(off, c[..i + 1], crp, e0))
    {
      assert c[i] == bulkBuf[i] && c[..i + 1] == c[..i] + [c[i]];
      PutFatByte(off, i, f0, c);
      EraseIfDeleted(off, i, m0, e0, c);
    }

    method PutFatByte(off: nat, i: nat, ghost f0: fatRoot, ghost c: seq<byte>)
      requires Wired() && BLOCK <= off && off + PACKET <= DATA_START && i < PACKET && bulkBuf[..] == c
      requires fat[..] == FatAfter(f0, off, c[..i])
      modifies fat
      ensures fat[..] == FatAfter(f0, off, c[..i + 1])
    {
      fat[off + i - BLOCK] := bulkBuf[i];
    }

    method EraseIfDeleted(off: nat, i: nat, ghost m0: memory, ghost e0: bool, ghost c: seq<byte>)
      requires Wired() && loader.Valid() && i < PACKET && bulkBuf[..] == c && c[..i + 1] == c[..i] + [bulkBuf[i]]
      requires loader.iap.mem == ApplyAll(m0, EraseOps(off, c[..i], crp, e0))
      requires userFlashErased == (e0 || Deletes(off, c[..i], crp, e0))
      modifies this`userFlashErased, loader`hung, loader.iap
      ensures old(loader.iap.calls) <= loader.iap.calls
      ensures loader.Valid()
      ensures loader.iap.mem == ApplyAll(m0, EraseOps(off, c[..i + 1], crp, e0))
      ensures userFlashErased == (e0 || Deletes(off, c[..i + 1], crp, e0))
    {
      ghost var one := [bulkBuf[i]];
      EraseStep(off, c[..i], one, crp, e0);
      ghost var more := EraseOps(off + i, one, crp, userFlashErased);
      ApplyConcat(m0, EraseOps(off, c[..i], crp, e0), more);
      if bulkBuf[i] == DELETED && (crp == Crp2 || crp == Crp3) && off + i == NAME_AT && !userFlashErased {
        assert more == [EraseUser];
        ApplyOne(loader.iap.mem, EraseUser);
        loader.EraseUserFlash();
        userFlashErased := true;
      } else {
        assert more == [];
      }
    }

    /** `translate_wr` in the data area: the packet goes to the page collector. */
    method TranslateWrData(off: nat)
      requires Wired() && loader.Valid() && Collecting(off) && DATA_START <= off && off + PACKET <= MEMORY_SIZE
      modifies loader`flashAddress, loader`byteCtr, loader`hung, loader.flashBuf, loader.iap
      ensures old(loader.iap.calls) <= loader.iap.calls
      ensures loader.Valid() && Collecting(off + PACKET)
      ensures old(loader.byteCtr) + PACKET < PAGE ==>
                loader.Waiting() == old(loader.Waiting()) + bulkBuf[..] && loader.iap.mem == old(loader.iap.mem)
      ensures old(loader.byteCtr) + PACKET == PAGE ==>
                && loader.Waiting() == []
                && var a := USER_START + off - old(loader.byteCtr) - DATA_START;
                   loader.iap.mem == Apply(old(loader.iap.mem), Page(a, old(loader.Waiting()) + bulkBuf[..]))
    {
      PageOf(off, loader.byteCtr, loader.flashAddress);
      assert bulkBuf[..PACKET] == bulkBuf[..];
      loader.WriteFlash(USER_START + (off - DATA_START), bulkBuf, PACKET);
    }

    ghost function State(): DiskState
      requires Wired() && loader.byteCtr <= loader.flashBuf.Length
      reads this`userFlashErased, fat, loader`byteCtr, loader.flashBuf, loader.iap
    {
      DiskState(View(), userFlashErased, loader.Waiting())
    }

    /** `translate_wr` on a full packet. */
    method TranslateWr(off: nat)
      requires Wired() && loader.Valid() && Collecting(off) && off + PACKET <= MEMORY_SIZE
      modifies fat, this`userFlashErased, loader`flashAddress, loader`byteCtr, loader`hung, loader.flashBuf,
          loader.iap
      ensures old(loader.iap.calls) <= loader.iap.calls
      ensures loader.Valid() && Collecting(off + PACKET) && State() == TakePacket(old(State()), off, bulkBuf[..])
    {
      InPage(off);
      if off < BLOCK {
        // the boot sector cannot be written
        assert fat[..] == FatAfter(fat[..], off, bulkBuf[..]);
      } else if off < DATA_START {
        TranslateWrFat(off);
      } else {
        TranslateWrPage(off);
      }
    }

    method TranslateWrPage(off: nat)
      requires Wired() && loader.Valid() && Collecting(off) && DATA_START <= off && off + PACKET <= MEMORY_SIZE
      modifies loader`flashAddress, loader`byteCtr, loader`hung, loader.flashBuf, loader.iap
      ensures old(loader.iap.calls) <= loader.iap.calls
      ensures loader.Valid() && Collecting(off + PACKET) && State() == TakePacket(old(State()), off, bulkBuf[..])
    {
      PageOf(off, loader.byteCtr, loader.flashAddress);
      ghost var s, c := State(), bulkBuf[..];
      if loader.byteCtr + PACKET == PAGE {
        TakeEnds(s.media, s.erased, s.waiting, off, c, USER_START + off - loader.byteCtr - DATA_START);
      } else {
        assert TakePacket(s, off, c) == s.(waiting := s.waiting + c);
      }
      TranslateWrData(off);
    }

    /** The bookkeeping of a packet taken. */
    method Account(n: nat)
      requires n <= length == csw.residue
      modifies this`stage, this`offset, this`length, this`csw, this`outs
      ensures csw.tag == old(csw.tag) && csw.residue == length
      ensures offset == old(offset) + n && length == old(length) - n
      ensures length > 0 ==> stage == old(stage) && outs == old(outs)
      ensures length == 0 ==>
                && stage == AwaitCsw && csw.status == CMD_PASSED
                && outs == old(outs) + [InPacket(CswBytes(csw))]
    {
      offset := offset + n;
      length := length - n;
      csw := csw.(residue := csw.residue - n);
      if length == 0 {
        csw := csw.(status := CMD_PASSED);
        SetCsw();
      }
    }

    /** `MSC_MemoryWrite` on a full packet. */
    method MemoryWrite()
      requires Valid() && stage == DataOut && bulkLen == PACKET
      modifies fat, loader`flashAddress, loader`byteCtr, loader`hung, loader.flashBuf, loader.iap
      modifies this`userFlashErased, this`stage, this`offset, this`length, this`csw, this`outs
      ensures old(loader.iap.calls) <= loader.iap.calls
      ensures loader.Valid() && Collecting(offset) && State() == TakePacket(old(State()), old(offset), bulkBuf[..])
      ensures csw.tag == old(csw.tag) && csw.residue == length
      ensures offset == old(offset) + PACKET && length == old(length) - PACKET
      ensures length > 0 ==> stage == DataOut && outs == old(outs)
      ensures length == 0 ==>
                && stage == AwaitCsw && csw.status == CMD_PASSED
                && outs == old(outs) + [InPacket(CswBytes(csw))]
    {
      PacketLess(length);
      if offset + bulkLen > MEMORY_SIZE {
        assert false;
      }
      TranslateWr(offset);
      Account(bulkLen);
    }

    // ---- Commands

    /** A command that ends at once with the given status. */
    method Finish(status: byte)
      modifies this`stage, this`outs, this`csw
      ensures csw == old(csw).(status := status) && stage == AwaitCsw
      ensures outs == old(outs) + [InPacket(CswBytes(csw))]
    {
      csw := csw.(status := status);
      SetCsw();
    }

    method Stall(o: Out)
      requires !o.InPacket?
      modifies this`outs
      ensures outs == old(outs) + [o]
    {
      outs := outs + [o];
    }

    /** `MSC_RWSetup`: address and length of a transfer, refused with both stalls and a
        phase error if the host expects another length. */
    method RwSetup() returns (ok: bool)
      requires Wired() && csw.tag == Tag(cbw[..]) && csw.residue == DataLength(cbw[..])
      modifies this`offset, this`length, this`stage, this`csw, this`outs
      ensures ok <==> DataLength(cbw[..]) == BLOCK * Blocks(cbw[..])
      ensures ok ==> offset == ByteOffset(Lba(cbw[..])) && length == BLOCK * Blocks(cbw[..])
      ensures ok ==> stage == old(stage) && csw == old(csw) && outs == old(outs)
      ensures !ok ==> Ended([StallIn, StallOut], PHASE_ERROR)
    {
      offset := ByteOffset(Number(cbw[17], cbw[18], cbw[19], cbw[20]));
      length := BLOCK * Be16(cbw[22], cbw[23]);
      ok := Number(cbw[11], cbw[10], cbw[9], cbw[8]) == length;
      if !ok {
        RefuseLength();
      }
    }

    /** The command has ended with `status` after `stalls`, every byte still owed. */
    twostate predicate Ended(stalls: seq<Out>, status: byte)
      reads this
    {
      && stage == AwaitCsw && csw == old(csw).(status := status)
      && outs == old(outs) + stalls + [InPacket(CswBytes(csw))]
    }

    method RefuseLength()
      modifies this`stage, this`csw, this`outs
      ensures Ended([StallIn, StallOut], PHASE_ERROR)
    {
      Stall(StallIn);
      Stall(StallOut);
      Finish(PHASE_ERROR);
    }

    /** The information commands: `DataInFormat`, then `DataInTransfer`. No length or the
        wrong direction is a phase error; otherwise the answer is cut to what is wanted. */
    method Inform()
      requires Wired() && csw.residue == DataLength(cbw[..])
      modifies this`stage, this`csw, this`outs
      ensures DataLength(cbw[..]) == 0 ==> Ended([], PHASE_ERROR)
      ensures DataLength(cbw[..]) != 0 && !DirectionIn(cbw[..]) ==> Ended([StallOut], PHASE_ERROR)
      ensures DataLength(cbw[..]) != 0 && DirectionIn(cbw[..]) ==>
                var data := Cut(InfoReply(Op(cbw[..])), DataLength(cbw[..]));
                && stage == DataInLast && csw == Csw(old(csw.tag), DataLength(cbw[..]) - |data|, CMD_PASSED)
                && outs == old(outs) + [InPacket(data)]
    {
      var want := Number(cbw[11], cbw[10], cbw[9], cbw[8]);
      if want == 0 {
        assert outs + [] == outs;
        Finish(PHASE_ERROR);
        return;
      }
      if cbw[12] < 0x80 {
        Stall(StallOut);
        Finish(PHASE_ERROR);
        return;
      }
      var r := InfoReply(cbw[15]);
      var n := if |r| > want then want else |r|;
      assert r[..n] == Cut(r, want);
      outs := outs + [InPacket(r[..n])];
      stage := DataInLast;
      csw := csw.(residue := csw.residue - n, status := CMD_PASSED);
    }

    /** `MSC_TestUnitReady`: success, and a stall if the host expects data. */
    method TestUnitReady()
      requires Wired()
      modifies this`stage, this`csw, this`outs
      ensures Ended(
                if DataLength(cbw[..]) == 0 then [] else if DirectionIn(cbw[..]) then [StallIn] else [StallOut],
                CMD_PASSED)
    {
      if Number(cbw[11], cbw[10], cbw[9], cbw[8]) != 0 {
        Stall(if cbw[12] >= 0x80 then StallIn else StallOut);
      } else {
        assert outs + [] == outs;
      }
      Finish(CMD_PASSED);
    }

    /** A transfer whose direction flag contradicts the command. */
    method WrongDirection(o: Out)
      requires !o.InPacket?
      modifies this`stage, this`csw, this`outs
      ensures Ended([o], PHASE_ERROR)
    {
      Stall(o);
      Finish(PHASE_ERROR);
    }

    /** The first packet of a read has been sent. */
    twostate predicate ReadBegun()
      requires Wired() && Lba(cbw[..]) <= BLOCK_COUNT
      reads this, cbw, fat, loader.iap
    {
      var at, len := BLOCK * Lba(cbw[..]), BLOCK * Blocks(cbw[..]);
      var n := ReadCount(at, len);
      && offset == at + n <= MEMORY_SIZE && length == len - n == csw.residue && stage == ReadStage(at, len)
      && csw.tag == Tag(cbw[..]) && (stage != DataIn ==> csw.status == CMD_PASSED)
      && outs == old(outs) + [InPacket(DiskBytes(View(), at, n))]
    }

    /** The data of a write are awaited. */
    twostate predicate WriteBegun()
      requires Wired()
      reads this, cbw
    {
      && stage == DataOut && outs == old(outs) && csw.residue == length && csw.tag == Tag(cbw[..])
      && offset == BLOCK * Lba(cbw[..]) && length == BLOCK * Blocks(cbw[..])
    }

    method ExecuteRead()
      requires Wired() && csw.tag == Tag(cbw[..]) && csw.residue == DataLength(cbw[..])
      requires Meaningful(cbw[..]) && Op(cbw[..]) == READ10 && Lba(cbw[..]) <= BLOCK_COUNT
      modifies memory, this`stage, this`offset, this`length, this`csw, this`outs
      ensures if ReadsDisk(cbw[..]) then ReadBegun() else Answered(cbw[..], old(outs), outs, csw, stage)
    {
      var ok := RwSetup();
      if ok {
        if cbw[12] >= 0x80 {
          stage := DataIn;
          MemoryRead();
        } else {
          WrongDirection(StallOut);
        }
      }
    }

    method ExecuteWrite()
      requires Wired() && csw.tag == Tag(cbw[..]) && csw.residue == DataLength(cbw[..])
      requires Meaningful(cbw[..]) && Op(cbw[..]) == WRITE10 && Lba(cbw[..]) <= BLOCK_COUNT
      modifies this`stage, this`offset, this`length, this`csw, this`outs
      ensures if WritesDisk(cbw[..]) then WriteBegun() else Answered(cbw[..], old(outs), outs, csw, stage)
    {
      var ok := RwSetup();
      if ok {
        if cbw[12] < 0x80 {
          stage := DataOut;
        } else {
          WrongDirection(StallIn);
        }
      }
    }

    /** The command switch of `MSC_GetCBW`. */
    method Execute()
      requires Wired() && csw.tag == Tag(cbw[..]) && csw.residue == DataLength(cbw[..])
      requires Signed(cbw[..]) && Conforms(cbw[..])
      modifies memory, this`stage, this`offset, this`length, this`csw, this`outs
      ensures if ReadsDisk(cbw[..]) then ReadBegun()
              else if WritesDisk(cbw[..]) then WriteBegun()
              else Answered(cbw[..], old(outs), outs, csw, stage)
    {
      var op := cbw[15];
      assert outs + [] == outs;
      if cbw[13] != 0 || cbw[14] < 1 || cbw[14] > 16 {
        Finish(CMD_FAILED);
      } else if op == TEST_UNIT_READY {
        TestUnitReady();
      } else if Informs(op) {
        Inform();
      } else if op == READ10 {
        ExecuteRead();
      } else if op == WRITE10 {
        ExecuteWrite();
      } else {
        Finish(CMD_FAILED);
      }
    }

    // ---- Events

    /** The copying loop of `MSC_GetCBW`. */
    method CopyCbw()
      requires Wired() && bulkLen <= CBW_SIZE
      modifies cbw
      ensures bulkLen == CBW_SIZE ==> cbw[..] == bulkBuf[..bulkLen]
    {
      for n := 0 to bulkLen
        invariant cbw[..n] == bulkBuf[..n]
      {
        cbw[n] := bulkBuf[n];
      }
    }

    twostate lemma LawfulRead()
      requires Wired() && loader.Valid() && loader.byteCtr == 0 && Lba(cbw[..]) <= BLOCK_COUNT
      requires Op(cbw[..]) == READ10 && ReadBegun()
      ensures Valid()
    {
    }

    twostate lemma LawfulWrite()
      requires Wired() && loader.Valid() && loader.byteCtr == 0 && Lba(cbw[..]) + Blocks(cbw[..]) <= BLOCK_COUNT
      requires Op(cbw[..]) == WRITE10 && Blocks(cbw[..]) > 0 && WriteBegun()
      ensures Valid()
    {
      BlockAligned(Lba(cbw[..]));
      BlockAligned(Blocks(cbw[..]));
      BlockAligned(Lba(cbw[..]) + Blocks(cbw[..]));
    }

    /** Whatever a command did, the device is in a lawful stage. */
    twostate lemma Lawful()
      requires Wired() && loader.Valid() && loader.byteCtr == 0 && Signed(cbw[..]) && Conforms(cbw[..])
      requires if ReadsDisk(cbw[..]) then ReadBegun()
               else if WritesDisk(cbw[..]) then WriteBegun()
               else Answered(cbw[..], old(outs), outs, csw, stage)
      ensures Valid()
    {
      if ReadsDisk(cbw[..]) {
        LawfulRead();
      } else if WritesDisk(cbw[..]) {
        LawfulWrite();
      }
    }

    /** `MSC_GetCBW`. */
    method GetCbw()
      requires Valid() && stage == AwaitCbw && bulkLen <= PACKET && Conforms(bulkBuf[..bulkLen])
      modifies memory, cbw, this`stage, this`offset, this`length, this`csw, this`outs
      ensures Valid()
      ensures bulkLen == CBW_SIZE && Signed(bulkBuf[..bulkLen]) ==>
                && cbw[..] == bulkBuf[..bulkLen]
                && if ReadsDisk(cbw[..]) then ReadBegun()
                   else if WritesDisk(cbw[..]) then WriteBegun()
                   else Answered(cbw[..], old(outs), outs, csw, stage)
      ensures !(bulkLen == CBW_SIZE && Signed(bulkBuf[..bulkLen])) ==>
                stage == Error && csw == old(csw) && outs == old(outs) + [StallIn, StallOut]
    {
      CopyCbw();
      if bulkLen == CBW_SIZE && cbw[..4] == CBW_SIGNATURE {
        assert cbw[..][..4] == cbw[..4];
        csw := csw.(tag := cbw[4..8], residue := Number(cbw[11], cbw[10], cbw[9], cbw[8]));
        assert cbw[4..8] == Tag(cbw[..]);
        Execute();
        Lawful();
      } else {
        if bulkLen == CBW_SIZE {
          assert cbw[..][..4] == cbw[..4];
        }
        Stall(StallIn);
        Stall(StallOut);
        stage := Error;
      }
    }

    /** `MSC_BulkIn`: the host has taken a packet. */
    method BulkIn()
      requires Valid()
      modifies memory, this`stage, this`offset, this`length, this`csw, this`outs
      ensures Valid() && csw.tag == old(csw.tag)
      ensures old(stage) == DataIn ==>
                var n := ReadCount(old(offset), old(length));
                && offset == old(offset) + n <= MEMORY_SIZE && length == old(length) - n == csw.residue
                && stage == ReadStage(old(offset), old(length)) && (stage != DataIn ==> csw.status == CMD_PASSED)
                && outs == old(outs) + [InPacket(DiskBytes(View(), old(offset), n))]
      ensures old(stage) == DataInLast ==>
                && csw == old(csw) && stage == AwaitCsw
                && outs == old(outs) + [InPacket(CswBytes(csw))]
      ensures old(stage) == DataInLastStall ==>
                csw == old(csw) && stage == AwaitCsw && outs == old(outs) + [StallIn, InPacket(CswBytes(csw))]
      ensures old(stage) == AwaitCsw ==> csw == old(csw) && stage == AwaitCbw && outs == old(outs)
      ensures old(stage) !in [DataIn, DataInLast, DataInLastStall, AwaitCsw] ==>
                stage == old(stage) && csw == old(csw) && outs == old(outs) && offset == old(offset)
                    && length == old(length)
    {
      match stage {
        case DataIn =>
          if cbw[15] == READ10 {
            MemoryRead();
          }
        case DataInLast =>
          SetCsw();
        case DataInLastStall =>
          Stall(StallIn);
          SetCsw();
        case AwaitCsw =>
          stage := AwaitCbw;
        case _ =>
      }
    }

    /** `USB_ReadEP` into `BulkBuf`. */
    method ReadEp(packet: seq<byte>)
      requires Wired() && |packet| <= PACKET
      modifies bulkBuf, this`bulkLen
      ensures bulkLen == |packet| && bulkBuf[..bulkLen] == packet
    {
      bulkLen := |packet|;
      for i := 0 to |packet|
        invariant bulkLen == |packet| && bulkBuf[..i] == packet[..i]
      {
        bulkBuf[i] := packet[i];
      }
    }

    /** `MSC_BulkOut` while a command is awaited. */
    method BulkOutCbw(packet: seq<byte>)
      requires Valid() && stage == AwaitCbw && |packet| <= PACKET && Conforms(packet)
      modifies memory, cbw, bulkBuf, this`bulkLen, this`stage, this`offset, this`length, this`csw, this`outs
      ensures Valid()
      ensures |packet| == CBW_SIZE && Signed(packet) ==>
                && cbw[..] == packet
                && if ReadsDisk(cbw[..]) then ReadBegun()
                   else if WritesDisk(cbw[..]) then WriteBegun()
                   else Answered(cbw[..], old(outs), outs, csw, stage)
      ensures !(|packet| == CBW_SIZE && Signed(packet)) ==>
                stage == Error && csw == old(csw) && outs == old(outs) + [StallIn, StallOut]
    {
      ReadEp(packet);
      GetCbw();
    }

    /** `MSC_BulkOut` while data are awaited. */
    method BulkOutData(packet: seq<byte>)
      requires Valid() && stage == DataOut && |packet| == PACKET
      modifies fat, bulkBuf, loader`flashAddress, loader`byteCtr, loader`hung, loader.flashBuf, loader.iap
      modifies this`bulkLen, this`userFlashErased, this`stage, this`offset, this`length, this`csw, this`outs
      ensures old(loader.iap.calls) <= loader.iap.calls
      ensures Valid() && State() == TakePacket(old(State()), old(offset), packet)
      ensures csw.tag == old(csw.tag) && csw.residue == length
      ensures offset == old(offset) + PACKET && length == old(length) - PACKET
      ensures length > 0 ==> stage == DataOut && outs == old(outs)
      ensures length == 0 ==>
                && stage == AwaitCsw && csw.status == CMD_PASSED
                && outs == old(outs) + [InPacket(CswBytes(csw))]
    {
      PacketLess(length);
      ghost var total := offset + length;
      ReadEp(packet);
      assert bulkBuf[..] == packet;
      MemoryWrite();
      assert offset + length == total;
      LawfulData();
    }

    lemma LawfulData()
      requires Wired() && loader.Valid() && |csw.tag| == 4 && Collecting(offset) && Op(cbw[..]) == WRITE10
      requires csw.residue == length && length % PACKET == 0 && offset + length <= MEMORY_SIZE
      requires (offset + length) % BLOCK == 0
      requires stage == if length == 0 then AwaitCsw else DataOut
      ensures Valid()
    {
    }

    /** `MSC_BulkOut`, whatever the stage: a packet that is not expected is answered
        with a phase error. */
    method BulkOut(packet: seq<byte>)
      requires Valid() && |packet| <= PACKET
      requires stage == AwaitCbw ==> Conforms(packet)
      requires stage == DataOut ==> |packet| == PACKET
      modifies Parts()
      ensures old(loader.iap.calls) <= loader.iap.calls
      ensures Valid()
      ensures old(stage) !in [AwaitCbw, DataOut] ==>
                && stage == AwaitCsw && csw == old(csw).(status := PHASE_ERROR)
                && outs == old(outs) + [StallOut, InPacket(CswBytes(csw))]
                && State() == old(State())
      ensures old(stage) == AwaitCbw ==> State() == old(State())
      ensures old(stage) == AwaitCbw && |packet| == CBW_SIZE && Signed(packet) ==>
                && cbw[..] == packet
                && if ReadsDisk(cbw[..]) then ReadBegun()
                   else if WritesDisk(cbw[..]) then WriteBegun()
                   else Answered(cbw[..], old(outs), outs, csw, stage)
      ensures old(stage) == AwaitCbw && !(|packet| == CBW_SIZE && Signed(packet)) ==>
                stage == Error && csw == old(csw) && outs == old(outs) + [StallIn, StallOut]
      ensures old(stage) == DataOut ==>
                && State() == TakePacket(old(State()), old(offset), packet)
                && csw.tag == old(csw.tag) && csw.residue == length
                && offset == old(offset) + PACKET && length == old(length) - PACKET
                && (length > 0 ==> stage == DataOut && outs == old(outs))
                && (length == 0 ==> stage == AwaitCsw && csw.status == CMD_PASSED
                                    && outs == old(outs) + [InPacket(CswBytes(csw))])
      ensures loader.iap.mem[..USER_START] == old(loader.iap.mem)[..USER_START]
    {
      match stage {
        case AwaitCbw =>
          BulkOutCbw(packet);
        case DataOut =>
          LoaderKept(State(), offset, packet);
          BulkOutData(packet);
        case _ =>
          ReadEp(packet);
          Stall(StallOut);
          Finish(PHASE_ERROR);
      }
    }
  }

  /** A packet never reaches the sectors of the boot loader. */
  lemma LoaderKept(s: DiskState, off: nat, c: seq<byte>)
    requires |c| == PACKET
    ensures TakePacket(s, off, c).media.flash[..USER_START] == s.media.flash[..USER_START]
  {
    var m, r := s.media.flash, TakePacket(s, off, c).media.flash;
    forall x: address | x < USER_START
      ensures r[x] == m[x]
    {
      var a := USER_START + off - |s.waiting| - DATA_START;
      if off < DATA_START {
        LoaderUntouched(m, EraseOps(off, c, s.media.crp, s.erased), x);
      } else if |s.waiting| + PACKET == PAGE && IsPageAddress(a) {
        FloorIs(a);
        ApplyOne(m, Page(a, s.waiting + c));
        LoaderUntouched(m, [Page(a, s.waiting + c)], x);
      }
    }
  }

  lemma BlockAligned(n: nat)
    ensures (BLOCK * n) % PACKET == 0 && (BLOCK * n) % PAGE == 0 && (BLOCK * n) % BLOCK == 0
  {
  }

  /** Where the page that a packet belongs to goes: into the user flash, on a page
      boundary, whether its address has been noted before or not. */
  lemma PageOf(off: nat, waiting: nat, noted: nat)
    requires off % PACKET == 0 && DATA_START <= off && off + PACKET <= MEMORY_SIZE
    requires waiting == off % PAGE && (waiting == 0 <==> noted == 0)
    requires waiting > 0 ==> noted == USER_START + off - waiting - DATA_START
    ensures var a := if noted == 0 then USER_START + (off - DATA_START) else noted;
            a == USER_START + off - waiting - DATA_START && USER_START <= a && a + PAGE <= FLASH_SIZE && a % PAGE == 0
    ensures (off + PACKET) % PACKET == 0
    ensures waiting + PACKET <= PAGE
            && (off + PACKET) % PAGE == if waiting + PACKET == PAGE then 0 else waiting + PACKET
  {
    InPage(off);
    PacketShift(off, 1);
    PageFits(USER_START + off - waiting - DATA_START);
  }

  lemma ApplyOne(m: memory, op: FlashOp)
    ensures ApplyAll(m, [op]) == Apply(m, op)
  {
    assert [op][..0] == [];
  }
}
