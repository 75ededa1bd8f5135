/** "USB bootloader for LPCmini/iap/sbl_iap.c": collecting bytes into pages, and the
    in-application-programming calls that store them. */
module Sbl {
  import opened Bytes
  import opened Flash

  const CMD_SUCCESS: nat := 0
  const SECTOR_NOT_PREPARED: nat := 9

  datatype IapCall =
    | Prepare(first: sector, last: sector)
    | Erase(first: sector, last: sector)
    | CopyRam(at: pageAddress, data: page)

  /** The sectors that may be changed next. */
  datatype Permission = Nothing | Sectors(first: sector, last: sector)

  predicate Permits(p: Permission, first: sector, last: sector) {
    p.Sectors? && p.first <= first && last <= p.last
  }

  /** The IAP routine in ROM, as a device: erasing and programming work only on
      sectors prepared by the call before, and every one of them ends the permission. */
  class Iap {
    var mem: memory
    var prepared: Permission
    var calls: seq<IapCall>

    constructor (m: memory)
      ensures mem == m && prepared == Nothing && calls == []
    {
      mem, prepared, calls := m, Nothing, [];
    }

    method Prepare(first: sector, last: sector) returns (status: nat)
      modifies this
      ensures status == CMD_SUCCESS && mem == old(mem)
      ensures prepared == Sectors(first, last)
      ensures calls == old(calls) + [IapCall.Prepare(first, last)]
    {
      prepared := Sectors(first, last);
      calls := calls + [IapCall.Prepare(first, last)];
      return CMD_SUCCESS;
    }

    method Erase(first: sector, last: sector) returns (status: nat)
      modifies this
      ensures calls == old(calls) + [IapCall.Erase(first, last)] && prepared == Nothing
      ensures status == if Permits(old(prepared), first, last) then CMD_SUCCESS else SECTOR_NOT_PREPARED
      ensures mem == if status == CMD_SUCCESS then EraseSectors(old(mem), first, last) else old(mem)
    {
      calls := calls + [IapCall.Erase(first, last)];
      status := SECTOR_NOT_PREPARED;
      if Permits(prepared, first, last) {
        mem := EraseSectors(mem, first, last);
        status := CMD_SUCCESS;
      }
      prepared := Nothing;
    }

    method CopyRamToFlash(at: pageAddress, data: page) returns (status: nat)
      modifies this
      ensures calls == old(calls) + [CopyRam(at, data)] && prepared == Nothing
      ensures status ==
              if Permits(old(prepared), SectorOf(at), SectorOf(at)) then CMD_SUCCESS else SECTOR_NOT_PREPARED
      ensures mem == if status == CMD_SUCCESS then Program(old(mem), at, data) else old(mem)
    {
      calls := calls + [CopyRam(at, data)];
      status := SECTOR_NOT_PREPARED;
      if Permits(prepared, SectorOf(at), SectorOf(at)) {
        mem := Program(mem, at, data);
        status := CMD_SUCCESS;
      }
      prepared := Nothing;
    }
  }

  /** A call may change only user sectors, and only those that the call directly
      before it prepared. */
  predicate Allowed(calls: seq<IapCall>, k: nat)
    requires k < |calls|
  {
    match calls[k]
    case Prepare(_, _) => true
    case Erase(f, l) => USER_START_SECTOR <= f && k > 0 && calls[k - 1] == IapCall.Prepare(f, l)
    case CopyRam(a, _) => k > 0 && calls[k - 1] == IapCall.Prepare(SectorOf(a), SectorOf(a))
  }

  predicate Disciplined(calls: seq<IapCall>) {
    forall k | 0 <= k < |calls| :: Allowed(calls, k)
  }

  lemma DisciplinedAppend(calls: seq<IapCall>, c: IapCall)
    requires Disciplined(calls) && Allowed(calls + [c], |calls|)
    ensures Disciplined(calls + [c])
  {
    forall k | 0 <= k < |calls + [c]|
      ensures Allowed(calls + [c], k)
    {
      if k < |calls| {
        assert Allowed(calls, k);
      }
    }
  }

  class Loader {
    const iap: Iap
    const flashBuf: array<byte>
    var flashAddress: nat
    var byteCtr: nat
    var hung: bool  // an IAP status other than success ends in `while(1)`

    ghost predicate Valid()
      reads this, iap
    {
      && flashBuf.Length == PAGE && byteCtr < PAGE && !hung
      && (byteCtr == 0 <==> flashAddress == 0)
      && Disciplined(iap.calls)
    }

    /** The bytes waiting for a full page. */
    ghost function Waiting(): seq<byte>
      requires byteCtr <= flashBuf.Length
      reads this`byteCtr, flashBuf
    {
      flashBuf[..byteCtr]
    }

    constructor (i: Iap)
      requires i.calls == []
      ensures Valid() && iap == i && fresh(flashBuf) && Waiting() == []
    {
      iap := i;
      flashBuf := new byte[PAGE](_ => 0);
      flashAddress, byteCtr, hung := 0, 0, false;
    }

    /** `find_erase_prepare_sector`: the linear search finds the sector of the page,
        erases it if the page is its first, and leaves it prepared. */
    method FindErasePrepare(a: pageAddress) returns (status: nat)
      requires Disciplined(iap.calls)
      modifies iap
      ensures status == CMD_SUCCESS && iap.prepared == Sectors(SectorOf(a), SectorOf(a)) && Disciplined(iap.calls)
      ensures |iap.calls| > 0 && iap.calls[|iap.calls| - 1] == IapCall.Prepare(SectorOf(a), SectorOf(a))
      ensures old(iap.calls) <= iap.calls
      ensures iap.mem == if Erases(a) then EraseSectors(old(iap.mem), SectorOf(a), SectorOf(a)) else old(iap.mem)
    {
      status := SECTOR_NOT_PREPARED;
      var i := USER_START_SECTOR;
      while i <= MAX_USER_SECTOR
        invariant USER_START_SECTOR <= i <= SectorOf(a)
        invariant iap.mem == old(iap.mem) && iap.calls == old(iap.calls)
        decreases MAX_USER_SECTOR - i
      {
        SearchStep(a, i);
        if a < SectorEnd(i) {
          if a == SectorStart(i) {
            DisciplinedAppend(iap.calls, IapCall.Prepare(i, i));
            status := iap.Prepare(i, i);
            DisciplinedAppend(iap.calls, IapCall.Erase(i, i));
            status := iap.Erase(i, i);
          }
          DisciplinedAppend(iap.calls, IapCall.Prepare(i, i));
          status := iap.Prepare(i, i);
          return;
        }
        i := i + 1;
      }
    }

    /** `write_flash`: bytes gather in `flash_buf`; a full page is written to flash and
        the buffer starts afresh. `dst` counts only for the first bytes of a page. */
    method WriteFlash(dst: nat, src: array<byte>, n: nat)
      requires Valid() && dst != 0 && n <= src.Length && src != flashBuf && n > 0
      requires byteCtr + n <= PAGE
      requires var a := if flashAddress == 0 then dst else flashAddress;
               USER_START <= a && a + PAGE <= FLASH_SIZE && a % PAGE == 0
      modifies this`flashAddress, this`byteCtr, this`hung, flashBuf, iap
      ensures Valid() && old(iap.calls) <= iap.calls
      ensures old(byteCtr) + n < PAGE ==>
                && Waiting() == old(Waiting()) + src[..n] && iap.mem == old(iap.mem)
                && flashAddress == if old(flashAddress) == 0 then dst else old(flashAddress)
      ensures old(byteCtr) + n == PAGE ==>
                && byteCtr == 0
                && var a := if old(flashAddress) == 0 then dst else old(flashAddress);
                   iap.mem == Apply(old(iap.mem), Page(a, old(Waiting()) + src[..n]))
    {
      if flashAddress == 0 {
        flashAddress := dst;
      }
      Gather(src, n);
      byteCtr := byteCtr + n;
      if byteCtr == PAGE {
        assert flashBuf[..] == flashBuf[..byteCtr];
        var status := FindErasePrepare(flashAddress);
        hung := status != CMD_SUCCESS;
        if !hung {
          DisciplinedAppend(iap.calls, CopyRam(flashAddress, flashBuf[..]));
          status := iap.CopyRamToFlash(flashAddress, flashBuf[..]);
          hung := status != CMD_SUCCESS;
          byteCtr, flashAddress := 0, 0;
        }
      }
    }

    /** The copying loop of `write_flash`. */
    method Gather(src: array<byte>, n: nat)
      requires flashBuf.Length == PAGE && byteCtr + n <= PAGE && n <= src.Length && src != flashBuf
      modifies flashBuf
      ensures flashBuf[..byteCtr + n] == old(flashBuf[..byteCtr]) + src[..n]
    {
      for i := 0 to n
        invariant flashBuf[..byteCtr + i] == old(flashBuf[..byteCtr]) + src[..i]
      {
        flashBuf[byteCtr + i] := src[i];
      }
    }

    /** `erase_user_flash`. */
    method EraseUserFlash()
      requires Valid()
      modifies this`hung, iap
      ensures Valid() && iap.mem == Apply(old(iap.mem), EraseUser) && old(iap.calls) <= iap.calls
    {
      DisciplinedAppend(iap.calls, IapCall.Prepare(USER_START_SECTOR, MAX_USER_SECTOR));
      var status := iap.Prepare(USER_START_SECTOR, MAX_USER_SECTOR);
      DisciplinedAppend(iap.calls, IapCall.Erase(USER_START_SECTOR, MAX_USER_SECTOR));
      status := iap.Erase(USER_START_SECTOR, MAX_USER_SECTOR);
      hung := status != CMD_SUCCESS;
    }
  }

  /** The search stops at the sector of the page: a page never starts on the last
      byte of a sector. */
  lemma SearchStep(a: pageAddress, i: sector)
    requires i <= SectorOf(a)
    ensures a < SectorEnd(i) <==> i == SectorOf(a)
  {
    SectorHolds(a, SectorOf(a));
  }
}
