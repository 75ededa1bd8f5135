/** The firmware update end to end, and what any session of writes leaves in flash. */
module Firmware {
  import opened Bytes
  import opened Flash
  import FlashExact
  import opened Disk
  import opened DiskWrite
  import opened Bot
  import opened Msc
  import opened Host

  /** The commands write `image` to the data area in one ascending pass, cut anywhere
      between blocks. */
  predicate Pass(cs: seq<command>, image: seq<byte>) {
    if cs == [] then image == []
    else
      var c := cs[|cs| - 1];
      && c.Write? && |c.data| <= |image|
      && var n := |image| - |c.data|;
         c.data == image[n..] && BLOCK * c.lba == DATA_START + n && Pass(cs[..|cs| - 1], image[..n])
  }

  /** Whole blocks of user flash. */
  predicate Blocks(n: nat, d: seq<byte>) {
    n % BLOCK == 0 && |d| % BLOCK == 0 && n + |d| <= USER_SIZE
  }

  lemma BlocksArePages(n: nat, d: seq<byte>)
    requires Blocks(n, d)
    ensures (USER_START + n) % PAGE == 0 && |d| % PAGE == 0 && Whole(d) == d
    ensures Extent(DATA_START + n, d)
  {
    HalfBlocks(n);
    HalfBlocks(|d|);
    FloorIs(|d|);
    PacketsAre(|d|);
  }

  lemma HalfBlocks(n: nat)
    requires n % BLOCK == 0
    ensures n % PAGE == 0 && n % PACKET == 0 && n / PAGE * PAGE == n && (USER_START + n) % PAGE == 0
  {
    var k := n / BLOCK;
    Multiple(n, PAGE, 2 * k);
    Multiple(n, PACKET, 8 * k);
    Multiple(USER_START + n, PAGE, 48 + 2 * k);
  }

  lemma Multiple(n: nat, p: nat, q: nat)
    requires p > 0 && n == p * q
    ensures n % p == 0 && n / p == q && n / p * p == n
  {
    assert n == p * (n / p) + n % p;
    Within(p, n / p - q, n % p);
  }

  lemma Within(p: int, d: int, r: int)
    requires 0 <= r < p && p * d + r == 0
    ensures d == 0
  {
  }

  /** The media after `d` is written from place `n` of the user flash on. */
  function Flashed(m: Media, n: nat, d: seq<byte>): Media
    requires Blocks(n, d)
  {
    BlocksArePages(n, d);
    m.(flash := ApplyAll(m.flash, PageOps(USER_START + n, d)))
  }

  /** A write in the data area is page writes and nothing else. */
  lemma WrittenInData(m: Media, n: nat, d: seq<byte>, erased: bool)
    requires Blocks(n, d)
    ensures Extent(DATA_START + n, d) && Written(m, DATA_START + n, d, erased) == Flashed(m, n, d)
    ensures !Deletes(DATA_START + n, d, m.crp, erased)
  {
    BlocksArePages(n, d);
    var base := DATA_START + n;
    assert FatAfter(m.fat, base, d) == m.fat;
    assert EraseOps(base, d, m.crp, erased) == [];
    assert [] + PartOps(base, d) == PartOps(base, d);
    assert FlashBase(base) == USER_START + n && FlashPart(base, d) == d;
  }

  lemma BlocksConcat(d: seq<byte>, e: seq<byte>)
    requires Blocks(0, d) && Blocks(|d|, e)
    ensures Blocks(0, d + e)
  {
  }

  lemma FlashedConcat(m: Media, d: seq<byte>, e: seq<byte>)
    requires Blocks(0, d) && Blocks(|d|, e) && Blocks(0, d + e)
    ensures Flashed(Flashed(m, 0, d), |d|, e) == Flashed(m, 0, d + e)
  {
    BlocksArePages(0, d);
    BlocksArePages(|d|, e);
    PageOpsConcat(USER_START, d, e);
    ApplyConcat(m.flash, PageOps(USER_START, d), PageOps(USER_START + |d|, e));
  }

  /** However the pass is cut into commands, the flash sees the same page writes. */
  lemma {:induction false} PassWrites(s: Store, cs: seq<command>, image: seq<byte>)
    requires Pass(cs, image)
    ensures Blocks(0, image) && StoreAfter(s, cs) == s.(media := Flashed(s.media, 0, image))
    decreases |cs|
  {
    if cs == [] {
      FlashedNothing(s.media);
    } else {
      var front := PassSplit(cs, image);
      PassWrites(s, cs[..|cs| - 1], front);
      PassMore(s, cs[|cs| - 1], front, image);
      assert StoreAfter(s, cs) == StoreStep(StoreAfter(s, cs[..|cs| - 1]), cs[|cs| - 1]);
    }
  }

  lemma FlashedNothing(m: Media)
    ensures Blocks(0, []) && Flashed(m, 0, []) == m
  {
    assert PageOps(USER_START, []) == [];
  }

  lemma PassSplit(cs: seq<command>, image: seq<byte>) returns (front: seq<byte>)
    requires Pass(cs, image) && cs != []
    ensures var c := cs[|cs| - 1];
            c.Write? && image == front + c.data && BLOCK * c.lba == DATA_START + |front|
                && Pass(cs[..|cs| - 1], front)
  {
    front := image[..|image| - |cs[|cs| - 1].data|];
  }

  lemma PassMore(s: Store, c: command, front: seq<byte>, image: seq<byte>)
    requires c.Write? && BLOCK * c.lba == DATA_START + |front| && Blocks(0, front) && image == front + c.data
    ensures Blocks(0, image)
            && StoreStep(s.(media := Flashed(s.media, 0, front)), c) == s.(media := Flashed(s.media, 0, image))
  {
    PassStep(s.(media := Flashed(s.media, 0, front)), c, |front|);
    BlocksConcat(front, c.data);
    FlashedConcat(s.media, front, c.data);
  }

  lemma PassStep(s: Store, c: command, n: nat)
    requires c.Write? && BLOCK * c.lba == DATA_START + n && n % BLOCK == 0
    ensures Blocks(n, c.data) && StoreStep(s, c) == s.(media := Flashed(s.media, n, c.data))
  {
    WrittenInData(s.media, n, c.data, s.erased);
  }

  const DATA_LBA: u16 := 4
  const DATA_BLOCKS: u16 := 1000

  /** Write, then read: after one ascending pass of an image of user-flash size, cut into
      any WRITE10 commands, over any previous contents, the flash is the loader followed
      by the image, and nothing else has changed. */
  lemma UpdateWrites(s: Store, cs: seq<command>, image: seq<byte>)
    requires Pass(cs, image) && |image| == USER_SIZE
    ensures StoreAfter(s, cs) == s.(media := s.media.(flash := s.media.flash[..USER_START] + image))
  {
    PassWrites(s, cs, image);
    ImageWritten(s.media.flash, image);
  }

  /** An unprotected disk then reads the image back. */
  lemma UpdateReadsBack(s: Store, cs: seq<command>, image: seq<byte>, tag: seq<byte>)
    requires Pass(cs, image) && |image| == USER_SIZE && |tag| == 4 && s.media.crp == NoCrp
    ensures Reply(StoreAfter(s, cs), Read(tag, DATA_LBA, DATA_BLOCKS)) == image
  {
    UpdateWrites(s, cs, image);
    ReadsImage(StoreAfter(s, cs), image, tag);
  }

  lemma ReadsImage(s: Store, image: seq<byte>, tag: seq<byte>)
    requires |image| == USER_SIZE && s.media.flash[USER_START..] == image && s.media.crp == NoCrp && |tag| == 4
    ensures Reply(s, Read(tag, DATA_LBA, DATA_BLOCKS)) == image
  {
    var r := DiskBytes(s.media, DATA_START, USER_SIZE);
    forall k | 0 <= k < USER_SIZE
      ensures r[k] == image[k]
    {
      assert s.media.flash[USER_START..][k] == s.media.flash[USER_START + k];
    }
    assert r == image;
  }

  /** And a FAT12 reader finds it as the contents of firmware.bin. */
  lemma UpdateShowsFile(s: Store, cs: seq<command>, image: seq<byte>, k: nat)
    requires Pass(cs, image) && |image| == USER_SIZE && s.media.crp == NoCrp && k < USER_SIZE
    requires TableIs(s.media.fat) && RootIs(s.media.fat)
    ensures var m := StoreAfter(s, cs).media;
            FileByte(m, FirmwareChain(), k) == image[k]
  {
    UpdateWrites(s, cs, image);
    FirmwareIsFlash(StoreAfter(s, cs).media);
  }

  /** The same for a live device: whatever its flash held, after the commands of the pass
      and one read of the data area its flash is the loader followed by the image, and it
      has sent the status of each command, then the image in packets, then a status. */
  method Update(dev: Device, cs: seq<command>, image: seq<byte>, tag: seq<byte>)
    requires dev.Valid() && dev.stage == AwaitCbw && dev.crp == NoCrp
    requires Pass(cs, image) && |image| == USER_SIZE && |tag| == 4
    modifies dev.Parts()
    ensures dev.Valid() && dev.stage == AwaitCbw && dev.loader.byteCtr == 0
    ensures StoreOf(dev) == StoreAfter(old(StoreOf(dev)), cs)
    ensures dev.loader.iap.mem == old(dev.loader.iap.mem)[..USER_START] + image
    ensures var data := Answer(StoreOf(dev), Read(tag, DATA_LBA, DATA_BLOCKS));
            && dev.outs == old(dev.outs) + Answers(old(StoreOf(dev)), cs) + data
            && |data| > 0 && data[|data| - 1] == InPacket(CswBytes(Csw(tag, 0, CMD_PASSED)))
            && Collected(data[..|data| - 1]) == image
  {
    ghost var s := StoreOf(dev);
    var read: command := Read(tag, DATA_LBA, DATA_BLOCKS);
    Session(dev, cs);
    UpdateWrites(s, cs, image);
    UpdateReadsBack(s, cs, image, tag);
    AnswerCarries(StoreAfter(s, cs), read);
    RunCommand(dev, read);
  }

  // ---- Sessions of any writes

  /** The page writes of a session on an unprotected disk. */
  function SessionOps(cs: seq<command>): seq<FlashOp> {
    if cs == [] then []
    else SessionOps(cs[..|cs| - 1]) + OpsOf(cs[|cs| - 1])
  }

  function OpsOf(c: command): seq<FlashOp> {
    if c.Write? then
      CommandExtent(c);
      PartOps(BLOCK * c.lba, c.data)
    else []
  }

  lemma StepOps(s: Store, c: command)
    requires s.media.crp == NoCrp
    ensures StoreStep(s, c).media.crp == NoCrp
    ensures StoreStep(s, c).media.flash == ApplyAll(s.media.flash, OpsOf(c))
  {
    if c.Write? {
      CommandExtent(c);
      var base := BLOCK * c.lba;
      assert EraseOps(base, c.data, NoCrp, s.erased) == [];
      assert [] + PartOps(base, c.data) == PartOps(base, c.data);
    }
  }

  lemma {:induction false} SessionFlash(s: Store, cs: seq<command>)
    requires s.media.crp == NoCrp
    ensures StoreAfter(s, cs).media.crp == NoCrp
    ensures StoreAfter(s, cs).media.flash == ApplyAll(s.media.flash, SessionOps(cs))
  {
    if cs != [] {
      var front := cs[..|cs| - 1];
      SessionFlash(s, front);
      StepOps(StoreAfter(s, front), cs[|cs| - 1]);
      ApplyConcat(s.media.flash, SessionOps(front), OpsOf(cs[|cs| - 1]));
    }
  }

  /** Whatever is written in whatever order: a byte whose history of page writes is fresh
      holds what the session wrote to it last, whatever the flash held before. */
  lemma SessionReadsBack(s: Store, cs: seq<command>, x: address)
    requires s.media.crp == NoCrp && FlashExact.Fresh(SessionOps(cs), x)
    ensures FlashExact.Written(SessionOps(cs), x)
    ensures StoreAfter(s, cs).media.flash[x] == FlashExact.LastDatum(SessionOps(cs), x)
  {
    SessionFlash(s, cs);
    FlashExact.FreshIsHeld(SessionOps(cs), x);
    FlashExact.HeldReadsBack(SessionOps(cs), s.media.flash, SessionOps(cs), x);
  }
}
