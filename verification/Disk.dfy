/** The synthetic FAT12 disk of the boot loader: what `translate_rd` shows, how
    `enter_usb_isp` generates the table, and what a FAT12 reader makes of it. */
module Disk {
  import opened Bytes
  import opened Flash

  const BLOCK: nat := 512
  const FAT_SIZE: nat := 1024
  const ROOT_SIZE: nat := 512
  const DATA_START: nat := 2048               // boot sector, table and root directory
  const MEMORY_SIZE: nat := DATA_START + USER_SIZE
  const BLOCK_COUNT: nat := 1004              // MEMORY_SIZE / BLOCK
  const NO_OF_CLUSTERS: nat := 502            // BLOCK_COUNT / 2

  datatype Crp = NoCrp | Crp1 | Crp2 | Crp3

  type fatRoot = f: seq<byte> | |f| == FAT_SIZE + ROOT_SIZE witness seq(1536, _ => 0)

  /** What the disk shows depends on the RAM copy of table and directory, on the
      flash, and on the read protection. */
  datatype Media = Media(fat: fatRoot, flash: memory, crp: Crp)

  const BOOT_SECT: seq<byte> :=
    [0xEB, 0x3C, 0x90, 0x4D, 0x53, 0x44, 0x4F, 0x53, 0x35, 0x2E, 0x30, 0x00, 0x02, 2, 0x01, 0x00,
     0x01, 0x10, 0x00, 0xEC, 0x03, 0xF8, 0x02, 0x00, 0x01, 0x00, 0x01, 0x00, 0x00, 0x00]

  function BootByte(off: nat): byte
    requires off < BLOCK
  {
    if off == 19 then BLOCK_COUNT % 0x100
    else if off == 20 then BLOCK_COUNT / 0x100 % 0x100
    else if off == 510 then 0x55
    else if off == 511 then 0xAA
    else if off > 29 then 0
    else BOOT_SECT[off]
  }

  function DiskByte(m: Media, off: nat): byte
    requires off < MEMORY_SIZE
  {
    if off < BLOCK then BootByte(off)
    else if off < DATA_START then m.fat[off - BLOCK]
    else if m.crp.NoCrp? then m.flash[USER_START + off - DATA_START]
    else 0
  }

  /** `n` bytes of the disk from `off` on. */
  function DiskBytes(m: Media, off: nat, n: nat): (r: seq<byte>)
    requires off + n <= MEMORY_SIZE
    ensures |r| == n
  {
    seq<byte>(n, i requires 0 <= i < n => DiskByte(m, off + i))
  }

  // ---- A FAT12 reader that knows the disk only through its bytes

  function Le16(m: Media, off: nat): nat
    requires off + 1 < MEMORY_SIZE
  {
    DiskByte(m, off) as int + 0x100 * DiskByte(m, off + 1) as int
  }

  function Le32(m: Media, off: nat): nat
    requires off + 3 < MEMORY_SIZE
  {
    Le16(m, off) + 0x1_0000 * Le16(m, off + 2)
  }

  /** The fields of the boot sector that place the parts of a FAT12 volume. */
  datatype Geometry = Geometry(fatAt: nat, rootAt: nat, dataAt: nat, clusterSize: nat)

  function ReadGeometry(m: Media): Geometry {
    var sector := Le16(m, 11);
    var fatAt := Le16(m, 14) * sector;
    var rootAt := fatAt + DiskByte(m, 16) as int * Le16(m, 22) * sector;
    Geometry(fatAt, rootAt, rootAt + 32 * Le16(m, 17), DiskByte(m, 13) as int * sector)
  }

  /** Entry `c` of the table at `at`: 12 bits, packed two to three bytes. */
  function FatEntry(m: Media, at: nat, c: nat): nat
    requires at + c + c / 2 + 1 < MEMORY_SIZE
  {
    var w := Le16(m, at + c + c / 2);
    if c % 2 == 0 then w % 0x1000 else w / 0x10
  }

  const END_OF_CHAIN: nat := 0xFF8

  /** Cluster `i` of the chain links to the next one, the last to none. */
  predicate Linked(m: Media, g: Geometry, chain: seq<nat>, i: nat)
    requires i < |chain|
  {
    && g.fatAt + chain[i] + chain[i] / 2 + 1 < MEMORY_SIZE
    && var e := FatEntry(m, g.fatAt, chain[i]);
       if i < |chain| - 1 then e == chain[i + 1] < END_OF_CHAIN else e >= END_OF_CHAIN
  }

  /** `chain` is the cluster chain that starts at `first`. */
  predicate IsChain(m: Media, g: Geometry, first: nat, chain: seq<nat>) {
    chain != [] && chain[0] == first && forall i | 0 <= i < |chain| :: Linked(m, g, chain, i)
  }

  /** A cluster has one successor, so a chain is determined by its start. */
  lemma {:induction false} ChainUnique(m: Media, g: Geometry, a: seq<nat>, b: seq<nat>)
    requires a != [] && b != [] && a[0] == b[0]
    requires forall i | 0 <= i < |a| :: Linked(m, g, a, i)
    requires forall i | 0 <= i < |b| :: Linked(m, g, b, i)
    ensures a == b
  {
    assert Linked(m, g, a, 0) && Linked(m, g, b, 0);
    if |a| > 1 && |b| > 1 {
      forall i | 0 <= i < |a| - 1
        ensures Linked(m, g, a[1..], i)
      {
        assert Linked(m, g, a, i + 1);
      }
      forall i | 0 <= i < |b| - 1
        ensures Linked(m, g, b[1..], i)
      {
        assert Linked(m, g, b, i + 1);
      }
      ChainUnique(m, g, a[1..], b[1..]);
      assert a == [a[0]] + a[1..] && b == [b[0]] + b[1..];
    }
  }

  /** Byte `k` of a file with this chain, where a FAT12 reader looks for it. */
  function FileByte(m: Media, chain: seq<nat>, k: nat): int {
    var g := ReadGeometry(m);
    if g.clusterSize > 0 && k / g.clusterSize < |chain| then
      var at := g.dataAt + (chain[k / g.clusterSize] - 2) * g.clusterSize + k % g.clusterSize;
      if 0 <= at < MEMORY_SIZE then DiskByte(m, at) else -1
    else -1
  }

  // ---- What the loader generates

  const FIRMWARE_BIN: seq<byte> := [0x46, 0x49, 0x52, 0x4D, 0x57, 0x41, 0x52, 0x45, 0x42, 0x49, 0x4E]

  const VOLUME_LABEL: seq<byte> :=
    [0x43, 0x52, 0x50, 0x20, 0x44, 0x49, 0x53, 0x41, 0x42, 0x4C, 0x45, 0x28, 0, 0, 0, 0,
     0, 0, 0, 0, 0, 0, 0, 0, 0, 0, 0, 0, 0, 0, 0, 0]

  const FIRMWARE_DETAILS: seq<byte> :=
    [0x20, 0x18, 0xbc, 0x41, 0x97, 0x37, 0x38, 0x37, 0x38, 0x00, 0x00,
     0x3d, 0x6e, 0x2b, 0x38, 0x02, 0x00, 0x00, 0xD0, 0x07, 0x00]

  const ROOT_DIR_ENTRY: seq<byte> := VOLUME_LABEL + FIRMWARE_BIN + FIRMWARE_DETAILS

  const CRP_ENTRY: seq<byte> := [0x20, 0x45, 0x4E, 0x41, 0x42, 0x4C, 0x45]

  function NextCluster(n: nat): nat {
    if n == NO_OF_CLUSTERS - 1 then 0xFFF else n + 1
  }

  /** Table bytes 3j, 3j+1, 3j+2 hold the links of clusters 2j and 2j+1. */
  predicate PairIs(f: seq<byte>, j: nat)
    requires 3 * j + 2 < |f|
  {
    var n, next := 2 * j + 1, NextCluster(2 * j + 1);
    && f[3 * j] == n % 0x100
    && f[3 * j + 1] == (next % 0x10) * 0x10 + n / 0x100
    && f[3 * j + 2] == next / 0x10
  }

  predicate TableIs(f: fatRoot) {
    forall j | 1 <= j <= NO_OF_CLUSTERS / 2 :: PairIs(f, j)
  }

  /** The directory part: the entry of firmware.bin behind the volume label. */
  predicate RootIs(f: fatRoot) {
    && (forall i | 32 <= i < 60 :: f[FAT_SIZE + i] == ROOT_DIR_ENTRY[i])
    && f[FAT_SIZE + 60] == 0x00 && f[FAT_SIZE + 61] == 0xD0 && f[FAT_SIZE + 62] == 0x07 && f[FAT_SIZE + 63] == 0x00
  }

  /** The volume label a host shows: whether the flash can be read. */
  function Label(crp: Crp): (r: string)
    ensures |r| == 11
  {
    match crp
    case NoCrp => "CRP DISABLE"
    case Crp1 => "CRP1 ENABLE"
    case Crp2 => "CRP2 ENABLE"
    case Crp3 => "CRP3 ENABLE"
  }

  predicate LabelIs(f: fatRoot, crp: Crp) {
    forall i | 0 <= i < 11 :: f[FAT_SIZE + i] == Label(crp)[i] as int
  }

  /** The generation loops of `enter_usb_isp`. */
  method BuildFatRoot(f: array<byte>, crp: Crp)
    requires f.Length == FAT_SIZE + ROOT_SIZE
    modifies f
    ensures TableIs(f[..]) && RootIs(f[..]) && LabelIs(f[..], crp)
    ensures f[0] == 0xF8 && f[1] == 0xFF && f[2] == 0xFF
  {
    BuildTable(f);
    ghost var t := f[..];
    BuildRoot(f, crp);
    forall j | 1 <= j <= NO_OF_CLUSTERS / 2
      ensures PairIs(f[..], j)
    {
      assert PairIs(t, j);
    }
  }

  /** The masks of the loop change nothing on twelve-bit numbers. */
  lemma TwelveBits(n: nat)
    requires n < 0x1000
    ensures n % 0x100 % 0x10 == n % 0x10 && n / 0x100 % 0x100 % 0x10 == n / 0x100 && n / 0x10 % 0x100 == n / 0x10
  {
    assert n == 0x10 * (0x10 * (n / 0x100) + n % 0x100 / 0x10) + n % 0x100 % 0x10;
  }

  /** One turn of the table loop. */
  method PutPair(f: array<byte>, m: nat, n: nat)
    requires m + 2 < f.Length && n < 0x1000 - 1 && n % 2 == 1 && m == 3 * (n / 2)
    modifies f
    ensures PairIs(f[..], n / 2)
    ensures forall i | 0 <= i < f.Length && !(m <= i < m + 3) :: f[i] == old(f[i])
  {
    var next := if n == NO_OF_CLUSTERS - 1 then 0xFFF else n + 1;
    TwelveBits(n);
    TwelveBits(next);
    assert 2 * (n / 2) + 1 == n;
    f[m] := n % 0x100;
    f[m + 1] := (next % 0x100 % 0x10) * 0x10 + n / 0x100 % 0x100 % 0x10;
    f[m + 2] := next / 0x10 % 0x100;
  }

  method BuildTable(f: array<byte>)
    requires f.Length == FAT_SIZE + ROOT_SIZE
    modifies f
    ensures TableIs(f[..]) && f[0] == 0xF8 && f[1] == 0xFF && f[2] == 0xFF
  {
    f[0], f[1], f[2] := 0xF8, 0xFF, 0xFF;
    var m, n := 3, 3;
    while n < NO_OF_CLUSTERS + 2
      invariant n % 2 == 1 && 3 <= n <= NO_OF_CLUSTERS + 3 && m == 3 * (n / 2)
      invariant forall j | 1 <= j < n / 2 :: PairIs(f[..], j)
      invariant f[0] == 0xF8 && f[1] == 0xFF && f[2] == 0xFF
    {
      ghost var t := f[..];
      PutPair(f, m, n);
      forall j | 1 <= j <= n / 2
        ensures PairIs(f[..], j)
      {
        if j < n / 2 {
          assert PairIs(t, j);
        }
      }
      m, n := m + 3, n + 2;
    }
  }

  method BuildRoot(f: array<byte>, crp: Crp)
    requires f.Length == FAT_SIZE + ROOT_SIZE
    modifies f
    ensures forall i | 0 <= i < FAT_SIZE :: f[i] == old(f[i])
    ensures RootIs(f[..]) && LabelIs(f[..], crp)
  {
    CopyEntries(f, ROOT_DIR_ENTRY);
    forall i | 0 <= i < 11
      ensures f[FAT_SIZE + i] == Label(NoCrp)[i] as int
    {
      LabelBytes(NoCrp, i);
    }
    if crp != NoCrp {
      LabelDisk(f, crp);
    }
    f[FAT_SIZE + 60] := USER_SIZE % 0x100;
    f[FAT_SIZE + 61] := USER_SIZE / 0x100 % 0x100;
    f[FAT_SIZE + 62] := USER_SIZE / 0x1_0000 % 0x100;
    f[FAT_SIZE + 63] := USER_SIZE / 0x100_0000 % 0x100;
  }

  /** The directory entries are copied. */
  method CopyEntries(f: array<byte>, e: seq<byte>)
    requires f.Length == FAT_SIZE + ROOT_SIZE && |e| == 64
    modifies f
    ensures forall i | 0 <= i < FAT_SIZE :: f[i] == old(f[i])
    ensures forall i | 0 <= i < 64 :: f[FAT_SIZE + i] == e[i]
  {
    for n := 0 to 64
      invariant forall i | 0 <= i < FAT_SIZE :: f[i] == old(f[i])
      invariant forall i | 0 <= i < n :: f[FAT_SIZE + i] == e[i]
    {
      f[FAT_SIZE + n] := e[n];
    }
  }

  /** The bytes of the labels. */
  lemma LabelBytes(crp: Crp, i: nat)
    requires i < 11
    ensures Label(NoCrp)[i] as int == ROOT_DIR_ENTRY[i]
    ensures crp != NoCrp && i < 3 ==> Label(crp)[i] == Label(NoCrp)[i]
    ensures crp != NoCrp && i == 3 ==>
              Label(crp)[i] as int == if crp == Crp1 then 0x31 else if crp == Crp2 then 0x32 else 0x33
    ensures crp != NoCrp && i > 3 ==> Label(crp)[i] as int == CRP_ENTRY[i - 4]
  {
    assert ROOT_DIR_ENTRY[i] == VOLUME_LABEL[i];
    assert i == 0 || i == 1 || i == 2 || i == 3 || i == 4 || i == 5 || i == 6 || i == 7 || i == 8 || i == 9 || i == 10;
  }

  /** The volume label shows the protection level; only its bytes 3 to 10 change. */
  method LabelDisk(f: array<byte>, crp: Crp)
    requires f.Length == FAT_SIZE + ROOT_SIZE && crp != NoCrp && LabelIs(f[..], NoCrp)
    modifies f
    ensures LabelIs(f[..], crp)
    ensures forall i | 0 <= i < f.Length && !(FAT_SIZE + 3 <= i < FAT_SIZE + 11) :: f[i] == old(f[i])
  {
    forall i | 0 <= i < 11 {
      LabelBytes(crp, i);
    }
    f[FAT_SIZE + 3] := if crp == Crp1 then 0x31 else if crp == Crp2 then 0x32 else 0x33;
    for n := 4 to 11
      invariant forall i | 0 <= i < f.Length && !(FAT_SIZE + 3 <= i < FAT_SIZE + 11) :: f[i] == old(f[i])
      invariant forall i | 0 <= i < n :: f[FAT_SIZE + i] == Label(crp)[i] as int
    {
      f[FAT_SIZE + n] := CRP_ENTRY[n - 4];
    }
  }

  // ---- The file is the firmware

  lemma GeometryOf(m: Media)
    ensures ReadGeometry(m) == Geometry(BLOCK, BLOCK + FAT_SIZE, DATA_START, 2 * BLOCK)
  {
    assert Le16(m, 11) == 0x200 && Le16(m, 14) == 1 && DiskByte(m, 16) == 1 && Le16(m, 22) == 2;
    assert Le16(m, 17) == 16 && DiskByte(m, 13) == 2;
  }

  /** The table links every cluster to its successor, and cluster 501 to none. */
  lemma EntryOf(m: Media, c: nat)
    requires TableIs(m.fat) && 2 <= c <= NO_OF_CLUSTERS
    ensures FatEntry(m, BLOCK, c) == if c == NO_OF_CLUSTERS - 1 then 0xFFF else c + 1
  {
    var j := c / 2;
    assert PairIs(m.fat, j);
    var b0, b1, b2 := m.fat[3 * j], m.fat[3 * j + 1], m.fat[3 * j + 2];
    Unpack(2 * j + 1, NextCluster(2 * j + 1), b0, b1, b2);
    if c % 2 == 0 {
      assert Le16(m, BLOCK + 3 * j) == b0 as int + 0x100 * b1 as int;
    } else {
      assert Le16(m, BLOCK + 3 * j + 1) == b1 as int + 0x100 * b2 as int;
    }
  }

  lemma Unpack(n: nat, next: nat, b0: byte, b1: byte, b2: byte)
    requires n < 0x1000 && next < 0x1000
    requires b0 == n % 0x100 && b1 == (next % 0x10) * 0x10 + n / 0x100 && b2 == next / 0x10
    ensures (b0 as int + 0x100 * b1 as int) % 0x1000 == n && (b1 as int + 0x100 * b2 as int) / 0x10 == next
  {
  }

  /** The clusters of firmware.bin: 2, 3, ..., 501. */
  function FirmwareChain(): seq<nat> {
    seq(USER_SIZE / (2 * BLOCK), i => i + 2)
  }

  /** Following the generated table from the directory entry of firmware.bin visits
      exactly the clusters that the user flash needs and then stops; the file has the
      size of the user flash; and each of its bytes is the flash byte in that place. */
  lemma FirmwareIsFlash(m: Media)
    requires TableIs(m.fat) && RootIs(m.fat) && m.crp == NoCrp
    ensures var g := ReadGeometry(m);
            && (forall i | 0 <= i < 11 :: DiskByte(m, g.rootAt + 32 + i) == FIRMWARE_BIN[i])
            && Le32(m, g.rootAt + 32 + 28) == USER_SIZE
            && g.clusterSize * |FirmwareChain()| == USER_SIZE
            && IsChain(m, g, Le16(m, g.rootAt + 32 + 26), FirmwareChain())
    ensures forall k | 0 <= k < USER_SIZE :: FileByte(m, FirmwareChain(), k) == m.flash[USER_START + k]
  {
    GeometryOf(m);
    EntryFields(m);
    forall i | 0 <= i < |FirmwareChain()|
      ensures Linked(m, ReadGeometry(m), FirmwareChain(), i)
    {
      EntryOf(m, i + 2);
    }
  }

  lemma EntryFields(m: Media)
    requires RootIs(m.fat)
    ensures forall i | 0 <= i < 11 :: DiskByte(m, BLOCK + FAT_SIZE + 32 + i) == FIRMWARE_BIN[i]
    ensures Le16(m, BLOCK + FAT_SIZE + 58) == 2 && Le32(m, BLOCK + FAT_SIZE + 60) == USER_SIZE
  {
    forall i | 32 <= i < 60
      ensures DiskByte(m, BLOCK + FAT_SIZE + i) == ROOT_DIR_ENTRY[i]
    {
      assert m.fat[FAT_SIZE + i] == ROOT_DIR_ENTRY[i];
    }
    forall i | 0 <= i < 11
      ensures DiskByte(m, BLOCK + FAT_SIZE + 32 + i) == FIRMWARE_BIN[i]
    {
      assert ROOT_DIR_ENTRY[32 + i] == FIRMWARE_BIN[i];
      assert DiskByte(m, BLOCK + FAT_SIZE + (32 + i)) == ROOT_DIR_ENTRY[32 + i];
    }
    assert ROOT_DIR_ENTRY[58] == FIRMWARE_DETAILS[15] && ROOT_DIR_ENTRY[59] == FIRMWARE_DETAILS[16];
    assert DiskByte(m, BLOCK + FAT_SIZE + 58) == 2 && DiskByte(m, BLOCK + FAT_SIZE + 59) == 0;
  }
}
