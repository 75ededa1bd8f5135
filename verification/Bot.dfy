/** The wrappers of the Bulk-Only Transport (sections 5.1 and 5.2 of USB Mass Storage
    Class Bulk-Only Transport 1.0) and the answers of the information commands. */
module Bot {
  import opened Bytes
  import opened Disk

  const CBW_SIZE: nat := 31
  const CBW_SIGNATURE: seq<byte> := [0x55, 0x53, 0x42, 0x43]
  const CSW_SIGNATURE: seq<byte> := [0x55, 0x53, 0x42, 0x53]

  const CMD_PASSED: byte := 0
  const CMD_FAILED: byte := 1
  const PHASE_ERROR: byte := 2

  const TEST_UNIT_READY: byte := 0x00
  const REQUEST_SENSE: byte := 0x03
  const INQUIRY: byte := 0x12
  const MODE_SENSE6: byte := 0x1A
  const READ_FORMAT_CAPACITIES: byte := 0x23
  const READ_CAPACITY: byte := 0x25
  const READ10: byte := 0x28
  const WRITE10: byte := 0x2A
  const VERIFY10: byte := 0x2F
  const MODE_SENSE10: byte := 0x5A

  datatype Stage = AwaitCbw | DataOut | DataIn | DataInLast | DataInLastStall | AwaitCsw | Error

  /** What the device does on its endpoints, in order. */
  datatype Out = InPacket(data: seq<byte>) | StallIn | StallOut

  /** The command status wrapper before it is sent. */
  datatype Csw = Csw(tag: seq<byte>, residue: u32, status: byte)

  function Le32Bytes(v: u32): (r: seq<byte>)
    ensures |r| == 4
  {
    [v % 0x100, v / 0x100 % 0x100, v / 0x1_0000 % 0x100, v / 0x100_0000]
  }

  function CswBytes(c: Csw): seq<byte> {
    CSW_SIGNATURE + c.tag + Le32Bytes(c.residue) + [c.status]
  }

  // ---- Fields of a command block wrapper

  type wrapper = c: seq<byte> | |c| == CBW_SIZE witness seq(CBW_SIZE, _ => 0)

  function Tag(c: wrapper): (r: seq<byte>)
    ensures |r| == 4
  {
    c[4..8]
  }

  function Number(b3: byte, b2: byte, b1: byte, b0: byte): u32 {
    0x100_0000 * b3 + 0x1_0000 * b2 + 0x100 * b1 + b0
  }

  function DataLength(c: wrapper): u32 {
    Number(c[11], c[10], c[9], c[8])
  }

  function Op(c: wrapper): byte {
    c[15]
  }

  predicate DirectionIn(c: wrapper) {
    c[12] >= 0x80
  }

  function Lba(c: wrapper): u32 {
    Number(c[17], c[18], c[19], c[20])
  }

  function Blocks(c: wrapper): u16 {
    Be16(c[22], c[23])
  }

  predicate Signed(c: wrapper) {
    c[..4] == CBW_SIGNATURE
  }

  predicate Meaningful(c: wrapper) {
    c[13] == 0 && 1 <= c[14] <= 16
  }

  predicate ReadsDisk(c: wrapper) {
    Meaningful(c) && Op(c) == READ10 && DataLength(c) == BLOCK * Blocks(c) && DirectionIn(c)
  }

  predicate WritesDisk(c: wrapper) {
    Meaningful(c) && Op(c) == WRITE10 && DataLength(c) == BLOCK * Blocks(c) && !DirectionIn(c)
  }

  /** A host that keeps to the disk: whole wrappers, reads that start on the disk or at
      its end, writes inside it, no VERIFY10. */
  predicate Conforms(p: seq<byte>) {
    && |p| <= CBW_SIZE
    && (|p| == CBW_SIZE && Signed(p) ==>
          && Op(p) != VERIFY10
          && (Op(p) == READ10 ==> Lba(p) <= BLOCK_COUNT)
          && (Op(p) == WRITE10 ==> 0 < Blocks(p) && Lba(p) + Blocks(p) <= BLOCK_COUNT))
  }

  /** The wrapper a host sends for a transfer of `n` blocks: twelve bytes of transport,
      then direction, unit and length, then the command block. */
  function TransferHead(tag: seq<byte>, length: u32): (r: seq<byte>)
    requires |tag| == 4
    ensures |r| == 12
  {
    CBW_SIGNATURE + tag + Le32Bytes(length)
  }

  function TransferBlock(op: byte, dirIn: bool, lba: u16, n: u16): (r: seq<byte>)
    ensures |r| == 19
  {
    [if dirIn then 0x80 else 0, 0, 10, op, 0, 0, 0, lba / 0x100, lba % 0x100, 0, n / 0x100, n % 0x100, 0, 0, 0, 0,
        0, 0, 0]
  }

  function TransferCbw(op: byte, dirIn: bool, tag: seq<byte>, lba: u16, n: u16): wrapper
    requires |tag| == 4
  {
    TransferHead(tag, BLOCK * n) + TransferBlock(op, dirIn, lba, n)
  }

  lemma Le32Inverse(v: u32)
    ensures var r := Le32Bytes(v); Number(r[3], r[2], r[1], r[0]) == v
  {
    var a, b, c := v / 0x100, v / 0x1_0000, v / 0x100_0000;
    assert v == 0x100 * a + v % 0x100;
    Thirds(v, a, b, c);
  }

  lemma Thirds(v: nat, a: nat, b: nat, c: nat)
    requires a == v / 0x100 && b == v / 0x1_0000 && c == v / 0x100_0000
    ensures a == 0x100 * b + a % 0x100 && b == 0x100 * c + b % 0x100
  {
    assert v / 0x100 / 0x100 == b;
    assert b / 0x100 == c;
  }

  lemma HeadFields(c: wrapper, tag: seq<byte>, length: u32, rest: seq<byte>)
    requires |tag| == 4 && c == TransferHead(tag, length) + rest
    ensures Signed(c) && Tag(c) == tag && DataLength(c) == length
  {
    var h, len := TransferHead(tag, length), Le32Bytes(length);
    assert c[..4] == h[..4] == CBW_SIGNATURE && c[4..8] == h[4..8] == tag;
    assert c[8] == h[8] == len[0] && c[9] == h[9] == len[1] && c[10] == h[10] == len[2] && c[11] == h[11] == len[3];
    Le32Inverse(length);
  }

  lemma BlockFields(c: wrapper, head: seq<byte>, op: byte, dirIn: bool, lba: u16, n: u16)
    requires |head| == 12 && c == head + TransferBlock(op, dirIn, lba, n)
    ensures Meaningful(c) && Op(c) == op && DirectionIn(c) == dirIn && Lba(c) == lba && Blocks(c) == n
  {
    var b := TransferBlock(op, dirIn, lba, n);
    assert c[12] == b[0] && c[13] == b[1] && c[14] == b[2] && c[15] == b[3];
    assert c[17] == b[5] && c[18] == b[6] && c[19] == b[7] && c[20] == b[8] && c[22] == b[10] && c[23] == b[11];
  }

  lemma TransferFields(op: byte, dirIn: bool, tag: seq<byte>, lba: u16, n: u16)
    requires |tag| == 4
    ensures var c := TransferCbw(op, dirIn, tag, lba, n);
            && Signed(c) && Meaningful(c) && Op(c) == op && Tag(c) == tag && DirectionIn(c) == dirIn
            && DataLength(c) == BLOCK * n && Lba(c) == lba && Blocks(c) == n
  {
    var c := TransferCbw(op, dirIn, tag, lba, n);
    HeadFields(c, tag, BLOCK * n, TransferBlock(op, dirIn, lba, n));
    BlockFields(c, TransferHead(tag, BLOCK * n), op, dirIn, lba, n);
  }

  lemma WriteCommand(tag: seq<byte>, lba: u16, n: u16)
    requires |tag| == 4 && 0 < n && lba + n <= BLOCK_COUNT
    ensures var c := TransferCbw(WRITE10, false, tag, lba, n);
            && Conforms(c) && Signed(c) && WritesDisk(c) && Tag(c) == tag && Lba(c) == lba && Blocks(c) == n
  {
    TransferFields(WRITE10, false, tag, lba, n);
  }

  // ---- Information commands: the answer has a fixed content

  function InfoReply(op: byte): (r: seq<byte>)
    ensures |r| <= 36
  {
    if op == REQUEST_SENSE then [0x70, 0, 2, 0, 0, 0, 0, 0x0A, 0, 0, 0, 0, 0x30, 1, 0, 0, 0, 0]
    else if op == INQUIRY then
      [0, 0x80, 0, 1, 32, 0x80, 0, 0, 0x4B, 0x65, 0x69, 0x6C, 0x20, 0x20, 0x20, 0x20,
       0x4C, 0x50, 0x43, 0x31, 0x37, 0x30, 0x30, 0x20, 0x44, 0x69, 0x73, 0x6B, 0x20, 0x20, 0x20, 0x20,
       0x31, 0x2E, 0x30, 0x20]
    else if op == MODE_SENSE6 then [3, 0, 0, 0]
    else if op == MODE_SENSE10 then [0, 6, 0, 0, 0, 0, 0, 0]
    else if op == READ_CAPACITY then
      [0, 0, (BLOCK_COUNT - 1) / 0x100, (BLOCK_COUNT - 1) % 0x100, 0, 0, BLOCK / 0x100, BLOCK % 0x100]
    else if op == READ_FORMAT_CAPACITIES then
      [0, 0, 0, 8, 0, 0, BLOCK_COUNT / 0x100, BLOCK_COUNT % 0x100, 2, 0, BLOCK / 0x100, BLOCK % 0x100]
    else []
  }

  predicate Informs(op: byte) {
    op in [REQUEST_SENSE, INQUIRY, MODE_SENSE6, MODE_SENSE10, READ_CAPACITY, READ_FORMAT_CAPACITIES]
  }

  // ---- Commands that start no transfer of disk data

  /** Such a command ends at once, after some stalls, or is answered by one packet. */
  datatype Outcome = Ends(stalls: seq<Out>, status: byte) | Replies(data: seq<byte>)

  function Immediate(c: wrapper): Outcome {
    if !Meaningful(c) then Ends([], CMD_FAILED)
    else if Op(c) == TEST_UNIT_READY then
      Ends(if DataLength(c) == 0 then [] else if DirectionIn(c) then [StallIn] else [StallOut], CMD_PASSED)
    else if Informs(Op(c)) then
      if DataLength(c) == 0 then Ends([], PHASE_ERROR)
      else if !DirectionIn(c) then Ends([StallOut], PHASE_ERROR)
      else Replies(Cut(InfoReply(Op(c)), DataLength(c)))
    else if Op(c) == READ10 || Op(c) == WRITE10 then
      if DataLength(c) != BLOCK * Blocks(c) then Ends([StallIn, StallOut], PHASE_ERROR)
      else Ends([if Op(c) == READ10 then StallOut else StallIn], PHASE_ERROR)
    else Ends([], CMD_FAILED)
  }

  /** No more than the host wants. */
  function Cut(r: seq<byte>, want: nat): (t: seq<byte>)
    ensures |t| <= want && |t| <= |r|
  {
    if |r| > want then r[..want] else r
  }

  /** The whole answer to such a command: stalls, status and residue, or the packet. */
  predicate Answered(c: wrapper, before: seq<Out>, after: seq<Out>, csw: Csw, stage: Stage) {
    match Immediate(c)
    case Ends(stalls, status) =>
      && stage == AwaitCsw && csw == Csw(Tag(c), DataLength(c), status)
      && after == before + stalls + [InPacket(CswBytes(csw))]
    case Replies(data) =>
      && stage == DataInLast && csw == Csw(Tag(c), DataLength(c) - |data|, CMD_PASSED)
      && after == before + [InPacket(data)]
  }
}
