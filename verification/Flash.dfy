/** The on-chip flash of the boot loader: the sector maps of
    "USB bootloader for LPCmini/iap/sbl_config.h", and what a run of page writes
    leaves behind. */
module Flash {
  import opened Bytes

  const FLASH_SIZE: nat := 0x8_0000
  const PAGE: nat := 256
  const USER_START_SECTOR: nat := 3
  const MAX_USER_SECTOR: nat := 29
  const USER_START: nat := 0x3000
  const USER_SIZE: nat := 0x7_D000

  /** Sectors 0 to 15 have 4 KB, sectors 16 to 29 have 32 KB. */
  type sector = i: nat | i <= MAX_USER_SECTOR

  function SectorStart(i: sector): nat {
    if i < 16 then 0x1000 * i else 0x1_0000 + 0x8000 * (i - 16)
  }

  function SectorEnd(i: sector): nat {
    if i < 16 then 0x1000 * i + 0xFFF else 0x1_0000 + 0x8000 * (i - 16) + 0x7FFF
  }

  type address = a: nat | a < FLASH_SIZE

  function SectorOf(a: address): sector {
    if a < 0x1_0000 then a / 0x1000 else 16 + (a - 0x1_0000) / 0x8000
  }

  /** The sectors partition the flash. */
  lemma SectorHolds(a: address, i: sector)
    ensures SectorOf(a) == i <==> SectorStart(i) <= a <= SectorEnd(i)
  {
  }

  // ---- Contents

  type memory = m: seq<byte> | |m| == FLASH_SIZE witness seq(FLASH_SIZE, _ => 0)
  type page = p: seq<byte> | |p| == PAGE witness seq(PAGE, _ => 0)
  type pageAddress = a: nat | USER_START <= a && a + PAGE <= FLASH_SIZE && a % PAGE == 0 witness USER_START

  function AndBits(a: nat, b: nat, bits: nat): nat {
    if bits == 0 then 0 else (a % 2) * (b % 2) + 2 * AndBits(a / 2, b / 2, bits - 1)
  }

  lemma {:induction false} AndBound(a: nat, b: nat, bits: nat)
    ensures AndBits(a, b, bits) <= b
  {
    if bits > 0 {
      AndBound(a / 2, b / 2, bits - 1);
    }
  }

  /** Programming can only clear bits: it stores the bitwise AND. */
  function And(a: byte, b: byte): byte {
    AndBound(a, b, 8);
    AndBits(a, b, 8)
  }

  function Ones(bits: nat): nat {
    if bits == 0 then 0 else 1 + 2 * Ones(bits - 1)
  }

  lemma {:induction false} AndOnes(b: nat, bits: nat)
    requires b <= Ones(bits)
    ensures AndBits(Ones(bits), b, bits) == b
  {
    if bits > 0 {
      AndOnes(b / 2, bits - 1);
    }
  }

  lemma {:induction false} AndZero(b: nat, bits: nat)
    ensures AndBits(0, b, bits) == 0
  {
    if bits > 0 {
      AndZero(b / 2, bits - 1);
    }
  }

  /** Bit `k`. */
  function BitAt(v: nat, k: nat): nat
    decreases k
  {
    if k == 0 then v % 2 else BitAt(v / 2, k - 1)
  }

  /** Programming clears bits and sets none: a bit is one afterwards exactly if it was one in
      the flash and is one in the data. */
  lemma AndBitwise(a: byte, b: byte, k: nat)
    requires k < 8
    ensures BitAt(And(a, b), k) == 1 <==> BitAt(a, k) == 1 && BitAt(b, k) == 1
  {
    AndBitsAt(a, b, 8, k);
  }

  lemma {:induction false} AndBitsAt(a: nat, b: nat, bits: nat, k: nat)
    requires k < bits
    ensures BitAt(AndBits(a, b, bits), k) == 1 <==> BitAt(a, k) == 1 && BitAt(b, k) == 1
    decreases bits
  {
    var low, rest := (a % 2) * (b % 2), AndBits(a / 2, b / 2, bits - 1);
    Halved(low, rest);
    assert low == if a % 2 == 1 && b % 2 == 1 then 1 else 0;
    if k > 0 {
      AndBitsAt(a / 2, b / 2, bits - 1, k - 1);
    }
  }

  lemma Halved(low: nat, rest: nat)
    requires low < 2
    ensures (low + 2 * rest) % 2 == low && (low + 2 * rest) / 2 == rest
  {
  }

  lemma AndErased(d: byte)
    ensures And(0xFF, d) == d && And(0, d) == 0
  {
    assert Ones(8) == 1 + 2 * Ones(7) && Ones(7) == 1 + 2 * Ones(6) && Ones(6) == 1 + 2 * Ones(5)
        && Ones(5) == 1 + 2 * Ones(4) && Ones(4) == 1 + 2 * Ones(3) && Ones(3) == 7;
    AndOnes(d, 8);
    AndZero(d, 8);
  }

  function EraseSectors(m: memory, first: sector, last: sector): memory {
    seq(FLASH_SIZE, i requires 0 <= i < FLASH_SIZE =>
      if first <= SectorOf(i) <= last then 0xFF else m[i])
  }

  function Program(m: memory, a: pageAddress, p: page): memory {
    seq(FLASH_SIZE, i requires 0 <= i < FLASH_SIZE => if a <= i < a + PAGE then And(m[i], p[i - a]) else m[i])
  }

  /** The page at the start of a sector erases the sector first. */
  predicate Erases(a: pageAddress) {
    SectorStart(SectorOf(a)) == a
  }

  function WritePage(m: memory, a: pageAddress, p: page): memory {
    Program(if Erases(a) then EraseSectors(m, SectorOf(a), SectorOf(a)) else m, a, p)
  }

  /** What reaches the flash: full pages, and the erasure of all user sectors. */
  datatype FlashOp = Page(at: pageAddress, data: page) | EraseUser

  function Apply(m: memory, op: FlashOp): memory {
    match op
    case Page(a, p) => WritePage(m, a, p)
    case EraseUser => EraseSectors(m, USER_START_SECTOR, MAX_USER_SECTOR)
  }

  function ApplyAll(m: memory, ops: seq<FlashOp>): memory {
    if ops == [] then m else Apply(ApplyAll(m, ops[..|ops| - 1]), ops[|ops| - 1])
  }

  lemma {:induction false} ApplyConcat(m: memory, a: seq<FlashOp>, b: seq<FlashOp>)
    ensures ApplyAll(m, a + b) == ApplyAll(ApplyAll(m, a), b)
  {
    if b == [] {
      assert a + b == a;
    } else {
      assert (a + b)[..|a + b| - 1] == a + b[..|b| - 1];
      ApplyConcat(m, a, b[..|b| - 1]);
    }
  }

  /** The boot loader's own sectors are out of reach of every sequence of writes. */
  lemma {:induction false} LoaderUntouched(m: memory, ops: seq<FlashOp>, x: address)
    requires x < USER_START
    ensures ApplyAll(m, ops)[x] == m[x]
  {
    if ops != [] {
      LoaderUntouched(m, ops[..|ops| - 1], x);
      SectorHolds(x, SectorOf(x));
    }
  }

  // ---- When the flash behaves as a disk

  /** What is known of one byte after some operations, whatever it held before and
      whatever was written: blank, a known datum, or neither. */
  datatype Cell = Unknown | Blank | Holds(d: byte)

  function CellAfter(c: Cell, op: FlashOp, x: address): Cell {
    match op
    case EraseUser => if SectorOf(x) >= USER_START_SECTOR then Blank else c
    case Page(a, p) =>
      var here := a <= x < a + PAGE;
      var erased := Erases(a) && SectorOf(a) == SectorOf(x);
      if here && (erased || c.Blank?) then Holds(p[x - a])
      else if here then Unknown
      else if erased then Blank
      else c
  }

  function CellOf(ops: seq<FlashOp>, x: address): Cell {
    if ops == [] then Unknown else CellAfter(CellOf(ops[..|ops| - 1], x), ops[|ops| - 1], x)
  }

  predicate Knows(c: Cell, v: byte) {
    match c
    case Unknown => true
    case Blank => v == 0xFF
    case Holds(d) => v == d
  }

  /** The abstraction is sound for every initial content and every data. */
  lemma {:induction false} CellSound(m: memory, ops: seq<FlashOp>, x: address)
    ensures Knows(CellOf(ops, x), ApplyAll(m, ops)[x])
  {
    if ops != [] {
      var front, op := ops[..|ops| - 1], ops[|ops| - 1];
      CellSound(m, front, x);
      CellStep(ApplyAll(m, front), op, CellOf(front, x), x);
    }
  }

  lemma CellStep(m: memory, op: FlashOp, c: Cell, x: address)
    requires Knows(c, m[x])
    ensures Knows(CellAfter(c, op, x), Apply(m, op)[x])
  {
    if op.Page? && op.at <= x < op.at + PAGE {
      AndErased(op.data[x - op.at]);
    }
  }

  // ---- One ascending pass

  /** `data` cut into page writes from address `a` on. */
  function PageOps(a: nat, data: seq<byte>): seq<FlashOp>
    requires USER_START <= a && a % PAGE == 0 && |data| % PAGE == 0 && a + |data| <= FLASH_SIZE
  {
    if data == [] then []
    else
      var n := |data| - PAGE;
      PageOps(a, data[..n]) + [Page(a + n, data[n..])]
  }

  lemma {:induction false} PageOpsConcat(a: nat, d: seq<byte>, e: seq<byte>)
    requires USER_START <= a && a % PAGE == 0 && |d| % PAGE == 0 && |e| % PAGE == 0 && a + |d| + |e| <= FLASH_SIZE
    ensures PageOps(a, d + e) == PageOps(a, d) + PageOps(a + |d|, e)
    decreases |e|
  {
    if e == [] {
      assert d + e == d;
    } else {
      PageLess(|e|);
      PageSum(|d|, |e|);
      var n := |e| - PAGE;
      Snoc(d, e, n);
      PageOpsConcat(a, d, e[..n]);
    }
  }

  lemma PageLess(n: nat)
    requires n > 0 && n % PAGE == 0
    ensures n >= PAGE && (n - PAGE) % PAGE == 0
  {
  }

  lemma PageSum(n: nat, k: nat)
    requires n % PAGE == 0 && k % PAGE == 0
    ensures (n + k) % PAGE == 0
  {
  }

  lemma Snoc(d: seq<byte>, e: seq<byte>, n: nat)
    requires n <= |e|
    ensures (d + e)[..|d| + n] == d + e[..n] && (d + e)[|d| + n..] == e[n..]
  {
  }

  lemma SectorStarts(x: address, a: pageAddress)
    ensures Erases(a) && SectorOf(a) == SectorOf(x) <==> a == SectorStart(SectorOf(x))
    ensures SectorStart(SectorOf(x)) <= x && SectorStart(SectorOf(x)) % PAGE == 0
  {
    SectorHolds(x, SectorOf(x));
    SectorHolds(a, SectorOf(x));
  }

  /** What the pages of `data` from the first user sector on leave at `x`: the bytes
      passed hold their data, the rest of the sector reached is blank. */
  function Passed(data: seq<byte>, x: address): Cell
    requires x >= USER_START
  {
    if x < USER_START + |data| then Holds(data[x - USER_START])
    else if SectorStart(SectorOf(x)) < USER_START + |data| then Blank
    else Unknown
  }

  lemma PassedStep(data: seq<byte>, x: address)
    requires |data| % PAGE == 0 && USER_START + |data| <= FLASH_SIZE && x >= USER_START && data != []
    ensures var n := |data| - PAGE;
            CellAfter(Passed(data[..n], x), Page(USER_START + n, data[n..]), x) == Passed(data, x)
  {
    PageLess(|data|);
    var n := |data| - PAGE;
    var a, start := USER_START + n, SectorStart(SectorOf(x));
    SectorStarts(x, a);
    PageOrder(start, a);
    if x < a {
      assert data[..n][x - USER_START] == data[x - USER_START];
    } else if x < a + PAGE {
      assert start <= a && data[n..][x - a] == data[x - USER_START];
    }
  }

  lemma PageOrder(x: nat, y: nat)
    requires x % PAGE == 0 && y % PAGE == 0
    ensures x < y + PAGE <==> x <= y
  {
  }

  lemma {:induction false} CellOfPass(data: seq<byte>, x: address)
    requires |data| % PAGE == 0 && USER_START + |data| <= FLASH_SIZE && x >= USER_START
    ensures CellOf(PageOps(USER_START, data), x) == Passed(data, x)
    decreases |data|
  {
    if data == [] {
      assert SectorStart(SectorOf(x)) >= USER_START;
    } else {
      var n := |data| - PAGE;
      CellOfPass(data[..n], x);
      PassedStep(data, x);
      var ops := PageOps(USER_START, data[..n]);
      assert PageOps(USER_START, data)[..|ops|] == ops;
    }
  }

  /** An image of the size of the user flash, written in one ascending pass, is what
      the flash holds in the end, whatever it held before. */
  lemma ImageWritten(m: memory, image: seq<byte>)
    requires |image| == USER_SIZE
    ensures ApplyAll(m, PageOps(USER_START, image)) == m[..USER_START] + image
  {
    var r := ApplyAll(m, PageOps(USER_START, image));
    forall x: address
      ensures r[x] == (m[..USER_START] + image)[x]
    {
      if x < USER_START {
        LoaderUntouched(m, PageOps(USER_START, image), x);
      } else {
        CellOfPass(image, x);
        CellSound(m, PageOps(USER_START, image), x);
      }
    }
  }
}
