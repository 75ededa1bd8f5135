/** The text form of CAN messages in Equinox/libraries/CANlib/canlib.c: the printer, the
    parser of the 't' command, and their round trips. */
module CanText {
  import opened Bytes
  import opened Digits

  const CR: byte := 0x0D
  const LF: byte := 0x0A
  const ERROR: byte := 0x65

  const SEND_11BIT: byte := 0x74
  const SEND_R11BIT: byte := 0x72
  const SEND_29BIT: byte := 0x54
  const SEND_R29BIT: byte := 0x52

  /** A message as a value; only the bytes its length counts are part of it. */
  datatype Frame = Frame(id: u32, extended: bool, remote: bool, data: seq<byte>)

  /** Identifiers the printer keeps quiet about. */
  predicate Muted(id: u32) {
    id in [0x521, 0x0A9, 0x4A9, 0x3CF, 0x3DF, 0x1C1, 0x5C1, 0x1B1, 0x5B1]
  }

  // ---- printing

  function Tag(extended: bool, remote: bool): byte {
    if extended then if remote then SEND_R29BIT else SEND_29BIT
    else if remote then SEND_R11BIT else SEND_11BIT
  }

  /** `%03x` and `%02x`. */
  function Hex(v: nat, width: nat): seq<byte> {
    Padded(Canonical(v, 16), width, ZERO)
  }

  function HexBytes(data: seq<byte>): seq<byte> {
    if data == [] then [] else Hex(data[0], 2) + HexBytes(data[1..])
  }

  /** The line of a message, without its end. */
  function Line(f: Frame): seq<byte>
    requires |f.data| <= 8
  {
    [Tag(f.extended, f.remote)] + Hex(f.id, 3) + [ZERO + |f.data|] + (if f.remote then [] else HexBytes(f.data))
  }

  /** The letter tells the kind: small for 11-bit identifiers, r for remote frames. */
  lemma KindLetters(f: Frame)
    requires |f.data| <= 8
    ensures var c := Line(f)[0];
            && c in ['t' as int, 'T' as int, 'r' as int, 'R' as int]
            && (c == 't' as int || c == 'T' as int <==> !f.remote)
            && (c == 't' as int || c == 'r' as int <==> !f.extended)
  {
  }

  /** Identifier 0x123 with the bytes 0xAB and 0x07 is "t1232AB07". */
  lemma LineExample()
    ensures Line(Frame(0x123, false, false, [0xAB, 0x07])) == [0x74, 0x31, 0x32, 0x33, 0x32, 0x41, 0x42, 0x30, 0x37]
  {
    ThreeDigits(0x123);
    TwoDigits(0xAB);
    TwoDigits(0x07);
    assert HexBytes([0x07]) == Hex(0x07, 2) + [] == [0x30, 0x37];
    assert HexBytes([0xAB, 0x07]) == Hex(0xAB, 2) + HexBytes([0x07]);
  }

  lemma {:induction false} HexBytesSnoc(data: seq<byte>, b: byte)
    ensures HexBytes(data + [b]) == HexBytes(data) + Hex(b, 2)
  {
    if data == [] {
      assert data + [b] == [b] && HexBytes([b]) == Hex(b, 2) + [];
    } else {
      assert (data + [b])[1..] == data[1..] + [b];
      HexBytesSnoc(data[1..], b);
      Regroup(Hex(data[0], 2), HexBytes(data[1..]), Hex(b, 2));
    }
  }

  // ---- parsing

  predicate IsHex(c: byte) {
    0x30 <= c <= 0x39 || 0x41 <= c <= 0x46 || 0x61 <= c <= 0x66
  }

  /** `ascii2byte`, in the 8-bit arithmetic of the source. */
  function Nibble(c: byte): (d: byte)
    ensures d < 16
  {
    var low := if c > 0x60 then c - 0x27 else if c > 0x40 then c - 0x07 else c;
    (low - 0x30) % 256 % 16
  }

  function Upper(c: byte): byte {
    if c >= 0x61 then c - 0x20 else c
  }

  /** The nibble is the inverse of the printer's digit, up to case. */
  lemma NibbleDigit(c: byte)
    requires IsHex(c)
    ensures DigitChar(Nibble(c)) == Upper(c)
  {
  }

  lemma DigitNibble(d: nat)
    requires d < 16
    ensures IsHex(DigitChar(d)) && Nibble(DigitChar(d)) == d && Upper(DigitChar(d)) == DigitChar(d)
  {
  }

  function Pair(hi: byte, lo: byte): (b: byte)
  {
    (16 * (Nibble(hi) as int) + Nibble(lo)) % 256
  }

  function Pairs(s: seq<byte>, n: nat): (data: seq<byte>)
    requires 2 * n <= |s|
    ensures |data| == n
  {
    if n == 0 then [] else [Pair(s[0], s[1])] + Pairs(s[2..], n - 1)
  }

  predicate AllHex(s: seq<byte>) {
    forall i :: 0 <= i < |s| ==> IsHex(s[i])
  }

  /** The three digits of the identifier. */
  function IdOf(cmd: seq<byte>): u32
    requires |cmd| >= 4
  {
    256 * (Nibble(cmd[1]) as int) + 16 * (Nibble(cmd[2]) as int) + Nibble(cmd[3])
  }

  predicate Shaped(cmd: seq<byte>) {
    |cmd| >= 5 && AllHex(cmd[1..]) && 5 <= |cmd| % 256 <= 21
  }

  /** A 't' command the parser takes: hexadecimal throughout, 5 to 21 characters counted in
      eight bits, a length digit that agrees with the count. */
  predicate Takes(cmd: seq<byte>) {
    Shaped(cmd) && Nibble(cmd[4]) as int == (|cmd| % 256 - 5) / 2
  }

  function FrameOf(cmd: seq<byte>): Frame
    requires Takes(cmd)
  {
    Frame(IdOf(cmd), false, false, Pairs(cmd[5..], Nibble(cmd[4])))
  }

  // ---- the round trips

  lemma TwoDigits(v: byte)
    ensures Hex(v, 2) == [DigitChar(v / 16), DigitChar(v % 16)]
  {
    if v >= 16 {
      assert Canonical(v / 16, 16) == [DigitChar(v / 16)];
    } else {
      assert Repeat(ZERO, 1) == [ZERO];
    }
  }

  lemma ThreeDigits(id: nat)
    requires id < 0x1000
    ensures Hex(id, 3) == [DigitChar(id / 256), DigitChar(id / 16 % 16), DigitChar(id % 16)]
  {
    if id < 16 {
      assert Repeat(ZERO, 2) == [ZERO] + Repeat(ZERO, 1) && Repeat(ZERO, 1) == [ZERO];
    } else if id < 256 {
      assert Canonical(id, 16) == Canonical(id / 16, 16) + [DigitChar(id % 16)];
      assert Canonical(id / 16, 16) == [DigitChar(id / 16)];
      assert Repeat(ZERO, 1) == [ZERO];
    } else {
      assert Canonical(id, 16) == Canonical(id / 16, 16) + [DigitChar(id % 16)];
      assert Canonical(id / 16, 16) == Canonical(id / 16 / 16, 16) + [DigitChar(id / 16 % 16)];
      assert id / 16 / 16 == id / 256;
    }
  }

  lemma {:induction false} HexBytesReadBack(data: seq<byte>)
    ensures |HexBytes(data)| == 2 * |data| && AllHex(HexBytes(data))
    ensures Pairs(HexBytes(data), |data|) == data
  {
    if data != [] {
      HexBytesReadBack(data[1..]);
      ByteReadsBack(data[0]);
      PairFirst(Hex(data[0], 2), HexBytes(data[1..]), data);
    }
  }

  lemma ByteReadsBack(b: byte)
    ensures var t := Hex(b, 2); |t| == 2 && AllHex(t) && Pair(t[0], t[1]) == b
  {
    var hi, lo := b / 16, b % 16;
    assert b == 16 * hi + lo && hi < 16;
    TwoDigits(b);
    DigitNibble(hi);
    DigitNibble(lo);
  }

  lemma PairFirst(t: seq<byte>, rest: seq<byte>, data: seq<byte>)
    requires |t| == 2 && AllHex(t) && |data| > 0 && Pair(t[0], t[1]) == data[0]
    requires AllHex(rest) && |rest| == 2 * |data[1..]| && Pairs(rest, |data[1..]|) == data[1..]
    ensures AllHex(t + rest) && Pairs(t + rest, |data|) == data
  {
    assert (t + rest)[2..] == rest && (t + rest)[0] == t[0] && (t + rest)[1] == t[1];
  }

  /** The four digits between the tag and the data. */
  function HeadOf(id: nat, n: nat): (head: seq<byte>)
    requires id < 0x1000 && n < 16
  {
    [DigitChar(id / 256), DigitChar(id / 16 % 16), DigitChar(id % 16), DigitChar(n)]
  }

  lemma HeadReads(id: nat, n: nat)
    requires id < 0x1000 && n < 16
    ensures AllHex(HeadOf(id, n))
    ensures var h := HeadOf(id, n); Nibble(h[0]) as int == id / 256 && Nibble(h[1]) as int == id / 16 % 16
                                    && Nibble(h[2]) as int == id % 16 && Nibble(h[3]) as int == n
  {
    DigitNibble(id / 256);
    DigitNibble(id / 16 % 16);
    DigitNibble(id % 16);
    DigitNibble(n);
  }

  /** Where the parts of a data line are. */
  lemma LineParts(f: Frame)
    requires f.id < 0x1000 && !f.extended && !f.remote && |f.data| <= 8
    ensures Line(f) == [SEND_11BIT] + HeadOf(f.id, |f.data|) + HexBytes(f.data)
  {
    ThreeDigits(f.id);
    assert DigitChar(|f.data|) == ZERO + |f.data|;
  }

  /** Printed text is a command the parser takes, and it takes it as the same message. */
  lemma LineReadsBack(f: Frame)
    requires f.id < 0x800 && !f.extended && !f.remote && |f.data| <= 8
    ensures Takes(Line(f)) && FrameOf(Line(f)) == f && Line(f)[0] == SEND_11BIT
  {
    LineParts(f);
    HexBytesReadBack(f.data);
    ReadsAs(Line(f), f.id, f.data, HexBytes(f.data));
  }

  lemma ReadsAs(line: seq<byte>, id: nat, data: seq<byte>, text: seq<byte>)
    requires id < 0x800 && |data| <= 8 && line == [SEND_11BIT] + HeadOf(id, |data|) + text
    requires |text| == 2 * |data| && AllHex(text) && Pairs(text, |data|) == data
    ensures Takes(line) && FrameOf(line) == Frame(id, false, false, data)
  {
    HeadReads(id, |data|);
    IdRebuilt(id, id / 256, id / 16 % 16, id % 16);
    HeadTaken(line, HeadOf(id, |data|), id, data, text);
  }

  lemma HeadTaken(line: seq<byte>, head: seq<byte>, id: nat, data: seq<byte>, text: seq<byte>)
    requires |head| == 4 && AllHex(head) && line == [SEND_11BIT] + head + text && |data| <= 8
    requires |text| == 2 * |data| && AllHex(text) && Pairs(text, |data|) == data
    requires id == 256 * (Nibble(head[0]) as int) + 16 * (Nibble(head[1]) as int) + Nibble(head[2])
    requires Nibble(head[3]) as int == |data|
    ensures Takes(line) && FrameOf(line) == Frame(id, false, false, data)
  {
    LineSplits(line, head, text);
    assert |line| == 5 + 2 * |data|;
    SizeFits(|line|, |data|);
  }

  lemma SizeFits(size: nat, n: nat)
    requires size == 5 + 2 * n && n <= 8
    ensures size % 256 == size && (size % 256 - 5) / 2 == n
  {
  }

  lemma IdRebuilt(id: nat, a: nat, b: nat, c: nat)
    requires a == id / 256 && b == id / 16 % 16 && c == id % 16
    ensures id == 256 * a + 16 * b + c
  {
    assert id / 16 / 16 == id / 256;
  }

  lemma LineSplits(line: seq<byte>, head: seq<byte>, text: seq<byte>)
    requires line == [SEND_11BIT] + head + text && |head| == 4 && AllHex(head) && AllHex(text)
    ensures line[1..] == head + text && line[5..] == text && AllHex(line[1..])
    ensures line[1] == head[0] && line[2] == head[1] && line[3] == head[2] && line[4] == head[3]
  {
  }

  function UpperAll(s: seq<byte>): (u: seq<byte>)
    ensures |u| == |s|
  {
    seq(|s|, i requires 0 <= i < |s| => Upper(s[i]))
  }

  lemma {:induction false} PairsPrintBack(s: seq<byte>, n: nat)
    requires 2 * n == |s| && AllHex(s)
    ensures HexBytes(Pairs(s, n)) == UpperAll(s)
  {
    if n > 0 {
      PairPrintsBack(s[0], s[1]);
      PairsPrintBack(s[2..], n - 1);
      assert Pairs(s, n)[1..] == Pairs(s[2..], n - 1);
      TwoUppers(s);
    }
  }

  lemma PairPrintsBack(hi: byte, lo: byte)
    requires IsHex(hi) && IsHex(lo)
    ensures Hex(Pair(hi, lo), 2) == [Upper(hi), Upper(lo)]
  {
    var a, b := Nibble(hi), Nibble(lo);
    TwoDigits(Pair(hi, lo));
    PairSplits(Pair(hi, lo), a, b);
    NibbleDigit(hi);
    NibbleDigit(lo);
  }

  lemma PairSplits(v: nat, a: nat, b: nat)
    requires v == 16 * a + b && a < 16 && b < 16
    ensures v / 16 == a && v % 16 == b
  {
  }

  lemma TwoUppers(s: seq<byte>)
    requires |s| >= 2
    ensures UpperAll(s) == [Upper(s[0]), Upper(s[1])] + UpperAll(s[2..])
  {
  }

  /** The other way round: a command of a full number of bytes that the parser takes is
      what its message prints as, up to the case of its digits. */
  lemma CommandPrintsBack(cmd: seq<byte>)
    requires Takes(cmd) && cmd[0] == SEND_11BIT && |cmd| < 256 && |cmd| % 2 == 1
    ensures |FrameOf(cmd).data| <= 8 && Line(FrameOf(cmd)) == [SEND_11BIT] + UpperAll(cmd[1..])
  {
    var f, t := FrameOf(cmd), cmd[1..];
    assert t[4..] == cmd[5..] && t[0] == cmd[1] && t[1] == cmd[2] && t[2] == cmd[3] && t[3] == cmd[4];
    Counted(|cmd|, |f.data|);
    PairsPrintBack(t[4..], |f.data|);
    LineParts(f);
    IdDigits(f.id, Nibble(t[0]), Nibble(t[1]), Nibble(t[2]));
    HeadPrintsBack(t, f.id, |f.data|);
  }

  lemma Counted(size: nat, n: nat)
    requires 5 <= size < 256 && size % 2 == 1 && n == (size % 256 - 5) / 2
    ensures 2 * n + 5 == size
  {
  }

  lemma HeadPrintsBack(t: seq<byte>, id: nat, n: nat)
    requires |t| >= 4 && AllHex(t) && id < 0x1000 && n < 16
    requires id / 256 == Nibble(t[0]) && id / 16 % 16 == Nibble(t[1]) && id % 16 == Nibble(t[2]) && n == Nibble(t[3])
    ensures UpperAll(t) == HeadOf(id, n) + UpperAll(t[4..])
  {
    NibbleDigit(t[0]);
    NibbleDigit(t[1]);
    NibbleDigit(t[2]);
    NibbleDigit(t[3]);
  }

  lemma IdDigits(id: nat, a: nat, b: nat, c: nat)
    requires a < 16 && b < 16 && c < 16 && id == 256 * a + 16 * b + c
    ensures id / 256 == a && id / 16 % 16 == b && id % 16 == c
  {
    assert id == 16 * (16 * a + b) + c && id == 256 * a + (16 * b + c);
    assert id / 16 == 16 * a + b && id / 256 == a;
  }

  // ---- the methods

  method PrintHex(v: nat, width: nat) returns (text: seq<byte>)
    requires v < 0x8000_0000 && width <= 20
    ensures text == Hex(v, width)
  {
    text := Xitoa(v, 16, 0 - width as int);
  }

  /** `CAN_MSG_Type`. */
  class CanMsg {
    var id: u32
    var extended: bool
    var remote: bool
    var len: byte
    const dataA: array<byte>
    const dataB: array<byte>

    ghost predicate Valid()
      reads this
    {
      dataA.Length == 4 && dataB.Length == 4 && dataA != dataB
    }

    function All(): (d: seq<byte>)
      requires Valid()
      reads this, dataA, dataB
      ensures |d| == 8
    {
      dataA[..] + dataB[..]
    }

    function Data(): (d: seq<byte>)
      requires Valid() && len <= 8
      reads this, dataA, dataB
      ensures |d| == len as int
    {
      All()[..len]
    }

    function Value(): Frame
      requires Valid() && len <= 8
      reads this, dataA, dataB
    {
      Frame(id, extended, remote, Data())
    }

    constructor ()
      ensures Valid() && fresh(dataA) && fresh(dataB)
    {
      id, extended, remote, len := 0, false, false, 0;
      dataA := new byte[4](_ => 0);
      dataB := new byte[4](_ => 0);
    }

    /** `PrintMessage` with the time stamp off; the line end is printed as CR CR LF since
        `xputc` puts a CR in front of every LF. */
    method PrintMessage() returns (out: seq<byte>)
      requires Valid() && len <= 8 && id < 0x2000_0000
      ensures out == if Muted(id) then [] else Line(Value()) + [CR, CR, LF]
    {
      if Muted(id) {
        return [];
      }
      out := PrintLine();
      out := out + [CR, CR, LF];
    }

    method PrintLine() returns (out: seq<byte>)
      requires Valid() && len <= 8 && id < 0x2000_0000
      ensures out == Line(Value())
    {
      var idText := PrintHex(id, 3);
      var body := [];
      if !remote {
        body := PrintData();
      }
      out := [Tag(extended, remote)] + idText + [len + ZERO] + body;
    }

    method PrintData() returns (out: seq<byte>)
      requires Valid() && len <= 8
      ensures out == HexBytes(Data())
    {
      var i := 0;
      out := [];
      while i < len
        invariant 0 <= i <= len && out == HexBytes(All()[..i])
      {
        out := PrintByte(i, out);
        i := i + 1;
      }
    }

    method PrintByte(i: nat, out0: seq<byte>) returns (out: seq<byte>)
      requires Valid() && i < 8 && out0 == HexBytes(All()[..i])
      ensures out == HexBytes(All()[..i + 1])
    {
      var b := if i < 4 then dataA[i] else dataB[i - 4];
      assert All()[..i + 1] == All()[..i] + [b];
      HexBytesSnoc(All()[..i], b);
      var text := PrintHex(b, 2);
      out := out0 + text;
    }
  }

  lemma {:induction false} PairsSnoc(s: seq<byte>, n: nat)
    requires 2 * n + 2 <= |s|
    ensures Pairs(s, n + 1) == Pairs(s, n) + [Pair(s[2 * n], s[2 * n + 1])]
  {
    var t, first, last := s[2..], [Pair(s[0], s[1])], [Pair(s[2 * n], s[2 * n + 1])];
    if n == 0 {
      assert Pairs(s, 1) == first + Pairs(t, 0) && first == last;
    } else {
      var m := n - 1;
      PairsSnoc(t, m);
      assert t[2 * m] == s[2 * n] && t[2 * m + 1] == s[2 * n + 1];
      assert Pairs(s, n + 1) == first + Pairs(t, n) && Pairs(s, n) == first + Pairs(t, m);
      Regroup(first, Pairs(t, m), last);
    }
  }

  method CheckHex(cmd: seq<byte>) returns (ok: bool)
    requires |cmd| > 0
    ensures ok == AllHex(cmd[1..])
  {
    var i := 1;
    while i < |cmd|
      invariant 1 <= i <= |cmd| && AllHex(cmd[1..i])
    {
      if !IsHex(cmd[i]) {
        assert cmd[1..][i - 1] == cmd[i];
        return false;
      }
      assert cmd[1..i + 1] == cmd[1..i] + [cmd[i]];
      i := i + 1;
    }
    assert cmd[1..i] == cmd[1..];
    ok := true;
  }

  /** The data loop: four bytes into `dataA`, the others into `dataB`. */
  method StoreData(m: CanMsg, cmd: seq<byte>)
    requires m.Valid() && m.len <= 8 && |cmd| >= 5 + 2 * (m.len as int)
    modifies m.dataA, m.dataB
    ensures m.Data() == Pairs(cmd[5..], m.len)
    ensures m.All()[m.len..] == old(m.All()[m.len..])
  {
    var n: nat := 0;
    ghost var s, before, size := cmd[5..], m.All(), m.len as int;
    while n < m.len
      invariant n <= size && m.All() == Pairs(s, n) + before[n..]
    {
      StoreNext(m, cmd, s, before, n);
      n := n + 1;
    }
  }

  method StoreNext(m: CanMsg, cmd: seq<byte>, ghost s: seq<byte>, ghost before: seq<byte>, n: nat)
    requires m.Valid() && n < 8 && |cmd| >= 7 + 2 * n && s == cmd[5..] && |before| == 8
    requires m.All() == Pairs(s, n) + before[n..]
    modifies m.dataA, m.dataB
    ensures m.All() == Pairs(s, n + 1) + before[n + 1..]
  {
    PairsSnoc(s, n);
    var b := Pair(cmd[5 + 2 * n], cmd[6 + 2 * n]);
    StoreByte(m, n, b);
    NextByte(Pairs(s, n), before[n..], b);
  }

  lemma NextByte(a: seq<byte>, rest: seq<byte>, b: byte)
    requires |rest| > 0
    ensures (a + rest)[|a| := b] == a + [b] + rest[1..]
  {
  }

  method StoreByte(m: CanMsg, n: nat, b: byte)
    requires m.Valid() && n < 8
    modifies m.dataA, m.dataB
    ensures m.All() == old(m.All())[n := b]
  {
    if n < 4 {
      m.dataA[n] := b;
    } else {
      m.dataB[n - 4] := b;
    }
  }

  /** The 't' case of `exec_usart_cmd`; the bus state and the driver's answer come from
      outside. A length over eight cannot agree with the count. A refused command can still
      have overwritten the identifier and the length. */
  method ExecSend(m: CanMsg, cmd: seq<byte>, busOn: bool, idle: bool, sends: bool) returns (r: byte)
    requires m.Valid() && |cmd| > 0 && cmd[0] == SEND_11BIT
    modifies m, m.dataA, m.dataB
    ensures m.Valid()
    ensures r == if busOn && idle && Takes(cmd) && sends then CR else ERROR
    ensures busOn && idle && Takes(cmd) ==> m.len <= 8 && m.Value() == FrameOf(cmd)
    ensures busOn && idle && Takes(cmd) ==> m.All()[m.len..] == old(m.All())[m.len..]
    ensures busOn && idle && Shaped(cmd) ==> m.id == IdOf(cmd) && m.len == Nibble(cmd[4]) && !m.extended && !m.remote
    ensures !(busOn && idle && Shaped(cmd)) ==>
              && m.id == old(m.id) && m.len == old(m.len)
              && m.extended == old(m.extended) && m.remote == old(m.remote)
    ensures !busOn || !idle || !Takes(cmd) ==> m.dataA[..] == old(m.dataA[..]) && m.dataB[..] == old(m.dataB[..])
  {
    r := ERROR;
    var count: byte := |cmd| % 256;
    var hex := CheckHex(cmd);
    if !hex || !busOn || !idle || count < 5 || count > 21 {
      return;
    }
    assert |cmd| >= 5;
    m.remote, m.extended := false, false;
    m.id := IdOf(cmd);
    m.len := Nibble(cmd[4]);
    if m.len as int != (count - 5) / 2 {
      return;
    }
    StoreData(m, cmd);
    r := if sends then CR else ERROR;
  }

  /** "t1235" is refused, since no data follow, but has the shape that overwrites the
      identifier with 0x123 and the length with 5. */
  lemma RefusedCommand()
    ensures var cmd := [SEND_11BIT, 0x31, 0x32, 0x33, 0x35];
            Shaped(cmd) && !Takes(cmd) && IdOf(cmd) == 0x123 && Nibble(cmd[4]) == 5
  {
    var cmd: seq<byte> := [SEND_11BIT, 0x31, 0x32, 0x33, 0x35];
    assert cmd[1..] == [0x31, 0x32, 0x33, 0x35];
  }

  /** A message printed by one station and parsed by another arrives. */
  method Relay(m: CanMsg, other: CanMsg, sends: bool) returns (r: byte)
    requires m.Valid() && m.len <= 8 && other.Valid() && m != other
    requires {other.dataA, other.dataB} !! {m.dataA, m.dataB}
    requires m.id < 0x800 && !m.extended && !m.remote && !Muted(m.id)
    modifies other, other.dataA, other.dataB
    ensures other.Valid() && other.len <= 8 && other.Value() == m.Value() == old(m.Value())
    ensures r == if sends then CR else ERROR
  {
    var line := m.PrintMessage();
    LineReadsBack(m.Value());
    r := ExecSend(other, line[..|line| - 3], true, true, sends);
  }
}
