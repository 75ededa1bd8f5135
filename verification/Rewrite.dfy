/** The in-place identification rewrite of `write_to_serial` in
    contiki-2.5/tools/tunslip.c: an incremental checksum update (section 2 of
    RFC 1624) done with the words in host order. */
module Rewrite {
  import opened Bytes
  import opened Checksum
  import opened CheckIp

  /** `ip_id == 0 && ip_off & IP_DF`. Both fields are loaded in host order, so on
      a little-endian host the mask 0x4000 meets bit 6 of byte 7. */
  predicate NeedsId(host: ByteOrder, b: seq<byte>)
    requires |b| >= 28
  {
    Load16(host, b[4], b[5]) == 0 && Load16(host, b[6], b[7]) / 0x4000 % 2 == 1
  }

  /** The don't-fragment flag of section 3.1 of RFC 791: bit 6 of byte 6. */
  predicate DontFragment(b: seq<byte>)
    requires |b| >= 28
  {
    b[6] / 0x40 % 2 == 1
  }

  /** The test means "identification zero and don't fragment" exactly on a big-endian
      host, for a packet that has an identification, or where bit 6 of the second byte
      of the fragment field, a bit of the offset, happens to be the flag. */
  lemma NeedsIdMeans(host: ByteOrder, b: seq<byte>)
    requires |b| >= 28
    ensures (NeedsId(host, b) <==> b[4] == 0 && b[5] == 0 && DontFragment(b)) <==>
            host.BigEndian? || b[4] != 0 || b[5] != 0 || (b[6] / 0x40 % 2 == b[7] / 0x40 % 2)
  {
    TopBit(b[6], b[7]);
    TopBit(b[7], b[6]);
  }

  lemma TopBit(hi: byte, lo: byte)
    ensures Be16(hi, lo) / 0x4000 % 2 == hi / 0x40 % 2
  {
    assert Be16(hi, lo) / 0x4000 == hi / 0x40;
  }

  /** A fragment without the flag, at offset 64 units: renumbered by a little-endian
      host, left alone by a big-endian one. */
  lemma FragmentRenumbered(b: seq<byte>)
    requires |b| >= 28 && b[4] == 0 && b[5] == 0 && b[6] == 0 && b[7] == 0x40
    ensures !DontFragment(b) && NeedsId(LittleEndian, b) && !NeedsId(BigEndian, b)
  {
  }

  /** The new `ip_sum`: the old one plus the complement of `nid`, end-around carry. */
  function NewSum(host: ByteOrder, b: seq<byte>, nid: u16): u16
    requires |b| >= 28
  {
    AddOnes(Load16(host, b[10], b[11]), 0xffff - nid)
  }

  /** The packet with identification `nid` (host order) and its adjusted checksum. */
  function Rewritten(host: ByteOrder, b: seq<byte>, nid: u16): (r: seq<byte>)
    requires |b| >= 28
    ensures |r| == |b|
    ensures forall i {:trigger r[i]} :: 0 <= i < |b| && i !in {4, 5, 10, 11} ==> r[i] == b[i]
  {
    var sum := NewSum(host, b, nid);
    PutWord(PutWord(b, 4, First(host, nid), Second(host, nid)), 10, First(host, sum), Second(host, sum))
  }

  /** How far the big-endian word at 10 moves. */
  function SumMove(host: ByteOrder, b: seq<byte>, nid: u16): int
    requires |b| >= 28
  {
    Be16(First(host, NewSum(host, b, nid)), Second(host, NewSum(host, b, nid))) - Be16(b[10], b[11])
  }

  function IdWord(host: ByteOrder, nid: u16): u16 {
    Be16(First(host, nid), Second(host, nid))
  }

  /** Byte order is a factor modulo 0xffff: a word read in the other order is the
      word times 0x100. */
  lemma OrderIsFactor(host: ByteOrder, b0: byte, b1: byte)
    ensures host.BigEndian? ==> Be16(b0, b1) == Load16(host, b0, b1)
    ensures host.LittleEndian? ==> Be16(b0, b1) == 0x100 * Load16(host, b0, b1) - M * b1
    ensures First(host, Load16(host, b0, b1)) == b0 && Second(host, Load16(host, b0, b1)) == b1
  {
  }

  lemma LoadStored(host: ByteOrder, v: u16)
    ensures Load16(host, First(host, v), Second(host, v)) == v
  {
  }

  /** The two big-endian words move by opposite amounts modulo 0xffff, whatever
      order the host added them in. */
  lemma MovesCancel(host: ByteOrder, b: seq<byte>, nid: u16) returns (k: int)
    requires |b| >= 28
    ensures IdWord(host, nid) + SumMove(host, b, nid) == M * k
  {
    var s, t := Load16(host, b[10], b[11]), NewSum(host, b, nid);
    var q := SameApart(t, s + (0xffff - nid));
    var e := q + 1;
    assert nid + t - s == M * e;
    LoadStored(host, nid);
    LoadStored(host, t);
    OrderIsFactor(host, First(host, nid), Second(host, nid));
    OrderIsFactor(host, First(host, t), Second(host, t));
    OrderIsFactor(host, b[10], b[11]);
    k := if host.BigEndian? then e else 0x100 * e - Second(host, nid) - Second(host, t) + b[11];
  }

  /** Where a header can end and a payload begin. */
  predicate Place(x: nat) {
    x == 0 || x == 4 || x == 8 || x >= 12
  }

  lemma HeaderPlace(hl: nat)
    requires hl % 4 == 0
    ensures Place(hl)
  {
  }

  /** What two replaced words do to the sum of a slice that splits neither: the zero word
      at 4 becomes `f`, `g`, and the word at 10 becomes `h`, `l`. */
  lemma TwoWordsMove(b: seq<byte>, f: byte, g: byte, h: byte, l: byte, x: nat, y: nat)
    requires |b| >= 28 && b[4] == 0 && b[5] == 0 && x <= y <= |b| && Place(x)
    requires y == 4 || y == 8 || y >= 12 || x == y
    ensures WordSum(PutWord(PutWord(b, 4, f, g), 10, h, l)[x..y]) == WordSum(b[x..y])
              + (if x <= 4 && 6 <= y then Be16(f, g) else 0)
              + (if x <= 10 && 12 <= y then Be16(h, l) - Be16(b[10], b[11]) else 0)
  {
    var c := PutWord(b, 4, f, g);
    if x < y && x < 12 {
      PutWordSum(b, 4, f, g, x, y);
      PutWordSum(c, 10, h, l, x, y);
    } else {
      assert PutWord(c, 10, h, l)[x..y] == b[x..y];
    }
  }

  /** The slice holds exactly one of the two words. */
  predicate OneWord(x: nat, y: nat) {
    (x <= 4 && y == 8) || (x == 8 && 12 <= y)
  }

  predicate ZeroId(nid: u16) {
    nid == 0 || nid == 0xffff
  }

  /** A slice that holds both words, or neither, keeps its sum modulo 0xffff; one
      that holds a single word moves by that word. */
  lemma SliceZero(host: ByteOrder, b: seq<byte>, nid: u16, x: nat, y: nat, k: int)
    requires |b| >= 28 && b[4] == 0 && b[5] == 0 && x <= y <= |b| && Place(x)
    requires y == 4 || y == 8 || y >= 12 || x == y
    requires Zero(k + WordSum(b[x..y]))
    ensures Zero(k + WordSum(Rewritten(host, b, nid)[x..y])) <==> !OneWord(x, y) || ZeroId(nid)
  {
    var i, s, j := SliceMove(host, b, nid, x, y);
    Shifts(k + WordSum(b[x..y]), k + WordSum(Rewritten(host, b, nid)[x..y]), i, s, j);
  }

  /** By how much it moves: by one of two numbers that cancel, by both, or not at all. */
  lemma SliceMove(host: ByteOrder, b: seq<byte>, nid: u16, x: nat, y: nat) returns (i: int, s: int, j: int)
    requires |b| >= 28 && b[4] == 0 && b[5] == 0 && x <= y <= |b| && Place(x)
    requires y == 4 || y == 8 || y >= 12 || x == y
    ensures i + s == M * j && (Zero(i) <==> ZeroId(nid))
    ensures var moved := WordSum(Rewritten(host, b, nid)[x..y]) - WordSum(b[x..y]);
            if OneWord(x, y) then moved == i || moved == s else moved == i + s || moved == 0
  {
    var sum := NewSum(host, b, nid);
    TwoWordsMove(b, First(host, nid), Second(host, nid), First(host, sum), Second(host, sum), x, y);
    j := MovesCancel(host, b, nid);
    IdWordZero(host, nid);
    i, s := IdWord(host, nid), SumMove(host, b, nid);
    WordsIn(x, y, i, s);
  }

  /** Which of the two words count. */
  lemma WordsIn(x: nat, y: nat, i: int, s: int)
    requires x <= y && Place(x) && (y == 4 || y == 8 || y >= 12 || x == y)
    ensures var moved := (if x <= 4 && 6 <= y then i else 0) + (if x <= 10 && 12 <= y then s else 0);
            if OneWord(x, y) then moved == i || moved == s else moved == i + s || moved == 0
  {
  }

  lemma Shifts(before: int, after: int, i: int, s: int, j: int)
    requires i + s == M * j && Zero(before)
    ensures after == before || after == before + (i + s) ==> Zero(after)
    ensures after == before + i || after == before + s ==> (Zero(after) <==> Zero(i))
  {
    SameBy(i + s, 0, j);
    ZeroPlus(before, i + s);
    ZeroPlus(before, i);
    ZeroPlus(before, s);
    ZeroOpposite(i, s, j);
  }

  lemma ZeroOpposite(i: int, s: int, j: int)
    requires i + s == M * j
    ensures Zero(s) <==> Zero(i)
  {
    SameBy(i + s, 0, j);
    if Zero(i) {
      ZeroPlus(i, s);
    }
    if Zero(s) {
      ZeroPlus(s, i);
    }
  }

  lemma IdWordZero(host: ByteOrder, nid: u16)
    ensures Zero(IdWord(host, nid)) <==> ZeroId(nid)
  {
    var h, l := nid / 0x100, nid % 0x100;
    assert nid == 0x100 * h + l && 0 <= h < 0x100 && 0 <= l < 0x100;
    ZeroWord(h, l);
    ZeroWord(l, h);
  }

  lemma ZeroWord(h: byte, l: byte)
    ensures Zero(Be16(h, l)) <==> (h == 0 && l == 0) || (h == 0xff && l == 0xff)
  {
    SmallZero(Be16(h, l));
  }

  lemma LengthsKept(host: ByteOrder, b: seq<byte>, len: nat, nid: u16)
    requires InBuffer(b, len)
    ensures var r := Rewritten(host, b, nid);
            InBuffer(r, len) && HeaderLength(r) == HeaderLength(b) && PayloadLength(r, len) == PayloadLength(b, len)
            && PseudoHeader(r, len) == PseudoHeader(b, len)
  {
    assert Rewritten(host, b, nid)[12..20] == b[12..20];
  }

  // ---- A payload that ends inside the first twelve bytes

  /** What the rewrite adds to the sum of the bytes from `x` to `y`, for an even `x` and a
      `y` below 12: such a slice can end inside either word. */
  function Spill(host: ByteOrder, b: seq<byte>, nid: u16, x: nat, y: nat): int
    requires |b| >= 28
  {
    (if x <= 4 < y then 0x100 * First(host, nid) as int else 0) + (if x <= 5 < y then Second(host, nid) as int else 0)
    + (if x <= 10 < y then 0x100 * (First(host, NewSum(host, b, nid)) as int - b[10]) else 0)
  }

  /** One byte replaced, if it is in the slice. */
  function PutIn(s: seq<byte>, i: int, v: byte): (r: seq<byte>)
    ensures |r| == |s|
  {
    if 0 <= i < |s| then s[i := v] else s
  }

  lemma PutInSum(s: seq<byte>, i: int, v: byte)
    ensures WordSum(PutIn(s, i, v)) == WordSum(s) + Change(s, i, v)
  {
    if 0 <= i < |s| {
      WordSumUpdate(s, i, v);
    }
  }

  /** The first twelve bytes change at three places; the fourth lies behind the slice. */
  lemma ShortChange(host: ByteOrder, b: seq<byte>, nid: u16, x: nat, y: nat)
    requires |b| >= 28 && x <= y < 12
    ensures Rewritten(host, b, nid)[x..y] ==
            PutIn(PutIn(PutIn(b[x..y], 4 - x, First(host, nid)), 5 - x, Second(host, nid)),
                  10 - x, First(host, NewSum(host, b, nid)))
  {
    var r := Rewritten(host, b, nid);
    assert r[4] == First(host, nid) && r[5] == Second(host, nid) && r[10] == First(host, NewSum(host, b, nid));
  }

  lemma ShortSlice(host: ByteOrder, b: seq<byte>, nid: u16, x: nat, y: nat)
    requires |b| >= 28 && b[4] == 0 && b[5] == 0 && (x == 0 || x == 4 || x == 8) && x <= y < 12
    ensures WordSum(Rewritten(host, b, nid)[x..y]) == WordSum(b[x..y]) + Spill(host, b, nid, x, y)
  {
    var f, g, t := First(host, nid), Second(host, nid), First(host, NewSum(host, b, nid));
    ShortChange(host, b, nid, x, y);
    var s := b[x..y];
    ThreePuts(s, 4 - x, 5 - x, 10 - x, f, g, t);
    Weights(x);
  }

  lemma Weights(x: nat)
    requires x == 0 || x == 4 || x == 8
    ensures (x <= 4 ==> Weight(4 - x) == 0x100 && Weight(5 - x) == 1) && Weight(10 - x) == 0x100
  {
  }

  /** What one replaced byte adds. */
  function Change(s: seq<byte>, i: int, v: byte): int {
    if 0 <= i < |s| then Weight(i) * (v - s[i]) else 0
  }

  lemma ChangeKept(s: seq<byte>, i: int, f: byte, j: int, g: byte)
    requires i != j
    ensures Change(PutIn(s, i, f), j, g) == Change(s, j, g)
  {
  }

  lemma ThreePuts(s: seq<byte>, i: int, j: int, k: int, f: byte, g: byte, t: byte)
    requires i < j < k
    ensures WordSum(PutIn(PutIn(PutIn(s, i, f), j, g), k, t)) ==
            WordSum(s) + Change(s, i, f) + Change(s, j, g) + Change(s, k, t)
  {
    var s1 := PutIn(s, i, f);
    var s2 := PutIn(s1, j, g);
    PutInSum(s, i, f);
    PutInSum(s1, j, g);
    PutInSum(s2, k, t);
    ChangeKept(s, i, f, j, g);
    ChangeKept(s, i, f, k, t);
    ChangeKept(s1, j, g, k, t);
  }

  /** Where the payload ends in the buffer. */
  function PayloadEnd(b: seq<byte>, len: nat): nat
    requires |b| >= 28
  {
    HeaderLength(b) + PayloadLength(b, len)
  }

  /** The payload sum is not looked at: another protocol, or UDP with its sum disabled. */
  predicate Unchecked(b: seq<byte>)
    requires |b| >= 28
  {
    b[9] != TCP && b[9] != ICMP && (b[9] == UDP ==> b[26] == 0 && b[27] == 0)
  }

  /** The payload does not move by anything but a zero. */
  ghost predicate Unmoved(host: ByteOrder, b: seq<byte>, len: nat, nid: u16)
    requires |b| >= 28
  {
    PayloadEnd(b, len) >= 12 || Zero(Spill(host, b, nid, HeaderLength(b), PayloadEnd(b, len)))
  }

  /** When an accepted packet survives the rewrite: its header does not end between the
      two words, and its payload, if it is checked and ends before both, does not move by
      anything but a zero; the two zero identifications move nothing in the header. */
  ghost predicate Survives(host: ByteOrder, b: seq<byte>, len: nat, nid: u16)
    requires |b| >= 28
  {
    && (HeaderLength(b) != 8 || ZeroId(nid))
    && (Unchecked(b) || Unmoved(host, b, len, nid))
  }

  lemma PayloadKept(host: ByteOrder, b: seq<byte>, len: nat, nid: u16, k: int)
    requires InBuffer(b, len) && InBuffer(Rewritten(host, b, nid), len) && b[4] == 0 && b[5] == 0
    requires PayloadEnd(Rewritten(host, b, nid), len) == PayloadEnd(b, len)
    requires HeaderLength(Rewritten(host, b, nid)) == HeaderLength(b)
    requires HeaderLength(b) != 8 || ZeroId(nid)
    requires Zero(k + WordSum(Payload(b, len)))
    ensures Zero(k + WordSum(Payload(Rewritten(host, b, nid), len))) <==>
            PayloadEnd(b, len) >= 12 || Zero(Spill(host, b, nid, HeaderLength(b), PayloadEnd(b, len)))
  {
    var x, y := HeaderLength(b), PayloadEnd(b, len);
    HeaderPlace(x);
    if y >= 12 {
      SliceZero(host, b, nid, x, y, k);
    } else {
      ShortSlice(host, b, nid, x, y);
      ZeroPlus(k + WordSum(b[x..y]), Spill(host, b, nid, x, y));
    }
  }

  lemma HeaderKept(host: ByteOrder, b: seq<byte>, len: nat, nid: u16)
    requires InBuffer(b, len) && HeaderOk(b) && b[4] == 0 && b[5] == 0
    ensures InBuffer(Rewritten(host, b, nid), len)
    ensures HeaderOk(Rewritten(host, b, nid)) <==> HeaderLength(b) != 8 || ZeroId(nid)
  {
    var r, hl := Rewritten(host, b, nid), HeaderLength(b);
    LengthsKept(host, b, len, nid);
    HeaderPlace(hl);
    assert r[0..hl] == r[..hl] && b[0..hl] == b[..hl];
    SliceZero(host, b, nid, 0, hl, 0);
  }

  lemma TransportKept(host: ByteOrder, b: seq<byte>, len: nat, nid: u16)
    requires InBuffer(b, len) && b[4] == 0 && b[5] == 0 && (HeaderLength(b) != 8 || ZeroId(nid))
    requires InBuffer(Rewritten(host, b, nid), len) && TransportOk(b, len)
    ensures TransportOk(Rewritten(host, b, nid), len) <==> Unmoved(host, b, len, nid)
  {
    LengthsKept(host, b, len, nid);
    PayloadKept(host, b, len, nid, PseudoHeader(b, len));
  }

  lemma IcmpKept(host: ByteOrder, b: seq<byte>, len: nat, nid: u16)
    requires InBuffer(b, len) && b[4] == 0 && b[5] == 0 && (HeaderLength(b) != 8 || ZeroId(nid))
    requires InBuffer(Rewritten(host, b, nid), len) && IcmpOk(b, len)
    ensures IcmpOk(Rewritten(host, b, nid), len) <==> Unmoved(host, b, len, nid)
  {
    LengthsKept(host, b, len, nid);
    PayloadKept(host, b, len, nid, 0);
  }

  /** The exact condition, for every accepted packet with a zero identification: it is
      accepted again after the rewrite if and only if it survives in the sense above. */
  lemma RewriteVerdict(host: ByteOrder, b: seq<byte>, len: nat, nid: u16)
    requires InBuffer(b, len) && Accepted(b, len) && b[4] == 0 && b[5] == 0
    ensures InBuffer(Rewritten(host, b, nid), len)
    ensures Accepted(Rewritten(host, b, nid), len) <==> Survives(host, b, len, nid)
  {
    AcceptedHeader(b, len);
    HeaderKept(host, b, len, nid);
    LengthsKept(host, b, len, nid);
    var r := Rewritten(host, b, nid);
    SameHead(b, r, len);
    if HeaderLength(b) != 8 || ZeroId(nid) {
      if TransportOk(b, len) {
        TransportKept(host, b, len, nid);
      }
      if IcmpOk(b, len) {
        IcmpKept(host, b, len, nid);
      }
    }
  }

  /** With the same protocol, lengths and UDP sum, the verdict is a matter of the sums. */
  lemma SameHead(b: seq<byte>, r: seq<byte>, len: nat)
    requires InBuffer(b, len) && InBuffer(r, len) && Accepted(b, len)
    requires r[0] == b[0] && r[2] == b[2] && r[3] == b[3] && r[9] == b[9] && r[26] == b[26] && r[27] == b[27]
    ensures Accepted(r, len) <==>
            HeaderOk(r) && (Unchecked(b) || if b[9] == ICMP then IcmpOk(r, len) else TransportOk(r, len))
    ensures Unchecked(b) || if b[9] == ICMP then IcmpOk(b, len) else TransportOk(b, len)
  {
  }

  /** So for a header that covers both words, or a packet of twelve bytes or more, only
      the 8-byte header fails; for any IHL of 5 or more the second drop of
      `write_to_serial` is unreachable. */
  lemma LongPacketVerdict(host: ByteOrder, b: seq<byte>, len: nat, nid: u16)
    requires InBuffer(b, len) && Accepted(b, len) && b[4] == 0 && b[5] == 0
    requires HeaderLength(b) >= 12 || 12 <= len < 0x1_0000
    ensures InBuffer(Rewritten(host, b, nid), len)
    ensures Accepted(Rewritten(host, b, nid), len) <==> HeaderLength(b) != 8 || ZeroId(nid)
  {
    RewriteVerdict(host, b, len, nid);
    LongEnd(b, len);
  }

  lemma LongEnd(b: seq<byte>, len: nat)
    requires |b| >= 28 && (HeaderLength(b) >= 12 || 12 <= len < 0x1_0000)
    ensures PayloadEnd(b, len) >= 12
  {
    if HeaderLength(b) < 12 {
      assert PayloadLength(b, len) == len - HeaderLength(b);
    }
  }

  /** The second failing family in closed form: a payload that holds the identification and
      ends before the checksum field survives only the two zeros. */
  lemma ShortPayloadSpill(host: ByteOrder, b: seq<byte>, nid: u16, x: nat, y: nat)
    requires |b| >= 28 && (x == 0 || x == 4) && x <= y <= 10
    ensures Zero(Spill(host, b, nid, x, y)) <==>
            y <= 4 || (y == 5 && First(host, nid) == 0) || (y >= 6 && ZeroId(nid))
  {
    IdWordZero(host, nid);
    SmallZero(0);
    if y == 5 {
      SmallWord(First(host, nid));
    }
  }

  /** And one that ends inside the checksum, at byte 11, survives exactly if the low byte of
      the checksum field stays as it is. */
  lemma OddPayloadSpill(host: ByteOrder, b: seq<byte>, nid: u16, x: nat)
    requires |b| >= 28 && (x == 0 || x == 4 || (x == 8 && ZeroId(nid)))
    ensures Zero(Spill(host, b, nid, x, 11)) <==> Second(host, NewSum(host, b, nid)) == b[11]
  {
    var sum := NewSum(host, b, nid);
    var f, s := First(host, sum), Second(host, sum);
    var j := MovesCancel(host, b, nid);
    OddSpill(host, b, nid, x, f);
    WordParts(f, s, b[10], b[11]);
    IdWordZero(host, nid);
    var i, high, low := IdWord(host, nid), 0x100 * (f as int - b[10]), s as int - b[11];
    assert i + (high + low) == M * j;
    HalfWord(i, high, low, j);
    assert Spill(host, b, nid, x, 11) == if x == 8 then high else i + high;
  }

  lemma OddSpill(host: ByteOrder, b: seq<byte>, nid: u16, x: nat, f: byte)
    requires |b| >= 28 && (x == 0 || x == 4 || x == 8) && f == First(host, NewSum(host, b, nid))
    ensures Spill(host, b, nid, x, 11) == (if x == 8 then 0 else IdWord(host, nid)) + 0x100 * (f as int - b[10])
  {
  }

  lemma WordParts(f: byte, s: byte, h: byte, l: byte)
    ensures Be16(f, s) - Be16(h, l) == 0x100 * (f as int - h) + (s as int - l)
  {
  }

  /** Of three numbers that add up to a zero, without the smallest. */
  lemma HalfWord(i: int, high: int, low: int, j: int)
    requires i + (high + low) == M * j && -0x100 < low < 0x100
    ensures Zero(i + high) <==> low == 0
    ensures Zero(i) ==> (Zero(high) <==> low == 0)
  {
    SmallDifference(low);
    ZeroOpposite(i + high, low, j);
    if Zero(i) {
      ZeroPlus(i, high);
    }
  }

  lemma SmallDifference(d: int)
    requires -0x100 < d < 0x100
    ensures Zero(d) <==> d == 0
  {
    SmallZero(if d < 0 then -d else d);
    if d < 0 && Zero(d) {
      SameAdd(0, d, -d);
      assert false;
    }
  }

  /** For a zero number that is: unless the number is the zero 0x0000 and the field is. */
  lemma ZeroIdKeeps(host: ByteOrder, b: seq<byte>, nid: u16)
    requires |b| >= 28 && ZeroId(nid)
    ensures Second(host, NewSum(host, b, nid)) == b[11] <==> nid == 0xffff || b[10] != 0 || b[11] != 0
  {
    OrderIsFactor(host, b[10], b[11]);
  }

  lemma SmallWord(f: byte)
    ensures Zero(0x100 * f as int) <==> f == 0
  {
    SmallZero(0x100 * f as int);
  }

  /** A packet of that family: ten bytes, all payload, TCP, in a buffer whose address
      bytes make the pseudo header balance. */
  predicate ShortPayload(b: seq<byte>) {
    && |b| == 28 && b[0] == 0x40 && b[1] == 0 && b[2] == 0 && b[3] == 10 && b[4] == 0 && b[5] == 0
    && b[6] == 0 && b[7] == 0x40 && b[8] == 0 && b[9] == 6 && b[12] == 0xbf && b[13] == 0x9f
    && forall i :: 14 <= i < 20 ==> b[i] == 0
  }

  lemma ShortPayloadDropped(b: seq<byte>, nid: u16)
    requires ShortPayload(b) && 0 < nid < 0xffff
    ensures InBuffer(b, 10) && Accepted(b, 10) && NeedsId(LittleEndian, b)
    ensures InBuffer(Rewritten(LittleEndian, b, nid), 10) && !Accepted(Rewritten(LittleEndian, b, nid), 10)
  {
    TenBytesOfTcp(b);
    TenBytesDropped(b, nid);
  }

  lemma TenBytesDropped(b: seq<byte>, nid: u16)
    requires InBuffer(b, 10) && Accepted(b, 10) && b[4] == 0 && b[5] == 0 && b[9] == TCP
    requires HeaderLength(b) == 0 && PayloadEnd(b, 10) == 10 && !ZeroId(nid)
    ensures InBuffer(Rewritten(LittleEndian, b, nid), 10) && !Accepted(Rewritten(LittleEndian, b, nid), 10)
  {
    RewriteVerdict(LittleEndian, b, 10, nid);
    ShortPayloadSpill(LittleEndian, b, nid, 0, 10);
  }

  lemma TenBytesOfTcp(b: seq<byte>)
    requires ShortPayload(b)
    ensures InBuffer(b, 10) && Accepted(b, 10) && HeaderLength(b) == 0 && PayloadEnd(b, 10) == 10
  {
    assert b[..0] == [];
    Sum10(b[0..10]);
    Sum8(b[12..20]);
    assert Payload(b, 10) == b[0..10];
    assert PseudoHeader(b, 10) + WordSum(Payload(b, 10)) == 0xffff;
    SmallZero(0);
    SmallZero(0xffff);
  }

  lemma Sum2(s: seq<byte>)
    requires |s| >= 2
    ensures WordSum(s) == Be16(s[0], s[1]) + WordSum(s[2..])
  {
  }

  lemma Sum4(s: seq<byte>)
    requires |s| == 4
    ensures WordSum(s) == Be16(s[0], s[1]) + Be16(s[2], s[3])
  {
    Sum2(s);
    Sum2(s[2..]);
  }

  lemma Sum8(s: seq<byte>)
    requires |s| == 8
    ensures WordSum(s) == Be16(s[0], s[1]) + Be16(s[2], s[3]) + Be16(s[4], s[5]) + Be16(s[6], s[7])
  {
    Sum2(s);
    Sum2(s[2..]);
    assert s[2..][2..] == s[4..];
    Sum4(s[4..]);
  }

  lemma Sum10(s: seq<byte>)
    requires |s| == 10
    ensures WordSum(s) == Be16(s[0], s[1]) + Be16(s[2], s[3]) + Be16(s[4], s[5]) + Be16(s[6], s[7]) + Be16(s[8], s[9])
  {
    Sum2(s);
    Sum8(s[2..]);
  }

  /** A packet of the first failing family: 8-byte header, 28 bytes, protocol 0. */
  predicate ShortHeader(b: seq<byte>) {
    && |b| == 28 && b[0] == 0x42 && b[1] == 0 && b[2] == 0 && b[3] == 28 && b[4] == 0 && b[5] == 0
    && b[6] == 0xbd && b[7] == 0xe3 && b[9] == 0
  }

  /** Its identification is due for a rewrite on a little-endian host, and the
      rewritten packet is dropped. */
  lemma ShortHeaderDropped(b: seq<byte>, nid: u16)
    requires ShortHeader(b) && 0 < nid < 0xffff
    ensures InBuffer(b, 28) && Accepted(b, 28) && NeedsId(LittleEndian, b)
    ensures InBuffer(Rewritten(LittleEndian, b, nid), 28) && !Accepted(Rewritten(LittleEndian, b, nid), 28)
  {
    EightByteHeader(b);
    LongPacketVerdict(LittleEndian, b, 28, nid);
  }

  lemma EightByteHeader(b: seq<byte>)
    requires ShortHeader(b)
    ensures InBuffer(b, 28) && Accepted(b, 28) && NeedsId(LittleEndian, b) && HeaderLength(b) == 8
  {
    Sum8(b[..8]);
    assert WordSum(b[..8]) == 0xffff;
    SmallZero(0xffff);
  }
}
