/** `check_ip` of contiki-2.5/tools/tunslip.c, and what its checksums detect. */
module CheckIp {
  import opened Bytes
  import opened Checksum

  const TCP: byte := 6
  const UDP: byte := 17
  const ICMP: byte := 1

  /** Header length in bytes: 4 times the low nibble of `ip_vhl`. */
  function HeaderLength(b: seq<byte>): (hl: nat)
    requires |b| >= 28
    ensures hl < 64 && hl % 4 == 0
  {
    4 * LowNibble(b[0])
  }

  /** `u_int16_t tcp_len = ip_len - ip_hl` wraps when the header is longer than
      the packet. */
  function PayloadLength(b: seq<byte>, len: nat): u16
    requires |b| >= 28
  {
    Low16(len - HeaderLength(b))
  }

  /** The bytes the check may load lie in the buffer `b`; the packet is its first
      `len` bytes. */
  predicate InBuffer(b: seq<byte>, len: nat) {
    |b| >= 28 && len <= |b| && HeaderLength(b) + PayloadLength(b, len) <= |b|
  }

  function Payload(b: seq<byte>, len: nat): seq<byte>
    requires InBuffer(b, len)
  {
    b[HeaderLength(b)..HeaderLength(b) + PayloadLength(b, len)]
  }

  function TotalLength(b: seq<byte>): u16
    requires |b| >= 28
  {
    Be16(b[2], b[3])
  }

  ghost predicate HeaderOk(b: seq<byte>)
    requires |b| >= 28 && HeaderLength(b) <= |b|
  {
    Zero(WordSum(b[..HeaderLength(b)]))
  }

  /** The pseudo header starts from protocol plus length, "no carry": that first
      addition is cut to 16 bits. */
  function PseudoHeader(b: seq<byte>, len: nat): nat
    requires InBuffer(b, len)
  {
    Wrap16(b[9] + PayloadLength(b, len)) + WordSum(b[12..20])
  }

  ghost predicate TransportOk(b: seq<byte>, len: nat)
    requires InBuffer(b, len)
  {
    Zero(PseudoHeader(b, len) + WordSum(Payload(b, len)))
  }

  ghost predicate IcmpOk(b: seq<byte>, len: nat)
    requires InBuffer(b, len)
  {
    Zero(WordSum(Payload(b, len)))
  }

  /** The verdict on a packet, in sums modulo 0xffff: 0 or the first failing test. */
  ghost function Verdict(b: seq<byte>, len: nat): (r: int)
    requires InBuffer(b, len)
    ensures -7 <= r <= 0
  {
    if !(0x40 <= b[0] < 0x50) then -1
    else if TotalLength(b) > len then -2
    else if TotalLength(b) < len then -3
    else if !HeaderOk(b) then -4
    else ProtocolVerdict(b, len)
  }

  ghost function ProtocolVerdict(b: seq<byte>, len: nat): (r: int)
    requires InBuffer(b, len)
    ensures -7 <= r <= 0
  {
    if b[9] == TCP then if TransportOk(b, len) then 0 else -5
    else if b[9] == UDP then if TransportOk(b, len) || (b[26] == 0 && b[27] == 0) then 0 else -6
    else if b[9] == ICMP then if IcmpOk(b, len) then 0 else -7
    else 0
  }

  ghost predicate Accepted(b: seq<byte>, len: nat)
    requires InBuffer(b, len)
  {
    Verdict(b, len) == 0
  }

  /** `check_ip`: the running 16-bit sums decide as the verdict says. */
  method Check(ip: array<byte>, len: nat) returns (ecode: int)
    requires InBuffer(ip[..], len)
    ensures ecode == Verdict(ip[..], len)
  {
    ghost var b := ip[..];
    if ip[0] / 0x10 * 0x10 != 0x40 {
      return -1;
    }
    var total := Be16(ip[2], ip[3]);
    if total > len {
      return -2;
    }
    if total < len {
      return -3;
    }
    LowNibbleIs(ip[0]);
    var hl: u16 := 4 * (ip[0] % 0x10);
    var good := PlainSum(ip, 0, hl);
    assert b[0..hl] == b[..hl];
    if !good {
      return -4;
    }
    ecode := CheckProtocol(ip, len, hl);
  }

  method CheckProtocol(ip: array<byte>, len: nat, hl: u16) returns (ecode: int)
    requires InBuffer(ip[..], len) && hl == HeaderLength(ip[..])
    ensures ecode == ProtocolVerdict(ip[..], len)
  {
    if ip[9] == TCP || ip[9] == UDP {
      var good := TransportSum(ip, len, hl);
      if !good {
        if ip[9] == TCP {
          return -5;
        }
        if ip[26] != 0 || ip[27] != 0 {
          return -6;
        }
      }
    } else if ip[9] == ICMP {
      Low16Is(len - hl);
      var icmpLen: u16 := (len - hl) % 0x1_0000;
      var good := PlainSum(ip, hl, icmpLen);
      if !good {
        return -7;
      }
    }
    return 0;
  }

  /** A sum from zero over part of the packet, compared with both zeros. */
  method PlainSum(ip: array<byte>, at: nat, n: u16) returns (good: bool)
    requires at + n <= ip.Length
    ensures good == Zero(WordSum(ip[..][at..at + n]))
  {
    var sum := Ip4Sum(0, ip, at, n);
    assert ip[at..at + n] == ip[..][at..at + n];
    SmallZero(sum);
    good := !(sum != 0xffff && sum != 0);
  }

  /** The TCP and UDP part of `check_ip`: pseudo header, then header and data. */
  method TransportSum(ip: array<byte>, len: nat, hl: u16) returns (good: bool)
    requires InBuffer(ip[..], len) && hl == HeaderLength(ip[..])
    ensures good == TransportOk(ip[..], len)
  {
    ghost var b := ip[..];
    Low16Is(len - hl);
    var tcpLen: u16 := (len - hl) % 0x1_0000;
    var first: u16 := Wrap16(ip[9] as int + tcpLen);
    var second := Ip4Sum(first, ip, 12, 8);
    var sum := Ip4Sum(second, ip, hl, tcpLen);
    assert ip[12..20] == b[12..20] && ip[hl..hl + tcpLen] == Payload(b, len);
    SumsCompose(first, WordSum(b[12..20]), second, WordSum(Payload(b, len)), sum);
    SmallZero(sum);
    good := !(sum != 0xffff && sum != 0);
  }

  lemma SumsCompose(a: nat, w: nat, s: nat, v: nat, t: nat)
    requires Same(s, a + w) && Same(t, s + v)
    ensures Zero(t) <==> Zero(a + w + v)
  {
    SameAdd(s, a + w, v);
  }

  // ---- What the check covers, in terms of the bytes

  /** Section 3.1 of RFC 793 and the section "Checksum" of RFC 768: source, destination, a
      zero and the protocol, the length, then header and data, sum to a zero of
      one's-complement. Where protocol and length together exceed 16 bits, the carry that the
      code drops makes it one more than a zero. */
  ghost predicate SegmentGood(b: seq<byte>, hl: nat, n: u16)
    requires |b| >= 28 && hl + n <= |b|
  {
    Same(WordSum(b[12..16] + b[16..20] + [0, b[9]] + [n / 0x100, n % 0x100] + b[hl..hl + n]),
         if b[9] as int + n < 0x1_0000 then 0 else 1)
  }

  /** Exactly the packets that are accepted: version 4, the length in bytes 2 and 3, a good
      header sum, and for TCP, UDP (unless its sum is disabled) and ICMP a good sum over the
      `n` bytes behind the header. */
  lemma VerdictMeans(b: seq<byte>, len: u16, hl: nat, n: u16)
    requires InBuffer(b, len) && hl == 4 * (b[0] % 0x10)
    requires n == len - hl || n == len - hl + 0x1_0000
    ensures hl + n <= |b|
    ensures Verdict(b, len) == 0 <==>
            && b[0] / 0x10 == 4 && 0x100 * b[2] as int + b[3] as int == len && Zero(WordSum(b[..hl]))
            && (b[9] == 6 ==> SegmentGood(b, hl, n))
            && (b[9] == 17 ==> SegmentGood(b, hl, n) || (b[26] == 0 && b[27] == 0))
            && (b[9] == 1 ==> Zero(WordSum(b[hl..hl + n])))
    ensures Verdict(b, len) == -2 <==> b[0] / 0x10 == 4 && 0x100 * b[2] as int + b[3] as int > len
    ensures Verdict(b, len) == -3 <==> b[0] / 0x10 == 4 && 0x100 * b[2] as int + b[3] as int < len
  {
    LowNibbleIs(b[0]);
    LengthIs(b, len, n);
    TransportIs(b, len);
  }

  lemma LengthIs(b: seq<byte>, len: u16, n: u16)
    requires |b| >= 28 && (n == len - HeaderLength(b) || n == len - HeaderLength(b) + 0x1_0000)
    ensures PayloadLength(b, len) == n
  {
    if len < HeaderLength(b) {
      var d: int := len - HeaderLength(b);
      assert Low16(d) == Low16(d + 0x1_0000) == d + 0x1_0000;
    }
  }

  lemma TransportIs(b: seq<byte>, len: nat)
    requires InBuffer(b, len)
    ensures TransportOk(b, len) <==> SegmentGood(b, HeaderLength(b), PayloadLength(b, len))
  {
    var n, w, v := PayloadLength(b, len), WordSum(b[12..20]), WordSum(Payload(b, len));
    assert b[12..16] + b[16..20] == b[12..20];
    SegmentSum(b[12..20], b[9], n, Payload(b, len));
    SumIs(Wrap16(b[9] as int + n), w + v, b[9] as int + n);
  }

  lemma SumIs(first: u16, more: nat, s: nat)
    requires s < 0x2_0000 && first == Wrap16(s)
    ensures Zero(first + more) <==> Same(s + more, if s < 0x1_0000 then 0 else 1)
  {
    if s >= 0x1_0000 {
      assert first + more == s + more - 1 - M;
      SameBy(first + more, s + more - 1, -1);
      if Same(s + more, 1) {
        SameAdd(s + more, 1, -1);
      }
      if Zero(s + more - 1) {
        SameAdd(s + more - 1, 0, 1);
      }
    }
  }

  lemma SegmentSum(a: seq<byte>, p: byte, n: u16, d: seq<byte>)
    requires |a| % 2 == 0
    ensures WordSum(a + [0, p] + [n / 0x100, n % 0x100] + d) == WordSum(a) + p + n + WordSum(d)
  {
    var word := [n / 0x100, n % 0x100];
    WordSumSplit(a, [0, p]);
    WordSumSplit(a + [0, p], word);
    WordSumSplit(a + [0, p] + word, d);
    assert WordSum([0, p]) == p && WordSum(word) == n;
  }

  /** A sum moved by less than 0xffff either way is good no longer. */
  lemma Moved(sum: int, d: int)
    requires Zero(sum) && -M < d < M && d != 0
    ensures !Zero(sum + d)
  {
    ZeroPlus(sum, d);
    if d > 0 {
      SmallZero(d);
    } else {
      SmallZero(-d);
      if Zero(d) {
        SameAdd(0, d, -d);
        assert false;
      }
    }
  }

  lemma HeaderSumMoved(b: seq<byte>, i: nat, v: byte)
    requires |b| >= 28 && 1 <= i < HeaderLength(b) <= |b| && v != b[i] && HeaderOk(b)
    ensures !HeaderOk(b[i := v])
  {
    var hl := HeaderLength(b);
    assert b[i := v][..hl] == b[..hl][i := v];
    WordSumUpdate(b[..hl], i, v);
    Moved(WordSum(b[..hl]), Weight(i) * (v - b[i]));
  }

  /** Error detection: in an accepted packet whose header covers byte `i`, any
      other value of that one byte (byte 0 aside, which holds the header length
      itself) is rejected; flipping one bit is the special case. */
  lemma ByteErrorDetected(b: seq<byte>, len: nat, i: nat, v: byte)
    requires InBuffer(b, len) && Accepted(b, len)
    requires 1 <= i < HeaderLength(b) <= |b| && v != b[i]
    ensures InBuffer(b[i := v], len)
    ensures Verdict(b[i := v], len) in (if i == 2 || i == 3 then {-2, -3, -4} else {-4})
  {
    AcceptedHeader(b, len);
    HeaderSumMoved(b, i, v);
    var c := b[i := v];
    SameHeader(b, c, len);
    HeaderRefused(c, len);
    assert i != 2 && i != 3 ==> c[2] == b[2] && c[3] == b[3];
  }

  lemma AcceptedHeader(b: seq<byte>, len: nat)
    requires InBuffer(b, len) && Accepted(b, len)
    ensures HeaderOk(b) && 0x40 <= b[0] < 0x50 && TotalLength(b) as int == len
  {
  }

  lemma SameHeader(b: seq<byte>, c: seq<byte>, len: nat)
    requires InBuffer(b, len) && |c| == |b| && c[0] == b[0]
    ensures InBuffer(c, len)
  {
  }

  lemma HeaderRefused(c: seq<byte>, len: nat)
    requires InBuffer(c, len) && !HeaderOk(c)
    ensures -4 <= Verdict(c, len) < 0
    ensures 0x40 <= c[0] < 0x50 && TotalLength(c) as int == len ==> Verdict(c, len) == -4
  {
  }

  /** The limit of detection: replacing an aligned header word by another goes
      unnoticed if and only if one of the two is 0x0000 and the other 0xffff. */
  lemma WordErrorUndetected(b: seq<byte>, i: nat, v: byte, w: byte)
    requires |b| >= 28 && 2 <= i && i + 2 <= HeaderLength(b) <= |b| && i % 2 == 0 && HeaderOk(b)
    requires (v, w) != (b[i], b[i + 1])
    ensures HeaderOk(PutWord(b, i, v, w)) <==>
            (Be16(v, w) == 0 && Be16(b[i], b[i + 1]) == 0xffff) || (Be16(v, w) == 0xffff && Be16(b[i], b[i + 1]) == 0)
  {
    var hl, d, c := HeaderLength(b), Be16(v, w) - Be16(b[i], b[i + 1]), PutWord(b, i, v, w);
    PutWordSum(b, i, v, w, 0, hl);
    assert c[0..hl] == c[..hl] && b[0..hl] == b[..hl] && HeaderLength(c) == hl;
    WordMoved(WordSum(b[..hl]), Be16(v, w), Be16(b[i], b[i + 1]));
    WordsDiffer(v, w, b[i], b[i + 1]);
  }

  /** TCP, or UDP with its sum in use. */
  predicate Summed(b: seq<byte>)
    requires |b| >= 28
  {
    b[9] == TCP || (b[9] == UDP && (b[26] != 0 || b[27] != 0))
  }

  /** The transport sum guards the addresses: another value of one of their bytes in an
      accepted packet is refused even if the header sum is repaired. */
  lemma AddressErrorDetected(b: seq<byte>, len: nat, i: nat, v: byte, f: byte, g: byte)
    requires InBuffer(b, len) && Accepted(b, len) && Summed(b) && HeaderLength(b) >= 20
    requires 12 <= i < 20 && v != b[i] && HeaderOk(b[i := v][10 := f][11 := g])
    ensures var c := b[i := v][10 := f][11 := g];
            InBuffer(c, len) && Verdict(c, len) == if b[9] == TCP then -5 else -6
  {
    var c := b[i := v][10 := f][11 := g];
    AcceptedHeader(b, len);
    AcceptedSum(b, len);
    SameHeader(b, c, len);
    AddressPart(b, i, v, f, g);
    AddressMoved(b, c, len, i, v);
    SumRefused(c, len);
  }

  lemma AddressPart(b: seq<byte>, i: nat, v: byte, f: byte, g: byte)
    requires 12 <= i < 20 <= |b|
    ensures var c := b[i := v][10 := f][11 := g];
            c[12..20] == b[12..20][i - 12 := v] && c[20..] == b[20..]
  {
  }

  lemma AddressMoved(b: seq<byte>, c: seq<byte>, len: nat, i: nat, v: byte)
    requires InBuffer(b, len) && InBuffer(c, len) && TransportOk(b, len) && HeaderLength(b) >= 20
    requires c[0] == b[0] && c[9] == b[9] && 12 <= i < 20 && v != b[i]
    requires c[12..20] == b[12..20][i - 12 := v] && c[20..] == b[20..]
    ensures !TransportOk(c, len)
  {
    var n := PayloadLength(b, len);
    assert PayloadLength(c, len) == n;
    TailSlice(b, c, HeaderLength(b), HeaderLength(b) + n);
    WordSumUpdate(b[12..20], i - 12, v);
    Moved(PseudoHeader(b, len) + WordSum(Payload(b, len)), Weight(i - 12) * (v - b[i]));
  }

  lemma TailSlice(b: seq<byte>, c: seq<byte>, x: nat, y: nat)
    requires 20 <= x <= y <= |b| && 20 <= |c| && c[20..] == b[20..]
    ensures |c| == |b| && c[x..y] == b[x..y]
  {
    assert |c[20..]| == |b[20..]|;
    forall i | x <= i < y
      ensures c[i] == b[i]
    {
      assert c[20..][i - 20] == b[20..][i - 20];
    }
  }

  lemma SumRefused(c: seq<byte>, len: nat)
    requires InBuffer(c, len) && HeaderOk(c) && 0x40 <= c[0] < 0x50 && TotalLength(c) as int == len
    ensures Summed(c) && !TransportOk(c, len) ==> Verdict(c, len) == if c[9] == TCP then -5 else -6
    ensures c[9] == ICMP && !IcmpOk(c, len) ==> Verdict(c, len) == -7
  {
  }

  /** And the bytes behind the header: another value of any one of them is refused, by the
      code of the protocol. */
  lemma SegmentErrorDetected(b: seq<byte>, len: nat, i: nat, v: byte)
    requires InBuffer(b, len) && Accepted(b, len) && HeaderLength(b) >= 20
    requires HeaderLength(b) <= i < HeaderLength(b) + PayloadLength(b, len) && v != b[i]
    requires b[9] == ICMP || (Summed(b) && Summed(b[i := v]))
    ensures InBuffer(b[i := v], len)
    ensures Verdict(b[i := v], len) == if b[9] == TCP then -5 else if b[9] == UDP then -6 else -7
  {
    var c := b[i := v];
    AcceptedHeader(b, len);
    AcceptedSum(b, len);
    SameHeader(b, c, len);
    assert c[..HeaderLength(b)] == b[..HeaderLength(b)];
    SegmentMoved(b, len, i, v);
    SumRefused(c, len);
  }

  lemma SegmentMoved(b: seq<byte>, len: nat, i: nat, v: byte)
    requires InBuffer(b, len) && HeaderLength(b) >= 20
    requires HeaderLength(b) <= i < HeaderLength(b) + PayloadLength(b, len) && v != b[i]
    requires InBuffer(b[i := v], len)
    ensures TransportOk(b, len) ==> !TransportOk(b[i := v], len)
    ensures IcmpOk(b, len) ==> !IcmpOk(b[i := v], len)
  {
    var hl, n, c := HeaderLength(b), PayloadLength(b, len), b[i := v];
    assert HeaderLength(c) == hl && PayloadLength(c, len) == n;
    PartUpdate(b, hl, hl + n, i, v);
    SumMoved(Payload(b, len), i - hl, v, PseudoHeader(b, len));
    SumMoved(Payload(b, len), i - hl, v, 0);
  }

  lemma PartUpdate(b: seq<byte>, x: nat, y: nat, i: nat, v: byte)
    requires 20 <= x <= i < y <= |b|
    ensures b[i := v][x..y] == b[x..y][i - x := v] && b[i := v][12..20] == b[12..20]
  {
  }

  lemma SumMoved(d: seq<byte>, k: nat, v: byte, s: nat)
    requires k < |d| && v != d[k]
    ensures Zero(s + WordSum(d)) ==> !Zero(s + WordSum(d[k := v]))
  {
    WordSumUpdate(d, k, v);
    if Zero(s + WordSum(d)) {
      Moved(s + WordSum(d), Weight(k) * (v - d[k]));
    }
  }

  lemma AcceptedSum(b: seq<byte>, len: nat)
    requires InBuffer(b, len) && Accepted(b, len)
    ensures Summed(b) ==> TransportOk(b, len)
    ensures b[9] == ICMP ==> IcmpOk(b, len)
  {
  }

  lemma WordMoved(sum: int, new_: u16, old_: u16)
    requires Zero(sum) && new_ != old_
    ensures Zero(sum + (new_ - old_)) <==> (new_ == 0 && old_ == 0xffff) || (new_ == 0xffff && old_ == 0)
  {
    var d := new_ - old_;
    if -M < d < M {
      Moved(sum, d);
    } else {
      ZeroPlus(sum, d);
      SameBy(d, 0, if d > 0 then 1 else -1);
    }
  }

  lemma WordsDiffer(a: byte, b: byte, c: byte, d: byte)
    requires (a, b) != (c, d)
    ensures Be16(a, b) != Be16(c, d)
  {
  }
}
