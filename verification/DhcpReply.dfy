/** The packet `relay_dhcp_to_client` builds around the relayed options, and why the
    relay's own `check_ip` lets it through. */
module DhcpReply {
  import opened Bytes
  import opened Checksum
  import opened CheckIp
  import opened Rewrite
  import opened Slip
  import opened TunSlip
  import opened Dhcp

  const BASE_LEN: nat := 44
  const BOOTPS: u16 := 67
  const BOOTPC: u16 := 68

  /** `field = htons(v)`. */
  method PutNet(host: ByteOrder, pkt: array<byte>, i: nat, v: u16)
    requires i + 2 <= pkt.Length
    modifies pkt
    ensures pkt[i] == v / 0x100 && pkt[i + 1] == v % 0x100
    ensures forall j | 0 <= j < pkt.Length && j != i && j != i + 1 :: pkt[j] == old(pkt[j])
  {
    pkt[i], pkt[i + 1] := First(host, Swap(host, v)), Second(host, Swap(host, v));
  }

  /** `field = ~htons(v)`: the complement of `v` in network order, on any host. */
  method PutComplement(host: ByteOrder, pkt: array<byte>, i: nat, v: u16)
    requires i + 2 <= pkt.Length
    modifies pkt
    ensures pkt[..] == PutWord(old(pkt[..]), i, (0xffff - v) / 0x100, (0xffff - v) % 0x100)
  {
    var c: u16 := 0xffff - Swap(host, v);
    ComplementStored(host, v);
    pkt[i], pkt[i + 1] := First(host, c), Second(host, c);
  }

  lemma ComplementStored(host: ByteOrder, v: u16)
    ensures First(host, 0xffff - Swap(host, v)) == (0xffff - v) / 0x100
    ensures Second(host, 0xffff - Swap(host, v)) == (0xffff - v) % 0x100
  {
    var h, l := v / 0x100, v % 0x100;
    ComplementBytes(v, h, l);
    ComplementBytes(0x100 * l + h, l, h);
  }

  lemma ComplementBytes(v: u16, h: byte, l: byte)
    requires v == 0x100 * h + l
    ensures (0xffff - v) / 0x100 == 0xff - h && (0xffff - v) % 0x100 == 0xff - l
  {
    assert 0xffff - v == 0x100 * (0xff - h) + (0xff - l);
  }

  lemma Cancels(sum: u16, words: nat, check: u16)
    requires Same(sum, words) && (sum + check == 0xffff || (sum == 0xffff && check == 0xffff))
    ensures Zero(words + check)
  {
    SameAdd(sum, words, check);
    SameBy(sum + check, 0, if sum + check == 0xffff then 1 else 2);
  }

  /** Storing the complement of the header sum makes the header sum to zero. */
  lemma HeaderSealed(b: seq<byte>, sum: u16, check: u16)
    requires |b| >= 28 && HeaderLength(b) == 20 && b[10] == 0 && b[11] == 0
    requires Same(sum, WordSum(b[..20])) && check == 0xffff - sum
    ensures HeaderOk(PutWord(b, 10, check / 0x100, check % 0x100))
  {
    var r := PutWord(b, 10, check / 0x100, check % 0x100);
    PutWordSum(b, 10, check / 0x100, check % 0x100, 0, 20);
    assert r[0..20] == r[..20] && b[0..20] == b[..20];
    Cancels(sum, WordSum(b[..20]), check);
  }

  /** Likewise the UDP sum; a sum of 0xffff is stored as 0xffff instead of 0, which
      would mean "no checksum". */
  lemma UdpSealed(b: seq<byte>, len: nat, sum: u16, check: u16)
    requires InBuffer(b, len) && 28 <= len < 0x1_0000 && HeaderLength(b) == 20 && b[26] == 0 && b[27] == 0
    requires Same(sum, PseudoHeader(b, len) + WordSum(Payload(b, len)))
    requires check == if sum != 0xffff then 0xffff - sum else 0xffff
    ensures InBuffer(PutWord(b, 26, check / 0x100, check % 0x100), len)
    ensures TransportOk(PutWord(b, 26, check / 0x100, check % 0x100), len) && check != 0
  {
    var r := PutWord(b, 26, check / 0x100, check % 0x100);
    PutWordSum(b, 26, check / 0x100, check % 0x100, 20, len);
    assert r[12..20] == b[12..20];
    PlainLength(b, len);
    PlainLength(r, len);
    assert WordSum(Payload(r, len)) == WordSum(Payload(b, len)) + check;
    Cancels(sum, PseudoHeader(b, len) + WordSum(Payload(b, len)), check);
  }

  lemma PlainLength(b: seq<byte>, len: nat)
    requires |b| >= 28 && 20 <= len < 0x1_0000 && HeaderLength(b) == 20
    ensures PayloadLength(b, len) == len - 20
  {
  }

  /** A UDP packet ready for its two checksums: plain 20-byte header, sums zero. */
  predicate Unsealed(b: seq<byte>, len: nat) {
    && |b| == OUT_SIZE && OUT_OPTIONS <= len <= OUT_SIZE
    && b[0] == 0x45 && TotalLength(b) == len && b[9] == UDP
    && b[10] == 0 && b[11] == 0 && b[26] == 0 && b[27] == 0
  }

  lemma UnsealedLengths(b: seq<byte>, len: nat)
    requires Unsealed(b, len)
    ensures InBuffer(b, len) && HeaderLength(b) == 20 && PayloadLength(b, len) == len - 20
  {
  }

  /** `pkt.ip.ip_sum = ~htons(ip4sum(0, &pkt.ip, 20))`. */
  method SealHeader(host: ByteOrder, pkt: array<byte>, len: nat)
    requires Unsealed(pkt[..], len)
    modifies pkt
    ensures exists v, w :: pkt[..] == PutWord(old(pkt[..]), 10, v, w)
    ensures HeaderOk(pkt[..])
  {
    UnsealedLengths(pkt[..], len);
    ghost var b := pkt[..];
    var sum := Ip4Sum(0, pkt, 0, 20);
    assert pkt[0..20] == b[..20];
    HeaderSealed(b, sum, 0xffff - sum);
    PutComplement(host, pkt, 10, sum);
  }

  /** The UDP sum over pseudo header, header and data, and how it is stored. */
  method SealUdp(host: ByteOrder, pkt: array<byte>, len: nat)
    requires InBuffer(pkt[..], len) && OUT_OPTIONS <= len < 0x1_0000 && HeaderLength(pkt[..]) == 20
    requires pkt[9] == UDP && pkt[26] == 0 && pkt[27] == 0
    modifies pkt
    ensures exists v, w :: pkt[..] == PutWord(old(pkt[..]), 26, v, w)
    ensures InBuffer(pkt[..], len) && TransportOk(pkt[..], len) && (pkt[26] != 0 || pkt[27] != 0)
  {
    ghost var b := pkt[..];
    var udpLen: u16 := len - 20;
    var first: u16 := Wrap16(UDP + udpLen);
    var second := Ip4Sum(first, pkt, 12, 8);
    var sum := Ip4Sum(second, pkt, 20, udpLen);
    assert pkt[12..20] == b[12..20] && pkt[20..20 + udpLen] == Payload(b, len);
    SameAdd(second, first + WordSum(b[12..20]), WordSum(Payload(b, len)));
    UdpSealed(b, len, sum, if sum != 0xffff then 0xffff - sum else 0xffff);
    if sum != 0xffff {
      PutComplement(host, pkt, 26, sum);
    } else {
      PutNet(host, pkt, 26, 0xffff);
      assert pkt[..] == PutWord(b, 26, 0xff, 0xff);
    }
  }

  /** Two sums stored, and nothing else. */
  ghost predicate Stored(b: seq<byte>, c: seq<byte>) {
    |c| == |b| && forall i | 0 <= i < |b| && i !in [10, 11, 26, 27] :: c[i] == b[i]
  }

  /** Sealing leaves a packet the relay's own check accepts, whatever its contents and
      whether its length is odd or even. */
  method Seal(host: ByteOrder, pkt: array<byte>, len: nat)
    requires Unsealed(pkt[..], len)
    modifies pkt
    ensures InBuffer(pkt[..], len) && Accepted(pkt[..], len) && (pkt[26] != 0 || pkt[27] != 0)
    ensures Stored(old(pkt[..]), pkt[..])
  {
    UnsealedLengths(pkt[..], len);
    SealHeader(host, pkt, len);
    ghost var b := pkt[..];
    SealUdp(host, pkt, len);
    assert pkt[..][..20] == b[..20];
  }

  /** The fixed part of the message as the client sees it: one more hop, no relay
      address, then the magic cookie. */
  function Inc(b: byte): byte {
    (b + 1) % 0x100
  }

  function LightMessage(m: seq<byte>): (r: seq<byte>)
    requires |m| == IN_SIZE
    ensures |r| == BASE_LEN + 4
  {
    m[..3] + [Inc(m[3])] + m[4..24] + [0, 0, 0, 0] + m[28..BASE_LEN] + m[IN_OPTIONS..IN_OPTIONS + 4]
  }

  method PutMessage(inm: array<byte>, pkt: array<byte>)
    requires inm.Length == IN_SIZE && pkt.Length == OUT_SIZE && inm != pkt
    modifies pkt
    ensures pkt[28..OUT_OPTIONS + 4] == LightMessage(inm[..])
  {
    ghost var m := inm[..];
    Copy(inm, 0, pkt, 28, BASE_LEN);
    assert forall i :: 0 <= i < BASE_LEN ==> pkt[28 + i] == pkt[28..28 + BASE_LEN][i] == m[i];
    pkt[31] := Inc(pkt[31]);
    pkt[52], pkt[53], pkt[54], pkt[55] := 0, 0, 0, 0;
    ghost var base := pkt[..OUT_OPTIONS];
    Copy(inm, IN_OPTIONS, pkt, OUT_OPTIONS, 4);
    assert pkt[28..OUT_OPTIONS] == base[28..];
    assert pkt[28..OUT_OPTIONS + 4] == pkt[28..OUT_OPTIONS] + pkt[OUT_OPTIONS..OUT_OPTIONS + 4];
    assert base[28..] == m[..3] + [Inc(m[3])] + m[4..24] + [0, 0, 0, 0] + m[28..BASE_LEN];
  }

  method PutAddress(pkt: array<byte>, i: nat, a: seq<byte>)
    requires i + 4 <= pkt.Length && |a| == 4
    modifies pkt
    ensures pkt[i..i + 4] == a
    ensures forall j | 0 <= j < pkt.Length && !(i <= j < i + 4) :: pkt[j] == old(pkt[j])
  {
    pkt[i], pkt[i + 1], pkt[i + 2], pkt[i + 3] := a[0], a[1], a[2], a[3];
  }

  /** Every field of the IP header but the addresses; its sum is left zero. */
  method PutIpHeader(host: ByteOrder, pkt: array<byte>, len: nat, id: u16)
    requires pkt.Length == OUT_SIZE && OUT_OPTIONS <= len <= OUT_SIZE
    modifies pkt
    ensures pkt[0] == 0x45 && Be16(pkt[2], pkt[3]) == len && Be16(pkt[4], pkt[5]) == id
    ensures pkt[6] == 0 && pkt[7] == 0 && pkt[9] == UDP && pkt[10] == 0 && pkt[11] == 0
    ensures forall j | 12 <= j < OUT_SIZE :: pkt[j] == old(pkt[j])
  {
    PutNet(host, pkt, 2, len);
    PutNet(host, pkt, 4, id);
    pkt[0], pkt[1], pkt[6], pkt[7], pkt[8], pkt[9], pkt[10], pkt[11] := 0x45, 0, 0, 0, 64, UDP, 0, 0;
  }

  /** Every field of the UDP header; its sum is left zero. */
  method PutUdpHeader(host: ByteOrder, pkt: array<byte>, len: nat)
    requires pkt.Length == OUT_SIZE && OUT_OPTIONS <= len <= OUT_SIZE
    modifies pkt
    ensures Be16(pkt[20], pkt[21]) == BOOTPS && Be16(pkt[22], pkt[23]) == BOOTPC && Be16(pkt[24], pkt[25]) == len - 20
    ensures pkt[26] == 0 && pkt[27] == 0
    ensures forall j | 0 <= j < OUT_SIZE && !(20 <= j < 28) :: pkt[j] == old(pkt[j])
  {
    PutNet(host, pkt, 20, BOOTPS);
    PutNet(host, pkt, 22, BOOTPC);
    PutNet(host, pkt, 24, len - 20);
    pkt[26], pkt[27] := 0, 0;
  }

  /** Where the reply goes: to everyone if the broadcast flag is set, else to the
      address the server offers. */
  function Destination(m: seq<byte>): (r: seq<byte>)
    requires |m| == IN_SIZE
    ensures |r| == 4
  {
    if m[10] >= 0x80 then [255, 255, 255, 255] else m[16..20]
  }

  /** The message and the relayed options behind the place for the headers. */
  method PutBody(inm: array<byte>, n: nat, pkt: array<byte>, ghost os: seq<Tagged>, ghost tail: seq<byte>)
    returns (len: nat)
    requires inm != pkt && inm.Length == IN_SIZE && pkt.Length == OUT_SIZE
    requires IN_OPTIONS + 4 <= n <= IN_SIZE
    requires inm[IN_OPTIONS + 4..n] == EncodeOptions(os) + tail
    requires if tail == [] then os != [] else tail[0] == OPTION_END
    modifies pkt
    ensures OUT_OPTIONS + 4 <= len <= OUT_SIZE && BodyIs(pkt[28..len], inm[..], os)
  {
    PutMessage(inm, pkt);
    ghost var head := pkt[..OUT_OPTIONS + 4];
    assert head[28..] == LightMessage(inm[..]);
    len := RelayOptions(inm, n, pkt, os, tail);
    ParseEncoded(Filter(os), if tail == [] then [] else [OPTION_END]);
    RelayedAt(pkt[..], len, head, Relayed(os, tail != []));
    assert pkt[..][28..len] == pkt[28..len];
  }

  /** The payload of the reply: the light message, then options that a client reads
      as the filter of the server's. */
  ghost predicate BodyIs(s: seq<byte>, m: seq<byte>, os: seq<Tagged>)
    requires |m| == IN_SIZE
  {
    && |s| >= BASE_LEN + 4 && s[..BASE_LEN + 4] == LightMessage(m)
    && Parse(s[BASE_LEN + 4..]) == Options(Filter(os))
  }

  lemma RelayedAt(b: seq<byte>, len: nat, head: seq<byte>, options: seq<byte>)
    requires |head| == OUT_OPTIONS + 4 <= len <= |b| && b[..len] == head + options
    ensures b[28..len][BASE_LEN + 4..] == options
    ensures b[28..len][..BASE_LEN + 4] == head[28..]
  {
    assert b[28..len][BASE_LEN + 4..] == b[..len][OUT_OPTIONS + 4..];
    assert b[28..len][..BASE_LEN + 4] == b[..len][28..OUT_OPTIONS + 4];
  }

  /** Version 4 with a plain header, number, protocol, ports and UDP length. */
  predicate HeadersAre(b: seq<byte>, len: nat, id: u16) {
    && |b| >= 28 && b[0] == 0x45 && Be16(b[2], b[3]) == len && Be16(b[4], b[5]) == id && b[9] == 17
    && Be16(b[20], b[21]) == 67 && Be16(b[22], b[23]) == 68 && Be16(b[24], b[25]) == len - 20
  }

  lemma SealedKept(b: seq<byte>, c: seq<byte>, len: nat, id: u16)
    requires HeadersAre(b, len, id) && Stored(b, c) && len <= |b|
    ensures HeadersAre(c, len, id) && c[6] == b[6] && c[7] == b[7]
    ensures c[12..16] == b[12..16] && c[16..20] == b[16..20] && (len >= 28 ==> c[28..len] == b[28..len])
  {
    assert c[0] == b[0] && c[2] == b[2] && c[3] == b[3] && c[4] == b[4] && c[5] == b[5] && c[9] == b[9];
    assert c[20] == b[20] && c[21] == b[21] && c[22] == b[22] && c[23] == b[23] && c[24] == b[24] && c[25] == b[25];
  }

  /** The headers and their sums around a body. */
  method PutHeaders(host: ByteOrder, pkt: array<byte>, len: nat, id: u16, src: seq<byte>, dst: seq<byte>)
    requires pkt.Length == OUT_SIZE && OUT_OPTIONS <= len <= OUT_SIZE && |src| == |dst| == 4
    modifies pkt
    ensures InBuffer(pkt[..], len) && Accepted(pkt[..], len) && pkt[6] == 0 && pkt[7] == 0
    ensures HeadersAre(pkt[..], len, id) && (pkt[26] != 0 || pkt[27] != 0)
    ensures pkt[12..16] == src && pkt[16..20] == dst && pkt[28..len] == old(pkt[28..len])
  {
    PutUnsealed(host, pkt, len, id, src, dst);
    ghost var b := pkt[..];
    assert b[12..16] == src && b[16..20] == dst;
    Seal(host, pkt, len);
    SealedKept(b, pkt[..], len, id);
    assert pkt[12..16] == pkt[..][12..16] && pkt[16..20] == pkt[..][16..20] && pkt[28..len] == pkt[..][28..len];
  }

  method PutUnsealed(host: ByteOrder, pkt: array<byte>, len: nat, id: u16, src: seq<byte>, dst: seq<byte>)
    requires pkt.Length == OUT_SIZE && OUT_OPTIONS <= len <= OUT_SIZE && |src| == |dst| == 4
    modifies pkt
    ensures Unsealed(pkt[..], len) && HeadersAre(pkt[..], len, id) && pkt[6] == 0 && pkt[7] == 0
    ensures pkt[12..16] == src && pkt[16..20] == dst && pkt[28..len] == old(pkt[28..len])
  {
    PutIpHeader(host, pkt, len, id);
    PutUdpHeader(host, pkt, len);
    PutAddress(pkt, 12, src);
    PutAddress(pkt, 16, dst);
  }

  /** What a reply packet is. */
  ghost predicate ReplyIs(b: seq<byte>, len: nat, m: seq<byte>, id: u16, giaddr: seq<byte>, os: seq<Tagged>)
    requires |m| == IN_SIZE
  {
    && |b| == OUT_SIZE && OUT_OPTIONS <= len <= OUT_SIZE
    && InBuffer(b, len) && Accepted(b, len) && HeadersAre(b, len, id) && (b[26] != 0 || b[27] != 0)
    && b[12..16] == giaddr && b[16..20] == Destination(m)
    && BodyIs(b[28..len], m, os)
  }

  /** The packet byte by byte: its UDP sum is the good one of RFC 768 over the addresses, the
      zero and protocol, the length and everything behind the header; the message is that of
      the server with one more hop and no relay address, and with the magic cookie. */
  lemma ReplyBytes(b: seq<byte>, len: nat, m: seq<byte>, id: u16, giaddr: seq<byte>, os: seq<Tagged>)
    requires |m| == IN_SIZE && |giaddr| == 4 && ReplyIs(b, len, m, id, giaddr, os)
    ensures Same(WordSum(giaddr + b[16..20] + [0, 17] + [(len - 20) / 0x100, (len - 20) % 0x100] + b[20..len]), 0)
    ensures b[16..20] == if m[10] / 0x80 == 1 then [255, 255, 255, 255] else m[16..20]
    ensures forall i | 0 <= i < 44 && i != 3 && !(24 <= i < 28) :: b[28 + i] == m[i]
    ensures b[31] as int == (m[3] as int + 1) % 0x100 && b[52..56] == [0, 0, 0, 0] && b[72..76] == m[236..240]
  {
    VerdictMeans(b, len, 20, len - 20);
    MessageBytes(b, len, m);
  }

  /** And its options are exactly the wanted ones of the server, in order. */
  lemma ReplyOptions(b: seq<byte>, len: nat, m: seq<byte>, id: u16, giaddr: seq<byte>, os: seq<Tagged>)
    requires |m| == IN_SIZE && ReplyIs(b, len, m, id, giaddr, os)
    ensures var p := Parse(b[76..len]); p.Options? && WantedOf(os, p.options)
  {
    assert b[76..len] == b[28..len][48..];
    var at := FilterPicks(os);
  }

  lemma MessageBytes(b: seq<byte>, len: nat, m: seq<byte>)
    requires |m| == IN_SIZE && 76 <= len <= |b| && b[28..len][..48] == LightMessage(m)
    ensures forall i | 0 <= i < 44 && i != 3 && !(24 <= i < 28) :: b[28 + i] == m[i]
    ensures b[31] as int == (m[3] as int + 1) % 0x100 && b[52..56] == [0, 0, 0, 0] && b[72..76] == m[236..240]
  {
    var t := LightMessage(m);
    assert b[28..76] == b[28..len][..48] == t;
    assert b[52..56] == b[28..76][24..28] && b[72..76] == b[28..76][44..48];
    assert t[24..28] == [0, 0, 0, 0] && t[44..48] == m[236..240];
    forall i | 0 <= i < 44 && i != 3 && !(24 <= i < 28)
      ensures b[28 + i] == m[i]
    {
      assert b[28 + i] == t[i] == m[i];
    }
    assert b[31] == t[3];
  }

  method BuildReply(host: ByteOrder, inm: array<byte>, n: nat, id: u16, giaddr: seq<byte>,
                    ghost os: seq<Tagged>, ghost tail: seq<byte>)
    returns (pkt: array<byte>, len: nat)
    requires inm.Length == IN_SIZE && |giaddr| == 4 && IN_OPTIONS + 4 <= n <= IN_SIZE
    requires inm[IN_OPTIONS + 4..n] == EncodeOptions(os) + tail
    requires if tail == [] then os != [] else tail[0] == OPTION_END
    ensures fresh(pkt) && ReplyIs(pkt[..], len, inm[..], id, giaddr, os) && pkt[6] == 0 && pkt[7] == 0
  {
    pkt := new byte[OUT_SIZE](_ => 0);
    len := PutBody(inm, n, pkt, os, tail);
    var dst := if inm[10] >= 0x80 then [255, 255, 255, 255] else inm[16..20];
    ghost var body := pkt[28..len];
    PutHeaders(host, pkt, len, id, giaddr, dst);
    assert pkt[..][28..len] == body;
    assert pkt[..][12..16] == giaddr && pkt[..][16..20] == dst;
  }

  /** `write_to_serial` on an accepted packet whose identification is left alone. */
  method Forward(tx: SlipOut, pkt: array<byte>, len: nat) returns (o: Outcome)
    requires tx.Valid() && pkt != tx.slipBuf
    requires InBuffer(pkt[..], len) && Accepted(pkt[..], len) && pkt[6] == 0 && pkt[7] == 0
    modifies tx`slipEnd, tx`ipId, tx.slipBuf, pkt
    ensures tx.Valid() && tx.ipId == old(tx.ipId) && pkt[..] == old(pkt[..])
    ensures o == if old(tx.slipEnd) + |Encode(pkt[..len])| <= BUF_SIZE then Queued else Exit
    ensures o.Queued? ==> tx.Queue() == old(tx.Queue()) + Encode(pkt[..len])
  {
    assert !NeedsId(tx.host, pkt[..]);
    o := tx.WriteToSerial(pkt, len);
  }

  /** `relay_dhcp_to_client` for a message of `n` bytes whose options are the list `os`,
      ended by END or by the message itself: anything but a reply is ignored; a reply
      is queued (if it fits behind `slip_end`, as it always does in an empty queue) as
      a packet the check accepts, from the relay to the client or to everyone when
      the broadcast flag asks for it, whose options are read back as the filter of `os`. */
  method RelayToClient(tx: SlipOut, inm: array<byte>, n: nat, giaddr: seq<byte>,
                       ghost os: seq<Tagged>, ghost tail: seq<byte>)
    returns (o: Outcome, pkt: array<byte>, len: nat)
    requires tx.Valid() && inm != tx.slipBuf && inm.Length == IN_SIZE && |giaddr| == 4
    requires IN_OPTIONS + 4 <= n <= IN_SIZE
    requires inm[IN_OPTIONS + 4..n] == EncodeOptions(os) + tail
    requires if tail == [] then os != [] else tail[0] == OPTION_END
    modifies tx`slipEnd, tx`ipId, tx.slipBuf
    ensures tx.Valid() && fresh(pkt)
    ensures inm[0] != BOOTREPLY ==> tx.ipId == old(tx.ipId) && tx.Queue() == old(tx.Queue())
    ensures inm[0] == BOOTREPLY ==> tx.ipId == (old(tx.ipId) + 1) % 0x1_0000
    ensures inm[0] == BOOTREPLY ==> ReplyIs(pkt[..], len, inm[..], old(tx.ipId), giaddr, os) && !o.Dropped?
    ensures inm[0] == BOOTREPLY && o.Queued? ==> tx.Queue() == old(tx.Queue()) + Encode(pkt[..len])
    ensures inm[0] == BOOTREPLY && old(tx.slipEnd) == 0 ==> o == Queued
  {
    if inm[0] != BOOTREPLY {
      pkt := new byte[0];
      return Dropped(0), pkt, 0;
    }
    var id := tx.ipId;
    tx.ipId := (tx.ipId + 1) % 0x1_0000;
    pkt, len := BuildReply(tx.host, inm, n, id, giaddr, os, tail);
    ghost var b := pkt[..];
    assert pkt[..len] == b[..len];
    StuffLength(b[..len]);
    o := Forward(tx, pkt, len);
  }
}
