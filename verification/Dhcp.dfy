/** `relay_dhcp_to_client` of contiki-2.5/tools/tunslip.c: the DHCP reply is cut down
    to the options a small client wants and wrapped in a fresh IP/UDP packet. */
module Dhcp {
  import opened Bytes

  const SUBNET_MASK: byte := 1
  const ROUTER: byte := 3
  const DNS_SERVER: byte := 6
  const LEASE_TIME: byte := 51
  const MSG_TYPE: byte := 53
  const SERVER_ID: byte := 54
  const OPTION_END: byte := 255
  const PAD: byte := 0
  const BOOTREPLY: byte := 2

  // sizeof(struct dhcp_msg), the offset of its options, and the same in the reply
  const IN_SIZE: nat := 548
  const IN_OPTIONS: nat := 236
  const OUT_SIZE: nat := 384
  const OUT_OPTIONS: nat := 72

  /** A tagged option, section 2 of RFC 2132. */
  datatype DhcpOption = DhcpOption(code: byte, data: seq<byte>)

  /** Tags with a length byte; a DNS option holds at least one address. */
  predicate WellFormed(o: DhcpOption) {
    o.code != PAD && o.code != OPTION_END && |o.data| < 0x100 && (o.code == DNS_SERVER ==> |o.data| >= 4)
  }

  type Tagged = o: DhcpOption | WellFormed(o) witness DhcpOption(ROUTER, [])

  function EncodeOne(o: Tagged): seq<byte>
  {
    [o.code, |o.data|] + o.data
  }

  function EncodeOptions(os: seq<Tagged>): seq<byte>
  {
    if os == [] then [] else EncodeOne(os[0]) + EncodeOptions(os[1..])
  }

  datatype Parsed = Malformed | Options(options: seq<DhcpOption>)

  /** The bytes an option with length byte `len` takes. */
  function Span(len: byte): nat {
    2 + len
  }

  /** Reference parser of RFC 2132: pads are single bytes, END closes the list. */
  function Parse(s: seq<byte>): Parsed {
    if s == [] || s[0] == OPTION_END then Options([])
    else if s[0] == PAD then Parse(s[1..])
    else if |s| < 2 || |s| < Span(s[1]) then Malformed
    else
      match Parse(s[Span(s[1])..])
      case Malformed => Malformed
      case Options(rest) => Options([DhcpOption(s[0], s[2..Span(s[1])])] + rest)
  }

  /** The reference parser reads back what the encoder wrote, whatever follows END. */
  lemma {:induction false} ParseEncoded(os: seq<Tagged>, tail: seq<byte>)
    requires (tail == [] || tail[0] == OPTION_END)
    ensures Parse(EncodeOptions(os) + tail) == Options(os)
  {
    var s := EncodeOptions(os) + tail;
    if os != [] {
      var o := os[0];
      assert s[0..] == s;
      OptionAt(s, 0, os, tail);
      assert s[2..Span(s[1])] == s[0..Span(s[1])][2..] == o.data;
      assert s[Span(s[1])..] == EncodeOptions(os[1..]) + tail;
      ParseEncoded(os[1..], tail);
      assert Parse(s) == Options([DhcpOption(s[0], s[2..Span(s[1])])] + os[1..]);
      assert [o] + os[1..] == os;
    } else {
      assert s == tail;
    }
  }

  /** What the client is sent of one option: five kinds whole, the first DNS server,
      nothing else. */
  function Keep(o: Tagged): (r: seq<Tagged>)
  {
    if o.code in [MSG_TYPE, SUBNET_MASK, ROUTER, LEASE_TIME, SERVER_ID] then [o]
    else if o.code == DNS_SERVER then [DhcpOption(DNS_SERVER, o.data[..4])]
    else []
  }

  function Filter(os: seq<Tagged>): (r: seq<Tagged>)
  {
    if os == [] then [] else Keep(os[0]) + Filter(os[1..])
  }

  /** The option bytes sent to the client. */
  function Relayed(os: seq<Tagged>, ended: bool): seq<byte>
  {
    EncodeOptions(Filter(os)) + if ended then [OPTION_END] else []
  }

  // ---- What the filter is for

  /** Subnet mask, router, domain name server, lease time, message type, server identifier
      (sections 3.3, 3.5, 3.8, 9.2, 9.6 and 9.7 of RFC 2132). */
  predicate Wanted(code: byte) {
    code == 1 || code == 3 || code == 6 || code == 51 || code == 53 || code == 54
  }

  /** `r` is what a client is sent of `o`: the same, but only the first of several servers. */
  predicate SentAs(o: DhcpOption, r: DhcpOption) {
    r.code == o.code && if o.code == 6 then |o.data| >= 4 && r.data == o.data[..4] else r.data == o.data
  }

  /** Element `k` of `r` stems from place `at[k]`, behind the place of the element before. */
  predicate Picked(os: seq<DhcpOption>, r: seq<DhcpOption>, at: seq<nat>, k: nat)
    requires k < |at| == |r|
  {
    && at[k] < |os| && Wanted(os[at[k]].code) && SentAs(os[at[k]], r[k])
    && (k > 0 ==> at[k - 1] < at[k])
  }

  /** What is wanted has a place. */
  predicate Placed(os: seq<DhcpOption>, at: seq<nat>, i: nat)
    requires i < |os|
  {
    Wanted(os[i].code) ==> i in at
  }

  /** `r` is exactly the wanted part of `os`, in order. */
  predicate Picks(os: seq<DhcpOption>, r: seq<DhcpOption>, at: seq<nat>) {
    && |at| == |r|
    && (forall k | 0 <= k < |at| :: Picked(os, r, at, k))
    && forall i | 0 <= i < |os| :: Placed(os, at, i)
  }

  lemma PicksMore(os: seq<DhcpOption>, r: seq<DhcpOption>, at: seq<nat>, o: DhcpOption, x: DhcpOption)
    requires Picks(os, r, at) && Wanted(o.code) && SentAs(o, x)
    ensures Picks(os + [o], r + [x], at + [|os|])
  {
    forall k | 0 <= k <= |at|
      ensures Picked(os + [o], r + [x], at + [|os|], k)
    {
      if k < |at| {
        assert Picked(os, r, at, k);
      } else if k > 0 {
        assert Picked(os, r, at, k - 1);
      }
    }
    PlacedMore(os, at, o, at + [|os|]);
  }

  lemma PicksSkip(os: seq<DhcpOption>, r: seq<DhcpOption>, at: seq<nat>, o: DhcpOption)
    requires Picks(os, r, at) && !Wanted(o.code)
    ensures Picks(os + [o], r, at)
  {
    forall k | 0 <= k < |at|
      ensures Picked(os + [o], r, at, k)
    {
      assert Picked(os, r, at, k);
    }
    PlacedMore(os, at, o, at);
  }

  lemma PlacedMore(os: seq<DhcpOption>, at: seq<nat>, o: DhcpOption, more: seq<nat>)
    requires forall i | 0 <= i < |os| :: Placed(os, at, i)
    requires forall i | i in at :: i in more
    requires Wanted(o.code) ==> |os| in more
    ensures forall i | 0 <= i <= |os| :: Placed(os + [o], more, i)
  {
    forall i | 0 <= i <= |os|
      ensures Placed(os + [o], more, i)
    {
      if i < |os| {
        assert Placed(os, at, i);
      }
    }
  }

  lemma {:induction false} FilterSnoc(os: seq<Tagged>, o: Tagged)
    ensures Filter(os + [o]) == Filter(os) + Keep(o)
  {
    if os == [] {
      assert [] + [o] == [o] && [o][1..] == [];
      assert Filter([o]) == Keep(o) + [];
    } else {
      assert (os + [o])[1..] == os[1..] + [o];
      FilterSnoc(os[1..], o);
      assert Keep(os[0]) + (Filter(os[1..]) + Keep(o)) == Keep(os[0]) + Filter(os[1..]) + Keep(o);
    }
  }

  lemma {:induction false} FilterPicks(os: seq<Tagged>) returns (at: seq<nat>)
    ensures Picks(os, Filter(os), at)
  {
    if os == [] {
      at := [];
    } else {
      var front, o := os[..|os| - 1], os[|os| - 1];
      at := FilterPicks(front);
      FilterSnoc(front, o);
      assert os == front + [o];
      at := PicksNext(front, at, o);
    }
  }

  lemma PicksNext(front: seq<Tagged>, at: seq<nat>, o: Tagged) returns (more: seq<nat>)
    requires Picks(front, Filter(front), at)
    ensures Picks(front + [o], Filter(front) + Keep(o), more)
  {
    if Wanted(o.code) {
      more := at + [|front|];
      assert Keep(o) == [Keep(o)[0]] && SentAs(o, Keep(o)[0]);
      PicksMore(front, Filter(front), at, o, Keep(o)[0]);
    } else {
      more := at;
      PicksSkip(front, Filter(front), at, o);
      assert Filter(front) + [] == Filter(front);
    }
  }

  /** Such places exist. */
  ghost predicate WantedOf(os: seq<DhcpOption>, r: seq<DhcpOption>) {
    exists at: seq<nat> :: Picks(os, r, at)
  }

  /** The options a client reads from the relayed bytes are, in order, exactly those of the
      server that it needs, the servers cut to the first. */
  lemma RelayedWanted(os: seq<Tagged>, ended: bool)
    ensures var p := Parse(Relayed(os, ended)); p.Options? && WantedOf(os, p.options)
  {
    ParseEncoded(Filter(os), if ended then [OPTION_END] else []);
    var at := FilterPicks(os);
  }

  /** So a reply with a server identifier is relayed with it, and what is relayed as one
      was one. */
  lemma ServerIdRelayed(os: seq<Tagged>, ended: bool, o: Tagged)
    requires o.code == 54
    ensures Parse(Relayed(os, ended)).Options?
    ensures o in os <==> o in Parse(Relayed(os, ended)).options
  {
    RelayedWanted(os, ended);
    WantedKept(os, Parse(Relayed(os, ended)).options, o);
  }

  lemma WantedKept(os: seq<DhcpOption>, r: seq<DhcpOption>, o: DhcpOption)
    requires WantedOf(os, r) && Wanted(o.code) && o.code != 6
    ensures o in os <==> o in r
  {
    var at: seq<nat> :| Picks(os, r, at);
    if o in os {
      var i :| 0 <= i < |os| && os[i] == o;
      assert Placed(os, at, i);
      var k :| 0 <= k < |at| && at[k] == i;
      assert Picked(os, r, at, k) && r[k] == o;
    }
    if o in r {
      var k :| 0 <= k < |r| && r[k] == o;
      assert Picked(os, r, at, k) && os[at[k]] == o;
    }
  }

  /** An offer as it comes from a server: a pad, the message type, the server identifier, END. */
  lemma OfferBytes(tail: seq<byte>)
    ensures Parse([0, 53, 1, 2, 54, 4, 192, 168, 1, 1, 255] + tail) ==
            Options([DhcpOption(53, [2]), DhcpOption(54, [192, 168, 1, 1])])
  {
    var s := [0, 53, 1, 2, 54, 4, 192, 168, 1, 1, 255] + tail;
    var a, b := s[1..], s[1..][3..];
    var c := b[6..];
    assert a[0] == 53 && a[1] == 1 && a[2..3] == [2] && b[0] == 54 && b[1] == 4 && b[2..6] == [192, 168, 1, 1];
    assert c[0] == 255;
    assert Parse(c) == Options([]) && Parse(b) == Options([DhcpOption(54, [192, 168, 1, 1])]);
  }

  lemma {:induction false} EncodeConcat(a: seq<Tagged>, b: seq<Tagged>)
    ensures EncodeOptions(a + b) == EncodeOptions(a) + EncodeOptions(b)
  {
    if a == [] {
      assert a + b == b;
    } else {
      assert (a + b)[1..] == a[1..] + b;
      EncodeConcat(a[1..], b);
    }
  }

  /** memcpy between the two messages. */
  method Copy(src: array<byte>, p: nat, dst: array<byte>, t: nat, n: nat)
    requires src != dst && p + n <= src.Length && t + n <= dst.Length
    modifies dst
    ensures dst[t..t + n] == src[p..p + n]
    ensures dst[..t] == old(dst[..t]) && dst[t + n..] == old(dst[t + n..])
  {
    for i := 0 to n
      invariant dst[t..t + i] == src[p..p + i]
      invariant dst[..t] == old(dst[..t]) && dst[t + n..] == old(dst[t + n..])
    {
      dst[t + i] := src[p + i];
    }
  }

  /** The copying of one option, by its code: `t` bytes are filled so far. */
  method CopyOption(inm: array<byte>, p: nat, pkt: array<byte>, t: nat, ghost o: Tagged) returns (t': nat)
    requires inm != pkt
    requires p + 2 + |o.data| <= inm.Length && inm[p..p + 2 + |o.data|] == EncodeOne(o)
    requires t + 2 + |o.data| <= pkt.Length
    modifies pkt
    ensures t <= t' <= t + 2 + |o.data|
    ensures pkt[..t'] == old(pkt[..t]) + EncodeOptions(Keep(o))
  {
    assert inm[p] == EncodeOne(o)[0] && inm[p + 1] == EncodeOne(o)[1];
    assert o.data == EncodeOne(o)[2..];
    t' := t;
    var op, len := inm[p], inm[p + 1];
    if op in [MSG_TYPE, SUBNET_MASK, ROUTER, LEASE_TIME, SERVER_ID] {
      assert Span(len) == 2 + |o.data|;
      CopyWhole(inm, p, pkt, t, Span(len));
      t' := t + Span(len);
      EncodeSingle(o);
      assert Keep(o) == [o];
    } else if op == DNS_SERVER {
      Inner(inm[..], p, EncodeOne(o), o.data);
      CutServer(inm, p + 2, pkt, t, o.data[..4]);
      t' := t + 6;
    } else {
      assert Keep(o) == [] && EncodeOptions([]) == [] && pkt[..t] + [] == pkt[..t];
    }
  }

  method CopyWhole(inm: array<byte>, p: nat, pkt: array<byte>, t: nat, n: nat)
    requires inm != pkt && p + n <= inm.Length && t + n <= pkt.Length
    modifies pkt
    ensures pkt[..t + n] == old(pkt[..t]) + inm[p..p + n]
  {
    Copy(inm, p, pkt, t, n);
    assert pkt[..t + n] == pkt[..t] + pkt[t..t + n];
  }

  /** The DNS servers cut to the first one. */
  method CutServer(inm: array<byte>, p: nat, pkt: array<byte>, t: nat, ghost server: seq<byte>)
    requires inm != pkt && p + 4 <= inm.Length && t + 6 <= pkt.Length && server == inm[p..p + 4]
    modifies pkt
    ensures pkt[..t + 6] == old(pkt[..t]) + EncodeOptions([DhcpOption(DNS_SERVER, server)])
  {
    pkt[t], pkt[t + 1] := DNS_SERVER, 4;
    assert pkt[..t + 2] == old(pkt[..t]) + [DNS_SERVER, 4];
    Copy(inm, p, pkt, t + 2, 4);
    EncodeSingle(DhcpOption(DNS_SERVER, server));
    assert EncodeOne(DhcpOption(DNS_SERVER, server)) == [DNS_SERVER, 4] + server;
  }

  lemma EncodeSingle(o: Tagged)
    ensures EncodeOptions([o]) == EncodeOne(o)
  {
    assert [o][1..] == [];
  }

  lemma RelayedStep(os: seq<Tagged>, ended: bool)
    requires os != []
    ensures Relayed(os, ended) == EncodeOptions(Keep(os[0])) + Relayed(os[1..], ended)
  {
    EncodeConcat(Keep(os[0]), Filter(os[1..]));
  }

  /** The data of an option behind its two tag bytes. */
  lemma Inner(s: seq<byte>, p: nat, e: seq<byte>, data: seq<byte>)
    requires p + |e| <= |s| && s[p..p + |e|] == e && |data| >= 4 && |e| == 2 + |data| && e[2..] == data
    ensures s[p + 2..p + 6] == data[..4]
  {
    forall i | 0 <= i < 4
      ensures s[p + 2..p + 6][i] == data[i]
    {
      assert s[p..p + |e|][2 + i] == e[2 + i] == e[2..][i];
    }
  }

  lemma SliceOf(s: seq<byte>, n: nat, m: seq<byte>, x: nat, y: nat)
    requires n <= |s| && s[..n] == m && x <= y <= n
    ensures s[x..y] == m[x..y]
  {
  }

  /** One turn of the option loop on an option that is not END. */
  method RelayOne(inm: array<byte>, n: nat, p: nat, pkt: array<byte>, t: nat,
                  ghost m: seq<byte>, ghost rest: seq<Tagged>, ghost tail: seq<byte>)
    returns (p': nat, t': nat)
    requires inm != pkt && p < n <= inm.Length && inm[..n] == m && t + (n - p) <= pkt.Length
    requires rest != [] && m[p..] == EncodeOptions(rest) + tail
    modifies pkt
    ensures p < p' <= n && m[p'..] == EncodeOptions(rest[1..]) + tail
    ensures t <= t' <= t + (p' - p)
    ensures pkt[..t'] == old(pkt[..t]) + EncodeOptions(Keep(rest[0]))
  {
    OptionAt(m, p, rest, tail);
    SliceOf(inm[..], n, m, p, p + 2 + |rest[0].data|);
    assert inm[..][p..p + 2 + |rest[0].data|] == inm[p..p + 2 + |rest[0].data|];
    var len := inm[p + 1];
    assert inm[..n][p + 1] == m[p + 1];
    t' := CopyOption(inm, p, pkt, t, rest[0]);
    p' := p + Span(len);
  }

  /** The option loop: for every well-formed list without pads, ended by END or by
      the end of the message, the bytes written are the encoded filter. */
  method RelayOptions(inm: array<byte>, n: nat, pkt: array<byte>, ghost os: seq<Tagged>, ghost tail: seq<byte>)
    returns (t: nat)
    requires inm != pkt && inm.Length == IN_SIZE && pkt.Length == OUT_SIZE
    requires IN_OPTIONS + 4 <= n <= IN_SIZE
    requires inm[IN_OPTIONS + 4..n] == EncodeOptions(os) + tail
    requires if tail == [] then os != [] else tail[0] == OPTION_END
    modifies pkt
    ensures OUT_OPTIONS + 4 <= t <= OUT_SIZE
    ensures pkt[..t] == old(pkt[..OUT_OPTIONS + 4]) + Relayed(os, tail != [])
  {
    ghost var m, head := inm[..n], pkt[..OUT_OPTIONS + 4];
    assert m[IN_OPTIONS + 4..] == inm[IN_OPTIONS + 4..n];
    var p, op := IN_OPTIONS + 4, PAD;
    t := OUT_OPTIONS + 4;
    ghost var rest, ended := os, tail != [];
    while p < n
      invariant IN_OPTIONS + 4 <= p <= n && OUT_OPTIONS + 4 <= t <= p - IN_OPTIONS + OUT_OPTIONS
      invariant inm[..n] == m && op != OPTION_END
      invariant m[p..] == EncodeOptions(rest) + tail
      invariant pkt[..t] + Relayed(rest, ended) == head + Relayed(os, ended)
      decreases n - p
    {
      op := inm[p];
      if op == OPTION_END {
        break;
      }
      NotEnd(m, p, rest, tail);
      ghost var before := pkt[..t];
      p, t := RelayOne(inm, n, p, pkt, t, m, rest, tail);
      RelayedStep(rest, ended);
      Regroup(before, EncodeOptions(Keep(rest[0])), Relayed(rest[1..], ended));
      rest := rest[1..];
    }
    NoneLeft(m, p, rest, tail);
    if op == OPTION_END {
      pkt[t] := op;
      t := t + 1;
    }
  }

  /** Where an option list starts, its first option lies, and the rest behind it. */
  lemma OptionAt(m: seq<byte>, p: nat, os: seq<Tagged>, tail: seq<byte>)
    requires p <= |m| && os != [] && m[p..] == EncodeOptions(os) + tail
    ensures p + 2 + |os[0].data| <= |m|
    ensures m[p] == os[0].code && m[p + 1] == |os[0].data|
    ensures m[p..p + 2 + |os[0].data|] == EncodeOne(os[0])
    ensures m[p + 2 + |os[0].data|..] == EncodeOptions(os[1..]) + tail
  {
    var e, r := EncodeOne(os[0]), EncodeOptions(os[1..]) + tail;
    assert EncodeOptions(os) + tail == e + r;
    SplitAt(m, p, e, r);
    assert m[p + 0] == e[0] && m[p + 1] == e[1];
  }

  /** Where END or the end of the message stands, no option is left. */
  lemma NoneLeft(m: seq<byte>, p: nat, os: seq<Tagged>, tail: seq<byte>)
    requires p <= |m| && m[p..] == EncodeOptions(os) + tail
    requires p < |m| ==> m[p] == OPTION_END
    ensures os == [] && (tail == [] <==> p == |m|)
  {
    if os != [] {
      OptionAt(m, p, os, tail);
    }
  }

  lemma NotEnd(m: seq<byte>, p: nat, os: seq<Tagged>, tail: seq<byte>)
    requires p < |m| && m[p..] == EncodeOptions(os) + tail && (tail != [] ==> tail[0] == OPTION_END)
    requires m[p] != OPTION_END
    ensures os != []
  {
    assert m[p] == m[p..][0];
  }
}
