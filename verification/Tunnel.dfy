/** The whole way of a packet through contiki-2.5/tools/tunslip.c: first check, renumbering
    and second check, escaping and queueing, partial writes and reads, and the check at the
    far end. */
module Tunnel {
  import opened Bytes
  import opened CheckIp
  import opened Rewrite
  import opened Slip
  import opened TunSlip

  /** What happens at the near end: `tun_to_serial` hands over a packet, the first `len`
      bytes of its buffer; write(2) takes bytes of the queue; the far end reads bytes. */
  datatype Offer = Packet(b: seq<byte>, len: nat) | Flushes(n: nat) | Reads(n: nat)

  type offer = o: Offer | o.Packet? ==> o.len > 0 && InBuffer(o.b, o.len) witness Flushes(0)

  /** The packet gets past both checks. */
  ghost predicate Passes(host: ByteOrder, b: seq<byte>, len: nat, id: u16)
    requires InBuffer(b, len)
  {
    Accepted(b, len) && Accepted(Outgoing(host, b, len, id), len)
  }

  ghost function NextId(host: ByteOrder, id: u16, o: offer): u16 {
    if o.Packet? then IdAfter(host, o.b, o.len, id) else id
  }

  /** `ip_id` after the offers. */
  ghost function LastId(host: ByteOrder, id: u16, os: seq<offer>): u16 {
    if os == [] then id else NextId(host, LastId(host, id, os[..|os| - 1]), os[|os| - 1])
  }

  /** What an offer leaves for the link: the packet as it goes out, if it passes. */
  ghost function LinkEvents(host: ByteOrder, id: u16, o: offer): (es: seq<Event>)
    ensures |es| <= 1
  {
    match o
    case Packet(b, len) => if Passes(host, b, len, id) then [Queue(Outgoing(host, b, len, id)[..len])] else []
    case Flushes(n) => [Flush(n)]
    case Reads(n) => [Read(n)]
  }

  ghost function EventsOf(host: ByteOrder, id: u16, os: seq<offer>): seq<Event> {
    if os == [] then []
    else
      var front := os[..|os| - 1];
      EventsOf(host, id, front) + LinkEvents(host, LastId(host, id, front), os[|os| - 1])
  }

  /** The packets that pass, as they go out, in order. */
  ghost function Departed(host: ByteOrder, id: u16, os: seq<offer>): seq<seq<byte>> {
    if os == [] then []
    else
      var front, o := os[..|os| - 1], os[|os| - 1];
      var at := LastId(host, id, front);
      Departed(host, id, front)
      + if o.Packet? && Passes(host, o.b, o.len, at) then [Outgoing(host, o.b, o.len, at)[..o.len]] else []
  }

  // ---- Which packets pass

  /** A packet that the first check accepts passes if and only if it keeps its number or
      survives the rewrite; with a header of 12 bytes or more it does. */
  lemma PassesExactly(host: ByteOrder, b: seq<byte>, len: nat, id: u16)
    requires InBuffer(b, len) && Accepted(b, len)
    ensures Passes(host, b, len, id) <==> !NeedsId(host, b) || Survives(host, b, len, Swap(host, id))
    ensures HeaderLength(b) >= 12 ==> Passes(host, b, len, id)
  {
    if NeedsId(host, b) {
      RewriteVerdict(host, b, len, Swap(host, id));
    }
  }

  // ---- The numbers

  /** The packet takes a number. */
  ghost predicate Numbered(host: ByteOrder, o: offer) {
    o.Packet? && Accepted(o.b, o.len) && NeedsId(host, o.b)
  }

  ghost function Taken(host: ByteOrder, os: seq<offer>): nat {
    if os == [] then 0 else Taken(host, os[..|os| - 1]) + if Numbered(host, os[|os| - 1]) then 1 else 0
  }

  lemma {:induction false} LastIdIs(host: ByteOrder, id: u16, os: seq<offer>)
    ensures LastId(host, id, os) == (id + Taken(host, os)) % 0x1_0000
  {
    if os != [] {
      var front := os[..|os| - 1];
      LastIdIs(host, id, front);
      OneOn(id + Taken(host, front));
    }
  }

  lemma OneOn(n: nat)
    ensures (n % 0x1_0000 + 1) % 0x1_0000 == (n + 1) % 0x1_0000
  {
    assert n + 1 == 0x1_0000 * (n / 0x1_0000) + (n % 0x1_0000 + 1);
  }

  lemma {:induction false} TakenGrows(host: ByteOrder, os: seq<offer>, i: nat, j: nat)
    requires i < j <= |os| && Numbered(host, os[i])
    ensures Taken(host, os[..j]) > Taken(host, os[..i])
    decreases j
  {
    assert os[..j][..j - 1] == os[..j - 1];
    if i < j - 1 {
      TakenGrows(host, os, i, j - 1);
    }
  }

  /** The identification, in bytes 4 and 5, with which offer `i` goes out. */
  ghost function NumberAt(host: ByteOrder, id: u16, os: seq<offer>, i: nat): (byte, byte)
    requires i < |os| && Numbered(host, os[i])
  {
    var r := Outgoing(host, os[i].b, os[i].len, LastId(host, id, os[..i]));
    (r[4], r[5])
  }

  /** The low 16 bits of a count in network order. */
  function Word(k: nat): (byte, byte) {
    (k / 0x100 % 0x100, k % 0x100)
  }

  /** It is the counter in network order. */
  lemma NumberIs(host: ByteOrder, id: u16, os: seq<offer>, i: nat, k: nat)
    requires i < |os| && Numbered(host, os[i]) && k == id + Taken(host, os[..i])
    ensures NumberAt(host, id, os, i) == Word(k)
  {
    LastIdIs(host, id, os[..i]);
    NumberBytes(host, os[i].b, os[i].len, LastId(host, id, os[..i]));
    WordOf(k);
  }

  lemma WordOf(k: nat)
    ensures var a := k % 0x1_0000; Word(k) == (a / 0x100, a % 0x100)
  {
    var q, r, s := k / 0x1_0000, k % 0x1_0000 / 0x100, k % 0x1_0000 % 0x100;
    assert k == 0x100 * (0x100 * q + r) + s;
    assert k / 0x100 == 0x100 * q + r;
  }

  lemma NumberBytes(host: ByteOrder, b: seq<byte>, len: nat, id: u16)
    requires InBuffer(b, len) && Accepted(b, len) && NeedsId(host, b)
    ensures var r := Outgoing(host, b, len, id); r[4] == id / 0x100 && r[5] == id % 0x100
  {
  }

  /** Two packets that take a number get different ones, unless a multiple of 65536 were
      taken from the first to before the second. */
  lemma NumbersDiffer(host: ByteOrder, id: u16, os: seq<offer>, i: nat, j: nat)
    requires i < j < |os| && Numbered(host, os[i]) && Numbered(host, os[j])
    ensures var n := Taken(host, os[..j]) - Taken(host, os[..i]);
            n > 0 && (NumberAt(host, id, os, i) == NumberAt(host, id, os, j) <==> n % 0x1_0000 == 0)
  {
    var t, u := Taken(host, os[..i]), Taken(host, os[..j]);
    TakenGrows(host, os, i, j);
    var a, b := id + t, id + u;
    NumberIs(host, id, os, i, a);
    NumberIs(host, id, os, j, b);
    Around(NumberAt(host, id, os, i), NumberAt(host, id, os, j), a, b, u - t);
  }

  lemma Around(x: (byte, byte), y: (byte, byte), a: nat, b: nat, n: nat)
    requires x == Word(a) && y == Word(b) && b == a + n
    ensures x == y <==> n % 0x1_0000 == 0
  {
    WordOf(a);
    WordOf(b);
    BytesOf(a % 0x1_0000, b % 0x1_0000);
    Apart(a, n);
  }

  lemma Apart(a: nat, n: nat)
    ensures a % 0x1_0000 == (a + n) % 0x1_0000 <==> n % 0x1_0000 == 0
  {
    var q, r, u, v := a / 0x1_0000, a % 0x1_0000, n / 0x1_0000, n % 0x1_0000;
    assert a + n == 0x1_0000 * (q + u) + (r + v);
  }

  lemma BytesOf(a: u16, b: u16)
    ensures (a / 0x100, a % 0x100) == (b / 0x100, b % 0x100) <==> a == b
  {
    assert a == 0x100 * (a / 0x100) + a % 0x100 && b == 0x100 * (b / 0x100) + b % 0x100;
  }

  // ---- The far end

  /** Any buffer that starts with the packet is accepted by the check at that length. */
  ghost predicate Welcome(f: seq<byte>)
    requires |f| >= 28
  {
    forall c: seq<byte> :: f <= c ==> AcceptedThere(c, |f|)
  }

  ghost predicate AcceptedThere(c: seq<byte>, len: nat) {
    InBuffer(c, len) && Accepted(c, len)
  }

  /** A packet long enough for the check to look at nothing behind it. */
  predicate Whole(f: seq<byte>) {
    |f| >= 28 && HeaderLength(f) <= |f|
  }

  lemma OutgoingWelcome(out: seq<byte>, len: nat)
    requires InBuffer(out, len) && Accepted(out, len) && Whole(out[..len])
    ensures Welcome(out[..len])
  {
    var f := out[..len];
    AcceptedHeader(out, len);
    forall c: seq<byte> | f <= c
      ensures AcceptedThere(c, len)
    {
      assert c[..len] == f;
      VerdictOfFrame(out, c, len);
    }
  }

  /** Everything that departs is welcome. */
  lemma {:induction false} DepartedWelcome(host: ByteOrder, id: u16, os: seq<offer>, i: nat)
    requires i < |Departed(host, id, os)| && Whole(Departed(host, id, os)[i])
    ensures Welcome(Departed(host, id, os)[i])
  {
    var front, o := os[..|os| - 1], os[|os| - 1];
    var before := Departed(host, id, front);
    if i < |before| {
      assert Departed(host, id, os)[i] == before[i];
      DepartedWelcome(host, id, front, i);
    } else {
      OutgoingWelcome(Outgoing(host, o.b, o.len, LastId(host, id, front)), o.len);
    }
  }

  // ---- The link over the offers

  lemma {:induction false} EventsCarry(host: ByteOrder, id: u16, os: seq<offer>)
    ensures PacketsOf(EventsOf(host, id, os)) == Departed(host, id, os)
    ensures NoneEmpty(EventsOf(host, id, os))
  {
    if os != [] {
      var front, o := os[..|os| - 1], os[|os| - 1];
      var at := LastId(host, id, front);
      EventsCarry(host, id, front);
      LinkEventsCarry(host, at, o);
      PacketsMore(EventsOf(host, id, front), LinkEvents(host, at, o));
    }
  }

  lemma LinkEventsCarry(host: ByteOrder, id: u16, o: offer)
    ensures NoneEmpty(LinkEvents(host, id, o))
    ensures PacketsOf(LinkEvents(host, id, o)) ==
            if o.Packet? && Passes(host, o.b, o.len, id) then [Outgoing(host, o.b, o.len, id)[..o.len]] else []
  {
    var es := LinkEvents(host, id, o);
    if es != [] {
      assert es[..0] == [];
    }
  }

  lemma PacketsMore(es: seq<Event>, more: seq<Event>)
    requires |more| <= 1
    ensures PacketsOf(es + more) == PacketsOf(es) + PacketsOf(more)
    ensures NoneEmpty(es) && NoneEmpty(more) ==> NoneEmpty(es + more)
  {
    if more == [] {
      assert es + more == es;
    } else {
      assert (es + more)[..|es|] == es && more[..0] == [];
    }
  }

  /** The link after at most one more event. */
  function LiveMore(s: Live, more: seq<Event>): Live
    requires |more| <= 1
  {
    if more == [] then s else LiveStep(s, more[0])
  }

  lemma LiveOneMore(es: seq<Event>, more: seq<Event>)
    requires |more| <= 1
    ensures LiveRun(es + more) == LiveMore(LiveRun(es), more)
  {
    if more == [] {
      assert es + more == es;
    } else {
      assert (es + more)[..|es|] == es;
    }
  }

  lemma EventsNext(host: ByteOrder, id: u16, os: seq<offer>, i: nat)
    requires i < |os|
    ensures var at := LastId(host, id, os[..i]);
            && LastId(host, id, os[..i + 1]) == NextId(host, at, os[i])
            && LiveRun(EventsOf(host, id, os[..i + 1])) ==
               LiveMore(LiveRun(EventsOf(host, id, os[..i])), LinkEvents(host, at, os[i]))
            && EventsOf(host, id, os[..i]) <= EventsOf(host, id, os[..i + 1])
  {
    assert os[..i + 1][..i] == os[..i];
    LiveOneMore(EventsOf(host, id, os[..i]), LinkEvents(host, LastId(host, id, os[..i]), os[i]));
  }

  /** A run that has exited stays exited. */
  lemma {:induction false} ExitedStays(host: ByteOrder, id: u16, os: seq<offer>, i: nat)
    requires i <= |os| && LiveRun(EventsOf(host, id, os[..i])).Exited?
    ensures LiveRun(EventsOf(host, id, os)).Exited?
    decreases |os| - i
  {
    if i < |os| {
      EventsNext(host, id, os, i);
      ExitedStays(host, id, os, i + 1);
    } else {
      assert os[..i] == os;
    }
  }

  // ---- The live ends

  /** The two live ends are in state `s` of the link, `read` bytes of the wire consumed. */
  ghost predicate Joined(tx: SlipOut, rx: SerialIn, read: nat, s: Live)
    reads tx, tx.slipBuf, rx, rx.inbuf
  {
    && s.Running? && tx.Valid() && rx.Valid() && tx.slipBuf != rx.inbuf && read <= |tx.wire|
    && s.l.queue == tx.Queue() && s.l.wire == Rest(tx.wire, read) && s.l.rx == rx.State() && s.end == tx.slipEnd
  }

  method CarryPacket(tx: SlipOut, rx: SerialIn, read: nat, ghost s: Live, b: seq<byte>, len: nat)
    returns (exited: bool)
    requires Joined(tx, rx, read, s) && len > 0 && InBuffer(b, len)
    modifies tx, tx.slipBuf
    ensures tx.ipId == NextId(tx.host, old(tx.ipId), Packet(b, len))
    ensures var next := LiveMore(s, LinkEvents(tx.host, old(tx.ipId), Packet(b, len)));
            exited == next.Exited? && (!exited ==> Joined(tx, rx, read, next))
  {
    var buf := new byte[|b|](j requires 0 <= j < |b| => b[j]);
    assert buf[..] == b;
    var o := tx.WriteToSerial(buf, len);
    exited := o.Exit?;
  }

  method CarryFlush(tx: SlipOut, rx: SerialIn, read: nat, ghost s: Live, n: nat)
    requires Joined(tx, rx, read, s)
    modifies tx`slipBegin, tx`slipEnd, tx`wire
    ensures Joined(tx, rx, read, LiveStep(s, Event.Flush(n)))
  {
    var k := if n <= tx.slipEnd - tx.slipBegin then n else tx.slipEnd - tx.slipBegin;
    ghost var wire, queue := tx.wire, tx.Queue();
    tx.Flush(k);
    WireGrows(wire, queue[..k], read);
  }

  lemma WireGrows(wire: seq<byte>, more: seq<byte>, read: nat)
    requires read <= |wire|
    ensures Rest(wire + more, read) == Rest(wire, read) + more
  {
  }

  method CarryRead(tx: SlipOut, rx: SerialIn, read0: nat, ghost s: Live, n: nat,
      skipTest: bool) returns (read: nat)
    requires Joined(tx, rx, read0, s)
    modifies rx, rx.inbuf
    ensures Joined(tx, rx, read, LiveStep(s, Event.Read(n)))
  {
    var k := if n <= |tx.wire| - read0 then n else |tx.wire| - read0;
    read := read0 + k;
    RestOfRest(tx.wire, read0, k);
    rx.SerialToTun(Rest(tx.wire, read0)[..k], skipTest);
  }

  lemma RestOfRest(w: seq<byte>, r: nat, k: nat)
    requires r + k <= |w|
    ensures Rest(Rest(w, r), k) == Rest(w, r + k)
  {
  }

  method CarryStep(tx: SlipOut, rx: SerialIn, o: offer, skipTest: bool, read0: nat, ghost s: Live)
    returns (read: nat, exited: bool)
    requires Joined(tx, rx, read0, s)
    modifies tx, tx.slipBuf, rx, rx.inbuf
    ensures tx.ipId == NextId(tx.host, old(tx.ipId), o)
    ensures var next := LiveMore(s, LinkEvents(tx.host, old(tx.ipId), o));
            exited == next.Exited? && (!exited ==> Joined(tx, rx, read, next))
  {
    read, exited := read0, false;
    match o {
      case Packet(b, len) =>
        exited := CarryPacket(tx, rx, read, s, b, len);
      case Flushes(n) =>
        CarryFlush(tx, rx, read, s, n);
      case Reads(n) =>
        read := CarryRead(tx, rx, read, s, n, skipTest);
    }
  }

  /** End to end over any offers. The program exits exactly if some packet that passes does
      not fit behind `slip_end`, never if packets come one at a time. Otherwise the ends are
      in the state of the link over what the offers leave for it: the frames received are a
      prefix of the packets that pass, each as it goes out, and exactly those once nothing
      is under way; and the check at the far end accepts every whole packet among them. */
  method Carry(tx: SlipOut, rx: SerialIn, os: seq<offer>, skipTest: bool) returns (read: nat, exited: bool)
    requires tx.Valid() && tx.Queue() == [END] && tx.wire == [] && tx.slipEnd == 1
    requires rx.Valid() && rx.State() == Rx([], false, []) && tx.slipBuf != rx.inbuf
    modifies tx, tx.slipBuf, rx, rx.inbuf
    ensures var es := EventsOf(tx.host, old(tx.ipId), os);
            exited <==> exists i :: 0 <= i < |es| && Overflows(es, i)
    ensures OneAtATime(EventsOf(tx.host, old(tx.ipId), os)) ==> !exited
    ensures !exited ==> Joined(tx, rx, read, LiveRun(EventsOf(tx.host, old(tx.ipId), os)))
    ensures !exited ==> tx.ipId == LastId(tx.host, old(tx.ipId), os)
    ensures !exited ==> rx.frames <= Departed(tx.host, old(tx.ipId), os)
    ensures !exited && tx.Queue() == [] && read == |tx.wire|
            ==> rx.State() == Rx([], false, Departed(tx.host, old(tx.ipId), os))
    ensures !exited ==> forall i :: 0 <= i < |rx.frames| && Whole(rx.frames[i]) ==> Welcome(rx.frames[i])
  {
    read, exited := 0, false;
    ghost var host, id := tx.host, tx.ipId;
    for i := 0 to |os|
      invariant !exited && Joined(tx, rx, read, LiveRun(EventsOf(host, id, os[..i])))
      invariant tx.ipId == LastId(host, id, os[..i])
    {
      EventsNext(host, id, os, i);
      read, exited := CarryStep(tx, rx, os[i], skipTest, read, LiveRun(EventsOf(host, id, os[..i])));
      if exited {
        ExitedStays(host, id, os, i + 1);
        CarryEnds(host, id, os);
        return;
      }
    }
    assert os[..|os|] == os;
    CarryEnds(host, id, os);
    FramesWelcome(host, id, os, rx.frames);
  }

  lemma CarryEnds(host: ByteOrder, id: u16, os: seq<offer>)
    ensures var es, s := EventsOf(host, id, os), LiveRun(EventsOf(host, id, os));
            && (s.Exited? <==> exists i :: 0 <= i < |es| && Overflows(es, i))
            && (OneAtATime(es) ==> s.Running?)
            && (s.Running? ==> s.l.rx.frames <= Departed(host, id, os))
            && (s.Running? && s.l.wire == [] && s.l.queue == [] ==> s.l.rx == Rx([], false, Departed(host, id, os)))
  {
    var es := EventsOf(host, id, os);
    EventsCarry(host, id, os);
    ExitsExactly(es);
    if OneAtATime(es) {
      NeverExits(es);
    }
    if LiveRun(es).Running? {
      LiveDelivers(es);
    }
  }

  lemma FramesWelcome(host: ByteOrder, id: u16, os: seq<offer>, frames: seq<seq<byte>>)
    requires frames <= Departed(host, id, os)
    ensures forall i :: 0 <= i < |frames| && Whole(frames[i]) ==> Welcome(frames[i])
  {
    forall i | 0 <= i < |frames| && Whole(frames[i])
      ensures Welcome(frames[i])
    {
      DepartedWelcome(host, id, os, i);
    }
  }
}
