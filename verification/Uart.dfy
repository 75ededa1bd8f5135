/** Equinox/comm.c: the interrupt-driven transmit ring. */
module Uart {
  import opened Bytes

  const RING: nat := 1024

  /** `__BUF_INCR`, `__BUF_IS_FULL`, `__BUF_IS_EMPTY` on indices below the ring size. */
  function Next(i: nat): nat {
    (i + 1) % RING
  }

  predicate Full(head: nat, tail: nat) {
    tail % RING == (head + 1) % RING
  }

  predicate Empty(head: nat, tail: nat) {
    head % RING == tail % RING
  }

  /** The bytes between tail and head, round the corner. */
  function Between(buf: seq<byte>, tail: nat, head: nat): seq<byte>
    requires |buf| == RING && tail < RING && head < RING
  {
    if tail <= head then buf[tail..head] else buf[tail..] + buf[..head]
  }

  /** On indices of the ring the remainders are plain comparisons. */
  lemma Plain(head: nat, tail: nat)
    requires head < RING && tail < RING
    ensures Next(head) == if head + 1 < RING then head + 1 else 0
    ensures Next(tail) == if tail + 1 < RING then tail + 1 else 0
    ensures (Empty(head, tail) <==> head == tail) && (Full(head, tail) <==> tail == Next(head))
  {
  }

  lemma PutAtHead(buf: seq<byte>, tail: nat, head: nat, c: byte)
    requires |buf| == RING && tail < RING && head < RING && !Full(head, tail)
    ensures Between(buf[head := c], tail, Next(head)) == Between(buf, tail, head) + [c]
    ensures |Between(buf, tail, head)| < RING - 1
  {
    var b := buf[head := c];
    Plain(head, tail);
    if tail <= head {
      if head + 1 < RING {
        assert b[tail..head + 1] == buf[tail..head] + [c];
      } else {
        assert b[tail..] + b[..0] == buf[tail..head] + [c];
      }
    } else {
      assert b[tail..] == buf[tail..] && b[..head + 1] == buf[..head] + [c];
    }
  }

  lemma TakeAtTail(buf: seq<byte>, tail: nat, head: nat)
    requires |buf| == RING && tail < RING && head < RING && !Empty(head, tail)
    ensures Between(buf, tail, head) == [buf[tail]] + Between(buf, Next(tail), head)
  {
    var c := buf[tail];
    Plain(head, tail);
    if tail < head {
      assert Next(tail) == tail + 1;
      assert buf[tail..head] == [c] + buf[tail + 1..head];
    } else if tail + 1 < RING {
      assert Next(tail) == tail + 1;
      Cons(buf, tail);
      Regroup([c], buf[tail + 1..], buf[..head]);
    } else {
      assert Next(tail) == 0;
      assert buf[tail..] == [c] && buf[0..head] == buf[..head];
    }
  }

  lemma Cons(buf: seq<byte>, i: nat)
    requires i < |buf|
    ensures buf[i..] == [buf[i]] + buf[i + 1..]
  {
  }

  lemma Emptiness(buf: seq<byte>, tail: nat, head: nat)
    requires |buf| == RING && tail < RING && head < RING
    ensures Empty(head, tail) <==> Between(buf, tail, head) == []
    ensures Full(head, tail) <==> |Between(buf, tail, head)| == RING - 1
  {
  }

  lemma Advance(w: seq<byte>, q: seq<byte>, k: nat)
    requires k < |q|
    ensures w + q[..k] + [q[k..][0]] == w + q[..k + 1] && q[k..][1..] == q[k + 1..]
  {
  }

  lemma Rejoin(w: seq<byte>, q: seq<byte>, k: nat)
    requires k <= |q|
    ensures w + q[..k] + q[k..] == w + q
  {
  }

  // ---- The line as a pure machine

  /** The bytes the UART has taken, and those that wait in the ring. */
  datatype Line = Line(wire: seq<byte>, ring: seq<byte>)

  /** `buflen` is an 8-bit count. */
  type buffer = s: seq<byte> | |s| < 0x100

  /** An event, with the number of bytes the UART takes before it refuses. */
  datatype Event = SendCall(data: buffer, room: nat) | Interrupt(room: nat)

  function Min(a: nat, b: nat): nat {
    if a <= b then a else b
  }

  function Transmitted(l: Line, room: nat): Line {
    var k := Min(room, |l.ring|);
    Line(l.wire + l.ring[..k], l.ring[k..])
  }

  /** How many bytes a call can still put into the ring. */
  function Room(l: Line, data: seq<byte>): nat {
    Min(|data|, if |l.ring| < RING then RING - 1 - |l.ring| else 0)
  }

  /** A call queues what fits; on an empty ring it starts the transmission itself. */
  function Called(l: Line, data: seq<byte>, room: nat): Line {
    var filled := l.(ring := l.ring + data[..Room(l, data)]);
    if l.ring == [] then Transmitted(filled, room) else filled
  }

  /** A call on an empty ring: the whole buffer fits, and its first bytes leave at once. */
  lemma IdleCalled(l: Line, data: buffer, room: nat)
    ensures |l.ring| < RING && Room(l, data) < |data| ==> |l.ring| + Room(l, data) == 1023
    ensures l.ring == [] ==>
              Called(l, data, room) == Line(l.wire + data[..Min(room, |data|)], data[Min(room, |data|)..])
  {
    if l.ring == [] {
      assert l.ring + data[..Room(l, data)] == data;
    }
  }

  /** An interrupt comes only while bytes wait. */
  function Step(l: Line, e: Event): Line {
    match e
    case SendCall(data, room) => Called(l, data, room)
    case Interrupt(room) => if l.ring == [] then l else Transmitted(l, room)
  }

  function After(l: Line, es: seq<Event>): Line {
    if es == [] then l else Step(After(l, es[..|es| - 1]), es[|es| - 1])
  }

  /** The bytes an event puts into the ring. */
  function Took(l: Line, e: Event): seq<byte> {
    if e.SendCall? then e.data[..Room(l, e.data)] else []
  }

  /** The bytes that the calls among the events take, in order. */
  function Accepted(l: Line, es: seq<Event>): seq<byte> {
    if es == [] then []
    else
      Accepted(l, es[..|es| - 1]) + Took(After(l, es[..|es| - 1]), es[|es| - 1])
  }

  /** Over every run nothing is lost, repeated or reordered: what was on the wire and in
      the ring, followed by what the calls took, is what is on the wire and in the ring. */
  lemma {:induction false} RunKeepsOrder(l: Line, es: seq<Event>)
    ensures After(l, es).wire + After(l, es).ring == l.wire + l.ring + Accepted(l, es)
    ensures l.wire <= After(l, es).wire
  {
    if es == [] {
      assert l.wire + l.ring + [] == l.wire + l.ring;
    } else {
      var m, e := After(l, es[..|es| - 1]), es[|es| - 1];
      RunKeepsOrder(l, es[..|es| - 1]);
      StepKeepsOrder(m, e);
      Regroup(l.wire + l.ring, Accepted(l, es[..|es| - 1]), Took(m, e));
    }
  }

  lemma StepKeepsOrder(l: Line, e: Event)
    ensures Step(l, e).wire + Step(l, e).ring == l.wire + l.ring + Took(l, e) && l.wire <= Step(l, e).wire
  {
    match e
    case SendCall(data, room) =>
      var taken := data[..Room(l, data)];
      Regroup(l.wire, l.ring, taken);
      Rejoin(l.wire, l.ring + taken, Min(room, |l.ring + taken|));
    case Interrupt(room) =>
      Rejoin(l.wire, l.ring, Min(room, |l.ring|));
      assert l.wire + l.ring + [] == l.wire + l.ring;
  }

  // ---- No wake-up is lost

  /** With the device: `taken` says that it has taken a byte whose interrupt is still to
      come. Only such a byte makes an interrupt. */
  datatype Powered = Powered(line: Line, taken: bool)

  function PoweredStep(w: Powered, e: Event): Powered {
    if e.Interrupt? && !w.taken then w
    else
      var l := Step(w.line, e);
      Powered(l, |l.wire| > |w.line.wire| || (e.SendCall? && w.taken))
  }

  function PoweredAfter(w: Powered, es: seq<Event>): Powered {
    if es == [] then w else PoweredStep(PoweredAfter(w, es[..|es| - 1]), es[|es| - 1])
  }

  /** The device takes at least a byte when it is offered some: the driver has waited for it. */
  predicate Ready(es: seq<Event>) {
    forall i | 0 <= i < |es| :: es[i].room > 0
  }

  /** In every state reached from rest, waiting bytes mean that the device has taken a byte
      whose interrupt is still to come. */
  lemma {:induction false} NoLostWakeUp(wire: seq<byte>, es: seq<Event>)
    requires Ready(es)
    ensures var w := PoweredAfter(Powered(Line(wire, []), false), es); w.line.ring != [] ==> w.taken
  {
    if es != [] {
      var front, e := es[..|es| - 1], es[|es| - 1];
      NoLostWakeUp(wire, front);
      StaysAwake(PoweredAfter(Powered(Line(wire, []), false), front), e);
    }
  }

  lemma StaysAwake(w: Powered, e: Event)
    requires e.room > 0 && (w.line.ring != [] ==> w.taken)
    ensures PoweredStep(w, e).line.ring != [] ==> PoweredStep(w, e).taken
  {
    match e
    case SendCall(data, room) => TransmitGrows(w.line.(ring := w.line.ring + data[..Room(w.line, data)]), room);
    case Interrupt(room) => TransmitGrows(w.line, room);
  }

  lemma TransmitGrows(l: Line, room: nat)
    requires room > 0
    ensures |Transmitted(l, room).wire| == |l.wire| + Min(room, |l.ring|)
    ensures |Transmitted(l, room).ring| == |l.ring| - Min(room, |l.ring|)
  {
  }

  /** So interrupts alone empty the ring: from any such state, one for each waiting byte puts
      everything on the wire. */
  lemma {:induction false} InterruptsDrain(w: Powered, es: seq<Event>)
    requires (w.line.ring != [] ==> w.taken) && Ready(es) && |es| >= |w.line.ring|
    requires forall i | 0 <= i < |es| :: es[i].Interrupt?
    ensures PoweredAfter(w, es).line == Line(w.line.wire + w.line.ring, [])
  {
    InterruptsMove(w, es);
    var l := PoweredAfter(w, es).line;
    assert l.wire + l.ring == l.wire;
  }

  /** Each interrupt moves at least one byte while any wait. */
  lemma {:induction false} InterruptsMove(w: Powered, es: seq<Event>)
    requires (w.line.ring != [] ==> w.taken) && Ready(es)
    requires forall i | 0 <= i < |es| :: es[i].Interrupt?
    ensures var t := PoweredAfter(w, es);
            && (t.line.ring != [] ==> t.taken) && t.line.wire + t.line.ring == w.line.wire + w.line.ring
            && |t.line.ring| <= if |es| >= |w.line.ring| then 0 else |w.line.ring| - |es|
  {
    if es != [] {
      var front, e := es[..|es| - 1], es[|es| - 1];
      InterruptsMove(w, front);
      MovesOne(PoweredAfter(w, front), e);
    }
  }

  lemma MovesOne(w: Powered, e: Event)
    requires e.Interrupt? && e.room > 0 && (w.line.ring != [] ==> w.taken)
    ensures var t := PoweredStep(w, e);
            && (t.line.ring != [] ==> t.taken) && t.line.wire + t.line.ring == w.line.wire + w.line.ring
            && |t.line.ring| <= if |w.line.ring| == 0 then 0 else |w.line.ring| - 1
  {
    StaysAwake(w, e);
    TransmitGrows(w.line, e.room);
    Rejoin(w.line.wire, w.line.ring, Min(e.room, |w.line.ring|));
  }

  class Port {
    const tx: array<byte>
    var txHead: nat
    var txTail: nat
    var txIntStat: bool        // TxIntStat == SET
    var thre: bool             // the THRE interrupt is enabled
    var wire: seq<byte>        // bytes the UART has taken
    ghost var accepted: seq<byte>  // bytes UARTSend has taken

    ghost predicate Sane()
      reads this
    {
      tx.Length == RING && txHead < RING && txTail < RING
    }

    ghost function Waiting(): seq<byte>
      requires Sane()
      reads this, tx
    {
      Between(tx[..], txTail, txHead)
    }

    /** At every quiescent point: nothing is lost, repeated or reordered, and the ring has
        bytes exactly when the driver thinks so and exactly when an interrupt will come. */
    ghost predicate Valid()
      reads this, tx
    {
      && Sane() && wire + Waiting() == accepted
      && (Waiting() != [] <==> txIntStat) && (txIntStat <==> thre)
    }

    constructor ()
      ensures Valid() && accepted == []
    {
      tx := new byte[RING](_ => 0);
      txHead, txTail, txIntStat, thre, wire, accepted := 0, 0, false, false, [], [];
    }

    /** One byte leaves at the tail. */
    method TransmitOne()
      requires Sane() && !Empty(txHead, txTail)
      modifies this`txTail, this`wire
      ensures Sane() && |old(Waiting())| > 0 && Waiting() == old(Waiting())[1..]
      ensures wire == old(wire) + [old(Waiting())[0]]
    {
      TakeAtTail(tx[..], txTail, txHead);
      wire := wire + [tx[txTail]];
      txTail := Next(txTail);
    }

    /** `UART_IntTransmit` with a UART that takes up to `room` bytes and then refuses:
        as many bytes as possible leave in order, and the flags follow the ring. */
    method IntTransmit(room: nat)
      requires Sane() && wire + Waiting() == accepted
      modifies this`txTail, this`txIntStat, this`thre, this`wire
      ensures Valid()
      ensures var n := if room < |old(Waiting())| then room else |old(Waiting())|;
              wire == old(wire) + old(Waiting())[..n] && Waiting() == old(Waiting())[n..]
    {
      thre := false;
      ghost var sent := Transmit(room);
      Rejoin(old(wire), old(Waiting()), sent);
      SetFlags();
    }

    /** Its loop: bytes leave until the ring is empty or the UART refuses. */
    method Transmit(room: nat) returns (ghost sent: nat)
      requires Sane()
      modifies this`txTail, this`wire
      ensures Sane() && sent == if room < |old(Waiting())| then room else |old(Waiting())|
      ensures wire == old(wire) + old(Waiting())[..sent] && Waiting() == old(Waiting())[sent..]
    {
      ghost var w0, q0 := wire, Waiting();
      sent := 0;
      var left := room;
      Emptiness(tx[..], txTail, txHead);
      while !Empty(txHead, txTail) && left > 0
        invariant Sane() && sent + left == room && sent <= |q0|
        invariant wire == w0 + q0[..sent] && Waiting() == q0[sent..]
        invariant Empty(txHead, txTail) <==> sent == |q0|
        decreases left
      {
        TransmitOne();
        Emptiness(tx[..], txTail, txHead);
        Advance(w0, q0, sent);
        sent, left := sent + 1, left - 1;
      }
    }

    /** The end of `UART_IntTransmit`: the flags follow the ring. */
    method SetFlags()
      requires Sane() && wire + Waiting() == accepted
      modifies this`txIntStat, this`thre
      ensures Valid()
    {
      Emptiness(tx[..], txTail, txHead);
      if Empty(txHead, txTail) {
        thre := false;
        txIntStat := false;
      } else {
        txIntStat := true;
        thre := true;
      }
    }

    /** The filling loop of `UARTSend`. */
    method Fill(data: seq<byte>) returns (bytes: nat)
      requires Sane() && wire + Waiting() == accepted
      modifies this`txHead, this`accepted, tx
      ensures Sane() && wire + Waiting() == accepted
      ensures bytes == if |data| < RING - 1 - |old(Waiting())| then |data| else RING - 1 - |old(Waiting())|
      ensures bytes <= |data| && Waiting() == old(Waiting()) + data[..bytes]
              && accepted == old(accepted) + data[..bytes]
    {
      ghost var q0 := Waiting();
      bytes := 0;
      Emptiness(tx[..], txTail, txHead);
      while bytes < |data| && !Full(txHead, txTail)
        invariant Sane() && bytes <= |data| && wire + Waiting() == accepted
        invariant Waiting() == q0 + data[..bytes] && accepted == old(accepted) + data[..bytes]
        invariant |Waiting()| <= RING - 1
      {
        FillOne(data[bytes]);
        assert data[..bytes + 1] == data[..bytes] + [data[bytes]];
        bytes := bytes + 1;
      }
      Emptiness(tx[..], txTail, txHead);
    }

    method FillOne(c: byte)
      requires Sane() && !Full(txHead, txTail) && wire + Waiting() == accepted
      modifies this`txHead, this`accepted, tx
      ensures Sane() && Waiting() == old(Waiting()) + [c] && accepted == old(accepted) + [c]
      ensures wire + Waiting() == accepted && |Waiting()| <= RING - 1
    {
      ghost var b := tx[..];
      PutAtHead(b, txTail, txHead, c);
      tx[txHead] := c;
      assert tx[..] == b[txHead := c];
      txHead := Next(txHead);
      accepted := accepted + [c];
    }

    ghost function State(): Line
      requires Sane()
      reads this, tx
    {
      Line(wire, Waiting())
    }

    /** `UARTSend`: what fits is queued in order, and either the UART is primed at once or
        its interrupt is on. */
    method Send(data: buffer, room: nat) returns (bytes: nat)
      requires Valid()
      modifies this, tx
      ensures Valid() && bytes == Room(old(State()), data)
      ensures State() == Called(old(State()), data, room) && accepted == old(accepted) + data[..bytes]
      ensures bytes < |data| ==> |old(Waiting())| + bytes == 1023
      ensures old(Waiting()) == [] ==>
                wire == old(wire) + data[..Min(room, |data|)] && Waiting() == data[Min(room, |data|)..]
    {
      ghost var l := State();
      Emptiness(tx[..], txTail, txHead);
      IdleCalled(l, data, room);
      thre := false;
      bytes := Fill(data);
      if !txIntStat {
        IntTransmit(room);
      } else {
        thre := true;
      }
      assert State() == Called(l, data, room);
    }
  }

  /** Over every interleaving of send calls and interrupts, whatever the UART refuses, the
      ring and the wire go through the states of the pure machine; the bytes accepted are
      those of the calls; what is not on the wire waits in the ring, and exactly while
      anything waits the interrupt that will move it is enabled. */
  method Run(p: Port, es: seq<Event>)
    requires p.Valid()
    modifies p, p.tx
    ensures p.Valid() && p.State() == After(old(p.State()), es)
    ensures p.accepted == old(p.accepted) + Accepted(old(p.State()), es)
    ensures old(p.wire) <= p.wire <= p.accepted
    ensures p.wire != p.accepted <==> p.thre
  {
    ghost var l, a := p.State(), p.accepted;
    for i := 0 to |es|
      invariant p.Valid() && p.State() == After(l, es[..i]) && p.accepted == a + Accepted(l, es[..i])
    {
      RunMore(l, es, i);
      Regroup(a, Accepted(l, es[..i]), Took(After(l, es[..i]), es[i]));
      RunOne(p, es[i]);
    }
    assert es[..|es|] == es;
    RunKeepsOrder(l, es);
  }

  lemma RunMore(l: Line, es: seq<Event>, i: nat)
    requires i < |es|
    ensures After(l, es[..i + 1]) == Step(After(l, es[..i]), es[i])
    ensures Accepted(l, es[..i + 1]) == Accepted(l, es[..i]) + Took(After(l, es[..i]), es[i])
  {
    assert es[..i + 1][..i] == es[..i];
  }

  method RunOne(p: Port, e: Event)
    requires p.Valid()
    modifies p, p.tx
    ensures p.Valid() && p.State() == Step(old(p.State()), e)
    ensures p.accepted == old(p.accepted) + Took(old(p.State()), e)
  {
    match e {
      case SendCall(data, room) =>
        var n := p.Send(data, room);
      case Interrupt(room) =>
        if p.thre {
          p.IntTransmit(room);
        }
    }
  }

  /** The live port with that device, from rest: it goes through the states of the machine,
      and whenever bytes wait their interrupt is enabled and will come. */
  method Power(p: Port, es: seq<Event>) returns (taken: bool)
    requires p.Valid() && p.Waiting() == [] && Ready(es)
    modifies p, p.tx
    ensures p.Valid() && Powered(p.State(), taken) == PoweredAfter(Powered(Line(old(p.wire), []), false), es)
    ensures p.Waiting() != [] ==> taken && p.thre
  {
    ghost var w := Powered(p.State(), false);
    taken := false;
    for i := 0 to |es|
      invariant p.Valid() && Powered(p.State(), taken) == PoweredAfter(w, es[..i])
    {
      assert es[..i + 1][..i] == es[..i];
      taken := PowerOne(p, es[i], taken);
    }
    assert es[..|es|] == es;
    NoLostWakeUp(w.line.wire, es);
  }

  method PowerOne(p: Port, e: Event, taken: bool) returns (more: bool)
    requires p.Valid()
    modifies p, p.tx
    ensures p.Valid() && Powered(p.State(), more) == PoweredStep(Powered(old(p.State()), taken), e)
  {
    var before := |p.wire|;
    ghost var l := p.State();
    more := taken;
    if e.SendCall? || taken {
      RunOne(p, e);
      assert p.State() == Step(l, e) && before == |l.wire|;
      more := |p.wire| > before || (e.SendCall? && taken);
    }
  }

  /** No wake-up is lost: if every interrupt moves at least one byte, answering the
      interrupts until none is enabled puts every accepted byte on the wire. */
  method Drain(p: Port, rooms: int -> nat)
    requires p.Valid() && forall i :: rooms(i) > 0
    modifies p`txTail, p`txIntStat, p`thre, p`wire
    ensures p.Valid() && p.wire == p.accepted && p.accepted == old(p.accepted)
  {
    var i := 0;
    while p.thre
      invariant p.Valid() && p.accepted == old(p.accepted)
      decreases |p.Waiting()|
    {
      p.IntTransmit(rooms(i));
      i := i + 1;
    }
  }
}
