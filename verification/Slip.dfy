/** SLIP framing (RFC 1055) as contiki-2.5/tools/tunslip.c speaks it, and the
    whole link as a state machine over queued, flushed and read bytes. */
module Slip {
  import opened Bytes

  const END: byte := 0xC0
  const ESC: byte := 0xDB
  const ESC_END: byte := 0xDC
  const ESC_ESC: byte := 0xDD

  /** The size of `inbuf` and of `slip_buf`. */
  const BUF_SIZE: nat := 2000

  function Escape(c: byte): seq<byte> {
    if c == END then [ESC, ESC_END] else if c == ESC then [ESC, ESC_ESC] else [c]
  }

  function Stuff(p: seq<byte>): seq<byte> {
    if p == [] then [] else Stuff(p[..|p| - 1]) + Escape(p[|p| - 1])
  }

  /** One frame: the stuffed packet and a closing END. */
  function Encode(p: seq<byte>): seq<byte> {
    Stuff(p) + [END]
  }

  /** The receiver: bytes of the frame under way, whether an ESC waits for its
      second byte, and the frames completed so far. */
  datatype Rx = Rx(acc: seq<byte>, esc: bool, frames: seq<seq<byte>>)

  /** Storing the last byte of `inbuf` discards the frame under way. */
  function Store(rx: Rx, c: byte): Rx {
    Rx(if |rx.acc| + 1 >= BUF_SIZE then [] else rx.acc + [c], false, rx.frames)
  }

  function Receive(rx: Rx, c: byte): Rx {
    if rx.esc then
      Store(rx, if c == ESC_END then END else if c == ESC_ESC then ESC else c)
    else if c == END then
      if rx.acc == [] then rx else Rx([], false, rx.frames + [rx.acc])
    else if c == ESC then rx.(esc := true)
    else Store(rx, c)
  }

  function ReceiveAll(rx: Rx, s: seq<byte>): Rx {
    if s == [] then rx else Receive(ReceiveAll(rx, s[..|s| - 1]), s[|s| - 1])
  }

  lemma {:induction false} ReceiveConcat(rx: Rx, s: seq<byte>, t: seq<byte>)
    ensures ReceiveAll(rx, s + t) == ReceiveAll(ReceiveAll(rx, s), t)
  {
    if t == [] {
      assert s + t == s;
    } else {
      assert (s + t)[..|s + t| - 1] == s + t[..|t| - 1];
      ReceiveConcat(rx, s, t[..|t| - 1]);
    }
  }

  lemma ReceiveEscaped(rx: Rx, c: byte)
    requires !rx.esc
    ensures ReceiveAll(rx, Escape(c)) == Store(rx, c)
  {
    if c == END || c == ESC {
      var x := if c == END then ESC_END else ESC_ESC;
      ReceiveConcat(rx, [ESC], [x]);
      assert Escape(c) == [ESC] + [x];
      ReceiveOne(rx, ESC);
      ReceiveOne(rx.(esc := true), x);
    } else {
      ReceiveOne(rx, c);
    }
  }

  lemma ReceiveOne(rx: Rx, c: byte)
    ensures ReceiveAll(rx, [c]) == Receive(rx, c)
  {
    assert [c][..0] == [];
  }

  /** Unstuffing inverts stuffing for every packet shorter than the buffer. */
  lemma {:induction false} ReceiveStuffed(p: seq<byte>, frames: seq<seq<byte>>)
    requires |p| < BUF_SIZE
    ensures ReceiveAll(Rx([], false, frames), Stuff(p)) == Rx(p, false, frames)
  {
    if p != [] {
      var q, c := p[..|p| - 1], p[|p| - 1];
      ReceiveStuffed(q, frames);
      ReceiveConcat(Rx([], false, frames), Stuff(q), Escape(c));
      ReceiveEscaped(Rx(q, false, frames), c);
      assert q + [c] == p;
    }
  }

  /** One encoded packet is received as exactly that packet. */
  lemma RoundTrip(p: seq<byte>, frames: seq<seq<byte>>)
    requires 0 < |p| < BUF_SIZE
    ensures ReceiveAll(Rx([], false, frames), Encode(p)) == Rx([], false, frames + [p])
  {
    ReceiveStuffed(p, frames);
    ReceiveConcat(Rx([], false, frames), Stuff(p), [END]);
    ReceiveOne(Rx(p, false, frames), END);
  }

  /** Frames are never taken back. */
  lemma {:induction false} FramesGrow(rx: Rx, s: seq<byte>)
    ensures rx.frames <= ReceiveAll(rx, s).frames
  {
    if s != [] {
      FramesGrow(rx, s[..|s| - 1]);
    }
  }

  lemma {:induction false} StuffLength(p: seq<byte>)
    ensures |p| <= |Stuff(p)| <= 2 * |p|
  {
    if p != [] {
      StuffLength(p[..|p| - 1]);
    }
  }

  // ---- The encoding byte by byte

  /** How many bytes of the packet need an escape. */
  function Specials(p: seq<byte>): nat {
    if p == [] then 0
    else
      var c := p[|p| - 1];
      Specials(p[..|p| - 1]) + if c == 0xC0 || c == 0xDB then 1 else 0
  }

  /** No END stands inside, and nothing but the escapes is added. */
  lemma {:induction false} StuffedSize(p: seq<byte>)
    ensures |Stuff(p)| == |p| + Specials(p) && 0xC0 !in Stuff(p)
  {
    if p != [] {
      StuffedSize(p[..|p| - 1]);
    }
  }

  /** At `k` stands byte `c`: an END as DB DC, an ESC as DB DD, any other as itself. */
  predicate StandsAt(s: seq<byte>, k: nat, c: byte) {
    if c == 0xC0 then k + 2 <= |s| && s[k] == 0xDB && s[k + 1] == 0xDC
    else if c == 0xDB then k + 2 <= |s| && s[k] == 0xDB && s[k + 1] == 0xDD
    else k < |s| && s[k] == c
  }

  /** Byte `i` of a packet goes to place `i` plus the escapes before it. */
  lemma {:induction false} StuffedAt(p: seq<byte>, i: nat)
    requires i < |p|
    ensures StandsAt(Stuff(p), i + Specials(p[..i]), p[i])
    decreases |p|
  {
    var n := |p| - 1;
    var front, c := p[..n], p[n];
    assert Stuff(p) == Stuff(front) + Escape(c);
    if i < n {
      StuffedAt(front, i);
      assert p[..i] == front[..i];
      StandsOn(Stuff(front), Escape(c), i + Specials(front[..i]), front[i]);
    } else {
      StuffedSize(front);
      StandsLast(Stuff(front), c);
    }
  }

  lemma StandsOn(s: seq<byte>, t: seq<byte>, k: nat, c: byte)
    requires StandsAt(s, k, c)
    ensures StandsAt(s + t, k, c)
  {
  }

  lemma StandsLast(s: seq<byte>, c: byte)
    ensures StandsAt(s + Escape(c), |s|, c)
  {
  }

  /** What is left of a packet without specials behind the last multiple of 2000 bytes. */
  function Tail(p: seq<byte>): (t: seq<byte>)
    ensures |t| == Left(|p|)
  {
    if Left(|p|) == 0 then [] else p[|p| - Left(|p|)..]
  }

  lemma TailNext(p: seq<byte>, c: byte)
    ensures Tail(p + [c]) == if |Tail(p)| + 1 >= BUF_SIZE then [] else Tail(p) + [c]
  {
    LeftNext(|p|);
  }

  /** A packet of the size of the buffer or more is not received whole: that tail is. */
  lemma {:induction false} Overlong(p: seq<byte>, frames: seq<seq<byte>>)
    requires forall i | 0 <= i < |p| :: p[i] != 0xC0 && p[i] != 0xDB
    ensures ReceiveAll(Rx([], false, frames), p) == Rx(Tail(p), false, frames)
  {
    if p != [] {
      var front, c := p[..|p| - 1], p[|p| - 1];
      Overlong(front, frames);
      OverlongMore(front, c, frames);
      assert p == front + [c];
    }
  }

  lemma OverlongMore(p: seq<byte>, c: byte, frames: seq<seq<byte>>)
    requires ReceiveAll(Rx([], false, frames), p) == Rx(Tail(p), false, frames) && c != 0xC0 && c != 0xDB
    ensures ReceiveAll(Rx([], false, frames), p + [c]) == Rx(Tail(p + [c]), false, frames)
  {
    ReceiveConcat(Rx([], false, frames), p, [c]);
    ReceiveOne(Rx(Tail(p), false, frames), c);
    TailNext(p, c);
  }

  /** `n` modulo the size of the buffer. */
  function Left(n: nat): (r: nat)
    ensures r < 2000 && r <= n
  {
    n % 2000
  }

  lemma LeftNext(n: nat)
    ensures Left(n + 1) == if Left(n) == 1999 then 0 else Left(n) + 1
  {
    assert n + 1 == 2000 * (n / 2000) + (n % 2000 + 1);
  }

  // ---- The link

  /** Bytes queued in `slip_buf`, bytes written and not yet read, the receiver, and
      every packet queued so far. */
  datatype Link = Link(queue: seq<byte>, wire: seq<byte>, rx: Rx, sent: seq<seq<byte>>)

  datatype Event =
    | Queue(p: seq<byte>)   // a packet is encoded into the queue
    | Flush(n: nat)         // write(2) takes n bytes of the queue
    | Read(k: nat)          // the receiver is given the next k bytes

  /** `main` queues one END before anything else. */
  function Start(): Link {
    Link([END], [], Rx([], false, []), [])
  }

  predicate Enabled(l: Link, e: Event) {
    match e
    case Queue(p) => 0 < |p| < BUF_SIZE
    case Flush(n) => n <= |l.queue|
    case Read(k) => k <= |l.wire|
  }

  /** What is left after the first `n` bytes. */
  function Rest(q: seq<byte>, n: nat): (r: seq<byte>)
    requires n <= |q|
    ensures |r| == |q| - n
  {
    if n == |q| then [] else q[n..]
  }

  function Step(l: Link, e: Event): Link
    requires Enabled(l, e)
  {
    match e
    case Queue(p) => l.(queue := l.queue + Encode(p), sent := l.sent + [p])
    case Flush(n) => l.(queue := Rest(l.queue, n), wire := l.wire + l.queue[..n])
    case Read(k) => l.(wire := Rest(l.wire, k), rx := ReceiveAll(l.rx, l.wire[..k]))
  }

  /** Reading everything under way would complete exactly the packets sent. */
  predicate Conserved(l: Link) {
    ReceiveAll(l.rx, l.wire + l.queue) == Rx([], false, l.sent)
  }

  lemma StepConserves(l: Link, e: Event)
    requires Enabled(l, e) && Conserved(l)
    ensures Conserved(Step(l, e))
  {
    match e
    case Queue(p) =>
      assert l.wire + (l.queue + Encode(p)) == (l.wire + l.queue) + Encode(p);
      ReceiveConcat(l.rx, l.wire + l.queue, Encode(p));
      RoundTrip(p, l.sent);
    case Flush(n) =>
      CutRight(l.wire, l.queue, n);
    case Read(k) =>
      CutLeft(l.wire, l.queue, k);
      ReceiveConcat(l.rx, l.wire[..k], Rest(l.wire, k) + l.queue);
  }

  lemma CutRight(a: seq<byte>, b: seq<byte>, n: nat)
    requires n <= |b|
    ensures a + b[..n] + Rest(b, n) == a + b
  {
  }

  lemma CutLeft(a: seq<byte>, b: seq<byte>, k: nat)
    requires k <= |a|
    ensures a[..k] + (Rest(a, k) + b) == a + b
  {
  }

  lemma StartConserved()
    ensures Conserved(Start())
  {
    ReceiveOne(Rx([], false, []), END);
    assert [] + [END] == [END];
  }

  lemma ConservedDelivers(l: Link)
    requires Conserved(l)
    ensures l.rx.frames <= l.sent
    ensures l.wire == [] && l.queue == [] ==> l.rx == Rx([], false, l.sent)
  {
    FramesGrow(l.rx, l.wire + l.queue);
  }

  // ---- The link with its bounded queue

  /** The queue lives in `slip_buf`: `end` is `slip_end`, which goes back to 0 only when
      the queue has run empty. A packet that does not fit behind it ends the program. */
  datatype Live = Running(l: Link, end: nat) | Exited

  function Min(a: nat, b: nat): nat {
    if a <= b then a else b
  }

  /** One event; a write or a read takes what there is, up to its size. */
  function LiveStep(s: Live, e: Event): Live {
    if s.Exited? then Exited
    else
      match e
      case Queue(p) =>
        if p == [] || s.end + |Encode(p)| > BUF_SIZE then Exited
        else
          FitsPacket(p);
          Running(Step(s.l, e), s.end + |Encode(p)|)
      case Flush(n) =>
        var k := Min(n, |s.l.queue|);
        Running(Step(s.l, Flush(k)), if k == |s.l.queue| then 0 else s.end)
      case Read(n) =>
        Running(Step(s.l, Read(Min(n, |s.l.wire|))), s.end)
  }

  function LiveRun(es: seq<Event>): Live {
    if es == [] then Running(Start(), 1) else LiveStep(LiveRun(es[..|es| - 1]), es[|es| - 1])
  }

  /** The packets that the events queue, in order. */
  function PacketsOf(es: seq<Event>): seq<seq<byte>> {
    if es == [] then []
    else
      var e := es[|es| - 1];
      PacketsOf(es[..|es| - 1]) + if e.Queue? then [e.p] else []
  }

  /** Packets are not empty: a packet has a header. */
  predicate NoneEmpty(es: seq<Event>) {
    forall i :: 0 <= i < |es| && es[i].Queue? ==> es[i].p != []
  }

  lemma FitsPacket(p: seq<byte>)
    ensures |p| < |Encode(p)|
  {
    StuffLength(p);
  }

  lemma LiveStepConserves(s: Live, e: Event)
    requires s.Running? && Conserved(s.l) && LiveStep(s, e).Running?
    ensures Conserved(LiveStep(s, e).l)
    ensures LiveStep(s, e).l.sent == s.l.sent + if e.Queue? then [e.p] else []
  {
    match e
    case Queue(p) =>
      FitsPacket(p);
      StepConserves(s.l, e);
    case Flush(n) => StepConserves(s.l, Flush(Min(n, |s.l.queue|)));
    case Read(n) => StepConserves(s.l, Read(Min(n, |s.l.wire|)));
  }

  /** The packets under way or received are exactly those the events queued. */
  lemma {:induction false} LiveConserves(es: seq<Event>)
    requires LiveRun(es).Running?
    ensures Conserved(LiveRun(es).l) && LiveRun(es).l.sent == PacketsOf(es)
  {
    if es == [] {
      StartConserved();
    } else {
      var front := es[..|es| - 1];
      LiveConserves(front);
      LiveStepConserves(LiveRun(front), es[|es| - 1]);
    }
  }

  /** End to end with the bounded queue: over every run that does not exit, the frames
      received are a prefix of the packets queued by its events, and exactly them, with
      nothing left over, once queue and wire are empty. */
  lemma LiveDelivers(es: seq<Event>)
    requires LiveRun(es).Running?
    ensures var l := LiveRun(es).l;
            l.rx.frames <= PacketsOf(es) && (l.wire == [] && l.queue == [] ==> l.rx == Rx([], false, PacketsOf(es)))
  {
    LiveConserves(es);
    ConservedDelivers(LiveRun(es).l);
  }

  /** Event `i` is a packet that does not fit behind `slip_end`. */
  predicate Overflows(es: seq<Event>, i: nat)
    requires i < |es|
  {
    && es[i].Queue? && LiveRun(es[..i]).Running?
    && LiveRun(es[..i]).end + |Encode(es[i].p)| > BUF_SIZE
  }

  lemma LiveNext(es: seq<Event>, n: nat)
    requires n < |es|
    ensures LiveRun(es[..n + 1]) == LiveStep(LiveRun(es[..n]), es[n])
  {
    assert es[..n + 1][..n] == es[..n];
  }

  lemma {:induction false} FindOverflow(es: seq<Event>, n: nat) returns (i: nat)
    requires NoneEmpty(es) && n <= |es| && LiveRun(es[..n]).Exited?
    ensures i < n && Overflows(es, i)
  {
    LiveNext(es, n - 1);
    StepExits(LiveRun(es[..n - 1]), es[n - 1]);
    if LiveRun(es[..n - 1]).Exited? {
      i := FindOverflow(es, n - 1);
    } else {
      i := n - 1;
    }
  }

  lemma {:induction false} StaysExited(es: seq<Event>, i: nat)
    requires i <= |es| && LiveRun(es[..i]).Exited?
    ensures LiveRun(es).Exited?
    decreases |es| - i
  {
    if i < |es| {
      LiveNext(es, i);
      StaysExited(es, i + 1);
    } else {
      assert es[..i] == es;
    }
  }

  lemma StepExits(s: Live, e: Event)
    requires e.Queue? ==> e.p != []
    ensures LiveStep(s, e).Exited? <==> s.Exited? || (e.Queue? && s.end + |Encode(e.p)| > BUF_SIZE)
  {
  }

  /** The program exits exactly when some packet does not fit behind `slip_end`. */
  lemma ExitsExactly(es: seq<Event>)
    requires NoneEmpty(es)
    ensures LiveRun(es).Exited? <==> exists i :: 0 <= i < |es| && Overflows(es, i)
  {
    assert es[..|es|] == es;
    if LiveRun(es).Exited? {
      var i := FindOverflow(es, |es|);
    }
    forall i | 0 <= i < |es| && Overflows(es, i)
      ensures LiveRun(es).Exited?
    {
      LiveNext(es, i);
      StaysExited(es, i + 1);
    }
  }

  /** Event `i` is no packet, or one that fits once encoded and meets an empty queue. */
  predicate Polite(es: seq<Event>, i: nat)
    requires i < |es|
  {
    es[i].Queue? ==> es[i].p != [] && |Encode(es[i].p)| <= BUF_SIZE && QueueEmpty(LiveRun(es[..i]))
  }

  /** How `main` schedules packets: one at a time. */
  predicate OneAtATime(es: seq<Event>) {
    forall i :: 0 <= i < |es| ==> Polite(es, i)
  }

  predicate QueueEmpty(s: Live) {
    s.Running? ==> s.l.queue == []
  }

  /** `slip_end` is 0 when the queue is empty. */
  lemma {:induction false} EndWhenEmpty(es: seq<Event>)
    ensures LiveRun(es).Running? ==> (LiveRun(es).l.queue == [] ==> LiveRun(es).end == 0)
  {
    if es != [] {
      EndWhenEmpty(es[..|es| - 1]);
    }
  }

  /** A packet that fits by itself fits on an empty queue. */
  lemma RunsOn(es: seq<Event>, n: nat)
    requires n < |es| && Polite(es, n) && LiveRun(es[..n]).Running?
    ensures LiveRun(es[..n + 1]).Running?
  {
    EndWhenEmpty(es[..n]);
    LiveNext(es, n);
    if es[n].Queue? {
      StepExits(LiveRun(es[..n]), es[n]);
    }
  }

  lemma {:induction false} RunsUpTo(es: seq<Event>, n: nat)
    requires n <= |es| && forall i :: 0 <= i < n ==> Polite(es, i)
    ensures LiveRun(es[..n]).Running?
  {
    if n == 0 {
      assert es[..0] == [];
    } else {
      assert Polite(es, n - 1);
      RunsUpTo(es, n - 1);
      RunsOn(es, n - 1);
    }
  }

  /** Scheduled like that, the program never exits. */
  lemma NeverExits(es: seq<Event>)
    requires OneAtATime(es)
    ensures LiveRun(es).Running?
  {
    RunsUpTo(es, |es|);
    assert es[..|es|] == es;
  }
}
