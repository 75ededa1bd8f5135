/** The two ends of the serial line in contiki-2.5/tools/tunslip.c: the output queue
    `slip_buf`, the input buffer `inbuf`, and the loops that move bytes. */
module TunSlip {
  import opened Bytes
  import opened Checksum
  import opened CheckIp
  import opened Rewrite
  import opened Slip

  /** What `write_to_serial` does with a packet; `Exit` is `err(1, ...)`. */
  datatype Outcome = Queued | Dropped(ecode: int) | Exit

  /** The packet as `write_to_serial` leaves it in the caller's buffer. */
  ghost function Outgoing(host: ByteOrder, b: seq<byte>, len: nat, id: u16): (r: seq<byte>)
    requires InBuffer(b, len)
    ensures |r| == |b| && InBuffer(r, len)
  {
    if Accepted(b, len) && NeedsId(host, b) then
      LengthsKept(host, b, len, Swap(host, id));
      Rewritten(host, b, Swap(host, id))
    else b
  }

  /** `ip_id` afterwards: a number taken is not used again until the counter comes round. */
  ghost function IdAfter(host: ByteOrder, b: seq<byte>, len: nat, id: u16): u16
    requires InBuffer(b, len)
  {
    if Accepted(b, len) && NeedsId(host, b) then (id + 1) % 0x1_0000 else id
  }

  lemma KeptIfRefused(host: ByteOrder, b: seq<byte>, len: nat, id: u16)
    requires InBuffer(b, len) && !Accepted(b, len)
    ensures Outgoing(host, b, len, id) == b && IdAfter(host, b, len, id) == id
  {
  }

  class SlipOut {
    const host: ByteOrder
    const slipBuf: array<byte>
    var slipBegin: nat
    var slipEnd: nat
    var ipId: u16
    var wire: seq<byte>  // every byte accepted by write(2)

    ghost predicate Valid()
      reads this
    {
      slipBuf.Length == BUF_SIZE && slipBegin <= slipEnd <= BUF_SIZE && (slipBegin == slipEnd ==> slipEnd == 0)
    }

    ghost function Queue(): seq<byte>
      requires Valid()
      reads this, slipBuf
    {
      slipBuf[slipBegin..slipEnd]
    }

    constructor (h: ByteOrder)
      ensures Valid() && fresh(slipBuf) && host == h
      ensures Queue() == [END] && wire == [] && slipEnd == 1
    {
      host := h;
      slipBuf := new byte[BUF_SIZE](_ => END);
      slipBegin, slipEnd, ipId, wire := 0, 1, 0, [];
    }

    /** `slip_send`: false stands for the overflow exit. */
    method Send(c: byte) returns (ok: bool)
      requires Valid()
      modifies this`slipEnd, slipBuf
      ensures Valid()
      ensures ok == (old(slipEnd) < BUF_SIZE)
      ensures slipEnd == if ok then old(slipEnd) + 1 else old(slipEnd)
      ensures Queue() == if ok then old(Queue()) + [c] else old(Queue())
    {
      if slipEnd >= BUF_SIZE {
        return false;
      }
      slipBuf[slipEnd] := c;
      slipEnd := slipEnd + 1;
      return true;
    }

    /** `slip_flushbuf`: `n` is what write(2) returned, -1 standing for EAGAIN. */
    method Flush(n: int)
      requires Valid()
      requires -1 <= n <= |Queue()|
      modifies this`slipBegin, this`slipEnd, this`wire
      ensures Valid() && slipEnd == if (if n < 0 then 0 else n) == |old(Queue())| then 0 else old(slipEnd)
      ensures var k := if n < 0 then 0 else n; wire == old(wire) + old(Queue())[..k] && Queue() == Rest(old(Queue()), k)
    {
      if slipEnd == 0 || n == -1 {
        return;
      }
      wire := wire + slipBuf[slipBegin..slipBegin + n];
      slipBegin := slipBegin + n;
      if slipBegin == slipEnd {
        slipBegin, slipEnd := 0, 0;
      }
    }

    /** One pass of the switch in `write_to_serial`. */
    method SendEscaped(c: byte) returns (ok: bool)
      requires Valid()
      modifies this`slipEnd, slipBuf
      ensures Valid()
      ensures ok == (old(slipEnd) + |Escape(c)| <= BUF_SIZE)
      ensures ok ==> slipEnd == old(slipEnd) + |Escape(c)| && Queue() == old(Queue()) + Escape(c)
    {
      if c == END || c == ESC {
        ok := Send(ESC);
        if ok {
          var second := if c == END then ESC_END else ESC_ESC;
          ok := Send(second);
        }
      } else {
        ok := Send(c);
      }
    }

    /** The escaping loop at the end of `write_to_serial`: the packet is queued whole
        exactly when its encoding fits behind `slip_end`. */
    method SendFrame(p: array<byte>, len: nat) returns (ok: bool)
      requires Valid() && len <= p.Length && p != slipBuf
      modifies this`slipEnd, slipBuf
      ensures Valid()
      ensures ok == (old(slipEnd) + |Encode(p[..len])| <= BUF_SIZE)
      ensures ok ==> slipEnd == old(slipEnd) + |Encode(p[..len])|
      ensures ok ==> Queue() == old(Queue()) + Encode(p[..len])
    {
      ok := SendStuffed(p, len);
      if ok {
        ok := Send(END);
      }
    }

    method SendStuffed(p: array<byte>, len: nat) returns (ok: bool)
      requires Valid() && len <= p.Length && p != slipBuf
      modifies this`slipEnd, slipBuf
      ensures Valid()
      ensures ok == (old(slipEnd) + |Stuff(p[..len])| <= BUF_SIZE)
      ensures ok ==> slipEnd == old(slipEnd) + |Stuff(p[..len])| && Queue() == old(Queue()) + Stuff(p[..len])
    {
      ghost var b, e, q := p[..len], slipEnd, Queue();
      var i := 0;
      while i < len
        invariant i <= len && Valid() && p[..len] == b
        invariant slipEnd == e + |Stuff(b[..i])| && Queue() == q + Stuff(b[..i])
      {
        ok := SendNext(b, i, p[i], e, q);
        if !ok {
          return;
        }
        i := i + 1;
      }
      assert b[..len] == b;
      ok := true;
    }

    method SendNext(ghost b: seq<byte>, ghost i: nat, c: byte, ghost e: nat, ghost q: seq<byte>) returns (ok: bool)
      requires Valid() && i < |b| && c == b[i]
      requires slipEnd == e + |Stuff(b[..i])| && Queue() == q + Stuff(b[..i])
      modifies this`slipEnd, slipBuf
      ensures Valid()
      ensures ok ==> slipEnd == e + |Stuff(b[..i + 1])| && Queue() == q + Stuff(b[..i + 1])
      ensures !ok ==> e + |Stuff(b)| > BUF_SIZE
    {
      StuffGrows(b, i);
      ok := SendEscaped(c);
    }

    /** The middle of `write_to_serial`: a packet with the DF bit and no number gets one,
        and is checked again. */
    method Renumber(buf: array<byte>, len: nat) returns (ecode: int)
      requires InBuffer(buf[..], len) && Accepted(buf[..], len)
      modifies this`ipId, buf
      ensures InBuffer(buf[..], len) && buf[..] == Outgoing(host, old(buf[..]), len, old(ipId))
      ensures ipId == IdAfter(host, old(buf[..]), len, old(ipId))
      ensures ecode == Verdict(buf[..], len)
      ensures HeaderLength(buf[..]) == HeaderLength(old(buf[..])) && (HeaderLength(buf[..]) >= 12 ==> ecode == 0)
    {
      ghost var b := buf[..];
      ecode := 0;
      if Load16(host, buf[4], buf[5]) == 0 && Load16(host, buf[6], buf[7]) / 0x4000 % 2 == 1 {
        var nid := Swap(host, ipId);
        ipId := (ipId + 1) % 0x1_0000;
        PutId(host, buf, nid);
        assert buf[..] == Outgoing(host, b, len, old(ipId));
        SecondCheck(host, b, len, nid);
        ecode := Check(buf, len);
      }
    }

    /** `write_to_serial`: drop what `check_ip` refuses, give a zero identification
        a number, refuse again, and queue the encoding. A header of 12 bytes or more
        is never refused the second time. */
    method WriteToSerial(buf: array<byte>, len: nat) returns (o: Outcome)
      requires Valid() && InBuffer(buf[..], len) && buf != slipBuf
      modifies this`slipEnd, this`ipId, slipBuf, buf
      ensures Valid() && InBuffer(buf[..], len)
      ensures buf[..] == Outgoing(host, old(buf[..]), len, old(ipId))
      ensures ipId == IdAfter(host, old(buf[..]), len, old(ipId))
      ensures old(!Accepted(buf[..], len)) ==> o == Dropped(Verdict(old(buf[..]), len))
      ensures old(Accepted(buf[..], len)) ==>
                o == if !Accepted(buf[..], len) then Dropped(Verdict(buf[..], len))
                     else if old(slipEnd) + |Encode(buf[..len])| <= BUF_SIZE then Queued else Exit
      ensures old(Accepted(buf[..], len)) && HeaderLength(buf[..]) >= 12 ==> !o.Dropped?
      ensures o.Queued? ==> slipEnd == old(slipEnd) + |Encode(buf[..len])|
      ensures o.Queued? ==> Queue() == old(Queue()) + Encode(buf[..len])
      ensures o.Dropped? ==> Queue() == old(Queue()) && slipEnd == old(slipEnd)
    {
      ghost var b, id := buf[..], ipId;
      var ecode := Check(buf, len);
      assert buf[..] == b && ecode == Verdict(b, len);
      if ecode < 0 {
        KeptIfRefused(host, b, len, id);
        return Dropped(ecode);
      }
      o := SendAccepted(buf, len);
      assert buf[..] == Outgoing(host, b, len, id) && ipId == IdAfter(host, b, len, id);
    }

    method SendAccepted(buf: array<byte>, len: nat) returns (o: Outcome)
      requires Valid() && InBuffer(buf[..], len) && buf != slipBuf && Accepted(buf[..], len)
      modifies this`slipEnd, this`ipId, slipBuf, buf
      ensures Valid() && InBuffer(buf[..], len)
      ensures buf[..] == Outgoing(host, old(buf[..]), len, old(ipId))
      ensures ipId == IdAfter(host, old(buf[..]), len, old(ipId))
      ensures o == if !Accepted(buf[..], len) then Dropped(Verdict(buf[..], len))
                   else if old(slipEnd) + |Encode(buf[..len])| <= BUF_SIZE then Queued else Exit
      ensures HeaderLength(buf[..]) >= 12 ==> !o.Dropped?
      ensures o.Queued? ==> slipEnd == old(slipEnd) + |Encode(buf[..len])|
      ensures o.Queued? ==> Queue() == old(Queue()) + Encode(buf[..len])
      ensures o.Dropped? ==> Queue() == old(Queue()) && slipEnd == old(slipEnd)
    {
      var ecode := Renumber(buf, len);
      if ecode < 0 {
        return Dropped(ecode);
      }
      var ok := SendFrame(buf, len);
      o := if ok then Queued else Exit;
    }
  }

  lemma SecondCheck(host: ByteOrder, b: seq<byte>, len: nat, nid: u16)
    requires InBuffer(b, len) && Accepted(b, len) && b[4] == 0 && b[5] == 0
    ensures InBuffer(Rewritten(host, b, nid), len)
    ensures HeaderLength(b) >= 12 ==> Accepted(Rewritten(host, b, nid), len)
    ensures HeaderLength(Rewritten(host, b, nid)) == HeaderLength(b)
  {
    LengthsKept(host, b, len, nid);
    if HeaderLength(b) >= 12 {
      LongPacketVerdict(host, b, len, nid);
    }
  }

  /** The in-place stores of the rewrite. */
  method PutId(host: ByteOrder, buf: array<byte>, nid: u16)
    requires buf.Length >= 28
    modifies buf
    ensures buf[..] == Rewritten(host, old(buf[..]), nid)
  {
    buf[4], buf[5] := First(host, nid), Second(host, nid);
    var neg: u16 := 0xffff - nid;
    var sum := AddOnes(Load16(host, buf[10], buf[11]), neg);
    buf[10], buf[11] := First(host, sum), Second(host, sum);
  }

  lemma {:induction false} StuffGrows(p: seq<byte>, i: nat)
    requires i < |p|
    ensures Stuff(p[..i + 1]) == Stuff(p[..i]) + Escape(p[i])
    ensures |Stuff(p)| >= |Stuff(p[..i + 1])|
    decreases |p|
  {
    assert p[..i + 1][..i] == p[..i];
    if i + 1 < |p| {
      StuffGrows(p[..|p| - 1], i);
      assert p[..|p| - 1][..i + 1] == p[..i + 1] && p[..|p| - 1][..i] == p[..i];
    } else {
      assert p[..i + 1] == p;
    }
  }

  /** The receiving side: `inbuf` with its fill pointer, and the stdio stream, in
      which an ESC may have been pushed back. Each completed frame is handed on. */
  class SerialIn {
    const inbuf: array<byte>
    var inbufPtr: nat
    var pushedBack: bool
    var frames: seq<seq<byte>>

    ghost predicate Valid()
      reads this
    {
      inbuf.Length == BUF_SIZE && inbufPtr < BUF_SIZE
    }

    ghost function State(): Rx
      requires Valid()
      reads this, inbuf
    {
      Rx(inbuf[..inbufPtr], pushedBack, frames)
    }

    constructor ()
      ensures Valid() && fresh(inbuf) && State() == Rx([], false, [])
    {
      inbuf := new byte[BUF_SIZE](_ => 0);
      inbufPtr, pushedBack, frames := 0, false, [];
    }

    method Put(c: byte)
      requires inbufPtr < inbuf.Length
      modifies this`inbufPtr, inbuf
      ensures inbufPtr == old(inbufPtr) + 1 && inbuf[..inbufPtr] == old(inbuf[..inbufPtr]) + [c]
    {
      inbuf[inbufPtr] := c;
      inbufPtr := inbufPtr + 1;
    }

    /** One turn of the switch: one byte of the stream, or an ESC and its second byte;
        an ESC with nothing behind it is pushed back. */
    method ReadByte(stream: seq<byte>, pos: nat) returns (next: nat)
      requires Valid() && !pushedBack && pos < |stream|
      modifies this, inbuf
      ensures inbufPtr <= BUF_SIZE && pos < next <= |stream| && next <= pos + 2
      ensures pushedBack ==> next == |stream| && inbufPtr < BUF_SIZE
      ensures Trimmed(inbuf[..inbufPtr], pushedBack, frames) ==
              (var one := Receive(old(State()), stream[pos]);
               if next == pos + 1 then one else Receive(one, stream[pos + 1]))
    {
      var c := stream[pos];
      next := pos + 1;
      if c == END {
        if inbufPtr > 0 {
          frames := frames + [inbuf[..inbufPtr]];
          inbufPtr := 0;
        }
        return;
      }
      if c == ESC {
        if next == |stream| {
          pushedBack := true;
          return;
        }
        c := stream[next];
        next := next + 1;
        c := if c == ESC_END then END else if c == ESC_ESC then ESC else c;
      }
      Put(c);
    }

    method ReadNext(ghost s1: Rx, stream: seq<byte>, pos: nat) returns (next: nat)
      requires Valid() && !pushedBack && pos < |stream| && State() == ReceiveAll(s1, stream[..pos])
      modifies this, inbuf
      ensures inbufPtr <= BUF_SIZE && pos < next <= |stream|
      ensures pushedBack ==> next == |stream| && inbufPtr < BUF_SIZE
      ensures Trimmed(inbuf[..inbufPtr], pushedBack, frames) == ReceiveAll(s1, stream[..next])
    {
      next := ReadByte(stream, pos);
      ReceiveNext(s1, stream, pos);
      if next == pos + 2 {
        ReceiveNext(s1, stream, pos + 1);
      }
    }

    /** `serial_to_tun` on the bytes that have arrived: one call consumes them all,
        wherever the chunk was cut, and never stores outside `inbuf`. On Linux the
        first byte skips the bounds test (`skipTest`). */
    method SerialToTun(chunk: seq<byte>, skipTest: bool)
      requires Valid()
      modifies this, inbuf
      ensures Valid()
      ensures State() == ReceiveAll(old(State()), chunk)
    {
      ghost var s1 := State().(esc := false);
      PushBack(State(), chunk);
      var stream := if pushedBack then [ESC] + chunk else chunk;
      var pos, skip := 0, skipTest;
      pushedBack := false;
      assert ReceiveAll(s1, stream[..0]) == s1;
      while true
        invariant pos <= |stream| && inbufPtr <= BUF_SIZE && !pushedBack
        invariant skip ==> inbufPtr < BUF_SIZE
        invariant Trimmed(inbuf[..inbufPtr], false, frames) == ReceiveAll(s1, stream[..pos])
        decreases |stream| - pos
      {
        if !skip && inbufPtr >= BUF_SIZE {
          inbufPtr := 0;
        }
        skip := false;
        if pos == |stream| {
          assert stream[..pos] == stream;
          return;
        }
        pos := ReadNext(s1, stream, pos);
        if pushedBack {
          assert stream[..pos] == stream;
          return;
        }
      }
    }
  }

  /** The state between two reads: a full buffer counts as an empty one. */
  ghost function Trimmed(acc: seq<byte>, esc: bool, frames: seq<seq<byte>>): Rx {
    Rx(if |acc| >= BUF_SIZE then [] else acc, esc, frames)
  }

  lemma ReceiveNext(rx: Rx, s: seq<byte>, i: nat)
    requires i < |s|
    ensures ReceiveAll(rx, s[..i + 1]) == Receive(ReceiveAll(rx, s[..i]), s[i])
  {
    assert s[..i + 1][..i] == s[..i];
  }

  /** An ESC put back and read again is an ESC waiting. */
  lemma PushBack(rx: Rx, chunk: seq<byte>)
    ensures ReceiveAll(rx, chunk) == ReceiveAll(rx.(esc := false), if rx.esc then [ESC] + chunk else chunk)
  {
    if rx.esc {
      ReceiveConcat(rx.(esc := false), [ESC], chunk);
      ReceiveOne(rx.(esc := false), ESC);
    }
  }

  /** The check at the far end: its verdict is that of the near end, because it
      looks at the bytes of the packet only (28 bytes or more, header inside). */
  lemma VerdictOfFrame(b: seq<byte>, c: seq<byte>, len: nat)
    requires InBuffer(b, len) && 28 <= len <= |c| && HeaderLength(b) <= len < 0x1_0000 && b[..len] == c[..len]
    ensures InBuffer(c, len) && Verdict(c, len) == Verdict(b, len)
  {
    var hl := HeaderLength(b);
    SamePart(b, c, len, 0, 28);
    SamePart(b, c, len, 0, hl);
    SamePart(b, c, len, 12, 20);
    SamePart(b, c, len, hl, len);
    assert b[0..28] == b[..28] && c[0..28] == c[..28] && b[0..hl] == b[..hl] && c[0..hl] == c[..hl];
    assert forall i :: 0 <= i < 28 ==> b[i] == b[..28][i] == c[..28][i] == c[i];
    assert PayloadLength(c, len) == PayloadLength(b, len) == len - hl;
  }

  lemma SamePart(b: seq<byte>, c: seq<byte>, len: nat, x: nat, y: nat)
    requires x <= y <= len <= |b| && len <= |c| && b[..len] == c[..len]
    ensures b[x..y] == c[x..y]
  {
    assert b[x..y] == b[..len][x..y] && c[x..y] == c[..len][x..y];
  }
}
