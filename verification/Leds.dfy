/** The arrays and handlers of Equinox/libraries/LED/ShiftPWM.c. */
module Leds {
  import opened Bytes
  import opened ShiftPwm

  /** `v >> k`. */
  function Shr(v: nat, k: nat): nat
    decreases k
  {
    if k == 0 then v else Shr(v / 2, k - 1)
  }

  lemma {:induction false} ShiftedBit(v: nat, k: nat)
    ensures Shr(v, k) % 2 == BitOf(v, k)
    decreases k
  {
    if k > 0 {
      ShiftedBit(v / 2, k - 1);
    }
  }

  /** One term of the word: bit `bit` of a brightness becomes bit `k`. */
  method AddBit(w0: nat, k: nat, v: byte, bit: nat) returns (w: nat)
    requires w0 < Pow2(k) && bit < BITS
    ensures w < Pow2(k + 1) && BitOf(w, k) == BitOf(v, bit)
    ensures forall i | 0 <= i < k :: BitOf(w, i) == BitOf(w0, i)
  {
    var l := Shr(v, bit);
    ShiftedBit(v, bit);
    w := w0 + l % 2 * Pow2(k);
    AddTop(w0, k, l % 2, 0);
    forall i | 0 <= i < k
      ensures BitOf(w, i) == BitOf(w0, i)
    {
      AddTop(w0, k, l % 2, i);
    }
  }

  class Panel {
    const raw: array<byte>       // LED_RAW
    const planes: array2<nat>    // LED_PRECALC: register by bit
    const lists: array2<Link>    // LinkerList: item by bit
    const seqBit: array<nat>
    const seqTime: array<nat>
    var sendSeq: nat
    var sendBit: nat
    var delayTime: nat
    ghost var shown: seq<Slot>   // the slots of all interrupts handled so far

    ghost predicate Valid()
      reads this, lists, seqBit, seqTime
    {
      && raw.Length == LEDS && planes.Length0 == REGS && planes.Length1 == BITS
      && lists.Length0 == REGS && lists.Length1 == BITS && seqBit.Length == SEQ_BITS && seqTime.Length == SEQ_BITS
      && seqBit != seqTime && sendSeq < SEQ_BITS
      && (forall i | 0 <= i < SEQ_BITS :: seqBit[i] == BitOrder(i) && seqTime[i] == BitTime(BitOrder(i)))
      && forall bit | 0 <= bit < BITS :: ListIs(List(bit))
    }

    /** The list the handler starts for plane `bit`. */
    ghost function List(bit: nat): seq<Link>
      requires lists.Length0 == REGS && bit < lists.Length1
      reads lists
    {
      seq(REGS, k requires 0 <= k < REGS reads lists => lists[k, bit])
    }

    /** The planes are the transposed brightness values: light `led` is bit led mod 15 of
        register led div 15; bit 15 of every word is 0. */
    ghost predicate Transposed()
      requires raw.Length == LEDS && planes.Length0 == REGS && planes.Length1 == BITS
      reads raw, planes
    {
      forall reg, bit | 0 <= reg < REGS && 0 <= bit < BITS :: WordIs(reg, bit)
    }

    ghost predicate WordIs(reg: nat, bit: nat)
      requires raw.Length == LEDS && planes.Length0 == REGS && planes.Length1 == BITS && reg < REGS && bit < BITS
      reads raw, planes
    {
      && planes[reg, bit] < Pow2(LEDS_P_REG)
      && forall k | 0 <= k < LEDS_P_REG :: BitOf(planes[reg, bit], k) == BitOf(raw[LEDS_P_REG * reg + k], bit)
    }

    /** The inner loop of `calulateLEDMIBAMBits`: the word of one register. Its fifteen
        terms are distinct bits, so OR-ing them is adding them. */
    method Word(reg: nat, bit: nat) returns (w: nat)
      requires raw.Length == LEDS && reg < REGS && bit < BITS
      ensures w < Pow2(LEDS_P_REG)
      ensures forall k | 0 <= k < LEDS_P_REG :: BitOf(w, k) == BitOf(raw[LEDS_P_REG * reg + k], bit)
    {
      w := 0;
      for k := 0 to LEDS_P_REG
        invariant w < Pow2(k)
        invariant forall i | 0 <= i < k :: BitOf(w, i) == BitOf(raw[LEDS_P_REG * reg + i], bit)
      {
        w := AddBit(w, k, raw[LEDS_P_REG * reg + k], bit);
      }
    }

    /** `calulateLEDMIBAMBits`. */
    method Calculate()
      requires raw.Length == LEDS && planes.Length0 == REGS && planes.Length1 == BITS
      modifies planes
      ensures Transposed()
    {
      for bit := 0 to BITS
        invariant forall r, b | 0 <= r < REGS && 0 <= b < bit :: WordIs(r, b)
      {
        for reg := 0 to REGS
          invariant forall r, b | 0 <= r < REGS && 0 <= b < bit :: WordIs(r, b)
          invariant forall r | 0 <= r < reg :: WordIs(r, bit)
        {
          var w := Word(reg, bit);
          label Before:
          planes[reg, bit] := w;
          forall r, b | 0 <= r < REGS && (0 <= b < bit || (b == bit && r < reg))
            ensures WordIs(r, b)
          {
            assert old@Before(WordIs(r, b));
          }
        }
      }
    }

    /** The list-building loops of `LED_init` for one plane. */
    method BuildList(bit: nat)
      requires lists.Length0 == REGS && lists.Length1 == BITS && bit < BITS
      modifies lists
      ensures ListIs(List(bit))
      ensures forall k, b | 0 <= k < REGS && 0 <= b < BITS && b != bit :: lists[k, b] == old(lists[k, b])
    {
      var reg, no := 5, 0;
      while 0 < reg
        invariant 0 <= reg <= 5 && no == 5 - reg
        invariant forall k | 0 <= k < no :: lists[k, bit] == Link(RegAt(k), k + 1)
        invariant forall k, b | 0 <= k < REGS && 0 <= b < BITS && b != bit :: lists[k, b] == old(lists[k, b])
      {
        lists[no, bit] := Link(reg, no + 1);
        reg, no := reg - 1, no + 1;
      }
      lists[no, bit] := Link(reg, no + 1);
      no := no + 1;
      reg := 11;
      while reg > 6
        invariant 6 <= reg <= 11 && no == 17 - reg
        invariant forall k | 0 <= k < no :: lists[k, bit] == Link(RegAt(k), k + 1)
        invariant forall k, b | 0 <= k < REGS && 0 <= b < BITS && b != bit :: lists[k, b] == old(lists[k, b])
      {
        lists[no, bit] := Link(reg, no + 1);
        reg, no := reg - 1, no + 1;
      }
      lists[no, bit] := Link(reg, END_OF_LIST);
    }

    /** The part of `LED_init` that sets up sequence and lists. */
    constructor ()
      ensures Valid() && sendSeq == 0 && shown == []
    {
      raw := new byte[LEDS](_ => 0);
      planes := new nat[REGS, BITS]((_, _) => 0);
      lists := new Link[REGS, BITS]((_, _) => Link(0, END_OF_LIST));
      seqBit := new nat[SEQ_BITS](i requires 0 <= i < SEQ_BITS => BitOrder(i));
      seqTime := new nat[SEQ_BITS](i requires 0 <= i < SEQ_BITS => BitTime(BitOrder(i)));
      sendSeq, sendBit, delayTime, shown := 0, 0, 0, [];
      new;
      for bit := 0 to BITS
        invariant sendSeq == 0 && shown == [] && forall b | 0 <= b < bit :: ListIs(List(b))
        invariant forall i | 0 <= i < SEQ_BITS :: seqBit[i] == BitOrder(i) && seqTime[i] == BitTime(BitOrder(i))
      {
        ghost var before := seq(bit, b requires 0 <= b < bit reads lists => List(b));
        BuildList(bit);
        forall b | 0 <= b < bit
          ensures ListIs(List(b))
        {
          assert List(b) == before[b];
        }
      }
    }

    /** `TIMER0_IRQHandler`: the next plane and its time; the sequence wraps at 16. */
    method Timer0() returns (s: Slot)
      requires Valid()
      modifies this`sendSeq, this`sendBit, this`delayTime, this`shown
      ensures shown == old(shown) + [s]
      ensures Valid() && s == SlotAt(old(sendSeq)) && sendSeq == (old(sendSeq) + 1) % SEQ_BITS
      ensures sendBit == s.bit && delayTime == s.time
    {
      delayTime := seqTime[sendSeq];
      sendBit := seqBit[sendSeq];
      assert sendSeq % SEQ_BITS == sendSeq;
      s := Slot(sendBit, delayTime);
      shown := shown + [s];
      sendSeq := sendSeq + 1;
      if sendSeq >= SEQ_BITS {
        sendSeq := 0;
      }
    }
  }

  /** The words of a plane by register. */
  ghost function PlaneOf(p: Panel, bit: nat): (r: seq<nat>)
    requires p.planes.Length0 == REGS && bit < p.planes.Length1
    reads p.planes
    ensures |r| == REGS
  {
    seq(REGS, k requires 0 <= k < REGS reads p.planes => p.planes[k, bit])
  }

  /** The DMA engine, started on the list of plane `bit`: it fetches word after word until
      the list ends. Every register gets exactly one word, its own of the plane. */
  method SendPlane(p: Panel, bit: nat) returns (words: seq<nat>)
    requires p.Valid() && bit < BITS
    ensures |words| == REGS && forall k | 0 <= k < REGS :: words[k] == p.planes[RegAt(k), bit]
    ensures forall chain: seq<nat> | |chain| == REGS ::
              PushedAll(chain, words) == PlaneOf(p, bit)[6..] + PlaneOf(p, bit)[..6]
  {
    words := [];
    var k: int := 0;
    while k != END_OF_LIST
      invariant |words| <= REGS && k == if |words| < REGS then |words| else END_OF_LIST
      invariant forall i | 0 <= i < |words| :: words[i] == p.planes[RegAt(i), bit]
      decreases REGS - |words|
    {
      assert p.List(bit)[k] == p.lists[k, bit];
      var item := p.lists[k, bit];
      words := words + [p.planes[item.reg, bit]];
      k := item.next;
    }
    forall chain: seq<nat> | |chain| == REGS
      ensures PushedAll(chain, words) == PlaneOf(p, bit)[6..] + PlaneOf(p, bit)[..6]
    {
      ChainHolds(chain, words, PlaneOf(p, bit));
    }
  }

  /** The word that the list of plane `bit` sends for register `reg`. */
  ghost function WordFor(p: Panel, reg: nat, bit: nat): nat
    requires p.Valid() && reg < REGS && bit < BITS
    reads p, p.lists, p.seqBit, p.seqTime, p.planes
  {
    assert p.List(bit)[RegAt(reg)] == p.lists[RegAt(reg), bit];
    p.planes[p.lists[RegAt(reg), bit].reg, bit]
  }

  /** The time light `led` is lit in slot `s`: its bit of the word its register was sent. */
  ghost function Lit(p: Panel, led: nat, s: Slot): nat
    requires p.Valid() && led < LEDS && s.bit < BITS
    reads p, p.lists, p.seqBit, p.seqTime, p.planes
  {
    BitOf(WordFor(p, led / LEDS_P_REG, s.bit), led % LEDS_P_REG) * s.time
  }

  /** And over several slots. */
  ghost function LitOver(p: Panel, led: nat, slots: seq<Slot>): nat
    requires p.Valid() && led < LEDS && forall i | 0 <= i < |slots| :: slots[i].bit < BITS
    reads p, p.lists, p.seqBit, p.seqTime, p.planes
  {
    if slots == [] then 0 else LitOver(p, led, slots[..|slots| - 1]) + Lit(p, led, slots[|slots| - 1])
  }

  /** The `n` slots of a running panel from interrupt `from` on. */
  function SlotsFrom(from: nat, n: nat): (r: seq<Slot>)
    ensures |r| == n && forall i | 0 <= i < n :: r[i] == SlotAt(from + i)
  {
    seq(n, i requires 0 <= i < n => SlotAt(from + i))
  }

  /** The word sent for a register carries the bits of its lights. */
  lemma LitIsOnTime(p: Panel, led: nat, i: nat)
    requires p.Valid() && p.Transposed() && led < LEDS
    ensures SlotAt(i).bit < BITS && Lit(p, led, SlotAt(i)) == OnTime(p.raw[led], SlotAt(i))
  {
    var reg, k, bit := led / LEDS_P_REG, led % LEDS_P_REG, SlotAt(i).bit;
    assert LEDS_P_REG * reg + k == led;
    WordForIs(p, reg, bit);
    assert p.WordIs(reg, bit);
  }

  lemma WordForIs(p: Panel, reg: nat, bit: nat)
    requires p.Valid() && reg < REGS && bit < BITS
    ensures WordFor(p, reg, bit) == p.planes[reg, bit] && RegAt(RegAt(reg)) == reg
  {
    assert p.List(bit)[RegAt(reg)] == p.lists[RegAt(reg), bit];
  }

  lemma {:induction false} LitOverIs(p: Panel, led: nat, from: nat, n: nat)
    requires p.Valid() && p.Transposed() && led < LEDS
    ensures LitOver(p, led, SlotsFrom(from, n)) == OnTimes(p.raw[led], from, n)
  {
    if n > 0 {
      var front, last := SlotsFrom(from, n - 1), SlotAt(from + (n - 1));
      LitOverIs(p, led, from, n - 1);
      SlotsMore(p.raw[led], from, n - 1);
      LitIsOnTime(p, led, from + (n - 1));
      LitOverMore(p, led, front, last);
      assert SlotsFrom(from, n) == front + [last];
    }
  }

  lemma LitOverMore(p: Panel, led: nat, front: seq<Slot>, s: Slot)
    requires p.Valid() && led < LEDS && s.bit < BITS && forall i | 0 <= i < |front| :: front[i].bit < BITS
    ensures LitOver(p, led, front + [s]) == LitOver(p, led, front) + Lit(p, led, s)
  {
    assert (front + [s])[..|front|] == front;
  }

  /** Sixteen interrupts of a running panel, from whatever phase it is in: they show the
      sixteen slots from there on, and in these, by the words the lists send, light `led`
      is lit for sixteen units per step of its brightness. */
  method SixteenInterrupts(p: Panel, led: nat) returns (slots: seq<Slot>, lit: nat)
    requires p.Valid() && p.Transposed() && led < LEDS
    modifies p`sendSeq, p`sendBit, p`delayTime, p`shown
    ensures p.Valid() && p.sendSeq == old(p.sendSeq)
    ensures slots == SlotsFrom(old(p.sendSeq), SEQ_BITS) && p.shown == old(p.shown) + slots
    ensures lit == LitOver(p, led, slots) == 16 * (p.raw[led] as int)
  {
    ghost var from := p.sendSeq;
    RoundTrip(from);
    slots, lit := Interrupts(p, led, from);
    OnTimeProportional(p.raw[led], from);
    LitOverIs(p, led, from, SEQ_BITS);
  }

  lemma RoundTrip(from: nat)
    requires from < SEQ_BITS
    ensures from % SEQ_BITS == from && (from + SEQ_BITS) % SEQ_BITS == from
  {
  }

  method Interrupts(p: Panel, led: nat, ghost from: nat) returns (slots: seq<Slot>, lit: nat)
    requires p.Valid() && p.Transposed() && led < LEDS && p.sendSeq == from % SEQ_BITS
    modifies p`sendSeq, p`sendBit, p`delayTime, p`shown
    ensures p.Valid() && p.Transposed() && p.sendSeq == (from + SEQ_BITS) % SEQ_BITS
    ensures slots == SlotsFrom(from, SEQ_BITS) && p.shown == old(p.shown) + slots
    ensures lit == OnTimes(p.raw[led], from, SEQ_BITS)
  {
    slots, lit := [], 0;
    var n := 0;
    while n < SEQ_BITS
      invariant n <= SEQ_BITS && p.Valid() && p.Transposed() && p.sendSeq == (from + n) % SEQ_BITS
      invariant slots == SlotsFrom(from, n) && p.shown == old(p.shown) + slots
      invariant lit == OnTimes(p.raw[led], from, n)
    {
      SlotsMore(p.raw[led], from, n);
      var s, more := OneInterrupt(p, led, from + n);
      slots, lit, n := slots + [s], lit + more, n + 1;
    }
  }

  lemma SlotsMore(v: byte, from: nat, n: nat)
    ensures SlotsFrom(from, n + 1) == SlotsFrom(from, n) + [SlotAt(from + n)]
    ensures OnTimes(v, from, n + 1) == OnTimes(v, from, n) + OnTime(v, SlotAt(from + n))
  {
  }

  /** One interrupt, the list it starts, and how long the light is on. */
  method OneInterrupt(p: Panel, led: nat, ghost i: nat) returns (s: Slot, lit: nat)
    requires p.Valid() && p.Transposed() && led < LEDS && p.sendSeq == i % SEQ_BITS
    modifies p`sendSeq, p`sendBit, p`delayTime, p`shown
    ensures p.Valid() && p.Transposed() && p.sendSeq == (i + 1) % SEQ_BITS
    ensures p.shown == old(p.shown) + [s]
    ensures s == SlotAt(i) && lit == Lit(p, led, s) == OnTime(p.raw[led], s)
  {
    SamePhase(i);
    s := p.Timer0();
    LitIsOnTime(p, led, i);
    var words := SendPlane(p, s.bit);
    var reg := led / LEDS_P_REG;
    WordForIs(p, reg, s.bit);
    lit := BitOf(words[RegAt(reg)], led % LEDS_P_REG) * s.time;
  }

  lemma SamePhase(i: nat)
    ensures SlotAt(i % SEQ_BITS) == SlotAt(i) && (i % SEQ_BITS + 1) % SEQ_BITS == (i + 1) % SEQ_BITS
  {
    var q, r := i / SEQ_BITS, i % SEQ_BITS;
    assert i == SEQ_BITS * q + r && r % SEQ_BITS == r;
    assert i + 1 == SEQ_BITS * q + (r + 1);
  }
}
