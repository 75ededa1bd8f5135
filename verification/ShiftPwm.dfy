/** Equinox/libraries/LED/ShiftPWM.c: bit-angle modulation. Each bit plane of the
    brightness values is shown for a time proportional to the weight of its bit. */
module ShiftPwm {
  import opened Bytes

  const REGS: nat := 12
  const LEDS: nat := 180
  const LEDS_P_REG: nat := 15
  const BITS: nat := 8
  const SEQ_BITS: nat := 16
  const START_TIME: nat := 1024

  function Pow2(n: nat): (r: nat)
    ensures r > 0
  {
    if n == 0 then 1 else 2 * Pow2(n - 1)
  }

  /** Bit `k` of `v`. */
  function BitOf(v: nat, k: nat): (b: nat)
    ensures b < 2
    decreases k
  {
    if k == 0 then v % 2 else BitOf(v / 2, k - 1)
  }

  // ---- Sums of bits

  /** The number made of its low `n` bits. */
  function LowBits(v: nat, n: nat): nat {
    if n == 0 then 0 else LowBits(v, n - 1) + BitOf(v, n - 1) * Pow2(n - 1)
  }

  lemma {:induction false} LowBitsHalf(v: nat, n: nat)
    ensures LowBits(v, n + 1) == v % 2 + 2 * LowBits(v / 2, n)
  {
    if n > 0 {
      LowBitsHalf(v, n - 1);
      var b, p := BitOf(v / 2, n - 1), Pow2(n - 1);
      assert BitOf(v, n) == b && Pow2(n) == 2 * p;
      assert b * (2 * p) == 2 * (b * p);
    }
  }

  lemma {:induction false} LowBitsAll(v: nat, n: nat)
    requires v < Pow2(n)
    ensures LowBits(v, n) == v
  {
    if n > 0 {
      LowBitsHalf(v, n - 1);
      LowBitsAll(v / 2, n - 1);
    }
  }

  /** Setting a bit above all others. */
  lemma {:induction false} AddTop(w: nat, n: nat, b: nat, k: nat)
    requires w < Pow2(n) && b < 2
    ensures w + b * Pow2(n) < Pow2(n + 1)
    ensures k < n ==> BitOf(w + b * Pow2(n), k) == BitOf(w, k)
    ensures BitOf(w + b * Pow2(n), n) == b
    decreases n
  {
    if n > 0 {
      var h := w / 2 + b * Pow2(n - 1);
      assert b * Pow2(n) == 2 * (b * Pow2(n - 1));
      assert (w + b * Pow2(n)) / 2 == h && (w + b * Pow2(n)) % 2 == w % 2;
      AddTop(w / 2, n - 1, b, if k > 0 then k - 1 else 0);
    }
  }

  // ---- The schedule

  /** BITORDER and BITTIME. */
  function BitOrder(i: nat): (b: nat)
    requires i < SEQ_BITS
    ensures b < BITS
  {
    if i < 8 then i else i - 8
  }

  function BitTime(b: nat): nat
    requires b < BITS
  {
    Quotient(START_TIME, Pow2(7 - b))
  }

  function Quotient(a: nat, p: nat): nat
    requires p > 0
  {
    a / p
  }

  lemma BitTimes(b: nat)
    requires b < BITS
    ensures BitTime(b) == 8 * Pow2(b)
  {
    assert Pow2(7) == 128 && Pow2(6) == 64 && Pow2(5) == 32 && Pow2(4) == 16 && Pow2(3) == 8 && Pow2(2) == 4
           && Pow2(1) == 2;
  }

  /** One interrupt: which plane is shown next, and for how long. */
  datatype Slot = Slot(bit: nat, time: nat)

  /** The slot of interrupt number `i` from a fresh start. */
  function SlotAt(i: nat): Slot {
    var b := BitOrder(i % SEQ_BITS);
    Slot(b, BitTime(b))
  }

  /** The planes come round in ascending order, each for eight times the weight of its bit. */
  lemma SlotsAre(i: nat)
    ensures SlotAt(i) == Slot(i % 8, 8 * Pow2(i % 8))
  {
    var q, r := i / 16, i % 16;
    var b := if r < 8 then r else r - 8;
    assert i == 8 * (2 * q + if r < 8 then 0 else 1) + b;
    assert i % 8 == b;
    BitTimes(b);
  }

  /** How long a light of brightness `v` is on in slot `s`. */
  function OnTime(v: byte, s: Slot): nat {
    BitOf(v, s.bit) * s.time
  }

  /** On-time over `n` interrupts from number `from` on. */
  function OnTimes(v: byte, from: nat, n: nat): nat {
    if n == 0 then 0 else OnTimes(v, from, n - 1) + OnTime(v, SlotAt(from + n - 1))
  }

  lemma {:induction false} OnTimesFirst(v: byte, from: nat, n: nat)
    ensures OnTimes(v, from, n + 1) == OnTime(v, SlotAt(from)) + OnTimes(v, from + 1, n)
  {
    if n > 0 {
      OnTimesFirst(v, from, n - 1);
    }
  }

  lemma SlotTime(v: byte, from: nat, n: nat)
    requires n < BITS && (from == 0 || from == 8)
    ensures OnTime(v, SlotAt(from + n)) == 8 * (BitOf(v, n) * Pow2(n))
  {
    assert (from + n) % SEQ_BITS == from + n;
    assert SlotAt(from + n) == Slot(n, BitTime(n));
    BitTimes(n);
    Scale(BitOf(v, n), Pow2(n));
  }

  lemma Scale(b: nat, p: nat)
    ensures b * (8 * p) == 8 * (b * p)
  {
  }

  lemma {:induction false} HalfRound(v: byte, from: nat, n: nat)
    requires n <= BITS && (from == 0 || from == 8)
    ensures OnTimes(v, from, n) == 8 * LowBits(v, n)
  {
    if n > 0 {
      HalfRound(v, from, n - 1);
      SlotTime(v, from, n - 1);
    }
  }

  lemma {:induction false} OnTimesSplit(v: byte, from: nat, a: nat, b: nat)
    ensures OnTimes(v, from, a + b) == OnTimes(v, from, a) + OnTimes(v, from + a, b)
  {
    if b > 0 {
      OnTimesSplit(v, from, a, b - 1);
    }
  }

  lemma FirstRound(v: byte)
    ensures OnTimes(v, 0, SEQ_BITS) == 16 * v
  {
    HalfRound(v, 0, 8);
    HalfRound(v, 8, 8);
    OnTimesSplit(v, 0, 8, 8);
    assert Pow2(8) == 2 * Pow2(7) && Pow2(7) == 2 * Pow2(6) && Pow2(6) == 2 * Pow2(5) && Pow2(5) == 2 * Pow2(4)
           && Pow2(4) == 16;
    LowBitsAll(v, 8);
  }

  lemma Periodic(i: nat)
    ensures SlotAt(i + SEQ_BITS) == SlotAt(i)
  {
    assert (i + SEQ_BITS) % SEQ_BITS == i % SEQ_BITS;
  }

  /** Over any sixteen consecutive interrupts, from any phase, a light is on for exactly
      sixteen time units per step of its brightness. */
  lemma {:induction false} OnTimeProportional(v: byte, from: nat)
    ensures OnTimes(v, from, SEQ_BITS) == 16 * v
  {
    if from == 0 {
      FirstRound(v);
    } else {
      OnTimeProportional(v, from - 1);
      OnTimesFirst(v, from - 1, SEQ_BITS - 1);
      Periodic(from - 1);
      assert OnTimes(v, from, SEQ_BITS) == OnTimes(v, from, SEQ_BITS - 1) + OnTime(v, SlotAt(from + SEQ_BITS - 1));
    }
  }

  // ---- The DMA lists

  /** A list item: the register whose word is sent, and where the list goes on. */
  datatype Link = Link(reg: nat, next: int)

  const END_OF_LIST: int := -1

  /** The registers a list sends, from item `k` on, in at most `fuel` items. */
  function Follow(list: seq<Link>, k: int, fuel: nat): seq<nat>
    decreases fuel
  {
    if fuel == 0 || k < 0 || k >= |list| then [] else [list[k].reg] + Follow(list, list[k].next, fuel - 1)
  }

  function RegAt(k: nat): nat
    requires k < REGS
  {
    if k <= 5 then 5 - k else 17 - k
  }

  predicate ListIs(list: seq<Link>) {
    |list| == REGS
        && forall k | 0 <= k < REGS :: list[k] == Link(RegAt(k), if k < REGS - 1 then k + 1 else END_OF_LIST)
  }

  lemma {:induction false} FollowFrom(list: seq<Link>, k: nat, fuel: nat)
    requires ListIs(list) && k < REGS && fuel >= REGS - k
    ensures Follow(list, k, fuel) == seq(REGS - k, i requires 0 <= i < REGS - k => RegAt(k + i))
    decreases REGS - k
  {
    if k < REGS - 1 {
      FollowFrom(list, k + 1, fuel - 1);
    } else {
      assert Follow(list, END_OF_LIST, fuel - 1) == [];
    }
  }

  /** Each list ends, after sending each register exactly once. */
  lemma ListSendsAll(list: seq<Link>, fuel: nat, r: nat)
    requires ListIs(list) && fuel >= REGS && r < REGS
    ensures var s := Follow(list, 0, fuel);
            && |s| == REGS && s == [5, 4, 3, 2, 1, 0, 11, 10, 9, 8, 7, 6] && s[RegAt(r)] == r
            && forall i | 0 <= i < REGS :: s[i] == r ==> i == RegAt(r)
  {
    FollowFrom(list, 0, fuel);
  }

  // ---- The chain of shift registers

  /** A word enters at the near end and pushes the others on; the farthest drops out. */
  function Pushed(chain: seq<nat>, w: nat): (r: seq<nat>)
    requires |chain| == REGS
    ensures |r| == REGS
  {
    [w] + chain[..REGS - 1]
  }

  function PushedAll(chain: seq<nat>, ws: seq<nat>): (r: seq<nat>)
    requires |chain| == REGS
    ensures |r| == REGS
  {
    if ws == [] then chain else Pushed(PushedAll(chain, ws[..|ws| - 1]), ws[|ws| - 1])
  }

  lemma {:induction false} PushedHolds(chain: seq<nat>, ws: seq<nat>)
    requires |chain| == REGS && |ws| <= REGS
    ensures forall j | 0 <= j < |ws| :: PushedAll(chain, ws)[j] == ws[|ws| - 1 - j]
  {
    if ws != [] {
      PushedHolds(chain, ws[..|ws| - 1]);
    }
  }

  /** When a list has been sent, whatever the chain held, the near half of it has the words
      of registers 6 to 11 in order and the far half those of registers 0 to 5. */
  lemma ChainHolds(chain: seq<nat>, ws: seq<nat>, plane: seq<nat>)
    requires |chain| == REGS && |ws| == REGS && |plane| == REGS
    requires forall k | 0 <= k < REGS :: ws[k] == plane[RegAt(k)]
    ensures PushedAll(chain, ws) == plane[6..] + plane[..6]
  {
    PushedHolds(chain, ws);
    var c := PushedAll(chain, ws);
    forall j | 0 <= j < REGS
      ensures c[j] == (plane[6..] + plane[..6])[j]
    {
      assert c[j] == ws[11 - j] == plane[RegAt(11 - j)];
    }
  }
}
