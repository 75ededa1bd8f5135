/** The decimal printers of Equinox/libraries/R2C2/sermsg.c, by repeated subtraction. */
module SerMsg {
  import opened Bytes
  import opened Digits

  /** Digits without the zero: nothing for nought. */
  function Lead(h: nat): seq<byte> {
    if h == 0 then [] else Canonical(h, 10)
  }

  /** The digits `h` of `v0` above place `p` are out, the rest is still in `v`; `t` is not
      zero exactly when something is out. */
  ghost predicate Above(v0: nat, p: nat, h: nat, v: nat, t: nat, out: seq<byte>) {
    v0 == p * h + v && v < p && out == Lead(h) && (t != 0 <==> h != 0)
  }

  lemma LeadGrows(h: nat, d: nat)
    requires d < 10
    ensures Lead(10 * h + d) == if h == 0 && d == 0 then [] else Lead(h) + [DigitChar(d)]
  {
    if h == 0 {
      assert Lead(h) + [DigitChar(d)] == [DigitChar(d)];
    } else {
      assert (10 * h + d) / 10 == h && (10 * h + d) % 10 == d;
    }
  }

  /** Moving the digit `d` of place `p` from the rest to the digits that are out. */
  lemma MoveDigit(v0: nat, p: nat, h: nat, v1: nat, d: nat, v: nat)
    requires v0 == 10 * p * h + v1 && v1 == p * d + v && v1 < 10 * p
    ensures v0 == p * (10 * h + d) + v && d < 10
  {
    assert p * (10 * h + d) == 10 * p * h + p * d;
    Bounded(p, d);
  }

  lemma Bounded(p: nat, d: nat)
    requires p * d < 10 * p
    ensures d < 10
  {
  }

  /** `for (t = 0; v >= p; v -= p, t++);` */
  method CountOff(v0: nat, p: nat) returns (v: nat, t: nat)
    requires p > 0
    ensures v0 == p * t + v && v < p
  {
    v, t := v0, 0;
    while v >= p
      invariant v0 == p * t + v
    {
      assert p * (t + 1) == p * t + p;
      v, t := v - p, t + 1;
    }
  }

  /** The two lowest places divide instead of counting. */
  method DivideOff(v0: nat, p: nat) returns (v: nat, t: nat)
    requires p == 10 || p == 100
    ensures v0 == p * t + v && v < p
  {
    if p == 10 {
      t := v0 / 10;
      v := v0 - t * 10;
    } else {
      t := v0 / 100;
      v := v0 - t * 100;
    }
  }

  /** One place: taken off when there is something, a zero inside the number, nothing in
      front of it. */
  method PutPlace(ghost v0: u32, p: nat, ghost h1: nat, v1: nat, t1: byte, out1: seq<byte>)
    returns (ghost h: nat, v: nat, t: byte, out: seq<byte>)
    requires p > 0 && Above(v0, 10 * p, h1, v1, t1, out1)
    ensures Above(v0, p, h, v, t, out)
  {
    v, t, out := v1, t1, out1;
    if v >= p {
      var d: nat;
      if p != 10 && p != 100 {
        v, d := CountOff(v, p);
      } else {
        v, d := DivideOff(v, p);
      }
      MoveDigit(v0, p, h1, v1, d, v);
      LeadGrows(h1, d);
      h := 10 * h1 + d;
      t := d;
      assert d > 0;
      out := out + [t + ZERO];
    } else {
      MoveDigit(v0, p, h1, v1, 0, v);
      LeadGrows(h1, 0);
      h := 10 * h1;
      if t != 0 {
        out := out + [ZERO];
      }
    }
  }

  /** `serwrite_uint32`. */
  method SerwriteUint32(v0: u32) returns (out: seq<byte>)
    ensures out == Canonical(v0, 10)
  {
    var v: nat, t: byte := v0, 0;
    ghost var h := 0;
    h, v, t, out := PutPlace(v0, 1_000_000_000, h, v, t, []);
    h, v, t, out := PutPlace(v0, 100_000_000, h, v, t, out);
    h, v, t, out := PutPlace(v0, 10_000_000, h, v, t, out);
    h, v, t, out := PutPlace(v0, 1_000_000, h, v, t, out);
    h, v, t, out := PutPlace(v0, 100_000, h, v, t, out);
    h, v, t, out := PutPlace(v0, 10_000, h, v, t, out);
    h, v, t, out := PutPlace(v0, 1_000, h, v, t, out);
    h, v, t, out := PutPlace(v0, 100, h, v, t, out);
    h, v, t, out := PutPlace(v0, 10, h, v, t, out);
    LastDigit(v0, h, v);
    out := out + [v + ZERO];
  }

  lemma LastDigit(v0: nat, h: nat, d: nat)
    requires v0 == 10 * h + d && d < 10
    ensures Lead(h) + [DigitChar(d)] == Canonical(v0, 10)
  {
    if h == 0 {
      assert Lead(h) + [DigitChar(d)] == [DigitChar(d)];
    } else {
      assert v0 / 10 == h && v0 % 10 == d;
    }
  }

  /** The two printers agree, whichever way the 32 bits are read. */
  method PrintersAgree(v: u32) returns (subtracted: seq<byte>, divided: seq<byte>)
    ensures subtracted == divided == Canonical(v, 10)
  {
    subtracted := SerwriteUint32(v);
    divided := Xitoa(if v < 0x8000_0000 then v else v - 0x1_0000_0000, 10, 0);
  }

  /** `serwrite_int32`: the least value is its own negation and still comes out right. */
  method SerwriteInt32(v0: i32) returns (out: seq<byte>)
    ensures out == Printed(v0, -10, 0)
  {
    if v0 < 0 {
      var negated: u32 := (0 - v0 as int) % 0x1_0000_0000;
      out := SerwriteUint32(negated);
      out := [MINUS] + out;
    } else {
      out := SerwriteUint32(v0);
      assert [] + out == out;
    }
  }
}
