/** Numbers as text: the printers of Equinox/term_io.c and
    Equinox/libraries/R2C2/sermsg.c, and the reader of Equinox/term_io.c. */
module Digits {
  import opened Bytes

  type i32 = x: int | -0x8000_0000 <= x < 0x8000_0000

  const SPACE: byte := 0x20
  const MINUS: byte := 0x2D
  const ZERO: byte := 0x30

  /** The character of a digit: 0-9, then A-F. */
  function DigitChar(d: nat): byte
    requires d < 16
  {
    if d >= 10 then ZERO + d + 7 else ZERO + d
  }

  /** Canonical digits, most significant first. */
  function Canonical(v: nat, r: nat): (s: seq<byte>)
    requires 2 <= r <= 16
    ensures |s| > 0
    decreases v
  {
    if v < r then [DigitChar(v)] else Canonical(v / r, r) + [DigitChar(v % r)]
  }

  /** What a text of digits is worth: the last one counts once, those before it `r` times. */
  function Worth(s: seq<byte>, r: nat): int {
    if s == [] then 0 else Worth(s[..|s| - 1], r) * r + DigitWorth(s[|s| - 1])
  }

  function DigitWorth(c: byte): int {
    if c <= '9' as int then c - '0' as int else c - 'A' as int + 10
  }

  /** A digit below `r`, in capitals. */
  predicate IsDigit(c: byte, r: nat) {
    ('0' as int <= c <= '9' as int || 'A' as int <= c <= 'F' as int) && DigitWorth(c) < r
  }

  /** The canonical text is worth the number. */
  lemma {:induction false} CanonicalWorth(v: nat, r: nat)
    requires 2 <= r <= 16
    ensures Worth(Canonical(v, r), r) == v
    decreases v
  {
    var h, d := v / r, v % r;
    Divided(v, r, h, d);
    if v >= r {
      CanonicalWorth(h, r);
      WorthMore(Canonical(h, r), DigitChar(d), r);
    } else {
      WorthMore([], DigitChar(v), r);
      assert [] + [DigitChar(v)] == [DigitChar(v)];
    }
    CharWorth(d);
  }

  lemma CharWorth(d: nat)
    requires d < 16
    ensures DigitWorth(DigitChar(d)) == d && (d > 0 ==> DigitChar(d) != '0' as int)
    ensures forall r | d < r :: IsDigit(DigitChar(d), r)
  {
  }

  lemma Divided(v: nat, r: nat, h: nat, d: nat)
    requires 2 <= r && h == v / r && d == v % r
    ensures h * r + d == v && d < r && (v >= r ==> 0 < h < v) && (v < r ==> h == 0 && d == v)
  {
    if v < r {
      Small(v, r);
    }
  }

  lemma Small(v: nat, r: nat)
    requires v < r
    ensures v / r == 0 && v % r == v
  {
  }

  /** It has digits of the radix only, and does not begin with a zero unless it is one. */
  lemma {:induction false} CanonicalDigits(v: nat, r: nat)
    requires 2 <= r <= 16
    ensures (v > 0 ==> Canonical(v, r)[0] != '0' as int) && forall c | c in Canonical(v, r) :: IsDigit(c, r)
    decreases v
  {
    var h, d := v / r, v % r;
    Divided(v, r, h, d);
    CharWorth(d);
    if v >= r {
      CanonicalDigits(h, r);
    }
  }

  lemma WorthMore(s: seq<byte>, c: byte, r: nat)
    ensures Worth(s + [c], r) == Worth(s, r) * r + DigitWorth(c)
  {
    assert (s + [c])[..|s|] == s;
  }

  function Repeat(c: byte, n: nat): (s: seq<byte>)
    ensures |s| == n
  {
    if n == 0 then [] else [c] + Repeat(c, n - 1)
  }

  /** Filled on the left to at least `n` characters. */
  function Padded(s: seq<byte>, n: nat, c: byte): seq<byte> {
    if |s| < n then Repeat(c, n - |s|) + s else s
  }

  function Reverse(s: seq<byte>): (r: seq<byte>)
    ensures |r| == |s|
  {
    if s == [] then [] else Reverse(s[1..]) + [s[0]]
  }

  lemma {:induction false} ReverseAppend(a: seq<byte>, b: seq<byte>)
    ensures Reverse(a + b) == Reverse(b) + Reverse(a)
  {
    if a == [] {
      assert a + b == b;
    } else {
      assert (a + b)[1..] == a[1..] + b;
      ReverseAppend(a[1..], b);
    }
  }

  lemma {:induction false} ReverseRepeat(c: byte, n: nat)
    ensures Reverse(Repeat(c, n)) == Repeat(c, n) && Repeat(c, n) + [c] == [c] + Repeat(c, n)
  {
    if n > 0 {
      ReverseRepeat(c, n - 1);
      assert Repeat(c, n)[1..] == Repeat(c, n - 1);
      assert [c] + Repeat(c, n - 1) + [c] == [c] + (Repeat(c, n - 1) + [c]);
    }
  }

  lemma {:induction false} CanonicalLength(v: nat, r: nat, k: nat)
    requires 2 <= r <= 16 && k > 0 && v < Power(r, k)
    ensures |Canonical(v, r)| <= k
    decreases k
  {
    if v >= r {
      DivPower(v, r, k);
      CanonicalLength(v / r, r, k - 1);
    }
  }

  function Power(r: nat, k: nat): nat {
    if k == 0 then 1 else r * Power(r, k - 1)
  }

  lemma DivPower(v: nat, r: nat, k: nat)
    requires r > 0 && k > 0 && v < Power(r, k)
    ensures v / r < Power(r, k - 1)
  {
    Cancel(r, v / r, Power(r, k - 1));
  }

  lemma Cancel(r: nat, q: nat, p: nat)
    requires r > 0 && r * q < r * p
    ensures q < p
  {
  }

  // ---- xitoa

  /** The magnitude `xitoa` prints: radix -10 asks for a sign. It is taken in 32 bits, so
      that the least value, which has no positive counterpart, comes out right. */
  function Magnitude(val: i32, radix: int): (v: u32)
    ensures radix < 0 && val < 0 ==> v as int == 0 - val as int
    ensures val >= 0 ==> v == val
  {
    if radix < 0 && val < 0 then (0 - val as int) % 0x1_0000_0000 else val as int % 0x1_0000_0000
  }

  function SignOf(val: i32, radix: int): seq<byte> {
    if radix < 0 && val < 0 then [MINUS] else []
  }

  /** What `xitoa` prints. */
  function Printed(val: i32, radix: int, len: int): seq<byte>
    requires radix in [-10, 10, 16]
  {
    var digits := Canonical(Magnitude(val, radix), if radix < 0 then -radix else radix);
    var width, pad := if len < 0 then -len else len, if len < 0 then ZERO else SPACE;
    if width > 20 then [] else Padded(SignOf(val, radix) + digits, width, pad)
  }

  /** The digit loop of `xitoa`: digits come out least significant first. */
  method PutDigits(s: array<byte>, v0: u32, r: nat) returns (i: nat)
    requires s.Length == 20 && (r == 10 || r == 16)
    modifies s
    ensures i <= 10 && Reverse(s[..i]) == Canonical(v0, r)
  {
    DigitCount(v0, r);
    var v: nat := v0;
    i := 0;
    var more := true;
    while more
      invariant 0 <= i <= 10
      invariant more ==> i + |Canonical(v, r)| <= 10 && Canonical(v, r) + Reverse(s[..i]) == Canonical(v0, r)
      invariant !more ==> Reverse(s[..i]) == Canonical(v0, r)
      decreases v, more
    {
      ghost var before := s[..i];
      PutDigit(s, i, v % r);
      DigitMoves(v, r, Reverse(before));
      i := i + 1;
      v := v / r;
      more := v != 0;
    }
  }

  method PutDigit(s: array<byte>, i: nat, d: nat)
    requires i < s.Length && d < 16
    modifies s
    ensures Reverse(s[..i + 1]) == [DigitChar(d)] + Reverse(old(s[..i]))
  {
    ghost var before := s[..i];
    s[i] := if d >= 10 then d + 7 + ZERO else d + ZERO;
    assert s[..i + 1] == before + [DigitChar(d)];
    ReverseAppend(before, [DigitChar(d)]);
    assert Reverse([DigitChar(d)]) == [DigitChar(d)];
  }

  lemma DigitMoves(v: nat, r: nat, t: seq<byte>)
    requires r == 10 || r == 16
    ensures v / r != 0 ==> 0 < v / r < v && |Canonical(v / r, r)| + 1 == |Canonical(v, r)|
                           && Canonical(v / r, r) + ([DigitChar(v % r)] + t) == Canonical(v, r) + t
    ensures v / r == 0 ==> [DigitChar(v % r)] + t == Canonical(v, r) + t
  {
    Halves(v, r);
    if v >= r {
      Regroup(Canonical(v / r, r), [DigitChar(v % r)], t);
    }
  }

  lemma Halves(v: nat, r: nat)
    requires r == 2 || r == 8 || r == 10 || r == 16
    ensures v >= r ==> 0 < v / r < v
    ensures v < r ==> v / r == 0 && v % r == v
  {
    if r == 2 {
      assert v / r == v / 2 && v % r == v % 2;
    } else if r == 8 {
      assert v / r == v / 8 && v % r == v % 8;
    } else if r == 10 {
      assert v / r == v / 10 && v % r == v % 10;
    } else {
      assert v / r == v / 16 && v % r == v % 16;
    }
  }

  lemma DigitCount(v: u32, r: nat)
    requires r == 10 || r == 16
    ensures |Canonical(v, r)| <= 10
  {
    assert Power(10, 3) == 1000 && Power(10, 6) == 1000 * Power(10, 3) && Power(10, 9) == 1000 * Power(10, 6)
           && Power(10, 10) == 10 * Power(10, 9);
    assert Power(16, 2) == 256 && Power(16, 4) == 256 * Power(16, 2) && Power(16, 6) == 256 * Power(16, 4)
           && Power(16, 8) == 256 * Power(16, 6);
    CanonicalLength(v, r, if r == 10 then 10 else 8);
  }

  /** `xitoa`. */
  method Xitoa(val: i32, radix: int, len: int) returns (out: seq<byte>)
    requires radix in [-10, 10, 16]
    ensures out == Printed(val, radix, len)
  {
    var r := if radix < 0 then -radix else radix;
    var sign := radix < 0 && val < 0;
    var v := Magnitude(val, radix);
    var width, pad := if len < 0 then -len else len, if len < 0 then ZERO else SPACE;
    if width > 20 {
      return [];
    }
    var s := new byte[20](_ => 0);
    var i := PutDigits(s, v, r);
    i := PutSign(s, i, sign);
    i := PutPad(s, i, width, pad);
    out := EmitReversed(s, i);
  }

  method PutSign(s: array<byte>, i0: nat, sign: bool) returns (i: nat)
    requires s.Length == 20 && i0 <= 10
    modifies s
    ensures i <= 11 && Reverse(s[..i]) == (if sign then [MINUS] else []) + Reverse(old(s[..i0]))
  {
    i := i0;
    ghost var before := s[..i];
    if sign {
      s[i] := MINUS;
      assert s[..i + 1] == before + [MINUS];
      ReverseAppend(before, [MINUS]);
      assert Reverse([MINUS]) == [MINUS];
      i := i + 1;
    } else {
      assert [] + Reverse(before) == Reverse(before);
    }
  }

  method PutPad(s: array<byte>, i0: nat, width: nat, pad: byte) returns (i: nat)
    requires s.Length == 20 && i0 <= 20 && width <= 20
    modifies s
    ensures i0 <= i <= 20 && Reverse(s[..i]) == Padded(Reverse(old(s[..i0])), width, pad)
  {
    ghost var before := s[..i0];
    i := i0;
    while i < width
      invariant i0 <= i <= 20 && (i <= width || i == i0)
      invariant s[..i] == before + Repeat(pad, i - i0)
    {
      s[i] := pad;
      ReverseRepeat(pad, i - i0);
      assert s[..i + 1] == before + (Repeat(pad, i - i0) + [pad]);
      i := i + 1;
    }
    ReverseAppend(before, Repeat(pad, i - i0));
    ReverseRepeat(pad, i - i0);
    assert [] + Reverse(before) == Reverse(before);
  }

  /** The output loop `do xputc(s[--i]); while (i)`. */
  method EmitReversed(s: array<byte>, n: nat) returns (out: seq<byte>)
    requires n <= s.Length
    ensures out == Reverse(s[..n])
  {
    var i := n;
    out := [];
    assert s[n..n] == [];
    while i > 0
      invariant 0 <= i <= n && out == Reverse(s[i..n])
    {
      i := i - 1;
      assert s[i..n] == [s[i]] + s[i + 1..n];
      out := out + [s[i]];
    }
    assert s[0..n] == s[..n];
  }
}
