/** `xatoi` of Equinox/term_io.c: reading a number, and reading back what was printed. */
module ReadNumber {
  import opened Bytes
  import opened Digits

  datatype Read = Refused | Value(val: i32)

  const LOWER_A: byte := 0x61
  const LETTER_B: byte := 0x62
  const LETTER_X: byte := 0x78
  const ONE: byte := 0x31
  const NINE: byte := 0x39

  /** The character a pointer to `s` sees; a string ends in a zero. */
  function Head(s: seq<byte>): byte {
    if s == [] then 0 else s[0]
  }

  /** The digit value given to a character, in the 8-bit arithmetic of the source. */
  function DigitValue(c: byte): byte {
    var upper := if c >= LOWER_A then c - 0x20 else c;
    var d := (upper - ZERO) % 256;
    if d >= 17 then d - 7 else d
  }

  function Signed(v: u32, negative: bool): i32 {
    var w := if negative then (0 - v) % 0x1_0000_0000 else v;
    if w < 0x8000_0000 then w else w - 0x1_0000_0000
  }

  /** One more digit, in 32 bits. */
  function Shifted(val: u32, radix: nat, d: nat): u32 {
    (val * radix + d) % 0x1_0000_0000
  }

  /** Digits up to the first character that is not above a space, in 32 bits. */
  function ReadDigits(s: seq<byte>, radix: nat, val: u32, negative: bool): Read {
    if Head(s) <= SPACE then Value(Signed(val, negative))
    else if DigitValue(s[0]) >= radix then Refused
    else ReadDigits(s[1..], radix, Shifted(val, radix, DigitValue(s[0])), negative)
  }

  function SkipSpaces(s: seq<byte>): seq<byte> {
    if Head(s) == SPACE then SkipSpaces(s[1..]) else s
  }

  /** The part after the sign: a prefix picks the radix. */
  function ReadUnsigned(s: seq<byte>, negative: bool): Read {
    if Head(s) == ZERO then
      var t := s[1..];
      if Head(t) <= SPACE then Value(0)
      else if Head(t) == LETTER_X then ReadDigits(t[1..], 16, 0, negative)
      else if Head(t) == LETTER_B then ReadDigits(t[1..], 2, 0, negative)
      else if ZERO <= Head(t) <= NINE then ReadDigits(t, 8, 0, negative)
      else Refused
    else if ONE <= Head(s) <= NINE then ReadDigits(s, 10, 0, negative)
    else Refused
  }

  function ReadNumber(s: seq<byte>): Read {
    var t := SkipSpaces(s);
    if Head(t) == MINUS then ReadUnsigned(t[1..], true) else ReadUnsigned(t, false)
  }

  // ---- the method

  function CharAt(s: seq<byte>, p: nat): byte {
    if p < |s| then s[p] else 0
  }

  method SkipBlanks(s: seq<byte>) returns (p: nat)
    ensures p <= |s| && s[p..] == SkipSpaces(s)
  {
    p := 0;
    assert s[0..] == s;
    while CharAt(s, p) == SPACE
      invariant p <= |s| && SkipSpaces(s[p..]) == SkipSpaces(s)
      decreases |s| - p
    {
      assert s[p..][1..] == s[p + 1..];
      p := p + 1;
    }
  }

  method Accumulate(s: seq<byte>, p0: nat, radix: byte, negative: bool) returns (r: Read)
    requires p0 <= |s|
    ensures r == ReadDigits(s[p0..], radix, 0, negative)
  {
    var p, val: u32 := p0, 0;
    while CharAt(s, p) > SPACE
      invariant p0 <= p <= |s|
      invariant ReadDigits(s[p..], radix, val, negative) == ReadDigits(s[p0..], radix, 0, negative)
      decreases |s| - p
    {
      assert s[p..][1..] == s[p + 1..] && s[p..][0] == s[p];
      var c := DigitOf(s[p]);
      if c >= radix {
        return Refused;
      }
      val := Shifted(val, radix, c);
      p := p + 1;
    }
    r := Value(Signed(val, negative));
  }

  /** The per-character steps of the loop; the refusal of digits below ten after the
      subtraction of seven can never be taken. */
  method DigitOf(c0: byte) returns (c: byte)
    ensures c == DigitValue(c0)
  {
    c := c0;
    if c >= LOWER_A {
      c := c - 0x20;
    }
    c := (c - ZERO) % 256;
    if c >= 17 {
      c := c - 7;
      if c <= 9 {
        assert false;
      }
    }
  }

  method Xatoi(s: seq<byte>) returns (r: Read)
    ensures r == ReadNumber(s)
  {
    var p := SkipBlanks(s);
    if CharAt(s, p) == MINUS {
      assert s[p..][1..] == s[p + 1..];
      r := XatoiUnsigned(s, p + 1, true);
    } else {
      r := XatoiUnsigned(s, p, false);
    }
  }

  method XatoiUnsigned(s: seq<byte>, p0: nat, negative: bool) returns (r: Read)
    requires p0 <= |s|
    ensures r == ReadUnsigned(s[p0..], negative)
  {
    var p, c := p0, CharAt(s, p0);
    if c == ZERO {
      p := p + 1;
      assert s[p0..][1..] == s[p..];
      c := CharAt(s, p);
      if c <= SPACE {
        return Value(0);
      }
      assert s[p..][1..] == s[p + 1..];
      if c == LETTER_X {
        r := Accumulate(s, p + 1, 16, negative);
      } else if c == LETTER_B {
        r := Accumulate(s, p + 1, 2, negative);
      } else if ZERO <= c <= NINE {
        r := Accumulate(s, p, 8, negative);
      } else {
        r := Refused;
      }
    } else if c < ONE || c > NINE {
      r := Refused;
    } else {
      r := Accumulate(s, p, 10, negative);
    }
  }

  // ---- reading back

  lemma DigitReads(d: nat)
    requires d < 16
    ensures DigitValue(DigitChar(d)) == d && DigitChar(d) > SPACE
  {
  }

  /** Reading canonical digits accumulates their number. */
  lemma {:induction false} ReadCanonical(v: u32, r: nat, t: seq<byte>, negative: bool)
    requires r == 2 || r == 8 || r == 10 || r == 16
    ensures ReadDigits(Canonical(v, r) + t, r, 0, negative) == ReadDigits(t, r, v, negative)
    decreases v as int
  {
    Halves(v, r);
    var h, d := v / r, v % r;
    Rebuilt(v, r, h, d);
    if v < r {
      OneDigit(0, v, v, r, t, negative);
    } else {
      ReadCanonical(h, r, [DigitChar(d)] + t, negative);
      Regroup(Canonical(h, r), [DigitChar(d)], t);
      OneDigit(h, d, v, r, t, negative);
    }
  }

  lemma Rebuilt(v: u32, r: nat, h: u32, d: nat)
    requires r > 0 && h == v / r && d == v % r
    ensures Shifted(h, r, d) == v && (v < r ==> Shifted(0, r, v) == v)
  {
    assert h * r + d == v;
  }

  lemma OneDigit(h: u32, d: nat, v: u32, r: nat, t: seq<byte>, negative: bool)
    requires d < r <= 16 && Shifted(h, r, d) == v
    ensures ReadDigits([DigitChar(d)] + t, r, h, negative) == ReadDigits(t, r, v, negative)
  {
    DigitReads(d);
    assert ([DigitChar(d)] + t)[1..] == t;
  }

  lemma {:induction false} LeadingDigit(v: nat, r: nat)
    requires v > 0 && (r == 10 || r == 16)
    ensures Canonical(v, r)[0] > ZERO && (r == 10 ==> Canonical(v, r)[0] <= NINE)
    decreases v
  {
    Halves(v, r);
    if v >= r {
      LeadingDigit(v / r, r);
    }
  }

  lemma {:induction false} SkipPadding(n: nat, s: seq<byte>)
    ensures SkipSpaces(Repeat(SPACE, n) + s) == SkipSpaces(s)
  {
    if n == 0 {
      assert Repeat(SPACE, n) + s == s;
    } else {
      assert (Repeat(SPACE, n) + s)[1..] == Repeat(SPACE, n - 1) + s;
      SkipPadding(n - 1, s);
    }
  }

  lemma ReadMagnitude(v: u32, t: seq<byte>, negative: bool)
    requires Head(t) <= SPACE
    ensures ReadUnsigned(Canonical(v, 10) + t, negative) == Value(Signed(v, negative))
    ensures (Canonical(v, 10) + t)[0] > MINUS
  {
    var s := Canonical(v, 10) + t;
    if v == 0 {
      assert s == [ZERO] + t && s[1..] == t;
    } else {
      LeadingDigit(v, 10);
      ReadCanonical(v, 10, t, negative);
    }
  }

  /** Every signed value printed with any width up to 20, padded by spaces, is read back,
      whatever follows after a blank or the end of the string. */
  lemma PrintedReadsBack(val: i32, width: nat, t: seq<byte>)
    requires width <= 20 && Head(t) <= SPACE
    ensures ReadNumber(Printed(val, -10, width) + t) == Value(val)
  {
    var text := SignOf(val, -10) + Canonical(Magnitude(val, -10), 10);
    SignedReadsBack(val, t);
    if |text| < width {
      var pad := Repeat(SPACE, width - |text|);
      Regroup(pad, text, t);
      SkipPadding(width - |text|, text + t);
    }
  }

  lemma SignedReadsBack(val: i32, t: seq<byte>)
    requires Head(t) <= SPACE
    ensures ReadNumber(SignOf(val, -10) + Canonical(Magnitude(val, -10), 10) + t) == Value(val)
  {
    var v, sign := Magnitude(val, -10), SignOf(val, -10);
    ReadMagnitude(v, t, val < 0);
    SignBack(val, v);
    Regroup(sign, Canonical(v, 10), t);
    SignRead(Canonical(v, 10) + t);
  }

  lemma SignBack(val: i32, v: u32)
    requires v == Magnitude(val, -10)
    ensures Signed(v, val < 0) == val
  {
  }

  lemma SignRead(body: seq<byte>)
    requires |body| > 0 && body[0] > MINUS
    ensures ReadNumber([MINUS] + body) == ReadUnsigned(body, true)
    ensures ReadNumber([] + body) == ReadUnsigned(body, false)
  {
    assert ([MINUS] + body)[0] == MINUS && ([MINUS] + body)[1..] == body;
    assert [] + body == body;
  }

  /** The digits behind a prefix: 0x is hexadecimal, 0b binary, a lone 0 octal. */
  lemma PrefixPicks(s: seq<byte>, negative: bool)
    ensures ReadUnsigned([0x30, 0x78] + s, negative) == ReadDigits(s, 16, 0, negative)
    ensures ReadUnsigned([0x30, 0x62] + s, negative) == ReadDigits(s, 2, 0, negative)
    ensures 0x30 <= Head(s) <= 0x39 ==> ReadUnsigned([0x30] + s, negative) == ReadDigits(s, 8, 0, negative)
  {
    assert ([0x30, 0x78] + s)[1..] == [0x78] + s && ([0x78] + s)[1..] == s;
    assert ([0x30, 0x62] + s)[1..] == [0x62] + s && ([0x62] + s)[1..] == s;
    assert ([0x30] + s)[1..] == s;
  }

  lemma {:induction false} OctalFirst(v: nat)
    ensures 0x30 <= Canonical(v, 8)[0] <= 0x37
    decreases v
  {
    if v >= 8 {
      OctalFirst(v / 8);
    }
  }

  /** What stands in front of the digits. */
  function PrefixOf(r: nat): (p: seq<byte>)
    ensures |p| > 0 && p[0] > MINUS
  {
    if r == 16 then [0x30, 0x78] else if r == 2 then [0x30, 0x62] else [0x30]
  }

  /** The 32-bit numbers in the three radices, behind their prefixes and a sign, are read
      back, in two's complement for the upper half. */
  lemma RadixReadsBack(v: u32, r: nat, negative: bool, t: seq<byte>)
    requires (r == 2 || r == 8 || r == 16) && Head(t) <= SPACE
    ensures var sign := if negative then [0x2D] else [];
            ReadNumber(sign + (PrefixOf(r) + (Canonical(v, r) + t))) == Value(Signed(v, negative))
  {
    var s := Canonical(v, r) + t;
    PrefixPicks(s, negative);
    OctalFirst(v);
    ReadCanonical(v, r, t, negative);
    SignRead(PrefixOf(r) + s);
  }

  // ---- What the reader accepts beyond numbers

  /** A digit of the radix, as one would write it. */
  predicate Proper(c: byte, radix: nat) {
    (ZERO <= c <= NINE && c - ZERO < radix) || (radix == 16 && (0x41 <= c <= 0x46 || 0x61 <= c <= 0x66))
  }

  /** The characters between '9' and 'A', all but the last of the seven. */
  predicate Stray(c: byte) {
    0x3A <= c <= 0x3F
  }

  /** A character counts as a digit exactly if it is one, or, in hexadecimal, a stray. */
  lemma DigitExactly(c: byte, radix: nat)
    requires radix == 2 || radix == 8 || radix == 10 || radix == 16
    ensures DigitValue(c) < radix <==> Proper(c, radix) || (radix == 16 && Stray(c))
  {
  }

  /** The same reader with proper digits only. */
  function StrictDigits(s: seq<byte>, radix: nat, val: u32, negative: bool): Read {
    if Head(s) <= SPACE then Value(Signed(val, negative))
    else if !Proper(s[0], radix) then Refused
    else StrictDigits(s[1..], radix, Shifted(val, radix, DigitValue(s[0])), negative)
  }

  function StrictUnsigned(s: seq<byte>, negative: bool): Read {
    if Head(s) == ZERO then
      var t := s[1..];
      if Head(t) <= SPACE then Value(0)
      else if Head(t) == LETTER_X then StrictDigits(t[1..], 16, 0, negative)
      else if Head(t) == LETTER_B then StrictDigits(t[1..], 2, 0, negative)
      else if ZERO <= Head(t) <= NINE then StrictDigits(t, 8, 0, negative)
      else Refused
    else if ONE <= Head(s) <= NINE then StrictDigits(s, 10, 0, negative)
    else Refused
  }

  function StrictNumber(s: seq<byte>): Read {
    var t := SkipSpaces(s);
    if Head(t) == MINUS then StrictUnsigned(t[1..], true) else StrictUnsigned(t, false)
  }

  /** Up to the first blank: hexadecimal digits and strays, at least one stray. */
  predicate Strays(s: seq<byte>) {
    HexOrStray(s) && SomeStray(s)
  }

  predicate HexOrStray(s: seq<byte>) {
    Head(s) <= SPACE || ((Proper(s[0], 16) || Stray(s[0])) && HexOrStray(s[1..]))
  }

  predicate SomeStray(s: seq<byte>) {
    Head(s) > SPACE && (Stray(s[0]) || SomeStray(s[1..]))
  }

  lemma {:induction false} LooseDigits(s: seq<byte>, val: u32, negative: bool)
    ensures ReadDigits(s, 16, val, negative).Value? <==> HexOrStray(s)
    ensures StrictDigits(s, 16, val, negative).Value? <==> HexOrStray(s) && !SomeStray(s)
    ensures !SomeStray(s) ==> ReadDigits(s, 16, val, negative) == StrictDigits(s, 16, val, negative)
  {
    if Head(s) > SPACE {
      DigitExactly(s[0], 16);
      LooseDigits(s[1..], Shifted(val, 16, DigitValue(s[0])), negative);
    }
  }

  lemma {:induction false} SameDigits(s: seq<byte>, radix: nat, val: u32, negative: bool)
    requires radix == 2 || radix == 8 || radix == 10
    ensures ReadDigits(s, radix, val, negative) == StrictDigits(s, radix, val, negative)
  {
    if Head(s) > SPACE {
      DigitExactly(s[0], radix);
      SameDigits(s[1..], radix, Shifted(val, radix, DigitValue(s[0])), negative);
    }
  }

  /** The digits behind 0x, if the text starts like that. */
  function BehindPrefix(s: seq<byte>): seq<byte> {
    var t := SkipSpaces(s);
    var u := if Head(t) == MINUS then t[1..] else t;
    if Head(u) == ZERO && Head(u[1..]) == LETTER_X then u[2..] else []
  }

  /** `xatoi` reads every text as a reader of proper digits does, except exactly those that
      have strays among the hexadecimal digits behind 0x. */
  lemma StraysExactly(s: seq<byte>)
    ensures ReadNumber(s) == StrictNumber(s) <==> !Strays(BehindPrefix(s))
  {
    var t := SkipSpaces(s);
    var negative := Head(t) == MINUS;
    var u := if negative then t[1..] else t;
    UnsignedExactly(u, negative);
  }

  lemma UnsignedExactly(u: seq<byte>, negative: bool)
    ensures var rest := if Head(u) == ZERO && Head(u[1..]) == LETTER_X then u[2..] else [];
            ReadUnsigned(u, negative) == StrictUnsigned(u, negative) <==> !Strays(rest)
  {
    if Head(u) == ZERO {
      var t := u[1..];
      if Head(t) == LETTER_X {
        assert u[2..] == t[1..];
        LooseDigits(t[1..], 0, negative);
      } else if Head(t) == LETTER_B {
        SameDigits(t[1..], 2, 0, negative);
      } else if ZERO <= Head(t) <= NINE {
        SameDigits(t, 8, 0, negative);
      }
    } else if ONE <= Head(u) <= NINE {
      SameDigits(u, 10, 0, negative);
    }
  }

  /** The text "0x:" is read as ten. */
  lemma ColonIsTen()
    ensures ReadNumber([ZERO, LETTER_X, 0x3A]) == Value(10) && StrictNumber([ZERO, LETTER_X, 0x3A]) == Refused
  {
    var s: seq<byte> := [ZERO, LETTER_X, 0x3A];
    assert s[1..] == [LETTER_X, 0x3A] && s[1..][1..] == [0x3A] && [0x3A][1..] == [];
    assert ReadDigits([0x3A], 16, 0, false) == Value(10);
  }
}
