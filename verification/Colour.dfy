/** The colour state of Equinox/jscolor.js: RGB through HSV and back, over the reals. */
module Colour {

  datatype Option<T> = None | Some(value: T)
  datatype Rgb = Rgb(r: real, g: real, b: real)

  /** Hue 0 to 6, missing for a grey; saturation and value 0 to 1. */
  datatype Hsv = Hsv(h: Option<real>, s: real, v: real)

  function Min(a: real, b: real): real {
    if a <= b then a else b
  }

  function Max(a: real, b: real): real {
    if a >= b then a else b
  }

  predicate Unit(x: real) {
    0.0 <= x <= 1.0
  }

  predicate InCube(c: Rgb) {
    Unit(c.r) && Unit(c.g) && Unit(c.b)
  }

  /** `RGB_HSV`. */
  function ToHsv(c: Rgb): Hsv
    requires InCube(c)
  {
    var n := Min(Min(c.r, c.g), c.b);
    var v := Max(Max(c.r, c.g), c.b);
    var m := v - n;
    if m == 0.0 then Hsv(None, 0.0, v)
    else
      var h := if c.r == n then 3.0 + (c.b - c.g) / m
               else if c.g == n then 5.0 + (c.r - c.b) / m
               else 1.0 + (c.g - c.r) / m;
      Hsv(Some(if h == 6.0 then 0.0 else h), m / v, v)
  }

  /** The six sectors of `HSV_RGB`; `n` is the middle component, `m` the lowest. */
  function Sector(i: int, v: real, n: real, m: real): Rgb
    requires 0 <= i <= 6
  {
    if i == 0 || i == 6 then Rgb(v, n, m)
    else if i == 1 then Rgb(n, v, m)
    else if i == 2 then Rgb(m, v, n)
    else if i == 3 then Rgb(m, n, v)
    else if i == 4 then Rgb(n, m, v)
    else Rgb(v, m, n)
  }

  /** How far into the sector, from the side where the middle component is highest. */
  function Fraction(h: real): real {
    var i := h.Floor;
    if i % 2 == 1 then h - i as real else 1.0 - (h - i as real)
  }

  /** `HSV_RGB`. */
  function ToRgb(h: Option<real>, s: real, v: real): Rgb
    requires h.Some? ==> 0.0 <= h.value <= 6.0
  {
    if h.None? then Rgb(v, v, v)
    else Sector(h.value.Floor, v, v * (1.0 - s * Fraction(h.value)), v * (1.0 - s))
  }

  // ---- the inverse

  lemma Quotient(a: real, b: real)
    requires b != 0.0
    ensures a / b * b == a
  {
  }

  /** A quotient by the spread is between -1 and 1. */
  lemma Ratio(a: real, m: real)
    requires m > 0.0 && -m <= a <= m
    ensures -1.0 <= a / m <= 1.0
    ensures a / m == 1.0 <==> a == m
    ensures a / m == -1.0 <==> a == -m
    ensures a >= 0.0 <==> a / m >= 0.0
  {
    Quotient(a, m);
  }

  lemma FloorIs(h: real, i: int)
    requires i as real <= h < i as real + 1.0
    ensures h.Floor == i
  {
  }

  /** Rebuilding lowest and middle component from saturation and fraction. */
  lemma Rebuild(v: real, m: real, f: real)
    requires v > 0.0
    ensures v * (1.0 - m / v) == v - m && v * (1.0 - m / v * f) == v - m * f
  {
    var s := m / v;
    Quotient(m, v);
    Expand(v, s, f, m);
    Expand(v, s, 1.0, m);
    assert s * 1.0 == s && m * 1.0 == m;
  }

  lemma Expand(v: real, s: real, f: real, m: real)
    requires s * v == m
    ensures v * (1.0 - s * f) == v - m * f
  {
    assert v * (1.0 - s * f) == v - v * (s * f);
    assert v * (s * f) == s * v * f;
  }

  /** A hue of `k` plus a ratio, for an odd `k`: before `k` the fraction is the ratio
      reversed, after it the ratio; both make the same middle component. */
  lemma OddHue(k: int, q: real, h: real)
    requires k % 2 == 1 && -1.0 <= q < 1.0 && h == k as real + q
    ensures q < 0.0 ==> h.Floor == k - 1 && Fraction(h) == -q
    ensures q >= 0.0 ==> h.Floor == k && Fraction(h) == q
  {
    FloorIs(h, if q < 0.0 then k - 1 else k);
  }

  /** The components of a colour with the lowest one fixed, as the third `k` places them. */
  function Placed(k: int, x: real, y: real, n: real): Rgb {
    if k == 1 then Rgb(x, y, n) else if k == 3 then Rgb(n, x, y) else Rgb(y, n, x)
  }

  /** One third of the hue circle: the lowest component is fixed, `x` and `y` are the two
      others, and the ratio is their difference over the spread. */
  lemma Third(k: int, x: real, y: real, n: real)
    requires k == 1 || k == 3 || k == 5
    requires 0.0 <= n <= x && n <= y && Max(x, y) > n
    ensures var v := Max(x, y);
            var m := v - n;
            var h := k as real + (y - x) / m;
            var hue := if h == 6.0 then 0.0 else h;
            0.0 <= hue <= 6.0 && ToRgb(Some(hue), m / v, v) == Placed(k, x, y, n)
  {
    var v := Max(x, y);
    var m := v - n;
    var q := (y - x) / m;
    var h := k as real + q;
    Ratio(y - x, m);
    Quotient(y - x, m);
    if q < 1.0 {
      ThirdInside(k, x, y, n, v, m, q);
    } else {
      FloorIs(h, k + 1);
      Rebuild(v, m, 1.0);
    }
  }

  lemma ThirdInside(k: int, x: real, y: real, n: real, v: real, m: real, q: real)
    requires k == 1 || k == 3 || k == 5
    requires 0.0 <= n <= x && n <= y && v == Max(x, y) > n && m == v - n
    requires -1.0 <= q < 1.0 && q * m == y - x && (y >= x <==> q >= 0.0)
    ensures ToRgb(Some(k as real + q), m / v, v) == Placed(k, x, y, n)
  {
    var h := k as real + q;
    OddHue(k, q, h);
    Rebuild(v, m, Fraction(h));
    if q < 0.0 {
      assert m * -q == -(q * m);
    }
  }

  /** Every colour of the cube survives the way through HSV, whatever hue and saturation
      stand in for the missing ones of a grey and of black. */
  lemma HsvInverse(c: Rgb, hue: real, sat: real)
    requires InCube(c) && 0.0 <= hue <= 6.0
    ensures var x := ToHsv(c);
            (x.h.Some? ==> 0.0 <= x.h.value <= 6.0) && Unit(x.s) && Unit(x.v)
            && ToRgb(Some(if x.h.Some? then x.h.value else hue), if x.v != 0.0 then x.s else sat, x.v) == c
  {
    var n := Min(Min(c.r, c.g), c.b);
    var v := Max(Max(c.r, c.g), c.b);
    var m := v - n;
    if m == 0.0 {
      Grey(v, hue, if v != 0.0 then 0.0 else sat);
    } else {
      Spread(m, v);
      if c.r == n {
        Third(3, c.g, c.b, n);
      } else if c.g == n {
        Third(5, c.b, c.r, n);
      } else {
        Third(1, c.r, c.g, n);
      }
    }
  }

  lemma Spread(m: real, v: real)
    requires 0.0 < m <= v
    ensures Unit(m / v)
  {
    Ratio(m, v);
  }

  lemma Grey(v: real, hue: real, sat: real)
    requires 0.0 <= hue <= 6.0 && (v == 0.0 || sat == 0.0)
    ensures ToRgb(Some(hue), sat, v) == Rgb(v, v, v)
  {
    FloorIn(hue);
    if v == 0.0 {
      assert v * (1.0 - sat) == 0.0 && v * (1.0 - sat * Fraction(hue)) == 0.0;
    } else {
      assert sat * Fraction(hue) == 0.0;
    }
  }

  lemma FloorIn(h: real)
    requires 0.0 <= h <= 6.0
    ensures 0 <= h.Floor <= 6 && Unit(Fraction(h))
  {
  }

  /** Every hue, saturation and value in range is a colour of the cube. */
  lemma InCubeAgain(h: real, s: real, v: real)
    requires 0.0 <= h <= 6.0 && Unit(s) && Unit(v)
    ensures InCube(ToRgb(Some(h), s, v))
  {
    FloorIn(h);
    var middle := Middle(v, s, Fraction(h));
    Faded(v, s);
    SectorInCube(h.Floor, v, middle, v * (1.0 - s));
  }

  lemma Middle(v: real, s: real, f: real) returns (n: real)
    requires Unit(v) && Unit(s) && Unit(f)
    ensures n == v * (1.0 - s * f) && Unit(n)
  {
    n := v * (1.0 - s * f);
    UnitTimes(s, f);
    Faded(v, s * f);
  }

  lemma Faded(v: real, t: real)
    requires Unit(v) && Unit(t)
    ensures Unit(v * (1.0 - t))
  {
    UnitTimes(v, 1.0 - t);
  }

  lemma SectorInCube(i: int, v: real, n: real, m: real)
    requires 0 <= i <= 6 && Unit(v) && Unit(n) && Unit(m)
    ensures InCube(Sector(i, v, n, m))
  {
  }

  lemma UnitTimes(a: real, b: real)
    requires Unit(a) && Unit(b)
    ensures Unit(a * b)
  {
    Product(a, b);
    Product(a, 1.0 - b);
    assert a * (1.0 - b) == a - a * b;
  }

  lemma Product(a: real, b: real)
    requires a >= 0.0 && b >= 0.0
    ensures a * b >= 0.0
  {
  }

  /** Around the hue circle: red, yellow, green, cyan, blue, magenta, and red again. */
  lemma PureHues(v: real)
    requires 0.0 < v <= 1.0
    ensures ToRgb(Some(0.0), 1.0, v) == Rgb(v, 0.0, 0.0) == ToRgb(Some(6.0), 1.0, v)
    ensures ToRgb(Some(1.0), 1.0, v) == Rgb(v, v, 0.0) && ToRgb(Some(2.0), 1.0, v) == Rgb(0.0, v, 0.0)
    ensures ToRgb(Some(3.0), 1.0, v) == Rgb(0.0, v, v) && ToRgb(Some(4.0), 1.0, v) == Rgb(0.0, 0.0, v)
    ensures ToRgb(Some(5.0), 1.0, v) == Rgb(v, 0.0, v) && ToHsv(Rgb(v, 0.0, 0.0)) == Hsv(Some(0.0), 1.0, v)
    ensures ToHsv(Rgb(0.0, v, 0.0)) == Hsv(Some(2.0), 1.0, v) && ToHsv(Rgb(0.0, 0.0, v)) == Hsv(Some(4.0), 1.0, v)
  {
    Same(v);
  }

  lemma Same(v: real)
    requires v > 0.0
    ensures v / v == 1.0 && (0.0 - v) / v == -1.0 && 0.0 / v == 0.0
  {
    Ratio(v, v);
    Ratio(0.0 - v, v);
  }

  // ---- text

  function HexDigit(d: nat): char
    requires d < 16
  {
    if d < 10 then ('0' as int + d) as char else ('a' as int + d - 10) as char
  }

  /** `toString(16)`. */
  function ToHex(n: nat): string {
    if n < 16 then [HexDigit(n)] else ToHex(n / 16) + [HexDigit(n % 16)]
  }

  function Round(x: real): int {
    (x + 0.5).Floor
  }

  /** `(0x100 | Math.round(255*x)).toString(16).substr(1)`; the or is a sum below 256. */
  function Component(x: real): string
    requires Unit(x)
  {
    var k := Round(255.0 * x);
    assert 0.0 <= 255.0 * x <= 255.0;
    ToHex(0x100 + k)[1..]
  }

  function Text(c: Rgb): string
    requires InCube(c)
  {
    Component(c.r) + Component(c.g) + Component(c.b)
  }

  predicate IsHexDigit(c: char) {
    '0' <= c <= '9' || 'A' <= c <= 'F' || 'a' <= c <= 'f'
  }

  predicate WordChar(c: char) {
    '0' <= c <= '9' || 'A' <= c <= 'Z' || 'a' <= c <= 'z' || c == '_'
  }

  function DigitOf(c: char): (d: nat)
    requires IsHexDigit(c)
    ensures d < 16
  {
    if c <= '9' then c as int - '0' as int
    else if c <= 'F' then c as int - 'A' as int + 10
    else c as int - 'a' as int + 10
  }

  function Lower(c: char): char
  {
    if 'A' <= c <= 'F' then (c as int + 32) as char else c
  }

  lemma DigitLower(c: char)
    requires IsHexDigit(c)
    ensures HexDigit(DigitOf(c)) == Lower(c)
  {
  }

  /** `parseInt` of two hexadecimal digits, over 255. */
  function Pair(a: char, b: char): (x: real)
    requires IsHexDigit(a) && IsHexDigit(b)
    ensures Unit(x)
  {
    (16 * DigitOf(a) + DigitOf(b)) as real / 255.0
  }

  lemma {:induction false} TwoDigits(a: nat, b: nat)
    requires a < 16 && b < 16
    ensures ToHex(0x100 + (16 * a + b))[1..] == [HexDigit(a), HexDigit(b)]
  {
    HexSnoc(1, a);
    HexSnoc(16 + a, b);
    ThreeChars(0x100 + (16 * a + b), ToHex(16 + a), HexDigit(a), HexDigit(b));
  }

  lemma ThreeChars(n: nat, front: string, a: char, b: char)
    requires front == ToHex(1) + [a] && ToHex(n) == front + [b]
    ensures ToHex(n)[1..] == [a, b]
  {
    assert |ToHex(1)| == 1;
  }

  lemma {:induction false} HexSnoc(h: nat, d: nat)
    requires h > 0 && d < 16
    ensures ToHex(16 * h + d) == ToHex(h) + [HexDigit(d)]
  {
    assert (16 * h + d) / 16 == h && (16 * h + d) % 16 == d;
  }

  lemma ComponentBack(a: char, b: char)
    requires IsHexDigit(a) && IsHexDigit(b)
    ensures Component(Pair(a, b)) == [Lower(a), Lower(b)]
  {
    var k := 16 * DigitOf(a) + DigitOf(b);
    RoundBack(k);
    TwoDigits(DigitOf(a), DigitOf(b));
    DigitLower(a);
    DigitLower(b);
  }

  lemma RoundBack(k: nat)
    ensures Round(255.0 * (k as real / 255.0)) == k
  {
    assert 255.0 * (k as real / 255.0) == k as real;
  }

  /** Red comes first, then green, then blue. */
  lemma TextExample()
    ensures Text(Rgb(1.0, 0.5, 0.0)) == "ff8000"
  {
    TwoDigits(15, 15);
    TwoDigits(8, 0);
    TwoDigits(0, 0);
    assert Round(255.0 * 1.0) == 255 && Round(255.0 * 0.5) == 128 && Round(255.0 * 0.0) == 0;
  }

  // ---- the picker

  /** The default limits; other limits trim hue, saturation and value. */
  datatype Limits = Limits(minH: real, maxH: real, minS: real, maxS: real, minV: real, maxV: real)

  const DEFAULTS := Limits(0.0, 6.0, 0.0, 1.0, 0.0, 1.0)

  function Clamp(top: real, low: real, high: real, x: real): (y: real)
    requires top >= 0.0
    ensures 0.0 <= y && (low <= top ==> y <= top)
    ensures 0.0 <= x <= top && low <= x <= high ==> y == x
  {
    Max(Max(0.0, low), Min(Min(top, high), x))
  }

  predicate Lawful(l: Limits) {
    l.minH <= 6.0 && l.minS <= 1.0 && l.minV <= 1.0
  }

  /** The limits let a colour through untrimmed. */
  predicate Admits(l: Limits, x: Hsv) {
    (x.h.Some? ==> l.minH <= x.h.value <= l.maxH) && l.minV <= x.v <= l.maxV
        && (x.v != 0.0 ==> l.minS <= x.s <= l.maxS)
  }

  class Picker {
    var h: real
    var s: real
    var v: real
    var rgb: Rgb
    const limits: Limits

    ghost predicate Valid()
      reads this
    {
      0.0 <= h <= 6.0 && Unit(s) && Unit(v) && rgb == ToRgb(Some(h), s, v) && InCube(rgb) && Lawful(limits)
    }

    constructor (limits: Limits)
      requires Lawful(limits)
      ensures Valid() && this.limits == limits && rgb == Rgb(1.0, 1.0, 1.0)
    {
      this.limits := limits;
      h, s, v := 0.0, 0.0, 1.0;
      rgb := Rgb(1.0, 1.0, 1.0);
      new;
      Grey(1.0, 0.0, 0.0);
    }

    /** `fromHSV`: a missing argument keeps the component. */
    method FromHsv(newH: Option<real>, newS: Option<real>, newV: Option<real>)
      requires Valid()
      modifies this
      ensures Valid()
      ensures h == if newH.Some? then Clamp(6.0, limits.minH, limits.maxH, newH.value) else old(h)
      ensures s == if newS.Some? then Clamp(1.0, limits.minS, limits.maxS, newS.value) else old(s)
      ensures v == if newV.Some? then Clamp(1.0, limits.minV, limits.maxV, newV.value) else old(v)
    {
      if newH.Some? {
        h := Clamp(6.0, limits.minH, limits.maxH, newH.value);
      }
      if newS.Some? {
        s := Clamp(1.0, limits.minS, limits.maxS, newS.value);
      }
      if newV.Some? {
        v := Clamp(1.0, limits.minV, limits.maxV, newV.value);
      }
      rgb := ToRgb(Some(h), s, v);
      InCubeAgain(h, s, v);
    }

    /** `fromRGB`: a missing argument keeps the component. Unless the limits trim it, the
        colour stored is exactly the one asked for. */
    method FromRgb(r: Option<real>, g: Option<real>, b: Option<real>)
      requires Valid()
      modifies this
      ensures Valid()
      ensures var c := Wanted(old(rgb), r, g, b);
              InCube(c) && (Admits(limits, ToHsv(c)) ==> rgb == c) && Stored(ToHsv(c), old(h), old(s))
    {
      var c := Wanted(rgb, r, g, b);
      var x := ToHsv(c);
      HsvInverse(c, h, s);
      Store(x);
    }

    /** Hue, saturation and value are those of the colour, clamped to the limits; a grey
        keeps the hue, and black the saturation too. */
    ghost predicate Stored(x: Hsv, oldH: real, oldS: real)
      reads this
    {
      && h == (if x.h.Some? then Clamp(6.0, limits.minH, limits.maxH, x.h.value) else oldH)
      && s == (if x.v != 0.0 then Clamp(1.0, limits.minS, limits.maxS, x.s) else oldS)
      && v == Clamp(1.0, limits.minV, limits.maxV, x.v)
    }

    method Store(x: Hsv)
      requires Valid() && (x.h.Some? ==> 0.0 <= x.h.value <= 6.0) && Unit(x.s) && Unit(x.v)
      modifies this
      ensures Valid() && Stored(x, old(h), old(s))
      ensures Admits(limits, x) ==>
        rgb == ToRgb(Some(if x.h.Some? then x.h.value else old(h)), if x.v != 0.0 then x.s else old(s), x.v)
    {
      if x.h.Some? {
        h := Clamp(6.0, limits.minH, limits.maxH, x.h.value);
      }
      if x.v != 0.0 {
        s := Clamp(1.0, limits.minS, limits.maxS, x.s);
      }
      v := Clamp(1.0, limits.minV, limits.maxV, x.v);
      rgb := ToRgb(Some(h), s, v);
      InCubeAgain(h, s, v);
    }

    function ToString(): string
      requires Valid()
      reads this
    {
      Text(rgb)
    }

    /** `fromString`: three or six hexadecimal digits between characters that are not word
        characters; anything else changes nothing. */
    method FromString(hex: string) returns (ok: bool)
      requires Valid()
      modifies this
      ensures Valid()
      ensures ok == Matches(hex)
      ensures ok && Admits(limits, ToHsv(ColourOf(Core(hex)))) ==> ToString() == Long(Core(hex))
      ensures !ok ==> rgb == old(rgb) && h == old(h) && s == old(s) && v == old(v)
    {
      ok := Matches(hex);
      if ok {
        Take(Core(hex));
      }
    }

    method Take(digits: string)
      requires Valid() && HexText(digits)
      modifies this
      ensures Valid()
      ensures Admits(limits, ToHsv(ColourOf(digits))) ==> ToString() == Long(digits)
    {
      var c := ColourOf(digits);
      WantedAll(rgb, c);
      FromRgb(Some(c.r), Some(c.g), Some(c.b));
      ColourText(digits);
    }

    /** With the default limits, showing the text and taking it again changes no digit. */
    method Reload() returns (ok: bool)
      requires Valid() && limits == DEFAULTS
      modifies this
      ensures Valid() && ok && ToString() == old(ToString())
    {
      TextIsHex(rgb);
      DefaultsAdmit(ColourOf(Core(ToString())));
      ok := FromString(ToString());
    }
  }

  /** With the default limits no colour is trimmed. */
  lemma DefaultsAdmit(c: Rgb)
    requires InCube(c)
    ensures Admits(DEFAULTS, ToHsv(c))
  {
    HsvInverse(c, 0.0, 0.0);
  }

  lemma RoundIn(x: real)
    requires Unit(x)
    ensures 0 <= Round(255.0 * x) <= 255
  {
    assert 0.0 <= 255.0 * x <= 255.0;
  }

  lemma ComponentIsHex(x: real)
    requires Unit(x)
    ensures var t := Component(x);
            |t| == 2 && forall i | 0 <= i < 2 :: IsHexDigit(t[i]) && Lower(t[i]) == t[i]
  {
    RoundIn(x);
    var k := Round(255.0 * x);
    assert k == 16 * (k / 16) + k % 16;
    TwoDigits(k / 16, k % 16);
    LowerDigit(k / 16);
    LowerDigit(k % 16);
  }

  lemma LowerDigit(d: nat)
    requires d < 16
    ensures IsHexDigit(HexDigit(d)) && Lower(HexDigit(d)) == HexDigit(d)
  {
  }

  lemma TextIsHex(c: Rgb)
    requires InCube(c)
    ensures Core(Text(c)) == Text(c) && Matches(Text(c)) && Long(Text(c)) == Text(c)
  {
    ComponentIsHex(c.r);
    ComponentIsHex(c.g);
    ComponentIsHex(c.b);
    SixDigits(Component(c.r), Component(c.g), Component(c.b));
  }

  lemma SixDigits(a: string, b: string, c: string)
    requires |a| == 2 && |b| == 2 && |c| == 2
    requires forall i :: 0 <= i < 2 ==> IsHexDigit(a[i]) && Lower(a[i]) == a[i]
    requires forall i :: 0 <= i < 2 ==> IsHexDigit(b[i]) && Lower(b[i]) == b[i]
    requires forall i :: 0 <= i < 2 ==> IsHexDigit(c[i]) && Lower(c[i]) == c[i]
    ensures var t := a + b + c; HexText(t) && Core(t) == t && Long(t) == t
  {
    var t := a + b + c;
    assert forall i :: 0 <= i < 6 ==> IsHexDigit(t[i]) && Lower(t[i]) == t[i];
    assert WordChar(t[0]) && WordChar(t[5]);
  }

  /** The colour asked for, clamped to the cube. */
  function Wanted(old_: Rgb, r: Option<real>, g: Option<real>, b: Option<real>): (c: Rgb)
    requires InCube(old_)
    ensures InCube(c)
  {
    Rgb(if r.Some? then Max(0.0, Min(1.0, r.value)) else old_.r,
        if g.Some? then Max(0.0, Min(1.0, g.value)) else old_.g,
        if b.Some? then Max(0.0, Min(1.0, b.value)) else old_.b)
  }

  lemma WantedAll(old_: Rgb, c: Rgb)
    requires InCube(old_) && InCube(c)
    ensures Wanted(old_, Some(c.r), Some(c.g), Some(c.b)) == c
  {
  }

  function DropFront(s: string): string {
    if s == [] || WordChar(s[0]) then s else DropFront(s[1..])
  }

  function DropBack(s: string): string {
    if s == [] || WordChar(s[|s| - 1]) then s else DropBack(s[..|s| - 1])
  }

  /** The text between the non-word characters at both ends. */
  function Core(hex: string): string {
    DropBack(DropFront(hex))
  }

  predicate HexText(s: string) {
    (|s| == 3 || |s| == 6) && forall i :: 0 <= i < |s| ==> IsHexDigit(s[i])
  }

  predicate Matches(hex: string) {
    HexText(Core(hex))
  }

  /** The six digits, in lower case; a short form doubles each of its digits. */
  function Long(s: string): string
    requires HexText(s)
  {
    var t := if |s| == 6 then s else [s[0], s[0], s[1], s[1], s[2], s[2]];
    [Lower(t[0]), Lower(t[1]), Lower(t[2]), Lower(t[3]), Lower(t[4]), Lower(t[5])]
  }

  function ColourOf(s: string): (c: Rgb)
    requires HexText(s)
    ensures InCube(c)
  {
    if |s| == 6 then Rgb(Pair(s[0], s[1]), Pair(s[2], s[3]), Pair(s[4], s[5]))
    else Rgb(Pair(s[0], s[0]), Pair(s[1], s[1]), Pair(s[2], s[2]))
  }

  lemma ColourText(s: string)
    requires HexText(s)
    ensures Text(ColourOf(s)) == Long(s)
  {
    if |s| == 6 {
      ComponentBack(s[0], s[1]);
      ComponentBack(s[2], s[3]);
      ComponentBack(s[4], s[5]);
    } else {
      ComponentBack(s[0], s[0]);
      ComponentBack(s[1], s[1]);
      ComponentBack(s[2], s[2]);
    }
  }
}
