/** The Internet checksum of contiki-2.5/tools/tunslip.c, section 1 of RFC 1071:
    end-around-carry addition is addition modulo 0xffff with two zeros. */
module Checksum {
  import opened Bytes

  const M: int := 0xffff

  /** Reference: the plain sum of the big-endian 16-bit words of `p`; an odd last
      byte is the high half of a word. */
  function WordSum(p: seq<byte>): nat {
    if |p| == 0 then 0
    else if |p| == 1 then 0x100 * p[0]
    else 0x100 * p[0] + p[1] + WordSum(p[2..])
  }

  /** The weight of byte `i` in the sum. */
  function Weight(i: nat): nat {
    if i % 2 == 0 then 0x100 else 1
  }

  // ---- Equality modulo 0xffff

  /** The remainder modulo 0xffff. */
  function Rem(n: int): (r: int)
    ensures 0 <= r < M
    decreases if n < 0 then M - n else n
  {
    if n < 0 then Rem(n + M) else if n < M then n else Rem(n - M)
  }

  lemma {:induction false} RemIs(n: int)
    ensures Rem(n) == n % M
    decreases if n < 0 then M - n else n
  {
    if n < 0 {
      RemIs(n + M);
      ModShift(n, 1);
    } else if n >= M {
      RemIs(n - M);
      ModShift(n, -1);
    }
  }

  lemma ModShift(n: int, k: int)
    ensures (n + M * k) % M == n % M && (n + M * k) / M == n / M + k
  {
    var q, r := n / M, n % M;
    assert n + M * k == M * (q + k) + r;
  }

  /** The same number modulo 0xffff. */
  predicate Same(a: int, b: int) {
    Rem(a) == Rem(b)
  }

  /** A sum is good when it is one of the two zeros of one's-complement. */
  predicate Zero(sum: int) {
    Rem(sum) == 0
  }

  lemma SameBy(a: int, b: int, k: int)
    requires a == b + M * k
    ensures Same(a, b)
  {
    RemIs(a);
    RemIs(b);
    ModShift(b, k);
  }

  lemma SameApart(a: int, b: int) returns (k: int)
    requires Same(a, b)
    ensures a == b + M * k
  {
    RemIs(a);
    RemIs(b);
    k := a / M - b / M;
  }

  lemma SameAdd(a: int, b: int, c: int)
    requires Same(a, b)
    ensures Same(a + c, b + c)
  {
    var k := SameApart(a, b);
    SameBy(a + c, b + c, k);
  }

  lemma ZeroPlus(a: int, s: int)
    requires Zero(a)
    ensures Zero(a + s) <==> Zero(s)
  {
    SameAdd(a, 0, s);
  }

  /** Up to 0xffff there are just the two zeros. */
  lemma SmallZero(s: nat)
    requires s <= 0xffff
    ensures Zero(s) <==> s == 0 || s == 0xffff
  {
    if s == 0 {
      SameBy(s, 0, 0);
    } else if s == 0xffff {
      SameBy(s, 0, 1);
    }
  }

  /** One step `sum += t; if (sum < t) sum++` on 16-bit registers. */
  function AddOnes(sum: u16, t: u16): (r: u16)
    ensures Same(r, sum + t)
    ensures r == 0 <==> sum == 0 && t == 0
  {
    var s := Wrap16(sum + t);
    var r := if s < t then Wrap16(s + 1) else s;
    SameBy(r, sum + t, if sum + t < 0x1_0000 then 0 else -1);
    r
  }

  /** `ip4sum`: the loop computes the word sum modulo 0xffff; together with the
      second clause this fixes the result, 0 and 0xffff being the two zeros. */
  method Ip4Sum(start: u16, p: array<byte>, off: nat, len: u16) returns (sum: u16)
    requires off + len <= p.Length
    ensures Same(sum, start + WordSum(p[off..off + len]))
    ensures sum == 0 <==> start == 0 && WordSum(p[off..off + len]) == 0
  {
    ghost var b := p[off..off + len];
    var q, end := off, off + len;
    sum := start;
    assert b[..0] == [];
    while q < end - 1
      invariant off <= q <= end && (q - off) % 2 == 0
      invariant IsSum(sum, start, WordSum(b[..q - off]))
    {
      assert b[q - off] == p[q] && b[q - off + 1] == p[q + 1];
      sum := AddWord(sum, start, b, q - off, p[q], p[q + 1]);
      q := q + 2;
    }
    if q < end {
      assert b[q - off] == p[q];
      sum := AddWord(sum, start, b, q - off, p[q], 0);
    }
    assert b == b[..|b|];
  }

  method AddWord(sum0: u16, ghost start: u16, ghost b: seq<byte>, ghost i: nat, hi: byte, lo: byte) returns (sum: u16)
    requires i < |b| && i % 2 == 0 && IsSum(sum0, start, WordSum(b[..i]))
    requires hi == b[i] && lo == if i + 1 < |b| then b[i + 1] else 0
    ensures IsSum(sum, start, WordSum(if i + 1 < |b| then b[..i + 2] else b))
  {
    var t := Be16(hi, lo);
    WordSumMore(b, i);
    IsSumStep(sum0, start, WordSum(b[..i]), t);
    sum := AddOnes(sum0, t);
  }

  /** One more word, or the odd last byte. */
  lemma WordSumMore(b: seq<byte>, i: nat)
    requires i < |b| && i % 2 == 0
    ensures i + 1 < |b| ==> WordSum(b[..i + 2]) == WordSum(b[..i]) + Be16(b[i], b[i + 1])
    ensures i + 1 == |b| ==> WordSum(b) == WordSum(b[..i]) + Be16(b[i], 0)
  {
    if i + 1 < |b| {
      WordSumSplit(b[..i], [b[i], b[i + 1]]);
      assert b[..i] + [b[i], b[i + 1]] == b[..i + 2];
    } else {
      WordSumSplit(b[..i], [b[i]]);
      assert b[..i] + [b[i]] == b;
    }
  }

  /** What `sum` knows of `start` and of the words added so far. */
  ghost predicate IsSum(sum: u16, start: u16, words: nat) {
    Same(sum, start + words) && (sum == 0 <==> start == 0 && words == 0)
  }

  lemma IsSumStep(sum: u16, start: u16, words: nat, t: u16)
    requires IsSum(sum, start, words)
    ensures IsSum(AddOnes(sum, t), start, words + t)
  {
    SameAdd(sum, start + words, t);
  }

  lemma {:induction false} WordSumSplit(a: seq<byte>, b: seq<byte>)
    requires |a| % 2 == 0
    ensures WordSum(a + b) == WordSum(a) + WordSum(b)
  {
    if |a| == 0 {
      assert a + b == b;
    } else {
      assert (a + b)[2..] == a[2..] + b;
      WordSumSplit(a[2..], b);
    }
  }

  /** An odd last byte counts as if a zero followed (section 4.1 of RFC 1071). */
  lemma {:induction false} OddPadded(p: seq<byte>)
    requires |p| % 2 == 1
    ensures WordSum(p + [0]) == WordSum(p)
  {
    var front, c := p[..|p| - 1], p[|p| - 1];
    WordSumSplit(front, [c]);
    WordSumSplit(front, [c, 0]);
    assert p == front + [c] && p + [0] == front + [c, 0];
  }

  /** Replacing one byte moves the sum by its weight. */
  lemma {:induction false} WordSumUpdate(p: seq<byte>, i: nat, v: byte)
    requires i < |p|
    ensures WordSum(p[i := v]) == WordSum(p) + Weight(i) * (v - p[i])
  {
    if i >= 2 {
      assert p[i := v][2..] == p[2..][i - 2 := v];
      WordSumUpdate(p[2..], i - 2, v);
    } else if |p| >= 2 {
      assert p[i := v][2..] == p[2..];
    }
  }

  /** The bytes of `b` with the aligned word at `i` replaced. */
  function PutWord(b: seq<byte>, i: nat, v: byte, w: byte): (r: seq<byte>)
    requires i + 2 <= |b|
    ensures |r| == |b|
  {
    b[i := v][i + 1 := w]
  }

  lemma PutInside(s: seq<byte>, j: nat, v: byte, w: byte)
    requires j + 2 <= |s| && j % 2 == 0
    ensures WordSum(PutWord(s, j, v, w)) == WordSum(s) + Be16(v, w) - Be16(s[j], s[j + 1])
  {
    var t := s[j := v];
    EvenWeight(j);
    WordSumUpdate(s, j, v);
    WordSumUpdate(t, j + 1, w);
    assert t[j + 1] == s[j + 1] && t[j + 1 := w] == PutWord(s, j, v, w);
  }

  lemma EvenWeight(j: nat)
    requires j % 2 == 0
    ensures Weight(j) == 0x100 && Weight(j + 1) == 1
  {
  }

  /** A slice of whole words counts the replaced word exactly when it holds it. */
  lemma PutWordSum(b: seq<byte>, i: nat, v: byte, w: byte, x: nat, y: nat)
    requires i + 2 <= |b| && x <= y <= |b| && i % 2 == 0 && x % 2 == 0
    requires i + 2 <= x || y <= i || (x <= i && i + 2 <= y)
    ensures WordSum(PutWord(b, i, v, w)[x..y]) ==
            WordSum(b[x..y]) + if x <= i && i + 2 <= y then Be16(v, w) - Be16(b[i], b[i + 1]) else 0
  {
    var c := PutWord(b, i, v, w);
    if x <= i && i + 2 <= y {
      PutInside(b[x..y], i - x, v, w);
      assert c[x..y] == PutWord(b[x..y], i - x, v, w);
    } else {
      assert c[x..y] == b[x..y];
    }
  }
}
