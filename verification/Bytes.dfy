/** Machine integers as subset types: every wrap-around or truncation of the C
    code is written out where it happens. */
module Bytes {

  type byte = x: int | 0 <= x < 0x100
  type u16 = x: int | 0 <= x < 0x1_0000
  type u32 = x: int | 0 <= x < 0x1_0000_0000

  /** The order in which the host stores the two bytes of a `u_int16_t`. */
  datatype ByteOrder = LittleEndian | BigEndian

  /** The 16-bit number a host of the given order loads from bytes `b0`, `b1`. */
  function Load16(host: ByteOrder, b0: byte, b1: byte): u16 {
    if host.BigEndian? then 0x100 * b0 + b1 else 0x100 * b1 + b0
  }

  /** What a 16-bit register keeps of a number: whole turns are dropped. */
  function Low16(n: int): (r: u16)
    decreases if n < 0 then 0x1_0000 - n else n
  {
    if n < 0 then Low16(n + 0x1_0000) else if n < 0x1_0000 then n else Low16(n - 0x1_0000)
  }

  lemma {:induction false} Low16Is(n: int)
    ensures Low16(n) == n % 0x1_0000
    decreases if n < 0 then 0x1_0000 - n else n
  {
    if n < 0 {
      Low16Is(n + 0x1_0000);
      TurnMore(n);
    } else if n >= 0x1_0000 {
      Low16Is(n - 0x1_0000);
      TurnMore(n - 0x1_0000);
    }
  }

  lemma TurnMore(n: int)
    ensures (n + 0x1_0000) % 0x1_0000 == n % 0x1_0000
  {
    var q := n / 0x1_0000;
    assert n + 0x1_0000 == 0x1_0000 * (q + 1) + n % 0x1_0000;
  }

  /** `b & 0x0f`. */
  function LowNibble(b: byte): (r: byte)
    ensures r < 0x10
  {
    if b < 0x10 then b else LowNibble(b - 0x10)
  }

  lemma {:induction false} LowNibbleIs(b: byte)
    ensures LowNibble(b) == b % 0x10
  {
    if b >= 0x10 {
      LowNibbleIs(b - 0x10);
      assert b == 0x10 * ((b - 0x10) / 0x10 + 1) + (b - 0x10) % 0x10;
    }
  }

  /** A sum of two 16-bit numbers in a 16-bit register: at most one carry is lost. */
  function Wrap16(n: nat): u16
    requires n < 0x2_0000
  {
    if n < 0x1_0000 then n else n - 0x1_0000
  }

  lemma Wrap16Is(n: nat)
    requires n < 0x2_0000
    ensures Wrap16(n) == n % 0x1_0000
  {
  }

  /** The number two bytes make in network order. */
  function Be16(hi: byte, lo: byte): u16 {
    0x100 * hi + lo
  }

  /** The byte stored first, and the byte stored second, for the number `v`. */
  function First(host: ByteOrder, v: u16): byte {
    if host.BigEndian? then v / 0x100 else v % 0x100
  }

  function Second(host: ByteOrder, v: u16): byte {
    if host.BigEndian? then v % 0x100 else v / 0x100
  }

  /** htons and ntohs. */
  function Swap(host: ByteOrder, v: u16): u16 {
    if host.BigEndian? then v else 0x100 * (v % 0x100) + v / 0x100
  }

  // ---- Sequences

  lemma Regroup(a: seq<byte>, b: seq<byte>, c: seq<byte>)
    ensures a + (b + c) == a + b + c
  {
  }

  /** Where the parts of what follows place `p` are. */
  lemma SplitAt(m: seq<byte>, p: nat, e: seq<byte>, r: seq<byte>)
    requires p <= |m| && m[p..] == e + r
    ensures p + |e| <= |m| && m[p..p + |e|] == e && m[p + |e|..] == r
    ensures forall i :: 0 <= i < |e| ==> m[p + i] == e[i]
  {
    assert m[p..p + |e|] == m[p..][..|e|] && m[p + |e|..] == m[p..][|e|..];
    forall i | 0 <= i < |e|
      ensures m[p + i] == e[i]
    {
      assert m[p + i] == m[p..][i];
    }
  }
}
