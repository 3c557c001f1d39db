/** Bytes of the input and the lexical helpers both decoders share: the
    NUL-terminated view of the buffer, the DIGIT macro, decimal digit runs
    and the 32-bit wrap-around of C `int` arithmetic. */
module Bytes {

  newtype byte = b: int | 0 <= b < 256

  const NUL: byte := 0
  const CharPlus: byte := 43    // '+'
  const CharMinus: byte := 45   // '-'
  const CharZero: byte := 48    // '0'
  const CharNine: byte := 57    // '9'
  const CharColon: byte := 58   // ':'
  const CharD: byte := 100      // 'd'
  const CharE: byte := 101      // 'e'
  const CharI: byte := 105      // 'i'
  const CharL: byte := 108      // 'l'
  const CharS: byte := 115      // 's', the list parsers' tag for strings

  /** INT_MAX of a 32-bit C `int`. */
  const IntMax: int := 0x7fff_ffff
  const TwoTo32: int := 0x1_0000_0000

  /** The byte the cursor sees at index i: the input is a C string, so every
      index at or beyond its length reads the terminating NUL. */
  function At(s: seq<byte>, i: nat): byte
  {
    if i < |s| then s[i] else NUL
  }

  /** The DIGIT macro. */
  predicate IsDigit(b: byte)
  {
    CharZero <= b <= CharNine
  }

  /** The tag both list parsers keep in `prev` for a leading byte: the byte
      itself, with every digit written 's'. */
  function Tag(b: byte): byte
  {
    if IsDigit(b) then CharS else b
  }

  predicate AllDigits(d: seq<byte>)
  {
    forall k :: 0 <= k < |d| ==> IsDigit(d[k])
  }

  /** The end of the digit run that starts at pos: the first index at or
      after pos whose byte is not a digit. */
  function DigitsEnd(s: seq<byte>, pos: nat): (q: nat)
    ensures pos <= q
    ensures pos <= |s| ==> q <= |s|
    ensures !IsDigit(At(s, q))
    decreases |s| - pos
  {
    if IsDigit(At(s, pos)) then DigitsEnd(s, pos + 1) else pos
  }

  /** Every byte between pos and DigitsEnd(s, pos) is a digit. */
  lemma {:induction false} DigitsEndRun(s: seq<byte>, pos: nat)
    requires pos <= |s|
    ensures AllDigits(s[pos..DigitsEnd(s, pos)])
    decreases |s| - pos
  {
    if IsDigit(At(s, pos)) {
      DigitsEndRun(s, pos + 1);
      assert s[pos..DigitsEnd(s, pos)] == [s[pos]] + s[pos + 1..DigitsEnd(s, pos + 1)];
    }
  }

  /** The first index at or after pos whose byte is the NUL: where the C
      string ends when read from pos. */
  function NulEnd(s: seq<byte>, pos: nat): (q: nat)
    ensures pos <= q
    ensures pos <= |s| ==> q <= |s|
    ensures At(s, q) == NUL
    decreases |s| - pos
  {
    if At(s, pos) == NUL then pos else NulEnd(s, pos + 1)
  }

  /** A digit run read left to right as `ans = ans * 10 + digit`, with
      unbounded integers. */
  function DigitsValue(d: seq<byte>): nat
    requires AllDigits(d)
  {
    if |d| == 0 then 0
    else DigitsValue(d[..|d| - 1]) * 10 + (d[|d| - 1] - CharZero) as int
  }

  /** A leading zero does not change the value of a digit run, so `i007e`
      reads as 7 and `03:abc` as a string of length 3. */
  lemma {:induction false} DigitsValueLeadingZero(d: seq<byte>)
    requires AllDigits(d)
    ensures AllDigits([CharZero] + d) && DigitsValue([CharZero] + d) == DigitsValue(d)
    decreases |d|
  {
    if |d| > 0 {
      var init := d[..|d| - 1];
      DigitsValueLeadingZero(init);
      assert ([CharZero] + d)[..|d|] == [CharZero] + init;
    } else {
      assert ([CharZero] + d)[..0] == [];
    }
  }

  /** Two's complement reduction into the range of a 32-bit `int`. */
  function Wrap32(x: int): (r: int)
    ensures -IntMax - 1 <= r <= IntMax
    ensures (r - x) % TwoTo32 == 0
  {
    (x + IntMax + 1) % TwoTo32 - IntMax - 1
  }

  /** Values that fit in a 32-bit `int` are left alone by the wrap. */
  lemma Wrap32Small(x: int)
    requires -IntMax - 1 <= x <= IntMax
    ensures Wrap32(x) == x
  {
  }

  /** Two numbers whose difference is a multiple of 2^32 wrap to the same
      value. */
  lemma {:induction false} Wrap32Congruent(x: int, y: int)
    requires (x - y) % TwoTo32 == 0
    ensures Wrap32(x) == Wrap32(y)
  {
    var k := (x - y) / TwoTo32;
    assert x == y + k * TwoTo32;
    ModuloShift(y + IntMax + 1, k);
  }

  lemma ModuloShift(a: int, k: int)
    ensures (a + k * TwoTo32) % TwoTo32 == a % TwoTo32
  {
  }

  /** One step of the wrapped accumulation `ans = ans * 10 + d` equals the
      wrap of the exact step: wrapping at every step or once at the end
      gives the same 32-bit result. */
  lemma {:induction false} Wrap32Step(v: int, d: int)
    ensures Wrap32(Wrap32(v) * 10 + d) == Wrap32(v * 10 + d)
  {
    var w := Wrap32(v);
    var k := (w - v) / TwoTo32;
    assert w == v + k * TwoTo32;
    assert w * 10 + d == v * 10 + d + (10 * k) * TwoTo32;
    assert ((w * 10 + d) - (v * 10 + d)) % TwoTo32 == 0 by {
      ModuloShift(0, 10 * k);
    }
    Wrap32Congruent(w * 10 + d, v * 10 + d);
  }

  /** The loop step of parse_i, ten times `ans` plus the digit, on a 32-bit
      `ans`: it keeps `ans` equal to the wrapped value of the digits read. */
  lemma {:induction false} AccumulateStep(s: seq<byte>, from: nat, to: nat, ans: int)
    requires from <= to < |s|
    requires AllDigits(s[from..to]) && IsDigit(At(s, to))
    requires ans == Wrap32(DigitsValue(s[from..to]))
    ensures AllDigits(s[from..to + 1])
    ensures Wrap32(ans * 10 + (At(s, to) - CharZero) as int) == Wrap32(DigitsValue(s[from..to + 1]))
  {
    DigitsValueSnoc(s, from, to);
    Wrap32Step(DigitsValue(s[from..to]), (s[to] - CharZero) as int);
  }

  /** Extending a digit run by one digit multiplies its value by ten and adds
      the digit (the loop step of the length and integer readers). */
  lemma DigitsValueSnoc(s: seq<byte>, from: nat, to: nat)
    requires from <= to < |s|
    requires AllDigits(s[from..to]) && IsDigit(s[to])
    ensures AllDigits(s[from..to + 1])
    ensures DigitsValue(s[from..to + 1]) == DigitsValue(s[from..to]) * 10 + (s[to] - CharZero) as int
  {
    assert s[from..to + 1][..to - from] == s[from..to];
  }
}
