/**
  Lowercase hexadecimal text as PHP's `sprintf` writes it with the `%x` and
  `%04x` conversions, together with the inverse reading of such text.

  `%x` prints a non-negative integer with the fewest lowercase hex digits
  (a single `0` for zero); the `04` flag pads that text on the left with
  `0` up to four characters and never truncates a longer one.
 */
module Hex {

  /** The characters `%x` can produce. */
  predicate IsDigitChar(c: char) {
    '0' <= c <= '9' || 'a' <= c <= 'f'
  }

  /** Every character of `s` is a lowercase hex digit. */
  predicate IsHexText(s: seq<char>) {
    forall i :: 0 <= i < |s| ==> IsDigitChar(s[i])
  }

  /** The lowercase digits `%x` writes, indexed by the nibble they stand for. */
  const DigitTable: string := "0123456789abcdef"

  /** The lowercase digit for `d`. */
  function DigitChar(d: nat): (c: char)
    requires d < 16
    ensures c == DigitTable[d]
    ensures IsDigitChar(c)
    ensures c == '0' <==> d == 0
  {
    if d < 10 then ('0' as int + d) as char else ('a' as int + d - 10) as char
  }

  /** The number a lowercase digit stands for; the inverse of `DigitChar`. */
  function DigitValue(c: char): (d: nat)
    requires IsDigitChar(c)
    ensures d < 16
    ensures DigitChar(d) == c
  {
    if c <= '9' then c as int - '0' as int else c as int - 'a' as int + 10
  }

  lemma DigitValueOfChar(d: nat)
    requires d < 16
    ensures DigitValue(DigitChar(d)) == d
  {
  }

  function Pow16(k: nat): (p: nat)
    ensures p >= 1
  {
    if k == 0 then 1 else 16 * Pow16(k - 1)
  }

  /** The text `%x` prints for `n`: minimal digits, most significant first. */
  function Digits(n: nat): (s: seq<char>)
    ensures 1 <= |s|
    ensures IsHexText(s)
    ensures s[0] == '0' <==> n == 0
    decreases n
  {
    if n < 16 then [DigitChar(n)] else Digits(n / 16) + [DigitChar(n % 16)]
  }

  /** `k` copies of the padding character `0`. */
  function Zeros(k: nat): (z: seq<char>)
  {
    seq(k, _ => '0')
  }

  /** Left padding with `0` up to `width`, as the `0` flag of `sprintf` does. */
  function PadLeft(s: seq<char>, width: nat): (r: seq<char>)
    ensures |r| == if |s| < width then width else |s|
    ensures r[|r| - |s|..] == s
    ensures forall i :: 0 <= i < |r| - |s| ==> r[i] == '0'
  {
    if |s| < width then Zeros(width - |s|) + s else s
  }

  /**
    The text `sprintf('%04x', n)` produces: at least four lowercase hex
    digits (`Format04xValue` says it reads back as `n`).
   */
  function Format04x(n: nat): (s: seq<char>)
    ensures 4 <= |s|
    ensures IsHexText(s)
  {
    PadLeft(Digits(n), 4)
  }

  /** The number a hex text stands for (reading `%x` output back). */
  function Value(s: seq<char>): (v: nat)
    requires IsHexText(s)
    ensures v < Pow16(|s|)
  {
    if s == [] then 0 else Value(s[..|s| - 1]) * 16 + DigitValue(s[|s| - 1])
  }

  /** `%x` loses nothing: its text reads back as the number printed. */
  lemma {:induction false} ValueOfDigits(n: nat)
    ensures Value(Digits(n)) == n
    decreases n
  {
    var s := Digits(n);
    if n >= 16 {
      assert s[..|s| - 1] == Digits(n / 16);
      ValueOfDigits(n / 16);
      DigitValueOfChar(n % 16);
    } else {
      DigitValueOfChar(n);
    }
  }

  /** Leading zeros do not change the value of a hex text. */
  lemma {:induction false} ValueOfZeros(k: nat, s: seq<char>)
    requires IsHexText(s)
    ensures IsHexText(Zeros(k) + s)
    ensures Value(Zeros(k) + s) == Value(s)
    decreases |s|, k
  {
    var t := Zeros(k) + s;
    assert IsHexText(t) by {
      forall i | 0 <= i < |t| ensures IsDigitChar(t[i]) {
        if i < k { assert t[i] == '0'; } else { assert t[i] == s[i - k]; }
      }
    }
    if s == [] {
      if k > 0 {
        assert t[..|t| - 1] == Zeros(k - 1) + [];
        ValueOfZeros(k - 1, []);
      }
    } else {
      assert t[..|t| - 1] == Zeros(k) + s[..|s| - 1];
      ValueOfZeros(k, s[..|s| - 1]);
    }
  }

  /** `%04x` loses nothing either: padding adds only leading zeros. */
  lemma Format04xValue(n: nat)
    ensures IsHexText(Format04x(n))
    ensures Value(Format04x(n)) == n
  {
    var d := Digits(n);
    ValueOfDigits(n);
    if |d| < 4 {
      ValueOfZeros(4 - |d|, d);
    }
  }

  /** The `i`-th nibble of `n`, counting from the least significant. */
  function Nibble(n: nat, i: nat): (d: nat)
    ensures d < 16
  {
    if i == 0 then n % 16 else Nibble(n / 16, i - 1)
  }

  /** The first four nibbles, written with repeated division by 16. */
  lemma NibblesOf(n: nat)
    ensures Nibble(n, 0) == n % 16
    ensures Nibble(n, 1) == n / 16 % 16
    ensures Nibble(n, 2) == n / 16 / 16 % 16
    ensures Nibble(n, 3) == n / 16 / 16 / 16 % 16
  {
    assert Nibble(n, 3) == Nibble(n / 16, 2) == Nibble(n / 16 / 16, 1) == Nibble(n / 16 / 16 / 16, 0);
    assert Nibble(n, 2) == Nibble(n / 16, 1) == Nibble(n / 16 / 16, 0);
    assert Nibble(n, 1) == Nibble(n / 16, 0);
  }

  /**
    For the values a 16-bit word can hold, `%04x` writes exactly four
    digits, one per nibble, most significant first.
   */
  lemma Format04xNibbles(n: nat)
    requires n < 0x10000
    ensures Format04x(n) ==
      [DigitChar(Nibble(n, 3)), DigitChar(Nibble(n, 2)), DigitChar(Nibble(n, 1)), DigitChar(Nibble(n, 0))]
  {
    var q1 := n / 16;
    var q2 := q1 / 16;
    var q3 := q2 / 16;
    NibblesOf(n);
    var d3, d2, d1, d0 := DigitChar(q3 % 16), DigitChar(q2 % 16), DigitChar(q1 % 16), DigitChar(n % 16);
    var digits: seq<char>;
    if n < 16 {
      digits := [d0];
      assert Digits(n) == digits;
      assert q1 == 0 && q2 == 0 && q3 == 0;
    } else if q1 < 16 {
      digits := [d1, d0];
      assert Digits(n) == Digits(q1) + [d0];
      assert Digits(n) == digits;
      assert q2 == 0 && q3 == 0;
    } else if q2 < 16 {
      digits := [d2, d1, d0];
      assert Digits(q1) == Digits(q2) + [d1];
      assert Digits(n) == Digits(q1) + [d0];
      assert Digits(n) == digits;
      assert q3 == 0;
    } else {
      assert q3 < 16;
      digits := [d3, d2, d1, d0];
      assert Digits(q2) == Digits(q3) + [d2];
      assert Digits(q1) == Digits(q2) + [d1];
      assert Digits(n) == Digits(q1) + [d0];
      assert Digits(n) == digits;
    }
    PadFour(digits);
  }

  /** Padding a text of one to four characters to width four. */
  lemma PadFour(s: seq<char>)
    requires 1 <= |s| <= 4
    ensures |s| == 4 ==> PadLeft(s, 4) == s
    ensures |s| == 3 ==> PadLeft(s, 4) == ['0', s[0], s[1], s[2]]
    ensures |s| == 2 ==> PadLeft(s, 4) == ['0', '0', s[0], s[1]]
    ensures |s| == 1 ==> PadLeft(s, 4) == ['0', '0', '0', s[0]]
  {
  }

  /** The first digit `%04x` writes for a 16-bit word is its top nibble. */
  lemma FirstDigit(w: nat)
    requires w < 0x10000
    ensures Format04x(w)[0] == DigitChar(w / 0x1000)
  {
    var top := w / 0x1000;
    NibblesOf(w);
    assert top * 0x100 <= w / 16 < top * 0x100 + 0x100;
    assert top * 0x10 <= w / 16 / 16 < top * 0x10 + 0x10;
    assert Nibble(w, 3) == top;
    Format04xNibbles(w);
  }

  /** A four-digit hex text stands for its nibbles weighted by position. */
  lemma ValueOfFour(s: seq<char>)
    requires |s| == 4 && IsHexText(s)
    ensures Value(s) ==
      ((DigitValue(s[0]) * 16 + DigitValue(s[1])) * 16 + DigitValue(s[2])) * 16 + DigitValue(s[3])
  {
    assert s[..3][..2] == s[..2] && s[..3][2] == s[2];
    assert s[..2][..1] == s[..1] && s[..2][1] == s[1];
    assert s[..1][..0] == [] && s[..1][0] == s[0];
    var d0, d1, d2, d3 := DigitValue(s[0]), DigitValue(s[1]), DigitValue(s[2]), DigitValue(s[3]);
    assert Value(s[..1]) == d0;
    assert Value(s[..2]) == d0 * 16 + d1;
    assert Value(s[..3]) == (d0 * 16 + d1) * 16 + d2;
    assert Value(s) == Value(s[..3]) * 16 + d3;
  }

  /** Quotient and remainder by 16 are determined by a digit split. */
  lemma DivMod16(v: nat, q: nat, r: nat)
    requires r < 16 && v == q * 16 + r
    ensures v / 16 == q && v % 16 == r
  {
  }

  /**
    `%04x` of a 16-bit word reads back as the word; `ValueRoundTrip` is the
    other direction.
   */
  lemma Format04xRoundTrip(n: nat)
    requires n < 0x10000
    ensures |Format04x(n)| == 4
    ensures IsHexText(Format04x(n))
    ensures Value(Format04x(n)) == n
  {
    Format04xNibbles(n);
    Format04xValue(n);
  }

  /** Four hex digits are the `%04x` text of the word they read as. */
  lemma ValueRoundTrip(s: seq<char>)
    requires |s| == 4 && IsHexText(s)
    ensures Value(s) < 0x10000
    ensures Format04x(Value(s)) == s
  {
    var a, b, c, e := DigitValue(s[0]), DigitValue(s[1]), DigitValue(s[2]), DigitValue(s[3]);
    var v := Value(s);
    ValueOfFour(s);
    assert v == ((a * 16 + b) * 16 + c) * 16 + e;
    NibblesOfDigits(a, b, c, e);
    Format04xNibbles(v);
    assert Format04x(v) == [DigitChar(a), DigitChar(b), DigitChar(c), DigitChar(e)];
    FourChars(s);
  }

  /** The four nibbles of a number written with four hex digits are those digits. */
  lemma NibblesOfDigits(a: nat, b: nat, c: nat, e: nat)
    requires a < 16 && b < 16 && c < 16 && e < 16
    ensures ((a * 16 + b) * 16 + c) * 16 + e < 0x10000
    ensures var v := ((a * 16 + b) * 16 + c) * 16 + e;
      Nibble(v, 3) == a && Nibble(v, 2) == b && Nibble(v, 1) == c && Nibble(v, 0) == e
  {
    var v := ((a * 16 + b) * 16 + c) * 16 + e;
    DivMod16(v, (a * 16 + b) * 16 + c, e);
    DivMod16((a * 16 + b) * 16 + c, a * 16 + b, c);
    DivMod16(a * 16 + b, a, b);
    NibblesOf(v);
  }

  lemma FourChars(s: seq<char>)
    requires |s| == 4
    ensures s == [s[0], s[1], s[2], s[3]]
  {
  }
}
