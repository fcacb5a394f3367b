/**
 * Exact decimal numerals: the digit strings matched by `\d+(\.\d+)?` in both
 * the backend's unit pattern and the client's grams pattern, their values, and
 * a greedy scanner for them.
 */
module Decimal {
  import opened Wrappers

  predicate IsDigit(c: char) { '0' <= c <= '9' }

  predicate AllDigits(s: string) { forall i :: 0 <= i < |s| ==> IsDigit(s[i]) }

  function DigitValue(c: char): (d: nat)
    requires IsDigit(c)
    ensures d < 10
  {
    c as int - '0' as int
  }

  function Digit(d: nat): (c: char)
    requires d < 10
    ensures IsDigit(c) && DigitValue(c) == d
  {
    ('0' as int + d) as char
  }

  function Pow10(k: nat): (p: nat)
    ensures p >= 1
  {
    if k == 0 then 1 else 10 * Pow10(k - 1)
  }

  /** The natural number a string of decimal digits denotes. */
  function DigitsValue(s: string): nat
    requires AllDigits(s)
  {
    if s == [] then 0 else 10 * DigitsValue(s[..|s| - 1]) + DigitValue(s[|s| - 1])
  }

  /** Appending a digit shifts the value one place and adds the digit. */
  lemma DigitsValueSnoc(s: string, c: char)
    requires AllDigits(s) && IsDigit(c)
    ensures AllDigits(s + [c]) && DigitsValue(s + [c]) == 10 * DigitsValue(s) + DigitValue(c)
  {
    assert (s + [c])[..|s|] == s;
  }

  /** The value of two digit strings laid end to end. */
  lemma {:induction false} DigitsValueAppend(a: string, b: string)
    requires AllDigits(a) && AllDigits(b)
    ensures AllDigits(a + b)
    ensures DigitsValue(a + b) == DigitsValue(a) * Pow10(|b|) + DigitsValue(b)
  {
    if b == [] {
      assert a + b == a;
    } else {
      var b', c := b[..|b| - 1], b[|b| - 1];
      assert b == b' + [c];
      assert a + b == (a + b') + [c];
      DigitsValueAppend(a, b');
      DigitsValueSnoc(a + b', c);
      DigitsValueSnoc(b', c);
      ShiftOnePlace(DigitsValue(a), DigitsValue(b'), Pow10(|b'|), DigitValue(c));
    }
  }

  lemma ShiftOnePlace(x: int, y: int, p: int, c: int)
    ensures 10 * (x * p + y) + c == x * (10 * p) + (10 * y + c)
  {
  }

  /** The decimal representation of `n`, as Python's `str(int)` writes it. */
  function NatToDigits(n: nat): (s: string)
    ensures |s| >= 1 && AllDigits(s)
    ensures s[0] == '0' <==> n == 0
    ensures n == 0 ==> s == "0"
  {
    if n < 10 then [Digit(n)] else NatToDigits(n / 10) + [Digit(n % 10)]
  }

  lemma {:induction false} NatToDigitsValue(n: nat)
    ensures DigitsValue(NatToDigits(n)) == n
  {
    if n >= 10 {
      var s := NatToDigits(n);
      assert s[..|s| - 1] == NatToDigits(n / 10);
      NatToDigitsValue(n / 10);
    }
  }

  /** An exact decimal number: `mant / 10^scale`. */
  datatype Dec = Dec(mant: nat, scale: nat)

  function Value(d: Dec): (v: real)
    ensures v >= 0.0
  {
    d.mant as real / Pow10(d.scale) as real
  }

  /**
   * The text matched by `\d+(\.\d+)?`: a non-empty whole part and, when the
   * optional group took part, a non-empty fraction part.
   */
  datatype Numeral = Numeral(whole: string, frac: string)

  predicate ValidNumeral(n: Numeral) {
    |n.whole| >= 1 && AllDigits(n.whole) && AllDigits(n.frac)
  }

  function Text(n: Numeral): string {
    if n.frac == [] then n.whole else n.whole + "." + n.frac
  }

  lemma AllDigitsAppend(a: string, b: string)
    requires AllDigits(a) && AllDigits(b)
    ensures AllDigits(a + b)
  {
  }

  /** The exact number a numeral denotes (`float(...)`, `parseFloat(...)` without rounding). */
  function NumeralValue(n: Numeral): (d: Dec)
    requires ValidNumeral(n)
    ensures d.scale == |n.frac|
  {
    AllDigitsAppend(n.whole, n.frac);
    Dec(DigitsValue(n.whole + n.frac), |n.frac|)
  }

  /** Every character of a numeral is a digit or the decimal point. */
  lemma NumeralChars(n: Numeral)
    requires ValidNumeral(n)
    ensures |Text(n)| >= 1 && IsDigit(Text(n)[0])
    ensures forall c :: c in Text(n) ==> IsDigit(c) || c == '.'
  {
    if n.frac != [] {
      assert Text(n)[0] == n.whole[0];
    }
  }

  /** Every character of `s` from `i` up to `j` is a digit. */
  predicate DigitsIn(s: string, i: nat, j: nat)
    requires i <= j <= |s|
  {
    forall k :: i <= k < j ==> IsDigit(s[k])
  }

  /** The end of the longest run of digits starting at `i` (`\d+` taken greedily). */
  function DigitRunEnd(s: string, i: nat): (j: nat)
    requires i <= |s|
    ensures i <= j <= |s| && DigitsIn(s, i, j)
    ensures j < |s| ==> !IsDigit(s[j])
    decreases |s| - i
  {
    if i < |s| && IsDigit(s[i]) then DigitRunEnd(s, i + 1) else i
  }

  lemma {:induction false} DigitRunEndAt(s: string, i: nat, j: nat)
    requires i <= j <= |s| && DigitsIn(s, i, j)
    requires j < |s| ==> !IsDigit(s[j])
    ensures DigitRunEnd(s, i) == j
    decreases j - i
  {
    if i < j {
      DigitRunEndAt(s, i + 1, j);
    }
  }

  /**
   * `s[i..e]` is a numeral whose whole part ends at `d`: digits up to `d`,
   * and either nothing more (`d == e`) or a point followed by digits up to `e`.
   */
  predicate NumeralSpan(s: string, i: nat, d: nat, e: nat) {
    i < d <= e <= |s| && DigitsIn(s, i, d)
    && (d == e || (s[d] == '.' && d + 1 < e && DigitsIn(s, d + 1, e)))
  }

  /**
   * Where a greedy `\d+(\.\d+)?` starting at `i` ends: after the longest
   * digit run, extended by a point and the longest digit run after it when a
   * digit follows the point; `i` itself when no digit stands at `i`.
   */
  function NumeralEnd(s: string, i: nat): nat
    requires i <= |s|
  {
    var d := DigitRunEnd(s, i);
    if d > i && d + 1 < |s| && s[d] == '.' && IsDigit(s[d + 1]) then DigitRunEnd(s, d + 1) else d
  }

  /** The numeral spelled by `s[i..e]` with its whole part ending at `d`. */
  function NumeralOf(s: string, i: nat, d: nat, e: nat): Numeral
    requires i <= d <= e <= |s|
  {
    Numeral(s[i..d], if d == e then "" else s[d + 1..e])
  }

  /** The numeral the greedy scanner reads at `i`. */
  function NumeralAt(s: string, i: nat): Numeral
    requires i <= |s|
  {
    NumeralOf(s, i, DigitRunEnd(s, i), NumeralEnd(s, i))
  }

  /**
   * The scanner reads a numeral exactly when a digit stands at `i`, and it
   * reads the longest one: no digit follows it, nor (when it has no
   * fraction) a point and a digit.
   */
  lemma NumeralEndSound(s: string, i: nat)
    requires i <= |s|
    ensures var e := NumeralEnd(s, i);
            i <= e <= |s| && (e == i <==> (i == |s| || !IsDigit(s[i])))
    ensures var d, e := DigitRunEnd(s, i), NumeralEnd(s, i);
            e > i ==> NumeralSpan(s, i, d, e) && (e < |s| ==> !IsDigit(s[e]))
                      && (d == e && e + 1 < |s| && s[e] == '.' ==> !IsDigit(s[e + 1]))
  {
  }

  /**
   * Where a numeral spans `s[i..e]`, no digit follows it and, when it has no
   * fraction, no point and a digit follow it, the greedy scanner reads
   * exactly that numeral.
   */
  lemma NumeralEndComplete(s: string, i: nat, d: nat, e: nat)
    requires NumeralSpan(s, i, d, e)
    requires e < |s| ==> !IsDigit(s[e])
    requires d == e && e + 1 < |s| && s[e] == '.' ==> !IsDigit(s[e + 1])
    ensures DigitRunEnd(s, i) == d && NumeralEnd(s, i) == e
  {
    DigitRunEndAt(s, i, d);
    if d < e {
      DigitRunEndAt(s, d + 1, e);
    }
  }

  /** What a numeral span spells is a numeral, written out as the span's text. */
  lemma NumeralOfText(s: string, i: nat, d: nat, e: nat)
    requires NumeralSpan(s, i, d, e)
    ensures ValidNumeral(NumeralOf(s, i, d, e)) && Text(NumeralOf(s, i, d, e)) == s[i..e]
  {
    var n := NumeralOf(s, i, d, e);
    if d < e {
      assert s[i..e] == s[i..d] + [s[d]] + s[d + 1..e];
    } else {
      assert s[i..e] == s[i..d];
    }
  }
}
