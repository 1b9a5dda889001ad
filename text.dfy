/**
 * Numerals as Python's formatting writes them: `str(n)` for decimal and the
 * format specs `02X` / `04X` for zero-padded upper-case hexadecimal, together
 * with the digit values that read them back.
 */
module Text {

  /** The upper-case digit for `d`, as the format spec `X` writes it. */
  function Digit(d: nat): (c: char)
    requires d < 16
    ensures IsUpperDigit(c) && DigitValue(c) == d
  {
    if d < 10 then ('0' as int + d) as char else ('A' as int + d - 10) as char
  }

  /** A character `int(s, 16)` accepts as a digit (either case). */
  predicate IsHexDigit(c: char) {
    '0' <= c <= '9' || 'A' <= c <= 'F' || 'a' <= c <= 'f'
  }

  /** A digit as the format spec `X` writes it: `0`-`9` or `A`-`F`. */
  predicate IsUpperDigit(c: char) {
    '0' <= c <= '9' || 'A' <= c <= 'F'
  }

  function DigitValue(c: char): (v: nat)
    requires IsHexDigit(c)
    ensures v < 16
    ensures v < 10 <==> '0' <= c <= '9'
  {
    if '0' <= c <= '9' then c as int - '0' as int
    else if 'A' <= c <= 'F' then c as int - 'A' as int + 10
    else c as int - 'a' as int + 10
  }

  predicate AllHex(s: string) {
    forall i | 0 <= i < |s| :: IsHexDigit(s[i])
  }

  /** Every character of `s` is an upper-case digit below `base`. */
  predicate Digits(s: string, base: nat) {
    forall i | 0 <= i < |s| :: IsUpperDigit(s[i]) && DigitValue(s[i]) < base
  }

  lemma DigitsAppend(s: string, c: char, base: nat)
    requires Digits(s, base) && IsUpperDigit(c) && DigitValue(c) < base
    ensures Digits(s + [c], base)
  {
  }

  /** The digits of `n` in `base` with no leading zeros ("0" for zero). */
  function Numeral(n: nat, base: nat): (s: string)
    requires 2 <= base <= 16
    ensures |s| >= 1 && Digits(s, base)
    decreases n
  {
    if n < base then [Digit(n)] else
      var q, r := n / base, n % base;
      DivMod(n, base);
      var init := Numeral(q, base);
      DigitsAppend(init, Digit(r), base);
      init + [Digit(r)]
  }

  /** The number a string of digits denotes in `base` (most significant first). */
  function ValueOf(s: string, base: nat): nat
    requires AllHex(s)
  {
    if s == [] then 0 else ValueOf(s[..|s| - 1], base) * base + DigitValue(s[|s| - 1])
  }

  lemma {:induction false} NumeralValue(n: nat, base: nat)
    requires 2 <= base <= 16
    ensures ValueOf(Numeral(n, base), base) == n
    decreases n
  {
    if n >= base {
      var s := Numeral(n, base);
      var q, r := n / base, n % base;
      assert s == Numeral(q, base) + [Digit(r)];
      assert s[..|s| - 1] == Numeral(q, base);
      DivMod(n, base);
      NumeralValue(q, base);
    }
  }

  lemma DivMod(n: nat, base: nat)
    requires 2 <= base
    ensures n == (n / base) * base + n % base
    ensures n >= base ==> n / base < n
  {
  }

  function Zeros(k: nat): (z: string)
    ensures |z| == k && forall i | 0 <= i < k :: z[i] == '0'
  {
    seq(k, _ => '0')
  }

  /** `s` preceded by as many '0' as it takes to be `width` long. */
  function ZeroPad(s: string, width: nat): string {
    if |s| >= width then s else Zeros(width - |s|) + s
  }

  lemma {:induction false} LeadingZerosValue(k: nat, s: string, base: nat)
    requires AllHex(s)
    ensures AllHex(Zeros(k) + s)
    ensures ValueOf(Zeros(k) + s, base) == ValueOf(s, base)
    decreases |s|, k
  {
    var t := Zeros(k) + s;
    if s == [] {
      assert t == Zeros(k);
      if k > 0 {
        assert t[..|t| - 1] == Zeros(k - 1) + [];
        LeadingZerosValue(k - 1, [], base);
      }
    } else {
      assert t[..|t| - 1] == Zeros(k) + s[..|s| - 1];
      LeadingZerosValue(k, s[..|s| - 1], base);
    }
  }

  /** `format(n, '0<width>X')`. */
  function Hex(n: nat, width: nat): string {
    ZeroPad(Numeral(n, 16), width)
  }

  /** `format(n, '0<width>X')` for any int: the sign comes first and counts toward the width. */
  function SignedHex(n: int, width: nat): string {
    if n < 0 then "-" + ZeroPad(Numeral(-n, 16), if width > 0 then width - 1 else 0)
    else Hex(n, width)
  }

  /** `str(n)`. */
  function Decimal(n: nat): string {
    Numeral(n, 10)
  }

  /** What the zero-padded hex numeral of `n` is: at least `width` upper-case digits that read back as `n`. */
  lemma HexNumeral(n: nat, width: nat)
    ensures |Hex(n, width)| >= width
    ensures forall i | 0 <= i < |Hex(n, width)| :: IsUpperDigit(Hex(n, width)[i])
    ensures ValueOf(Hex(n, width), 16) == n
  {
    var s := Numeral(n, 16);
    NumeralValue(n, 16);
    if |s| < width {
      LeadingZerosValue(width - |s|, s, 16);
      assert Hex(n, width) == Zeros(width - |s|) + s;
    } else {
      assert Hex(n, width) == s;
    }
  }

  /** `base` to the power `k`. */
  function Power(base: nat, k: nat): nat {
    if k == 0 then 1 else base * Power(base, k - 1)
  }

  lemma QuotientBelow(n: nat, d: nat, p: nat)
    requires d > 0 && n < d * p
    ensures n / d < p
  {
    assert d * (n / d) <= n;
  }

  /** A number below `base` to the power `k` has at most `k` digits. */
  lemma {:induction false} NumeralLength(n: nat, base: nat, k: nat)
    requires 2 <= base <= 16 && 1 <= k && n < Power(base, k)
    ensures |Numeral(n, base)| <= k
    decreases k
  {
    if n >= base {
      assert Power(base, 1) == base;
      assert k >= 2;
      DivMod(n, base);
      QuotientBelow(n, base, Power(base, k - 1));
      NumeralLength(n / base, base, k - 1);
      assert Numeral(n, base) == Numeral(n / base, base) + [Digit(n % base)];
    }
  }

  /** Below 16 to the power `width`, the padded numeral has exactly `width` digits (the `{:04X}` column). */
  lemma HexWidth(n: nat, width: nat)
    requires 1 <= width && n < Power(16, width)
    ensures |Hex(n, width)| == width
  {
    NumeralLength(n, 16, width);
  }

  /** A byte is written with exactly two hex digits, high nibble first. */
  lemma HexByte(b: nat)
    requires b < 256
    ensures Hex(b, 2) == [Digit(b / 16), Digit(b % 16)]
  {
    if b < 16 {
      assert Numeral(b, 16) == [Digit(b)];
      assert Zeros(1) == "0";
    } else {
      assert Numeral(b / 16, 16) == [Digit(b / 16)];
    }
  }

  /** `str(n)` uses only the digits 0-9 and reads back as `n`. */
  lemma DecimalNumeral(n: nat)
    ensures forall i | 0 <= i < |Decimal(n)| :: '0' <= Decimal(n)[i] <= '9'
    ensures ValueOf(Decimal(n), 10) == n
  {
    NumeralValue(n, 10);
  }
}
