/**
 * How pdf2xml writes numbers into its output: `XmlOutput::write(int)`
 * (canonical decimal through a 12-character buffer) and the fixed-width
 * upper-case hexadecimal of font colours and picture file numbers.
 */
module Numbers {

  // ---------------------------------------------------------------- decimal

  function Pow10(k: nat): (p: nat)
    ensures p >= 1
  {
    if k == 0 then 1 else 10 * Pow10(k - 1)
  }

  predicate IsDigit(c: char) { '0' <= c <= '9' }

  function DigitChar(d: int): (c: char)
    requires 0 <= d < 10
    ensures IsDigit(c)
  {
    ('0' as int + d) as char
  }

  /** The decimal digits of a natural number, none for zero. */
  function Digits(n: nat): string
  {
    if n == 0 then "" else Digits(n / 10) + [DigitChar(n % 10)]
  }

  /** What `write(int)` emits: "0", or an optional '-' followed by the digits of the magnitude. */
  function Decimal(n: int): string
  {
    if n == 0 then "0" else if n < 0 then "-" + Digits(-n) else Digits(n)
  }

  /** The value of a string of decimal digits. */
  function DigitsValue(s: string): int
  {
    if s == [] then 0 else DigitsValue(s[..|s| - 1]) * 10 + (s[|s| - 1] as int - '0' as int)
  }

  /** Reading back what `write(int)` emits. */
  function ParseDecimal(s: string): int
  {
    if |s| > 0 && s[0] == '-' then -DigitsValue(s[1..]) else DigitsValue(s)
  }

  lemma {:induction false} DigitsShape(n: nat)
    ensures n > 0 <==> |Digits(n)| > 0
    ensures forall i :: 0 <= i < |Digits(n)| ==> IsDigit(Digits(n)[i])
    ensures n > 0 ==> Digits(n)[0] != '0'
    ensures DigitsValue(Digits(n)) == n
  {
    if n > 0 {
      var s := Digits(n);
      DigitsShape(n / 10);
      assert s[..|s| - 1] == Digits(n / 10);
      if n / 10 == 0 {
        assert s == [DigitChar(n % 10)];
      } else {
        assert s[0] == Digits(n / 10)[0];
      }
    }
  }

  lemma {:induction false} DigitsLength(n: nat, k: nat)
    requires n < Pow10(k)
    ensures |Digits(n)| <= k
  {
    if n > 0 {
      DigitsLength(n / 10, k - 1);
    }
  }

  lemma Pow10Of10()
    ensures Pow10(10) == 10_000_000_000
  {
    calc {
      Pow10(10);
      10 * Pow10(9);
      100 * Pow10(8);
      1_000 * Pow10(7);
      10_000 * Pow10(6);
      100_000 * Pow10(5);
      1_000_000 * Pow10(4);
      10_000_000 * Pow10(3);
      100_000_000 * Pow10(2);
      1_000_000_000 * Pow10(1);
      10_000_000_000 * Pow10(0);
    }
  }

  /**
   * The text of write(int) is canonical: "0" only for zero, a leading '-'
   * exactly for negative numbers, digits only after it, no leading zero,
   * and at most 11 characters for a 32-bit number; it reads back to `n`.
   */
  lemma DecimalCanonical(n: int)
    ensures |Decimal(n)| >= 1
    ensures Decimal(n) == "0" <==> n == 0
    ensures Decimal(n)[0] == '-' <==> n < 0
    ensures var d := if n < 0 then 1 else 0;
      |Decimal(n)| > d && forall i :: d <= i < |Decimal(n)| ==> IsDigit(Decimal(n)[i])
    ensures n != 0 ==> Decimal(n)[if n < 0 then 1 else 0] != '0'
    ensures -0x8000_0000 < n < 0x8000_0000 ==> |Decimal(n)| <= 11
    ensures ParseDecimal(Decimal(n)) == n
  {
    var m := if n < 0 then -n else n;
    DigitsShape(m);
    Pow10Of10();
    if m < 0x8000_0000 {
      DigitsLength(m, 10);
    }
    if n < 0 {
      assert Decimal(n)[1..] == Digits(m);
    }
  }

  /** Every character of the decimal text is a digit or the minus sign. */
  lemma DecimalAlphabet(n: int)
    ensures forall i :: 0 <= i < |Decimal(n)| ==> Decimal(n)[i] == '-' || IsDigit(Decimal(n)[i])
  {
    DecimalCanonical(n);
  }

  /**
   * `XmlOutput::write(int)`: fills a 12-character buffer from the right,
   * one digit per step, then a '-' for a negative number. The magnitude is
   * taken with `-number`, which overflows for INT_MIN, so the smallest
   * 32-bit value is excluded.
   */
  method FormatInt(number: int) returns (s: string)
    requires -0x8000_0000 < number < 0x8000_0000
    ensures s == Decimal(number)
  {
    var charNumber := new char[12];
    charNumber[11] := 0 as char;
    if number == 0 {
      charNumber[10] := '0';
      return charNumber[10..11];
    }
    var n := number;
    var negative := false;
    if n < 0 {
      n := -n;
      negative := true;
    }
    ghost var magnitude := n;
    MagnitudeFits(magnitude);
    var index := 10;
    while index >= 0 && n != 0
      invariant -1 <= index <= 10
      invariant n >= 0
      invariant Digits(magnitude) == Digits(n) + charNumber[index + 1..11]
    {
      ghost var tail := charNumber[index + 1..11];
      charNumber[index] := DigitChar(n % 10);
      Prepended(charNumber, index, 11);
      DigitStep(n, tail);
      n := n / 10;
      index := index - 1;
    }
    if negative {
      charNumber[index] := '-';
      Prepended(charNumber, index, 11);
      index := index - 1;
    }
    s := charNumber[index + 1..11];
  }

  /** A 32-bit magnitude has at most ten digits, so the buffer never runs out before the number does. */
  lemma MagnitudeFits(m: nat)
    requires m < 0x8000_0000
    ensures |Digits(m)| <= 10
  {
    Pow10Of10();
    DigitsLength(m, 10);
  }

  /** The last digit of n, in front of what follows it, leaves the digits of n / 10. */
  lemma DigitStep(n: nat, tail: string)
    requires n > 0
    ensures Digits(n) + tail == Digits(n / 10) + ([DigitChar(n % 10)] + tail)
  {
  }

  /** An array slice is its first element followed by the rest. */
  lemma Prepended(a: array<char>, i: nat, j: nat)
    requires i < j <= a.Length
    ensures a[i..j] == [a[i]] + a[i + 1..j]
  {
  }

  // ------------------------------------------------------------ hexadecimal

  const HexChars := "0123456789ABCDEF"

  predicate IsHexDigit(c: char) { c in HexChars }

  function Pow16(k: nat): (p: nat)
    ensures p >= 1
  {
    if k == 0 then 1 else 16 * Pow16(k - 1)
  }

  /**
   * `count` upper-case hexadecimal digits of `n`, most significant first:
   * digit i is `HEXADECIMAL_CHARACTERS[(n >> 4 * (count - 1 - i)) & 0xF]`
   * (see HexDigitAt). Arithmetic shift and mask are floor division and
   * non-negative remainder, so negative numbers are covered too.
   */
  function HexDigits(n: int, count: nat): (s: string)
    ensures |s| == count
    decreases count
  {
    if count == 0 then "" else HexDigits(n / 16, count - 1) + [HexChars[n % 16]]
  }

  function HexDigitValue(c: char): int
  {
    if '0' <= c <= '9' then c as int - '0' as int
    else if 'A' <= c <= 'F' then c as int - 'A' as int + 10
    else 0
  }

  /** The value of a string of hexadecimal digits. */
  function HexValue(s: string): int
  {
    if s == [] then 0 else HexValue(s[..|s| - 1]) * 16 + HexDigitValue(s[|s| - 1])
  }

  lemma ModUnique(n: int, d: int, q: int, r: int)
    requires d > 0 && 0 <= r < d && n == q * d + r
    ensures n / d == q && n % d == r
  {
    var q', r' := n / d, n % d;
    assert (q - q') * d == r' - r;
    if q > q' {
      MulAtLeast(q - q', d);
    } else if q < q' {
      MulAtLeast(q' - q, d);
    }
  }

  /** Multiplying by a non-negative number keeps the order. */
  lemma MulMonotone(a: int, b: int, c: int)
    requires a <= b && c >= 0
    ensures a * c <= b * c
  {
  }

  lemma MulAtLeast(a: int, d: int)
    requires a >= 1 && d > 0
    ensures a * d >= d
  {
  }

  lemma HexCharValue(v: int)
    requires 0 <= v < 16
    ensures IsHexDigit(HexChars[v]) && HexDigitValue(HexChars[v]) == v
  {
  }

  /** The digits of HexDigits read back to the low 4*count bits of n. */
  lemma {:induction false} HexRoundTrip(n: int, count: nat)
    decreases count
    ensures forall i :: 0 <= i < count ==> IsHexDigit(HexDigits(n, count)[i])
    ensures HexValue(HexDigits(n, count)) == n % Pow16(count)
  {
    if count > 0 {
      var s := HexDigits(n, count);
      HexRoundTrip(n / 16, count - 1);
      HexCharValue(n % 16);
      assert s[..|s| - 1] == HexDigits(n / 16, count - 1);
      DivModBy16Times(n, Pow16(count - 1));
    }
  }

  /** Dividing by 16 and then by p is dividing by 16 * p; the remainders compose likewise. */
  lemma DivModBy16Times(n: int, p: int)
    requires p > 0
    ensures n / (16 * p) == (n / 16) / p
    ensures n % (16 * p) == ((n / 16) % p) * 16 + n % 16
  {
    var q := n / 16;
    var a, b := q / p, q % p;
    assert q == a * p + b;
    assert n == 16 * q + n % 16;
    calc {
      n;
      16 * (a * p + b) + n % 16;
      a * (16 * p) + (b * 16 + n % 16);
    }
    ModUnique(n, 16 * p, a, b * 16 + n % 16);
  }

  /** Digit i of HexDigits is the source's `(n >> 4 * (count - 1 - i)) & 0xF`. */
  lemma {:induction false} HexDigitAt(n: int, count: nat, i: nat)
    requires i < count
    ensures HexDigits(n, count)[i] == HexChars[(n / Pow16(count - 1 - i)) % 16]
    decreases count
  {
    if i < count - 1 {
      HexDigitAt(n / 16, count - 1, i);
      DivModBy16Times(n, Pow16(count - 2 - i));
    }
  }

  /** Numbers that agree in their low 4*count bits get the same digits. */
  lemma {:induction false} HexDigitsWrap(n: int, m: int, count: nat)
    requires n % Pow16(count) == m % Pow16(count)
    ensures HexDigits(n, count) == HexDigits(m, count)
    decreases count
  {
    if count > 0 {
      var p := Pow16(count - 1);
      DivModBy16Times(n, p);
      DivModBy16Times(m, p);
      var qn, qm := n / 16, m / 16;
      var x := n % (16 * p);
      ModUnique(x, 16, qn % p, n % 16);
      ModUnique(x, 16, qm % p, m % 16);
      HexDigitsWrap(qn, qm, count - 1);
    }
  }
}
