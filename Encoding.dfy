/** Text renderings of numbers and bytes: Python's `format(n, "x")`,
    f-string decimal interpolation, and `bytes.hex()`. */
module Encoding {
  import opened Wrappers

  type byte = x: int | 0 <= x < 256

  /** The lower-case digit for `d` in bases up to 16. */
  function DigitChar(d: nat): (c: char)
    requires d < 16
  {
    if d < 10 then ('0' as int + d) as char else ('a' as int + d - 10) as char
  }

  /** The value of a lower-case digit, or -1 for any other character. */
  function DigitValue(c: char): int
  {
    if '0' <= c <= '9' then c as int - '0' as int
    else if 'a' <= c <= 'f' then c as int - 'a' as int + 10
    else -1
  }

  predicate IsDigit(c: char, base: nat)
  {
    0 <= DigitValue(c) < base
  }

  predicate AllDigits(s: string, base: nat)
  {
    forall i :: 0 <= i < |s| ==> IsDigit(s[i], base)
  }

  lemma DivModFacts(n: nat, base: nat)
    requires 2 <= base
    ensures 0 <= n % base < base
    ensures n == (n / base) * base + n % base
    ensures n >= base ==> 0 < n / base < n
  {
  }

  /** The positional numeral of `n` in `base`, most significant digit first,
      without prefix or leading zeros. */
  function Numeral(n: nat, base: nat): string
    requires 2 <= base <= 16
    decreases n
  {
    DivModFacts(n, base);
    if n < base then [DigitChar(n)]
    else Numeral(n / base, base) + [DigitChar(n % base)]
  }

  /** A numeral is a non-empty string of digits, "0" only for zero, and
      otherwise without a leading zero. */
  lemma {:induction false} NumeralDigits(n: nat, base: nat)
    requires 2 <= base <= 16
    ensures var s := Numeral(n, base);
      |s| >= 1 && AllDigits(s, base) && (n == 0 <==> s == "0") && (n > 0 ==> s[0] != '0')
    decreases n
  {
    DivModFacts(n, base);
    if n >= base {
      NumeralDigits(n / base, base);
    }
  }

  /** The number a string of digits denotes. */
  function NumeralValue(s: string, base: nat): nat
    requires 2 <= base <= 16 && AllDigits(s, base)
  {
    if s == [] then 0
    else NumeralValue(s[..|s| - 1], base) * base + DigitValue(s[|s| - 1])
  }

  lemma {:induction false} NumeralRoundTrip(n: nat, base: nat)
    requires 2 <= base <= 16
    ensures AllDigits(Numeral(n, base), base) && NumeralValue(Numeral(n, base), base) == n
    decreases n
  {
    var s := Numeral(n, base);
    DivModFacts(n, base);
    NumeralDigits(n, base);
    if n < base {
      assert s[..|s| - 1] == [];
    } else {
      NumeralRoundTrip(n / base, base);
      assert s[..|s| - 1] == Numeral(n / base, base);
    }
  }

  lemma NumeralInjective(m: nat, n: nat, base: nat)
    requires 2 <= base <= 16
    requires Numeral(m, base) == Numeral(n, base)
    ensures m == n
  {
    NumeralRoundTrip(m, base);
    NumeralRoundTrip(n, base);
  }

  /** Python's `format(n, "x")`: lower-case hexadecimal without a `0x`
      prefix, with a leading `-` for a negative number. */
  function FormatHex(n: int): string
  {
    if n < 0 then "-" + Numeral(-n, 16) else Numeral(n, 16)
  }

  /** Reads back what `FormatHex` writes; `None` for anything else. */
  function ParseHex(s: string): Option<int>
  {
    if |s| > 1 && s[0] == '-' && AllDigits(s[1..], 16) then Some(0 - NumeralValue(s[1..], 16))
    else if |s| > 0 && AllDigits(s, 16) then Some(NumeralValue(s, 16))
    else None
  }

  /** `ParseHex` reads a bare numeral back. */
  lemma ParseHexOfNumeral(n: nat)
    ensures ParseHex(Numeral(n, 16)) == Some(n)
  {
    var s := Numeral(n, 16);
    NumeralDigits(n, 16);
    assert IsDigit(s[0], 16);
    NumeralRoundTrip(n, 16);
  }

  /** `ParseHex` reads a signed numeral back. */
  lemma ParseHexOfNegative(n: int)
    requires n < 0
    ensures ParseHex("-" + Numeral(-n, 16)) == Some(n)
  {
    var d := Numeral(-n, 16);
    var s := "-" + d;
    NumeralDigits(-n, 16);
    NumeralRoundTrip(-n, 16);
    assert s[1..] == d;
    assert |s| > 1 && s[0] == '-' && AllDigits(s[1..], 16);
  }

  /** A serial number is rendered as bare lower-case hex digits (a `-` only for
      a negative number), canonically, and the rendering loses nothing. */
  lemma FormatHexIsCanonical(n: int)
    ensures var s := FormatHex(n);
      ParseHex(s) == Some(n) &&
      (n >= 0 ==> |s| >= 1 && AllDigits(s, 16) && (n > 0 ==> s[0] != '0')) &&
      (n < 0 ==> |s| >= 2 && s[0] == '-' && AllDigits(s[1..], 16) && s[1] != '0')
  {
    NumeralDigits(if n < 0 then -n else n, 16);
    if n < 0 {
      ParseHexOfNegative(n);
      assert FormatHex(n)[1..] == Numeral(-n, 16);
    } else {
      ParseHexOfNumeral(n);
    }
  }

  /** Python's f-string rendering of a non-negative integer. */
  function Decimal(n: nat): string
  {
    Numeral(n, 10)
  }

  /** Python's `bytes.hex()`: two lower-case hex digits per byte, high nibble first. */
  function BytesToHex(bs: seq<byte>): (h: string)
    ensures |h| == 2 * |bs|
    ensures AllDigits(h, 16)
  {
    if bs == [] then ""
    else [DigitChar(bs[0] / 16), DigitChar(bs[0] % 16)] + BytesToHex(bs[1..])
  }

  /** The inverse of `BytesToHex`: `None` on odd length or a non-hex character. */
  function HexToBytes(h: string): Option<seq<byte>>
    decreases |h|
  {
    if h == [] then Some([])
    else if |h| == 1 || !IsDigit(h[0], 16) || !IsDigit(h[1], 16) then None
    else match HexToBytes(h[2..])
      case None => None
      case Some(rest) => Some([DigitValue(h[0]) * 16 + DigitValue(h[1])] + rest)
  }

  lemma {:induction false} HexRoundTrip(bs: seq<byte>)
    ensures HexToBytes(BytesToHex(bs)) == Some(bs)
  {
    if bs != [] {
      var h := BytesToHex(bs);
      assert h[2..] == BytesToHex(bs[1..]);
      HexRoundTrip(bs[1..]);
      assert [bs[0]] + bs[1..] == bs;
    }
  }
}
