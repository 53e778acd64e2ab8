/**
 * The integer formats the report uses: `{}` (decimal), `{:x}` (lowercase
 * hexadecimal without leading zeros) and `{:02x}` (two lowercase hexadecimal
 * digits), each with its inverse.
 */
module Numerals {

  /** The digit character for `d`: '0'..'9' then 'a'..'f'. */
  function DigitChar(d: nat): (c: char)
    requires d < 16
    ensures ('0' <= c <= '9') || ('a' <= c <= 'f')
  {
    if d < 10 then ('0' as int + d) as char else ('a' as int + d - 10) as char
  }

  predicate IsDigit(c: char, base: nat) {
    if '0' <= c <= '9' then c as int - '0' as int < base
    else 'a' <= c <= 'f' && c as int - 'a' as int + 10 < base
  }

  /** The value of one digit character; characters that are not digits read as 0. */
  function DigitValue(c: char): (d: nat)
    ensures d < 16
  {
    if '0' <= c <= '9' then c as int - '0' as int
    else if 'a' <= c <= 'f' then c as int - 'a' as int + 10
    else 0
  }

  lemma DigitCharValue(d: nat, base: nat)
    requires d < base <= 16
    ensures DigitValue(DigitChar(d)) == d
    ensures IsDigit(DigitChar(d), base)
    ensures DigitChar(d) == '0' <==> d == 0
  {
  }

  /** `n` written in `base` with no leading zeros, as Rust's `{}` and `{:x}` write it. */
  function Numeral(n: nat, base: nat): (s: string)
    requires base == 10 || base == 16
    ensures |s| >= 1
    ensures forall i :: 0 <= i < |s| ==> IsDigit(s[i], base)
    ensures s[0] == '0' <==> n == 0
    decreases n
  {
    DigitCharValue(n % base, base);
    if n < base then [DigitChar(n)] else Numeral(Shift(n, base), base) + [DigitChar(n % base)]
  }

  /** The value of a string of digits in `base`, most significant first. */
  function NumeralValue(s: string, base: nat): (n: nat)
    requires base == 10 || base == 16
  {
    if s == [] then 0 else Unshift(NumeralValue(s[..|s| - 1], base), base) + DigitValue(s[|s| - 1])
  }

  /** `n` without its last digit in `base`. */
  function Shift(n: nat, base: nat): (q: nat)
    requires base == 10 || base == 16
    ensures n >= base ==> 0 < q < n
  {
    if base == 10 then n / 10 else n / 16
  }

  /** `v` with a zero digit appended in `base`. */
  function Unshift(v: nat, base: nat): nat
    requires base == 10 || base == 16
  {
    if base == 10 then v * 10 else v * 16
  }

  lemma {:induction false} NumeralRoundTrip(n: nat, base: nat)
    requires base == 10 || base == 16
    ensures NumeralValue(Numeral(n, base), base) == n
  {
    var s := Numeral(n, base);
    if n < base {
      DigitCharValue(n, base);
      assert s[..|s| - 1] == [];
    } else {
      var q, d := Shift(n, base), n % base;
      NumeralRoundTrip(q, base);
      DigitCharValue(d, base);
      assert s[..|s| - 1] == Numeral(q, base) && s[|s| - 1] == DigitChar(d);
      assert Unshift(q, base) + d == n;
    }
  }

  /** Different numbers are written differently. */
  lemma NumeralInjective(m: nat, n: nat, base: nat)
    requires base == 10 || base == 16
    ensures Numeral(m, base) == Numeral(n, base) ==> m == n
  {
    NumeralRoundTrip(m, base);
    NumeralRoundTrip(n, base);
  }

  /** Rust's `{}` on an unsigned integer. */
  function Decimal(n: nat): (s: string)
    ensures NumeralValue(s, 10) == n
    ensures forall i :: 0 <= i < |s| ==> '0' <= s[i] <= '9'
    ensures |s| >= 1 && (s[0] == '0' <==> n == 0)
  {
    NumeralRoundTrip(n, 10);
    Numeral(n, 10)
  }

  /** Rust's `{:x}` on an unsigned integer. */
  function Hex(n: nat): (s: string)
    ensures NumeralValue(s, 16) == n
    ensures |s| >= 1 && (s[0] == '0' <==> n == 0)
    ensures forall i :: 0 <= i < |s| ==> IsDigit(s[i], 16)
  {
    NumeralRoundTrip(n, 16);
    Numeral(n, 16)
  }

  /** Rust's `{:02x}` on a byte: exactly two digits. */
  function Hex2(b: nat): (s: string)
    requires b < 256
    ensures |s| == 2 && IsDigit(s[0], 16) && IsDigit(s[1], 16)
    ensures NumeralValue(s, 16) == b
  {
    DigitCharValue(b / 16, 16);
    DigitCharValue(b % 16, 16);
    var s := [DigitChar(b / 16), DigitChar(b % 16)];
    assert s[..1] == [s[0]] && [s[0]][..0] == [];
    assert NumeralValue([s[0]], 16) == b / 16;
    s
  }

  /** `{:02x}` is `{:x}` padded on the left with '0' to width two. */
  lemma Hex2IsPaddedHex(b: nat)
    requires b < 256
    ensures b < 16 ==> Hex2(b) == "0" + Hex(b)
    ensures b >= 16 ==> Hex2(b) == Hex(b)
  {
    if b >= 16 {
      assert Numeral(b / 16, 16) == [DigitChar(b / 16)];
    }
  }
}
