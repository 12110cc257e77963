/** Rust's `str::parse::<u8>()`: an optional leading `+`, then one or more
    ASCII decimal digits whose value fits in eight bits. Leading zeros are
    accepted; a `-` sign, an empty string, any other character and a value
    above 255 are errors. */
module RustNum {
  import opened Wrappers

  /** The values of Rust's `u8`. */
  type U8 = n: int | 0 <= n < 256

  predicate IsDigit(c: char) {
    '0' <= c <= '9'
  }

  predicate AllDigits(s: string) {
    forall i :: 0 <= i < |s| ==> IsDigit(s[i])
  }

  function DigitValue(c: char): (d: nat)
    requires IsDigit(c)
    ensures d < 10
  {
    c as int - '0' as int
  }

  /** The number a string of decimal digits denotes, most significant first. */
  function DecimalValue(s: string): nat
    requires AllDigits(s)
  {
    if |s| == 0 then 0 else 10 * DecimalValue(s[..|s| - 1]) + DigitValue(s[|s| - 1])
  }

  /** The digits `parse` reads: the string without one leading `+`. */
  function Unsigned(s: string): string {
    if |s| > 0 && s[0] == '+' then s[1..] else s
  }

  /** `s.parse::<u8>()`, with `None` for every `ParseIntError`. */
  function ParseU8(s: string): Option<U8> {
    var digits := Unsigned(s);
    if |digits| == 0 || !AllDigits(digits) then None
    else if DecimalValue(digits) < 256 then Some(DecimalValue(digits))
    else None
  }

  /** The canonical decimal spelling of `n`: no sign, no leading zeros. */
  function DecimalString(n: nat): (s: string)
    ensures |s| >= 1
  {
    if n < 10 then ['0' + n as char] else DecimalString(n / 10) + ['0' + (n % 10) as char]
  }

  lemma {:induction false} DecimalStringValue(n: nat)
    ensures AllDigits(DecimalString(n))
    ensures DecimalValue(DecimalString(n)) == n
  {
    var s := DecimalString(n);
    if n >= 10 {
      DecimalStringValue(n / 10);
      assert s[..|s| - 1] == DecimalString(n / 10);
    }
  }

  /** Parsing the canonical spelling of a byte gives the byte back. */
  lemma ParseU8RoundTrip(n: U8)
    ensures ParseU8(DecimalString(n)) == Some(n)
  {
    DecimalStringValue(n);
  }

  /** A leading `+` is accepted. */
  lemma ParseU8Plus(n: U8)
    ensures ParseU8("+" + DecimalString(n)) == Some(n)
  {
    DecimalStringValue(n);
    assert ("+" + DecimalString(n))[1..] == DecimalString(n);
  }

  /** A number above 255 is rejected rather than truncated or wrapped. */
  lemma ParseU8RejectsOverflow(n: nat)
    requires n >= 256
    ensures ParseU8(DecimalString(n)) == None
  {
    DecimalStringValue(n);
  }

  /** A string holding a character other than a digit, apart from one leading
      `+`, is rejected; in particular every negative number is. */
  lemma ParseU8RejectsNonDigit(s: string, i: nat)
    requires i < |s| && !IsDigit(s[i]) && !(i == 0 && s[0] == '+')
    ensures ParseU8(s) == None
  {
    if |s| > 0 && s[0] == '+' {
      assert Unsigned(s)[i - 1] == s[i];
    }
  }
}
