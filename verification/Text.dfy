/** Decimal rendering of unsigned integers and the key formats of the API. */
module Text {

  const DIGITS: string := "0123456789"

  function Decimal(n: nat): (s: string)
    ensures s != ""
  {
    if n < 10 then [DIGITS[n]] else Decimal(n / 10) + [DIGITS[n % 10]]
  }

  function DigitValue(c: char): nat {
    if '0' <= c <= '9' then c as nat - '0' as nat else 0
  }

  function Parse(s: string): nat {
    if s == "" then 0 else 10 * Parse(s[..|s| - 1]) + DigitValue(s[|s| - 1])
  }

  predicate AllDigits(s: string) {
    forall i :: 0 <= i < |s| ==> '0' <= s[i] <= '9'
  }

  lemma {:induction false} ParseDecimal(n: nat)
    ensures Parse(Decimal(n)) == n
    ensures AllDigits(Decimal(n))
  {
    if n >= 10 {
      ParseDecimal(n / 10);
      var s := Decimal(n);
      assert s[..|s| - 1] == Decimal(n / 10);
    } else {
      assert Decimal(n)[..0] == "";
    }
  }

  /** Two numbers with the same rendering are the same number. */
  lemma DecimalInjective(m: nat, n: nat)
    requires Decimal(m) == Decimal(n)
    ensures m == n
  {
    ParseDecimal(m);
    ParseDecimal(n);
  }

  const LENGTH_LIMIT: nat := 63

  predicate KeyChar(c: char) {
    || '0' <= c <= '9' || 'A' <= c <= 'Z' || 'a' <= c <= 'z'
    || c == '_' || c == '-' || c == '/' || c == '.' || c == ':'
  }

  /** The format of flag and variant keys. */
  predicate IsSafeKey(s: string) {
    0 < |s| <= LENGTH_LIMIT && forall i :: 0 <= i < |s| ==> KeyChar(s[i])
  }

  /** The format of tag values: like a key, with blanks. */
  predicate IsSafeValue(s: string) {
    0 < |s| <= LENGTH_LIMIT && forall i :: 0 <= i < |s| ==> KeyChar(s[i]) || s[i] == ' '
  }
}
