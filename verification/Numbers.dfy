/** Decimal numbers in files: `to_string` and `parse`. */
module Numbers {
  import opened Text

  const U32_MAX: nat := 0xFFFF_FFFF

  function Digit(d: nat): (c: char)
    requires d < 10
    ensures '0' <= c <= '9'
  {
    ('0' as int + d) as char
  }

  function DigitValue(c: char): (d: nat)
    requires '0' <= c <= '9'
    ensures d < 10
  {
    c as int - '0' as int
  }

  predicate AllDigits(s: string) {
    forall i :: 0 <= i < |s| ==> '0' <= s[i] <= '9'
  }

  /** `u64::to_string` and friends. */
  function Print(n: nat): (s: string)
    ensures s != "" && AllDigits(s)
  {
    if n < 10 then [Digit(n)] else Print(n / 10) + [Digit(n % 10)]
  }

  function Value(s: string): nat
    requires AllDigits(s)
  {
    if s == "" then 0 else 10 * Value(s[..|s| - 1]) + DigitValue(s[|s| - 1])
  }

  /** `str::parse` for an unsigned type with maximum `max`: an optional `+`,
      then at least one digit, then no overflow. */
  function Parse(s: string, max: nat): Option<nat> {
    var digits := if s != "" && s[0] == '+' then s[1..] else s;
    if digits == "" || !AllDigits(digits) then None
    else if Value(digits) > max then None
    else Some(Value(digits))
  }

  lemma {:induction false} ValuePrint(n: nat)
    ensures Value(Print(n)) == n
  {
    if n >= 10 {
      var s := Print(n);
      assert s[..|s| - 1] == Print(n / 10);
      ValuePrint(n / 10);
    } else {
      var s := Print(n);
      assert s[..0] == "";
    }
  }

  /** Round trip: a printed number in range parses back to itself. */
  lemma ParsePrint(n: nat, max: nat)
    ensures Parse(Print(n), max) == if n <= max then Some(n) else None
  {
    ValuePrint(n);
    assert Print(n)[0] != '+';
  }

  lemma PrintInjective(m: nat, n: nat)
    requires Print(m) == Print(n)
    ensures m == n
  {
    ValuePrint(m);
    ValuePrint(n);
  }

  /** A number is never preceded or followed by blanks. */
  lemma PrintTrim(n: nat)
    ensures Trim(Print(n)) == Print(n)
  {
    var s := Print(n);
    assert !IsWhitespace(s[0]) && !IsWhitespace(s[|s| - 1]);
    TrimFixed(s);
  }
}
