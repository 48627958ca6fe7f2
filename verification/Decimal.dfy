/** Decimal text of natural numbers, as Rust's `Display` for unsigned integers writes it, and its inverse. */
module Decimal {
  import opened Outcomes

  predicate IsDigit(c: char) {
    '0' <= c <= '9'
  }

  predicate AllDigits(s: string) {
    forall i | 0 <= i < |s| :: IsDigit(s[i])
  }

  function Digit(d: nat): (c: char)
    requires d < 10
    ensures IsDigit(c)
  {
    ('0' as int + d) as char
  }

  function Text(n: nat): string {
    if n < 10 then [Digit(n)] else Text(n / 10) + [Digit(n % 10)]
  }

  function Value(s: string): nat
    requires AllDigits(s)
  {
    if s == [] then 0 else Value(s[..|s| - 1]) * 10 + (s[|s| - 1] as int - '0' as int)
  }

  /** `str::parse` of an unsigned type: an optional plus sign, then at least one digit, below `limit`. */
  function ParseUnsigned(s: string, limit: nat): Option<nat> {
    var digits := if s != "" && s[0] == '+' then s[1..] else s;
    if digits == "" || !AllDigits(digits) || Value(digits) >= limit then None else Some(Value(digits))
  }

  /** Signed decimal text, as Go's `%d` writes it. */
  function IntText(n: int): string {
    if n < 0 then "-" + Text(-n) else Text(n)
  }

  function Pow10(k: nat): nat {
    if k == 0 then 1 else 10 * Pow10(k - 1)
  }

  /** Reading the printed digits gives the number back. */
  lemma {:induction false} ValueOfText(n: nat)
    ensures Text(n) != [] && AllDigits(Text(n)) && Value(Text(n)) == n
  {
    if n >= 10 {
      ValueOfText(n / 10);
      assert Text(n)[..|Text(n)| - 1] == Text(n / 10);
    } else {
      assert Value(Text(n)[..0]) == 0;
    }
  }

  lemma IntTextHasNoNewline(n: int)
    ensures '\n' !in IntText(n)
  {
    ValueOfText(if n < 0 then -n else n);
  }

  lemma TextInjective(m: nat, n: nat)
    requires Text(m) == Text(n)
    ensures m == n
  {
    ValueOfText(m);
    ValueOfText(n);
  }

  /** A number below 10^k prints in at most k digits. */
  lemma {:induction false} TextWidth(n: nat, k: nat)
    requires n < Pow10(k) && 0 < k
    ensures 1 <= |Text(n)| <= k
  {
    if n >= 10 {
      TextWidth(n / 10, k - 1);
    }
  }

  // ---------- the texts of a number ----------

  /** Decimal notation: the last digit follows the text of the rest, and there is no leading zero. */
  lemma TextStep(n: nat, d: nat)
    requires d < 10
    ensures Text(10 * n + d) == (if n == 0 then "" else Text(n)) + ["0123456789"[d]]
  {
    assert "0123456789"[d] == Digit(d) by {
      assert d == 0 || d == 1 || d == 2 || d == 3 || d == 4 || d == 5 || d == 6 || d == 7 || d == 8 || d == 9;
    }
    assert (10 * n + d) / 10 == n && (10 * n + d) % 10 == d;
  }

  ghost predicate Zeros(s: string) {
    forall i | 0 <= i < |s| :: s[i] == '0'
  }

  lemma {:induction false} ValueAfterZeros(z: string, s: string)
    requires Zeros(z) && AllDigits(s)
    ensures AllDigits(z + s) && Value(z + s) == Value(s)
    decreases |z| + |s|
  {
    if s != "" {
      assert (z + s)[..|z + s| - 1] == z + s[..|s| - 1];
      ValueAfterZeros(z, s[..|s| - 1]);
    } else if z != "" {
      assert z + s == z && (z + s)[..|z| - 1] == z[..|z| - 1] + "";
      ValueAfterZeros(z[..|z| - 1], "");
    }
  }

  /** A text of digits is the decimal text of its value behind leading zeros. */
  lemma {:induction false} DigitsAreText(s: string) returns (z: string)
    requires s != "" && AllDigits(s)
    ensures Zeros(z) && s == z + Text(Value(s))
  {
    var init, c := s[..|s| - 1], s[|s| - 1];
    var d := c as int - '0' as int;
    assert s == init + [c] && Digit(d) == c;
    if init == "" {
      z := "";
    } else {
      var y := DigitsAreText(init);
      if Value(init) == 0 {
        z := init;
        assert Zeros(Text(0));
      } else {
        z := y;
        assert Text(Value(s)) == Text(Value(init)) + [c];
      }
    }
  }

  predicate Sign(s: string) {
    s == "" || s == "+"
  }

  /** Every accepted spelling of a number below the limit: a plus sign or none, leading zeros, and its digits. */
  lemma SpellingIsParsed(sign: string, z: string, n: nat, limit: nat)
    requires Sign(sign) && Zeros(z)
    ensures ParseUnsigned(sign + (z + Text(n)), limit) == if n < limit then Some(n) else None
  {
    ValueOfText(n);
    ValueAfterZeros(z, Text(n));
    var s, digits := sign + (z + Text(n)), z + Text(n);
    assert digits != "" && IsDigit(digits[0]);
    assert sign == "" ==> s == digits;
    assert sign == "+" ==> s[1..] == digits;
  }

  /** No other text is accepted. */
  lemma ParsedIsSpelling(s: string, limit: nat) returns (sign: string, z: string)
    requires ParseUnsigned(s, limit).Some?
    ensures Sign(sign) && Zeros(z) && ParseUnsigned(s, limit).value < limit
    ensures s == sign + (z + Text(ParseUnsigned(s, limit).value))
  {
    if s[0] == '+' {
      sign := "+";
      z := DigitsAreText(s[1..]);
      assert s == "+" + s[1..];
    } else {
      sign := "";
      z := DigitsAreText(s);
      assert s == "" + s;
    }
  }
}
