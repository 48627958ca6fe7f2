/** `itoa` and `streamPartID` of translate_stream.go. */
module PartIds {
  import Decimal

  const MIN_INT64: int := -0x8000_0000_0000_0000
  const MAX_INT64: int := 0x7FFF_FFFF_FFFF_FFFF

  type Int64 = n: int | MIN_INT64 <= n <= MAX_INT64

  /** Go's negation: the minimum wraps to itself. */
  function Negate(n: Int64): Int64 {
    if n == MIN_INT64 then n else -n
  }

  /** The decimal text of every 64-bit integer but the minimum, whose digits are lost to the wrapped negation. */
  function ItoaText(n: Int64): string {
    if n == MIN_INT64 then "-" else Decimal.IntText(n)
  }

  function PartId(messageId: string, index: Int64): string {
    "part_" + messageId + ("_" + ItoaText(index))
  }

  lemma NineteenDigits(n: nat)
    requires n <= MAX_INT64
    ensures 1 <= |Decimal.Text(n)| <= 19
  {
    assert Decimal.Pow10(5) == 100_000;
    assert Decimal.Pow10(10) == 10_000_000_000;
    assert Decimal.Pow10(15) == 1_000_000_000_000_000;
    assert Decimal.Pow10(19) == 10_000_000_000_000_000_000;
    Decimal.TextWidth(n, 19);
  }

  /** What is still to be printed when `n` is left: nothing once it is zero. */
  ghost function Pending(n: nat): string {
    if n == 0 then "" else Decimal.Text(n)
  }

  lemma PendingStep(m: nat, tail: string)
    requires m > 0
    ensures Pending(m) + tail == Pending(m / 10) + ([Decimal.Digit(m % 10)] + tail)
  {
    assert Pending(m) == Pending(m / 10) + [Decimal.Digit(m % 10)];
  }

  /** Digits fill a 20-byte buffer from its end; no 64-bit value overruns it. */
  method Itoa(n: Int64) returns (s: string)
    ensures s == ItoaText(n)
  {
    if n == 0 {
      return "0";
    }
    var neg := n < 0;
    var m: Int64 := if neg then Negate(n) else n;
    var buf := new char[20];
    var i := buf.Length;
    ghost var digits := if m > 0 then Decimal.Text(m) else "";
    if m > 0 {
      NineteenDigits(m);
    }
    while m > 0
      invariant 0 <= i <= 20 && (m <= 0 || n != MIN_INT64)
      invariant n == MIN_INT64 ==> m == MIN_INT64 && i == 20
      invariant n != MIN_INT64 ==> m >= 0 && digits == Pending(m) + buf[i..] && |digits| <= 19
    {
      PendingStep(m, buf[i..]);
      ghost var tail := buf[i..];
      i := i - 1;
      buf[i] := Decimal.Digit(m % 10);
      assert buf[i..] == [Decimal.Digit(m % 10)] + tail;
      m := m / 10;
    }
    ghost var shown := buf[i..];
    if neg {
      i := i - 1;
      buf[i] := '-';
      assert buf[i..] == "-" + shown;
    }
    return buf[i..];
  }

  lemma LastUnderscore(a: string, x: string, b: string, y: string)
    requires a + ("_" + x) == b + ("_" + y) && '_' !in x && '_' !in y
    ensures a == b && x == y
  {
    if |a| > |b| {
      UnderscoreInside(a, x, b, y);
    } else if |b| > |a| {
      UnderscoreInside(b, y, a, x);
    }
    var s := a + ("_" + x);
    assert a == s[..|a|] && b == s[..|b|];
    assert x == s[|a| + 1..] && y == s[|b| + 1..];
  }

  lemma UnderscoreInside(a: string, x: string, b: string, y: string)
    requires a + ("_" + x) == b + ("_" + y) && |a| > |b|
    ensures '_' in y
  {
    assert (a + ("_" + x))[|a|] == '_' == (b + ("_" + y))[|a|] == y[|a| - |b| - 1];
  }

  /** The printer distinguishes all 64-bit integers, and never prints an underscore. */
  lemma ItoaTextInjective(m: Int64, n: Int64)
    ensures '_' !in ItoaText(m)
    ensures ItoaText(m) == ItoaText(n) ==> m == n
  {
    var x: int, y: int := m, n;
    Decimal.ValueOfText(if x < 0 then -x else x);
    Decimal.ValueOfText(if y < 0 then -y else y);
    assert m < 0 && m != MIN_INT64 ==> ItoaText(m)[1..] == Decimal.Text(-x);
    assert n < 0 && n != MIN_INT64 ==> ItoaText(n)[1..] == Decimal.Text(-y);
    assert m >= 0 ==> Decimal.IsDigit(ItoaText(m)[0]);
    assert n >= 0 ==> Decimal.IsDigit(ItoaText(n)[0]);
  }

  /** The text of a part id. */
  lemma PartIdText(m: string, i: Int64)
    ensures PartId(m, i) ==
            if i == -0x8000_0000_0000_0000 then "part_" + (m + "_-") else "part_" + (m + ("_" + Decimal.IntText(i)))
  {
    assert "part_" + m + ("_" + ItoaText(i)) == "part_" + (m + ("_" + ItoaText(i)));
  }

  /** Part ids never collide, also when message ids contain underscores. */
  lemma PartIdInjective(m: string, i: Int64, n: string, j: Int64)
    ensures PartId(m, i) == PartId(n, j) <==> m == n && i == j
  {
    if PartId(m, i) == PartId(n, j) {
      ItoaTextInjective(i, j);
      ItoaTextInjective(j, i);
      LastUnderscore("part_" + m, ItoaText(i), "part_" + n, ItoaText(j));
      assert m == ("part_" + m)[5..] && n == ("part_" + n)[5..];
    }
  }
}
