/** Manifests as the texts that stand in the keyring, and the generations that `save` draws. */
module SecretManifestText {
  import opened Outcomes
  import opened SecretSplit
  import opened SecretManifest
  import opened Texts
  import Decimal

  // ---------- drawn generations ----------

  const TWO_TO_128: nat := 0x1_0000_0000_0000_0000_0000_0000_0000_0000

  function HexDigits(n: nat, width: nat): string {
    if width == 0 then "" else HexDigits(n / 16, width - 1) + ["0123456789abcdef"[n % 16]]
  }

  /** The generation drawn as the 128-bit number `n`, printed with `{:032x}`. */
  function HexText(n: nat): string
    requires n < TWO_TO_128
  {
    HexDigits(n, 32)
  }

  function Pow16(k: nat): nat {
    if k == 0 then 1 else 16 * Pow16(k - 1)
  }

  lemma Pow16Is()
    ensures Pow16(32) == TWO_TO_128
  {
    assert Pow16(8) == 0x1_0000_0000;
    assert Pow16(16) == 0x1_0000_0000_0000_0000;
    assert Pow16(24) == 0x1_0000_0000_0000_0000_0000_0000;
  }

  lemma {:induction false} HexDigitsAreHex(n: nat, width: nat)
    ensures |HexDigits(n, width)| == width
    ensures forall i | 0 <= i < width :: HexDigits(n, width)[i] in "0123456789abcdef"
  {
    if width > 0 {
      HexDigitsAreHex(n / 16, width - 1);
    }
  }

  lemma {:induction false} HexDigitsInjective(m: nat, n: nat, width: nat)
    requires m < Pow16(width) && n < Pow16(width) && HexDigits(m, width) == HexDigits(n, width)
    ensures m == n
  {
    if width > 0 {
      var s, t := HexDigits(m, width), HexDigits(n, width);
      HexDigitsAreHex(m / 16, width - 1);
      HexDigitsAreHex(n / 16, width - 1);
      assert s[..width - 1] == HexDigits(m / 16, width - 1) && t[..width - 1] == HexDigits(n / 16, width - 1);
      HexDigitsInjective(m / 16, n / 16, width - 1);
      assert "0123456789abcdef"[m % 16] == s[width - 1] == t[width - 1] == "0123456789abcdef"[n % 16];
      HexDigitsDiffer(m % 16, n % 16);
    }
  }

  lemma HexDigitsDiffer(a: nat, b: nat)
    requires a < 16 && b < 16 && "0123456789abcdef"[a] == "0123456789abcdef"[b]
    ensures a == b
  {
    HexDigitIs(a);
    HexDigitIs(b);
  }

  lemma HexDigitIs(d: nat)
    requires d < 16
    ensures "0123456789abcdef"[d] as int == if d < 10 then '0' as int + d else 'a' as int + d - 10
  {
    assert d == 0 || d == 1 || d == 2 || d == 3 || d == 4 || d == 5 || d == 6 || d == 7 ||
           d == 8 || d == 9 || d == 10 || d == 11 || d == 12 || d == 13 || d == 14 || d == 15;
  }

  /** Different draws are different generations. */
  lemma HexTextInjective(m: nat, n: nat)
    requires m < TWO_TO_128 && n < TWO_TO_128
    ensures HexText(m) == HexText(n) <==> m == n
  {
    Pow16Is();
    if HexText(m) == HexText(n) {
      HexDigitsInjective(m, n, 32);
    }
  }

  /** The characters `is_ascii_hexdigit` accepts. */
  predicate HexChar(c: char) {
    c in "0123456789abcdefABCDEF"
  }

  lemma IsHexExactly(c: char)
    ensures IsHex(c) <==> HexChar(c)
  {
    var all := "0123456789abcdefABCDEF";
    if '0' <= c <= '9' {
      HexPosition(all, c, c as int - '0' as int);
    } else if 'a' <= c <= 'f' {
      HexPosition(all, c, 10 + c as int - 'a' as int);
    } else if 'A' <= c <= 'F' {
      HexPosition(all, c, 16 + c as int - 'A' as int);
    }
  }

  lemma HexPosition(all: string, c: char, i: nat)
    requires i < |all| && all[i] == c
    ensures c in all
  {
  }

  lemma IsGenerationExactly(g: string)
    ensures IsGeneration(g) <==> |g| == 32 && forall i | 0 <= i < |g| :: HexChar(g[i])
  {
    forall i | 0 <= i < |g| ensures IsHex(g[i]) <==> HexChar(g[i]) {
      IsHexExactly(g[i]);
    }
  }

  /** Every draw is a generation, and none holds a colon or a hash. */
  lemma DrawsAreGenerations(n: nat)
    requires n < TWO_TO_128
    ensures IsGeneration(HexText(n))
  {
    HexDigitsAreHex(n, 32);
    forall i | 0 <= i < 32 ensures HexChar(HexText(n)[i]) {
      assert HexText(n)[i] in "0123456789abcdef";
      LowerIsHex(HexText(n)[i]);
    }
    IsGenerationExactly(HexText(n));
  }

  lemma LowerIsHex(c: char)
    requires c in "0123456789abcdef"
    ensures HexChar(c)
  {
    var i :| 0 <= i < 16 && "0123456789abcdef"[i] == c;
    assert "0123456789abcdefABCDEF"[..16] == "0123456789abcdef";
    assert "0123456789abcdefABCDEF"[i] == c;
  }

  // ---------- what a slot value means ----------

  function CountIn(count: string): Option<nat> {
    Decimal.ParseUnsigned(count, 0x1_0000_0000_0000_0000)
  }

  predicate CountFits(count: string) {
    CountIn(count).Some? && 1 <= CountIn(count).value <= 64
  }

  lemma ParseCountIs(generation: Option<string>, count: string)
    ensures ParseCount(generation, count) ==
            if CountFits(count) then Ok(Some(Manifest(generation, CountIn(count).value))) else Err(Damaged)
  {
  }

  /** A v2 value: 32 hexadecimal digits and a count from 1 to 64, or damaged. */
  lemma ParseV2Exactly(g: string, count: string)
    requires ':' !in g
    ensures Parse("gact-chunked:v2:" + (g + (":" + count))) ==
            if |g| == 32 && (forall i | 0 <= i < 32 :: HexChar(g[i])) && CountFits(count)
            then Ok(Some(Manifest(Some(g), CountIn(count).value)))
            else Err(Damaged)
  {
    var rest := g + (":" + count);
    var value := "gact-chunked:v2:" + rest;
    StripPrefixIs(value, "gact-chunked:v2:");
    assert value[16..] == rest;
    IndexOfIs(rest, ':', |g|);
    assert rest[..|g|] == g && rest[|g| + 1..] == count;
    IsGenerationExactly(g);
    ParseCountIs(Some(g), count);
  }

  /** A v2 value without a second part is damaged. */
  lemma ParseV2WithoutColon(g: string)
    requires ':' !in g
    ensures Parse("gact-chunked:v2:" + g) == Err(Damaged)
  {
    StripPrefixIs("gact-chunked:v2:" + g, "gact-chunked:v2:");
    assert ("gact-chunked:v2:" + g)[16..] == g;
    NoIndex(g, ':');
  }

  lemma {:induction false} NoIndex(s: string, c: char)
    requires c !in s
    ensures IndexOf(s, c) == |s|
  {
    if s != "" {
      NoIndex(s[1..], c);
    }
  }

  /** A v1 value: a count from 1 to 64, or damaged. */
  lemma ParseV1Exactly(count: string)
    ensures Parse("gact-chunked:v1:" + count) ==
            if CountFits(count) then Ok(Some(Manifest(None, CountIn(count).value))) else Err(Damaged)
  {
    var value := "gact-chunked:v1:" + count;
    StripPrefixIs(value, "gact-chunked:v2:");
    StripPrefixIs(value, "gact-chunked:v1:");
    assert value[14] == '1' && "gact-chunked:v2:"[14] == '2';
    assert value[16..] == count;
    ParseCountIs(None, count);
  }

  /** Any other value that begins like a manifest is damaged, and a value that does not is a plain secret. */
  lemma ParseOtherwise(value: string)
    requires !("gact-chunked:v1:" <= value) && !("gact-chunked:v2:" <= value)
    ensures Parse(value) == if "gact-chunked:" <= value then Err(Damaged) else Ok(None)
  {
    StripPrefixIs(value, "gact-chunked:v2:");
    StripPrefixIs(value, "gact-chunked:v1:");
    StripPrefixIs(value, "gact-chunked:");
  }

  /** The manifest text of `count` chunks of draw `n`. */
  function ManifestText(n: nat, count: nat): string
    requires n < TWO_TO_128
  {
    "gact-chunked:v2:" + (HexText(n) + (":" + Decimal.Text(count)))
  }

  /** What `save` prints for draw `n` is that text, and it is parsed to its generation and count. */
  lemma DrawnManifestParses(n: nat, count: nat)
    requires n < TWO_TO_128 && 1 <= count <= 64
    ensures Print(HexText(n), count) == ManifestText(n, count)
    ensures Parse(ManifestText(n, count)) == Ok(Some(Manifest(Some(HexText(n)), count)))
  {
    DrawsAreGenerations(n);
    PrintParse(HexText(n), count);
    assert Print(HexText(n), count) == ManifestText(n, count);
  }
}
