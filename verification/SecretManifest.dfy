/** `Manifest` and `parse_manifest` of credential_chunks.rs: the value a chunked secret publishes and its slot names. */
module SecretManifest {
  import opened Outcomes
  import opened SecretSplit
  import opened Texts
  import Decimal

  const PREFIX := "gact-chunked:"
  const PREFIX_V1 := "gact-chunked:v1:"
  const PREFIX_V2 := "gact-chunked:v2:"
  const USIZE_LIMIT: nat := 0x1_0000_0000_0000_0000

  datatype Manifest = Manifest(generation: Option<string>, count: nat)

  predicate IsHex(c: char) {
    '0' <= c <= '9' || 'a' <= c <= 'f' || 'A' <= c <= 'F'
  }

  /** 32 hexadecimal digits. The byte length the source tests equals the character count for such a text. */
  predicate IsGeneration(g: string) {
    |g| == 32 && forall i | 0 <= i < |g| :: IsHex(g[i])
  }

  predicate Valid(m: Manifest) {
    1 <= m.count <= MAX_CHUNKS && (m.generation.Some? ==> IsGeneration(m.generation.value))
  }

  function ParseCount(generation: Option<string>, count: string): Result<Option<Manifest>, Error> {
    match Decimal.ParseUnsigned(count, USIZE_LIMIT)
    case Some(n) => if 1 <= n <= MAX_CHUNKS then Ok(Some(Manifest(generation, n))) else Err(Damaged)
    case None => Err(Damaged)
  }

  /** `Ok(None)` is a plain secret; anything that starts like a manifest must be a whole one. */
  function Parse(value: string): (r: Result<Option<Manifest>, Error>)
    ensures r.Ok? && r.value.Some? ==> Valid(r.value.value)
  {
    match (StripPrefix(value, PREFIX_V2), StripPrefix(value, PREFIX_V1))
    case (Some(rest), _) =>
      var colon := IndexOf(rest, ':');
      if colon == |rest| || !IsGeneration(rest[..colon]) then Err(Damaged)
      else ParseCount(Some(rest[..colon]), rest[colon + 1..])
    case (None, Some(count)) => ParseCount(None, count)
    case _ => if StripPrefix(value, PREFIX).Some? then Err(Damaged) else Ok(None)
  }

  /** The manifest in a slot value; a damaged value counts as none. */
  function ManifestIn(value: Option<string>): (m: Option<Manifest>)
    ensures m.Some? ==> Valid(m.value)
  {
    if value.Some? && Parse(value.value).Ok? then Parse(value.value).value else None
  }

  /** Exactly the values without the manifest prefix are plain. */
  lemma PlainExactly(value: string)
    ensures Parse(value) == Ok(None) <==> !(PREFIX <= value)
  {
    StripPrefixIs(value, PREFIX_V2);
    StripPrefixIs(value, PREFIX_V1);
    StripPrefixIs(value, PREFIX);
    assert PREFIX_V1[..13] == PREFIX && PREFIX_V2[..13] == PREFIX;
  }

  /** `Manifest::value`. */
  function Print(generation: string, count: nat): string {
    PREFIX_V2 + generation + ":" + Decimal.Text(count)
  }

  /** `Manifest::account`: the slot that holds chunk `index`. */
  function ChunkName(account: string, m: Manifest, index: nat): string {
    account + "#" + ChunkLabel(m, index)
  }

  function ChunkLabel(m: Manifest, index: nat): string {
    match m.generation
    case Some(generation) => generation + ("#" + Decimal.Text(index))
    case None => Decimal.Text(index)
  }

  function ChunkNames(account: string, m: Manifest): set<string> {
    set i | 0 <= i < m.count :: ChunkName(account, m, i)
  }

  /** The names an account may occupy: its base slot and everything after `account#`. */
  predicate Belongs(account: string, name: string) {
    name == account || account + "#" <= name
  }

  lemma CountParses(generation: Option<string>, count: nat)
    requires 1 <= count <= MAX_CHUNKS
    ensures ParseCount(generation, Decimal.Text(count)) == Ok(Some(Manifest(generation, count)))
  {
    Decimal.ValueOfText(count);
    assert Decimal.IsDigit(Decimal.Text(count)[0]);
  }

  lemma ColonAfterGeneration(generation: string, digits: string)
    requires IsGeneration(generation)
    ensures var rest := generation + ":" + digits;
      IndexOf(rest, ':') == 32 && rest[..32] == generation && rest[33..] == digits
  {
    IndexOfIs(generation + ":" + digits, ':', 32);
  }

  /** Printing and parsing a manifest are inverse. */
  lemma PrintParse(generation: string, count: nat)
    requires IsGeneration(generation) && 1 <= count <= MAX_CHUNKS
    ensures Parse(Print(generation, count)) == Ok(Some(Manifest(Some(generation), count)))
  {
    var rest := generation + ":" + Decimal.Text(count);
    ColonAfterGeneration(generation, Decimal.Text(count));
    CountParses(Some(generation), count);
    assert Print(generation, count) == PREFIX_V2 + rest;
    StripPrefixIs(PREFIX_V2 + rest, PREFIX_V2);
    assert (PREFIX_V2 + rest)[|PREFIX_V2|..] == rest;
  }

  /** Legacy manifests name their count alone. */
  lemma LegacyParses(count: nat)
    requires 1 <= count <= MAX_CHUNKS
    ensures Parse(PREFIX_V1 + Decimal.Text(count)) == Ok(Some(Manifest(None, count)))
  {
    var value := PREFIX_V1 + Decimal.Text(count);
    StripPrefixIs(value, PREFIX_V2);
    StripPrefixIs(value, PREFIX_V1);
    assert value[14] == '1' && PREFIX_V2[14] == '2';
    assert value[|PREFIX_V1|..] == Decimal.Text(count);
    CountParses(None, count);
  }

  /** A printed manifest fits a slot. */
  lemma PrintFits(generation: string, count: nat)
    requires IsGeneration(generation) && 1 <= count <= MAX_CHUNKS
    ensures Units(Print(generation, count)) <= MAX_SLOT_UNITS
  {
    assert Decimal.Pow10(2) == 100;
    Decimal.TextWidth(count, 2);
    UnitsAtMostTwice(Print(generation, count));
  }

  lemma {:induction false} UnitsAtMostTwice(s: string)
    ensures Units(s) <= 2 * |s|
  {
    if s != [] {
      UnitsAtMostTwice(s[1..]);
    }
  }

  /** Within one account the slot name determines the generation and the index. */
  lemma ChunkNameInjective(account: string, m: Manifest, i: nat, n: Manifest, j: nat)
    requires Valid(m) && Valid(n) && ChunkName(account, m, i) == ChunkName(account, n, j)
    ensures m.generation == n.generation && i == j
  {
    SuffixesAgree(account + "#", ChunkLabel(m, i), ChunkLabel(n, j));
    LabelHasHash(m, i);
    LabelHasHash(n, j);
    if m.generation.Some? {
      SplitsAgree(m.generation.value, Decimal.Text(i), n.generation.value, Decimal.Text(j));
    }
    Decimal.TextInjective(i, j);
  }

  lemma SuffixesAgree(a: string, s: string, t: string)
    requires a + s == a + t
    ensures s == t
  {
    assert s == (a + s)[|a|..] && t == (a + t)[|a|..];
  }

  lemma SplitsAgree(g: string, s: string, h: string, t: string)
    requires |g| == |h| && g + ("#" + s) == h + ("#" + t)
    ensures g == h && s == t
  {
    assert g == (g + ("#" + s))[..|g|] && h == (h + ("#" + t))[..|h|];
    assert s == (g + ("#" + s))[|g| + 1..] && t == (h + ("#" + t))[|h| + 1..];
  }

  lemma LabelHasHash(m: Manifest, i: nat)
    ensures '#' in ChunkLabel(m, i) <==> m.generation.Some?
  {
    Decimal.ValueOfText(i);
    if m.generation.Some? {
      assert ChunkLabel(m, i)[|m.generation.value|] == '#';
    }
  }

  lemma ChunkNameBelongs(account: string, m: Manifest, i: nat)
    ensures ChunkName(account, m, i) != account && account + "#" <= ChunkName(account, m, i)
  {
    assert ChunkName(account, m, i)[..|account| + 1] == account + "#";
  }

  /** Neither account name is the other one followed by `#`. */
  predicate Apart(a: string, b: string) {
    a != b && !(a + "#" <= b) && !(b + "#" <= a)
  }

  /** Accounts that are apart share no slot. */
  lemma ApartAccountsShareNothing(a: string, b: string, name: string)
    requires Apart(a, b) && Belongs(a, name)
    ensures !Belongs(b, name)
  {
    if a + "#" <= name && b + "#" <= name {
      if |a| <= |b| {
        CommonExtension(a, b, name);
      } else {
        CommonExtension(b, a, name);
      }
    }
  }

  lemma CommonExtension(a: string, b: string, name: string)
    requires a + "#" <= name && b + "#" <= name && |a| <= |b|
    ensures a == b || a + "#" <= b
  {
    assert a == name[..|a|] && b == name[..|b|];
    if |a| < |b| {
      assert b[..|a| + 1] == name[..|a| + 1] == a + "#";
    }
  }
}
