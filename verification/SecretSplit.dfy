/** `split` of credential_chunks.rs: greedy cutting of a secret into keyring-sized chunks. */
module SecretSplit {
  import opened Outcomes
  import opened Texts

  const MAX_SLOT_UNITS: nat := 1000
  const MAX_CHUNKS: nat := 64

  datatype Error = EmptySecret | TooLarge | Damaged | Incomplete | SlotError | CleanupError

  /** `char::len_utf16`. */
  function CharUnits(c: char): nat {
    if c as int < 0x1_0000 then 1 else 2
  }

  function Units(s: string): nat {
    if s == [] then 0 else CharUnits(s[0]) + Units(s[1..])
  }

  /** How many leading characters of `s` fit in `budget` units. */
  function Fit(s: string, budget: nat): (k: nat)
    ensures k <= |s|
  {
    if s == [] || CharUnits(s[0]) > budget then 0 else 1 + Fit(s[1..], budget - CharUnits(s[0]))
  }

  /** How many greedy steps it takes to use up `s`. */
  function ChunkCount(s: string): nat
    decreases |s|
  {
    if s == [] then 0 else 1 + ChunkCount(s[Fit(s, MAX_SLOT_UNITS)..])
  }

  /** Each chunk is the longest prefix of what is left that fits a slot. */
  function Chunks(s: string): (chunks: seq<string>)
    ensures |chunks| == ChunkCount(s)
    decreases |s|
  {
    if s == [] then [] else
      var k := Fit(s, MAX_SLOT_UNITS);
      [s[..k]] + Chunks(s[k..])
  }

  function SplitSecret(s: string): Result<seq<string>, Error> {
    if |Chunks(s)| > MAX_CHUNKS then Err(TooLarge) else Ok(Chunks(s))
  }

  /** A way of cutting `s` at character boundaries into pieces that fit a slot. */
  ghost predicate Cutting(s: string, parts: seq<string>) {
    Concat(parts) == s && forall i | 0 <= i < |parts| :: Units(parts[i]) <= MAX_SLOT_UNITS
  }

  lemma {:induction false} UnitsConcat(a: string, b: string)
    ensures Units(a + b) == Units(a) + Units(b)
  {
    if a == [] {
      assert a + b == b;
    } else {
      assert (a + b)[1..] == a[1..] + b;
      UnitsConcat(a[1..], b);
    }
  }

  /** The UTF-16 encoding: a character beyond the first plane takes a surrogate pair. */
  function Utf16(s: string): seq<nat> {
    if s == "" then [] else
      var c := s[0] as int;
      (if c < 0x1_0000 then [c]
       else [0xD800 + (c - 0x1_0000) / 0x400, 0xDC00 + (c - 0x1_0000) % 0x400]) + Utf16(s[1..])
  }

  lemma {:induction false} UnitsAreUtf16(s: string)
    ensures Units(s) == |Utf16(s)|
  {
    if s != "" {
      UnitsAreUtf16(s[1..]);
    }
  }

  /** The greedy prefix fits, and it is maximal. */
  lemma {:induction false} FitIsMaximal(s: string, budget: nat)
    ensures Units(s[..Fit(s, budget)]) <= budget
    ensures Fit(s, budget) < |s| ==> Units(s[..Fit(s, budget)]) + CharUnits(s[Fit(s, budget)]) > budget
  {
    var k := Fit(s, budget);
    if k > 0 {
      FitIsMaximal(s[1..], budget - CharUnits(s[0]));
      assert s[..k][1..] == s[1..][..k - 1];
    }
  }

  /** Any prefix that fits is covered by the greedy one. */
  lemma {:induction false} FitCovers(s: string, j: nat, budget: nat)
    requires j <= |s| && Units(s[..j]) <= budget
    ensures j <= Fit(s, budget)
  {
    if j > 0 {
      assert s[..j][1..] == s[1..][..j - 1];
      FitCovers(s[1..], j - 1, budget - CharUnits(s[0]));
    }
  }

  /** When `a` fits but `a` and the next character do not, the greedy prefix is exactly `a`. */
  lemma FitStopsAt(a: string, b: string, budget: nat)
    requires Units(a) <= budget
    requires b != [] ==> Units(a) + CharUnits(b[0]) > budget
    ensures Fit(a + b, budget) == |a|
  {
    var k := Fit(a + b, budget);
    assert (a + b)[..|a|] == a;
    FitCovers(a + b, |a|, budget);
    FitIsMaximal(a + b, budget);
    if k > |a| {
      assert (a + b)[..k] == a + [b[0]] + b[1..k - |a|];
      UnitsConcat(a + [b[0]], b[1..k - |a|]);
      UnitsConcat(a, [b[0]]);
    }
  }

  /** No piece is empty or too long, and only the last may be more than one unit short of a full slot. */
  ghost predicate Tight(parts: seq<string>) {
    && (forall i | 0 <= i < |parts| :: parts[i] != "" && Units(parts[i]) <= MAX_SLOT_UNITS)
    && (forall i | 0 <= i < |parts| - 1 :: Units(parts[i]) >= MAX_SLOT_UNITS - 1)
  }

  lemma TightCons(head: string, tail: seq<string>)
    requires Tight(tail) && head != "" && Units(head) <= MAX_SLOT_UNITS
    requires tail != [] ==> Units(head) >= MAX_SLOT_UNITS - 1
    ensures Tight([head] + tail)
  {
  }

  /** Chunks concatenate to the secret, none is empty, none is too long, and only the last may be short. */
  lemma {:induction false} ChunksAreRight(s: string)
    ensures Concat(Chunks(s)) == s && Tight(Chunks(s))
    decreases |s|
  {
    if s != [] {
      var k := Fit(s, MAX_SLOT_UNITS);
      var head, tail := s[..k], Chunks(s[k..]);
      FitIsMaximal(s, MAX_SLOT_UNITS);
      ChunksAreRight(s[k..]);
      TightCons(head, tail);
      ConcatCons(head, tail);
      assert head + s[k..] == s;
    }
  }

  /** Greedy stays ahead: it needs no more pieces for a suffix of `t` than any cutting of `t` has. */
  lemma {:induction false} GreedyStaysAhead(t: string, j: nat, parts: seq<string>)
    requires j <= |t| && Cutting(t, parts)
    ensures ChunkCount(t[j..]) <= |parts|
    decreases |parts|
  {
    if j < |t| {
      CuttingTail(t, parts);
      var k := AheadAfterCut(t, j, parts[0]);
      GreedyStaysAhead(t[|parts[0]|..], k, parts[1..]);
      CountStep(t[j..]);
    }
  }

  /** One greedy step from inside the first piece, or none from beyond it, reaches a suffix of what follows it. */
  lemma AheadAfterCut(t: string, j: nat, p: string) returns (k: nat)
    requires j < |t| && p <= t && Units(p) <= MAX_SLOT_UNITS
    ensures k <= |t| - |p|
    ensures t[|p|..][k..] == t[j..] || t[|p|..][k..] == t[j..][Fit(t[j..], MAX_SLOT_UNITS)..]
  {
    if j < |p| {
      k := ReachesCut(t, j, p);
    } else {
      k := j - |p|;
      DropDrop(t, |p|, k);
    }
  }

  lemma CountStep(s: string)
    requires s != ""
    ensures ChunkCount(s) == 1 + ChunkCount(s[Fit(s, MAX_SLOT_UNITS)..])
  {
  }

  lemma CuttingTail(t: string, parts: seq<string>)
    requires Cutting(t, parts) && parts != []
    ensures parts[0] <= t && Units(parts[0]) <= MAX_SLOT_UNITS && Cutting(t[|parts[0]|..], parts[1..])
  {
  }

  /** A greedy step that starts inside a piece ends at its cut or beyond. */
  lemma ReachesCut(t: string, j: nat, p: string) returns (k: nat)
    requires p <= t && Units(p) <= MAX_SLOT_UNITS && j < |p|
    ensures k <= |t| - |p| && t[j..][Fit(t[j..], MAX_SLOT_UNITS)..] == t[|p|..][k..]
  {
    UnitsConcat(p[..j], p[j..]);
    assert p[..j] + p[j..] == p && t[j..][..|p| - j] == p[j..];
    FitCovers(t[j..], |p| - j, MAX_SLOT_UNITS);
    var taken := Fit(t[j..], MAX_SLOT_UNITS);
    k := j + taken - |p|;
    DropDrop(t, j, taken);
    DropDrop(t, |p|, k);
  }

  lemma DropDrop(s: string, i: nat, j: nat)
    requires i + j <= |s|
    ensures s[i..][j..] == s[i + j..]
  {
  }

  /** No cutting uses fewer pieces than the greedy one. */
  lemma GreedyIsOptimal(s: string, parts: seq<string>)
    requires Cutting(s, parts)
    ensures |Chunks(s)| <= |parts|
  {
    assert s[0..] == s;
    GreedyStaysAhead(s, 0, parts);
  }

  /** "Too large" is reported exactly for the secrets that no cutting fits into the allowed number of slots. */
  lemma TooLargeExactly(s: string)
    ensures SplitSecret(s).Err? <==> !exists parts :: Cutting(s, parts) && |parts| <= MAX_CHUNKS
  {
    ChunksAreRight(s);
    forall parts | Cutting(s, parts) ensures |Chunks(s)| <= |parts| {
      GreedyIsOptimal(s, parts);
    }
  }

  /** A secret is one chunk exactly if it is not empty and its UTF-16 text fits a slot of 1000 units. */
  lemma OneChunkExactly(s: string)
    ensures |Chunks(s)| == 1 <==> s != "" && |Utf16(s)| <= 1000
  {
    UnitsAreUtf16(s);
    if s != "" {
      FitIsMaximal(s, MAX_SLOT_UNITS);
      assert s[..|s|] == s;
      if Units(s) <= 1000 {
        FitCovers(s, |s|, MAX_SLOT_UNITS);
        assert s[|s|..] == "";
      } else {
        CountStep(s[Fit(s, MAX_SLOT_UNITS)..]);
      }
    }
  }

  /** In terms of UTF-16: 64 pieces of 1000 units each are what a secret must be cut into. */
  ghost predicate FitsSlots(s: string, parts: seq<string>) {
    Concat(parts) == s && |parts| <= 64 && forall i | 0 <= i < |parts| :: |Utf16(parts[i])| <= 1000
  }

  lemma FitsSlotsIs(s: string, parts: seq<string>)
    ensures FitsSlots(s, parts) <==> Cutting(s, parts) && |parts| <= MAX_CHUNKS
  {
    forall i | 0 <= i < |parts| ensures Units(parts[i]) == |Utf16(parts[i])| {
      UnitsAreUtf16(parts[i]);
    }
  }

  /** A secret is split if and only if it can be cut into 64 pieces of 1000 UTF-16 units, and it is cut so. */
  lemma SplitsExactly(s: string)
    ensures SplitSecret(s).Ok? <==> exists parts :: FitsSlots(s, parts)
    ensures SplitSecret(s).Ok? ==> FitsSlots(s, SplitSecret(s).value)
  {
    TooLargeExactly(s);
    ChunksAreRight(s);
    FitsSlotsIs(s, Chunks(s));
    forall parts ensures FitsSlots(s, parts) <==> Cutting(s, parts) && |parts| <= MAX_CHUNKS {
      FitsSlotsIs(s, parts);
    }
  }

  /** Closing the current chunk when the next character overflows it. */
  lemma ChunksAfterOverflow(current: string, rest: string)
    requires current != "" && Units(current) <= MAX_SLOT_UNITS
    requires rest != "" ==> Units(current) + CharUnits(rest[0]) > MAX_SLOT_UNITS
    ensures Chunks(current + rest) == [current] + Chunks(rest)
  {
    FitStopsAt(current, rest, MAX_SLOT_UNITS);
    assert (current + rest)[..|current|] == current && (current + rest)[|current|..] == rest;
  }

  /** The loop state after `i` characters: closed chunks, and a chunk in the making. */
  ghost predicate Progress(secret: string, i: nat, chunks: seq<string>, current: string) {
    && i <= |secret| && Units(current) <= MAX_SLOT_UNITS && (current == "" ==> i == 0)
    && Chunks(secret) == chunks + Chunks(current + secret[i..])
  }

  lemma StartProgress(secret: string)
    ensures Progress(secret, 0, [], "")
  {
    assert "" + secret[0..] == secret;
  }

  lemma PushFits(secret: string, i: nat, chunks: seq<string>, current: string)
    requires i < |secret| && Progress(secret, i, chunks, current)
    requires Units(current) + CharUnits(secret[i]) <= MAX_SLOT_UNITS
    ensures Progress(secret, i + 1, chunks, current + [secret[i]])
  {
    UnitsPush(current, secret[i]);
    TakeOne(secret, i);
    Regroup(current, [secret[i]], secret[i + 1..]);
  }

  lemma PushOverflows(secret: string, i: nat, chunks: seq<string>, current: string)
    requires i < |secret| && Progress(secret, i, chunks, current)
    requires Units(current) + CharUnits(secret[i]) > MAX_SLOT_UNITS
    ensures Progress(secret, i + 1, chunks + [current], [secret[i]])
  {
    ChunksAfterOverflow(current, secret[i..]);
    TakeOne(secret, i);
    UnitsPush("", secret[i]);
    Regroup("", "", [secret[i]]);
    assert chunks + ([current] + Chunks(secret[i..])) == (chunks + [current]) + Chunks(secret[i..]);
  }

  lemma EndProgress(secret: string, chunks: seq<string>, current: string)
    requires Progress(secret, |secret|, chunks, current)
    ensures Chunks(secret) == if current != "" then chunks + [current] else chunks
  {
    assert secret[|secret|..] == "";
    if current != "" {
      ChunksAfterOverflow(current, "");
      assert Chunks("") == [] && [current] + [] == [current];
    } else {
      assert Chunks(current + "") == [];
    }
  }

  lemma UnitsPush(s: string, c: char)
    ensures Units(s + [c]) == Units(s) + CharUnits(c)
  {
    UnitsConcat(s, [c]);
  }

  lemma TakeOne(s: string, i: nat)
    requires i < |s|
    ensures s[i..] == [s[i]] + s[i + 1..]
  {
  }

  /** The character loop of `split`, which grows `current` and moves it to `chunks` when a character overflows it. */
  method Split(secret: string) returns (r: Result<seq<string>, Error>)
    ensures r == SplitSecret(secret)
  {
    var chunks: seq<string> := [];
    var current, units := "", 0;
    StartProgress(secret);
    for i := 0 to |secret|
      invariant units == Units(current)
      invariant Progress(secret, i, chunks, current)
    {
      var c := secret[i];
      if units + CharUnits(c) > MAX_SLOT_UNITS {
        PushOverflows(secret, i, chunks, current);
        chunks := chunks + [current];
        current, units := "", 0;
        Regroup("", "", [c]);
      } else {
        PushFits(secret, i, chunks, current);
      }
      UnitsPush(current, c);
      units := units + CharUnits(c);
      current := current + [c];
    }
    EndProgress(secret, chunks, current);
    if current != "" {
      chunks := chunks + [current];
    }
    if |chunks| > MAX_CHUNKS {
      return Err(TooLarge);
    }
    return Ok(chunks);
  }
}
