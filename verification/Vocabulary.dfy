/** `loadEventVocabulary` of vocabulary_checks.go: the normative event names in one tagged block of the SPEC. */
module Vocabulary {
  import opened Outcomes
  import opened Texts

  /** `section` is the number after the section sign, `fenceTag` the info string of the block. */
  datatype Want = Want(section: string, fenceTag: string)

  const V02 := Want("7.7", "wire-vocabulary")
  const V03 := Want("7.8", "wire-vocabulary-v3")

  const FENCE := "```"
  const SIGN := '\U{A7}'

  datatype Error = NoHeading | NoBlock | EmptyBlock | BadLine(line: string) | Duplicate(name: string) | NotClosed

  // ---------- lines ----------

  /** `\s` of Go's regular expressions. */
  predicate RegexSpace(c: char) {
    c in {'\t', '\n', '\U{0C}', '\r', ' '}
  }

  predicate WordChar(c: char) {
    '0' <= c <= '9' || 'A' <= c <= 'Z' || 'a' <= c <= 'z' || c == '_'
  }

  function Hashes(line: string): (k: nat)
    ensures k <= |line|
  {
    if line == "" || line[0] != '#' then 0 else 1 + Hashes(line[1..])
  }

  /** `^#+\s`. */
  predicate IsHeading(line: string) {
    0 < Hashes(line) < |line| && RegexSpace(line[Hashes(line)])
  }

  /** `^#+\s.*` followed by the section mark and a word boundary. */
  predicate IsSection(want: Want, line: string) {
    IsHeading(line) &&
    exists j | Hashes(line) < j <= |line| - |SectionMark(want)| :: MarkAt(line, SectionMark(want), j)
  }

  /** The mark stands at `j` and a word boundary follows it. */
  predicate MarkAt(line: string, mark: string, j: nat)
    requires j + |mark| <= |line|
  {
    line[j..j + |mark|] == mark && (j + |mark| == |line| || !WordChar(line[j + |mark|]))
  }

  predicate Opens(want: Want, line: string) {
    TrimSpace(line) == FENCE + want.fenceTag
  }

  predicate Closes(line: string) {
    FENCE <= line
  }

  predicate Ignorable(line: string) {
    var t := TrimSpace(line);
    t == "" || t[0] == '#'
  }

  /** `[a-z][a-z0-9_.]*`. */
  predicate IsName(s: string) {
    s != "" && 'a' <= s[0] <= 'z' &&
    forall i | 0 <= i < |s| :: 'a' <= s[i] <= 'z' || '0' <= s[i] <= '9' || s[i] == '_' || s[i] == '.'
  }

  const IMPLEMENTED := " implemented"
  const SPEC_ONLY := " spec-only"

  predicate EndsWith(s: string, suffix: string) {
    |suffix| <= |s| && s[|s| - |suffix|..] == suffix
  }

  /** The vocabulary line grammar: a name, a space, and one of two states. */
  function ParseEntry(s: string): Option<string> {
    if EndsWith(s, IMPLEMENTED) && IsName(s[..|s| - |IMPLEMENTED|]) then Some(s[..|s| - |IMPLEMENTED|])
    else if EndsWith(s, SPEC_ONLY) && IsName(s[..|s| - |SPEC_ONLY|]) then Some(s[..|s| - |SPEC_ONLY|])
    else None
  }

  /** What a line of the block says. */
  datatype Content = Blank | Listed(name: string) | Malformed

  function ContentOf(line: string): Content {
    if Ignorable(line) then Blank else
      match ParseEntry(TrimSpace(line))
      case Some(name) => Listed(name)
      case None => Malformed
  }

  /** Everything the scan asks of a line. */
  datatype Mark = Mark(section: bool, heading: bool, opens: bool, closes: bool, content: Content)

  type Marker = string -> Mark

  function MarkerFor(want: Want): Marker {
    (line: string) => Mark(IsSection(want, line), IsHeading(line), Opens(want, line), Closes(line), ContentOf(line))
  }

  // ---------- the grammar ----------

  ghost predicate AtSection(m: Marker, lines: seq<string>, h: int) {
    0 <= h < |lines| && m(lines[h]).section && forall k | 0 <= k < h :: !m(lines[k]).section
  }

  ghost predicate NoFenceBetween(m: Marker, lines: seq<string>, h: int, f: int)
    requires 0 <= h && f <= |lines|
  {
    forall k | h < k < f :: !m(lines[k]).opens && !m(lines[k]).heading
  }

  ghost predicate AtFence(m: Marker, lines: seq<string>, h: int, f: int) {
    0 <= h < f < |lines| && m(lines[f]).opens && NoFenceBetween(m, lines, h, f)
  }

  ghost predicate AtClose(m: Marker, lines: seq<string>, f: int, c: int) {
    0 <= f < c < |lines| && m(lines[c]).closes && forall k | f < k < c :: !m(lines[k]).closes
  }

  ghost predicate WellFormedLines(m: Marker, lines: seq<string>, f: int, c: int)
    requires 0 <= f && c <= |lines|
  {
    forall k | f < k < c :: !m(lines[k]).content.Malformed?
  }

  ghost predicate NoDuplicates(m: Marker, lines: seq<string>, f: int, c: int)
    requires 0 <= f && c <= |lines|
  {
    forall k, l | f < k < l < c && m(lines[k]).content.Listed? :: m(lines[k]).content != m(lines[l]).content
  }

  ghost function Names(m: Marker, lines: seq<string>, f: int, c: int): set<string>
    requires 0 <= f && c <= |lines|
  {
    set k | f < k < c && m(lines[k]).content.Listed? :: m(lines[k]).content.name
  }

  /**
   * The first matching heading `h`; its tagged fence `f` before any other heading; the close `c` of that fence;
   * and between them well-formed lines that list at least one name and none twice.
   */
  ghost predicate Grammar(m: Marker, lines: seq<string>, h: int, f: int, c: int) {
    AtSection(m, lines, h) && AtFence(m, lines, h, f) && AtClose(m, lines, f, c) &&
    WellFormedLines(m, lines, f, c) && NoDuplicates(m, lines, f, c) && Names(m, lines, f, c) != {}
  }

  /** A document has at most one such block. */
  lemma GrammarIsUnambiguous(m: Marker, lines: seq<string>, h: int, f: int, c: int, h': int, f': int, c': int)
    requires AtSection(m, lines, h) && AtSection(m, lines, h')
    requires AtFence(m, lines, h, f) && AtFence(m, lines, h', f')
    requires AtClose(m, lines, f, c) && AtClose(m, lines, f', c')
    ensures h == h' && f == f' && c == c'
  {
  }

  lemma NamesSnoc(m: Marker, lines: seq<string>, f: int, i: int)
    requires 0 <= f < i < |lines|
    ensures Names(m, lines, f, i + 1) ==
            Names(m, lines, f, i) + if m(lines[i]).content.Listed? then {m(lines[i]).content.name} else {}
  {
  }

  /** The scan's state inside the block: its lines so far are well formed and list `vocab`, each name once. */
  ghost predicate Listing(m: Marker, lines: seq<string>, f: int, i: int, vocab: set<string>) {
    0 <= f < i <= |lines| && (forall k | f < k < i :: !m(lines[k]).closes) &&
    WellFormedLines(m, lines, f, i) && NoDuplicates(m, lines, f, i) && vocab == Names(m, lines, f, i)
  }

  lemma ListingStarts(m: Marker, lines: seq<string>, f: int)
    requires 0 <= f < |lines|
    ensures Listing(m, lines, f, f + 1, {})
  {
  }

  lemma ListingSkips(m: Marker, lines: seq<string>, f: int, i: int, vocab: set<string>)
    requires Listing(m, lines, f, i, vocab) && i < |lines| && !m(lines[i]).closes && m(lines[i]).content.Blank?
    ensures Listing(m, lines, f, i + 1, vocab)
  {
    NamesSnoc(m, lines, f, i);
  }

  lemma ListingAdds(m: Marker, lines: seq<string>, f: int, i: int, vocab: set<string>, name: string)
    requires Listing(m, lines, f, i, vocab) && i < |lines| && !m(lines[i]).closes
    requires m(lines[i]).content == Listed(name) && name !in vocab
    ensures Listing(m, lines, f, i + 1, vocab + {name})
  {
    NamesSnoc(m, lines, f, i);
    forall k | f < k < i && m(lines[k]).content.Listed? ensures m(lines[k]).content.name != name {
      assert m(lines[k]).content.name in vocab;
    }
  }

  // ---------- failures ----------

  /** Why the scan gives up: what it has seen at line `i`, with its section at `h` and its fence at `f`. */
  ghost predicate FailsAt(m: Marker, lines: seq<string>, e: Error, h: int, f: int, i: int) {
    match e
    case NoHeading => forall k | 0 <= k < |lines| :: !m(lines[k]).section
    case NoBlock =>
      AtSection(m, lines, h) && h < i < |lines| && NoFenceBetween(m, lines, h, i) &&
      m(lines[i]).heading && !m(lines[i]).opens
    case EmptyBlock => InBlock(m, lines, h, f, i) && i < |lines| && m(lines[i]).closes && Names(m, lines, f, i) == {}
    case BadLine(line) =>
      InBlock(m, lines, h, f, i) && i < |lines| && line == lines[i] && !m(line).closes && m(line).content.Malformed?
    case Duplicate(name) =>
      InBlock(m, lines, h, f, i) && i < |lines| &&
      !m(lines[i]).closes && m(lines[i]).content == Listed(name) && name in Names(m, lines, f, i)
    case NotClosed =>
      i == |lines| && ((AtSection(m, lines, h) && NoFenceBetween(m, lines, h, i)) || InBlock(m, lines, h, f, i))
  }

  ghost predicate Fails(m: Marker, lines: seq<string>, e: Error) {
    exists h, f, i :: FailsAt(m, lines, e, h, f, i)
  }

  /** The lines after the fence and before `i` are a part of a block without fault. */
  ghost predicate InBlock(m: Marker, lines: seq<string>, h: int, f: int, i: int) {
    AtSection(m, lines, h) && AtFence(m, lines, h, f) && f < i <= |lines| &&
    Listing(m, lines, f, i, Names(m, lines, f, i))
  }

  lemma SameStart(m: Marker, lines: seq<string>, h: int, f: int, h': int, f': int)
    requires AtSection(m, lines, h) && AtSection(m, lines, h')
    requires AtFence(m, lines, h, f) && AtFence(m, lines, h', f')
    ensures h == h' && f == f'
  {
  }

  lemma RepeatedName(m: Marker, lines: seq<string>, f: int, i: int, c: int)
    requires 0 <= f < i < c <= |lines|
    requires m(lines[i]).content.Listed? && m(lines[i]).content.name in Names(m, lines, f, i)
    ensures !NoDuplicates(m, lines, f, c)
  {
    var j :| f < j < i && m(lines[j]).content.Listed? && m(lines[j]).content.name == m(lines[i]).content.name;
    assert m(lines[j]).content == m(lines[i]).content;
  }

  /** A document on which the scan gives up does not match the grammar. */
  lemma FailureRefutes(m: Marker, lines: seq<string>, e: Error, h: int, f: int, i: int, h': int, f': int, c': int)
    requires FailsAt(m, lines, e, h, f, i)
    ensures !Grammar(m, lines, h', f', c')
  {
    if AtSection(m, lines, h') && AtFence(m, lines, h', f') && AtClose(m, lines, f', c') {
      if InBlock(m, lines, h, f, i) {
        SameStart(m, lines, h, f, h', f');
        if e.Duplicate? && i < c' {
          RepeatedName(m, lines, f, i, c');
        }
      }
    }
  }

  lemma NothingMatches(m: Marker, lines: seq<string>, e: Error, h: int, f: int, i: int)
    requires FailsAt(m, lines, e, h, f, i)
    ensures Fails(m, lines, e)
    ensures forall h', f', c' :: !Grammar(m, lines, h', f', c')
  {
    forall h', f', c' ensures !Grammar(m, lines, h', f', c') {
      FailureRefutes(m, lines, e, h, f, i, h', f', c');
    }
  }

  // ---------- the scan ----------

  /**
   * The three-flag scan succeeds exactly on documents that match the grammar, with exactly the listed names;
   * otherwise its error says what is wrong, and where the scan found it.
   */
  method LoadEventVocabulary(want: Want, lines: seq<string>) returns (r: Result<set<string>, Error>)
    ensures r.Ok? <==> exists h, f, c :: Grammar(MarkerFor(want), lines, h, f, c)
    ensures forall h, f, c :: Grammar(MarkerFor(want), lines, h, f, c) ==> r == Ok(Names(MarkerFor(want), lines, f, c))
    ensures r.Err? ==> Fails(MarkerFor(want), lines, r.error)
  {
    r := ScanLines(MarkerFor(want), lines);
  }

  method ScanLines(m: Marker, lines: seq<string>) returns (r: Result<set<string>, Error>)
    ensures r.Ok? <==> exists h, f, c :: Grammar(m, lines, h, f, c)
    ensures forall h, f, c :: Grammar(m, lines, h, f, c) ==> r == Ok(Names(m, lines, f, c))
    ensures r.Err? ==> Fails(m, lines, r.error)
  {
    var vocab: set<string> := {};
    var foundSection, inSection, inBlock := false, false, false;
    ghost var h, f := 0, 0;
    for i := 0 to |lines|
      invariant inSection == foundSection && (inBlock ==> inSection)
      invariant !inSection ==> forall k | 0 <= k < i :: !m(lines[k]).section
      invariant inSection ==> h < i && AtSection(m, lines, h)
      invariant inSection && !inBlock ==> NoFenceBetween(m, lines, h, i)
      invariant inBlock ==> AtFence(m, lines, h, f) && Listing(m, lines, f, i, vocab)
      invariant !inBlock ==> vocab == {}
    {
      var line := m(lines[i]);
      if !inSection {
        if line.section {
          inSection, foundSection := true, true;
          h := i;
        }
      } else if !inBlock {
        if line.opens {
          inBlock := true;
          f := i;
          ListingStarts(m, lines, f);
        } else if line.heading {
          NothingMatches(m, lines, NoBlock, h, f, i);
          return Err(NoBlock);
        }
      } else if line.closes {
        if vocab == {} {
          NothingMatches(m, lines, EmptyBlock, h, f, i);
          return Err(EmptyBlock);
        }
        assert Grammar(m, lines, h, f, i);
        forall h', f', c' | Grammar(m, lines, h', f', c') ensures f' == f && c' == i {
          GrammarIsUnambiguous(m, lines, h, f, i, h', f', c');
        }
        return Ok(vocab);
      } else {
        match line.content {
          case Blank =>
            ListingSkips(m, lines, f, i, vocab);
          case Malformed =>
            NothingMatches(m, lines, BadLine(lines[i]), h, f, i);
            return Err(BadLine(lines[i]));
          case Listed(name) =>
            if name in vocab {
              NothingMatches(m, lines, Duplicate(name), h, f, i);
              return Err(Duplicate(name));
            }
            ListingAdds(m, lines, f, i, vocab, name);
            vocab := vocab + {name};
        }
      }
    }
    if !foundSection {
      NothingMatches(m, lines, NoHeading, h, f, |lines|);
      return Err(NoHeading);
    }
    NothingMatches(m, lines, NotClosed, h, f, |lines|);
    return Err(NotClosed);
  }

  // ---------- printing ----------

  datatype Entry = Entry(name: string, implemented: bool)

  function PrintEntry(e: Entry): string {
    e.name + (if e.implemented then IMPLEMENTED else SPEC_ONLY)
  }

  function PrintEntries(entries: seq<Entry>): seq<string> {
    if entries == [] then [] else PrintEntries(entries[..|entries| - 1]) + [PrintEntry(entries[|entries| - 1])]
  }

  /** A heading, the tagged fence, one line per entry, and the closing fence. */
  function PrintBlock(want: Want, heading: string, entries: seq<Entry>): seq<string> {
    [heading, FENCE + want.fenceTag] + PrintEntries(entries) + [FENCE]
  }

  lemma {:induction false} PrintEntriesAt(entries: seq<Entry>)
    ensures |PrintEntries(entries)| == |entries|
    ensures forall i | 0 <= i < |entries| :: PrintEntries(entries)[i] == PrintEntry(entries[i])
  {
    if entries != [] {
      PrintEntriesAt(entries[..|entries| - 1]);
    }
  }

  lemma NothingToTrim(s: string)
    requires s != "" && !IsSpace(s[0]) && !IsSpace(s[|s| - 1])
    ensures TrimSpace(s) == s
  {
  }

  lemma LastCharacter(s: string, suffix: string)
    requires suffix != "" && s != "" && s[|s| - 1] != suffix[|suffix| - 1]
    ensures !EndsWith(s, suffix)
  {
    assert |suffix| <= |s| ==> s[|s| - |suffix|..][|suffix| - 1] == s[|s| - 1];
  }

  lemma EntryIsParsed(e: Entry)
    requires IsName(e.name)
    ensures ContentOf(PrintEntry(e)) == Listed(e.name) && !Closes(PrintEntry(e))
  {
    var s := PrintEntry(e);
    assert s[0] == e.name[0];
    NothingToTrim(s);
    if e.implemented {
      assert s[|s| - |IMPLEMENTED|..] == IMPLEMENTED && s[..|s| - |IMPLEMENTED|] == e.name;
    } else {
      assert s[|s| - |SPEC_ONLY|..] == SPEC_ONLY && s[..|s| - |SPEC_ONLY|] == e.name;
      assert s[|s| - 1] == 'y';
      LastCharacter(s, IMPLEMENTED);
    }
  }

  function SectionMark(want: Want): string {
    [SIGN] + want.section
  }

  lemma {:induction false} HashesOfPrefix(pre: string, post: string)
    requires Hashes(pre) < |pre|
    ensures Hashes(pre + post) == Hashes(pre)
  {
    if Hashes(pre) > 0 {
      HashesOfPrefix(pre[1..], post);
      assert (pre + post)[1..] == pre[1..] + post;
    }
  }

  lemma SignStandsOnce(pre: string, text: string, post: string)
    requires SIGN !in pre && SIGN !in text && SIGN !in post
    ensures var line := pre + [SIGN] + text + post; forall k | 0 <= k < |line| && k != |pre| :: line[k] != SIGN
  {
  }

  /** A sign that occurs once is found there and nowhere else. */
  lemma OnlyAt(pre: string, text: string, post: string, mark: string, j: nat)
    requires SIGN !in pre && SIGN !in text && SIGN !in post && mark != "" && mark[0] == SIGN
    requires j + |mark| <= |pre + [SIGN] + text + post| && MarkAt(pre + [SIGN] + text + post, mark, j)
    ensures j == |pre|
  {
    var line := pre + [SIGN] + text + post;
    SignStandsOnce(pre, text, post);
    assert line[j..j + |mark|][0] == line[j];
  }

  /**
   * For every heading with one section sign: it is the wanted section if and only if the wanted number stands after
   * the sign and does not go on in a word character; so 7.70 is not 7.7.
   */
  lemma SectionExactly(want: Want, pre: string, post: string)
    requires IsHeading(pre) && SIGN !in pre && SIGN !in want.section && SIGN !in post
    ensures IsSection(want, pre + SectionMark(want) + post) <==> post == "" || !WordChar(post[0])
  {
    var line, mark := pre + SectionMark(want) + post, SectionMark(want);
    assert line == pre + (mark + post) == pre + [SIGN] + want.section + post;
    HashesOfPrefix(pre, mark + post);
    assert line[Hashes(pre)] == pre[Hashes(pre)] && IsHeading(line);
    assert line[|pre|..|pre| + |mark|] == mark && (post != "" ==> line[|pre| + |mark|] == post[0]);
    assert MarkAt(line, mark, |pre|) <==> post == "" || !WordChar(post[0]);
    forall j: nat | j + |mark| <= |line| && MarkAt(line, mark, j) ensures j == |pre| {
      OnlyAt(pre, want.section, post, mark, j);
    }
  }

  /** A heading of one section is not one of another whose number is no prefix of what stands after the sign. */
  lemma OtherSection(want: Want, other: Want, pre: string, post: string)
    requires IsHeading(pre) && SIGN !in pre && SIGN !in want.section && SIGN !in post
    requires !(other.section <= want.section + post)
    ensures !IsSection(other, pre + SectionMark(want) + post)
  {
    var line, mark := pre + SectionMark(want) + post, SectionMark(other);
    assert line == pre + (SectionMark(want) + post) == pre + [SIGN] + want.section + post;
    HashesOfPrefix(pre, SectionMark(want) + post);
    forall j: nat | j + |mark| <= |line| ensures !MarkAt(line, mark, j) {
      if MarkAt(line, mark, j) {
        OnlyAt(pre, want.section, post, mark, j);
        PrefixAfterSign(line, pre, want.section + post, other.section);
      }
    }
  }

  lemma PrefixAfterSign(line: string, pre: string, rest: string, section: string)
    requires line == pre + [SIGN] + rest && |pre| + 1 + |section| <= |line|
    requires line[|pre|..|pre| + 1 + |section|] == [SIGN] + section
    ensures section <= rest
  {
    assert rest == line[|pre| + 1..];
    assert section == ([SIGN] + section)[1..] == line[|pre|..|pre| + 1 + |section|][1..];
  }

  /** The two normative sections: their headings are told apart, and their blocks can be printed. */
  lemma NormativeSections(pre: string, post: string)
    requires IsHeading(pre) && SIGN !in pre && SIGN !in post && (post == "" || !WordChar(post[0]))
    ensures IsSection(V02, pre + SectionMark(V02) + post) && !IsSection(V03, pre + SectionMark(V02) + post)
    ensures IsSection(V03, pre + SectionMark(V03) + post) && !IsSection(V02, pre + SectionMark(V03) + post)
    ensures forall want | want in {V02, V03} :: want.fenceTag != "" && !IsSpace(want.fenceTag[|want.fenceTag| - 1])
  {
    SectionExactly(V02, pre, post);
    SectionExactly(V03, pre, post);
    assert (V02.section + post)[2] == '7' && V03.section[2] == '8';
    assert (V03.section + post)[2] == '8' && V02.section[2] == '7';
    OtherSection(V02, V03, pre, post);
    OtherSection(V03, V02, pre, post);
  }

  /** Printing any non-empty vocabulary as a block gives a document whose one block lists exactly that vocabulary. */
  lemma PrintedBlockIsGrammatical(want: Want, heading: string, entries: seq<Entry>)
    requires IsSection(want, heading) && want.fenceTag != "" && !IsSpace(want.fenceTag[|want.fenceTag| - 1])
    requires entries != [] && forall i | 0 <= i < |entries| :: IsName(entries[i].name)
    requires forall i, j | 0 <= i < j < |entries| :: entries[i].name != entries[j].name
    ensures var lines := PrintBlock(want, heading, entries);
      && Grammar(MarkerFor(want), lines, 0, 1, |entries| + 2)
      && Names(MarkerFor(want), lines, 1, |entries| + 2) == set name | name in NamesOf(entries)
  {
    var m, lines, names := MarkerFor(want), PrintBlock(want, heading, entries), NamesOf(entries);
    PrintBlockAt(want, heading, entries);
    FencesAreMarked(want);
    forall i | 0 <= i < |entries| ensures m(lines[i + 2]).content == Listed(names[i]) && !m(lines[i + 2]).closes {
      EntryIsMarked(want, entries[i]);
    }
    HeadingIsMarked(want, heading);
    ListedBlock(m, lines, |entries|, names);
  }

  function NamesOf(entries: seq<Entry>): (names: seq<string>)
    ensures |names| == |entries| && forall i | 0 <= i < |entries| :: names[i] == entries[i].name
  {
    seq(|entries|, i requires 0 <= i < |entries| => entries[i].name)
  }

  lemma PrintBlockAt(want: Want, heading: string, entries: seq<Entry>)
    ensures var lines := PrintBlock(want, heading, entries);
      && |lines| == |entries| + 3 && lines[0] == heading && lines[1] == FENCE + want.fenceTag
      && lines[|entries| + 2] == FENCE
      && forall i | 0 <= i < |entries| :: lines[i + 2] == PrintEntry(entries[i])
  {
    PrintEntriesAt(entries);
  }

  lemma FencesAreMarked(want: Want)
    requires want.fenceTag != "" && !IsSpace(want.fenceTag[|want.fenceTag| - 1])
    ensures MarkerFor(want)(FENCE + want.fenceTag).opens && MarkerFor(want)(FENCE).closes
  {
    var fence := FENCE + want.fenceTag;
    assert fence[0] == '`' && fence[|fence| - 1] == want.fenceTag[|want.fenceTag| - 1];
    NothingToTrim(fence);
  }

  lemma HeadingIsMarked(want: Want, heading: string)
    requires IsSection(want, heading)
    ensures MarkerFor(want)(heading).section
  {
  }

  lemma EntryIsMarked(want: Want, e: Entry)
    requires IsName(e.name)
    ensures MarkerFor(want)(PrintEntry(e)).content == Listed(e.name) && !MarkerFor(want)(PrintEntry(e)).closes
  {
    EntryIsParsed(e);
  }

  /** A heading, a fence, `names` one per line, and a close form a block with exactly those names. */
  lemma ListedBlock(m: Marker, lines: seq<string>, n: nat, names: seq<string>)
    requires |lines| == n + 3 && |names| == n > 0
    requires m(lines[0]).section && m(lines[1]).opens && m(lines[n + 2]).closes
    requires forall i | 0 <= i < n :: m(lines[i + 2]).content == Listed(names[i]) && !m(lines[i + 2]).closes
    requires forall i, j | 0 <= i < j < n :: names[i] != names[j]
    ensures Grammar(m, lines, 0, 1, n + 2) && Names(m, lines, 1, n + 2) == set name | name in names
  {
    forall k | 1 < k < n + 2 ensures m(lines[k]).content == Listed(names[k - 2]) && !m(lines[k]).closes {
      assert lines[k] == lines[(k - 2) + 2];
    }
    forall i | 0 <= i < n ensures names[i] in Names(m, lines, 1, n + 2) {
      assert m(lines[i + 2]).content.name == names[i];
    }
    assert names[0] in Names(m, lines, 1, n + 2);
  }
}
