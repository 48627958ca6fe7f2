/** The vocabulary block on literal texts: the lines a SPEC document may hold, and what is loaded from it. */
module VocabularyTexts {
  import opened Outcomes
  import opened Texts
  import opened Vocabulary

  // ---------- names and entries ----------

  predicate FirstOfName(c: char) {
    c in "abcdefghijklmnopqrstuvwxyz"
  }

  predicate InName(c: char) {
    FirstOfName(c) || c in "0123456789" || c == '_' || c == '.'
  }

  ghost predicate NameText(s: string) {
    s != "" && FirstOfName(s[0]) && forall i | 0 <= i < |s| :: InName(s[i])
  }

  lemma LetterExactly(c: char)
    ensures FirstOfName(c) <==> 'a' <= c <= 'z'
  {
    var all := "abcdefghijklmnopqrstuvwxyz";
    if 'a' <= c <= 'z' {
      Occurs(all, c, c as int - 'a' as int);
    }
  }

  lemma DigitExactly(c: char)
    ensures c in "0123456789" <==> '0' <= c <= '9'
  {
    if '0' <= c <= '9' {
      Occurs("0123456789", c, c as int - '0' as int);
    }
  }

  lemma Occurs(all: string, c: char, i: nat)
    requires i < |all| && all[i] == c
    ensures c in all
  {
  }

  lemma IsNameExactly(s: string)
    ensures IsName(s) <==> NameText(s)
  {
    forall i | 0 <= i < |s| ensures InName(s[i]) <==>
      ('a' <= s[i] <= 'z' || '0' <= s[i] <= '9' || s[i] == '_' || s[i] == '.')
    {
      LetterExactly(s[i]);
      DigitExactly(s[i]);
    }
    if s != "" {
      LetterExactly(s[0]);
    }
  }

  /** The trimmed line of an entry. */
  function EntryText(name: string, implemented: bool): string {
    if implemented then name + " implemented" else name + " spec-only"
  }

  /** An entry is a name of the literal alphabet, a space, and one of the two states. */
  lemma EntryExactly(s: string, name: string)
    ensures ParseEntry(s) == Some(name) <==>
            NameText(name) && (s == EntryText(name, true) || s == EntryText(name, false))
  {
    IsNameExactly(name);
    if NameText(name) && s == EntryText(name, true) {
      assert s[|s| - |IMPLEMENTED|..] == IMPLEMENTED && s[..|s| - |IMPLEMENTED|] == name;
    } else if NameText(name) && s == EntryText(name, false) {
      assert s[|s| - |SPEC_ONLY|..] == SPEC_ONLY && s[..|s| - |SPEC_ONLY|] == name;
      LastCharacter(s, IMPLEMENTED);
    }
    if ParseEntry(s) == Some(name) {
      assert s == name + s[|name|..];
    }
  }

  // ---------- the other lines ----------

  /** A line opens the block exactly if it is the tagged fence with white space around it or none. */
  lemma OpensExactly(want: Want, a: string, t: string, b: string)
    requires AllSpace(a) && AllSpace(b) && Trimmed(t)
    ensures Opens(want, a + t + b) <==> t == "```" + want.fenceTag
  {
    TrimSpaceIs(a, t, b);
  }

  lemma ClosesExactly(line: string)
    ensures Closes(line) <==> |line| >= 3 && line[0] == '`' && line[1] == '`' && line[2] == '`'
  {
    assert |line| >= 3 ==> line[..3] == [line[0], line[1], line[2]];
  }

  lemma {:induction false} HashesAre(k: nat, hashes: string, rest: string)
    requires |hashes| == k && (forall i | 0 <= i < k :: hashes[i] == '#') && (rest == "" || rest[0] != '#')
    ensures Hashes(hashes + rest) == k
  {
    if k == 0 {
      assert hashes + rest == rest;
    } else {
      assert (hashes + rest)[1..] == hashes[1..] + rest;
      HashesAre(k - 1, hashes[1..], rest);
    }
  }

  ghost predicate AllHashes(s: string) {
    forall i | 0 <= i < |s| :: s[i] == '#'
  }

  /** A heading is one or more hashes and a space, tab, form feed or line end after them. */
  lemma HeadingExactly(hashes: string, rest: string)
    requires AllHashes(hashes) && (rest == "" || rest[0] != '#')
    ensures IsHeading(hashes + rest) <==> hashes != "" && rest != "" && rest[0] in " \t\n\r\U{0C}"
  {
    HashesAre(|hashes|, hashes, rest);
    if hashes != "" && rest != "" {
      assert (hashes + rest)[|hashes|] == rest[0];
      RegexSpaceExactly(rest[0]);
    }
  }

  lemma RegexSpaceExactly(c: char)
    ensures RegexSpace(c) <==> c in " \t\n\r\U{0C}"
  {
    var all := " \t\n\r\U{0C}";
    assert all[0] == ' ' && all[1] == '\t' && all[2] == '\n' && all[3] == '\r' && all[4] == '\U{0C}';
  }

  /** The word characters, after which no section number ends. */
  lemma WordCharExactly(c: char)
    ensures WordChar(c) <==>
            FirstOfName(c) || c in "0123456789" || c in "ABCDEFGHIJKLMNOPQRSTUVWXYZ" || c == '_'
  {
    LetterExactly(c);
    DigitExactly(c);
    var all := "ABCDEFGHIJKLMNOPQRSTUVWXYZ";
    if 'A' <= c <= 'Z' {
      Occurs(all, c, c as int - 'A' as int);
    }
  }

  /** The two normative blocks. */
  lemma NormativeWants()
    ensures V02 == Want("7.7", "wire-vocabulary") && V03 == Want("7.8", "wire-vocabulary-v3")
    ensures SectionMark(V02) == "\U{A7}7.7" && SectionMark(V03) == "\U{A7}7.8"
  {
  }

  // ---------- a whole document ----------

  /** A line inside the block; `front` and `back` are white space. */
  datatype BlockLine =
    | EntryLine(front: string, name: string, implemented: bool, back: string)
    | CommentLine(front: string, text: string)
    | SpaceLine(front: string)

  function Show(l: BlockLine): string {
    match l
    case EntryLine(front, name, implemented, back) => front + EntryText(name, implemented) + back
    case CommentLine(front, text) => front + ("#" + text)
    case SpaceLine(front) => front
  }

  ghost predicate Proper(l: BlockLine) {
    AllSpace(l.front) && (l.EntryLine? ==> NameText(l.name) && AllSpace(l.back))
  }

  function ContentFor(l: BlockLine): Content {
    if l.EntryLine? then Listed(l.name) else Blank
  }

  /** Comments and blank lines are skipped, entries are listed under their names, and no such line closes the block. */
  lemma LineIsUnderstood(l: BlockLine)
    requires Proper(l)
    ensures ContentOf(Show(l)) == ContentFor(l) && !Closes(Show(l))
  {
    ClosesExactly(Show(l));
    match l
    case EntryLine(front, name, implemented, back) =>
      var t := EntryText(name, implemented);
      LetterExactly(name[0]);
      assert t[0] == name[0] && t[|t| - 1] in {'d', 'y'};
      TrimSpaceIs(front, t, back);
      EntryExactly(t, name);
      assert Show(l)[0] == if front == "" then name[0] else front[0];
    case CommentLine(front, text) =>
      CommentIsSkipped(front, text);
      assert Show(l)[0] == if front == "" then '#' else front[0];
    case SpaceLine(front) =>
      TrimSpaceEmptyExactly(front);
  }

  lemma CommentIsSkipped(front: string, text: string)
    requires AllSpace(front)
    ensures ContentOf(front + ("#" + text)) == Blank
  {
    TrimLeftIs(front, "#" + text);
    TrimRightKeepsHash("#" + text);
  }

  lemma {:induction false} TrimRightKeepsHash(s: string)
    requires s != "" && !IsSpace(s[0])
    ensures TrimRight(s) != "" && TrimRight(s)[0] == s[0]
  {
    if IsSpace(s[|s| - 1]) {
      TrimRightKeepsHash(s[..|s| - 1]);
    }
  }

  ghost predicate ProperBlock(block: seq<BlockLine>) {
    && (forall i | 0 <= i < |block| :: Proper(block[i]))
    && (exists i :: 0 <= i < |block| && block[i].EntryLine?)
    && (forall i, j | 0 <= i < j < |block| && block[i].EntryLine? && block[j].EntryLine? ::
          block[i].name != block[j].name)
  }

  function NamesIn(block: seq<BlockLine>): set<string> {
    set i | 0 <= i < |block| && block[i].EntryLine? :: block[i].name
  }

  /** A line without a section sign, or with one sign that another number follows. */
  ghost predicate Elsewhere(want: Want, line: string) {
    SIGN !in line ||
    exists p: string, q: string :: line == p + [SIGN] + q && SIGN !in p && SIGN !in q && !(want.section <= q)
  }

  lemma ElsewhereIsNoSection(want: Want, line: string)
    requires Elsewhere(want, line)
    ensures !IsSection(want, line)
  {
    var mark := SectionMark(want);
    forall j: nat | j + |mark| <= |line| ensures !MarkAt(line, mark, j) {
      if MarkAt(line, mark, j) {
        assert line[j..j + |mark|][0] == line[j] == SIGN;
        var p: string, q: string :| line == p + [SIGN] + q && SIGN !in p && SIGN !in q && !(want.section <= q);
        assert p + [SIGN] + q + "" == line;
        OnlyAt(p, q, "", mark, j);
        PrefixAfterSign(line, p, q, want.section);
      }
    }
  }

  /**
   * A document with a wanted section, text, the tagged fence, entries among comments and blank lines, and a closing
   * fence. `pre` and `post` stand around the section number in its heading.
   */
  ghost predicate Document(
    want: Want, lines: seq<string>, h: nat, f: nat, c: nat, pre: string, post: string, block: seq<BlockLine>)
  {
    && h < f < c < |lines| && c == f + 1 + |block|
    && (forall k | 0 <= k < h :: Elsewhere(want, lines[k]))
    && lines[h] == pre + SectionMark(want) + post
    && IsHeading(pre) && SIGN !in pre && SIGN !in post && (post == "" || !WordChar(post[0]))
    && (forall k | h < k < f :: !IsHeading(lines[k]) && TrimSpace(lines[k]) != "```" + want.fenceTag)
    && TrimSpace(lines[f]) == "```" + want.fenceTag
    && (forall k | 0 <= k < |block| :: lines[f + 1 + k] == Show(block[k]))
    && "```" <= lines[c]
  }

  /** Every such document matches the grammar, with exactly the names of its entries. */
  lemma DocumentIsGrammatical(
    want: Want, lines: seq<string>, h: nat, f: nat, c: nat, pre: string, post: string, block: seq<BlockLine>)
    requires Document(want, lines, h, f, c, pre, post, block) && ProperBlock(block) && SIGN !in want.section
    ensures Grammar(MarkerFor(want), lines, h, f, c) && Names(MarkerFor(want), lines, f, c) == NamesIn(block)
  {
    var m := MarkerFor(want);
    SectionExactly(want, pre, post);
    forall k | 0 <= k < h ensures !m(lines[k]).section {
      ElsewhereIsNoSection(want, lines[k]);
    }
    assert AtSection(m, lines, h) && AtFence(m, lines, h, f);
    forall k | f < k < c ensures m(lines[k]).content == ContentFor(block[k - f - 1]) && !m(lines[k]).closes {
      assert lines[k] == Show(block[k - f - 1]);
      LineIsUnderstood(block[k - f - 1]);
    }
    BlockIsListed(m, lines, f, c, block);
  }

  lemma BlockIsListed(m: Marker, lines: seq<string>, f: nat, c: nat, block: seq<BlockLine>)
    requires f < c < |lines| && c == f + 1 + |block| && ProperBlock(block) && m(lines[c]).closes
    requires forall k | f < k < c :: m(lines[k]).content == ContentFor(block[k - f - 1]) && !m(lines[k]).closes
    ensures AtClose(m, lines, f, c) && WellFormedLines(m, lines, f, c) && NoDuplicates(m, lines, f, c)
    ensures Names(m, lines, f, c) == NamesIn(block) != {}
  {
    forall i | 0 <= i < |block| && block[i].EntryLine? ensures block[i].name in Names(m, lines, f, c) {
      assert m(lines[f + 1 + i]).content == Listed(block[i].name);
    }
    var i :| 0 <= i < |block| && block[i].EntryLine?;
    assert block[i].name in NamesIn(block);
  }
}
