/** `strings.TrimSpace` on UTF-8 bytes, each character standing for one byte. */
module ByteTrim {
  import opened Texts

  // ---------- trimming codes off both ends ----------

  /** The length of the code of at most three bytes at the front of `s`; zero when there is none. */
  function Ahead(code: string -> bool, s: string): (k: nat)
    ensures k <= |s| && (k > 0 ==> code(s[..k]))
  {
    if |s| >= 1 && code(s[..1]) then 1 else if |s| >= 2 && code(s[..2]) then 2
    else if |s| >= 3 && code(s[..3]) then 3 else 0
  }

  function Behind(code: string -> bool, s: string): (k: nat)
    ensures k <= |s| && (k > 0 ==> code(s[|s| - k..]))
  {
    if |s| >= 1 && code(s[|s| - 1..]) then 1 else if |s| >= 2 && code(s[|s| - 2..]) then 2
    else if |s| >= 3 && code(s[|s| - 3..]) then 3 else 0
  }

  function TrimFront(code: string -> bool, s: string): string {
    if Ahead(code, s) == 0 then s else TrimFront(code, s[Ahead(code, s)..])
  }

  function TrimBack(code: string -> bool, s: string): string {
    if Behind(code, s) == 0 then s else TrimBack(code, s[..|s| - Behind(code, s)])
  }

  function Trim(code: string -> bool, s: string): string {
    TrimBack(code, TrimFront(code, s))
  }

  /** No code at either end. */
  predicate Bare(code: string -> bool, s: string) {
    Ahead(code, s) == 0 && Behind(code, s) == 0
  }

  lemma {:induction false} TrimFrontBares(code: string -> bool, s: string)
    ensures Ahead(code, TrimFront(code, s)) == 0 && forall c | c in TrimFront(code, s) :: c in s
  {
    if Ahead(code, s) != 0 {
      TrimFrontBares(code, s[Ahead(code, s)..]);
    }
  }

  lemma PrefixKeepsFront(code: string -> bool, s: string, k: nat)
    requires Ahead(code, s) == 0 && k <= |s|
    ensures Ahead(code, s[..k]) == 0
  {
    assert k >= 1 ==> s[..k][..1] == s[..1];
    assert k >= 2 ==> s[..k][..2] == s[..2];
    assert k >= 3 ==> s[..k][..3] == s[..3];
  }

  lemma {:induction false} TrimBackBares(code: string -> bool, s: string)
    requires Ahead(code, s) == 0
    ensures Bare(code, TrimBack(code, s)) && forall c | c in TrimBack(code, s) :: c in s
  {
    if Behind(code, s) != 0 {
      PrefixKeepsFront(code, s, |s| - Behind(code, s));
      TrimBackBares(code, s[..|s| - Behind(code, s)]);
    }
  }

  /** What is left is bare, and made of the text's own bytes. */
  lemma TrimBares(code: string -> bool, s: string)
    ensures Bare(code, Trim(code, s)) && forall c | c in Trim(code, s) :: c in s
  {
    TrimFrontBares(code, s);
    TrimBackBares(code, TrimFront(code, s));
  }

  /** One single-byte code in front of a bare text. */
  lemma TrimOneCode(code: string -> bool, w: char, text: string)
    requires code([w]) && Bare(code, text)
    ensures Trim(code, [w] + text) == text
  {
    var s := [w] + text;
    assert s[..1] == [w] && s[1..] == text;
    assert Ahead(code, s) == 1;
    assert TrimFront(code, s) == TrimFront(code, text) == text;
  }

  ghost predicate AllCodes(code: string -> bool, codes: seq<string>) {
    forall i | 0 <= i < |codes| :: code(codes[i])
  }

  /** `trim` leaves `s` alone, or goes on with what follows a code at its front. */
  ghost predicate CutsFront(trim: string -> string, code: string -> bool, s: string) {
    trim(s) == s || exists w, rest :: w != "" && code(w) && s == w + rest && trim(s) == trim(rest)
  }

  lemma {:induction false} FrontCodes(trim: string -> string, code: string -> bool, s: string)
    returns (codes: seq<string>)
    requires forall t :: CutsFront(trim, code, t)
    ensures AllCodes(code, codes) && s == Concat(codes) + trim(s)
    decreases |s|
  {
    codes := [];
    assert CutsFront(trim, code, s);
    if trim(s) != s {
      var w, rest :| w != "" && code(w) && s == w + rest && trim(s) == trim(rest);
      var more := FrontCodes(trim, code, rest);
      ConcatCons(w, more);
      Regroup(w, Concat(more), trim(rest));
      codes := [w] + more;
    }
  }

  ghost predicate CutsBack(trim: string -> string, code: string -> bool, s: string) {
    trim(s) == s || exists rest, w :: w != "" && code(w) && s == rest + w && trim(s) == trim(rest)
  }

  lemma {:induction false} BackCodes(trim: string -> string, code: string -> bool, s: string)
    returns (codes: seq<string>)
    requires forall t :: CutsBack(trim, code, t)
    ensures AllCodes(code, codes) && s == trim(s) + Concat(codes)
    decreases |s|
  {
    codes := [];
    assert CutsBack(trim, code, s);
    if trim(s) != s {
      var rest, w :| w != "" && code(w) && s == rest + w && trim(s) == trim(rest);
      var more := BackCodes(trim, code, rest);
      ConcatSnoc(more, w);
      Regroup(trim(rest), Concat(more), w);
      codes := more + [w];
    }
  }

  lemma CutsAt(trim: string -> string, code: string -> bool, s: string, k: nat)
    requires k <= |s|
    ensures 0 < k && code(s[..k]) && trim(s) == trim(s[k..]) ==> CutsFront(trim, code, s)
    ensures k < |s| && code(s[k..]) && trim(s) == trim(s[..k]) ==> CutsBack(trim, code, s)
  {
    assert s == s[..k] + s[k..];
  }

  /** Trimming takes codes off both ends, and nothing else. */
  lemma TrimSplits(code: string -> bool, s: string) returns (front: seq<string>, back: seq<string>)
    ensures AllCodes(code, front) && AllCodes(code, back) && s == Concat(front) + (Trim(code, s) + Concat(back))
  {
    var trimFront, trimBack := (t: string) => TrimFront(code, t), (t: string) => TrimBack(code, t);
    forall t ensures CutsFront(trimFront, code, t) && CutsBack(trimBack, code, t) {
      CutsAt(trimFront, code, t, Ahead(code, t));
      CutsAt(trimBack, code, t, |t| - Behind(code, t));
    }
    front := FrontCodes(trimFront, code, s);
    back := BackCodes(trimBack, code, TrimFront(code, s));
  }

  // ---------- white space ----------

  /** The UTF-8 encoding of one white-space character. */
  predicate SpaceCode(w: string) {
    || (|w| == 1 && (9 <= w[0] as int <= 13 || w[0] == ' '))
    || (|w| == 2 && w[0] as int == 0xC2 && w[1] as int in {0x85, 0xA0})
    || (|w| == 3 && w[0] as int == 0xE1 && w[1] as int == 0x9A && w[2] as int == 0x80)
    || (|w| == 3 && w[0] as int == 0xE2 && w[1] as int == 0x80 &&
        (0x80 <= w[2] as int <= 0x8A || w[2] as int in {0xA8, 0xA9, 0xAF}))
    || (|w| == 3 && w[0] as int == 0xE2 && w[1] as int == 0x81 && w[2] as int == 0x9F)
    || (|w| == 3 && w[0] as int == 0xE3 && w[1] as int == 0x80 && w[2] as int == 0x80)
  }

  /** `strings.TrimSpace` on bytes. */
  function TrimBytes(s: string): string {
    Trim(SpaceCode, s)
  }

  /** A text on one line without surrounding white space. */
  predicate Clean(s: string) {
    '\n' !in s && Bare(SpaceCode, s)
  }

  lemma TrimBytesIsClean(s: string)
    requires '\n' !in s
    ensures Clean(TrimBytes(s))
  {
    TrimBares(SpaceCode, s);
  }

  lemma TrimOneSpace(text: string)
    requires Clean(text)
    ensures TrimBytes(" " + text) == text
  {
    TrimOneCode(SpaceCode, ' ', text);
  }

  /** Trimming takes encoded white space off both ends and nothing else, and leaves none there. */
  lemma TrimBytesSplits(s: string) returns (front: seq<string>, back: seq<string>)
    ensures AllCodes(SpaceCode, front) && AllCodes(SpaceCode, back) && Bare(SpaceCode, TrimBytes(s))
    ensures s == Concat(front) + (TrimBytes(s) + Concat(back))
  {
    TrimBares(SpaceCode, s);
    front, back := TrimSplits(SpaceCode, s);
  }

  /** The UTF-8 bytes of one character. */
  function Utf8(c: char): string {
    var n := c as int;
    if n < 0x80 then [n as char]
    else if n < 0x800 then [(0xC0 + n / 0x40) as char, (0x80 + n % 0x40) as char]
    else if n < 0x1_0000 then
      [(0xE0 + n / 0x1000) as char, (0x80 + n / 0x40 % 0x40) as char, (0x80 + n % 0x40) as char]
    else
      [(0xF0 + n / 0x4_0000) as char, (0x80 + n / 0x1000 % 0x40) as char, (0x80 + n / 0x40 % 0x40) as char,
       (0x80 + n % 0x40) as char]
  }

  /** The encoding of a character is a code that is taken away exactly if the character is white space; */
  lemma SpaceCodeOf(c: char)
    ensures SpaceCode(Utf8(c)) <==> IsSpace(c)
  {
  }

  /** and every such code is the encoding of a character. */
  lemma SpaceCodeIs(w: string) returns (c: char)
    requires SpaceCode(w)
    ensures IsSpace(c) && w == Utf8(c)
  {
    if |w| == 1 {
      c := w[0];
    } else if |w| == 2 {
      c := w[1];
    } else if w[0] as int == 0xE1 {
      c := 0x1680 as char;
    } else if w[0] as int == 0xE3 {
      c := 0x3000 as char;
    } else if w[1] as int == 0x80 {
      c := (0x2000 + w[2] as int - 0x80) as char;
    } else {
      c := 0x205F as char;
    }
  }
}
