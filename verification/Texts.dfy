/** String operations shared by the models of the Go and Rust sources. */
module Texts {
  import opened Outcomes

  /** `str::strip_prefix`. */
  function StripPrefix(s: string, prefix: string): Option<string> {
    if prefix == "" then Some(s)
    else if s == "" || s[0] != prefix[0] then None
    else StripPrefix(s[1..], prefix[1..])
  }

  lemma {:induction false} StripPrefixIs(s: string, prefix: string)
    ensures StripPrefix(s, prefix) == if prefix <= s then Some(s[|prefix|..]) else None
  {
    if prefix != "" && s != "" && s[0] == prefix[0] {
      StripPrefixIs(s[1..], prefix[1..]);
      assert s == [s[0]] + s[1..] && prefix == [prefix[0]] + prefix[1..];
      assert prefix <= s ==> s[|prefix|..] == s[1..][|prefix| - 1..];
    }
  }

  /** The position of the first `c`, or the length when there is none. */
  function IndexOf(s: string, c: char): (i: nat)
    ensures i <= |s|
  {
    if s == "" || s[0] == c then 0 else 1 + IndexOf(s[1..], c)
  }

  lemma {:induction false} IndexOfIs(s: string, c: char, k: nat)
    requires k < |s| && s[k] == c && forall i | 0 <= i < k :: s[i] != c
    ensures IndexOf(s, c) == k
  {
    if k > 0 {
      IndexOfIs(s[1..], c, k - 1);
    }
  }

  lemma Regroup(a: string, b: string, c: string)
    ensures (a + b) + c == a + (b + c) && "" + c == c
  {
  }

  lemma UpToLast(s: string, c: char) returns (head: string)
    requires s != "" && s[|s| - 1] == c
    ensures s == head + [c]
  {
    head := s[..|s| - 1];
  }

  /** All parts, one after another. */
  function Concat(parts: seq<string>): string {
    if parts == [] then "" else parts[0] + Concat(parts[1..])
  }

  lemma ConcatCons(head: string, tail: seq<string>)
    ensures Concat([head] + tail) == head + Concat(tail)
  {
    assert ([head] + tail)[1..] == tail;
  }

  lemma {:induction false} ConcatSnoc(parts: seq<string>, last: string)
    ensures Concat(parts + [last]) == Concat(parts) + last
  {
    if parts == [] {
      assert [last][1..] == [] && parts + [last] == [last] && last + "" == last == "" + last;
    } else {
      ConcatSnoc(parts[1..], last);
      ConcatCons(parts[0], parts[1..] + [last]);
      assert parts + [last] == [parts[0]] + (parts[1..] + [last]);
      Regroup(parts[0], Concat(parts[1..]), last);
    }
  }

  /** `strings.Split(s, "\n")`: a newline starts a new line, any other character extends one. */
  function Lines(s: string): (lines: seq<string>)
    ensures lines != []
  {
    if s == "" then [""] else
      var rest := Lines(s[1..]);
      if s[0] == '\n' then [""] + rest else [[s[0]] + rest[0]] + rest[1..]
  }

  lemma {:induction false} OneLine(s: string)
    requires '\n' !in s
    ensures Lines(s) == [s]
  {
    if s != "" {
      OneLine(s[1..]);
      assert s == [s[0]] + s[1..];
    }
  }

  /** Text before the first newline is the first line. */
  lemma {:induction false} LinesCons(a: string, b: string)
    requires '\n' !in a
    ensures Lines(a + ("\n" + b)) == [a] + Lines(b)
  {
    var s := a + ("\n" + b);
    if a == "" {
      assert s[1..] == b;
    } else {
      assert s[1..] == a[1..] + ("\n" + b);
      LinesCons(a[1..], b);
      assert a == [a[0]] + a[1..];
    }
  }

  lemma {:induction false} LinesHaveNoNewline(s: string)
    ensures forall line | line in Lines(s) :: '\n' !in line
  {
    if s != "" {
      LinesHaveNoNewline(s[1..]);
      assert Lines(s[1..])[0] in Lines(s[1..]);
    }
  }

  function Join(lines: seq<string>): string
    requires lines != []
  {
    if |lines| == 1 then lines[0] else lines[0] + ("\n" + Join(lines[1..]))
  }

  /** Splitting loses nothing: the lines joined by newlines are the text. */
  lemma {:induction false} JoinLines(s: string)
    ensures Join(Lines(s)) == s
  {
    if s != "" {
      var rest, lines := Lines(s[1..]), Lines(s);
      JoinLines(s[1..]);
      assert s == [s[0]] + s[1..];
      if s[0] == '\n' {
        assert lines[1..] == rest;
        assert "" + ("\n" + s[1..]) == s;
      } else if |rest| == 1 {
        assert lines == [[s[0]] + rest[0]];
      } else {
        assert lines[1..] == rest[1..];
        assert ([s[0]] + rest[0]) + ("\n" + Join(rest[1..])) == [s[0]] + (rest[0] + ("\n" + Join(rest[1..])));
      }
    }
  }

  /** Text after the last newline is the last line. */
  lemma {:induction false} LinesSnoc(a: string, b: string)
    requires '\n' !in b
    ensures Lines(a + ("\n" + b)) == Lines(a) + [b]
  {
    var s := a + ("\n" + b);
    if a == "" {
      assert s[1..] == b;
      OneLine(b);
    } else {
      assert s[1..] == a[1..] + ("\n" + b);
      LinesSnoc(a[1..], b);
    }
  }

  /** The White_Space property, which `unicode.IsSpace` and `char::is_whitespace` share. */
  predicate IsSpace(c: char) {
    var n := c as int;
    9 <= n <= 13 || n == 0x20 || n == 0x85 || n == 0xA0 || n == 0x1680 || 0x2000 <= n <= 0x200A ||
    n == 0x2028 || n == 0x2029 || n == 0x202F || n == 0x205F || n == 0x3000
  }

  function TrimLeft(s: string): string {
    if s != "" && IsSpace(s[0]) then TrimLeft(s[1..]) else s
  }

  function TrimRight(s: string): string {
    if s != "" && IsSpace(s[|s| - 1]) then TrimRight(s[..|s| - 1]) else s
  }

  /** `strings.TrimSpace` and `str::trim`. */
  function TrimSpace(s: string): string {
    TrimRight(TrimLeft(s))
  }

  /** The 25 characters with that property. */
  lemma IsSpaceExactly(c: char)
    ensures IsSpace(c) <==>
            c as int in {9, 10, 11, 12, 13, 32, 133, 160, 5760, 8192, 8193, 8194, 8195, 8196, 8197, 8198, 8199, 8200,
                         8201, 8202, 8232, 8233, 8239, 8287, 12288}
  {
  }

  ghost predicate AllSpace(s: string) {
    forall i | 0 <= i < |s| :: IsSpace(s[i])
  }

  /** No white space at either end. */
  ghost predicate Trimmed(s: string) {
    s == "" || (!IsSpace(s[0]) && !IsSpace(s[|s| - 1]))
  }

  lemma {:induction false} TrimLeftIs(a: string, t: string)
    requires AllSpace(a) && (t == "" || !IsSpace(t[0]))
    ensures TrimLeft(a + t) == t
  {
    if a == "" {
      assert a + t == t;
    } else {
      assert (a + t)[1..] == a[1..] + t;
      TrimLeftIs(a[1..], t);
    }
  }

  lemma {:induction false} TrimRightIs(t: string, b: string)
    requires AllSpace(b) && (t == "" || !IsSpace(t[|t| - 1]))
    ensures TrimRight(t + b) == t
  {
    if b == "" {
      assert t + b == t;
    } else {
      assert (t + b)[..|t + b| - 1] == t + b[..|b| - 1];
      TrimRightIs(t, b[..|b| - 1]);
    }
  }

  /** Trimming takes away exactly the white space around a text. */
  lemma TrimSpaceIs(a: string, t: string, b: string)
    requires AllSpace(a) && AllSpace(b) && Trimmed(t)
    ensures TrimSpace(a + t + b) == t
  {
    if t == "" {
      TrimLeftIs(a + b, "");
      assert a + t + b == (a + b) + "";
    } else {
      assert a + t + b == a + (t + b);
      TrimLeftIs(a, t + b);
      TrimRightIs(t, b);
    }
  }

  /** Every text is a trimmed one with white space around it. */
  lemma {:induction false} TrimSpaceSplits(s: string) returns (a: string, b: string)
    ensures AllSpace(a) && AllSpace(b) && Trimmed(TrimSpace(s)) && s == a + TrimSpace(s) + b
  {
    var t := TrimLeft(s);
    a := FrontSpace(s);
    b := BackSpace(t);
    TrimRightKeepsFront(t);
    assert s == a + (TrimSpace(s) + b);
  }

  lemma {:induction false} FrontSpace(s: string) returns (a: string)
    ensures AllSpace(a) && s == a + TrimLeft(s) && (TrimLeft(s) == "" || !IsSpace(TrimLeft(s)[0]))
  {
    a := "";
    if s != "" && IsSpace(s[0]) {
      var rest := FrontSpace(s[1..]);
      a := [s[0]] + rest;
      assert s == [s[0]] + (rest + TrimLeft(s[1..]));
    }
  }

  lemma {:induction false} BackSpace(s: string) returns (b: string)
    ensures AllSpace(b) && s == TrimRight(s) + b
    ensures TrimRight(s) == "" || !IsSpace(TrimRight(s)[|TrimRight(s)| - 1])
  {
    b := "";
    if s != "" && IsSpace(s[|s| - 1]) {
      var rest := BackSpace(s[..|s| - 1]);
      b := rest + [s[|s| - 1]];
      assert s == (TrimRight(s[..|s| - 1]) + rest) + [s[|s| - 1]];
    }
  }

  lemma {:induction false} TrimRightKeepsFront(s: string)
    ensures TrimRight(s) != "" ==> TrimRight(s)[0] == s[0]
  {
    if s != "" && IsSpace(s[|s| - 1]) {
      TrimRightKeepsFront(s[..|s| - 1]);
    }
  }

  /** Trimming leaves nothing exactly of a text that is all white space. */
  lemma TrimSpaceEmptyExactly(s: string)
    ensures TrimSpace(s) == "" <==> AllSpace(s)
  {
    if AllSpace(s) {
      TrimSpaceIs(s, "", "");
      assert s + "" + "" == s;
    } else {
      var a, b := TrimSpaceSplits(s);
    }
  }
}
