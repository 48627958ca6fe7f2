/** The framing loop of `collectSSEEvents` (drift_checks.go). Each character stands for one byte of the stream. */
module SseFraming {
  predicate BlankAt(s: string, i: int) {
    0 <= i && i + 1 < |s| && s[i] == '\n' && s[i + 1] == '\n'
  }

  ghost predicate NoBlank(s: string) {
    forall i :: !BlankAt(s, i)
  }

  /** `bytes.Index(s[from..], "\n\n")` as a position in `s`; -1 when absent. */
  function IndexBlank(s: string, from: nat := 0): (i: int)
    requires from <= |s|
    ensures i == -1 || from <= i
    ensures i == -1 ==> forall k | from <= k :: !BlankAt(s, k)
    ensures i != -1 ==> BlankAt(s, i) && forall k | from <= k < i :: !BlankAt(s, k)
    decreases |s| - from
  {
    if from == |s| then -1 else if BlankAt(s, from) then from else IndexBlank(s, from + 1)
  }

  /** The complete blocks of a stream and what is left after the last separator. */
  datatype Framing = Framing(blocks: seq<string>, rest: string)

  function Frames(s: string): Framing
    decreases |s|
  {
    var i := IndexBlank(s);
    if i == -1 then Framing([], s) else
      var f := Frames(s[i + 2..]);
      Framing([s[..i]] + f.blocks, f.rest)
  }

  function Unframe(f: Framing): string
    decreases |f.blocks|
  {
    if f.blocks == [] then f.rest else f.blocks[0] + "\n\n" + Unframe(f.(blocks := f.blocks[1..]))
  }

  /** Cutting at leftmost separators: no block, even with the first newline of its separator, holds a blank line. */
  ghost predicate Leftmost(f: Framing) {
    NoBlank(f.rest) && forall i | 0 <= i < |f.blocks| :: NoBlank(f.blocks[i] + "\n")
  }

  lemma FramesStep(s: string)
    requires IndexBlank(s) != -1
    ensures Frames(s) ==
            var f := Frames(s[IndexBlank(s) + 2..]); Framing([s[..IndexBlank(s)]] + f.blocks, f.rest)
  {
  }

  lemma FirstBlank(s: string, k: nat)
    requires BlankAt(s, k) && forall i | 0 <= i < k :: !BlankAt(s, i)
    ensures IndexBlank(s) == k
  {
  }

  lemma {:induction false} FramesAreLeftmost(s: string)
    ensures Unframe(Frames(s)) == s && Leftmost(Frames(s))
    decreases |s|
  {
    var i := IndexBlank(s);
    if i != -1 {
      CutAtFirstBlank(s);
      FramesAreLeftmost(s[i + 2..]);
      var f := Frames(s);
      assert f.blocks[1..] == Frames(s[i + 2..]).blocks;
      assert f.(blocks := f.blocks[1..]) == Frames(s[i + 2..]);
      assert s == s[..i] + "\n\n" + s[i + 2..];
      forall k | 0 <= k < |f.blocks| ensures NoBlank(f.blocks[k] + "\n") {
        assert k > 0 ==> f.blocks[k] == Frames(s[i + 2..]).blocks[k - 1];
      }
    } else {
      assert NoBlank(s);
    }
  }

  lemma {:induction false} LeftmostIsFrames(f: Framing)
    requires Leftmost(f)
    ensures Frames(Unframe(f)) == f
    decreases |f.blocks|
  {
    var s := Unframe(f);
    if f.blocks == [] {
      assert IndexBlank(s) == -1;
    } else {
      var b, g := f.blocks[0], f.(blocks := f.blocks[1..]);
      LeftmostIsFrames(g);
      FirstBlockEnds(b, Unframe(g));
      assert s[..|b|] == b && s[|b| + 2..] == Unframe(g);
      assert f.blocks == [b] + g.blocks;
    }
  }

  /** The framing is the only way to cut the stream at leftmost, non-overlapping blank lines. */
  lemma FramesExactly(s: string, f: Framing)
    ensures Frames(s) == f <==> Unframe(f) == s && Leftmost(f)
  {
    FramesAreLeftmost(s);
    if Unframe(f) == s && Leftmost(f) {
      LeftmostIsFrames(f);
    }
  }

  lemma CutAtFirstBlank(s: string)
    ensures IndexBlank(s) != -1 ==> NoBlank(s[..IndexBlank(s)] + "\n")
  {
    var i := IndexBlank(s);
    if i != -1 {
      var b := s[..i] + "\n";
      assert b == s[..i + 1];
      forall k ensures !BlankAt(b, k) {
        assert BlankAt(b, k) ==> BlankAt(s, k) && 0 <= k < i;
      }
    }
  }

  lemma FirstBlockEnds(b: string, rest: string)
    requires NoBlank(b + "\n")
    ensures IndexBlank(b + "\n\n" + rest) == |b|
  {
    var s := b + "\n\n" + rest;
    forall k | 0 <= k < |b| ensures !BlankAt(s, k) {
      assert s[..|b| + 1] == b + "\n";
      assert !BlankAt(b + "\n", k);
    }
    FirstBlank(s, |b|);
  }

  lemma OneBlock(block: string)
    requires NoBlank(block + "\n")
    ensures Frames(block + "\n\n") == Framing([block], "")
  {
    var f := Framing([block], "");
    assert Unframe(f) == block + "\n\n" + "" == block + "\n\n";
    LeftmostIsFrames(f);
  }

  /** Framing in two pieces: only the unfinished rest of the first piece matters to the second. */
  lemma {:induction false} FramesConcat(a: string, b: string)
    ensures Frames(a + b).blocks == Frames(a).blocks + Frames(Frames(a).rest + b).blocks
    ensures Frames(a + b).rest == Frames(Frames(a).rest + b).rest
    decreases |a|
  {
    var i := IndexBlank(a);
    if i != -1 {
      forall k | 0 <= k < i ensures !BlankAt(a + b, k) {
        assert !BlankAt(a, k);
      }
      FirstBlank(a + b, i);
      assert (a + b)[..i] == a[..i] && (a + b)[i + 2..] == a[i + 2..] + b;
      FramesConcat(a[i + 2..], b);
    }
  }

  lemma {:induction false} RestIsSuffix(s: string)
    ensures var rest := Frames(s).rest; |rest| <= |s| && rest == s[|s| - |rest|..] && NoBlank(rest)
    decreases |s|
  {
    var i := IndexBlank(s);
    if i != -1 {
      RestIsSuffix(s[i + 2..]);
    } else {
      assert s[0..] == s;
    }
  }
}
