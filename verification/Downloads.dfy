/** `available_path` of downloads.rs: the first free name in a directory. A filename is one path component. */
module Downloads {
  import opened Outcomes
  import Decimal

  /** The position of the last dot; -1 when there is none. */
  function LastDot(s: string): (i: int)
    ensures -1 <= i < |s|
  {
    if s == "" then -1 else if s[|s| - 1] == '.' then |s| - 1 else LastDot(s[..|s| - 1])
  }

  /** `Path::file_stem`, or the whole name; a leading dot does not start an extension. */
  function Stem(filename: string): string {
    if filename == ".." || LastDot(filename) <= 0 then filename else filename[..LastDot(filename)]
  }

  function Extension(filename: string): Option<string> {
    if filename == ".." || LastDot(filename) <= 0 then None else Some(filename[LastDot(filename) + 1..])
  }

  /** The names tried, in order: the name itself, then with (1), (2), ... before the extension. */
  function Candidate(filename: string, index: nat): string {
    if index == 0 then filename else
      Stem(filename) + (" (" + Decimal.Text(index) + ")") + Suffix(filename)
  }

  function Suffix(filename: string): string {
    match Extension(filename)
    case Some(extension) => "." + extension
    case None => ""
  }

  lemma {:induction false} LastDotIsDot(s: string)
    ensures LastDot(s) >= 0 ==> s[LastDot(s)] == '.'
  {
    if s != "" && s[|s| - 1] != '.' {
      LastDotIsDot(s[..|s| - 1]);
    }
  }

  lemma {:induction false} LastDotIs(a: string, b: string)
    requires '.' !in b
    ensures LastDot(b) == -1 && LastDot(a + ("." + b)) == |a|
    decreases |b|
  {
    var s := a + ("." + b);
    if b == "" {
      assert s[|s| - 1] == '.';
    } else {
      assert s[|s| - 1] == b[|b| - 1] && s[..|s| - 1] == a + ("." + b[..|b| - 1]);
      LastDotIs(a, b[..|b| - 1]);
    }
  }

  /** A name with an extension: the counter goes before the last dot. */
  lemma WithExtension(a: string, b: string, index: nat)
    requires a != "" && '.' !in b && !(a == "." && b == "") && index > 0
    ensures Candidate(a + ("." + b), 0) == a + ("." + b)
    ensures Candidate(a + ("." + b), index) == a + (" (" + Decimal.Text(index) + ")") + ("." + b)
  {
    var name := a + ("." + b);
    LastDotIs(a, b);
    assert name[0] == a[0] && (|a| == 1 ==> a == [a[0]]);
    assert name[..|a|] == a && name[|a| + 1..] == b;
  }

  /** A name without one: no dot at all, or only a leading one. */
  lemma WithoutExtension(b: string, index: nat)
    requires '.' !in b && index > 0
    ensures Candidate(b, index) == b + (" (" + Decimal.Text(index) + ")")
    ensures Candidate("." + b, index) == "." + b + (" (" + Decimal.Text(index) + ")")
  {
    LastDotIs("", b);
    assert "" + ("." + b) == "." + b;
    assert forall s: string :: s + "" == s;
  }

  lemma StemAndSuffix(filename: string)
    ensures Stem(filename) + Suffix(filename) == filename
  {
    LastDotIsDot(filename);
  }

  lemma MiddlesAgree(a: string, x: string, y: string, b: string)
    requires a + (" (" + x + ")") + b == a + (" (" + y + ")") + b
    ensures x == y
  {
    var s, t := a + (" (" + x + ")") + b, a + (" (" + y + ")") + b;
    assert |x| == |y|;
    assert x == s[|a| + 2..|a| + 2 + |x|] && y == t[|a| + 2..|a| + 2 + |y|];
  }

  /** Candidates are pairwise distinct. */
  lemma CandidatesDiffer(filename: string, i: nat, j: nat)
    ensures Candidate(filename, i) == Candidate(filename, j) <==> i == j
  {
    StemAndSuffix(filename);
    assert |filename| == |Stem(filename)| + |Suffix(filename)|;
    if i > 0 && j > 0 && Candidate(filename, i) == Candidate(filename, j) {
      MiddlesAgree(Stem(filename), Decimal.Text(i), Decimal.Text(j), Suffix(filename));
      Decimal.TextInjective(i, j);
    }
  }

  /**
   * The counting loop. It ends on every finite directory, since each miss uses up one existing entry, and returns
   * the first candidate that is not there; the index never exceeds the number of entries.
   */
  method AvailablePath(existing: set<string>, filename: string) returns (candidate: string, index: nat)
    ensures candidate == Candidate(filename, index) && candidate !in existing
    ensures forall i: nat | i < index :: Candidate(filename, i) in existing
    ensures index <= |existing|
  {
    candidate, index := filename, 0;
    ghost var missed: set<string> := {};
    while candidate in existing
      invariant candidate == Candidate(filename, index)
      invariant missed <= existing && |missed| == index
      invariant forall i: nat | i < index :: Candidate(filename, i) in missed
      invariant forall name | name in missed :: exists i: nat :: i < index && name == Candidate(filename, i)
      decreases existing - missed
    {
      if candidate in missed {
        var i: nat :| i < index && candidate == Candidate(filename, i);
        CandidatesDiffer(filename, i, index);
      }
      assert candidate !in missed;
      missed := missed + {candidate};
      index := index + 1;
      candidate := Stem(filename) + (" (" + Decimal.Text(index) + ")") + Suffix(filename);
      SubsetSize(missed, existing);
    }
    SubsetSize(missed, existing);
  }

  lemma {:induction false} SubsetSize(a: set<string>, b: set<string>)
    requires a <= b
    ensures |a| <= |b|
  {
    if a != {} {
      var x :| x in a;
      SubsetSize(a - {x}, b - {x});
    }
  }
}
