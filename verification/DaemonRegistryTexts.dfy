/** The registry and the pidfile as texts: what their names, tokens and times mean for the stop decision. */
module DaemonRegistryTexts {
  import opened Outcomes
  import opened Texts
  import opened DaemonRegistry
  import Decimal

  ghost predicate NoSpace(s: string) {
    forall i | 0 <= i < |s| :: !IsSpace(s[i])
  }

  ghost predicate EndsToken(rest: string) {
    rest == "" || IsSpace(rest[0])
  }

  lemma {:induction false} TakeTokenIs(token: string, rest: string)
    requires NoSpace(token) && EndsToken(rest)
    ensures TakeToken(token + rest) == (token, rest)
  {
    if token == "" {
      assert token + rest == rest;
    } else {
      assert (token + rest)[1..] == token[1..] + rest;
      TakeTokenIs(token[1..], rest);
      assert [token[0]] + token[1..] == token;
    }
  }

  /** The next token of a text is what stands between its leading white space and the white space after it. */
  lemma NextTokenIs(space: string, token: string, rest: string)
    requires AllSpace(space) && NoSpace(token) && EndsToken(rest) && (token == "" ==> rest == "")
    ensures NextToken(space + (token + rest)) == (token, rest)
  {
    TrimLeftIs(space, token + rest);
    TakeTokenIs(token, rest);
  }

  // ---------- the pidfile ----------

  /** A pidfile text with a first token, a second one, and anything after it. */
  function PidText(space: string, first: string, gap: string, second: string, rest: string): string {
    space + (first + (gap + (second + rest)))
  }

  ghost predicate IsPidText(space: string, first: string, gap: string, second: string, rest: string) {
    && AllSpace(space) && NoSpace(first) && first != "" && AllSpace(gap) && (second != "" ==> gap != "")
    && NoSpace(second) && EndsToken(rest) && (second == "" ==> rest == "")
  }

  /** The pid is the first token, a number below 2^32; the creation time is the second, where there is one. */
  lemma PidfileExactly(
    parse: FloatParser, space: string, first: string, gap: string, second: string, rest: string)
    requires IsPidText(space, first, gap, second, rest)
    ensures var pid := Decimal.ParseUnsigned(first, 0x1_0000_0000);
      ReadPidfile(parse, Some(PidText(space, first, gap, second, rest))) ==
      if pid.None? then None else Some(DaemonPid(pid.value, if second == "" then None else parse(second)))
  {
    var tail := gap + (second + rest);
    assert EndsToken(tail) by {
      if second == "" {
        assert tail == gap;
      }
    }
    NextTokenIs(space, first, tail);
    NextTokenIs(gap, second, rest);
  }

  lemma {:induction false} SplitToken(s: string) returns (token: string, rest: string)
    ensures NoSpace(token) && EndsToken(rest) && s == token + rest && (s != "" && !IsSpace(s[0]) ==> token != "")
  {
    token, rest := "", s;
    if s != "" && !IsSpace(s[0]) {
      token, rest := SplitToken(s[1..]);
      token := [s[0]] + token;
      assert s == [s[0]] + s[1..];
    }
  }

  /** Every text is of that form, unless it is blank. */
  lemma PidTextSplits(text: string)
    returns (space: string, first: string, gap: string, second: string, rest: string)
    requires !AllSpace(text)
    ensures IsPidText(space, first, gap, second, rest) && text == PidText(space, first, gap, second, rest)
  {
    space := FrontSpace(text);
    var tail;
    assert TrimLeft(text) == "" ==> text == space;
    first, tail := SplitToken(TrimLeft(text));
    gap := FrontSpace(tail);
    second, rest := SplitToken(TrimLeft(tail));
    if second == "" {
      assert rest == TrimLeft(tail) == "";
    }
  }

  /** A blank pidfile, like a missing one, records nothing. */
  lemma BlankPidfile(parse: FloatParser, text: string)
    requires AllSpace(text)
    ensures ReadPidfile(parse, Some(text)) == None && ReadPidfile(parse, None) == None
  {
    NextTokenIs(text, "", "");
    assert text + ("" + "") == text;
  }

  /** A pidfile as the writer leaves it: the pid and a creation time. */
  lemma PidfileWithTime(parse: FloatParser, space: string, p: nat, gap: string, time: string, rest: string)
    requires p < 0x1_0000_0000 && gap != "" && time != ""
    requires IsPidText(space, Decimal.Text(p), gap, time, rest)
    ensures ReadPidfile(parse, Some(PidText(space, Decimal.Text(p), gap, time, rest))) ==
            Some(DaemonPid(p, parse(time)))
  {
    PidfileExactly(parse, space, Decimal.Text(p), gap, time, rest);
    Decimal.SpellingIsParsed("", "", p, 0x1_0000_0000);
    assert "" + ("" + Decimal.Text(p)) == Decimal.Text(p);
  }

  /** A pidfile with a pid alone. */
  lemma PidfileWithoutTime(parse: FloatParser, space: string, p: nat, gap: string)
    requires p < 0x1_0000_0000 && AllSpace(space) && AllSpace(gap)
    ensures ReadPidfile(parse, Some(PidText(space, Decimal.Text(p), gap, "", ""))) == Some(DaemonPid(p, None))
  {
    TextHasNoSpace(p);
    PidfileExactly(parse, space, Decimal.Text(p), gap, "", "");
    Decimal.SpellingIsParsed("", "", p, 0x1_0000_0000);
    assert "" + ("" + Decimal.Text(p)) == Decimal.Text(p);
  }

  lemma TextHasNoSpace(p: nat)
    ensures Decimal.Text(p) != "" && NoSpace(Decimal.Text(p))
  {
    Decimal.ValueOfText(p);
    assert forall i | 0 <= i < |Decimal.Text(p)| :: Decimal.IsDigit(Decimal.Text(p)[i]);
  }

  // ---------- the registry ----------

  /** A file stands for client `p` exactly if its name is the decimal text of `p` < 2^32, maybe behind zeros. */
  lemma ClientNamed(z: string, p: nat)
    requires Decimal.Zeros(z)
    ensures ClientOf(z + Decimal.Text(p)) == if p < 0x1_0000_0000 then Some(p) else None
  {
    Decimal.ValueOfText(p);
    Decimal.ValueAfterZeros(z, Decimal.Text(p));
  }

  lemma ClientsAreNamed(name: string) returns (z: string)
    requires ClientOf(name).Some?
    ensures Decimal.Zeros(z) && name == z + Decimal.Text(ClientOf(name).value) && ClientOf(name).value < 0x1_0000_0000
  {
    z := Decimal.DigitsAreText(name);
  }

  /** Within less than a second. */
  predicate WithinASecond(a: real, b: real) {
    a - b < 1.0 && b - a < 1.0
  }

  /**
   * When a registry file counts as a live client: its process exists, and where both creation times are known and the
   * recorded one is a number, they are within less than a second. Blank and garbled contents record no time.
   */
  lemma ClientCounts(h: Host, parse: FloatParser, z: string, p: nat, a: string, time: string, b: string)
    requires Decimal.Zeros(z) && p < 0x1_0000_0000 && AllSpace(a) && AllSpace(b) && Trimmed(time)
    requires z + Decimal.Text(p) in h.entries && h.entries[z + Decimal.Text(p)] == a + time + b
    ensures IsLive(h, parse, z + Decimal.Text(p)) <==>
            p in h.processes &&
            (time == "" || parse(time) == None || h.processes[p] == None ||
             (parse(time).value.Finite? && WithinASecond(h.processes[p].value, parse(time).value.value)))
  {
    ClientNamed(z, p);
    TrimSpaceIs(a, time, b);
  }

  // ---------- checks and runs ----------

  /** The daemon of the pidfile is stopped when nobody is attached and its creation time is near the recorded one. */
  lemma RecordedDaemonIsStopped(
    h: Host, parse: FloatParser, order: seq<string>, stop: Stop, fails: Failures,
    space: string, p: nat, gap: string, time: string, rest: string, recorded: real, current: real)
    requires Lists(order, h.entries) && !HasLiveClient(h, parse)
    requires p < 0x1_0000_0000 && gap != "" && time != "" && IsPidText(space, Decimal.Text(p), gap, time, rest)
    requires h.pidfile == Some(PidText(space, Decimal.Text(p), gap, time, rest))
    requires parse(time) == Some(Finite(recorded)) && p in h.processes && h.processes[p] == Some(current)
    ensures var c := Check(h, parse, order, stop, fails);
      if WithinASecond(current, recorded)
      then c.host.stops == h.stops + [p] && c.outcome == if stop.Clean? then StoppedCleanly(p) else StoppedByForce(p)
      else c.host.stops == h.stops && c.host.processes == h.processes && c.outcome == AlreadyGone
  {
    PidfileWithTime(parse, space, p, gap, time, rest);
    CheckDecides(h, parse, order, stop, fails);
  }

  /** A finite time a second or more from `created`. */
  predicate FarFrom(created: real, recorded: Option<Float>) {
    recorded.Some? && recorded.value.Finite? && !WithinASecond(created, recorded.value.value)
  }

  /** The text names another process than `p`, or `p` with a time a second or more from `created`. */
  ghost predicate NamesAnother(parse: FloatParser, text: string, p: nat, created: real) {
    exists space, q, gap, time, rest ::
      && q < 0x1_0000_0000 && gap != "" && time != "" && IsPidText(space, Decimal.Text(q), gap, time, rest)
      && text == PidText(space, Decimal.Text(q), gap, time, rest)
      && (q == p ==> FarFrom(created, parse(time)))
  }

  lemma AnotherIsRead(parse: FloatParser, text: string, p: nat, created: real)
    requires NamesAnother(parse, text, p, created)
    ensures var daemon := ReadPidfile(parse, Some(text));
      && daemon.Some?
      && (daemon.value.pid == p ==> daemon.value.createdAt.Some? && !Near(created, daemon.value.createdAt.value))
  {
    var space, q, gap, time, rest :|
      && q < 0x1_0000_0000 && gap != "" && time != "" && IsPidText(space, Decimal.Text(q), gap, time, rest)
      && text == PidText(space, Decimal.Text(q), gap, time, rest)
      && (q == p ==> FarFrom(created, parse(time)));
    PidfileWithTime(parse, space, q, gap, time, rest);
  }

  /** `p`, where it runs, was created at `created`, and the pidfile does not record it. */
  ghost predicate Bystander(h: Host, parse: FloatParser, p: nat, created: real) {
    && (p in h.processes ==> h.processes[p] == Some(created))
    && (h.pidfile.Some? ==> NamesAnother(parse, h.pidfile.value, p, created))
  }

  ghost predicate LeavesBystander(step: Step, parse: FloatParser, p: nat, created: real) {
    && (step.Spawn? && step.pid == p ==> step.createdAt == Some(created))
    && (step.WritePidfile? ==> NamesAnother(parse, step.text, p, created))
  }

  /**
   * A reused pid is safe, over every run: a process is never stopped as long as the pidfile texts of the run record
   * other processes, or its own pid with a creation time that is a second or more away from its own.
   */
  lemma {:induction false} BystanderIsNeverStopped(
    h: Host, parse: FloatParser, steps: seq<Step>, p: nat, created: real, i: nat)
    requires IsRun(h, parse, steps) && Bystander(h, parse, p, created)
    requires forall k | 0 <= k < |steps| :: LeavesBystander(steps[k], parse, p, created)
    requires |h.stops| <= i < |Run(h, parse, steps).stops|
    ensures Run(h, parse, steps).stops[i] != p
    decreases |steps|
  {
    var t := Next(h, parse, steps[0]);
    assert LeavesBystander(steps[0], parse, p, created);
    StepSparesBystander(h, parse, steps[0], p, created);
    StopsOnlyGrow(t, parse, steps[1..]);
    if |t.stops| <= i {
      BystanderIsNeverStopped(t, parse, steps[1..], p, created, i);
    }
  }

  lemma StepSparesBystander(h: Host, parse: FloatParser, step: Step, p: nat, created: real)
    requires Bystander(h, parse, p, created) && LeavesBystander(step, parse, p, created)
    requires step.RunCheck? ==> Lists(step.order, h.entries)
    ensures var t := Next(h, parse, step);
      && Bystander(t, parse, p, created) && h.stops <= t.stops
      && forall i | |h.stops| <= i < |t.stops| :: t.stops[i] != p
  {
    if step.RunCheck? {
      CheckDecides(h, parse, step.order, step.stop, step.fails);
      if h.pidfile.Some? {
        AnotherIsRead(parse, h.pidfile.value, p, created);
      }
    }
  }
}
