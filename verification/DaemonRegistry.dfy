/**
 * `prune_and_list_live_clients` and `read_daemon_pidfile` (clio_core_registry.rs) and `decide_and_act`
 * (clio_core_daemon.rs) over a process table. Checks are atomic; file removals may fail, which the source ignores.
 */
module DaemonRegistry {
  import opened Outcomes
  import opened Texts
  import Decimal

  const U32_LIMIT: nat := 0x1_0000_0000

  /** A recorded creation time as `str::parse::<f64>` reads it; NaN and the infinities are near no time. */
  datatype Float = Finite(value: real) | NotFinite

  type FloatParser = string -> Option<Float>

  /** Processes by id, with their creation time where it can be read. */
  type Processes = map<nat, Option<real>>

  /** Registry files by name, the pidfile's text, the processes, and the stops issued so far. */
  datatype Host = Host(entries: map<string, string>, pidfile: Option<string>, processes: Processes, stops: seq<nat>)

  datatype DaemonPid = DaemonPid(pid: nat, createdAt: Option<Float>)

  /** How a stop went: confirmed clean, or a hard kill that took effect or not. */
  datatype Stop = Clean | Forced(gone: bool)

  datatype DaemonOutcome =
    | AlreadyGone | LiveClientsPresent(pids: seq<nat>) | StoppedCleanly(pid: nat) | StoppedByForce(pid: nat)

  predicate Near(current: real, recorded: Float) {
    recorded.Finite? && -1.0 < current - recorded.value < 1.0
  }

  /** Existence, and a creation time within a second of the recorded one where both are known. */
  predicate PidIsAlive(processes: Processes, pid: nat, recorded: Option<Float>) {
    pid in processes && (processes[pid].Some? && recorded.Some? ==> Near(processes[pid].value, recorded.value))
  }

  /** The client a registry file stands for; other names are foreign. */
  function ClientOf(name: string): Option<nat> {
    if name != "" && Decimal.AllDigits(name) && Decimal.Value(name) < U32_LIMIT then Some(Decimal.Value(name)) else None
  }

  /** `parse` stands for `str::parse::<f64>`. */
  function RecordedTime(parse: FloatParser, content: string): Option<Float> {
    if TrimSpace(content) == "" then None else parse(TrimSpace(content))
  }

  predicate IsLive(h: Host, parse: FloatParser, name: string) {
    && name in h.entries && ClientOf(name).Some?
    && PidIsAlive(h.processes, ClientOf(name).value, RecordedTime(parse, h.entries[name]))
  }

  predicate IsDead(h: Host, parse: FloatParser, name: string) {
    name in h.entries && ClientOf(name).Some? && !IsLive(h, parse, name)
  }

  // ---------- pidfile ----------

  function NextToken(s: string): (string, string) {
    var t := TrimLeft(s);
    TakeToken(t)
  }

  function TakeToken(t: string): (string, string) {
    if t == "" || IsSpace(t[0]) then ("", t) else
      var r := TakeToken(t[1..]);
      ([t[0]] + r.0, r.1)
  }

  function ReadPidfile(parse: FloatParser, pidfile: Option<string>): Option<DaemonPid> {
    if pidfile.None? then None else
      var first := NextToken(pidfile.value);
      var second := NextToken(first.1);
      var pid := Decimal.ParseUnsigned(first.0, U32_LIMIT);
      if pid.None? then None else Some(DaemonPid(pid.value, if second.0 == "" then None else parse(second.0)))
  }

  // ---------- the check ----------

  /** A directory listing: every entry once, in some order. */
  ghost predicate Lists(order: seq<string>, entries: map<string, string>) {
    && (forall i, j | 0 <= i < j < |order| :: order[i] != order[j])
    && (forall name :: name in order <==> name in entries)
  }

  function LivePids(h: Host, parse: FloatParser, order: seq<string>): seq<nat> {
    if order == [] then [] else
      var init, last := LivePids(h, parse, order[..|order| - 1]), order[|order| - 1];
      if IsLive(h, parse, last) then init + [ClientOf(last).value] else init
  }

  /** Which removals of a check fail: those of the `stuck` registry files, and that of the pidfile. */
  datatype Failures = Failures(stuck: set<string>, pidfile: bool)

  function Pruned(h: Host, parse: FloatParser, stuck: set<string>): Host {
    h.(entries := map name | name in h.entries && !(IsDead(h, parse, name) && name !in stuck) :: h.entries[name])
  }

  function WithoutPidfile(h: Host, fails: bool): Host {
    if fails then h else h.(pidfile := None)
  }

  datatype Checked = Checked(host: Host, outcome: DaemonOutcome)

  function Check(
    h: Host, parse: FloatParser, order: seq<string>, stop: Stop, fails: Failures): Checked
  {
    var live, pruned := LivePids(h, parse, order), Pruned(h, parse, fails.stuck);
    if live != [] then Checked(pruned, LiveClientsPresent(live)) else
      match ReadPidfile(parse, h.pidfile)
      case None => Checked(pruned, AlreadyGone)
      case Some(daemon) =>
        if !PidIsAlive(h.processes, daemon.pid, daemon.createdAt)
        then Checked(WithoutPidfile(pruned, fails.pidfile), AlreadyGone)
        else StopDaemon(pruned, daemon.pid, stop, fails.pidfile)
  }

  function StopDaemon(h: Host, pid: nat, stop: Stop, fails: bool): Checked {
    var processes := if stop.Clean? || stop.gone then h.processes - {pid} else h.processes;
    Checked(WithoutPidfile(h.(processes := processes, stops := h.stops + [pid]), fails),
            if stop.Clean? then StoppedCleanly(pid) else StoppedByForce(pid))
  }

  ghost predicate HasLiveClient(h: Host, parse: FloatParser) {
    exists name | name in h.entries :: IsLive(h, parse, name)
  }

  lemma {:induction false} LivePidsAreLive(h: Host, parse: FloatParser, order: seq<string>)
    ensures forall pid :: pid in LivePids(h, parse, order) <==>
              exists i | 0 <= i < |order| :: IsLive(h, parse, order[i]) && ClientOf(order[i]) == Some(pid)
  {
    if order != [] {
      var init, last := order[..|order| - 1], order[|order| - 1];
      LivePidsAreLive(h, parse, init);
      forall pid ensures pid in LivePids(h, parse, order) <==>
                exists i | 0 <= i < |order| :: IsLive(h, parse, order[i]) && ClientOf(order[i]) == Some(pid)
      {
        if pid in LivePids(h, parse, init) {
          var i :| 0 <= i < |init| && IsLive(h, parse, init[i]) && ClientOf(init[i]) == Some(pid);
          assert order[i] == init[i];
        }
        if i :| 0 <= i < |order| && IsLive(h, parse, order[i]) && ClientOf(order[i]) == Some(pid) {
          assert i < |init| ==> init[i] == order[i];
        }
      }
    }
  }

  lemma LivePidsSnoc(h: Host, parse: FloatParser, order: seq<string>, name: string)
    ensures LivePids(h, parse, order + [name]) ==
            LivePids(h, parse, order) + if IsLive(h, parse, name) then [ClientOf(name).value] else []
  {
    assert (order + [name])[..|order|] == order;
  }

  ghost function Removed(h: Host, parse: FloatParser, names: seq<string>, stuck: set<string>): set<string> {
    set name | name in names && IsDead(h, parse, name) && name !in stuck
  }

  lemma RemovedSnoc(h: Host, parse: FloatParser, names: seq<string>, name: string, stuck: set<string>)
    ensures Removed(h, parse, names + [name], stuck) ==
            Removed(h, parse, names, stuck) + if IsDead(h, parse, name) && name !in stuck then {name} else {}
  {
  }

  lemma PrunedIsRemoved(h: Host, parse: FloatParser, order: seq<string>, stuck: set<string>)
    requires Lists(order, h.entries)
    ensures Pruned(h, parse, stuck).entries == h.entries - Removed(h, parse, order, stuck)
  {
  }

  /** What entry `i` of a listing adds to the live clients and the removed files. */
  lemma OneMoreEntry(h: Host, parse: FloatParser, order: seq<string>, i: nat, stuck: set<string>)
    requires Lists(order, h.entries) && i < |order|
    ensures order[i] in h.entries && order[i] !in Removed(h, parse, order[..i], stuck)
    ensures LivePids(h, parse, order[..i + 1]) ==
            LivePids(h, parse, order[..i]) + if IsLive(h, parse, order[i]) then [ClientOf(order[i]).value] else []
    ensures Removed(h, parse, order[..i + 1], stuck) ==
            Removed(h, parse, order[..i], stuck) +
            if IsDead(h, parse, order[i]) && order[i] !in stuck then {order[i]} else {}
  {
    assert order[..i + 1] == order[..i] + [order[i]];
    assert order[i] in order && order[i] !in order[..i];
    LivePidsSnoc(h, parse, order[..i], order[i]);
    RemovedSnoc(h, parse, order[..i], order[i], stuck);
  }

  /** A complete listing finds a live client exactly when there is one. */
  lemma ListingFindsLive(h: Host, parse: FloatParser, order: seq<string>)
    requires Lists(order, h.entries)
    ensures LivePids(h, parse, order) != [] <==> HasLiveClient(h, parse)
  {
    LivePidsAreLive(h, parse, order);
    if name :| name in h.entries && IsLive(h, parse, name) {
      var i :| 0 <= i < |order| && order[i] == name;
      assert ClientOf(order[i]).value in LivePids(h, parse, order);
    }
    if LivePids(h, parse, order) != [] {
      assert LivePids(h, parse, order)[0] in LivePids(h, parse, order);
    }
  }

  /**
   * The decision, for every host: a stop is issued exactly when no live client is registered and the recorded
   * process passes the liveness check; then it goes to that process and the pidfile goes. A live client leaves the
   * processes and the pidfile alone. Pruning removes exactly the dead clients whose removal works, never a foreign
   * name.
   */
  lemma CheckDecides(h: Host, parse: FloatParser, order: seq<string>, stop: Stop, fails: Failures)
    requires Lists(order, h.entries)
    ensures var c := Check(h, parse, order, stop, fails);
      var daemon := ReadPidfile(parse, h.pidfile);
      var due := !HasLiveClient(h, parse) && daemon.Some? &&
                 PidIsAlive(h.processes, daemon.value.pid, daemon.value.createdAt);
      && (c.host.stops == if due then h.stops + [daemon.value.pid] else h.stops)
      && (c.outcome.StoppedCleanly? || c.outcome.StoppedByForce? <==> due)
      && (due ==> c.outcome.pid == daemon.value.pid)
      && (c.outcome.LiveClientsPresent? <==> HasLiveClient(h, parse))
      && (HasLiveClient(h, parse) ==> c.outcome == LiveClientsPresent(LivePids(h, parse, order)))
      && (due ==> c.outcome ==
                    if stop == Clean then StoppedCleanly(daemon.value.pid) else StoppedByForce(daemon.value.pid))
      && (due ==> c.host.processes ==
                    if stop == Forced(false) then h.processes else h.processes - {daemon.value.pid})
      && (c.host.pidfile ==
            if HasLiveClient(h, parse) || daemon.None? || fails.pidfile then h.pidfile else None)
      && (!due ==> c.host.processes == h.processes)
      && (forall name ::
            name in c.host.entries <==> name in h.entries && !(IsDead(h, parse, name) && name !in fails.stuck))
      && (forall name | name in c.host.entries :: c.host.entries[name] == h.entries[name])
  {
    ListingFindsLive(h, parse, order);
  }

  // ---------- runs ----------

  datatype Step =
    | Register(name: string, content: string)
    | Unregister(name: string)
    | Spawn(pid: nat, createdAt: Option<real>)
    | Exit(pid: nat)
    | WritePidfile(text: string)
    | RunCheck(order: seq<string>, stop: Stop, fails: Failures)

  function Next(h: Host, parse: FloatParser, step: Step): Host {
    match step
    case Register(name, content) => h.(entries := h.entries[name := content])
    case Unregister(name) => h.(entries := h.entries - {name})
    case Spawn(pid, createdAt) => h.(processes := h.processes[pid := createdAt])
    case Exit(pid) => h.(processes := h.processes - {pid})
    case WritePidfile(text) => h.(pidfile := Some(text))
    case RunCheck(order, stop, fails) => Check(h, parse, order, stop, fails).host
  }

  ghost predicate IsRun(h: Host, parse: FloatParser, steps: seq<Step>)
    decreases |steps|
  {
    steps == [] ||
    ((steps[0].RunCheck? ==> Lists(steps[0].order, h.entries)) && IsRun(Next(h, parse, steps[0]), parse, steps[1..]))
  }

  function Run(h: Host, parse: FloatParser, steps: seq<Step>): Host
    decreases |steps|
  {
    if steps == [] then h else Run(Next(h, parse, steps[0]), parse, steps[1..])
  }

  /** The host passed a check that had cause to stop `pid`: nobody attached, and the recorded process alive. */
  ghost predicate HadCause(h: Host, parse: FloatParser, pid: nat) {
    var daemon := ReadPidfile(parse, h.pidfile);
    !HasLiveClient(h, parse) && daemon.Some? && daemon.value.pid == pid &&
    PidIsAlive(h.processes, pid, daemon.value.createdAt)
  }

  /** Over every run, every stop was issued at a check that had cause for it. */
  lemma {:induction false} StopsHaveCause(h: Host, parse: FloatParser, steps: seq<Step>, i: nat)
    returns (k: nat)
    requires IsRun(h, parse, steps) && |h.stops| <= i < |Run(h, parse, steps).stops|
    ensures k < |steps| && steps[k].RunCheck?
    ensures HadCause(Run(h, parse, steps[..k]), parse, Run(h, parse, steps).stops[i])
    ensures h.stops <= Run(h, parse, steps).stops
    decreases |steps|
  {
    var t := Next(h, parse, steps[0]);
    if steps[0].RunCheck? {
      CheckDecides(h, parse, steps[0].order, steps[0].stop, steps[0].fails);
    }
    StopsOnlyGrow(t, parse, steps[1..]);
    if i < |t.stops| {
      k := 0;
      assert steps[..0] == [];
    } else {
      var j := StopsHaveCause(t, parse, steps[1..], i);
      k := j + 1;
      assert steps[..k][0] == steps[0] && steps[..k][1..] == steps[1..][..j];
    }
  }

  lemma {:induction false} StopsOnlyGrow(h: Host, parse: FloatParser, steps: seq<Step>)
    ensures h.stops <= Run(h, parse, steps).stops
    decreases |steps|
  {
    if steps != [] {
      StopsOnlyGrow(Next(h, parse, steps[0]), parse, steps[1..]);
    }
  }

  /** Nobody registered as a client and no daemon recorded. */
  ghost predicate Quiet(h: Host, parse: FloatParser) {
    (forall name | name in h.entries :: ClientOf(name).None?) && ReadPidfile(parse, h.pidfile).None?
  }

  lemma QuietCheck(h: Host, parse: FloatParser, order: seq<string>, stop: Stop, fails: Failures)
    requires Quiet(h, parse) && Lists(order, h.entries)
    ensures Check(h, parse, order, stop, fails) == Checked(h, AlreadyGone)
  {
    ListingFindsLive(h, parse, order);
    assert Pruned(h, parse, fails.stuck).entries == h.entries;
  }

  /**
   * A check that finds no live client leaves the host quiet if and only if no dead client's file was stuck and the
   * pidfile, if it named a process, could be removed.
   */
  lemma IdleCheckQuiets(h: Host, parse: FloatParser, order: seq<string>, stop: Stop, fails: Failures)
    requires Lists(order, h.entries) && !Check(h, parse, order, stop, fails).outcome.LiveClientsPresent?
    ensures Quiet(Check(h, parse, order, stop, fails).host, parse) <==>
            (forall name | name in fails.stuck :: !IsDead(h, parse, name)) &&
            (fails.pidfile ==> ReadPidfile(parse, h.pidfile).None?)
  {
    CheckDecides(h, parse, order, stop, fails);
    var c := Check(h, parse, order, stop, fails).host;
    assert ReadPidfile(parse, None).None?;
    forall name | name in h.entries && ClientOf(name).Some? ensures IsDead(h, parse, name) {
      assert !IsLive(h, parse, name);
    }
    if forall name | name in fails.stuck :: !IsDead(h, parse, name) {
      assert forall name | name in c.entries :: ClientOf(name).None?;
    } else {
      var name :| name in fails.stuck && IsDead(h, parse, name);
      assert name in c.entries;
    }
  }

  /**
   * After a check that left the host quiet, and any steps but a registration or a new pidfile, every further
   * check reports the daemon already gone and changes nothing.
   */
  lemma {:induction false} StaysGone(
    h: Host, parse: FloatParser, steps: seq<Step>, order: seq<string>, stop: Stop, fails: Failures)
    requires Quiet(h, parse) && IsRun(h, parse, steps)
    requires forall i | 0 <= i < |steps| :: !steps[i].Register? && !steps[i].WritePidfile?
    requires Lists(order, Run(h, parse, steps).entries)
    ensures Check(Run(h, parse, steps), parse, order, stop, fails)
            == Checked(Run(h, parse, steps), AlreadyGone)
    decreases |steps|
  {
    if steps == [] {
      QuietCheck(h, parse, order, stop, fails);
    } else {
      var t := Next(h, parse, steps[0]);
      assert !steps[0].Register? && !steps[0].WritePidfile?;
      if steps[0].RunCheck? {
        QuietCheck(h, parse, steps[0].order, steps[0].stop, steps[0].fails);
      }
      StaysGone(t, parse, steps[1..], order, stop, fails);
    }
  }

  /**
   * Quiet is exact: a host is quiet if and only if no process that may turn up makes the next check report anything
   * but AlreadyGone.
   */
  lemma QuietExactly(h: Host, parse: FloatParser, order: seq<string>, stop: Stop, fails: Failures)
    requires Lists(order, h.entries)
    ensures Quiet(h, parse) <==> forall pid, createdAt ::
              Check(Next(h, parse, Spawn(pid, createdAt)), parse, order, stop, fails).outcome == AlreadyGone
  {
    if Quiet(h, parse) {
      forall pid, createdAt
        ensures Check(Next(h, parse, Spawn(pid, createdAt)), parse, order, stop, fails).outcome == AlreadyGone
      {
        QuietCheck(Next(h, parse, Spawn(pid, createdAt)), parse, order, stop, fails);
      }
    } else {
      var pid := Reviver(h, parse);
      CheckDecides(Next(h, parse, Spawn(pid, None)), parse, order, stop, fails);
    }
  }

  /** The process that a registered client or the pidfile of a host that is not quiet would take for its own. */
  lemma Reviver(h: Host, parse: FloatParser) returns (pid: nat)
    requires !Quiet(h, parse)
    ensures var t := Next(h, parse, Spawn(pid, None)); HasLiveClient(t, parse) || HadCause(t, parse, pid)
  {
    if name :| name in h.entries && ClientOf(name).Some? {
      pid := ClientOf(name).value;
      assert IsLive(Next(h, parse, Spawn(pid, None)), parse, name);
    } else {
      pid := ReadPidfile(parse, h.pidfile).value.pid;
    }
  }

  /**
   * After a check that found no live client, the very next one reports AlreadyGone if and only if it was not the case
   * that a forced stop left its process running and the pidfile could not be removed.
   */
  lemma NextCheckIsGone(
    h: Host, parse: FloatParser, order: seq<string>, stop: Stop, fails: Failures,
    order': seq<string>, stop': Stop, fails': Failures)
    requires Lists(order, h.entries) && !Check(h, parse, order, stop, fails).outcome.LiveClientsPresent?
    requires Lists(order', Check(h, parse, order, stop, fails).host.entries)
    ensures var c := Check(h, parse, order, stop, fails);
      Check(c.host, parse, order', stop', fails').outcome == AlreadyGone <==>
      !(c.outcome.StoppedByForce? && stop == Forced(false) && fails.pidfile)
  {
    var c := Check(h, parse, order, stop, fails);
    CheckDecides(h, parse, order, stop, fails);
    CheckDecides(c.host, parse, order', stop', fails');
    forall name | name in c.host.entries ensures !IsLive(c.host, parse, name) {
      assert !IsLive(h, parse, name);
    }
  }

  // ---------- the state directory ----------

  class StateDir {
    const parse: FloatParser
    var entries: map<string, string>
    var pidfile: Option<string>
    var processes: Processes
    var stops: seq<nat>

    constructor (parse: FloatParser, h: Host)
      ensures this.parse == parse && State() == h
    {
      this.parse := parse;
      entries, pidfile, processes, stops := h.entries, h.pidfile, h.processes, h.stops;
    }

    function State(): Host
      reads this
    {
      Host(entries, pidfile, processes, stops)
    }

    method PruneAndListLiveClients(order: seq<string>, stuck: set<string>) returns (live: seq<nat>)
      requires Lists(order, entries)
      modifies this`entries
      ensures State() == Pruned(old(State()), parse, stuck) && live == LivePids(old(State()), parse, order)
    {
      live := [];
      ghost var h := State();
      for i := 0 to |order|
        invariant live == LivePids(h, parse, order[..i])
        invariant entries == h.entries - Removed(h, parse, order[..i], stuck)
      {
        var name := order[i];
        OneMoreEntry(h, parse, order, i, stuck);
        var pid := ClientOf(name);
        if pid.None? {
          continue;
        }
        if PidIsAlive(processes, pid.value, RecordedTime(parse, entries[name])) {
          live := live + [pid.value];
        } else if name !in stuck {
          entries := entries - {name};
        }
      }
      assert order[..|order|] == order;
      PrunedIsRemoved(h, parse, order, stuck);
    }

    method RemovePidfile(fails: bool)
      modifies this`pidfile
      ensures State() == WithoutPidfile(old(State()), fails)
    {
      if !fails {
        pidfile := None;
      }
    }

    method DecideAndAct(order: seq<string>, stop: Stop, fails: Failures) returns (outcome: DaemonOutcome)
      requires Lists(order, entries)
      modifies this
      ensures Checked(State(), outcome) == Check(old(State()), parse, order, stop, fails)
    {
      var live := PruneAndListLiveClients(order, fails.stuck);
      if live != [] {
        return LiveClientsPresent(live);
      }
      var daemon := ReadPidfile(parse, pidfile);
      if daemon.None? {
        return AlreadyGone;
      }
      if !PidIsAlive(processes, daemon.value.pid, daemon.value.createdAt) {
        RemovePidfile(fails.pidfile);
        return AlreadyGone;
      }
      var pid := daemon.value.pid;
      stops := stops + [pid];
      if stop.Clean? || stop.gone {
        processes := processes - {pid};
      }
      outcome := if stop.Clean? then StoppedCleanly(pid) else StoppedByForce(pid);
      RemovePidfile(fails.pidfile);
    }
  }
}
