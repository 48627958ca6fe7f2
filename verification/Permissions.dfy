/**
 * The park / decide / respond protocol of permissions.go. A control request parks a handler on a one-slot channel,
 * a user response records the decision and sends it, and the handler wakes up to answer upstream.
 * The response handler's check-and-set is one step; permission ids are fresh.
 */
module Permissions {
  import opened Outcomes

  const CHANNEL_CAPACITY: nat := 1

  datatype Action = Allow | Deny | AllowSession | AllowWorkspace

  function ParseAction(text: string): Option<Action> {
    if text == "allow" then Some(Allow) else if text == "deny" then Some(Deny)
    else if text == "allow_session" then Some(AllowSession)
    else if text == "allow_workspace" then Some(AllowWorkspace) else None
  }

  predicate Allowed(a: Action) {
    a != Deny
  }

  datatype Decision = Decision(allowed: bool, action: Action)

  datatype Permission = Permission(requestId: string, sessionId: string, resolved: bool, action: Option<Action>)

  /** The frame written to the subprocess, with the permission whose handler wrote it. */
  datatype ControlResponse = ControlResponse(pid: string, requestId: string, allow: bool)

  datatype Desk = Desk(
    perms: map<string, Permission>,
    channels: map<string, seq<Decision>>,
    parked: set<string>,
    accepted: seq<(string, Action)>,
    sent: seq<ControlResponse>)

  datatype Step =
    | Request(pid: string, requestId: string, sessionId: string, subtype: string)
    | Respond(pid: string, action: string)
    | Wake(pid: string)

  datatype Reply = Silent | InvalidAction | NotFound | AlreadyResolved | Accepted(action: Action) | Blocked

  datatype Outcome = Outcome(desk: Desk, reply: Reply)

  function Park(d: Desk, pid: string, requestId: string, sessionId: string, subtype: string): Outcome {
    if subtype != "can_use_tool" then Outcome(d, Silent) else
      Outcome(d.(perms := d.perms[pid := Permission(requestId, sessionId, false, None)],
                 channels := d.channels[pid := []],
                 parked := d.parked + {pid}), Silent)
  }

  function Mark(d: Desk, pid: string, a: Action): Desk
    requires pid in d.perms
  {
    d.(perms := d.perms[pid := d.perms[pid].(resolved := true, action := Some(a))])
  }

  function QueueOf(d: Desk, pid: string): seq<Decision> {
    if pid in d.channels then d.channels[pid] else []
  }

  /** Marking the record and sending the decision. */
  function Accept(d: Desk, pid: string, a: Action): Desk
    requires pid in d.perms
  {
    Mark(d, pid, a).(channels := d.channels[pid := QueueOf(d, pid) + [Decision(Allowed(a), a)]],
                     accepted := d.accepted + [(pid, a)])
  }

  /** The sender blocks when the channel is full; the record is already marked then. */
  function Decide(d: Desk, pid: string, text: string): Outcome {
    match ParseAction(text)
    case None => Outcome(d, InvalidAction)
    case Some(a) =>
      if pid !in d.perms then Outcome(d, NotFound)
      else if d.perms[pid].resolved then Outcome(d, AlreadyResolved)
      else if |QueueOf(d, pid)| >= CHANNEL_CAPACITY then Outcome(Mark(d, pid, a), Blocked)
      else Outcome(Accept(d, pid, a), Accepted(a))
  }

  /** A parked handler takes the decision off its channel and answers; it stays parked while there is none. */
  function Answer(d: Desk, pid: string): Outcome {
    if pid !in d.parked || pid !in d.perms || pid !in d.channels || d.channels[pid] == [] then Outcome(d, Silent) else
      var decision := d.channels[pid][0];
      Outcome(d.(channels := d.channels[pid := d.channels[pid][1..]],
                 parked := d.parked - {pid},
                 sent := d.sent + [ControlResponse(pid, d.perms[pid].requestId, decision.allowed)]), Silent)
  }

  function Next(d: Desk, step: Step): Outcome {
    match step
    case Request(pid, requestId, sessionId, subtype) => Park(d, pid, requestId, sessionId, subtype)
    case Respond(pid, action) => Decide(d, pid, action)
    case Wake(pid) => Answer(d, pid)
  }

  const EMPTY_DESK := Desk(map[], map[], {}, [], [])

  function Run(d: Desk, steps: seq<Step>): Desk
    decreases |steps|
  {
    if steps == [] then d else Run(Next(d, steps[0]).desk, steps[1..])
  }

  /** Permission ids are drawn fresh. */
  ghost predicate FreshStep(d: Desk, step: Step) {
    step.Request? ==> step.pid !in d.perms
  }

  ghost predicate FreshRun(d: Desk, steps: seq<Step>)
    decreases |steps|
  {
    steps == [] || (FreshStep(d, steps[0]) && FreshRun(Next(d, steps[0]).desk, steps[1..]))
  }

  // ---------- invariant ----------

  predicate Answered(d: Desk, pid: string) {
    exists i | 0 <= i < |d.sent| :: d.sent[i].pid == pid
  }

  predicate WasAccepted(d: Desk, pid: string) {
    exists i | 0 <= i < |d.accepted| :: d.accepted[i].0 == pid
  }

  /** Where one permission can be: undecided, decided but not yet picked up, or answered. */
  ghost predicate Consistent(d: Desk, pid: string)
    requires pid in d.perms && pid in d.channels
  {
    var p, queue := d.perms[pid], d.channels[pid];
    && p.resolved == p.action.Some?
    && (pid in d.parked && !p.resolved ==> queue == [])
    && (pid in d.parked && p.resolved ==> queue == [Decision(Allowed(p.action.value), p.action.value)])
    && (pid !in d.parked ==> p.resolved && queue == [])
    && (pid in d.parked <==> !Answered(d, pid))
    && (p.resolved <==> WasAccepted(d, pid))
  }

  ghost predicate SentOnce(d: Desk) {
    && (forall i, j | 0 <= i < j < |d.sent| :: d.sent[i].pid != d.sent[j].pid)
    && (forall i | 0 <= i < |d.sent| ::
          var r := d.sent[i];
          r.pid in d.perms && d.perms[r.pid].requestId == r.requestId &&
          d.perms[r.pid].action.Some? && r.allow == Allowed(d.perms[r.pid].action.value))
  }

  ghost predicate AcceptedOnce(d: Desk) {
    && (forall i, j | 0 <= i < j < |d.accepted| :: d.accepted[i].0 != d.accepted[j].0)
    && (forall i | 0 <= i < |d.accepted| ::
          d.accepted[i].0 in d.perms && d.perms[d.accepted[i].0].action == Some(d.accepted[i].1))
  }

  ghost predicate Inv(d: Desk) {
    && d.channels.Keys == d.perms.Keys && d.parked <= d.perms.Keys
    && (forall pid | pid in d.perms :: Consistent(d, pid))
    && SentOnce(d) && AcceptedOnce(d)
  }

  lemma ParkKeepsInv(d: Desk, pid: string, requestId: string, sessionId: string, subtype: string)
    requires Inv(d) && pid !in d.perms
    ensures Inv(Park(d, pid, requestId, sessionId, subtype).desk)
  {
    var t := Park(d, pid, requestId, sessionId, subtype).desk;
    if t != d {
      assert !Answered(d, pid) && !WasAccepted(d, pid);
      forall q | q in t.perms ensures Consistent(t, q) {
        assert q in d.perms ==> Consistent(d, q);
        assert Answered(t, q) == Answered(d, q) && WasAccepted(t, q) == WasAccepted(d, q);
      }
    }
  }

  lemma DecideKeepsInv(d: Desk, pid: string, text: string)
    requires Inv(d)
    ensures Inv(Decide(d, pid, text).desk) && !Decide(d, pid, text).reply.Blocked?
  {
    if pid in d.perms && !d.perms[pid].resolved {
      assert Consistent(d, pid);
      if ParseAction(text).Some? {
        AcceptKeepsInv(d, pid, ParseAction(text).value);
      }
    }
  }

  lemma AcceptKeepsInv(d: Desk, pid: string, a: Action)
    requires Inv(d) && pid in d.perms && !d.perms[pid].resolved
    ensures Inv(Accept(d, pid, a))
  {
    var t := Accept(d, pid, a);
    AcceptedSnoc(d, t, pid, a);
    assert Consistent(d, pid);
    forall q | q in t.perms ensures Consistent(t, q) {
      assert Consistent(d, q) && Answered(t, q) == Answered(d, q);
    }
    AcceptKeepsLogs(d, pid, a);
  }

  /** An undecided permission occurs in neither log. */
  lemma AcceptKeepsLogs(d: Desk, pid: string, a: Action)
    requires SentOnce(d) && AcceptedOnce(d) && pid in d.perms && !Answered(d, pid) && !WasAccepted(d, pid)
    ensures SentOnce(Accept(d, pid, a)) && AcceptedOnce(Accept(d, pid, a))
  {
    var t := Accept(d, pid, a);
    assert forall i | 0 <= i < |d.sent| :: t.sent[i] == d.sent[i] && d.sent[i].pid != pid;
    assert forall i | 0 <= i < |d.accepted| :: t.accepted[i] == d.accepted[i] && d.accepted[i].0 != pid;
  }

  lemma AcceptedSnoc(d: Desk, t: Desk, pid: string, action: Action)
    requires t.accepted == d.accepted + [(pid, action)]
    ensures forall q :: WasAccepted(t, q) <==> WasAccepted(d, q) || q == pid
  {
    assert t.accepted[|d.accepted|].0 == pid;
    forall q | WasAccepted(d, q) ensures WasAccepted(t, q) {
      var i :| 0 <= i < |d.accepted| && d.accepted[i].0 == q;
      assert t.accepted[i].0 == q;
    }
  }

  lemma AnswerKeepsInv(d: Desk, pid: string)
    requires Inv(d)
    ensures Inv(Answer(d, pid).desk)
  {
    var t := Answer(d, pid).desk;
    if t != d {
      assert Consistent(d, pid);
      AnsweredSnoc(d, t, t.sent[|d.sent|]);
      forall q | q in t.perms ensures Consistent(t, q) {
        assert Consistent(d, q) && WasAccepted(t, q) == WasAccepted(d, q);
      }
      assert !Answered(d, pid);
    }
  }

  lemma AnsweredSnoc(d: Desk, t: Desk, r: ControlResponse)
    requires t.sent == d.sent + [r]
    ensures forall q :: Answered(t, q) <==> Answered(d, q) || q == r.pid
  {
    assert t.sent[|d.sent|].pid == r.pid;
    forall q | Answered(d, q) ensures Answered(t, q) {
      var i :| 0 <= i < |d.sent| && d.sent[i].pid == q;
      assert t.sent[i].pid == q;
    }
  }

  lemma StepKeepsInv(d: Desk, step: Step)
    requires Inv(d) && FreshStep(d, step)
    ensures Inv(Next(d, step).desk) && !Next(d, step).reply.Blocked?
  {
    match step
    case Request(pid, requestId, sessionId, subtype) => ParkKeepsInv(d, pid, requestId, sessionId, subtype);
    case Respond(pid, action) => DecideKeepsInv(d, pid, action);
    case Wake(pid) => AnswerKeepsInv(d, pid);
  }

  lemma {:induction false} RunKeepsInv(d: Desk, steps: seq<Step>)
    requires Inv(d) && FreshRun(d, steps)
    ensures Inv(Run(d, steps))
    decreases |steps|
  {
    if steps != [] {
      StepKeepsInv(d, steps[0]);
      RunKeepsInv(Next(d, steps[0]).desk, steps[1..]);
    }
  }

  // ---------- what every interleaving keeps ----------

  /**
   * Protocol safety after any interleaving: every permission was accepted at most once and answered at most once,
   * answers carry the request's own id and match the recorded action, and no channel ever holds two decisions.
   */
  lemma ProtocolIsSafe(steps: seq<Step>)
    requires FreshRun(EMPTY_DESK, steps)
    ensures var d := Run(EMPTY_DESK, steps);
      && SentOnce(d) && AcceptedOnce(d)
      && (forall pid | pid in d.channels :: |d.channels[pid]| <= 1)
      && (forall pid | pid in d.perms :: Answered(d, pid) ==> d.perms[pid].resolved)
  {
    RunKeepsInv(EMPTY_DESK, steps);
    var d := Run(EMPTY_DESK, steps);
    assert forall pid | pid in d.perms :: Consistent(d, pid);
  }

  /** A response never finds the one-slot channel full, so the responder never blocks. */
  lemma ResponderNeverBlocks(steps: seq<Step>, pid: string, action: string)
    requires FreshRun(EMPTY_DESK, steps)
    ensures !Decide(Run(EMPTY_DESK, steps), pid, action).reply.Blocked?
  {
    RunKeepsInv(EMPTY_DESK, steps);
    DecideKeepsInv(Run(EMPTY_DESK, steps), pid, action);
  }

  /** The first decision stands: whatever happens later, the record keeps it and a second response conflicts. */
  lemma {:induction false} FirstDecisionStands(d: Desk, later: seq<Step>, pid: string, again: string)
    requires FreshRun(d, later) && pid in d.perms && d.perms[pid].resolved
    ensures pid in Run(d, later).perms && Run(d, later).perms[pid] == d.perms[pid]
    ensures Decide(Run(d, later), pid, again).reply in {AlreadyResolved, InvalidAction}
    decreases |later|
  {
    if later != [] {
      FirstDecisionStands(Next(d, later[0]).desk, later[1..], pid, again);
    }
  }

  /** The response that the recorded decision of `pid` calls for. */
  function DueResponse(d: Desk, pid: string): ControlResponse
    requires pid in d.perms && d.perms[pid].action.Some?
  {
    ControlResponse(pid, d.perms[pid].requestId, Allowed(d.perms[pid].action.value))
  }

  /** The due response has been sent, or the next wake-up of the handler sends it and nothing else. */
  ghost predicate SentOrNext(d: Desk, pid: string)
    requires pid in d.perms && d.perms[pid].action.Some?
  {
    DueResponse(d, pid) in d.sent || Answer(d, pid).desk.sent == d.sent + [DueResponse(d, pid)]
  }

  lemma InvDelivers(d: Desk, pid: string)
    requires Inv(d) && pid in d.perms && d.perms[pid].resolved
    ensures d.perms[pid].action.Some? && SentOrNext(d, pid)
  {
    assert Consistent(d, pid);
    if Answered(d, pid) {
      var i :| 0 <= i < |d.sent| && d.sent[i].pid == pid;
      assert d.sent[i] == DueResponse(d, pid);
    }
  }

  /** No decision is lost: in every reachable state a resolved permission is answered, or its next wake-up does it. */
  lemma DecisionIsDelivered(steps: seq<Step>, pid: string)
    requires FreshRun(EMPTY_DESK, steps)
    requires pid in Run(EMPTY_DESK, steps).perms && Run(EMPTY_DESK, steps).perms[pid].resolved
    ensures var d := Run(EMPTY_DESK, steps); d.perms[pid].action.Some? && SentOrNext(d, pid)
  {
    RunKeepsInv(EMPTY_DESK, steps);
    InvDelivers(Run(EMPTY_DESK, steps), pid);
  }

  /**
   * From the accepted response on, through any interleaving of later steps, the response due is the one that this
   * decision calls for, and it has been sent or the next wake-up sends it.
   */
  lemma AcceptedDecisionIsDelivered(steps: seq<Step>, pid: string, text: string, later: seq<Step>)
    requires FreshRun(EMPTY_DESK, steps) && Decide(Run(EMPTY_DESK, steps), pid, text).reply.Accepted?
    requires FreshRun(Decide(Run(EMPTY_DESK, steps), pid, text).desk, later)
    ensures var d := Run(EMPTY_DESK, steps);
      var t := Run(Decide(d, pid, text).desk, later);
      && pid in t.perms && t.perms[pid].action == ParseAction(text) && t.perms[pid].action.Some?
      && DueResponse(t, pid) == ControlResponse(pid, d.perms[pid].requestId, Allowed(ParseAction(text).value))
      && SentOrNext(t, pid)
  {
    var d := Run(EMPTY_DESK, steps);
    var e := Decide(d, pid, text).desk;
    RunKeepsInv(EMPTY_DESK, steps);
    DecideKeepsInv(d, pid, text);
    FirstDecisionStands(e, later, pid, text);
    RunKeepsInv(e, later);
    InvDelivers(Run(e, later), pid);
  }

  // ---------- where answers come from ----------

  /** The step that parked the permission, and the one that decided it, are among `steps`. */
  ghost predicate Caused(p: Permission, pid: string, steps: seq<Step>) {
    && Request(pid, p.requestId, p.sessionId, "can_use_tool") in steps
    && (p.action.Some? ==> exists text :: Respond(pid, text) in steps && ParseAction(text) == p.action)
  }

  ghost predicate AllCaused(d: Desk, steps: seq<Step>) {
    forall pid | pid in d.perms :: Caused(d.perms[pid], pid, steps)
  }

  lemma StepIsCause(d: Desk, past: seq<Step>, step: Step)
    requires AllCaused(d, past)
    ensures AllCaused(Next(d, step).desk, past + [step])
  {
    var t, steps := Next(d, step).desk, past + [step];
    assert step in steps && forall s | s in past :: s in steps;
    forall pid | pid in t.perms ensures Caused(t.perms[pid], pid, steps) {
      assert pid in d.perms ==> Caused(d.perms[pid], pid, past);
      if step.Respond? && step.pid == pid && t.perms[pid] != d.perms[pid] {
        assert Respond(pid, step.action) in steps && ParseAction(step.action) == t.perms[pid].action;
      }
    }
  }

  lemma {:induction false} RunIsCause(d: Desk, past: seq<Step>, steps: seq<Step>)
    requires AllCaused(d, past)
    ensures AllCaused(Run(d, steps), past + steps)
    decreases |steps|
  {
    if steps == [] {
      assert past + steps == past;
    } else {
      StepIsCause(d, past, steps[0]);
      RunIsCause(Next(d, steps[0]).desk, past + [steps[0]], steps[1..]);
      assert past + [steps[0]] + steps[1..] == past + steps;
    }
  }

  /** Every control response answers a tool request of the run, the way a user response of the run decided. */
  lemma AnswersHaveCause(steps: seq<Step>, i: nat)
    requires FreshRun(EMPTY_DESK, steps) && i < |Run(EMPTY_DESK, steps).sent|
    ensures var r := Run(EMPTY_DESK, steps).sent[i];
      && (exists sessionId :: Request(r.pid, r.requestId, sessionId, "can_use_tool") in steps)
      && (exists text :: Respond(r.pid, text) in steps && ParseAction(text).Some? &&
                         r.allow == Allowed(ParseAction(text).value))
  {
    RunKeepsInv(EMPTY_DESK, steps);
    RunIsCause(EMPTY_DESK, [], steps);
    assert [] + steps == steps;
    var d := Run(EMPTY_DESK, steps);
    var r := d.sent[i];
    assert Caused(d.perms[r.pid], r.pid, steps);
  }

  // ---------- the server ----------

  /** The server's tables, changed in place by the three handlers. */
  class PermissionServer {
    var perms: map<string, Permission>
    var channels: map<string, seq<Decision>>
    var parked: set<string>
    var accepted: seq<(string, Action)>
    var sent: seq<ControlResponse>

    constructor ()
      ensures State() == EMPTY_DESK
    {
      perms, channels, parked, accepted, sent := map[], map[], {}, [], [];
    }

    function State(): Desk
      reads this
    {
      Desk(perms, channels, parked, accepted, sent)
    }

    /** `handleControlRequest` up to its channel receive. */
    method HandleControlRequest(pid: string, requestId: string, sessionId: string, subtype: string)
      modifies this
      ensures State() == Park(old(State()), pid, requestId, sessionId, subtype).desk
    {
      if subtype != "can_use_tool" {
        return;
      }
      channels := channels[pid := []];
      perms := perms[pid := Permission(requestId, sessionId, false, None)];
      parked := parked + {pid};
    }

    /** `handleRespondPermission`. */
    method HandleRespond(pid: string, text: string) returns (reply: Reply)
      modifies this
      ensures Outcome(State(), reply) == Decide(old(State()), pid, text)
    {
      var action := ParseAction(text);
      if action.None? {
        return InvalidAction;
      }
      if pid !in perms {
        return NotFound;
      }
      if perms[pid].resolved {
        return AlreadyResolved;
      }
      perms := perms[pid := perms[pid].(resolved := true)];
      perms := perms[pid := perms[pid].(action := action)];
      var queue := if pid in channels then channels[pid] else [];
      if |queue| >= CHANNEL_CAPACITY {
        return Blocked;
      }
      channels := channels[pid := queue + [Decision(Allowed(action.value), action.value)]];
      accepted := accepted + [(pid, action.value)];
      return Accepted(action.value);
    }

    /** `handleControlRequest` from its channel receive on. */
    method ResumeControlRequest(pid: string)
      modifies this
      ensures State() == Answer(old(State()), pid).desk
    {
      if pid !in parked || pid !in perms || pid !in channels || channels[pid] == [] {
        return;
      }
      var decision := channels[pid][0];
      channels := channels[pid := channels[pid][1..]];
      parked := parked - {pid};
      sent := sent + [ControlResponse(pid, perms[pid].requestId, decision.allowed)];
    }
  }
}
