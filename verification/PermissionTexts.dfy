/** The permission protocol in terms of the texts users send: what is accepted, and what reaches the subprocess. */
module PermissionTexts {
  import opened Outcomes
  import opened Permissions

  /** The four actions the endpoint knows. */
  predicate KnownAction(text: string) {
    text in {"allow", "deny", "allow_session", "allow_workspace"}
  }

  function ActionText(a: Action): string {
    match a
    case Allow => "allow"
    case Deny => "deny"
    case AllowSession => "allow_session"
    case AllowWorkspace => "allow_workspace"
  }

  /** Exactly the four texts are actions, each its own, and only `deny` refuses. */
  lemma ActionsExactly(text: string)
    ensures ParseAction(text).Some? <==> KnownAction(text)
    ensures ParseAction(text).Some? ==> ActionText(ParseAction(text).value) == text
    ensures ParseAction(text).Some? ==>
            (Allowed(ParseAction(text).value) <==> text in {"allow", "allow_session", "allow_workspace"})
  {
  }

  // ---------- replies ----------

  /** In every reachable state, the reply to every response. */
  lemma RepliesExactly(steps: seq<Step>, pid: string, text: string)
    requires FreshRun(EMPTY_DESK, steps)
    ensures var d, reply := Run(EMPTY_DESK, steps), Decide(Run(EMPTY_DESK, steps), pid, text).reply;
      && (reply == InvalidAction <==> !KnownAction(text))
      && (reply == NotFound <==> KnownAction(text) && pid !in d.perms)
      && (reply == AlreadyResolved <==> KnownAction(text) && pid in d.perms && d.perms[pid].resolved)
      && (reply.Accepted? <==> KnownAction(text) && pid in d.perms && !d.perms[pid].resolved)
      && (reply.Accepted? ==> ActionText(reply.action) == text)
  {
    ActionsExactly(text);
    ResponderNeverBlocks(steps, pid, text);
  }

  /** A response that is not accepted changes nothing. */
  lemma RefusedResponseChangesNothing(steps: seq<Step>, pid: string, text: string)
    requires FreshRun(EMPTY_DESK, steps) && !Decide(Run(EMPTY_DESK, steps), pid, text).reply.Accepted?
    ensures Decide(Run(EMPTY_DESK, steps), pid, text).desk == Run(EMPTY_DESK, steps)
  {
    ResponderNeverBlocks(steps, pid, text);
  }

  // ---------- runs ----------

  lemma {:induction false} RunConcat(d: Desk, a: seq<Step>, b: seq<Step>)
    ensures Run(d, a + b) == Run(Run(d, a), b)
    ensures FreshRun(d, a + b) <==> FreshRun(d, a) && FreshRun(Run(d, a), b)
    decreases |a|
  {
    if a == [] {
      assert a + b == b;
    } else {
      assert (a + b)[1..] == a[1..] + b;
      RunConcat(Next(d, a[0]).desk, a[1..], b);
    }
  }

  /** A run with one more step. */
  lemma RunStep(d: Desk, step: Step, rest: seq<Step>)
    ensures Run(d, [step] + rest) == Run(Next(d, step).desk, rest)
    ensures FreshRun(d, [step] + rest) <==> FreshStep(d, step) && FreshRun(Next(d, step).desk, rest)
  {
    assert ([step] + rest)[1..] == rest;
  }

  /** A response of the run that decides `pid`, if it is still open. */
  predicate Decides(step: Step, pid: string) {
    step.Respond? && step.pid == pid && KnownAction(step.action)
  }

  /** A permission stays as it is until a response decides it. */
  lemma {:induction false} OpenUntilDecided(d: Desk, steps: seq<Step>, pid: string)
    requires FreshRun(d, steps) && pid in d.perms && forall i | 0 <= i < |steps| :: !Decides(steps[i], pid)
    ensures pid in Run(d, steps).perms && Run(d, steps).perms[pid] == d.perms[pid]
    decreases |steps|
  {
    if steps != [] {
      assert !Decides(steps[0], pid);
      if steps[0].Respond? {
        ActionsExactly(steps[0].action);
      }
      OpenUntilDecided(Next(d, steps[0]).desk, steps[1..], pid);
    }
  }

  lemma {:induction false} SentStays(d: Desk, steps: seq<Step>, r: ControlResponse)
    requires r in d.sent
    ensures r in Run(d, steps).sent
    decreases |steps|
  {
    if steps != [] {
      SentStays(Next(d, steps[0]).desk, steps[1..], r);
    }
  }

  /** From an accepted response on, the response sent or due lets the tool run exactly if the text allows it. */
  lemma VerdictFollowsText(steps: seq<Step>, pid: string, text: string, later: seq<Step>)
    requires FreshRun(EMPTY_DESK, steps) && Decide(Run(EMPTY_DESK, steps), pid, text).reply.Accepted?
    requires FreshRun(Decide(Run(EMPTY_DESK, steps), pid, text).desk, later)
    ensures var d := Run(EMPTY_DESK, steps);
      var t := Run(Decide(d, pid, text).desk, later);
      && pid in t.perms && t.perms[pid].action.Some? && ActionText(t.perms[pid].action.value) == text
      && SentOrNext(t, pid) && DueResponse(t, pid).requestId == d.perms[pid].requestId
      && (DueResponse(t, pid).allow <==> text in {"allow", "allow_session", "allow_workspace"})
  {
    ActionsExactly(text);
    AcceptedDecisionIsDelivered(steps, pid, text, later);
  }

  // ---------- a whole exchange ----------

  /** A tool request parks its permission, open, under its own ids; any other control request is ignored. */
  lemma RequestIsParked(d: Desk, pid: string, requestId: string, sessionId: string, subtype: string)
    ensures var t := Next(d, Request(pid, requestId, sessionId, subtype)).desk;
      if subtype == "can_use_tool"
      then pid in t.parked && pid in t.perms && t.perms[pid] == Permission(requestId, sessionId, false, None)
      else t == d
  {
  }

  /** Up to the decision: the request is parked, stays open, and the first known response is accepted. */
  lemma FirstResponseIsAccepted(
    before: seq<Step>, pid: string, requestId: string, sessionId: string, mid: seq<Step>, text: string)
    requires KnownAction(text) && forall i | 0 <= i < |mid| :: !Decides(mid[i], pid)
    requires FreshRun(EMPTY_DESK, before + ([Request(pid, requestId, sessionId, "can_use_tool")] + mid))
    ensures var d := Run(EMPTY_DESK, before + ([Request(pid, requestId, sessionId, "can_use_tool")] + mid));
      && pid in d.perms && d.perms[pid] == Permission(requestId, sessionId, false, None)
      && Decide(d, pid, text).reply.Accepted?
  {
    var request := Request(pid, requestId, sessionId, "can_use_tool");
    var d := Run(EMPTY_DESK, before);
    RunConcat(EMPTY_DESK, before, [request] + mid);
    RunStep(d, request, mid);
    RequestIsParked(d, pid, requestId, sessionId, "can_use_tool");
    OpenUntilDecided(Next(d, request).desk, mid, pid);
    RepliesExactly(before + ([request] + mid), pid, text);
  }

  /** A wake-up after the decision, at the latest, has sent the response due. */
  lemma WakeSends(d: Desk, pid: string, tail: seq<Step>)
    requires pid in d.perms && d.perms[pid].action.Some? && SentOrNext(d, pid)
    ensures DueResponse(d, pid) in Run(d, [Wake(pid)] + tail).sent
  {
    var r := DueResponse(d, pid);
    RunStep(d, Wake(pid), tail);
    if r in d.sent {
      SentStays(d, [Wake(pid)] + tail, r);
    } else {
      assert Next(d, Wake(pid)).desk.sent == d.sent + [r];
      SentStays(Next(d, Wake(pid)).desk, tail, r);
    }
  }

  /**
   * A whole exchange, interleaved with anything: a tool request, then its first known response, then a wake-up send
   * upstream, under the request's own id, an allow exactly if the text was not `deny`.
   */
  lemma ExchangeIsAnswered(
    before: seq<Step>, pid: string, requestId: string, sessionId: string, mid: seq<Step>,
    text: string, wait: seq<Step>, tail: seq<Step>)
    requires KnownAction(text) && forall i | 0 <= i < |mid| :: !Decides(mid[i], pid)
    requires FreshRun(EMPTY_DESK, before + ([Request(pid, requestId, sessionId, "can_use_tool")] + mid) +
                                  ([Respond(pid, text)] + (wait + ([Wake(pid)] + tail))))
    ensures ControlResponse(pid, requestId, text != "deny") in
            Run(EMPTY_DESK, before + ([Request(pid, requestId, sessionId, "can_use_tool")] + mid) +
                            ([Respond(pid, text)] + (wait + ([Wake(pid)] + tail)))).sent
  {
    var asked := before + ([Request(pid, requestId, sessionId, "can_use_tool")] + mid);
    var last := [Wake(pid)] + tail;
    RunConcat(EMPTY_DESK, asked, [Respond(pid, text)] + (wait + last));
    var d := Run(EMPTY_DESK, asked);
    RunStep(d, Respond(pid, text), wait + last);
    FirstResponseIsAccepted(before, pid, requestId, sessionId, mid, text);
    var decided := Decide(d, pid, text).desk;
    RunConcat(decided, wait, last);
    VerdictFollowsText(asked, pid, text, wait);
    AcceptedDecisionIsDelivered(asked, pid, text, wait);
    WakeSends(Run(decided, wait), pid, tail);
  }
}
