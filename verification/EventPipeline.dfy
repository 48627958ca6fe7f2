/**
 * The whole way of a streamed message (streaming.go): upstream frames are translated and broadcast, the stream handler
 * of a subscriber writes what it receives as SSE text, and a client reads that text in arbitrary slices.
 */
module EventPipeline {
  import opened Outcomes
  import opened PartIds
  import opened StreamTranslation
  import FanOut
  import SseEvents
  import SseRoundTrip
  import Texts

  // ---------- events on the wire ----------

  datatype Json = Null | Text(text: string) | List(items: seq<Json>) | Object(fields: map<string, Json>)

  datatype Gact = Gact(kind: string, payload: Json)

  function KindFor(e: Event): string {
    match e
    case Created(_, _, _) => "message.created"
    case PartAdded(_, _, _) => "message.part.added"
    case PartDelta(_, _, _) => "message.part.delta"
    case PartCompleted(_, _) => "message.part.completed"
    case Completed(_) => "message.completed"
  }

  /** The payload of a translated event; `now` is the clock reading for `created_at`. */
  function PayloadFor(e: Event, now: string): Json {
    match e
    case Created(id, sessionId, model) =>
      Object(map[
        "id" := Text(id), "session_id" := Text(sessionId), "role" := Text("assistant"), "parts" := List([]),
        "model" := Object(map["provider_id" := Text("anthropic"), "model_id" := Text(model)]),
        "created_at" := Text(now), "stop_reason" := Null, "usage" := Object(map[])])
    case PartAdded(m, p, text) =>
      Object(map["message_id" := Text(m),
                 "part" := Object(map["id" := Text(p), "type" := Text("text"), "text" := Text(text)])])
    case PartDelta(m, p, text) =>
      Object(map["message_id" := Text(m), "part_id" := Text(p), "delta" := Object(map["text_append" := Text(text)])])
    case PartCompleted(m, p) => Object(map["message_id" := Text(m), "part_id" := Text(p)])
    case Completed(m) => Object(map["message_id" := Text(m)])
  }

  function Wire(e: Event, now: string): Gact {
    Gact(KindFor(e), PayloadFor(e, now))
  }

  function At(j: Json, name: string): Json {
    if j.Object? && name in j.fields then j.fields[name] else Null
  }

  function TextAt(j: Json, name: string): string {
    if At(j, name).Text? then At(j, name).text else ""
  }

  function CreatedIn(p: Json): Event {
    Created(TextAt(p, "id"), TextAt(p, "session_id"), TextAt(At(p, "model"), "model_id"))
  }

  function AddedIn(p: Json): Event {
    PartAdded(TextAt(p, "message_id"), TextAt(At(p, "part"), "id"), TextAt(At(p, "part"), "text"))
  }

  function DeltaIn(p: Json): Event {
    PartDelta(TextAt(p, "message_id"), TextAt(p, "part_id"), TextAt(At(p, "delta"), "text_append"))
  }

  /** The message event a client sees in a type and a payload; other types mean nothing to it. */
  function Understood(g: Gact): Option<Event> {
    if g.kind == "message.created" then Some(CreatedIn(g.payload))
    else if g.kind == "message.part.added" then Some(AddedIn(g.payload))
    else if g.kind == "message.part.delta" then Some(DeltaIn(g.payload))
    else if g.kind == "message.part.completed" then
      Some(PartCompleted(TextAt(g.payload, "message_id"), TextAt(g.payload, "part_id")))
    else if g.kind == "message.completed" then Some(Completed(TextAt(g.payload, "message_id")))
    else None
  }

  lemma CreatedIsUnderstood(e: Event, now: string)
    requires e.Created?
    ensures CreatedIn(PayloadFor(e, now)) == e
  {
    var p := PayloadFor(e, now);
    assert p.fields["id"] == Text(e.id) && p.fields["session_id"] == Text(e.sessionId);
    assert At(p, "model").fields["model_id"] == Text(e.model);
  }

  lemma AddedIsUnderstood(e: Event, now: string)
    requires e.PartAdded?
    ensures AddedIn(PayloadFor(e, now)) == e
  {
    var p := PayloadFor(e, now);
    assert At(p, "part").fields["id"] == Text(e.partId) && At(p, "part").fields["text"] == Text(e.text);
  }

  lemma DeltaIsUnderstood(e: Event, now: string)
    requires e.PartDelta?
    ensures DeltaIn(PayloadFor(e, now)) == e
  {
    assert At(PayloadFor(e, now), "delta").fields["text_append"] == Text(e.append);
  }

  lemma KindsDiffer(e: Event)
    ensures '\n' !in KindFor(e)
    ensures KindFor(e) == "message.created" <==> e.Created?
    ensures KindFor(e) == "message.part.added" <==> e.PartAdded?
    ensures KindFor(e) == "message.part.delta" <==> e.PartDelta?
    ensures KindFor(e) == "message.part.completed" <==> e.PartCompleted?
  {
    assert e.PartAdded? ==> KindFor(e)[13] == 'a';
    assert e.PartDelta? ==> KindFor(e)[13] == 'd';
  }

  /** A client understands every translated event as what it is. */
  lemma WireIsUnderstood(e: Event, now: string)
    ensures Understood(Wire(e, now)) == Some(e)
  {
    KindsDiffer(e);
    match e
    case Created(_, _, _) => CreatedIsUnderstood(e, now);
    case PartAdded(_, _, _) => AddedIsUnderstood(e, now);
    case PartDelta(_, _, _) => DeltaIsUnderstood(e, now);
    case _ =>
  }

  /** A created event is a flat message of the assistant: its id and role stand at the top, under no `message` key. */
  lemma CreatedIsFlat(e: Event, now: string)
    requires e.Created?
    ensures var p := PayloadFor(e, now);
      && TextAt(p, "id") == e.id && TextAt(p, "role") == "assistant" && At(p, "parts") == List([])
      && TextAt(At(p, "model"), "provider_id") == "anthropic" && p.Object? && "message" !in p.fields
  {
    var p := PayloadFor(e, now);
    assert p.fields["id"] == Text(e.id) && p.fields["role"] == Text("assistant") && p.fields["parts"] == List([]);
    assert At(p, "model").fields["provider_id"] == Text("anthropic");
  }

  /** The message events among broadcasts, in order. */
  function Meant(gs: seq<Gact>): seq<Event> {
    if gs == [] then [] else Meant(gs[..|gs| - 1]) + SseEvents.Found(Understood(gs[|gs| - 1]))
  }

  function MessageOf(e: Event): string {
    if e.Created? then e.id else e.messageId
  }

  /** The events that name message `m`, in order. */
  function Naming(events: seq<Event>, m: string): seq<Event> {
    if events == [] then [] else
      var init, last := Naming(events[..|events| - 1], m), events[|events| - 1];
      if MessageOf(last) == m then init + [last] else init
  }

  lemma {:induction false} NamingConcat(a: seq<Event>, b: seq<Event>, m: string)
    ensures Naming(a + b, m) == Naming(a, m) + Naming(b, m)
    decreases |b|
  {
    if b == [] {
      assert a + b == a;
    } else {
      assert (a + b)[..|a + b| - 1] == a + b[..|b| - 1];
      NamingConcat(a, b[..|b| - 1], m);
    }
  }

  lemma {:induction false} MeantConcat(a: seq<Gact>, b: seq<Gact>)
    ensures Meant(a + b) == Meant(a) + Meant(b)
    decreases |b|
  {
    if b == [] {
      assert a + b == a;
    } else {
      assert (a + b)[..|a + b| - 1] == a + b[..|b| - 1];
      MeantConcat(a, b[..|b| - 1]);
    }
  }

  // ---------- a client's message depends on the events that name it ----------

  function MessageIn(c: Client, m: string): Option<Message> {
    if m in c then Some(c[m]) else None
  }

  lemma ReduceIsLocal(c: Client, d: Client, e: Event, m: string)
    requires MessageIn(c, m) == MessageIn(d, m)
    ensures MessageOf(e) != m ==> MessageIn(Reduce(c, e), m) == MessageIn(c, m)
    ensures MessageIn(Reduce(c, e), m) == MessageIn(Reduce(d, e), m)
  {
  }

  lemma {:induction false} OnlyNamingCounts(events: seq<Event>, m: string)
    ensures MessageIn(ReduceAll(events), m) == MessageIn(ReduceAll(Naming(events, m)), m)
  {
    if events != [] {
      var init, last := events[..|events| - 1], events[|events| - 1];
      OnlyNamingCounts(init, m);
      ReduceIsLocal(ReduceAll(init), ReduceAll(Naming(init, m)), last, m);
      ReduceSnoc(Naming(init, m), last);
    }
  }

  // ---------- the running session ----------

  /** The frames so far, the open message, the fan-out, and how many frames each broadcast came after. */
  datatype State = State(frames: seq<Frame>, active: string, fan: FanOut.Session<Gact>, marks: seq<nat>)

  /** A frame arrives, something else is broadcast, or a fan-out step other than the start of a broadcast is taken. */
  datatype Step = Upstream(frame: Frame, now: string) | Other(event: Gact) | Channel(step: FanOut.Step<Gact>)

  function Start(): State {
    State([], "", FanOut.NewSession(), [])
  }

  predicate Enabled(s: State, step: Step) {
    match step
    case Upstream(_, _) => s.fan.pending == []
    case Other(g) => s.fan.pending == [] && '\n' !in g.kind
    case Channel(c) => !c.Begin? && FanOut.Enabled(s.fan, c)
  }

  function Begin(s: State, g: Gact): State
    requires s.fan.pending == []
  {
    s.(fan := FanOut.Next(s.fan, FanOut.Begin(g)), marks := s.marks + [|s.frames|])
  }

  function Next(s: State, session: string, step: Step): State
    requires Enabled(s, step)
  {
    match step
    case Upstream(frame, now) =>
      var t := Translate(frame, session, s.active);
      var u := s.(frames := s.frames + [frame], active := t.active);
      if t.events == [] then u else Begin(u, Wire(t.events[0], now))
    case Other(g) => Begin(s, g)
    case Channel(c) => s.(fan := FanOut.Next(s.fan, c))
  }

  ghost predicate IsRun(s: State, session: string, steps: seq<Step>)
    decreases |steps|
  {
    steps == [] || (Enabled(s, steps[0]) && IsRun(Next(s, session, steps[0]), session, steps[1..]))
  }

  function Run(s: State, session: string, steps: seq<Step>): State
    requires IsRun(s, session, steps)
    decreases |steps|
  {
    if steps == [] then s else Run(Next(s, session, steps[0]), session, steps[1..])
  }

  /** No broadcast from elsewhere names message `m`. */
  ghost predicate Leaves(step: Step, m: string) {
    step.Other? && Understood(step.event).Some? ==> MessageOf(Understood(step.event).value) != m
  }

  // ---------- what every run keeps ----------

  /** The broadcasts tell of message `m` what the frames tell of it. */
  predicate Agrees(log: seq<Gact>, frames: seq<Frame>, session: string, m: string) {
    Naming(Meant(log), m) == Naming(TranslateAll(frames, session).events, m)
  }

  /** How many frames had been translated when broadcast `k`, counted from one, was made. */
  function Mark(marks: seq<nat>, k: nat): nat
    requires k <= |marks|
  {
    if k == 0 then 0 else marks[k - 1]
  }

  type Relation = (seq<Gact>, seq<Frame>) -> bool

  function Agreement(session: string, m: string): Relation {
    (log, frames) => Agrees(log, frames, session, m)
  }

  /** The first `k` broadcasts agree with the frames translated when the last of them was made, for every `k`. */
  ghost predicate Marked(agree: Relation, log: seq<Gact>, marks: seq<nat>, frames: seq<Frame>) {
    && |marks| == |log| && agree(log, frames)
    && forall k: nat | k <= |log| :: Mark(marks, k) <= |frames| && agree(log[..k], frames[..Mark(marks, k)])
  }

  ghost predicate OneLineKinds(gs: seq<Gact>) {
    forall k | 0 <= k < |gs| :: '\n' !in gs[k].kind
  }

  ghost predicate Inv(s: State, session: string, m: string) {
    && FanOut.Inv(s.fan) && OneLineKinds(s.fan.log)
    && s.active == TranslateAll(s.frames, session).active
    && Marked(Agreement(session, m), s.fan.log, s.marks, s.frames)
  }

  lemma TranslateSnoc(frames: seq<Frame>, f: Frame, session: string)
    ensures var t := Translate(f, session, TranslateAll(frames, session).active);
      && TranslateAll(frames + [f], session) == Translated(TranslateAll(frames, session).events + t.events, t.active)
      && |t.events| <= 1
  {
    assert (frames + [f])[..|frames|] == frames;
  }

  lemma AgreesSnoc(log: seq<Gact>, g: Gact, frames: seq<Frame>, frames': seq<Frame>, session: string, m: string)
    requires Agrees(log, frames, session, m)
    requires TranslateAll(frames', session).events ==
             TranslateAll(frames, session).events + SseEvents.Found(Understood(g))
    ensures Agrees(log + [g], frames', session, m)
  {
    MeantConcat(log, [g]);
    assert Meant([g]) == SseEvents.Found(Understood(g));
    NamingConcat(Meant(log), Meant([g]), m);
    NamingConcat(TranslateAll(frames, session).events, Meant([g]), m);
  }

  lemma AgreesOther(log: seq<Gact>, g: Gact, frames: seq<Frame>, session: string, m: string)
    requires Agrees(log, frames, session, m) && Leaves(Other(g), m)
    ensures Agrees(log + [g], frames, session, m)
  {
    MeantConcat(log, [g]);
    assert Meant([g]) == SseEvents.Found(Understood(g));
    NamingConcat(Meant(log), Meant([g]), m);
  }

  lemma MoreFrames(agree: Relation, log: seq<Gact>, marks: seq<nat>, frames: seq<Frame>, f: Frame)
    requires Marked(agree, log, marks, frames) && agree(log, frames + [f])
    ensures Marked(agree, log, marks, frames + [f])
  {
    forall k: nat | k <= |log|
      ensures Mark(marks, k) <= |frames| + 1 && agree(log[..k], (frames + [f])[..Mark(marks, k)])
    {
      assert (frames + [f])[..Mark(marks, k)] == frames[..Mark(marks, k)];
    }
  }

  lemma MoreLog(
    agree: Relation, log: seq<Gact>, g: Gact, marks: seq<nat>, frames: seq<Frame>, more: seq<Frame>)
    requires Marked(agree, log, marks, frames) && frames <= more && agree(log + [g], more)
    ensures Marked(agree, log + [g], marks + [|more|], more)
  {
    var log', marks' := log + [g], marks + [|more|];
    forall k: nat | k <= |log'|
      ensures Mark(marks', k) <= |more| && agree(log'[..k], more[..Mark(marks', k)])
    {
      if k <= |log| {
        assert Mark(marks', k) == Mark(marks, k) && log'[..k] == log[..k];
        assert more[..Mark(marks, k)] == frames[..Mark(marks, k)];
      } else {
        assert log'[..k] == log' && more[..|more|] == more;
      }
    }
  }

  /** A broadcast, made after `frames` have grown to those of `s`. */
  lemma BeginKeepsInv(s: State, frames: seq<Frame>, g: Gact, session: string, m: string)
    requires FanOut.Inv(s.fan) && s.fan.pending == [] && OneLineKinds(s.fan.log) && '\n' !in g.kind
    requires s.active == TranslateAll(s.frames, session).active
    requires Marked(Agreement(session, m), s.fan.log, s.marks, frames) && frames <= s.frames
    requires Agrees(s.fan.log + [g], s.frames, session, m)
    ensures Inv(Begin(s, g), session, m)
  {
    FanOut.BeginKeepsInv(s.fan, g);
    MoreLog(Agreement(session, m), s.fan.log, g, s.marks, frames, s.frames);
  }

  lemma UpstreamKeepsInv(s: State, session: string, f: Frame, now: string, m: string)
    requires Inv(s, session, m) && Enabled(s, Upstream(f, now))
    ensures Inv(Next(s, session, Upstream(f, now)), session, m)
  {
    var t := Translate(f, session, s.active);
    var u := s.(frames := s.frames + [f], active := t.active);
    TranslateSnoc(s.frames, f, session);
    assert Agrees(s.fan.log, s.frames, session, m);
    if t.events == [] {
      assert TranslateAll(s.frames, session).events + [] == TranslateAll(s.frames, session).events;
      assert Agrees(s.fan.log, u.frames, session, m);
      MoreFrames(Agreement(session, m), s.fan.log, s.marks, s.frames, f);
    } else {
      var g := Wire(t.events[0], now);
      WireIsUnderstood(t.events[0], now);
      KindsDiffer(t.events[0]);
      assert t.events == [t.events[0]];
      AgreesSnoc(s.fan.log, g, s.frames, u.frames, session, m);
      BeginKeepsInv(u, s.frames, g, session, m);
    }
  }

  lemma StepKeepsInv(s: State, session: string, step: Step, m: string)
    requires Inv(s, session, m) && Enabled(s, step) && Leaves(step, m)
    ensures Inv(Next(s, session, step), session, m)
  {
    match step
    case Upstream(f, now) => UpstreamKeepsInv(s, session, f, now, m);
    case Other(g) =>
      AgreesOther(s.fan.log, g, s.frames, session, m);
      BeginKeepsInv(s, s.frames, g, session, m);
    case Channel(c) => FanOut.StepKeepsInv(s.fan, c);
  }

  lemma {:induction false} RunKeepsInv(s: State, session: string, steps: seq<Step>, m: string)
    requires Inv(s, session, m) && IsRun(s, session, steps)
    requires forall i | 0 <= i < |steps| :: Leaves(steps[i], m)
    ensures Inv(Run(s, session, steps), session, m)
    decreases |steps|
  {
    if steps != [] {
      assert Leaves(steps[0], m);
      StepKeepsInv(s, session, steps[0], m);
      RunKeepsInv(Next(s, session, steps[0]), session, steps[1..], m);
    }
  }

  // ---------- the stream handler and its reader ----------

  predicate ServerKind(kind: string) {
    kind == "server.connected" || kind == "server.heartbeat"
  }

  /** The handler writes what it receives, in order, and its own connected and heartbeat events between. */
  ghost predicate Handled(es: seq<SseEvents.Emission<Json>>, received: seq<Gact>)
    decreases |es|
  {
    if es == [] then received == [] else
      var init, e, n := es[..|es| - 1], es[|es| - 1], |received|;
      || (ServerKind(e.kind) && Handled(init, received))
      || (n > 0 && Gact(e.kind, e.payload) == received[n - 1] && Handled(init, received[..n - 1]))
  }

  /** The greeting and the heartbeats of the handler may come at any time. */
  lemma OwnEventsAreHandled(
    es: seq<SseEvents.Emission<Json>>, received: seq<Gact>, e: SseEvents.Emission<Json>, g: Gact)
    requires Handled(es, received)
    ensures e.kind in {"server.connected", "server.heartbeat"} ==> Handled(es + [e], received)
    ensures e.kind == g.kind && e.payload == g.payload ==> Handled(es + [e], received + [g])
  {
    assert (es + [e])[..|es|] == es && (received + [g])[..|received|] == received;
  }

  /** The broadcasts a reader finds in the collected events. */
  function Gacts(ds: seq<SseEvents.DriftEvent<Json>>): (gs: seq<Gact>)
    ensures |gs| == |ds|
  {
    seq(|ds|, i requires 0 <= i < |ds| => Gact(ds[i].kind, ds[i].payload))
  }

  /** The client that reads `bytes`. */
  function ReadBy(codec: SseEvents.Codec<Json>, bytes: string): Client {
    ReduceAll(Meant(Gacts(SseEvents.Events(codec, bytes))))
  }

  /** The handler's emissions can be encoded, and `slices` is what it wrote, cut anywhere. */
  ghost predicate Written(
    codec: SseEvents.Codec<Json>, es: seq<SseEvents.Emission<Json>>, received: seq<Gact>, slices: seq<string>)
  {
    && SseEvents.Lawful(codec) && Handled(es, received)
    && (forall i | 0 <= i < |es| :: codec.encode(SseEvents.BodyOf(es[i])).Some?)
    && Texts.Concat(slices) == SseEvents.WriteAll(codec, es)
  }

  lemma {:induction false} HandledKinds(es: seq<SseEvents.Emission<Json>>, received: seq<Gact>)
    requires Handled(es, received) && OneLineKinds(received)
    ensures forall e | e in es :: '\n' !in e.kind
    decreases |es|
  {
    if es != [] {
      var init, e, n := es[..|es| - 1], es[|es| - 1], |received|;
      assert es == init + [e];
      if ServerKind(e.kind) && Handled(init, received) {
        HandledKinds(init, received);
      } else {
        HandledKinds(init, received[..n - 1]);
        assert e.kind == received[n - 1].kind;
      }
    }
  }

  /** The handler's own events, and the default type, mean nothing to a client. */
  lemma OwnKindsMeanNothing(kind: string, payload: Json)
    requires ServerKind(kind) || kind == "" || kind == "message"
    ensures Understood(Gact(kind, payload)) == None
  {
  }

  lemma MeantSnoc(gs: seq<Gact>, g: Gact)
    ensures Meant(gs + [g]) == Meant(gs) + SseEvents.Found(Understood(g))
  {
    assert (gs + [g])[..|gs|] == gs;
  }

  lemma LastDelivered(codec: SseEvents.Codec<Json>, es: seq<SseEvents.Emission<Json>>)
    requires es != [] && codec.encode(SseEvents.BodyOf(es[|es| - 1])).Some?
    ensures var init, e := es[..|es| - 1], es[|es| - 1];
      Meant(Gacts(SseEvents.DeliveredAll(codec, es))) ==
      Meant(Gacts(SseEvents.DeliveredAll(codec, init))) + SseEvents.Found(Understood(Gact(e.kind, e.payload)))
  {
    var init, e := es[..|es| - 1], es[|es| - 1];
    var g := Gact(SseEvents.KindOf(e), e.payload);
    assert Gacts(SseEvents.DeliveredAll(codec, es)) == Gacts(SseEvents.DeliveredAll(codec, init)) + [g];
    MeantSnoc(Gacts(SseEvents.DeliveredAll(codec, init)), g);
    if e.kind == "" {
      OwnKindsMeanNothing("", e.payload);
      OwnKindsMeanNothing("message", e.payload);
    }
  }

  lemma {:induction false} HandledIsMeant(
    codec: SseEvents.Codec<Json>, es: seq<SseEvents.Emission<Json>>, received: seq<Gact>)
    requires Handled(es, received)
    requires forall i | 0 <= i < |es| :: codec.encode(SseEvents.BodyOf(es[i])).Some?
    ensures Meant(Gacts(SseEvents.DeliveredAll(codec, es))) == Meant(received)
    decreases |es|
  {
    if es == [] {
      assert Gacts([]) == [];
    } else {
      var init, e, n := es[..|es| - 1], es[|es| - 1], |received|;
      LastDelivered(codec, es);
      if ServerKind(e.kind) && Handled(init, received) {
        HandledIsMeant(codec, init, received);
        OwnKindsMeanNothing(e.kind, e.payload);
        assert Meant(received) + [] == Meant(received);
      } else {
        HandledIsMeant(codec, init, received[..n - 1]);
      }
    }
  }

  /** For every subscriber: a client that reads its stream, in any slicing, holds the fold of what it received. */
  lemma ReaderFoldsReceived(
    codec: SseEvents.Codec<Json>, es: seq<SseEvents.Emission<Json>>, received: seq<Gact>, slices: seq<string>)
    requires Written(codec, es, received, slices) && OneLineKinds(received)
    ensures ReadBy(codec, Texts.Concat(slices)) == ReduceAll(Meant(received))
  {
    HandledKinds(es, received);
    SseRoundTrip.RoundTrip(codec, es, slices);
    HandledIsMeant(codec, es, received);
  }

  // ---------- end to end ----------

  /** The channel joined before any broadcast that names message `m`. */
  ghost predicate JoinedBefore(s: State, ch: nat, m: string)
    requires ch in s.fan.channels
  {
    var joined := s.fan.channels[ch].joined;
    joined <= |s.fan.log| && Naming(Meant(s.fan.log[..joined]), m) == []
  }

  /** How many frames the first `k` broadcasts stand for: all frames, when those are all broadcasts. */
  function FramesBehind(s: State, k: nat): nat {
    if |s.marks| <= k then |s.frames| else Mark(s.marks, k)
  }

  lemma BehindAgrees(agree: Relation, s: State, k: nat)
    requires Marked(agree, s.fan.log, s.marks, s.frames) && k <= |s.fan.log|
    ensures FramesBehind(s, k) <= |s.frames| && agree(s.fan.log[..k], s.frames[..FramesBehind(s, k)])
  {
    if |s.marks| <= k {
      assert s.fan.log[..k] == s.fan.log && s.frames[..|s.frames|] == s.frames;
    }
  }

  /** A stretch of the log from before message `m` on tells of it what the log up to its end tells of it. */
  lemma StretchAgrees(before: seq<Gact>, stretch: seq<Gact>, frames: seq<Frame>, session: string, m: string)
    requires Naming(Meant(before), m) == [] && Agrees(before + stretch, frames, session, m)
    ensures Agrees(stretch, frames, session, m)
  {
    MeantConcat(before, stretch);
    NamingConcat(Meant(before), Meant(stretch), m);
  }

  lemma StretchHasOneLineKinds(log: seq<Gact>, from: nat, to: nat)
    requires from <= to <= |log| && OneLineKinds(log)
    ensures OneLineKinds(log[from..to])
  {
    assert forall k | 0 <= k < to - from :: log[from..to][k] == log[from + k];
  }

  /** All that was broadcast has reached the channel's receiver. */
  ghost predicate CaughtUp(s: State, ch: nat)
    requires ch in s.fan.channels
  {
    ch in s.fan.subscribers && ch !in s.fan.pending && s.fan.channels[ch].queue == []
  }

  /** The client holds the header and every block of message `m` as `frames` have them. */
  ghost predicate Shows(client: Client, frames: seq<Frame>, session: string, m: string) {
    && HeaderIn(client, m) == HeaderOf(frames, session, m)
    && forall i: Int64 :: PartIn(client, m, PartId(m, i)) == BlockOf(frames, m, i)
  }

  lemma SameNamingShows(events: seq<Event>, frames: seq<Frame>, session: string, m: string)
    requires m != "" && Naming(events, m) == Naming(TranslateAll(frames, session).events, m)
    ensures Shows(ReduceAll(events), frames, session, m)
  {
    SameNaming(events, TranslateAll(frames, session).events, m);
    ClientMatchesUpstream(frames, session, m, 0);
    forall i: Int64 ensures PartIn(ReduceAll(events), m, PartId(m, i)) == BlockOf(frames, m, i) {
      ClientMatchesUpstream(frames, session, m, i);
    }
  }

  /** The subscriber joined before message `m` and never had a full queue. */
  ghost predicate Attentive(s: State, ch: nat, m: string) {
    ch in s.fan.channels && FanOut.NeverFull(s.fan.channels[ch]) && JoinedBefore(s, ch, m)
  }

  /** How many frames the broadcasts stand for that the subscriber has received. */
  function FramesReceived(s: State, ch: nat): nat
    requires ch in s.fan.channels
  {
    FramesBehind(s, s.fan.channels[ch].joined + |s.fan.channels[ch].received|)
  }

  /** A client that reads a stretch of the log from before message `m` on. */
  lemma StretchShows(
    before: seq<Gact>, received: seq<Gact>, frames: seq<Frame>, session: string, codec: SseEvents.Codec<Json>,
    es: seq<SseEvents.Emission<Json>>, slices: seq<string>, m: string)
    requires m != "" && OneLineKinds(received) && Written(codec, es, received, slices)
    requires Naming(Meant(before), m) == [] && Agrees(before + received, frames, session, m)
    ensures Shows(ReadBy(codec, Texts.Concat(slices)), frames, session, m)
  {
    StretchAgrees(before, received, frames, session, m);
    ReaderFoldsReceived(codec, es, received, slices);
    SameNamingShows(Meant(received), frames, session, m);
  }

  /** What an attentive subscriber has received, and the log before it joined, agree with the frames behind them. */
  lemma ReceivedAgrees(agree: Relation, s: State, ch: nat)
    requires FanOut.Inv(s.fan) && OneLineKinds(s.fan.log) && Marked(agree, s.fan.log, s.marks, s.frames)
    requires ch in s.fan.channels && FanOut.NeverFull(s.fan.channels[ch])
    ensures var c := s.fan.channels[ch];
      && OneLineKinds(c.received) && c.joined <= |s.fan.log| && FramesReceived(s, ch) <= |s.frames|
      && agree(s.fan.log[..c.joined] + c.received, s.frames[..FramesReceived(s, ch)])
  {
    var c := s.fan.channels[ch];
    var k := c.joined + |c.received|;
    FanOut.ReceivedIsStretch(s.fan, ch);
    StretchHasOneLineKinds(s.fan.log, c.joined, k);
    BehindAgrees(agree, s, k);
    assert s.fan.log[..k] == s.fan.log[..c.joined] + c.received;
  }

  lemma CaughtUpMeansAll(s: State, ch: nat)
    requires FanOut.Inv(s.fan) && |s.marks| == |s.fan.log|
    requires ch in s.fan.channels && FanOut.NeverFull(s.fan.channels[ch]) && CaughtUp(s, ch)
    ensures FramesReceived(s, ch) == |s.frames|
  {
    FanOut.InvDelivers(s.fan, ch);
    FanOut.NothingIsMissedExactly(s.fan, ch);
  }

  lemma InvShows(
    s: State, session: string, ch: nat, codec: SseEvents.Codec<Json>,
    es: seq<SseEvents.Emission<Json>>, slices: seq<string>, m: string)
    requires Inv(s, session, m) && m != "" && Attentive(s, ch, m)
    requires Written(codec, es, s.fan.channels[ch].received, slices)
    ensures FramesReceived(s, ch) <= |s.frames| && (CaughtUp(s, ch) ==> FramesReceived(s, ch) == |s.frames|)
    ensures Shows(ReadBy(codec, Texts.Concat(slices)), s.frames[..FramesReceived(s, ch)], session, m)
  {
    var c := s.fan.channels[ch];
    ReceivedAgrees(Agreement(session, m), s, ch);
    var before, frames := s.fan.log[..c.joined], s.frames[..FramesReceived(s, ch)];
    StretchShows(before, c.received, frames, session, codec, es, slices, m);
    if CaughtUp(s, ch) {
      CaughtUpMeansAll(s, ch);
    }
  }

  /**
   * Meaning preserved end to end, after every run of frames, other broadcasts, subscriptions, sends and receives: for
   * a subscriber that joined before message `m` and whose queue was never full, a client that reads its stream in any
   * slicing holds every block and the header of `m` as the frames received so far have them; that is all frames, once
   * the subscriber has caught up. Other broadcasts are arbitrary as long as they do not name `m`.
   */
  lemma MessageArrives(
    session: string, steps: seq<Step>, ch: nat, codec: SseEvents.Codec<Json>,
    es: seq<SseEvents.Emission<Json>>, slices: seq<string>, m: string)
    requires IsRun(Start(), session, steps) && m != "" && forall k | 0 <= k < |steps| :: Leaves(steps[k], m)
    requires Attentive(Run(Start(), session, steps), ch, m)
    requires Written(codec, es, Run(Start(), session, steps).fan.channels[ch].received, slices)
    ensures var s := Run(Start(), session, steps);
      var n := FramesReceived(s, ch);
      && n <= |s.frames| && (CaughtUp(s, ch) ==> n == |s.frames|)
      && Shows(ReadBy(codec, Texts.Concat(slices)), s.frames[..n], session, m)
  {
    StartIsInv(session, m);
    RunKeepsInv(Start(), session, steps, m);
    InvShows(Run(Start(), session, steps), session, ch, codec, es, slices, m);
  }

  lemma SameNaming(a: seq<Event>, b: seq<Event>, m: string)
    requires Naming(a, m) == Naming(b, m)
    ensures MessageIn(ReduceAll(a), m) == MessageIn(ReduceAll(b), m)
  {
    OnlyNamingCounts(a, m);
    OnlyNamingCounts(b, m);
  }

  lemma StartIsInv(session: string, m: string)
    ensures Inv(Start(), session, m)
  {
    assert FanOut.NewSession<Gact>().log == [];
  }
}
