/** `translateStreamEvent` (translate_stream.go) and the stream-event branch of `runTurn` (streaming.go). */
module StreamTranslation {
  import opened Outcomes
  import opened PartIds

  datatype Block = TextBlock(text: string) | OtherBlock

  datatype Delta = TextDelta(text: string) | OtherDelta

  /** An upstream frame; an index that is no JSON number is `None`, an absent message id is empty. */
  datatype Frame =
    | MessageStart(id: string, model: string)
    | BlockStart(index: Option<Int64>, block: Block)
    | BlockDelta(index: Option<Int64>, delta: Delta)
    | BlockStop(index: Option<Int64>)
    | MessageStop
    | OtherFrame

  datatype Event =
    | Created(id: string, sessionId: string, model: string)
    | PartAdded(messageId: string, partId: string, text: string)
    | PartDelta(messageId: string, partId: string, append: string)
    | PartCompleted(messageId: string, partId: string)
    | Completed(messageId: string)

  datatype Translated = Translated(events: seq<Event>, active: string)

  function Translate(f: Frame, session: string, active: string): Translated {
    match f
    case MessageStart(id, model) =>
      if id == "" then Translated([], active) else Translated([Created(id, session, model)], id)
    case BlockStart(Some(i), TextBlock(text)) =>
      if active == "" then Translated([], active)
      else Translated([PartAdded(active, PartId(active, i), text)], active)
    case BlockDelta(Some(i), TextDelta(text)) =>
      if active == "" then Translated([], active)
      else Translated([PartDelta(active, PartId(active, i), text)], active)
    case BlockStop(Some(i)) =>
      if active == "" then Translated([], active) else Translated([PartCompleted(active, PartId(active, i))], active)
    case MessageStop =>
      if active == "" then Translated([], active) else Translated([Completed(active)], "")
    case _ => Translated([], active)
  }

  /** A whole session, which starts with no open message. */
  function TranslateAll(frames: seq<Frame>, session: string): Translated {
    if frames == [] then Translated([], "") else
      var before := TranslateAll(frames[..|frames| - 1], session);
      var last := Translate(frames[|frames| - 1], session, before.active);
      Translated(before.events + last.events, last.active)
  }

  /** The event loop: each frame's events are broadcast and the active id is replaced. */
  method RunFrames(frames: seq<Frame>, session: string) returns (events: seq<Event>, active: string)
    ensures Translated(events, active) == TranslateAll(frames, session)
  {
    events, active := [], "";
    for n := 0 to |frames|
      invariant Translated(events, active) == TranslateAll(frames[..n], session)
    {
      assert frames[..n + 1][..n] == frames[..n];
      var step := Translate(frames[n], session, active);
      active := step.active;
      for k := 0 to |step.events|
        invariant events == TranslateAll(frames[..n], session).events + step.events[..k]
      {
        events := events + [step.events[k]];
      }
    }
    assert frames[..|frames|] == frames;
  }

  // ---------- the client's view ----------

  datatype Part = Part(text: string, complete: bool)

  datatype Message = Message(sessionId: string, model: string, complete: bool, parts: map<string, Part>)

  /** Messages by id. */
  type Client = map<string, Message>

  /** A client that ignores unknown messages and parts, and replaces a message it sees created again. */
  function Reduce(c: Client, e: Event): Client {
    match e
    case Created(id, sessionId, model) => c[id := Message(sessionId, model, false, map[])]
    case PartAdded(m, p, text) => if m in c then PutPart(c, m, p, Part(text, false)) else c
    case PartDelta(m, p, text) =>
      if m in c && p in c[m].parts then PutPart(c, m, p, Part(c[m].parts[p].text + text, c[m].parts[p].complete)) else c
    case PartCompleted(m, p) =>
      if m in c && p in c[m].parts then PutPart(c, m, p, Part(c[m].parts[p].text, true)) else c
    case Completed(m) => if m in c then c[m := c[m].(complete := true)] else c
  }

  function PutPart(c: Client, m: string, p: string, part: Part): Client
    requires m in c
  {
    c[m := c[m].(parts := c[m].parts[p := part])]
  }

  function ReduceAll(events: seq<Event>): Client {
    if events == [] then map[] else Reduce(ReduceAll(events[..|events| - 1]), events[|events| - 1])
  }

  function PartIn(c: Client, message: string, part: string): Option<Part> {
    if message in c && part in c[message].parts then Some(c[message].parts[part]) else None
  }

  datatype Header = Header(sessionId: string, model: string, complete: bool)

  function HeaderIn(c: Client, message: string): Option<Header> {
    if message in c then Some(Header(c[message].sessionId, c[message].model, c[message].complete)) else None
  }

  // ---------- the upstream meaning ----------

  /** The message that is open after `frames`; empty when none is. */
  function OpenId(frames: seq<Frame>): string {
    if frames == [] then "" else
      var before := OpenId(frames[..|frames| - 1]);
      match frames[|frames| - 1]
      case MessageStart(id, _) => if id == "" then before else id
      case MessageStop => ""
      case _ => before
  }

  /** What one frame does to block `i` of message `m` while `open` is the open message. */
  function BlockStep(open: string, before: Option<Part>, f: Frame, m: string, i: Int64): Option<Part> {
    if f.MessageStart? && f.id == m then None
    else if open != m then before
    else match f
      case BlockStart(Some(j), TextBlock(text)) => if j == i then Some(Part(text, false)) else before
      case BlockDelta(Some(j), TextDelta(text)) =>
        if j == i && before.Some? then Some(Part(before.value.text + text, before.value.complete)) else before
      case BlockStop(Some(j)) => if j == i && before.Some? then Some(Part(before.value.text, true)) else before
      case _ => before
  }

  /** Block `i` of message `m` after `frames`. */
  function BlockOf(frames: seq<Frame>, m: string, i: Int64): Option<Part> {
    if frames == [] then None else
      var init, last := frames[..|frames| - 1], frames[|frames| - 1];
      BlockStep(OpenId(init), BlockOf(init, m, i), last, m, i)
  }

  /** What one frame does to the header of message `m`. */
  function HeaderStep(open: string, before: Option<Header>, f: Frame, session: string, m: string): Option<Header> {
    if f.MessageStart? && f.id == m then Some(Header(session, f.model, false))
    else if f.MessageStop? && open == m && before.Some? then Some(before.value.(complete := true))
    else before
  }

  function HeaderOf(frames: seq<Frame>, session: string, m: string): Option<Header> {
    if frames == [] then None else
      var init, last := frames[..|frames| - 1], frames[|frames| - 1];
      HeaderStep(OpenId(init), HeaderOf(init, session, m), last, session, m)
  }

  lemma ReduceSnoc(events: seq<Event>, e: Event)
    ensures ReduceAll(events + [e]) == Reduce(ReduceAll(events), e)
  {
    assert (events + [e])[..|events|] == events;
  }

  /** The client after at most one more event. */
  function ReduceNext(c: Client, events: seq<Event>): Client {
    if events == [] then c else Reduce(c, events[0])
  }

  lemma ReduceTranslated(events: seq<Event>, f: Frame, session: string, active: string)
    ensures var step := Translate(f, session, active);
      ReduceAll(events + step.events) == ReduceNext(ReduceAll(events), step.events)
  {
    var step := Translate(f, session, active);
    if step.events == [] {
      assert events + [] == events;
    } else {
      assert step.events == [step.events[0]];
      ReduceSnoc(events, step.events[0]);
    }
  }

  lemma OpenIdSnoc(frames: seq<Frame>, session: string)
    requires frames != []
    ensures var init, last := frames[..|frames| - 1], frames[|frames| - 1];
      var before := TranslateAll(init, session);
      before.active == OpenId(init) ==> TranslateAll(frames, session).active == OpenId(frames)
  {
  }

  lemma OpenIsKnown(c: Client, f: Frame, session: string, active: string)
    requires active != "" ==> active in c
    ensures var step := Translate(f, session, active);
      step.active != "" ==> step.active in ReduceNext(c, step.events)
  {
  }

  lemma {:induction false} ActiveIsOpen(frames: seq<Frame>, session: string)
    ensures var t := TranslateAll(frames, session);
      t.active == OpenId(frames) && (t.active != "" ==> t.active in ReduceAll(t.events))
  {
    if frames != [] {
      var init, last := frames[..|frames| - 1], frames[|frames| - 1];
      ActiveIsOpen(init, session);
      OpenIdSnoc(frames, session);
      var before := TranslateAll(init, session);
      ReduceTranslated(before.events, last, session, before.active);
      OpenIsKnown(ReduceAll(before.events), last, session, before.active);
    }
  }

  /** One frame moves the client's view of a block and of a message as it moves the upstream one. */
  lemma StepMatchesUpstream(c: Client, open: string, f: Frame, session: string, m: string, i: Int64)
    requires m != "" && (open != "" ==> open in c)
    ensures var t := ReduceNext(c, Translate(f, session, open).events);
      && PartIn(t, m, PartId(m, i)) == BlockStep(open, PartIn(c, m, PartId(m, i)), f, m, i)
      && HeaderIn(t, m) == HeaderStep(open, HeaderIn(c, m), f, session, m)
  {
    if (f.BlockStart? || f.BlockDelta? || f.BlockStop?) && f.index.Some? {
      PartIdInjective(m, f.index.value, m, i);
    }
  }

  /**
   * Meaning preserved, for every upstream stream: the client's text and completion of every block, and its header
   * of every message, are the upstream ones, however blocks and messages interleave.
   */
  lemma {:induction false} ClientMatchesUpstream(frames: seq<Frame>, session: string, m: string, i: Int64)
    requires m != ""
    ensures var c := ReduceAll(TranslateAll(frames, session).events);
      PartIn(c, m, PartId(m, i)) == BlockOf(frames, m, i) && HeaderIn(c, m) == HeaderOf(frames, session, m)
  {
    if frames != [] {
      var init, last := frames[..|frames| - 1], frames[|frames| - 1];
      ClientMatchesUpstream(init, session, m, i);
      ActiveIsOpen(init, session);
      var before := TranslateAll(init, session);
      ReduceTranslated(before.events, last, session, before.active);
      StepMatchesUpstream(ReduceAll(before.events), before.active, last, session, m, i);
    }
  }

  /** The deltas for block `i` of message `m` from position `from` on, in order. */
  function DeltaText(frames: seq<Frame>, from: nat, m: string, i: Int64): string {
    if |frames| <= from then "" else
      var init, last := frames[..|frames| - 1], frames[|frames| - 1];
      var before := DeltaText(init, from, m, i);
      if OpenId(init) == m && last.BlockDelta? && last.index == Some(i) && last.delta.TextDelta?
      then before + last.delta.text else before
  }

  /** Frame `k` starts message `m` again, or block `i` within it. */
  predicate Restarts(frames: seq<Frame>, k: nat, m: string, i: Int64)
    requires k < |frames|
  {
    || (frames[k].MessageStart? && frames[k].id == m)
    || (frames[k].BlockStart? && frames[k].index == Some(i) && frames[k].block.TextBlock? && OpenId(frames[..k]) == m)
  }

  lemma {:induction false} BlockAfterStart(frames: seq<Frame>, k: nat, m: string, i: Int64, text: string)
    requires k < |frames| && m != "" && OpenId(frames[..k]) == m
    requires frames[k] == BlockStart(Some(i), TextBlock(text))
    requires forall l: nat | k < l < |frames| :: !Restarts(frames, l, m, i)
    ensures BlockOf(frames, m, i).Some?
    ensures BlockOf(frames, m, i).value.text == text + DeltaText(frames, k + 1, m, i)
  {
    var init, last := frames[..|frames| - 1], frames[|frames| - 1];
    if k == |frames| - 1 {
      assert text + "" == text;
    } else {
      assert init[..k] == frames[..k];
      forall l: nat | k < l < |init| ensures !Restarts(init, l, m, i) {
        assert !Restarts(frames, l, m, i) && init[..l] == frames[..l];
      }
      BlockAfterStart(init, k, m, i, text);
      assert !Restarts(frames, |frames| - 1, m, i);
      if last.BlockDelta? && last.delta.TextDelta? {
        assert text + (DeltaText(init, k + 1, m, i) + last.delta.text) ==
               (text + DeltaText(init, k + 1, m, i)) + last.delta.text;
      }
    }
  }

  /** Each text block is rebuilt as its start text followed by its deltas in order. */
  lemma TextPreserved(frames: seq<Frame>, session: string, k: nat, m: string, i: Int64, text: string)
    requires k < |frames| && m != "" && OpenId(frames[..k]) == m
    requires frames[k] == BlockStart(Some(i), TextBlock(text))
    requires forall l: nat | k < l < |frames| :: !Restarts(frames, l, m, i)
    ensures var part := PartIn(ReduceAll(TranslateAll(frames, session).events), m, PartId(m, i));
      part.Some? && part.value.text == text + DeltaText(frames, k + 1, m, i)
  {
    BlockAfterStart(frames, k, m, i, text);
    ClientMatchesUpstream(frames, session, m, i);
  }

  // ---------- the shape of the emitted events ----------

  predicate Boundary(e: Event) {
    e.Created? || e.Completed?
  }

  /** The message announced by the last boundary event, if that event created one. */
  function LastOpen(events: seq<Event>): string {
    if events == [] then "" else
      match events[|events| - 1]
      case Created(id, _, _) => id
      case Completed(_) => ""
      case _ => LastOpen(events[..|events| - 1])
  }

  lemma {:induction false} LastOpenWasCreated(events: seq<Event>) returns (j: nat)
    requires LastOpen(events) != ""
    ensures j < |events| && events[j].Created? && events[j].id == LastOpen(events)
    ensures forall l | j < l < |events| :: !Boundary(events[l])
  {
    if events[|events| - 1].Created? {
      j := |events| - 1;
    } else {
      j := LastOpenWasCreated(events[..|events| - 1]);
    }
  }

  /** Every event but a creation names the message that is open when it is sent. */
  ghost predicate FollowsOpen(events: seq<Event>) {
    forall k | 0 <= k < |events| && !events[k].Created? :: events[k].messageId == LastOpen(events[..k]) != ""
  }

  lemma FollowsOpenSnoc(events: seq<Event>, e: Event)
    requires FollowsOpen(events) && (!e.Created? ==> e.messageId == LastOpen(events) != "")
    ensures FollowsOpen(events + [e])
    ensures LastOpen(events + [e]) == if e.Created? then e.id else if e.Completed? then "" else LastOpen(events)
  {
    var all := events + [e];
    assert all[..|events|] == events;
    forall k | 0 <= k < |all| && !all[k].Created? ensures all[k].messageId == LastOpen(all[..k]) != "" {
      assert k < |events| ==> all[..k] == events[..k];
    }
  }

  lemma {:induction false} EventsFollowOpen(frames: seq<Frame>, session: string)
    ensures var t := TranslateAll(frames, session); t.active == LastOpen(t.events) && FollowsOpen(t.events)
  {
    if frames != [] {
      var init, last := frames[..|frames| - 1], frames[|frames| - 1];
      EventsFollowOpen(init, session);
      var before := TranslateAll(init, session);
      FollowsOpenStep(before.events, last, session, before.active);
    }
  }

  lemma FollowsOpenStep(events: seq<Event>, f: Frame, session: string, active: string)
    requires FollowsOpen(events) && active == LastOpen(events)
    ensures var step := Translate(f, session, active);
      FollowsOpen(events + step.events) && step.active == LastOpen(events + step.events)
  {
    var step := Translate(f, session, active);
    if step.events == [] {
      assert events + [] == events;
    } else {
      assert step.events == [step.events[0]];
      FollowsOpenSnoc(events, step.events[0]);
    }
  }

  /**
   * For every upstream stream: a part event or a completed event names the message of an earlier created event,
   * and no other created or completed event lies between the two.
   */
  lemma EventsNameTheOpenMessage(frames: seq<Frame>, session: string, k: nat) returns (j: nat)
    requires k < |TranslateAll(frames, session).events| && !TranslateAll(frames, session).events[k].Created?
    ensures var events := TranslateAll(frames, session).events;
      && j < k && events[j].Created? && events[j].id == events[k].messageId
      && forall l | j < l < k :: !Boundary(events[l])
  {
    EventsFollowOpen(frames, session);
    j := OpenerOf(TranslateAll(frames, session).events, k);
  }

  lemma OpenerOf(events: seq<Event>, k: nat) returns (j: nat)
    requires k < |events| && !events[k].Created? && FollowsOpen(events)
    ensures j < k && events[j].Created? && events[j].id == events[k].messageId
    ensures forall l | j < l < k :: !Boundary(events[l])
  {
    j := LastOpenWasCreated(events[..k]);
  }
}
