/**
 * `subscribe`, `unsubscribe` and `broadcast` of streaming.go: bounded fan-out to subscriber channels.
 * One producer sends to the snapshotted channels one by one; receives and new subscriptions may come between
 * two sends, unsubscription only between broadcasts.
 */
module FanOut {
  const CAPACITY: nat := 64

  /** The non-blocking send: a full queue drops the event. */
  function Offer<E>(queue: seq<E>, ev: E): seq<E> {
    if |queue| < CAPACITY then queue + [ev] else queue
  }

  /** Where `ch` first occurs, or the length when it does not. */
  function PositionOf(subs: seq<nat>, ch: nat): (i: nat)
    ensures i <= |subs| && (forall k | 0 <= k < i :: subs[k] != ch) && (i < |subs| ==> subs[i] == ch)
  {
    if subs == [] || subs[0] == ch then 0 else 1 + PositionOf(subs[1..], ch)
  }

  function WithoutFirst(subs: seq<nat>, ch: nat): seq<nat> {
    var i := PositionOf(subs, ch);
    if i < |subs| then subs[..i] + subs[i + 1..] else subs
  }

  /** One channel: where in the log it joined, how full it was at each send to it, and what was taken and queued. */
  datatype Channel<E> = Channel(joined: nat, fills: seq<nat>, received: seq<E>, queue: seq<E>)

  /** `pending` are the snapshotted channels the last logged event has not been sent to yet. */
  datatype Session<E> = Session(subscribers: seq<nat>, channels: map<nat, Channel<E>>, log: seq<E>, pending: seq<nat>)

  datatype Step<E> = Subscribe(ch: nat) | Unsubscribe(ch: nat) | Begin(ev: E) | Send | Receive(ch: nat)

  predicate Enabled<E>(s: Session<E>, step: Step<E>) {
    match step
    case Subscribe(ch) => ch !in s.channels
    case Unsubscribe(ch) => s.pending == [] && ch in s.channels
    case Begin(_) => s.pending == []
    case Send => s.pending != [] && s.log != [] && s.pending[0] in s.channels
    case Receive(ch) => ch in s.channels && s.channels[ch].queue != []
  }

  function Next<E>(s: Session<E>, step: Step<E>): Session<E>
    requires Enabled(s, step)
  {
    match step
    case Subscribe(ch) =>
      s.(subscribers := s.subscribers + [ch], channels := s.channels[ch := Channel(|s.log|, [], [], [])])
    case Unsubscribe(ch) => s.(subscribers := WithoutFirst(s.subscribers, ch))
    case Begin(ev) => s.(log := s.log + [ev], pending := s.subscribers)
    case Send =>
      var ch := s.pending[0];
      var c := s.channels[ch];
      var sent := c.(queue := Offer(c.queue, s.log[|s.log| - 1]), fills := c.fills + [|c.queue|]);
      s.(channels := s.channels[ch := sent], pending := s.pending[1..])
    case Receive(ch) =>
      var c := s.channels[ch];
      s.(channels := s.channels[ch := c.(received := c.received + [c.queue[0]], queue := c.queue[1..])])
  }

  /** A run is a list of steps, each enabled where it is taken. */
  ghost predicate IsRun<E>(s: Session<E>, steps: seq<Step<E>>)
    decreases |steps|
  {
    steps == [] || (Enabled(s, steps[0]) && IsRun(Next(s, steps[0]), steps[1..]))
  }

  function Run<E>(s: Session<E>, steps: seq<Step<E>>): Session<E>
    requires IsRun(s, steps)
    decreases |steps|
  {
    if steps == [] then s else Run(Next(s, steps[0]), steps[1..])
  }

  /** The sends to a channel that found room, as offsets from where it joined. */
  function Kept(fills: seq<nat>): seq<nat> {
    if fills == [] then [] else
      var init := Kept(fills[..|fills| - 1]);
      if fills[|fills| - 1] < CAPACITY then init + [|fills| - 1] else init
  }

  lemma {:induction false} KeptIncreases(fills: seq<nat>)
    ensures forall i | 0 <= i < |Kept(fills)| :: Kept(fills)[i] < |fills| && fills[Kept(fills)[i]] < CAPACITY
    ensures forall i, j | 0 <= i < j < |Kept(fills)| :: Kept(fills)[i] < Kept(fills)[j]
    ensures forall k: nat | k < |fills| && fills[k] < CAPACITY :: k in Kept(fills)
  {
    if fills != [] {
      KeptIncreases(fills[..|fills| - 1]);
    }
  }

  // ---------- invariant ----------

  /** A channel holds, taken or queued, exactly the events that found room, in the order they were broadcast. */
  ghost predicate Faithful<E>(c: Channel<E>, log: seq<E>) {
    && |c.queue| <= CAPACITY
    && (forall k | 0 <= k < |c.fills| :: c.fills[k] <= CAPACITY)
    && c.joined + |c.fills| <= |log|
    && var held := c.received + c.queue;
       |held| == |Kept(c.fills)| &&
       forall i | 0 <= i < |held| :: Kept(c.fills)[i] < |c.fills| && held[i] == log[c.joined + Kept(c.fills)[i]]
  }

  ghost predicate Distinct(ids: seq<nat>) {
    forall i, j | 0 <= i < j < |ids| :: ids[i] != ids[j]
  }

  /** A subscribed channel has been sent every event since it joined, but for the one still on its way. */
  ghost predicate UpToDate<E>(s: Session<E>, ch: nat)
    requires ch in s.channels
  {
    var c := s.channels[ch];
    c.joined + |c.fills| + (if ch in s.pending then 1 else 0) == |s.log|
  }

  ghost predicate Inv<E>(s: Session<E>) {
    && Distinct(s.subscribers) && Distinct(s.pending)
    && (forall ch | ch in s.pending :: ch in s.subscribers)
    && (forall ch | ch in s.subscribers :: ch in s.channels && UpToDate(s, ch))
    && (forall ch | ch in s.channels :: Faithful(s.channels[ch], s.log))
    && (s.pending != [] ==> s.log != [])
  }

  lemma SendKeepsFaithful<E>(c: Channel<E>, log: seq<E>)
    requires Faithful(c, log) && c.joined + |c.fills| + 1 == |log|
    ensures Faithful(c.(queue := Offer(c.queue, log[|log| - 1]), fills := c.fills + [|c.queue|]), log)
  {
    var t := c.(queue := Offer(c.queue, log[|log| - 1]), fills := c.fills + [|c.queue|]);
    assert t.fills[..|t.fills| - 1] == c.fills;
    KeptIncreases(c.fills);
    if |c.queue| < CAPACITY {
      assert t.received + t.queue == (c.received + c.queue) + [log[|log| - 1]];
    }
  }

  lemma WithoutFirstEffect(subs: seq<nat>, ch: nat)
    requires Distinct(subs)
    ensures Distinct(WithoutFirst(subs, ch))
    ensures forall x :: x in WithoutFirst(subs, ch) <==> x in subs && x != ch
  {
    var i, rest := PositionOf(subs, ch), WithoutFirst(subs, ch);
    if i < |subs| {
      assert forall k | 0 <= k < |subs| :: k < i ==> rest[k] == subs[k];
      assert forall k | 0 <= k < |subs| :: k > i ==> rest[k - 1] == subs[k];
    }
  }

  lemma SendKeepsInv<E>(s: Session<E>)
    requires Inv(s) && Enabled(s, Send)
    ensures Inv(Next(s, Send))
  {
    var ch, t := s.pending[0], Next(s, Send);
    assert ch in s.pending && UpToDate(s, ch);
    assert Faithful(s.channels[ch], s.log);
    SendKeepsFaithful(s.channels[ch], s.log);
    assert forall x :: x in s.pending <==> x == ch || x in t.pending;
    assert ch !in t.pending;
    forall x | x in t.subscribers ensures x in t.channels && UpToDate(t, x) {
      assert x in s.channels && UpToDate(s, x);
    }
  }

  lemma ReceiveKeepsInv<E>(s: Session<E>, ch: nat)
    requires Inv(s) && Enabled(s, Receive(ch))
    ensures Inv(Next(s, Receive(ch)))
  {
    var t := Next(s, Receive(ch));
    var c, u := s.channels[ch], t.channels[ch];
    assert Faithful(c, s.log);
    assert u.received + u.queue == c.received + c.queue;
    forall x | x in t.subscribers ensures x in t.channels && UpToDate(t, x) {
      assert x in s.channels && UpToDate(s, x);
    }
  }

  lemma BeginKeepsInv<E>(s: Session<E>, ev: E)
    requires Inv(s) && Enabled(s, Begin(ev))
    ensures Inv(Next(s, Begin(ev)))
  {
    var t := Next(s, Begin(ev));
    forall x | x in t.channels ensures Faithful(t.channels[x], t.log) {
      assert Faithful(s.channels[x], s.log);
    }
    forall x | x in t.subscribers ensures x in t.channels && UpToDate(t, x) {
      assert UpToDate(s, x);
    }
  }

  lemma SubscriptionKeepsInv<E>(s: Session<E>, step: Step<E>)
    requires Inv(s) && Enabled(s, step) && (step.Subscribe? || step.Unsubscribe?)
    ensures Inv(Next(s, step))
  {
    var t := Next(s, step);
    if step.Unsubscribe? {
      WithoutFirstEffect(s.subscribers, step.ch);
    } else {
      assert forall x | x in s.subscribers :: x != step.ch;
    }
    forall x | x in t.subscribers ensures x in t.channels && UpToDate(t, x) {
      if x in s.subscribers {
        assert UpToDate(s, x);
      }
    }
  }

  lemma StepKeepsInv<E>(s: Session<E>, step: Step<E>)
    requires Inv(s) && Enabled(s, step)
    ensures Inv(Next(s, step))
  {
    match step {
      case Begin(ev) => BeginKeepsInv(s, ev);
      case Send => SendKeepsInv(s);
      case Receive(ch) => ReceiveKeepsInv(s, ch);
      case _ => SubscriptionKeepsInv(s, step);
    }
  }

  lemma {:induction false} RunKeepsInv<E>(s: Session<E>, steps: seq<Step<E>>)
    requires Inv(s) && IsRun(s, steps)
    ensures Inv(Run(s, steps))
    decreases |steps|
  {
    if steps != [] {
      StepKeepsInv(s, steps[0]);
      RunKeepsInv(Next(s, steps[0]), steps[1..]);
    }
  }

  function NewSession<E>(): Session<E> {
    Session([], map[], [], [])
  }

  /**
   * What a channel has received and queued are log entries at strictly increasing positions since it joined; its
   * queue holds at most 64; an offset is missing only if the queue was full at that send; and a subscribed channel
   * has been sent everything but the event now being broadcast.
   */
  ghost predicate FaithfulDelivery<E>(s: Session<E>, ch: nat)
    requires ch in s.channels
  {
    var c := s.channels[ch];
    var kept := Kept(c.fills);
    var held := c.received + c.queue;
    && |c.queue| <= 64
    && |held| == |kept| && c.joined + |c.fills| <= |s.log|
    && (forall i | 0 <= i < |held| :: kept[i] < |c.fills| && held[i] == s.log[c.joined + kept[i]])
    && (forall i, j | 0 <= i < j < |kept| :: kept[i] < kept[j])
    && (forall k: nat | k < |c.fills| && k !in kept :: c.fills[k] == 64)
    && (ch in s.subscribers ==> c.joined + |c.fills| + (if ch in s.pending then 1 else 0) == |s.log|)
  }

  lemma InvDelivers<E>(s: Session<E>, ch: nat)
    requires Inv(s) && ch in s.channels
    ensures FaithfulDelivery(s, ch)
  {
    assert Faithful(s.channels[ch], s.log);
    KeptIncreases(s.channels[ch].fills);
    if ch in s.subscribers {
      assert UpToDate(s, ch);
    }
  }

  /** After any run every channel's delivery is faithful. */
  lemma DeliveryIsFaithful<E>(steps: seq<Step<E>>, ch: nat)
    requires IsRun(NewSession<E>(), steps) && ch in Run(NewSession<E>(), steps).channels
    ensures FaithfulDelivery(Run(NewSession<E>(), steps), ch)
  {
    RunKeepsInv(NewSession<E>(), steps);
    InvDelivers(Run(NewSession<E>(), steps), ch);
  }

  /** A subscription takes effect from the next broadcast on, and an unsubscription drops that channel alone. */
  lemma SubscriptionTakesEffect<E>(s: Session<E>, ch: nat)
    requires Inv(s)
    ensures Enabled(s, Subscribe(ch)) ==>
            var t := Next(s, Subscribe(ch));
            && ch in t.channels && t.channels[ch].joined == |s.log| && t.channels[ch].queue == []
            && forall x :: x in t.subscribers <==> x in s.subscribers || x == ch
    ensures Enabled(s, Unsubscribe(ch)) ==>
            forall x :: x in Next(s, Unsubscribe(ch)).subscribers <==> x in s.subscribers && x != ch
  {
    WithoutFirstEffect(s.subscribers, ch);
  }

  /** A subscriber stays one, and so is sent every event, until it unsubscribes. */
  lemma {:induction false} SubscribedUntilUnsubscribed<E>(s: Session<E>, steps: seq<Step<E>>, ch: nat)
    requires Inv(s) && IsRun(s, steps) && ch in s.subscribers
    requires forall i | 0 <= i < |steps| :: steps[i] != Unsubscribe(ch)
    ensures var t := Run(s, steps);
      ch in t.subscribers && ch in t.channels && UpToDate(t, ch)
    decreases |steps|
  {
    if steps != [] {
      assert steps[0] != Unsubscribe(ch);
      StepKeepsInv(s, steps[0]);
      StepKeepsSubscriber(s, steps[0], ch);
      SubscribedUntilUnsubscribed(Next(s, steps[0]), steps[1..], ch);
    }
  }

  lemma StepKeepsSubscriber<E>(s: Session<E>, step: Step<E>, ch: nat)
    requires Inv(s) && Enabled(s, step) && ch in s.subscribers && step != Unsubscribe(ch)
    ensures ch in Next(s, step).subscribers
  {
    if step.Unsubscribe? {
      WithoutFirstEffect(s.subscribers, step.ch);
    }
  }

  /** From `c` to `d` a channel was sent nothing; its receiver may have taken more of what it held. */
  ghost predicate SentNothing<E>(c: Channel<E>, d: Channel<E>) {
    d.received + d.queue == c.received + c.queue && d.fills == c.fills && |c.received| <= |d.received|
  }

  lemma StepSparesUnsubscribed<E>(s: Session<E>, step: Step<E>, ch: nat)
    requires Inv(s) && Enabled(s, step) && ch in s.channels && ch !in s.subscribers
    ensures var t := Next(s, step);
      ch in t.channels && ch !in t.subscribers && SentNothing(s.channels[ch], t.channels[ch])
  {
    match step
    case Send =>
      assert s.pending[0] in s.pending;
    case Unsubscribe(other) =>
      WithoutFirstEffect(s.subscribers, other);
    case _ =>
  }

  /** An unsubscribed channel is sent nothing more, over every run. */
  lemma {:induction false} UnsubscribedGetsNothing<E>(s: Session<E>, steps: seq<Step<E>>, ch: nat)
    requires Inv(s) && IsRun(s, steps) && ch in s.channels && ch !in s.subscribers
    ensures var t := Run(s, steps);
      ch in t.channels && ch !in t.subscribers && SentNothing(s.channels[ch], t.channels[ch])
    decreases |steps|
  {
    if steps != [] {
      StepKeepsInv(s, steps[0]);
      StepSparesUnsubscribed(s, steps[0], ch);
      UnsubscribedGetsNothing(Next(s, steps[0]), steps[1..], ch);
    }
  }

  /** No send to the channel found its queue full. */
  ghost predicate NeverFull<E>(c: Channel<E>) {
    forall k | 0 <= k < |c.fills| :: c.fills[k] < 64
  }

  lemma {:induction false} KeptCount(fills: seq<nat>)
    ensures |Kept(fills)| <= |fills|
    ensures |Kept(fills)| == |fills| <==> forall k | 0 <= k < |fills| :: fills[k] < CAPACITY
    ensures |Kept(fills)| == |fills| ==> forall k | 0 <= k < |fills| :: Kept(fills)[k] == k
  {
    if fills != [] {
      var init := fills[..|fills| - 1];
      KeptCount(init);
      assert forall k | 0 <= k < |init| :: fills[k] == init[k];
    }
  }

  /** A channel has, taken or queued, all that it was sent, without a gap, if and only if it was never full. */
  lemma NothingIsMissedExactly<E>(s: Session<E>, ch: nat)
    requires Inv(s) && ch in s.channels
    ensures var c := s.channels[ch];
      && c.joined + |c.fills| <= |s.log|
      && (c.received + c.queue == s.log[c.joined..c.joined + |c.fills|] <==> NeverFull(c))
  {
    InvDelivers(s, ch);
    KeptCount(s.channels[ch].fills);
  }

  /** What the receiver of a channel that was never full has taken is a stretch of the log. */
  lemma ReceivedIsStretch<E>(s: Session<E>, ch: nat)
    requires Inv(s) && ch in s.channels && NeverFull(s.channels[ch])
    ensures var c := s.channels[ch];
      && c.joined + |c.received| <= |s.log| && c.received == s.log[c.joined..c.joined + |c.received|]
  {
    var c := s.channels[ch];
    NothingIsMissedExactly(s, ch);
    assert c.received == (c.received + c.queue)[..|c.received|];
  }

  // ---------- the session object ----------

  /** A whole broadcast without interleaving: one offer to each channel of the snapshot, in order. */
  function OfferAll<E>(queues: map<nat, seq<E>>, subs: seq<nat>, ev: E): map<nat, seq<E>> {
    if subs == [] then queues else
      var before := OfferAll(queues, subs[..|subs| - 1], ev);
      var ch := subs[|subs| - 1];
      if ch in before then before[ch := Offer(before[ch], ev)] else before
  }

  lemma OfferOneMore<E>(queues: map<nat, seq<E>>, subs: seq<nat>, i: nat, ev: E)
    requires i < |subs|
    ensures var before := OfferAll(queues, subs[..i], ev);
      OfferAll(queues, subs[..i + 1], ev) ==
      if subs[i] in before then before[subs[i] := Offer(before[subs[i]], ev)] else before
  {
    assert subs[..i + 1][..i] == subs[..i];
  }

  function Queues<E>(s: Session<E>): map<nat, seq<E>> {
    map ch | ch in s.channels :: s.channels[ch].queue
  }

  function Sends<E>(n: nat): seq<Step<E>> {
    if n == 0 then [] else [Send] + Sends(n - 1)
  }

  lemma OneMoreSend<E>(s: Session<E>, n: nat)
    requires Enabled(s, Send) && IsRun(Next(s, Send), Sends<E>(n))
    ensures IsRun(s, Sends<E>(n + 1)) && Run(s, Sends<E>(n + 1)) == Run(Next(s, Send), Sends<E>(n))
  {
    assert Sends<E>(n + 1)[1..] == Sends<E>(n);
  }

  /** The sends of one broadcast, taken without interleaving, do what `OfferAll` says. */
  lemma {:induction false} SendsOfferAll<E>(s: Session<E>, queues: map<nat, seq<E>>, n: nat, ev: E, subs: seq<nat>)
    requires n <= |subs| && s.pending == subs[n..] && s.log != [] && s.log[|s.log| - 1] == ev
    requires forall ch | ch in subs :: ch in s.channels
    requires Queues(s) == OfferAll(queues, subs[..n], ev)
    ensures IsRun(s, Sends<E>(|subs| - n))
    ensures Queues(Run(s, Sends<E>(|subs| - n))) == OfferAll(queues, subs, ev)
    decreases |subs| - n
  {
    if n == |subs| {
      assert subs[..n] == subs;
    } else {
      var t := Next(s, Send);
      assert s.pending[0] == subs[n] && subs[..n + 1][..n] == subs[..n];
      assert t.pending == subs[n + 1..];
      assert Queues(t) == Queues(s)[subs[n] := Offer(Queues(s)[subs[n]], ev)];
      SendsOfferAll(t, queues, n + 1, ev, subs);
      OneMoreSend(s, |subs| - n - 1);
    }
  }

  /** Sending to all pending channels, one after another, is possible and leaves none pending. */
  lemma {:induction false} SendsAreRun<E>(s: Session<E>)
    requires s.log != [] && forall i | 0 <= i < |s.pending| :: s.pending[i] in s.channels
    ensures IsRun(s, Sends<E>(|s.pending|))
    ensures var t := Run(s, Sends<E>(|s.pending|)); t.pending == [] && t.subscribers == s.subscribers
    decreases |s.pending|
  {
    if s.pending != [] {
      SendsAreRun(Next(s, Send));
      OneMoreSend(s, |s.pending| - 1);
    }
  }

  lemma SendsFinish<E>(s: Session<E>)
    requires Inv(s)
    ensures IsRun(s, Sends<E>(|s.pending|))
    ensures var t := Run(s, Sends<E>(|s.pending|)); Inv(t) && t.pending == [] && t.subscribers == s.subscribers
  {
    if s.pending != [] {
      forall i | 0 <= i < |s.pending| ensures s.pending[i] in s.channels {
        assert s.pending[i] in s.pending;
      }
      SendsAreRun(s);
      RunKeepsInv(s, Sends<E>(|s.pending|));
    }
  }

  /** One whole broadcast in the state machine: begin, then a send to every subscriber. */
  ghost function BroadcastAll<E>(s: Session<E>, ev: E): (t: Session<E>)
    requires Inv(s) && s.pending == []
    ensures Inv(t) && t.pending == [] && t.subscribers == s.subscribers
  {
    var begun := Next(s, Begin(ev));
    BeginKeepsInv(s, ev);
    SendsFinish(begun);
    Run(begun, Sends<E>(|begun.pending|))
  }

  /** A whole broadcast offers the event once to every subscriber, in order, and touches no other queue. */
  lemma BroadcastOffersAll<E>(s: Session<E>, ev: E)
    requires Inv(s) && s.pending == []
    ensures Queues(BroadcastAll(s, ev)) == OfferAll(Queues(s), s.subscribers, ev)
  {
    var begun := Next(s, Begin(ev));
    assert begun.pending[0..] == begun.pending && begun.pending[..0] == [];
    assert Queues(begun) == Queues(s);
    SendsOfferAll(begun, Queues(s), 0, ev, begun.pending);
  }

  /** The session's subscriber list and channel buffers; `session` is the state the theorems speak of. */
  class SessionState<E> {
    var subscribers: seq<nat>
    var queues: map<nat, seq<E>>
    ghost var session: Session<E>

    ghost predicate Valid()
      reads this
    {
      Inv(session) && session.pending == [] && subscribers == session.subscribers && queues == Queues(session)
    }

    constructor ()
      ensures Valid() && session == NewSession<E>()
    {
      subscribers, queues := [], map[];
      session := NewSession<E>();
    }

    /** `ch` is a channel made for this subscription. */
    method SubscribeChannel(ch: nat)
      requires Valid() && ch !in queues
      modifies this
      ensures Valid() && old(Enabled(session, Subscribe(ch))) && session == Next(old(session), Subscribe(ch))
    {
      SubscriptionKeepsInv(session, Subscribe(ch));
      subscribers := subscribers + [ch];
      queues := queues[ch := []];
      session := Next(session, Subscribe(ch));
    }

    /** Closing a channel leaves what it has buffered to its receiver. */
    method UnsubscribeChannel(ch: nat)
      requires Valid() && ch in queues
      modifies this
      ensures Valid() && old(Enabled(session, Unsubscribe(ch))) && session == Next(old(session), Unsubscribe(ch))
    {
      var i := 0;
      while i < |subscribers| && subscribers[i] != ch
        invariant i <= |subscribers| && subscribers == old(subscribers)
        invariant forall k | 0 <= k < i :: subscribers[k] != ch
        invariant session == old(session) && queues == old(queues)
      {
        i := i + 1;
      }
      assert i == PositionOf(subscribers, ch);
      SubscriptionKeepsInv(session, Unsubscribe(ch));
      if i < |subscribers| {
        subscribers := subscribers[..i] + subscribers[i + 1..];
      }
      session := Next(session, Unsubscribe(ch));
    }

    /** One receive of the stream handler. */
    method ReceiveEvent(ch: nat) returns (ev: E)
      requires Valid() && ch in queues && queues[ch] != []
      modifies this
      ensures Valid() && old(Enabled(session, Receive(ch))) && session == Next(old(session), Receive(ch))
      ensures ev == old(queues[ch])[0]
    {
      ReceiveKeepsInv(session, ch);
      ev := queues[ch][0];
      queues := queues[ch := queues[ch][1..]];
      session := Next(session, Receive(ch));
    }

    /** The loop over the snapshot, with a non-blocking send to each channel. */
    method Broadcast(ev: E)
      requires Valid()
      modifies this
      ensures Valid() && session == old(BroadcastAll(session, ev))
      ensures subscribers == old(subscribers) && queues == OfferAll(old(queues), old(subscribers), ev)
    {
      BroadcastOffersAll(session, ev);
      session := BroadcastAll(session, ev);
      var subs := subscribers;
      for i := 0 to |subs|
        invariant subscribers == subs && session == old(BroadcastAll(session, ev))
        invariant queues == OfferAll(old(queues), subs[..i], ev)
      {
        OfferOneMore(old(queues), subs, i, ev);
        var ch := subs[i];
        if ch in queues && |queues[ch]| < CAPACITY {
          queues := queues[ch := queues[ch] + [ev]];
        }
      }
      assert subs[..|subs|] == subs;
    }
  }
}
