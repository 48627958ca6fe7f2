/** The chunked credential store over whole runs of saves, loads and deletes on several accounts. */
module SecretStoreRuns {
  import opened Outcomes
  import opened SecretSplit
  import opened SecretManifest
  import opened SecretStore
  import opened SecretStoreProofs

  datatype Call = SaveCall(account: string, secret: string, generation: string)
                | LoadCall(account: string)
                | DeleteCall(account: string)

  function Apply(s: Store, plan: Plan, call: Call): Step<Option<string>> {
    match call
    case SaveCall(account, secret, generation) => Silent(Save(s, plan, account, secret, generation))
    case LoadCall(account) => Load(s, plan, account)
    case DeleteCall(account) => Silent(Delete(s, plan, account))
  }

  function Silent(step: Step<()>): Step<Option<string>> {
    Step(step.store, if step.reply.Done? then Done(None) else step.reply.Forward())
  }

  function Run(s: Store, plan: Plan, calls: seq<Call>): Store
    decreases |calls|
  {
    if calls == [] then s else Run(Apply(s, plan, calls[0]).store, plan, calls[1..])
  }

  /** Every save of the run draws a generation that is fresh when it is made. */
  ghost predicate FreshRun(s: Store, plan: Plan, calls: seq<Call>)
    decreases |calls|
  {
    calls == [] ||
    (&& (calls[0].SaveCall? ==> Fresh(s.slots, calls[0].account, calls[0].generation))
     && FreshRun(Apply(s, plan, calls[0]).store, plan, calls[1..]))
  }

  /** No account name is another one followed by `#`. */
  ghost predicate Separate(accounts: set<string>) {
    forall a, b | a in accounts && b in accounts && a != b :: Apart(a, b)
  }

  ghost predicate Concerns(calls: seq<Call>, accounts: set<string>) {
    forall i | 0 <= i < |calls| :: calls[i].account in accounts
  }

  /** The replies of a run, call by call. */
  function Replies(s: Store, plan: Plan, calls: seq<Call>): (replies: seq<Reply<Option<string>>>)
    ensures |replies| == |calls|
    decreases |calls|
  {
    if calls == [] then [] else
      var t := Apply(s, plan, calls[0]);
      [t.reply] + Replies(t.store, plan, calls[1..])
  }

  /**
   * What one call may do to an account that holds `before`, given its reply. A call that returned Done takes effect;
   * one rejected for its secret or in its cleanup does not; one that failed at a slot or was stopped may or may not.
   * A load answers what the account holds unless a slot read fails or it is stopped.
   */
  predicate Permitted(call: Call, reply: Reply<Option<string>>, account: string, before: Content, after: Content) {
    if call.account != account then after == before
    else match call
      case LoadCall(_) =>
        after == before && (reply == Stopped || reply == Failed(SlotError) || reply == AsReply(before))
      case SaveCall(_, secret, _) =>
        if Rejected(reply) then after == before else after == Secret(secret) || (!reply.Done? && after == before)
      case DeleteCall(_) => after == Missing || (!reply.Done? && after == before)
  }

  predicate Rejected(reply: Reply<Option<string>>) {
    reply.Failed? && reply.error != SlotError
  }

  /** The replies and the final content are those of the calls taking effect one after another, whole or not at all. */
  ghost predicate Linearised(
    calls: seq<Call>, replies: seq<Reply<Option<string>>>, account: string, before: Content, after: Content)
    requires |calls| == |replies|
    decreases |calls|
  {
    if calls == [] then before == after else
      exists next :: Permitted(calls[0], replies[0], account, before, next) &&
                     Linearised(calls[1..], replies[1..], account, next, after)
  }

  /** Calls on one account leave what a separate account holds, and its freshness and hygiene, alone. */
  lemma OthersUntouched(a: Slots, b: Slots, account: string, other: string)
    requires Apart(account, other)
    requires forall n :: !Belongs(account, n) ==> Lookup(a, n) == Lookup(b, n)
    ensures Read(a, other) == Read(b, other)
    ensures Hygienic(a, other) ==> Hygienic(b, other)
  {
    forall n | Belongs(other, n) ensures Lookup(a, n) == Lookup(b, n) {
      if Belongs(account, n) {
        ApartAccountsShareNothing(account, other, n);
      }
    }
    if Published(a, other).Some? {
      NamesBelong(other, Published(a, other).value);
    }
    ReadAgrees(a, b, other);
    if Hygienic(a, other) {
      forall n ensures n in b && Belongs(other, n) <==> n in Footprint(b, other) {
        assert Lookup(a, other) == Lookup(b, other);
        assert Belongs(other, n) ==> Lookup(a, n) == Lookup(b, n);
      }
    }
  }

  lemma CallIsPermitted(s: Store, plan: Plan, call: Call)
    requires call.SaveCall? ==> Fresh(s.slots, call.account, call.generation)
    ensures var t := Apply(s, plan, call);
      && Permitted(call, t.reply, call.account, Read(s.slots, call.account), Read(t.store.slots, call.account))
      && (forall n :: !Belongs(call.account, n) ==> Lookup(t.store.slots, n) == Lookup(s.slots, n))
  {
    match call
    case SaveCall(account, secret, generation) => SaveIsAtomic(s, plan, account, secret, generation);
    case LoadCall(account) => LoadReads(s, plan, account);
    case DeleteCall(account) => DeleteIsAtomic(s, plan, account);
  }

  /**
   * Under every fault plan every run is linearised: each account's replies and final content are those of its calls
   * taking effect in order, a call that returned Done always, any other call wholly or not at all.
   */
  lemma {:induction false} RunsLinearise(s: Store, plan: Plan, calls: seq<Call>, accounts: set<string>, account: string)
    requires Separate(accounts) && Concerns(calls, accounts) && account in accounts && FreshRun(s, plan, calls)
    ensures Linearised(
              calls, Replies(s, plan, calls), account, Read(s.slots, account), Read(Run(s, plan, calls).slots, account))
    decreases |calls|
  {
    if calls != [] {
      var t := Apply(s, plan, calls[0]);
      CallIsPermitted(s, plan, calls[0]);
      if calls[0].account != account {
        OthersUntouched(s.slots, t.store.slots, calls[0].account, account);
      }
      RunsLinearise(t.store, plan, calls[1..], accounts, account);
      assert Replies(s, plan, calls)[1..] == Replies(t.store, plan, calls[1..]);
      assert Permitted(calls[0], t.reply, account, Read(s.slots, account), Read(t.store.slots, account));
    }
  }

  /** Linearisation leaves no choice where every call returned: the last save or delete decides. */
  lemma {:induction false} LastDoneDecides(
    calls: seq<Call>, replies: seq<Reply<Option<string>>>, account: string, before: Content, after: Content)
    requires |calls| == |replies| && Linearised(calls, replies, account, before, after)
    requires forall i | 0 <= i < |replies| :: replies[i].Done?
    ensures after == Fold(calls, account, before)
    decreases |calls|
  {
    if calls != [] {
      var next :| Permitted(calls[0], replies[0], account, before, next) &&
                  Linearised(calls[1..], replies[1..], account, next, after);
      LastDoneDecides(calls[1..], replies[1..], account, next, after);
    }
  }

  /** The calls on `account`, all taking effect. */
  function Fold(calls: seq<Call>, account: string, before: Content): Content
    decreases |calls|
  {
    if calls == [] then before else
      var next := if calls[0].account != account || calls[0].LoadCall? then before
                  else if calls[0].SaveCall? then Secret(calls[0].secret) else Missing;
      Fold(calls[1..], account, next)
  }

  // ---------- storage hygiene ----------

  /** The slots an account is entitled to: its own slot and the chunks its published manifest names. */
  function Footprint(slots: Slots, account: string): set<string> {
    if account in slots then {account} + PreviousNames(slots, account) else {}
  }

  ghost predicate Hygienic(slots: Slots, account: string) {
    forall n :: n in slots && Belongs(account, n) <==> n in Footprint(slots, account)
  }

  /** Reads and writes may fail; removals work and the process is not stopped. */
  ghost predicate Orderly(plan: Plan) {
    && (forall t :: plan.onGet(t) in {Works, Fails})
    && (forall t :: plan.onSet(t) in {Works, Fails})
    && (forall t :: plan.onRemove(t) == Works)
  }

  /** In a hygienic account any generation other than the published one is fresh. */
  lemma HygienicFreshness(slots: Slots, account: string, generation: string)
    requires Hygienic(slots, account) && NewGeneration(slots, account, generation)
    ensures Fresh(slots, account, generation)
  {
    var all, previous := Manifest(Some(generation), MAX_CHUNKS), Published(slots, account);
    NamesBelong(account, all);
    if previous.Some? {
      NamesDisjoint(account, all, previous.value);
    }
    forall n | n in ChunkNames(account, all) ensures n !in slots {
      assert n in slots && Belongs(account, n) <==> n in Footprint(slots, account);
    }
  }

  /** Every save of the run draws a well-formed generation other than the one its account publishes then. */
  ghost predicate NewGenerations(s: Store, plan: Plan, calls: seq<Call>)
    decreases |calls|
  {
    calls == [] ||
    (&& (calls[0].SaveCall? ==> NewGeneration(s.slots, calls[0].account, calls[0].generation))
     && NewGenerations(Apply(s, plan, calls[0]).store, plan, calls[1..]))
  }

  predicate NewGeneration(slots: Slots, account: string, generation: string) {
    IsGeneration(generation) &&
    (Published(slots, account).Some? ==> Published(slots, account).value.generation != Some(generation))
  }

  lemma {:induction false} RemovalsFinish(s: Store, plan: Plan, account: string, m: Manifest, i: nat)
    requires Orderly(plan) && i <= m.count
    ensures RemoveChunks(s, plan, account, m, i).reply.Done?
    decreases m.count - i
  {
    if i < m.count {
      assert plan.onRemove(s.tick) == Works;
      RemovalsFinish(Remove(s, plan, ChunkName(account, m, i)).store, plan, account, m, i + 1);
    }
  }

  /** Every keyring operation works. */
  ghost predicate AllWorks(plan: Plan) {
    forall t :: plan.onGet(t) == plan.onSet(t) == plan.onRemove(t) == Works
  }

  /**
   * On a working keyring a save answers by the secret alone: an empty one and one that no cutting into 64 pieces of
   * 1000 UTF-16 units exists for are refused, every other one is saved.
   */
  lemma SaveSucceedsExactly(s: Store, plan: Plan, account: string, secret: string, generation: string)
    requires AllWorks(plan)
    ensures var reply := Save(s, plan, account, secret, generation).reply;
      && (reply.Done? <==> secret != "" && exists parts :: FitsSlots(secret, parts))
      && (!reply.Done? ==> reply == Failed(if secret == "" then EmptySecret else TooLarge))
  {
    SplitsExactly(secret);
    assert plan.onGet(s.tick) == Works;
    if secret != "" && SplitSecret(secret).Ok? {
      var got := Store(s.slots, s.tick + 1);
      PublicationFinishes(got, plan, account, secret, generation);
      var previous := Published(s.slots, account);
      if previous.Some? {
        RemovalsFinish(Publish(got, plan, account, secret, generation).store, plan, account, previous.value, 0);
      }
    }
  }

  /** On a working keyring a delete succeeds and takes away the account's slot and the chunks it publishes, no more. */
  lemma DeleteSucceeds(s: Store, plan: Plan, account: string)
    requires AllWorks(plan)
    ensures var t := Delete(s, plan, account);
      t.reply.Done? && t.store.slots == s.slots - ({account} + PreviousNames(s.slots, account))
  {
    assert plan.onGet(s.tick) == Works && plan.onRemove(s.tick + 1) == Works;
    PreviousIsRemoved(Store(s.slots - {account}, s.tick + 2), plan, account, Published(s.slots, account));
  }

  lemma PreviousIsRemoved(s: Store, plan: Plan, account: string, previous: Option<Manifest>)
    requires AllWorks(plan)
    ensures var t := RemovePrevious(s, plan, account, previous);
      t.reply.Done? && t.store.slots == s.slots - (if previous.Some? then ChunkNames(account, previous.value) else {})
  {
    if previous.Some? {
      RemovalsFinish(s, plan, account, previous.value, 0);
      RemoveAllDone(s, plan, account, previous.value);
    }
  }

  lemma {:induction false} StagingNeverStops(
    s: Store, plan: Plan, account: string, m: Manifest, chunks: seq<string>, i: nat)
    requires Orderly(plan) && i <= m.count == |chunks|
    ensures !StageChunks(s, plan, account, m, chunks, i).reply.Stopped?
    decreases m.count - i
  {
    if i < m.count {
      assert plan.onSet(s.tick) in {Works, Fails};
      var r := Set(s, plan, ChunkName(account, m, i), chunks[i]);
      if r.reply.Done? {
        StagingNeverStops(r.store, plan, account, m, chunks, i + 1);
      }
    }
  }

  lemma OrderlyPublish(s: Store, plan: Plan, account: string, secret: string, generation: string)
    requires Orderly(plan)
    ensures Publish(s, plan, account, secret, generation).reply in {Done(()), Failed(SlotError)}
  {
    assert plan.onSet(s.tick) in {Works, Fails};
    if !Plain(secret) {
      var next, chunks := Next(secret, generation), Chunks(secret);
      var r := StageChunks(s, plan, account, next, chunks, 0);
      StagingNeverStops(s, plan, account, next, chunks, 0);
      StageFailure(s, plan, account, next, chunks, 0);
      assert plan.onSet(r.store.tick) in {Works, Fails};
      RemovalsFinish(Stage(s, plan, account, generation, chunks).store, plan, account, next, 0);
    }
  }

  /** A save either succeeds and keeps the account hygienic, or fails and leaves the whole slot map as it was. */
  lemma SaveIsHygienic(s: Store, plan: Plan, account: string, secret: string, generation: string)
    requires Orderly(plan) && Fresh(s.slots, account, generation) && Hygienic(s.slots, account)
    ensures var t := Save(s, plan, account, secret, generation);
      && Hygienic(t.store.slots, account)
      && (t.reply.Failed? ==> t.store.slots == s.slots)
      && !t.reply.Stopped?
  {
    var t := Save(s, plan, account, secret, generation);
    assert plan.onGet(s.tick) in {Works, Fails};
    if secret != "" && plan.onGet(s.tick).Works? && SplitSecret(secret).Ok? {
      var got := Get(s, plan, account).store;
      OrderlyPublish(got, plan, account, secret, generation);
      PublishEffect(got, plan, account, secret, generation);
      var u := Publish(got, plan, account, secret, generation);
      if u.reply.Done? {
        FreshNames(s.slots, account, secret, generation);
        var previous := Published(s.slots, account);
        if previous.Some? {
          RemovalsFinish(u.store, plan, account, previous.value, 0);
          RemoveAllDone(u.store, plan, account, previous.value);
        }
        var stale := PreviousNames(s.slots, account);
        assert t.store.slots == u.store.slots - stale;
        HeldOff(u.store.slots, t.store.slots, stale, account, secret, generation);
        HeldIsRead(t.store.slots, account, secret, generation);
        HeldIsOccupied(t.store.slots, account, secret, generation);
        forall n ensures n in t.store.slots && Belongs(account, n) <==> n in Footprint(t.store.slots, account) {
          assert n in s.slots && Belongs(account, n) <==> n in Footprint(s.slots, account);
          if n !in {account} + NextNames(account, secret, generation) {
            assert Lookup(u.store.slots, n) == Lookup(s.slots, n);
          }
        }
      }
    }
  }

  lemma HeldIsOccupied(slots: Slots, account: string, secret: string, generation: string)
    requires Holds(slots, account, secret, generation)
    ensures {account} + NextNames(account, secret, generation) <= slots.Keys
  {
    if !Plain(secret) {
      forall n | n in NextNames(account, secret, generation) ensures n in slots {
        var i :| 0 <= i < |Chunks(secret)| && n == ChunkName(account, Next(secret, generation), i);
      }
    }
  }

  lemma DeleteIsHygienic(s: Store, plan: Plan, account: string)
    requires Orderly(plan) && Hygienic(s.slots, account)
    ensures var t := Delete(s, plan, account);
      && Hygienic(t.store.slots, account)
      && (t.reply.Failed? ==> t.store.slots == s.slots)
      && !t.reply.Stopped?
  {
    assert plan.onGet(s.tick) in {Works, Fails};
    assert plan.onRemove(s.tick + 1) == Works;
    var previous := Published(s.slots, account);
    if plan.onGet(s.tick).Works? {
      var u := Remove(Get(s, plan, account).store, plan, account);
      if previous.Some? {
        RemovalsFinish(u.store, plan, account, previous.value, 0);
        RemoveAllDone(u.store, plan, account, previous.value);
      }
      var t := Delete(s, plan, account).store.slots;
      assert t == s.slots - {account} - PreviousNames(s.slots, account);
      forall n ensures !(n in t && Belongs(account, n)) {
        assert n in s.slots && Belongs(account, n) <==> n in Footprint(s.slots, account);
      }
    }
  }

  /** The store as a plain table: a save that succeeds sets the account, a delete that succeeds clears it. */
  function Track(s: Store, plan: Plan, calls: seq<Call>, table: map<string, Content>): map<string, Content>
    decreases |calls|
  {
    if calls == [] then table else
      var t := Apply(s, plan, calls[0]);
      var updated :=
        if !t.reply.Done? || calls[0].LoadCall? then table
        else table[calls[0].account := if calls[0].SaveCall? then Secret(calls[0].secret) else Missing];
      Track(t.store, plan, calls[1..], updated)
  }

  ghost predicate Matches(slots: Slots, accounts: set<string>, table: map<string, Content>) {
    forall a | a in accounts :: a in table && Hygienic(slots, a) && Read(slots, a) == table[a]
  }

  lemma OrderlyCall(s: Store, plan: Plan, call: Call)
    requires Orderly(plan) && Hygienic(s.slots, call.account)
    requires call.SaveCall? ==> Fresh(s.slots, call.account, call.generation)
    ensures var t := Apply(s, plan, call);
      && Hygienic(t.store.slots, call.account)
      && (!t.reply.Done? ==> t.store.slots == s.slots)
      && (t.reply.Done? && call.SaveCall? ==> Read(t.store.slots, call.account) == Secret(call.secret))
      && (t.reply.Done? && call.DeleteCall? ==> Read(t.store.slots, call.account) == Missing)
      && (call.LoadCall? ==> t.store.slots == s.slots)
  {
    match call
    case SaveCall(account, secret, generation) =>
      SaveIsHygienic(s, plan, account, secret, generation);
      SaveIsAtomic(s, plan, account, secret, generation);
    case LoadCall(account) => LoadReads(s, plan, account);
    case DeleteCall(account) =>
      DeleteIsHygienic(s, plan, account);
      DeleteIsAtomic(s, plan, account);
  }

  /**
   * Storage hygiene and refinement over runs: with arbitrary read and write failures, after every run each
   * account occupies exactly its own slot and the chunks its manifest names, and holds what the plain table says.
   */
  lemma {:induction false} RunsRefineTable(
    s: Store, plan: Plan, calls: seq<Call>, accounts: set<string>, table: map<string, Content>)
    requires Orderly(plan) && Separate(accounts) && Concerns(calls, accounts) && NewGenerations(s, plan, calls)
    requires Matches(s.slots, accounts, table)
    ensures Matches(Run(s, plan, calls).slots, accounts, Track(s, plan, calls, table))
    decreases |calls|
  {
    if calls != [] {
      var call := calls[0];
      var t := Apply(s, plan, call);
      if call.SaveCall? {
        HygienicFreshness(s.slots, call.account, call.generation);
      }
      OrderlyCall(s, plan, call);
      CallIsPermitted(s, plan, call);
      var updated :=
        if !t.reply.Done? || call.LoadCall? then table
        else table[call.account := if call.SaveCall? then Secret(call.secret) else Missing];
      forall a | a in accounts
        ensures a in updated && Hygienic(t.store.slots, a) && Read(t.store.slots, a) == updated[a]
      {
        if a != call.account {
          OthersUntouched(s.slots, t.store.slots, call.account, a);
        }
      }
      RunsRefineTable(t.store, plan, calls[1..], accounts, updated);
    }
  }
}
