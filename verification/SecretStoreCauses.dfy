/** Every error and every stop of the credential store has a cause: a refused secret, or a keyring call that failed. */
module SecretStoreCauses {
  import opened Outcomes
  import opened SecretSplit
  import opened SecretManifest
  import opened SecretStore
  import opened SecretStoreProofs

  /** One of the keyring calls number `from` to `to` was planned to fail. */
  ghost predicate FailsBetween(plan: Plan, from: nat, to: nat) {
    exists t: nat :: from <= t < to && (plan.onGet(t) == Fails || plan.onSet(t) == Fails || plan.onRemove(t) == Fails)
  }

  /** One of them was planned to be the last thing the process does. */
  ghost predicate StopsBetween(plan: Plan, from: nat, to: nat) {
    exists t: nat :: from <= t < to && (Stops(plan.onGet(t)) || Stops(plan.onSet(t)) || Stops(plan.onRemove(t)))
  }

  predicate Stops(f: Fault) {
    f == StopsBefore || f == StopsAfter
  }

  /** A failure or stop of a step that began at call `from` was planned among its calls. */
  ghost predicate Planned<T>(plan: Plan, from: nat, step: Step<T>) {
    && from <= step.store.tick
    && (step.reply.Failed? ==> FailsBetween(plan, from, step.store.tick))
    && (step.reply.Stopped? ==> StopsBetween(plan, from, step.store.tick))
  }

  lemma Earlier<T>(plan: Plan, from: nat, later: nat, step: Step<T>)
    requires from <= later && Planned(plan, later, step)
    ensures Planned(plan, from, step)
  {
  }

  lemma SetIsPlanned(s: Store, plan: Plan, name: string, value: string)
    ensures Planned(plan, s.tick, Set(s, plan, name, value))
  {
    assert s.tick <= s.tick < s.tick + 1;
  }

  lemma RemoveIsPlanned(s: Store, plan: Plan, name: string)
    ensures Planned(plan, s.tick, Remove(s, plan, name))
  {
    assert s.tick <= s.tick < s.tick + 1;
  }

  lemma GetIsPlanned(s: Store, plan: Plan, name: string)
    ensures Planned(plan, s.tick, Get(s, plan, name))
  {
    assert s.tick <= s.tick < s.tick + 1;
  }

  lemma {:induction false} RemovalIsPlanned(s: Store, plan: Plan, account: string, m: Manifest, i: nat)
    requires i <= m.count
    ensures Planned(plan, s.tick, RemoveChunks(s, plan, account, m, i))
    decreases m.count - i
  {
    if i < m.count {
      var r := Remove(s, plan, ChunkName(account, m, i));
      RemoveIsPlanned(s, plan, ChunkName(account, m, i));
      if r.reply.Done? {
        RemovalIsPlanned(r.store, plan, account, m, i + 1);
        Earlier(plan, s.tick, r.store.tick, RemoveChunks(r.store, plan, account, m, i + 1));
      }
    }
  }

  lemma {:induction false} StagingIsPlanned(
    s: Store, plan: Plan, account: string, m: Manifest, chunks: seq<string>, i: nat)
    requires i <= m.count == |chunks|
    ensures Planned(plan, s.tick, StageChunks(s, plan, account, m, chunks, i))
    decreases m.count - i
  {
    if i < m.count {
      var r := Set(s, plan, ChunkName(account, m, i), chunks[i]);
      SetIsPlanned(s, plan, ChunkName(account, m, i), chunks[i]);
      if r.reply.Done? {
        StagingIsPlanned(r.store, plan, account, m, chunks, i + 1);
        Earlier(plan, s.tick, r.store.tick, StageChunks(r.store, plan, account, m, chunks, i + 1));
      }
    }
  }

  lemma StageIsPlanned(s: Store, plan: Plan, account: string, generation: string, chunks: seq<string>)
    ensures Planned(plan, s.tick, Stage(s, plan, account, generation, chunks))
  {
    var m := Manifest(Some(generation), |chunks|);
    var r := StageChunks(s, plan, account, m, chunks, 0);
    StagingIsPlanned(s, plan, account, m, chunks, 0);
    if r.reply.Done? {
      SetIsPlanned(r.store, plan, account, Print(generation, |chunks|));
      Earlier(plan, s.tick, r.store.tick, Set(r.store, plan, account, Print(generation, |chunks|)));
    }
  }

  lemma PublishIsPlanned(s: Store, plan: Plan, account: string, secret: string, generation: string)
    ensures Planned(plan, s.tick, Publish(s, plan, account, secret, generation))
  {
    if Plain(secret) {
      SetIsPlanned(s, plan, account, secret);
    } else {
      var staged := Stage(s, plan, account, generation, Chunks(secret));
      StageIsPlanned(s, plan, account, generation, Chunks(secret));
      if staged.reply.Failed? {
        RemovalIsPlanned(staged.store, plan, account, Next(secret, generation), 0);
      }
    }
  }

  lemma PreviousIsPlanned(s: Store, plan: Plan, account: string, previous: Option<Manifest>)
    ensures Planned(plan, s.tick, RemovePrevious(s, plan, account, previous))
  {
    if previous.Some? {
      RemovalIsPlanned(s, plan, account, previous.value, 0);
    }
  }

  /**
   * A save that reports an error was given an empty secret, or one that cannot be split, or met a keyring call that
   * failed; one that was stopped met a call that stopped it.
   */
  lemma SaveErrorsHaveCause(s: Store, plan: Plan, account: string, secret: string, generation: string)
    ensures var t := Save(s, plan, account, secret, generation);
      && (t.reply == Failed(EmptySecret) <==> secret == "")
      && (t.reply == Failed(TooLarge) ==> SplitSecret(secret).Err?)
      && (t.reply.Failed? && t.reply.error != EmptySecret && t.reply.error != TooLarge ==>
            FailsBetween(plan, s.tick, t.store.tick))
      && (t.reply.Stopped? ==> StopsBetween(plan, s.tick, t.store.tick))
  {
    var got := Get(s, plan, account);
    GetIsPlanned(s, plan, account);
    if secret != "" && got.reply.Done? && SplitSecret(secret).Ok? {
      var published := Publish(got.store, plan, account, secret, generation);
      PublishIsPlanned(got.store, plan, account, secret, generation);
      PublishErrors(got.store, plan, account, secret, generation);
      Earlier(plan, s.tick, got.store.tick, published);
      if published.reply.Done? {
        var previous := Published(s.slots, account);
        PreviousIsPlanned(published.store, plan, account, previous);
        Earlier(plan, s.tick, published.store.tick, RemovePrevious(published.store, plan, account, previous));
        if previous.Some? {
          RemovalFailure(published.store, plan, account, previous.value, 0);
        }
      }
    }
  }

  lemma PublishErrors(s: Store, plan: Plan, account: string, secret: string, generation: string)
    ensures var t := Publish(s, plan, account, secret, generation);
      t.reply.Failed? ==> t.reply.error == SlotError || t.reply.error == CleanupError
  {
    if !Plain(secret) {
      StageFailure(s, plan, account, Next(secret, generation), Chunks(secret), 0);
    }
  }

  /** A delete that reports an error or is stopped met a keyring call that failed or stopped it. */
  lemma DeleteErrorsHaveCause(s: Store, plan: Plan, account: string)
    ensures Planned(plan, s.tick, Delete(s, plan, account))
    ensures Delete(s, plan, account).reply.Failed? ==> Delete(s, plan, account).reply.error == SlotError
  {
    var got := Get(s, plan, account);
    GetIsPlanned(s, plan, account);
    if got.reply.Done? {
      var removed, previous := Remove(got.store, plan, account), Published(s.slots, account);
      RemoveIsPlanned(got.store, plan, account);
      Earlier(plan, s.tick, got.store.tick, removed);
      if removed.reply.Done? {
        PreviousIsPlanned(removed.store, plan, account, previous);
        Earlier(plan, s.tick, removed.store.tick, RemovePrevious(removed.store, plan, account, previous));
        if previous.Some? {
          RemovalFailure(removed.store, plan, account, previous.value, 0);
        }
      }
    }
  }

  lemma {:induction false} LoadChunksErrors(
    s: Store, plan: Plan, account: string, m: Manifest, i: nat, secret: string)
    requires i <= m.count
    ensures var t := LoadChunks(s, plan, account, m, i, secret);
      && s.tick <= t.store.tick
      && (t.reply == Failed(SlotError) ==> FailsBetween(plan, s.tick, t.store.tick))
      && (t.reply.Stopped? ==> StopsBetween(plan, s.tick, t.store.tick))
    decreases m.count - i
  {
    if i < m.count {
      var got := Get(s, plan, ChunkName(account, m, i));
      GetIsPlanned(s, plan, ChunkName(account, m, i));
      if got.reply.Done? && got.reply.value.Some? {
        LoadChunksErrors(got.store, plan, account, m, i + 1, secret + got.reply.value.value);
      }
    }
  }

  /** A load that does not answer what the slots hold met a keyring read that failed or stopped it. */
  lemma LoadErrorsHaveCause(s: Store, plan: Plan, account: string)
    ensures var t := Load(s, plan, account);
      || t.reply == AsReply(Read(s.slots, account))
      || (t.reply == Failed(SlotError) && FailsBetween(plan, s.tick, t.store.tick))
      || (t.reply.Stopped? && StopsBetween(plan, s.tick, t.store.tick))
  {
    LoadReads(s, plan, account);
    GetIsPlanned(s, plan, account);
    var got := Get(s, plan, account);
    if got.reply.Done? && got.reply.value.Some? {
      var parsed := Parse(got.reply.value.value);
      if parsed.Ok? && parsed.value.Some? {
        LoadChunksErrors(got.store, plan, account, parsed.value.value, 0, "");
      }
    }
  }
}
