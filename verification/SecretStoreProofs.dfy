/** What the chunked credential store keeps under every fault plan, call by call. */
module SecretStoreProofs {
  import opened Outcomes
  import opened SecretSplit
  import opened Texts
  import opened SecretManifest
  import opened SecretStore
  import Decimal

  /** The two maps differ at most on `names`. */
  ghost predicate SameOff(a: Slots, b: Slots, names: set<string>) {
    forall n | n !in names :: Lookup(a, n) == Lookup(b, n)
  }

  function Next(secret: string, generation: string): Manifest {
    Manifest(Some(generation), |Chunks(secret)|)
  }

  /** The chunk slots a save of `secret` writes. */
  function NextNames(account: string, secret: string, generation: string): set<string> {
    if Plain(secret) then {} else ChunkNames(account, Next(secret, generation))
  }

  function PreviousNames(slots: Slots, account: string): set<string> {
    var m := Published(slots, account);
    if m.Some? then ChunkNames(account, m.value) else {}
  }

  /** The random generation of a save: no slot and no published manifest of the account uses it yet. */
  ghost predicate Fresh(slots: Slots, account: string, generation: string) {
    && IsGeneration(generation)
    && ChunkNames(account, Manifest(Some(generation), MAX_CHUNKS)) !! slots.Keys
    && (Published(slots, account).Some? ==> Published(slots, account).value.generation != Some(generation))
  }

  /** The published form of `secret`: its own slot, or a manifest and every chunk it names. */
  ghost predicate Holds(slots: Slots, account: string, secret: string, generation: string) {
    && account in slots
    && if Plain(secret) then slots[account] == secret
       else
         && slots[account] == Print(generation, |Chunks(secret)|)
         && HoldsChunks(slots, account, Next(secret, generation), Chunks(secret), 0)
  }

  ghost predicate HoldsChunks(slots: Slots, account: string, m: Manifest, chunks: seq<string>, from: nat)
    requires m.count == |chunks|
  {
    forall j | from <= j < m.count ::
      ChunkName(account, m, j) in slots && slots[ChunkName(account, m, j)] == chunks[j]
  }

  // ---------- slot names ----------

  lemma NamesBelong(account: string, m: Manifest)
    ensures account !in ChunkNames(account, m)
    ensures forall n | n in ChunkNames(account, m) :: Belongs(account, n)
  {
    forall i: nat | i < m.count
      ensures ChunkName(account, m, i) != account && Belongs(account, ChunkName(account, m, i))
    {
      ChunkNameBelongs(account, m, i);
    }
  }

  lemma NamesDisjoint(account: string, m: Manifest, n: Manifest)
    requires Valid(m) && Valid(n) && m.generation != n.generation
    ensures ChunkNames(account, m) !! ChunkNames(account, n)
  {
    forall i: nat, j: nat | i < m.count && j < n.count
      ensures ChunkName(account, m, i) != ChunkName(account, n, j)
    {
      if ChunkName(account, m, i) == ChunkName(account, n, j) {
        ChunkNameInjective(account, m, i, n, j);
      }
    }
  }

  /** What a fresh save may write collides with nothing the account holds. */
  lemma FreshNames(slots: Slots, account: string, secret: string, generation: string)
    requires Fresh(slots, account, generation) && 1 <= |Chunks(secret)| <= MAX_CHUNKS
    ensures NextNames(account, secret, generation) !! slots.Keys
    ensures NextNames(account, secret, generation) !! PreviousNames(slots, account)
    ensures account !in NextNames(account, secret, generation) + PreviousNames(slots, account)
    ensures forall n | n in NextNames(account, secret, generation) + PreviousNames(slots, account) ::
              Belongs(account, n)
  {
    var next, all := Next(secret, generation), Manifest(Some(generation), MAX_CHUNKS);
    assert NextNames(account, secret, generation) <= ChunkNames(account, all) by {
      forall i: nat | i < next.count ensures ChunkName(account, next, i) in ChunkNames(account, all) {
        assert ChunkName(account, next, i) == ChunkName(account, all, i);
      }
    }
    NamesBelong(account, next);
    var previous := Published(slots, account);
    if previous.Some? {
      NamesBelong(account, previous.value);
      NamesDisjoint(account, next, previous.value);
    }
  }

  // ---------- loops ----------

  lemma {:induction false} RemoveChunksEffect(s: Store, plan: Plan, account: string, m: Manifest, i: nat)
    requires i <= m.count
    ensures var t := RemoveChunks(s, plan, account, m, i);
      && SameOff(t.store.slots, s.slots, ChunkNames(account, m))
      && t.store.slots.Keys <= s.slots.Keys
      && (t.reply.Done? ==> forall j | i <= j < m.count :: ChunkName(account, m, j) !in t.store.slots)
    decreases m.count - i
  {
    if i < m.count {
      var r := Remove(s, plan, ChunkName(account, m, i));
      assert ChunkName(account, m, i) in ChunkNames(account, m);
      if r.reply.Done? {
        RemoveChunksEffect(r.store, plan, account, m, i + 1);
      }
    }
  }

  /** A complete removal takes away exactly the manifest's chunks. */
  lemma RemoveAllDone(s: Store, plan: Plan, account: string, m: Manifest)
    requires RemoveChunks(s, plan, account, m, 0).reply.Done?
    ensures RemoveChunks(s, plan, account, m, 0).store.slots == s.slots - ChunkNames(account, m)
  {
    RemoveChunksEffect(s, plan, account, m, 0);
    SameLookups(RemoveChunks(s, plan, account, m, 0).store.slots, s.slots - ChunkNames(account, m));
  }

  lemma HoldsOneMore(slots: Slots, account: string, m: Manifest, chunks: seq<string>, i: nat)
    requires i < m.count == |chunks| && HoldsChunks(slots, account, m, chunks, i + 1)
    requires Lookup(slots, ChunkName(account, m, i)) == Some(chunks[i])
    ensures HoldsChunks(slots, account, m, chunks, i)
  {
  }

  lemma EarlierNamesDiffer(account: string, m: Manifest, i: nat)
    requires Valid(m)
    ensures forall j | 0 <= j < i :: ChunkName(account, m, j) != ChunkName(account, m, i)
  {
    forall j: nat | j < i ensures ChunkName(account, m, j) != ChunkName(account, m, i) {
      if ChunkName(account, m, j) == ChunkName(account, m, i) {
        ChunkNameInjective(account, m, j, m, i);
      }
    }
  }

  lemma {:induction false} StageChunksEffect(
    s: Store, plan: Plan, account: string, m: Manifest, chunks: seq<string>, i: nat)
    requires i <= m.count == |chunks| && Valid(m)
    ensures var t := StageChunks(s, plan, account, m, chunks, i);
      && SameOff(t.store.slots, s.slots, ChunkNames(account, m))
      && (forall j | 0 <= j < i ::
            Lookup(t.store.slots, ChunkName(account, m, j)) == Lookup(s.slots, ChunkName(account, m, j)))
      && (t.reply.Done? ==> HoldsChunks(t.store.slots, account, m, chunks, i))
    decreases m.count - i
  {
    if i < m.count {
      var name := ChunkName(account, m, i);
      var r := Set(s, plan, name, chunks[i]);
      assert name in ChunkNames(account, m);
      EarlierNamesDiffer(account, m, i);
      if r.reply.Done? {
        StageChunksEffect(r.store, plan, account, m, chunks, i + 1);
        var t := StageChunks(r.store, plan, account, m, chunks, i + 1);
        assert Lookup(t.store.slots, name) == Lookup(r.store.slots, name) == Some(chunks[i]);
        if t.reply.Done? {
          HoldsOneMore(t.store.slots, account, m, chunks, i);
        }
      }
    }
  }

  // ---------- reading ----------

  lemma {:induction false} GatherAgrees(a: Slots, b: Slots, account: string, m: Manifest, i: nat)
    requires i <= m.count
    requires forall j | i <= j < m.count :: Lookup(a, ChunkName(account, m, j)) == Lookup(b, ChunkName(account, m, j))
    ensures Gather(a, account, m, i) == Gather(b, account, m, i)
    decreases m.count - i
  {
    if i < m.count {
      assert Lookup(a, ChunkName(account, m, i)) == Lookup(b, ChunkName(account, m, i));
      GatherAgrees(a, b, account, m, i + 1);
    }
  }

  /** What an account holds depends only on its base slot and the chunks its manifest names. */
  lemma ReadAgrees(a: Slots, b: Slots, account: string)
    requires Lookup(a, account) == Lookup(b, account)
    requires forall n | n in PreviousNames(a, account) :: Lookup(a, n) == Lookup(b, n)
    ensures Read(a, account) == Read(b, account) && Published(a, account) == Published(b, account)
  {
    var m := Published(a, account);
    if m.Some? {
      GatherAgrees(a, b, account, m.value, 0);
    }
  }

  lemma {:induction false} GatherHeld(slots: Slots, account: string, m: Manifest, chunks: seq<string>, i: nat)
    requires i <= m.count == |chunks| && HoldsChunks(slots, account, m, chunks, 0)
    ensures Gather(slots, account, m, i) == Secret(Concat(chunks[i..]))
    decreases m.count - i
  {
    if i < m.count {
      GatherHeld(slots, account, m, chunks, i + 1);
      assert chunks[i..][1..] == chunks[i + 1..];
    }
  }

  /** A published secret reads back as itself, including one that looks like a manifest. */
  lemma HeldIsRead(slots: Slots, account: string, secret: string, generation: string)
    requires Holds(slots, account, secret, generation) && IsGeneration(generation)
    requires 1 <= |Chunks(secret)| <= MAX_CHUNKS
    ensures Read(slots, account) == Secret(secret)
    ensures PreviousNames(slots, account) == NextNames(account, secret, generation)
  {
    PlainExactly(secret);
    if !Plain(secret) {
      PrintParse(generation, |Chunks(secret)|);
      GatherHeld(slots, account, Next(secret, generation), Chunks(secret), 0);
      ChunksAreRight(secret);
      assert Chunks(secret)[0..] == Chunks(secret);
    }
  }

  lemma HeldOff(a: Slots, b: Slots, names: set<string>, account: string, secret: string, generation: string)
    requires SameOff(a, b, names) && Holds(a, account, secret, generation)
    requires names !! {account} + NextNames(account, secret, generation)
    ensures Holds(b, account, secret, generation)
  {
    if !Plain(secret) {
      var next := Next(secret, generation);
      forall j | 0 <= j < next.count
        ensures Lookup(b, ChunkName(account, next, j)) == Some(Chunks(secret)[j])
      {
        assert ChunkName(account, next, j) in ChunkNames(account, next);
      }
      assert HoldsChunks(b, account, next, Chunks(secret), 0) by {
        forall j | 0 <= j < next.count
          ensures ChunkName(account, next, j) in b && b[ChunkName(account, next, j)] == Chunks(secret)[j]
        {
          assert Lookup(b, ChunkName(account, next, j)) == Some(Chunks(secret)[j]);
        }
      }
    }
  }

  // ---------- save ----------

  /** Staging either leaves the base slot alone or ends with the whole secret published. */
  lemma StageEffect(s: Store, plan: Plan, account: string, secret: string, generation: string)
    requires IsGeneration(generation) && 1 <= |Chunks(secret)| <= MAX_CHUNKS && !Plain(secret)
    ensures var t := Stage(s, plan, account, generation, Chunks(secret));
      && SameOff(t.store.slots, s.slots, {account} + NextNames(account, secret, generation))
      && (Holds(t.store.slots, account, secret, generation) ||
          Lookup(t.store.slots, account) == Lookup(s.slots, account))
      && (t.reply.Done? ==> Holds(t.store.slots, account, secret, generation))
      && (t.reply.Failed? ==> t.reply.error == SlotError)
      && (t.reply.Failed? ==> SameOff(t.store.slots, s.slots, NextNames(account, secret, generation)))
  {
    var next, chunks := Next(secret, generation), Chunks(secret);
    var r := StageChunks(s, plan, account, next, chunks, 0);
    StageChunksEffect(s, plan, account, next, chunks, 0);
    NamesBelong(account, next);
    StageFailure(s, plan, account, next, chunks, 0);
    if r.reply.Done? {
      var t := Set(r.store, plan, account, Print(generation, |chunks|));
      var base := r.store.slots[account := Print(generation, |chunks|)];
      assert HoldsChunks(base, account, next, chunks, 0) by {
        forall j | 0 <= j < next.count
          ensures ChunkName(account, next, j) in base && base[ChunkName(account, next, j)] == chunks[j]
        {
          ChunkNameBelongs(account, next, j);
        }
      }
      assert SameOff(base, r.store.slots, {account});
      assert SameOff(t.store.slots, s.slots, {account} + ChunkNames(account, next));
    }
  }

  lemma {:induction false} RemovalFailure(s: Store, plan: Plan, account: string, m: Manifest, i: nat)
    requires i <= m.count
    ensures var t := RemoveChunks(s, plan, account, m, i); t.reply.Failed? ==> t.reply.error == SlotError
    decreases m.count - i
  {
    if i < m.count {
      var r := Remove(s, plan, ChunkName(account, m, i));
      if r.reply.Done? {
        RemovalFailure(r.store, plan, account, m, i + 1);
      }
    }
  }

  lemma {:induction false} StageFailure(
    s: Store, plan: Plan, account: string, m: Manifest, chunks: seq<string>, i: nat)
    requires i <= m.count == |chunks|
    ensures var t := StageChunks(s, plan, account, m, chunks, i); t.reply.Failed? ==> t.reply.error == SlotError
    decreases m.count - i
  {
    if i < m.count {
      var r := Set(s, plan, ChunkName(account, m, i), chunks[i]);
      if r.reply.Done? {
        StageFailure(r.store, plan, account, m, chunks, i + 1);
      }
    }
  }

  lemma PublishEffect(s: Store, plan: Plan, account: string, secret: string, generation: string)
    requires Fresh(s.slots, account, generation) && 1 <= |Chunks(secret)| <= MAX_CHUNKS
    ensures var t := Publish(s, plan, account, secret, generation);
      && SameOff(t.store.slots, s.slots, {account} + NextNames(account, secret, generation))
      && (Holds(t.store.slots, account, secret, generation) ||
          Lookup(t.store.slots, account) == Lookup(s.slots, account))
      && (t.reply.Done? ==> Holds(t.store.slots, account, secret, generation))
      && (t.reply.Failed? ==> Lookup(t.store.slots, account) == Lookup(s.slots, account))
      && (t.reply.Failed? && t.reply.error != CleanupError ==> t.store.slots == s.slots)
  {
    FreshNames(s.slots, account, secret, generation);
    if !Plain(secret) {
      var names, next := NextNames(account, secret, generation), Next(secret, generation);
      var staged := Stage(s, plan, account, generation, Chunks(secret));
      StageEffect(s, plan, account, secret, generation);
      if staged.reply.Failed? {
        var cleaned := RemoveChunks(staged.store, plan, account, next, 0);
        RemoveChunksEffect(staged.store, plan, account, next, 0);
        assert SameOff(cleaned.store.slots, s.slots, names);
        if cleaned.reply.Done? {
          SameLookups(cleaned.store.slots, s.slots);
        }
      }
    }
  }

  /** The save gets as far as a complete publication; what may still fail then is removing the old chunks. */
  ghost predicate Publishes(s: Store, plan: Plan, account: string, secret: string, generation: string) {
    secret != "" && plan.onGet(s.tick).Works? && SplitSecret(secret).Ok? &&
    Publish(Store(s.slots, s.tick + 1), plan, account, secret, generation).reply.Done?
  }

  /**
   * Failure atomicity of `save`: whatever fails and wherever the process stops, the account afterwards
   * holds what it held before or the whole new secret. A save that returns, even with an error, leaves the
   * new secret exactly if it was published; other accounts' slots are untouched.
   */
  lemma SaveIsAtomic(s: Store, plan: Plan, account: string, secret: string, generation: string)
    requires Fresh(s.slots, account, generation)
    ensures var t := Save(s, plan, account, secret, generation);
      && (Read(t.store.slots, account) == Read(s.slots, account) || Read(t.store.slots, account) == Secret(secret))
      && (t.reply.Done? ==> Read(t.store.slots, account) == Secret(secret))
      && (!t.reply.Stopped? ==>
            Read(t.store.slots, account) ==
            if Publishes(s, plan, account, secret, generation) then Secret(secret) else Read(s.slots, account))
      && (t.reply.Failed? && t.reply.error != SlotError ==> Read(t.store.slots, account) == Read(s.slots, account))
      && (forall n :: !Belongs(account, n) ==> Lookup(t.store.slots, n) == Lookup(s.slots, n))
  {
    var t := Save(s, plan, account, secret, generation);
    if secret != "" && plan.onGet(s.tick).Works? && SplitSecret(secret).Ok? {
      var got := Get(s, plan, account).store;
      var u := Publish(got, plan, account, secret, generation);
      PublishEffect(got, plan, account, secret, generation);
      FreshNames(s.slots, account, secret, generation);
      var next, previous := NextNames(account, secret, generation), PreviousNames(s.slots, account);
      if Holds(u.store.slots, account, secret, generation) {
        HeldIsRead(u.store.slots, account, secret, generation);
      } else {
        ReadAgrees(s.slots, u.store.slots, account);
      }
      if u.reply.Done? && Published(s.slots, account).Some? {
        RemoveChunksEffect(u.store, plan, account, Published(s.slots, account).value, 0);
        RemovalFailure(u.store, plan, account, Published(s.slots, account).value, 0);
        HeldOff(u.store.slots, t.store.slots, previous, account, secret, generation);
        HeldIsRead(t.store.slots, account, secret, generation);
      }
      assert SameOff(t.store.slots, s.slots, {account} + next + previous);
    }
  }

  lemma SameLookups(a: Slots, b: Slots)
    requires forall n :: Lookup(a, n) == Lookup(b, n)
    ensures a == b
  {
    forall n ensures (n in a <==> n in b) && (n in a && n in b ==> a[n] == b[n]) {
      assert Lookup(a, n) == Lookup(b, n);
    }
  }

  // ---------- errors ----------

  /** Reads and writes work, removals fail. */
  const REMOVALS_FAIL := Plan((t: nat) => Works, (t: nat) => Works, (t: nat) => Fails)

  lemma {:induction false} StagingFinishes(
    s: Store, plan: Plan, account: string, m: Manifest, chunks: seq<string>, i: nat)
    requires i <= m.count == |chunks| && forall t :: plan.onSet(t) == Works
    ensures StageChunks(s, plan, account, m, chunks, i).reply.Done?
    decreases m.count - i
  {
    if i < m.count {
      assert plan.onSet(s.tick) == Works;
      StagingFinishes(Set(s, plan, ChunkName(account, m, i), chunks[i]).store, plan, account, m, chunks, i + 1);
    }
  }

  lemma PublicationFinishes(s: Store, plan: Plan, account: string, secret: string, generation: string)
    requires forall t :: plan.onSet(t) == Works
    ensures Publish(s, plan, account, secret, generation).reply.Done?
  {
    assert plan.onSet(s.tick) == Works;
    if !Plain(secret) {
      var next, chunks := Next(secret, generation), Chunks(secret);
      StagingFinishes(s, plan, account, next, chunks, 0);
      assert plan.onSet(StageChunks(s, plan, account, next, chunks, 0).store.tick) == Works;
    }
  }

  lemma FailingRemovals(s: Store, plan: Plan, account: string, secret: string, generation: string)
    requires Publishes(s, plan, account, secret, generation) && forall t :: plan.onRemove(t) == Fails
    requires Published(s.slots, account).Some?
    ensures Save(s, plan, account, secret, generation).reply == Failed(SlotError)
  {
    var published := Publish(Store(s.slots, s.tick + 1), plan, account, secret, generation).store;
    assert plan.onRemove(published.tick) == Fails;
  }

  /** A save that could be made over a published manifest reports an error, yet its secret is in place. */
  lemma FailedSaveCanPublish(s: Store, account: string, secret: string, generation: string)
    requires Fresh(s.slots, account, generation) && Published(s.slots, account).Some?
    requires secret != "" && SplitSecret(secret).Ok?
    ensures var t := Save(s, REMOVALS_FAIL, account, secret, generation);
      t.reply == Failed(SlotError) && Read(t.store.slots, account) == Secret(secret)
  {
    PublicationFinishes(Store(s.slots, s.tick + 1), REMOVALS_FAIL, account, secret, generation);
    FailingRemovals(s, REMOVALS_FAIL, account, secret, generation);
    SaveIsAtomic(s, REMOVALS_FAIL, account, secret, generation);
  }

  /** Whatever goes wrong, an error from this save means that the account still holds what it held. */
  ghost predicate ErrorMeansOld(s: Store, account: string, secret: string, generation: string) {
    forall plan :: Save(s, plan, account, secret, generation).reply.Failed? ==>
      Read(Save(s, plan, account, secret, generation).store.slots, account) == Read(s.slots, account)
  }

  /**
   * An error means the old content under every plan if and only if the account's slot publishes no manifest, the
   * secret is rejected before anything is written, or the account holds that very secret already.
   */
  lemma ErrorMeansOldExactly(s: Store, account: string, secret: string, generation: string)
    requires Fresh(s.slots, account, generation)
    ensures ErrorMeansOld(s, account, secret, generation) <==>
            (Published(s.slots, account).None? || secret == "" || SplitSecret(secret).Err? ||
             Read(s.slots, account) == Secret(secret))
  {
    forall plan ensures Published(s.slots, account).None? && Save(s, plan, account, secret, generation).reply.Failed?
                ==> !Publishes(s, plan, account, secret, generation)
    {
    }
    if Published(s.slots, account).None? || secret == "" || SplitSecret(secret).Err? ||
       Read(s.slots, account) == Secret(secret) {
      forall plan | Save(s, plan, account, secret, generation).reply.Failed?
        ensures Read(Save(s, plan, account, secret, generation).store.slots, account) == Read(s.slots, account)
      {
        SaveIsAtomic(s, plan, account, secret, generation);
      }
    } else {
      FailedSaveCanPublish(s, account, secret, generation);
    }
  }

  /** The first write is the last thing the process does; everything else works. */
  function StopsAtWrite(after: bool): Plan {
    Plan((t: nat) => Works, (t: nat) => if after then StopsAfter else StopsBefore, (t: nat) => Works)
  }

  /** Both outcomes of a stopped save occur: stopped just before its write it leaves the old, just after it the new. */
  lemma StoppedSaveEitherWay(s: Store, account: string, secret: string, generation: string, after: bool)
    requires Plain(secret) && secret != "" && SplitSecret(secret).Ok?
    ensures var t := Save(s, StopsAtWrite(after), account, secret, generation);
      && t.reply == Stopped
      && t.store.slots == (if after then s.slots[account := secret] else s.slots)
      && (after ==> Read(t.store.slots, account) == Secret(secret))
  {
    PlainExactly(secret);
  }

  /** An account that holds the secret `a` in one legacy chunk. */
  function LegacySlots(account: string): Slots {
    map[account := PREFIX_V1 + Decimal.Text(1), ChunkName(account, Manifest(None, 1), 0) := "a"]
  }

  lemma LegacyHoldsA(account: string)
    ensures Published(LegacySlots(account), account) == Some(Manifest(None, 1))
    ensures Read(LegacySlots(account), account) == Secret("a")
  {
    var slots, legacy := LegacySlots(account), Manifest(None, 1);
    LegacyParses(1);
    ChunkNameBelongs(account, legacy, 0);
    assert Gather(slots, account, legacy, 1) == Secret("") && "a" + "" == "a";
  }

  lemma LegacyIsFresh(account: string, generation: string)
    requires IsGeneration(generation)
    ensures Fresh(LegacySlots(account), account, generation)
  {
    var legacy, all := Manifest(None, 1), Manifest(Some(generation), MAX_CHUNKS);
    LegacyHoldsA(account);
    NamesBelong(account, all);
    NamesDisjoint(account, all, legacy);
    assert ChunkName(account, legacy, 0) in ChunkNames(account, legacy);
  }

  /** Concretely: replacing a legacy one-chunk secret `a` by `b` can report an error and yet hold `b`. */
  lemma ErrorAfterPublication(account: string, generation: string)
    requires IsGeneration(generation)
    ensures var s := Store(LegacySlots(account), 0);
      var t := Save(s, REMOVALS_FAIL, account, "b", generation);
      && Read(s.slots, account) == Secret("a")
      && t.reply == Failed(SlotError) && Read(t.store.slots, account) == Secret("b")
  {
    LegacyHoldsA(account);
    LegacyIsFresh(account, generation);
    assert "b" + "" == "b" && Units("b") == 1;
    ChunksAfterOverflow("b", "");
    FailedSaveCanPublish(Store(LegacySlots(account), 0), account, "b", generation);
  }

  /** Failure atomicity of `delete`: the account holds what it held before or nothing. */
  lemma DeleteIsAtomic(s: Store, plan: Plan, account: string)
    ensures var t := Delete(s, plan, account);
      && (Read(t.store.slots, account) == Read(s.slots, account) || Read(t.store.slots, account) == Missing)
      && (t.reply.Done? ==> Read(t.store.slots, account) == Missing)
      && (forall n :: !Belongs(account, n) ==> Lookup(t.store.slots, n) == Lookup(s.slots, n))
  {
    var t := Delete(s, plan, account);
    var previous := Published(s.slots, account);
    if plan.onGet(s.tick).Works? {
      var u := Remove(Get(s, plan, account).store, plan, account);
      if u.reply.Done? && previous.Some? {
        NamesBelong(account, previous.value);
        RemoveChunksEffect(u.store, plan, account, previous.value, 0);
      }
      assert SameOff(t.store.slots, s.slots, {account} + PreviousNames(s.slots, account));
      if previous.Some? {
        NamesBelong(account, previous.value);
      }
    }
  }

  // ---------- load ----------

  function AsReply(c: Content): Reply<Option<string>> {
    match c
    case Missing => Done(None)
    case Secret(text) => Done(Some(text))
    case Unreadable(e) => Failed(e)
  }

  ghost predicate GetsWork(plan: Plan) {
    forall t :: plan.onGet(t).Works?
  }

  lemma {:induction false} LoadChunksReads(
    s: Store, plan: Plan, account: string, m: Manifest, i: nat, secret: string)
    requires i <= m.count
    ensures var t, rest := LoadChunks(s, plan, account, m, i, secret), Gather(s.slots, account, m, i);
      && t.store.slots == s.slots
      && (t.reply == Stopped || t.reply == Failed(SlotError) ||
          t.reply == if rest.Secret? then Done(Some(secret + rest.text)) else AsReply(rest))
      && (GetsWork(plan) ==> t.reply == if rest.Secret? then Done(Some(secret + rest.text)) else AsReply(rest))
      && rest != Missing
    decreases m.count - i
  {
    if i == m.count {
      assert secret + "" == secret;
    } else {
      var got := Get(s, plan, ChunkName(account, m, i));
      assert GetsWork(plan) ==> plan.onGet(s.tick).Works?;
      var next := if got.reply.Done? && got.reply.value.Some? then secret + got.reply.value.value else "";
      LoadChunksReads(Store(s.slots, s.tick + 1), plan, account, m, i + 1, next);
      var rest := Gather(s.slots, account, m, i + 1);
      if got.reply.Done? && got.reply.value.Some? && rest.Secret? {
        assert secret + (got.reply.value.value + rest.text) == (secret + got.reply.value.value) + rest.text;
      }
    }
  }

  lemma LoadFromReads(
    s: Store, plan: Plan, account: string, value: string, parsed: Result<Option<Manifest>, Error>)
    ensures var t := LoadFrom(s, plan, account, value, parsed);
      && t.store.slots == s.slots
      && (t.reply == Stopped || t.reply == Failed(SlotError) ||
          t.reply == AsReply(ReadFrom(s.slots, account, value, parsed)))
      && (GetsWork(plan) ==> t.reply == AsReply(ReadFrom(s.slots, account, value, parsed)))
  {
    if parsed.Ok? && parsed.value.Some? {
      LoadChunksReads(s, plan, account, parsed.value.value, 0, "");
      var c := Gather(s.slots, account, parsed.value.value, 0);
      assert c.Secret? ==> "" + c.text == c.text;
    }
  }

  /** `load` changes nothing and answers what the slots hold, unless a keyring read fails or the process stops. */
  lemma LoadReads(s: Store, plan: Plan, account: string)
    ensures var t := Load(s, plan, account);
      && t.store.slots == s.slots
      && (t.reply == Stopped || t.reply == Failed(SlotError) || t.reply == AsReply(Read(s.slots, account)))
      && (GetsWork(plan) ==> t.reply == AsReply(Read(s.slots, account)))
  {
    assert GetsWork(plan) ==> plan.onGet(s.tick).Works?;
    if account in s.slots {
      LoadFromReads(Store(s.slots, s.tick + 1), plan, account, s.slots[account], Parse(s.slots[account]));
    }
  }

  /** Save then load is the identity on secrets, also for those that begin like a manifest. */
  lemma SaveThenLoad(s: Store, plan: Plan, account: string, secret: string, generation: string, later: Plan)
    requires Fresh(s.slots, account, generation) && GetsWork(later)
    requires Save(s, plan, account, secret, generation).reply.Done?
    ensures Load(Save(s, plan, account, secret, generation).store, later, account).reply == Done(Some(secret))
  {
    SaveIsAtomic(s, plan, account, secret, generation);
    LoadReads(Save(s, plan, account, secret, generation).store, later, account);
  }

  // ---------- slot size ----------

  ghost predicate WithinLimit(slots: Slots) {
    forall n | n in slots :: Units(slots[n]) <= MAX_SLOT_UNITS
  }

  lemma {:induction false} RemoveChunksWithinLimit(s: Store, plan: Plan, account: string, m: Manifest, i: nat)
    requires i <= m.count && WithinLimit(s.slots)
    ensures WithinLimit(RemoveChunks(s, plan, account, m, i).store.slots)
    decreases m.count - i
  {
    if i < m.count && Remove(s, plan, ChunkName(account, m, i)).reply.Done? {
      RemoveChunksWithinLimit(Remove(s, plan, ChunkName(account, m, i)).store, plan, account, m, i + 1);
    }
  }

  lemma {:induction false} StageChunksWithinLimit(
    s: Store, plan: Plan, account: string, m: Manifest, chunks: seq<string>, i: nat)
    requires i <= m.count == |chunks| && WithinLimit(s.slots)
    requires forall j | 0 <= j < |chunks| :: Units(chunks[j]) <= MAX_SLOT_UNITS
    ensures WithinLimit(StageChunks(s, plan, account, m, chunks, i).store.slots)
    decreases m.count - i
  {
    if i < m.count && Set(s, plan, ChunkName(account, m, i), chunks[i]).reply.Done? {
      StageChunksWithinLimit(Set(s, plan, ChunkName(account, m, i), chunks[i]).store, plan, account, m, chunks, i + 1);
    }
  }

  lemma OneChunkFits(secret: string)
    requires |Chunks(secret)| == 1
    ensures Units(secret) <= MAX_SLOT_UNITS
  {
    ChunksAreRight(secret);
    var chunks := Chunks(secret);
    assert Concat(chunks) == chunks[0] + Concat(chunks[1..]) == chunks[0] + "" == chunks[0];
  }

  lemma PublishWithinLimit(s: Store, plan: Plan, account: string, secret: string, generation: string)
    requires WithinLimit(s.slots) && IsGeneration(generation) && 1 <= |Chunks(secret)| <= MAX_CHUNKS
    ensures WithinLimit(Publish(s, plan, account, secret, generation).store.slots)
  {
    ChunksAreRight(secret);
    var chunks := Chunks(secret);
    if Plain(secret) {
      OneChunkFits(secret);
    } else {
      PrintFits(generation, |chunks|);
      StageChunksWithinLimit(s, plan, account, Next(secret, generation), chunks, 0);
      var staged := Stage(s, plan, account, generation, chunks);
      assert WithinLimit(staged.store.slots);
      RemoveChunksWithinLimit(staged.store, plan, account, Next(secret, generation), 0);
    }
  }

  /** No save ever leaves a slot value longer than the platform limit, whatever faults it meets. */
  lemma SaveStaysWithinLimit(s: Store, plan: Plan, account: string, secret: string, generation: string)
    requires WithinLimit(s.slots) && IsGeneration(generation)
    ensures WithinLimit(Save(s, plan, account, secret, generation).store.slots)
  {
    if secret != "" && plan.onGet(s.tick).Works? && SplitSecret(secret).Ok? {
      var got := Get(s, plan, account).store;
      PublishWithinLimit(got, plan, account, secret, generation);
      var u := Publish(got, plan, account, secret, generation);
      if u.reply.Done? && Published(s.slots, account).Some? {
        RemoveChunksWithinLimit(u.store, plan, account, Published(s.slots, account).value, 0);
      }
    }
  }
}
