/** The credential store on the literal names and texts of its slots. */
module SecretStoreLayout {
  import opened Outcomes
  import opened Texts
  import opened SecretSplit
  import opened SecretManifest
  import opened SecretManifestText
  import opened SecretStore
  import opened SecretStoreProofs
  import opened SecretStoreRuns
  import Decimal

  /** Slot `index` of a legacy secret. */
  function LegacySlot(account: string, index: nat): string {
    account + ("#" + Decimal.Text(index))
  }

  /** Slot `index` of a secret saved with draw `n`. */
  function DrawnSlot(account: string, n: nat, index: nat): string
    requires n < TWO_TO_128
  {
    account + ("#" + (HexText(n) + ("#" + Decimal.Text(index))))
  }

  lemma SlotNames(account: string, n: nat, count: nat, index: nat)
    requires n < TWO_TO_128
    ensures ChunkName(account, Manifest(None, count), index) == LegacySlot(account, index)
    ensures ChunkName(account, Manifest(Some(HexText(n)), count), index) == DrawnSlot(account, n, index)
  {
    assert account + "#" + Decimal.Text(index) == LegacySlot(account, index);
    assert account + "#" + (HexText(n) + ("#" + Decimal.Text(index))) == DrawnSlot(account, n, index);
  }

  // ---------- load ----------

  lemma ManifestIsRead(slots: Slots, account: string, m: Manifest, chunks: seq<string>)
    requires Published(slots, account) == Some(m) && m.count == |chunks| && HoldsChunks(slots, account, m, chunks, 0)
    ensures Read(slots, account) == Secret(Concat(chunks))
  {
    GatherHeld(slots, account, m, chunks, 0);
    assert chunks[0..] == chunks;
  }

  /** A legacy manifest and its chunks in `account#0`, `account#1`, ... are loaded as one secret. */
  lemma LegacyIsLoaded(s: Store, plan: Plan, account: string, chunks: seq<string>)
    requires GetsWork(plan) && 1 <= |chunks| <= 64
    requires Lookup(s.slots, account) == Some("gact-chunked:v1:" + Decimal.Text(|chunks|))
    requires forall j | 0 <= j < |chunks| :: Lookup(s.slots, LegacySlot(account, j)) == Some(chunks[j])
    ensures Load(s, plan, account).reply == Done(Some(Concat(chunks)))
  {
    var m := Manifest(None, |chunks|);
    LegacyParses(|chunks|);
    forall j | 0 <= j < m.count
      ensures ChunkName(account, m, j) in s.slots && s.slots[ChunkName(account, m, j)] == chunks[j]
    {
      SlotNames(account, 0, m.count, j);
      assert Lookup(s.slots, LegacySlot(account, j)) == Some(chunks[j]);
    }
    ManifestIsRead(s.slots, account, m, chunks);
    LoadReads(s, plan, account);
  }

  /** A manifest of draw `n` and its chunks in `account#<n>#0`, `account#<n>#1`, ... are loaded as one secret. */
  lemma DrawnIsLoaded(s: Store, plan: Plan, account: string, n: nat, chunks: seq<string>)
    requires GetsWork(plan) && n < TWO_TO_128 && 1 <= |chunks| <= 64
    requires Lookup(s.slots, account) == Some(ManifestText(n, |chunks|))
    requires forall j | 0 <= j < |chunks| :: Lookup(s.slots, DrawnSlot(account, n, j)) == Some(chunks[j])
    ensures Load(s, plan, account).reply == Done(Some(Concat(chunks)))
  {
    var m := Manifest(Some(HexText(n)), |chunks|);
    DrawnManifestParses(n, |chunks|);
    forall j | 0 <= j < m.count
      ensures ChunkName(account, m, j) in s.slots && s.slots[ChunkName(account, m, j)] == chunks[j]
    {
      SlotNames(account, n, m.count, j);
      assert Lookup(s.slots, DrawnSlot(account, n, j)) == Some(chunks[j]);
    }
    ManifestIsRead(s.slots, account, m, chunks);
    LoadReads(s, plan, account);
  }

  lemma {:induction false} GatherMisses(slots: Slots, account: string, m: Manifest, i: nat, j: nat)
    requires i <= j < m.count && ChunkName(account, m, j) !in slots
    ensures Gather(slots, account, m, i) == Unreadable(Incomplete)
    decreases j - i
  {
    if i < j {
      GatherMisses(slots, account, m, i + 1, j);
    }
  }

  /** A manifest with a chunk missing is reported as incomplete, whichever chunk it is. */
  lemma IncompleteIsReported(s: Store, plan: Plan, account: string, m: Manifest, j: nat)
    requires GetsWork(plan) && Published(s.slots, account) == Some(m) && j < m.count
    requires ChunkName(account, m, j) !in s.slots
    ensures Load(s, plan, account).reply == Failed(Incomplete)
  {
    GatherMisses(s.slots, account, m, 0, j);
    LoadReads(s, plan, account);
  }

  /** Other values: no slot is no secret, a damaged value is reported, and any other value is itself the secret. */
  lemma PlainIsLoaded(s: Store, plan: Plan, account: string)
    requires GetsWork(plan)
    ensures account !in s.slots ==> Load(s, plan, account).reply == Done(None)
    ensures account in s.slots && !("gact-chunked:" <= s.slots[account]) ==>
            Load(s, plan, account).reply == Done(Some(s.slots[account]))
    ensures account in s.slots && Parse(s.slots[account]).Err? ==> Load(s, plan, account).reply == Failed(Damaged)
  {
    LoadReads(s, plan, account);
    if account in s.slots {
      PlainExactly(s.slots[account]);
    }
  }

  // ---------- save ----------

  /** Draw `n` is new to the account: no chunk slot and no manifest of it. */
  ghost predicate FreshDraw(slots: Slots, account: string, n: nat) {
    && n < TWO_TO_128
    && (forall i: nat | i < 64 :: DrawnSlot(account, n, i) !in slots)
    && (account in slots ==> !("gact-chunked:v2:" + (HexText(n) + ":") <= slots[account]))
  }

  lemma UpToColon(prefix: string, rest: string, colon: nat)
    requires colon < |rest| && rest[colon] == ':'
    ensures prefix + (rest[..colon] + ":") <= prefix + rest
  {
    assert rest == (rest[..colon] + ":") + rest[colon + 1..];
    Regroup(prefix, rest[..colon] + ":", rest[colon + 1..]);
  }

  lemma GenerationIsPrefix(value: string)
    requires Parse(value).Ok? && Parse(value).value.Some? && Parse(value).value.value.generation.Some?
    ensures "gact-chunked:v2:" + (Parse(value).value.value.generation.value + ":") <= value
  {
    StripPrefixIs(value, "gact-chunked:v2:");
    var rest := value[16..];
    var colon := IndexOf(rest, ':');
    IndexOfFinds(rest, ':');
    assert Parse(value).value.value.generation == Some(rest[..colon]);
    UpToColon("gact-chunked:v2:", rest, colon);
    assert value == "gact-chunked:v2:" + rest;
  }

  lemma {:induction false} IndexOfFinds(s: string, c: char)
    ensures IndexOf(s, c) < |s| ==> s[IndexOf(s, c)] == c
  {
    if s != "" && s[0] != c {
      IndexOfFinds(s[1..], c);
    }
  }

  lemma FreshDrawIsFresh(slots: Slots, account: string, n: nat)
    requires FreshDraw(slots, account, n)
    ensures Fresh(slots, account, HexText(n))
  {
    DrawsAreGenerations(n);
    var all := Manifest(Some(HexText(n)), MAX_CHUNKS);
    forall name | name in ChunkNames(account, all) ensures name !in slots {
      var i :| 0 <= i < MAX_CHUNKS && name == ChunkName(account, all, i);
      SlotNames(account, n, MAX_CHUNKS, i);
    }
    var previous := Published(slots, account);
    if previous.Some? && previous.value.generation.Some? {
      GenerationIsPrefix(slots[account]);
    }
  }

  /** A draw is new, for the runs that keep storage hygiene, unless the account's slot holds a manifest of it. */
  lemma NewDraw(slots: Slots, account: string, n: nat)
    requires n < TWO_TO_128
    requires account in slots ==> !("gact-chunked:v2:" + (HexText(n) + ":") <= slots[account])
    ensures NewGeneration(slots, account, HexText(n))
  {
    DrawsAreGenerations(n);
    var previous := Published(slots, account);
    if previous.Some? && previous.value.generation.Some? {
      GenerationIsPrefix(slots[account]);
    }
  }

  lemma RemovalKeepsHeld(
    s: Store, plan: Plan, account: string, m: Manifest, secret: string, generation: string)
    requires Holds(s.slots, account, secret, generation)
    requires ChunkNames(account, m) !! {account} + NextNames(account, secret, generation)
    ensures Holds(RemoveChunks(s, plan, account, m, 0).store.slots, account, secret, generation)
  {
    RemoveChunksEffect(s, plan, account, m, 0);
    var t := RemoveChunks(s, plan, account, m, 0);
    HeldOff(s.slots, t.store.slots, ChunkNames(account, m), account, secret, generation);
  }

  lemma SaveHolds(s: Store, plan: Plan, account: string, secret: string, generation: string)
    requires Fresh(s.slots, account, generation) && Save(s, plan, account, secret, generation).reply.Done?
    ensures Holds(Save(s, plan, account, secret, generation).store.slots, account, secret, generation)
  {
    var got, previous := Store(s.slots, s.tick + 1), Published(s.slots, account);
    var u := Publish(got, plan, account, secret, generation);
    PublishEffect(got, plan, account, secret, generation);
    assert u.reply.Done? && Holds(u.store.slots, account, secret, generation);
    if previous.Some? {
      FreshNames(s.slots, account, secret, generation);
      RemovalKeepsHeld(u.store, plan, account, previous.value, secret, generation);
    }
  }

  /** The slots that hold `secret` in one piece, or as a manifest of draw `n` and its chunks. */
  ghost predicate LaidOut(slots: Slots, account: string, secret: string, n: nat, chunks: seq<string>)
    requires n < TWO_TO_128
  {
    if |Utf16(secret)| <= 1000 && !("gact-chunked:" <= secret)
    then Lookup(slots, account) == Some(secret)
    else
      && FitsSlots(secret, chunks) && Lookup(slots, account) == Some(ManifestText(n, |chunks|))
      && forall j | 0 <= j < |chunks| :: Lookup(slots, DrawnSlot(account, n, j)) == Some(chunks[j])
  }

  /** The layout of a saved secret: as it is when it fits one slot and does not look like a manifest, else chunked. */
  lemma SaveLayout(s: Store, plan: Plan, account: string, secret: string, n: nat) returns (chunks: seq<string>)
    requires FreshDraw(s.slots, account, n) && Save(s, plan, account, secret, HexText(n)).reply.Done?
    ensures LaidOut(Save(s, plan, account, secret, HexText(n)).store.slots, account, secret, n, chunks)
  {
    chunks := Chunks(secret);
    var slots := Save(s, plan, account, secret, HexText(n)).store.slots;
    FreshDrawIsFresh(s.slots, account, n);
    SaveHolds(s, plan, account, secret, HexText(n));
    OneChunkExactly(secret);
    SplitsExactly(secret);
    if !Plain(secret) {
      DrawnManifestParses(n, |chunks|);
      forall j | 0 <= j < |chunks| ensures Lookup(slots, DrawnSlot(account, n, j)) == Some(chunks[j]) {
        SlotNames(account, n, |chunks|, j);
      }
    }
  }

  /**
   * On a working keyring, for every new draw: a secret that is not empty and that some cutting into 64 pieces of 1000
   * UTF-16 units exists for is saved, and loaded again as it was.
   */
  lemma SavedIsLoaded(s: Store, plan: Plan, account: string, secret: string, n: nat, parts: seq<string>)
    requires AllWorks(plan) && FreshDraw(s.slots, account, n) && secret != "" && FitsSlots(secret, parts)
    ensures var t := Save(s, plan, account, secret, HexText(n));
      t.reply.Done? && Load(t.store, plan, account).reply == Done(Some(secret))
  {
    FreshDrawIsFresh(s.slots, account, n);
    SaveSucceedsExactly(s, plan, account, secret, HexText(n));
    SaveThenLoad(s, plan, account, secret, HexText(n), plan);
  }

  // ---------- delete ----------

  /** On a working keyring a delete of a legacy secret takes away its slots and nothing else. */
  lemma LegacyIsDeleted(s: Store, plan: Plan, account: string, count: nat)
    requires AllWorks(plan) && 1 <= count <= 64
    requires Lookup(s.slots, account) == Some("gact-chunked:v1:" + Decimal.Text(count))
    ensures var t := Delete(s, plan, account);
      t.reply.Done? && t.store.slots == s.slots - ({account} + set j | 0 <= j < count :: LegacySlot(account, j))
  {
    LegacyParses(count);
    DeleteSucceeds(s, plan, account);
    forall j | 0 <= j < count ensures ChunkName(account, Manifest(None, count), j) == LegacySlot(account, j) {
      SlotNames(account, 0, count, j);
    }
    assert PreviousNames(s.slots, account) == set j | 0 <= j < count :: LegacySlot(account, j);
  }

  /** And of a secret saved with draw `n`. */
  lemma DrawnIsDeleted(s: Store, plan: Plan, account: string, n: nat, count: nat)
    requires AllWorks(plan) && n < TWO_TO_128 && 1 <= count <= 64
    requires Lookup(s.slots, account) == Some(ManifestText(n, count))
    ensures var t := Delete(s, plan, account);
      t.reply.Done? && t.store.slots == s.slots - ({account} + set j | 0 <= j < count :: DrawnSlot(account, n, j))
  {
    var m := Manifest(Some(HexText(n)), count);
    DrawnManifestParses(n, count);
    DeleteSucceeds(s, plan, account);
    forall j | 0 <= j < count ensures ChunkName(account, m, j) == DrawnSlot(account, n, j) {
      SlotNames(account, n, count, j);
    }
    assert PreviousNames(s.slots, account) == set j | 0 <= j < count :: DrawnSlot(account, n, j);
  }
}
