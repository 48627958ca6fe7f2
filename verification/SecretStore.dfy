/**
 * `save`, `load` and `delete` of credential_chunks.rs as functions of a slot map and a fault plan.
 * A plan decides, operation by operation, whether the keyring call works, fails without effect,
 * or is the last thing the process does (stopping just before or just after its effect).
 */
module SecretStore {
  import opened Outcomes
  import opened SecretSplit
  import opened SecretManifest

  type Slots = map<string, string>

  datatype Fault = Works | Fails | StopsBefore | StopsAfter

  datatype Plan = Plan(onGet: nat -> Fault, onSet: nat -> Fault, onRemove: nat -> Fault)

  /** The slots and the number of keyring calls made so far. */
  datatype Store = Store(slots: Slots, tick: nat)

  datatype Reply<+T> = Done(value: T) | Failed(error: Error) | Stopped
  {
    /** The same failure or stop, at another value type: Rust's `?`. */
    function Forward<U>(): Reply<U>
      requires !Done?
    {
      if Failed? then Reply<U>.Failed(error) else Reply<U>.Stopped
    }
  }

  datatype Step<+T> = Step(store: Store, reply: Reply<T>)

  function Perform(s: Store, fault: Fault, after: Slots): Step<()> {
    match fault
    case Works => Step(Store(after, s.tick + 1), Done(()))
    case Fails => Step(Store(s.slots, s.tick + 1), Failed(SlotError))
    case StopsBefore => Step(Store(s.slots, s.tick + 1), Stopped)
    case StopsAfter => Step(Store(after, s.tick + 1), Stopped)
  }

  function Lookup(slots: Slots, name: string): Option<string> {
    if name in slots then Some(slots[name]) else None
  }

  function Get(s: Store, plan: Plan, name: string): Step<Option<string>> {
    var p := Perform(s, plan.onGet(s.tick), s.slots);
    Step(p.store, if p.reply.Done? then Done(Lookup(s.slots, name)) else p.reply.Forward())
  }

  function Set(s: Store, plan: Plan, name: string, value: string): Step<()> {
    Perform(s, plan.onSet(s.tick), s.slots[name := value])
  }

  function Remove(s: Store, plan: Plan, name: string): Step<()> {
    Perform(s, plan.onRemove(s.tick), s.slots - {name})
  }

  /** `Manifest::remove` from chunk `i` on: the first failure ends it. */
  function RemoveChunks(s: Store, plan: Plan, account: string, m: Manifest, i: nat): Step<()>
    requires i <= m.count
    decreases m.count - i
  {
    if i == m.count then Step(s, Done(())) else
      var r := Remove(s, plan, ChunkName(account, m, i));
      if r.reply.Done? then RemoveChunks(r.store, plan, account, m, i + 1) else r
  }

  function StageChunks(s: Store, plan: Plan, account: string, m: Manifest, chunks: seq<string>, i: nat): Step<()>
    requires i <= m.count == |chunks|
    decreases m.count - i
  {
    if i == m.count then Step(s, Done(())) else
      var r := Set(s, plan, ChunkName(account, m, i), chunks[i]);
      if r.reply.Done? then StageChunks(r.store, plan, account, m, chunks, i + 1) else r
  }

  /** The chunk writes, then the single write that publishes them. */
  function Stage(s: Store, plan: Plan, account: string, generation: string, chunks: seq<string>): Step<()> {
    var r := StageChunks(s, plan, account, Manifest(Some(generation), |chunks|), chunks, 0);
    if r.reply.Done? then Set(r.store, plan, account, Print(generation, |chunks|)) else r
  }

  /** Whether the secret is stored as it is, in the account's own slot. */
  predicate Plain(secret: string) {
    |Chunks(secret)| == 1 && !(PREFIX <= secret)
  }

  function Publish(s: Store, plan: Plan, account: string, secret: string, generation: string): Step<()> {
    if Plain(secret) then Set(s, plan, account, secret) else
      var staged := Stage(s, plan, account, generation, Chunks(secret));
      if !staged.reply.Failed? then staged else
        var cleaned := RemoveChunks(staged.store, plan, account, Manifest(Some(generation), |Chunks(secret)|), 0);
        Step(cleaned.store,
             match cleaned.reply
             case Done(_) => staged.reply
             case Failed(_) => Failed(CleanupError)
             case Stopped => Stopped)
  }

  /** The manifest an account's own slot publishes, if it holds a whole one. */
  function Published(slots: Slots, account: string): (m: Option<Manifest>)
    ensures m.Some? ==> Valid(m.value)
  {
    ManifestIn(Lookup(slots, account))
  }

  function RemovePrevious(s: Store, plan: Plan, account: string, previous: Option<Manifest>): Step<()> {
    if previous.Some? then RemoveChunks(s, plan, account, previous.value, 0) else Step(s, Done(()))
  }

  function Save(s: Store, plan: Plan, account: string, secret: string, generation: string): Step<()> {
    if secret == "" then Step(s, Failed(EmptySecret)) else
      var got := Get(s, plan, account);
      if !got.reply.Done? then Step(got.store, got.reply.Forward()) else
        if SplitSecret(secret).Err? then Step(got.store, Failed(TooLarge)) else
          var published := Publish(got.store, plan, account, secret, generation);
          if !published.reply.Done? then published
          else RemovePrevious(published.store, plan, account, Published(s.slots, account))
  }

  function Delete(s: Store, plan: Plan, account: string): Step<()> {
    var got := Get(s, plan, account);
    if !got.reply.Done? then Step(got.store, got.reply.Forward()) else
      var removed := Remove(got.store, plan, account);
      if !removed.reply.Done? then removed
      else RemovePrevious(removed.store, plan, account, Published(s.slots, account))
  }

  function LoadChunks(s: Store, plan: Plan, account: string, m: Manifest, i: nat, secret: string): Step<Option<string>>
    requires i <= m.count
    decreases m.count - i
  {
    if i == m.count then Step(s, Done(Some(secret))) else
      var got := Get(s, plan, ChunkName(account, m, i));
      if !got.reply.Done? then got
      else if got.reply.value.None? then Step(got.store, Failed(Incomplete))
      else LoadChunks(got.store, plan, account, m, i + 1, secret + got.reply.value.value)
  }

  function Load(s: Store, plan: Plan, account: string): Step<Option<string>> {
    var got := Get(s, plan, account);
    if !got.reply.Done? || got.reply.value.None? then got else
      LoadFrom(got.store, plan, account, got.reply.value.value, Parse(got.reply.value.value))
  }

  /** The rest of `load` once the base slot's value is parsed. */
  function LoadFrom(
    s: Store, plan: Plan, account: string, value: string, parsed: Result<Option<Manifest>, Error>): Step<Option<string>>
  {
    match parsed
    case Err(e) => Step(s, Failed(e))
    case Ok(None) => Step(s, Done(Some(value)))
    case Ok(Some(m)) => LoadChunks(s, plan, account, m, 0, "")
  }

  /** What the slots hold for an account, read without faults: the yardstick for every claim below. */
  datatype Content = Missing | Secret(text: string) | Unreadable(why: Error)

  function Gather(slots: Slots, account: string, m: Manifest, i: nat): Content
    requires i <= m.count
    decreases m.count - i
  {
    if i == m.count then Secret("") else
      var name := ChunkName(account, m, i);
      if name !in slots then Unreadable(Incomplete) else
        match Gather(slots, account, m, i + 1)
        case Secret(rest) => Secret(slots[name] + rest)
        case other => other
  }

  function Read(slots: Slots, account: string): Content {
    if account !in slots then Missing else ReadFrom(slots, account, slots[account], Parse(slots[account]))
  }

  function ReadFrom(slots: Slots, account: string, value: string, parsed: Result<Option<Manifest>, Error>): Content {
    match parsed
    case Err(e) => Unreadable(e)
    case Ok(None) => Secret(value)
    case Ok(Some(m)) => Gather(slots, account, m, 0)
  }
}
