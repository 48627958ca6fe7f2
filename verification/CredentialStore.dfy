/** credential_chunks.rs in its own shape: methods that walk loops over a keyring changed in place. */
module CredentialStore {
  import opened Outcomes
  import opened SecretSplit
  import opened SecretManifest
  import opened SecretStore

  class Keyring {
    const plan: Plan
    var slots: Slots
    var tick: nat

    constructor (plan: Plan, slots: Slots)
      ensures this.plan == plan && State() == Store(slots, 0)
    {
      this.plan, this.slots, tick := plan, slots, 0;
    }

    function State(): Store
      reads this
    {
      Store(slots, tick)
    }

    method GetSlot(name: string) returns (reply: Reply<Option<string>>)
      modifies this
      ensures Step(State(), reply) == Get(old(State()), plan, name)
    {
      var fault := plan.onGet(tick);
      tick := tick + 1;
      match fault {
        case Works => reply := Done(Lookup(slots, name));
        case Fails => reply := Failed(SlotError);
        case _ => reply := Stopped;
      }
    }

    method SetSlot(name: string, value: string) returns (reply: Reply<()>)
      modifies this
      ensures Step(State(), reply) == Set(old(State()), plan, name, value)
    {
      var fault := plan.onSet(tick);
      tick := tick + 1;
      if fault.Works? || fault.StopsAfter? {
        slots := slots[name := value];
      }
      reply := match fault case Works => Done(()) case Fails => Failed(SlotError) case _ => Stopped;
    }

    method RemoveSlot(name: string) returns (reply: Reply<()>)
      modifies this
      ensures Step(State(), reply) == Remove(old(State()), plan, name)
    {
      var fault := plan.onRemove(tick);
      tick := tick + 1;
      if fault.Works? || fault.StopsAfter? {
        slots := slots - {name};
      }
      reply := match fault case Works => Done(()) case Fails => Failed(SlotError) case _ => Stopped;
    }

    /** `Manifest::remove`. */
    method RemoveManifest(account: string, m: Manifest) returns (reply: Reply<()>)
      modifies this
      ensures Step(State(), reply) == RemoveChunks(old(State()), plan, account, m, 0)
    {
      for index := 0 to m.count
        invariant RemoveChunks(State(), plan, account, m, index) == RemoveChunks(old(State()), plan, account, m, 0)
      {
        reply := RemoveSlot(ChunkName(account, m, index));
        if !reply.Done? {
          return;
        }
      }
      reply := Done(());
    }

    /** The staging closure of `save`: every chunk, then the manifest. */
    method StageSecret(account: string, generation: string, chunks: seq<string>) returns (reply: Reply<()>)
      modifies this
      ensures Step(State(), reply) == Stage(old(State()), plan, account, generation, chunks)
    {
      var next := Manifest(Some(generation), |chunks|);
      for index := 0 to |chunks|
        invariant StageChunks(State(), plan, account, next, chunks, index)
               == StageChunks(old(State()), plan, account, next, chunks, 0)
      {
        reply := SetSlot(ChunkName(account, next, index), chunks[index]);
        if !reply.Done? {
          return;
        }
      }
      reply := SetSlot(account, Print(generation, |chunks|));
    }

    method SaveSecret(account: string, secret: string, generation: string) returns (reply: Reply<()>)
      modifies this
      ensures Step(State(), reply) == Save(old(State()), plan, account, secret, generation)
    {
      if secret == "" {
        return Failed(EmptySecret);
      }
      var current := GetSlot(account);
      if !current.Done? {
        return current.Forward();
      }
      var previous := ManifestIn(current.value);
      var chunks := Split(secret);
      if chunks.Err? {
        return Failed(chunks.error);
      }
      if |chunks.value| == 1 && !(PREFIX <= secret) {
        reply := SetSlot(account, secret);
        if !reply.Done? {
          return;
        }
      } else {
        reply := StageSecret(account, generation, chunks.value);
        if reply.Failed? {
          var cleanup := RemoveManifest(account, Manifest(Some(generation), |chunks.value|));
          if !cleanup.Done? {
            reply := if cleanup.Failed? then Failed(CleanupError) else Stopped;
          }
        }
        if !reply.Done? {
          return;
        }
      }
      if previous.Some? {
        reply := RemoveManifest(account, previous.value);
      }
    }

    method LoadSecret(account: string) returns (reply: Reply<Option<string>>)
      modifies this
      ensures Step(State(), reply) == Load(old(State()), plan, account)
    {
      reply := GetSlot(account);
      if !reply.Done? || reply.value.None? {
        return;
      }
      var parsed := Parse(reply.value.value);
      if parsed.Err? {
        return Failed(parsed.error);
      }
      if parsed.value.None? {
        return;
      }
      var m, secret := parsed.value.value, "";
      for index := 0 to m.count
        invariant LoadChunks(State(), plan, account, m, index, secret) == Load(old(State()), plan, account)
      {
        reply := GetSlot(ChunkName(account, m, index));
        if !reply.Done? {
          return;
        }
        if reply.value.None? {
          return Failed(Incomplete);
        }
        secret := secret + reply.value.value;
      }
      reply := Done(Some(secret));
    }

    method DeleteSecret(account: string) returns (reply: Reply<()>)
      modifies this
      ensures Step(State(), reply) == Delete(old(State()), plan, account)
    {
      var current := GetSlot(account);
      if !current.Done? {
        return current.Forward();
      }
      var previous := ManifestIn(current.value);
      reply := RemoveSlot(account);
      if reply.Done? && previous.Some? {
        reply := RemoveManifest(account, previous.value);
      }
    }
  }
}
