/**
 * The backends for manual policies, keyed by client identity: Redis, which drops an
 * entry at the end of its time to live, and a map in memory.
 */
module PolicyStore {
  import opened Base
  import opened Client
  import opened Policy

  /** A saved overlay and the wall-clock time at which the backend drops it, if ever. */
  datatype Entry = Entry(policy: StoredManual, deadline: Option<nat>)

  type Stored = map<ClientId, Entry>

  datatype Storage = Storage(redis: bool, entries: Stored)

  /** When Redis drops an entry written at `wall`: after at least one second. */
  function Deadline(p: StoredManual, wall: nat): Option<nat> {
    if p.untilUnix.None? then None
    else Some(wall + Max(1, SatSub(p.untilUnix.value, wall / NANOS)) * NANOS)
  }

  predicate Alive(e: Entry, wall: nat) {
    e.deadline.Some? ==> wall < e.deadline.value
  }

  function Save(st: Storage, c: ClientId, p: StoredManual, wall: nat): Storage {
    st.(entries := st.entries[c := Entry(p, if st.redis then Deadline(p, wall) else None)])
  }

  function Erase(st: Storage, c: ClientId): Storage {
    st.(entries := st.entries - {c})
  }

  /** What a start at `wall` finds. */
  function Loaded(st: Storage, wall: nat): map<ClientId, StoredManual> {
    map c | c in st.entries && Alive(st.entries[c], wall) :: st.entries[c].policy
  }

  /** Every entry once, in whatever order the backend yields them. */
  predicate Lists(out: seq<(ClientId, StoredManual)>, m: map<ClientId, StoredManual>) {
    && |out| == |m|
    && (forall i, j :: 0 <= i < j < |out| ==> out[i].0 != out[j].0)
    && (forall i :: 0 <= i < |out| ==> out[i].0 in m && m[out[i].0] == out[i].1)
    && (forall c :: c in m ==> (c, m[c]) in out)
  }

  method ListAll(m: map<ClientId, StoredManual>) returns (out: seq<(ClientId, StoredManual)>)
    ensures Lists(out, m)
  {
    out := [];
    var todo := m.Keys;
    while todo != {}
      invariant todo <= m.Keys && |out| + |todo| == |m.Keys|
      invariant forall i :: 0 <= i < |out| ==> out[i].0 in m && out[i].0 !in todo && m[out[i].0] == out[i].1
      invariant forall i, j :: 0 <= i < j < |out| ==> out[i].0 != out[j].0
      invariant forall c :: c in m && c !in todo ==> (c, m[c]) in out
      decreases todo
    {
      var c :| c in todo;
      out := out + [(c, m[c])];
      todo := todo - {c};
    }
  }

  class MemoryStore {
    var policies: map<ClientId, StoredManual>

    constructor ()
      ensures policies == map[]
    {
      policies := map[];
    }

    method Put(client: ClientId, policy: StoredManual)
      modifies this
      ensures policies == old(policies)[client := policy]
    {
      policies := policies[client := policy];
    }

    method Remove(client: ClientId)
      modifies this
      ensures policies == old(policies) - {client}
    {
      policies := policies - {client};
    }

    method LoadAll() returns (out: seq<(ClientId, StoredManual)>)
      ensures Lists(out, policies)
    {
      out := ListAll(policies);
    }
  }

  /** Redis: a temporary policy is written with a time to live. */
  class RedisStore {
    var entries: Stored

    constructor ()
      ensures entries == map[]
    {
      entries := map[];
    }

    method Put(client: ClientId, policy: StoredManual, wall: nat)
      modifies this
      ensures entries == old(entries)[client := Entry(policy, Deadline(policy, wall))]
    {
      if policy.untilUnix.Some? {
        var now := wall / NANOS;
        var ttl := Max(1, SatSub(policy.untilUnix.value, now));
        entries := entries[client := Entry(policy, Some(wall + ttl * NANOS))];
      } else {
        entries := entries[client := Entry(policy, None)];
      }
    }

    method Remove(client: ClientId)
      modifies this
      ensures entries == old(entries) - {client}
    {
      entries := entries - {client};
    }

    /** The entries whose time to live is not over. */
    method LoadAll(wall: nat) returns (out: seq<(ClientId, StoredManual)>)
      ensures Lists(out, Loaded(Storage(true, entries), wall))
    {
      out := ListAll(map c | c in entries && Alive(entries[c], wall) :: entries[c].policy);
    }
  }

  datatype StoreBackend = Redis(redis: RedisStore) | Memory(memory: MemoryStore)

  ghost function StoreObject(b: StoreBackend): object {
    match b
    case Redis(r) => r
    case Memory(m) => m
  }

  function InMemory(policies: map<ClientId, StoredManual>): Storage {
    Storage(false, map c | c in policies :: Entry(policies[c], None))
  }

  ghost function Contents(b: StoreBackend): Storage
    reads StoreObject(b)
  {
    match b
    case Redis(r) => Storage(true, r.entries)
    case Memory(m) => InMemory(m.policies)
  }

  /** Writes a manual policy, or removes it when there is none. */
  method PersistManual(store: StoreBackend, client: ClientId, policy: Option<StoredManual>, wall: nat)
    modifies StoreObject(store)
    ensures Contents(store) ==
      if policy.Some? then Save(old(Contents(store)), client, policy.value, wall)
      else Erase(old(Contents(store)), client)
  {
    match store {
      case Redis(r) =>
        if policy.Some? {
          r.Put(client, policy.value, wall);
        } else {
          r.Remove(client);
        }
      case Memory(m) =>
        if policy.Some? {
          m.Put(client, policy.value);
        } else {
          m.Remove(client);
        }
    }
  }

  method LoadManual(store: StoreBackend, wall: nat) returns (out: seq<(ClientId, StoredManual)>)
    ensures Lists(out, Loaded(Contents(store), wall))
  {
    match store {
      case Redis(r) => out := r.LoadAll(wall);
      case Memory(m) =>
        out := m.LoadAll();
        assert Loaded(InMemory(m.policies), wall) == m.policies;
    }
  }

  /** When a saved overlay is over, on the wall clock. */
  function Expiry(p: StoredManual): nat
    requires p.untilUnix.Some?
  {
    p.untilUnix.value * NANOS
  }

  /** An entry is never dropped before its overlay is over. */
  predicate Lasts(e: Entry) {
    e.deadline.Some? ==> e.policy.untilUnix.Some? && Expiry(e.policy) <= e.deadline.value
  }

  lemma SavedLasts(p: StoredManual, wall: nat)
    ensures Lasts(Entry(p, Deadline(p, wall)))
  {
  }

  /**
   * When Redis hands out an overlay that is over: exactly when less than a second of it
   * was left as it was last saved, and less than a second has passed since.
   */
  lemma OutlivesExactly(m: ManualPolicy, now: nat, later: nat, offset: nat)
    requires m.until.Some? && Fits(m, now, now + offset)
    requires now <= later && m.until.value <= later
    ensures var p := FromRuntime(m, now, now + offset);
      Alive(Entry(p, Deadline(p, now + offset)), later + offset) <==>
        m.until.value < now + NANOS && later < now + NANOS
  {
    var p := FromRuntime(m, now, now + offset);
    assert SatSub(p.untilUnix.value, (now + offset) / NANOS) == SatSub(m.until.value, now) / NANOS;
  }
}
