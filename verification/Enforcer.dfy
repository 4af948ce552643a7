/** Enforcers: the permissive log, and the eBPF policy map seen through its mirror. */
module Enforcer {
  import opened Base
  import opened Client
  import opened Policy

  datatype Mode = Enforce | Permissive

  type Actions = map<ClientId, EffectiveAction>

  /** Records the last action per client and enforces nothing. */
  class PermissiveEnforcer {
    var log: Actions

    constructor ()
      ensures log == map[]
    {
      log := map[];
    }

    method Apply(client: ClientId, action: EffectiveAction)
      modifies this
      ensures log == old(log)[client := action]
    {
      log := log[client := action];
    }

    method Clear(client: ClientId)
      modifies this
      ensures log == old(log) - {client}
    {
      log := log - {client};
    }
  }

  type PolicyKey = s: seq<u8> | |s| == 10 witness [0, 0, 0, 0, 0, 0, 0, 0, 0, 0]

  datatype PolicyValue = PolicyValue(blocked: bool, dropRate: u8)

  type Mirror = map<PolicyKey, PolicyValue>

  /** MAC bytes then address bytes; only IPv4 clients have a key. */
  function KeyOf(c: ClientId): Option<PolicyKey> {
    if c.ip.V4? then Some(c.mac + c.ip.v4) else None
  }

  /** No two IPv4 clients share a key, and every key is some client's. */
  lemma KeyIsBijective(c: ClientId, d: ClientId, k: PolicyKey)
    ensures KeyOf(c).Some? && KeyOf(c) == KeyOf(d) ==> c == d
    ensures KeyOf(ClientId(k[..6], V4(k[6..]))) == Some(k)
  {
    if KeyOf(c).Some? && KeyOf(c) == KeyOf(d) {
      assert c.mac == KeyOf(c).value[..6] && d.mac == KeyOf(d).value[..6];
      assert c.ip.v4 == KeyOf(c).value[6..] && d.ip.v4 == KeyOf(d).value[6..];
    }
    assert k[..6] + k[6..] == k;
  }

  /** The map value that stands for an action; None where no entry is kept. */
  function Written(a: Option<EffectiveAction>): Option<PolicyValue> {
    if a.None? then None
    else
      match a.value
      case PassAll => None
      case ThrottleTo(rate) => Some(PolicyValue(false, rate))
      case BlockAll => Some(PolicyValue(true, 100))
  }

  /** The mirror is the image of `actions` under the key. */
  ghost predicate Mirrors(mirror: Mirror, actions: Actions) {
    forall c: ClientId :: KeyOf(c).Some? ==> Get(mirror, KeyOf(c).value) == Written(Get(actions, c))
  }

  /** The image determines the mirror: nothing else can be in it. */
  lemma MirrorIsDetermined(m: Mirror, m': Mirror, actions: Actions)
    requires Mirrors(m, actions) && Mirrors(m', actions)
    ensures m == m'
  {
    forall k: PolicyKey ensures Get(m, k) == Get(m', k) {
      var c := ClientId(k[..6], V4(k[6..]));
      KeyIsBijective(c, c, k);
    }
    assert forall k: PolicyKey :: (k in m <==> Get(m, k).Some?) && (k in m' <==> Get(m', k).Some?);
  }

  lemma MirrorsWrite(mirror: Mirror, actions: Actions, c: ClientId, a: EffectiveAction)
    requires Mirrors(mirror, actions) && KeyOf(c).Some? && a != PassAll
    ensures Mirrors(mirror[KeyOf(c).value := Written(Some(a)).value], actions[c := a])
  {
    forall d: ClientId | KeyOf(d).Some?
      ensures Get(mirror[KeyOf(c).value := Written(Some(a)).value], KeyOf(d).value) == Written(Get(actions[c := a], d))
    {
      KeyIsBijective(c, d, KeyOf(d).value);
      assert Get(mirror, KeyOf(d).value) == Written(Get(actions, d));
    }
  }

  lemma MirrorsErase(mirror: Mirror, actions: Actions, c: ClientId, without: Actions)
    requires Mirrors(mirror, actions) && KeyOf(c).Some?
    requires without == actions - {c} || without == actions[c := PassAll]
    ensures Mirrors(mirror - {KeyOf(c).value}, without)
  {
    forall d: ClientId | KeyOf(d).Some?
      ensures Get(mirror - {KeyOf(c).value}, KeyOf(d).value) == Written(Get(without, d))
    {
      KeyIsBijective(c, d, KeyOf(d).value);
      assert Get(mirror, KeyOf(d).value) == Written(Get(actions, d));
    }
  }

  class BpfEnforcer {
    var mirror: Mirror

    constructor ()
      ensures mirror == map[]
    {
      mirror := map[];
    }

    /** Fills the ten key bytes in place. */
    static method FillKey(c: ClientId) returns (key: Option<PolicyKey>)
      ensures key == KeyOf(c)
      ensures key == if c.ip.V4? then Some(c.mac + c.ip.v4) else None
    {
      if c.ip.V6? {
        return None;
      }
      var bytes := new u8[10](_ => 0);
      for i := 0 to 6
        invariant bytes[..i] == c.mac[..i]
      {
        bytes[i] := c.mac[i];
      }
      for i := 0 to 4
        invariant bytes[..6 + i] == c.mac + c.ip.v4[..i]
      {
        bytes[6 + i] := c.ip.v4[i];
      }
      assert bytes[..] == bytes[..10] && c.ip.v4[..4] == c.ip.v4;
      return Some(bytes[..]);
    }

    /** Whatever log the mirror stood for before, it stands for the updated log after. */
    method Apply(client: ClientId, action: EffectiveAction)
      modifies this
      ensures forall log: Actions :: old(Mirrors(mirror, log)) ==> Mirrors(mirror, log[client := action])
      ensures client.ip.V6? ==> mirror == old(mirror)
      ensures client.ip.V4? ==>
        var key := client.mac + client.ip.v4;
        mirror == match action
                  case BlockAll => old(mirror)[key := PolicyValue(true, 100)]
                  case ThrottleTo(rate) => old(mirror)[key := PolicyValue(false, rate)]
                  case PassAll => old(mirror) - {key}
    {
      var key := FillKey(client);
      if key.None? {
        return;
      }
      match action {
        case PassAll =>
          Clear(client);
          return;
        case BlockAll =>
          mirror := mirror[key.value := PolicyValue(true, 100)];
        case ThrottleTo(rate) =>
          mirror := mirror[key.value := PolicyValue(false, rate)];
      }
      forall log: Actions | old(Mirrors(mirror, log)) ensures Mirrors(mirror, log[client := action]) {
        MirrorsWrite(old(mirror), log, client, action);
      }
    }

    method Clear(client: ClientId)
      modifies this
      ensures forall log: Actions :: old(Mirrors(mirror, log)) ==>
        Mirrors(mirror, log - {client}) && (KeyOf(client).Some? ==> Mirrors(mirror, log[client := PassAll]))
      ensures mirror == if client.ip.V4? then old(mirror) - {client.mac + client.ip.v4} else old(mirror)
    {
      var key := FillKey(client);
      if key.Some? {
        mirror := mirror - {key.value};
        forall log: Actions | old(Mirrors(mirror, log))
          ensures Mirrors(mirror, log - {client}) && Mirrors(mirror, log[client := PassAll])
        {
          MirrorsErase(old(mirror), log, client, log - {client});
          MirrorsErase(old(mirror), log, client, log[client := PassAll]);
        }
      }
    }
  }
}
