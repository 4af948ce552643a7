/** Client identity: L2 MAC plus L3 IP, with the order that `top` ranks by. */
module Client {
  import opened Base

  type Mac = s: seq<u8> | |s| == 6 witness [0, 0, 0, 0, 0, 0]
  type Octets4 = s: seq<u8> | |s| == 4 witness [0, 0, 0, 0]
  type Octets16 = s: seq<u8> | |s| == 16 witness [0, 0, 0, 0, 0, 0, 0, 0, 0, 0, 0, 0, 0, 0, 0, 0]

  datatype IpAddr = V4(v4: Octets4) | V6(v6: Octets16)

  datatype ClientId = ClientId(mac: Mac, ip: IpAddr)

  /** Some client, for facts that do not depend on which. */
  const ANYONE := ClientId([0, 0, 0, 0, 0, 0], V4([0, 0, 0, 0]))

  /** Lexicographic order on byte strings. */
  predicate LexLess(a: seq<u8>, b: seq<u8>) {
    if b == [] then false
    else if a == [] then true
    else a[0] < b[0] || (a[0] == b[0] && LexLess(a[1..], b[1..]))
  }

  /** The derived order on addresses: every IPv4 address before every IPv6 one. */
  predicate IpLess(a: IpAddr, b: IpAddr) {
    match (a, b)
    case (V4(x), V4(y)) => LexLess(x, y)
    case (V6(x), V6(y)) => LexLess(x, y)
    case (V4(_), V6(_)) => true
    case (V6(_), V4(_)) => false
  }

  predicate ClientLess(a: ClientId, b: ClientId) {
    LexLess(a.mac, b.mac) || (a.mac == b.mac && IpLess(a.ip, b.ip))
  }

  lemma {:induction false} LexTotal(a: seq<u8>, b: seq<u8>)
    ensures a == b <==> !LexLess(a, b) && !LexLess(b, a)
    ensures !(LexLess(a, b) && LexLess(b, a))
  {
    if a != [] && b != [] {
      LexTotal(a[1..], b[1..]);
      assert a == [a[0]] + a[1..] && b == [b[0]] + b[1..];
    }
  }

  lemma {:induction false} LexTransitive(a: seq<u8>, b: seq<u8>, c: seq<u8>)
    requires LexLess(a, b) && LexLess(b, c)
    ensures LexLess(a, c)
  {
    if a != [] && a[0] == b[0] == c[0] {
      LexTransitive(a[1..], b[1..], c[1..]);
    }
  }

  /** Two strings of one length that first differ in byte `i`. */
  predicate DifferAt(a: seq<u8>, b: seq<u8>, i: nat) {
    i < |a| == |b| && a[..i] == b[..i] && a[i] != b[i]
  }

  lemma {:induction false} LexFirstDifference(a: seq<u8>, b: seq<u8>, i: nat)
    requires DifferAt(a, b, i)
    ensures LexLess(a, b) <==> a[i] < b[i]
  {
    if i > 0 {
      assert a[0] == a[..i][0] && b[0] == b[..i][0];
      assert a[1..][..i - 1] == a[..i][1..] && b[1..][..i - 1] == b[..i][1..];
      LexFirstDifference(a[1..], b[1..], i - 1);
    }
  }

  /**
   * Ascending by MAC, then by address, IPv4 before IPv6: of two clients the one with the
   * smaller byte where they first differ comes first.
   */
  lemma ClientOrder(a: ClientId, b: ClientId, i: nat)
    ensures DifferAt(a.mac, b.mac, i) ==> (ClientLess(a, b) <==> a.mac[i] < b.mac[i])
    ensures a.mac == b.mac && a.ip.V4? && b.ip.V6? ==> ClientLess(a, b) && !ClientLess(b, a)
    ensures a.mac == b.mac && a.ip.V4? && b.ip.V4? && DifferAt(a.ip.v4, b.ip.v4, i) ==>
      (ClientLess(a, b) <==> a.ip.v4[i] < b.ip.v4[i])
    ensures a.mac == b.mac && a.ip.V6? && b.ip.V6? && DifferAt(a.ip.v6, b.ip.v6, i) ==>
      (ClientLess(a, b) <==> a.ip.v6[i] < b.ip.v6[i])
  {
    LexTotal(a.mac, b.mac);
    if DifferAt(a.mac, b.mac, i) {
      LexFirstDifference(a.mac, b.mac, i);
    } else if a.mac == b.mac {
      match (a.ip, b.ip)
      case (V4(x), V4(y)) => if DifferAt(x, y, i) { LexFirstDifference(x, y, i); }
      case (V6(x), V6(y)) => if DifferAt(x, y, i) { LexFirstDifference(x, y, i); }
      case _ =>
    }
  }

  /** Clients are totally ordered: exactly one of equal, before, after. */
  lemma ClientTotal(a: ClientId, b: ClientId)
    ensures a == b <==> !ClientLess(a, b) && !ClientLess(b, a)
    ensures !(ClientLess(a, b) && ClientLess(b, a))
  {
    LexTotal(a.mac, b.mac);
    match (a.ip, b.ip)
    case (V4(x), V4(y)) => LexTotal(x, y);
    case (V6(x), V6(y)) => LexTotal(x, y);
    case _ =>
  }

  lemma ClientTransitive(a: ClientId, b: ClientId, c: ClientId)
    requires ClientLess(a, b) && ClientLess(b, c)
    ensures ClientLess(a, c)
  {
    if LexLess(a.mac, b.mac) && LexLess(b.mac, c.mac) {
      LexTransitive(a.mac, b.mac, c.mac);
    }
    match (a.ip, b.ip, c.ip)
    case (V4(x), V4(y), V4(z)) => if LexLess(x, y) && LexLess(y, z) { LexTransitive(x, y, z); }
    case (V6(x), V6(y), V6(z)) => if LexLess(x, y) && LexLess(y, z) { LexTransitive(x, y, z); }
    case _ =>
  }
}
