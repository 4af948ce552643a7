/** Machine numbers, time units and small containers shared by every module. */
module Base {

  const U64_MAX: nat := 0xFFFF_FFFF_FFFF_FFFF

  /** Instants are natural numbers of nanoseconds; this is one second of them. */
  const NANOS: nat := 1_000_000_000

  type u8 = x: int | 0 <= x < 0x100
  type u16 = x: int | 0 <= x < 0x1_0000
  type u64 = x: int | 0 <= x <= 0xFFFF_FFFF_FFFF_FFFF

  datatype Option<+T> = None | Some(value: T)

  datatype Result<+T, +E> = Ok(value: T) | Err(error: E)

  function Min(a: int, b: int): int {
    if a <= b then a else b
  }

  function Max(a: int, b: int): int {
    if a <= b then b else a
  }

  /** `u64::saturating_add`. */
  function SatAdd(a: nat, b: nat): u64 {
    Min(U64_MAX, a + b)
  }

  /** `u64::saturating_sub`, also `saturating_duration_since` on instants. */
  function SatSub(a: nat, b: nat): nat {
    if a <= b then 0 else a - b
  }

  /** `HashMap::get`. */
  function Get<K, V>(m: map<K, V>, k: K): Option<V> {
    if k in m then Some(m[k]) else None
  }

  /** The map `m` with the keys of `over` set. */
  function Extend<K, V>(m: map<K, V>, over: set<K>, f: K -> V): map<K, V> {
    m + map k | k in over :: f(k)
  }

  /** The map `m` with the keys of `over` set, or removed where `f` yields None. */
  function Override<K, V>(m: map<K, V>, over: set<K>, f: K -> Option<V>): map<K, V> {
    map k | k in m.Keys + over && (k in over ==> f(k).Some?) :: if k in over then f(k).value else m[k]
  }

  lemma UpdateTwice<K, V>(m: map<K, V>, k: K, v: V, w: V)
    ensures m[k := v][k := w] == m[k := w]
  {
  }

  lemma MapsEqual<K, V>(a: map<K, V>, b: map<K, V>)
    requires a.Keys == b.Keys && forall k | k in a :: a[k] == b[k]
    ensures a == b
  {
  }
}
