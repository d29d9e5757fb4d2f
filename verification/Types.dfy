/** Types shared by the models. */
module Types {

  datatype Option<+T> = None | Some(value: T) {
    function GetOr(default: T): T {
      if Some? then value else default
    }
  }

  /** Byte strings the models only store and compare. */
  type Bytes = string

  const MAX_UINT64: int := 0xFFFF_FFFF_FFFF_FFFF
  type uint64 = x: int | 0 <= x <= MAX_UINT64

  /** Addresses and hashes are compared and used as map keys by their string form. */
  type Address = string
  type Hash = string

  /** The place of a transaction: its account and nonce. */
  type Ptr = (Address, nat)

  /** Reading a Go map: the value, or nil. */
  function Get<K, V>(m: map<K, V>, k: K): Option<V> {
    if k in m then Some(m[k]) else None
  }

  lemma SameMap<K, V>(m: map<K, V>, n: map<K, V>)
    requires forall k :: Get(m, k) == Get(n, k)
    ensures m == n
  {
    forall k ensures k in m <==> k in n {
      assert Get(m, k) == Get(n, k);
    }
    forall k | k in m ensures m[k] == n[k] {
      assert Get(m, k) == Get(n, k);
    }
  }
}
