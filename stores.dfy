/** The store capability that both the shared handle and the derived `State`
    impls work against: byte keys, byte values, exact-key lookup, and sub-stores
    addressed by a byte prefix. */
module Stores {

  /** A `u8`. */
  newtype byte = b: int | 0 <= b < 256

  type Bytes = seq<byte>

  /** The crate's error value. Its contents never matter to this layer: it is
      only ever passed through. */
  datatype Error = Error(code: nat)

  datatype Option<+T> = None | Some(value: T)

  datatype Result<+T> = Ok(value: T) | Err(error: Error)

  /** `get` on a map-backed store: the value stored under exactly `key`. */
  function Lookup(m: map<Bytes, Bytes>, key: Bytes): (r: Option<Bytes>)
    ensures r.Some? <==> key in m
    ensures r.Some? ==> r.value == m[key]
  {
    if key in m then Some(m[key]) else None
  }

  /** `put`: upsert, silently overwriting an earlier value. */
  function Put(m: map<Bytes, Bytes>, key: Bytes, value: Bytes): (r: map<Bytes, Bytes>)
    ensures Lookup(r, key) == Some(value)
    ensures forall k :: k != key ==> Lookup(r, k) == Lookup(m, k)
  {
    m[key := value]
  }

  /** `delete`: removing an absent key is a no-op, not an error. */
  function Delete(m: map<Bytes, Bytes>, key: Bytes): (r: map<Bytes, Bytes>)
    ensures Lookup(r, key) == None
    ensures forall k :: k != key ==> Lookup(r, k) == Lookup(m, k)
    ensures key !in m ==> r == m
  {
    m - {key}
  }

  /** The key prefix of `store.sub(segment)` when `store` has key prefix
      `prefix`: a sub-store reads and writes key `k` at `prefix + segment + k`. */
  function Sub(prefix: Bytes, segment: Bytes): (r: Bytes)
    ensures |r| == |prefix| + |segment|
    ensures r[..|prefix|] == prefix && r[|prefix|..] == segment
  {
    prefix + segment
  }

  /** `sub(p1).sub(p2)` addresses the same keys as `sub(p1 + p2)`. */
  lemma SubComposes(prefix: Bytes, p1: Bytes, p2: Bytes, key: Bytes)
    ensures Sub(Sub(prefix, p1), p2) + key == Sub(prefix, p1 + p2) + key
  {
    assert Sub(Sub(prefix, p1), p2) == prefix + p1 + p2;
  }

  /** The one-byte path segment `&[i]` under which field `i` of a derived
      compound lives. The index is written as a `u8` literal, so it must fit. */
  function FieldSegment(i: nat): (r: Bytes)
    requires i < 256
    ensures |r| == 1 && r[0] as int == i
  {
    [i as byte]
  }

  /** Distinct fields get disjoint key spaces: no key of the sub-store of field
      `i` is also a key of the sub-store of field `j`. */
  lemma FieldSubstoresDisjoint(prefix: Bytes, i: nat, j: nat, k1: Bytes, k2: Bytes)
    requires i < 256 && j < 256 && i != j
    ensures Sub(prefix, FieldSegment(i)) + k1 != Sub(prefix, FieldSegment(j)) + k2
  {
    var a, b := Sub(prefix, FieldSegment(i)) + k1, Sub(prefix, FieldSegment(j)) + k2;
    assert a[|prefix|] == FieldSegment(i)[0];
    assert b[|prefix|] == FieldSegment(j)[0];
  }
}
