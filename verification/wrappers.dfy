/** Failure-carrying datatypes shared by every layer of the model: Go's
    `(value, error)` pairs become `Result`, bare `error` returns become
    `Outcome`, and "maybe absent" values become `Option`. */
module Wrappers {

  datatype Option<+T> = None | Some(value: T)

  datatype Result<+T, +E> = Ok(value: T) | Err(error: E)

  datatype Outcome<+E> = Pass | Fail(error: E)
}

/** Go's `for k, v := range m` visits the keys of a map in an unspecified
    order. The model makes that order an explicit argument: any sequence
    that lists every key of the map exactly once. */
module Enumeration {

  /** `order` lists each element of `keys` exactly once. */
  predicate IsEnumeration<K>(order: seq<K>, keys: set<K>) {
    && (forall i :: 0 <= i < |order| ==> order[i] in keys)
    && (forall k :: k in keys ==> k in order)
    && (forall i, j :: 0 <= i < j < |order| ==> order[i] != order[j])
  }

  /** The entries of `m` whose keys occur in `order`. */
  function Restrict<K(!new), V>(m: map<K, V>, order: seq<K>): (r: map<K, V>)
    requires forall i :: 0 <= i < |order| ==> order[i] in m
    ensures forall k :: k in r <==> k in order
    ensures forall k :: k in r ==> r[k] == m[k]
  {
    map k | k in order :: m[k]
  }

  /** Merging with the empty map, on either side, changes nothing. */
  lemma EmptyUnion<K, V>(m: map<K, V>)
    ensures map[] + m == m && m + map[] == m
  {
  }

  /** Visiting every key of an enumeration visits the whole map. */
  lemma RestrictEnumeration<K(!new), V>(m: map<K, V>, order: seq<K>)
    requires IsEnumeration(order, m.Keys)
    ensures Restrict(m, order) == m
  {
  }

  /** Restricting to `k` followed by `rest` is setting `k` and then restricting to `rest`. */
  lemma RestrictCons<K(!new), V>(acc: map<K, V>, m: map<K, V>, order: seq<K>)
    requires order != [] && forall i :: 0 <= i < |order| ==> order[i] in m
    ensures acc[order[0] := m[order[0]]] + Restrict(m, order[1..]) == acc + Restrict(m, order)
  {
    assert forall k :: k in order <==> k == order[0] || k in order[1..];
  }
}
