/**
 * `SKeyHash` (utility/hash/keyhash.h): a key paired with its hash, compared through
 * six operators, and the `void` specialisation that holds a key only.
 *
 * The hash type's own `<` and the key type's own `<` are parameters (`hless`, `less`);
 * `==` on keys and hashes is Dafny equality.
 */
module KeyHash {

  datatype KeyHash<K, H> = KeyHash(key: K, hash: H)

  /** `SKeyHash<K, void>`: the key alone. */
  datatype KeyOnly<K> = KeyOnly(key: K)

  /** `lt` is a strict order: irreflexive and transitive. */
  ghost predicate StrictOrder<T(!new)>(lt: (T, T) -> bool)
  {
    && (forall a :: !lt(a, a))
    && (forall a, b, c :: lt(a, b) && lt(b, c) ==> lt(a, c))
  }

  /** `lt` is a strict total order: a strict order, total on distinct values. */
  ghost predicate StrictTotalOrder<T(!new)>(lt: (T, T) -> bool)
  {
    && StrictOrder(lt)
    && (forall a, b :: a != b ==> lt(a, b) || lt(b, a))
  }

  // ---------------------------------------------------------------------------
  // SKeyHash<K, H>
  // ---------------------------------------------------------------------------

  /** `==`: unequal hashes answer false at once; otherwise the keys decide. */
  function Eq<K(==), H(==)>(a: KeyHash<K, H>, b: KeyHash<K, H>): (r: bool)
    ensures r <==> a == b
  {
    if a.hash != b.hash then false else a.key == b.key
  }

  /** `!=`: the negation of `==`. */
  function Ne<K(==), H(==)>(a: KeyHash<K, H>, b: KeyHash<K, H>): (r: bool)
    ensures r <==> a.hash != b.hash || a.key != b.key
  {
    !Eq(a, b)
  }

  /** `<`: the hash type's `<` on the two hashes; the keys take no part. */
  function Lt<K, H(!new)>(hless: (H, H) -> bool, a: KeyHash<K, H>, b: KeyHash<K, H>): (r: bool)
    ensures (forall h :: !hless(h, h)) && a.hash == b.hash ==> !r
    ensures StrictOrder(hless) && r ==> !hless(b.hash, a.hash)
    ensures StrictTotalOrder(hless) && a.hash != b.hash ==> r || hless(b.hash, a.hash)
  {
    hless(a.hash, b.hash)
  }

  /** `<` looks at the hashes alone: replacing either key changes nothing. */
  lemma LtIgnoresKeys<K, H(!new)>(hless: (H, H) -> bool, a: KeyHash<K, H>, b: KeyHash<K, H>, ka: K, kb: K)
    ensures Lt(hless, a, b) == Lt(hless, a.(key := ka), b.(key := kb))
  {
  }

  /** `<=`: `<` or `==`. */
  function Le<K(==), H(==,!new)>(hless: (H, H) -> bool, a: KeyHash<K, H>, b: KeyHash<K, H>): (r: bool)
    ensures r <==> hless(a.hash, b.hash) || a == b
  {
    Lt(hless, a, b) || Eq(a, b)
  }

  /** `>`: not `<=`. */
  function Gt<K(==), H(==,!new)>(hless: (H, H) -> bool, a: KeyHash<K, H>, b: KeyHash<K, H>): (r: bool)
    ensures r <==> !hless(a.hash, b.hash) && a != b
  {
    !Le(hless, a, b)
  }

  /** `>=`: not `<`. */
  function Ge<K, H(!new)>(hless: (H, H) -> bool, a: KeyHash<K, H>, b: KeyHash<K, H>): (r: bool)
    ensures r <==> !hless(a.hash, b.hash)
  {
    !Lt(hless, a, b)
  }

  /** Two different keys with the same hash are each greater than the other, neither is
      less, and `>=` is not the mirror of `<=`: `>` is not antisymmetric. */
  lemma CollidingKeysBothGreater<K, H(!new)>(hless: (H, H) -> bool, a: KeyHash<K, H>, b: KeyHash<K, H>)
    requires forall h :: !hless(h, h)
    requires a.hash == b.hash && a.key != b.key
    ensures Gt(hless, a, b) && Gt(hless, b, a)
    ensures !Lt(hless, a, b) && !Lt(hless, b, a) && !Eq(a, b)
    ensures Ge(hless, b, a) && !Le(hless, a, b)
  {
    assert !hless(a.hash, a.hash);
  }

  /** `>=` is `>` or `==` whenever the hash order is irreflexive. */
  lemma GeIsGtOrEq<K, H(!new)>(hless: (H, H) -> bool, a: KeyHash<K, H>, b: KeyHash<K, H>)
    requires forall h :: !hless(h, h)
    ensures Ge(hless, a, b) <==> Gt(hless, a, b) || Eq(a, b)
  {
    assert !hless(a.hash, a.hash);
  }

  /** When the hash order is a strict total order and the two values do not collide
      (equal hashes only for equal keys), exactly one of `<`, `==`, `>` holds, `>` is the
      mirror of `<` and `>=` the mirror of `<=`. */
  lemma HashTrichotomy<K, H(!new)>(hless: (H, H) -> bool, a: KeyHash<K, H>, b: KeyHash<K, H>)
    requires StrictTotalOrder(hless)
    requires a.hash == b.hash ==> a.key == b.key
    ensures Lt(hless, a, b) || Eq(a, b) || Gt(hless, a, b)
    ensures !(Lt(hless, a, b) && Eq(a, b))
    ensures !(Lt(hless, a, b) && Gt(hless, a, b))
    ensures !(Eq(a, b) && Gt(hless, a, b))
    ensures Gt(hless, a, b) <==> Lt(hless, b, a)
    ensures Ge(hless, a, b) <==> Le(hless, b, a)
  {
    assert !hless(a.hash, a.hash);
    assert hless(a.hash, b.hash) && hless(b.hash, a.hash) ==> hless(a.hash, a.hash);
  }

  // ---------------------------------------------------------------------------
  // SKeyHash<K, void>
  // ---------------------------------------------------------------------------

  /** `==`: the keys. */
  function KeyEq<K(==)>(a: KeyOnly<K>, b: KeyOnly<K>): (r: bool)
    ensures r <==> a == b
  {
    a.key == b.key
  }

  /** `!=`: the negation of `==`. */
  function KeyNe<K(==)>(a: KeyOnly<K>, b: KeyOnly<K>): (r: bool)
    ensures r <==> a.key != b.key
  {
    !KeyEq(a, b)
  }

  /** `<`: the key type's own `<`. */
  function KeyLt<K(!new)>(less: (K, K) -> bool, a: KeyOnly<K>, b: KeyOnly<K>): (r: bool)
    ensures (forall k :: !less(k, k)) && a.key == b.key ==> !r
    ensures StrictOrder(less) && r ==> !less(b.key, a.key)
    ensures StrictTotalOrder(less) && a.key != b.key ==> r || less(b.key, a.key)
  {
    less(a.key, b.key)
  }

  /** `<=`: `<` or `==`. */
  function KeyLe<K(==,!new)>(less: (K, K) -> bool, a: KeyOnly<K>, b: KeyOnly<K>): (r: bool)
    ensures r <==> less(a.key, b.key) || a.key == b.key
  {
    KeyLt(less, a, b) || KeyEq(a, b)
  }

  /** `>`: not `<=`. */
  function KeyGt<K(==,!new)>(less: (K, K) -> bool, a: KeyOnly<K>, b: KeyOnly<K>): (r: bool)
    ensures r <==> !less(a.key, b.key) && a.key != b.key
  {
    !KeyLe(less, a, b)
  }

  /** `>=`: not `<`. */
  function KeyGe<K(!new)>(less: (K, K) -> bool, a: KeyOnly<K>, b: KeyOnly<K>): (r: bool)
    ensures r <==> !less(a.key, b.key)
  {
    !KeyLt(less, a, b)
  }

  /** Under a strict total order on keys exactly one of `<`, `==`, `>` holds, `>` and `>=`
      are the mirrors of `<` and `<=`, and `>=` is `>` or `==`. */
  lemma KeyTrichotomy<K(!new)>(less: (K, K) -> bool, a: KeyOnly<K>, b: KeyOnly<K>)
    requires StrictTotalOrder(less)
    ensures KeyLt(less, a, b) || KeyEq(a, b) || KeyGt(less, a, b)
    ensures !(KeyLt(less, a, b) && KeyEq(a, b))
    ensures !(KeyLt(less, a, b) && KeyGt(less, a, b))
    ensures !(KeyEq(a, b) && KeyGt(less, a, b))
    ensures KeyGt(less, a, b) <==> KeyLt(less, b, a)
    ensures KeyGe(less, a, b) <==> KeyLe(less, b, a)
    ensures KeyGe(less, a, b) <==> KeyGt(less, a, b) || KeyEq(a, b)
  {
    assert !less(a.key, a.key);
    assert less(a.key, b.key) && less(b.key, a.key) ==> less(a.key, a.key);
  }

  /** Without totality the mirror fails: two distinct keys the order does not relate are
      each greater than the other. */
  lemma UnrelatedKeysBothGreater<K(!new)>(less: (K, K) -> bool, a: KeyOnly<K>, b: KeyOnly<K>)
    requires a.key != b.key && !less(a.key, b.key) && !less(b.key, a.key)
    ensures KeyGt(less, a, b) && KeyGt(less, b, a) && !KeyLt(less, b, a)
  {
  }
}
