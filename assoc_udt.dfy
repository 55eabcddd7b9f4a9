/** Derivation of equality, folds, search and conversion to a map for an
    "associative user-defined type": a type whose author supplies only an
    ordered member map from keys to accessor functions.

    The member map of a type `T` with keys `K` and field values `V` is a
    sequence of `(key, accessor)` pairs in declaration order. Every derived
    operation below is computed from that sequence alone. */
module AssociativeUdt {
  import opened Maybe
  import Seq = Sequences

  type MemberMap<K, !T, V> = seq<(K, T -> V)>

  /** `keys(member_map)`, in declaration order. */
  function Keys<K, T, V>(m: MemberMap<K, T, V>): seq<K>
  {
    seq(|m|, i requires 0 <= i < |m| => m[i].0)
  }

  /** `values(member_map)`: the accessors, in declaration order. */
  function Values<K, T, V>(m: MemberMap<K, T, V>): seq<T -> V>
  {
    seq(|m|, i requires 0 <= i < |m| => m[i].1)
  }

  /** The field values of `x`: every accessor applied to `x`, in declaration
      order. This is the reference the derived folds are stated against. */
  function FieldValues<K, T, V>(m: MemberMap<K, T, V>, x: T): seq<V>
  {
    seq(|m|, i requires 0 <= i < |m| => m[i].1(x))
  }

  /** A well-formed member map declares every key once. */
  ghost predicate DistinctKeys<K, T, V>(m: MemberMap<K, T, V>)
  {
    forall i, j :: 0 <= i < j < |m| ==> m[i].0 != m[j].0
  }

  /** Entry `i` is the first one whose key is `k`. */
  ghost predicate IsFirstKey<K, T, V>(m: MemberMap<K, T, V>, k: K, i: int)
  {
    0 <= i < |m| && m[i].0 == k && forall j :: 0 <= j < i ==> m[j].0 != k
  }

  /** `equal(k)`, the curried key-equality predicate that `lookup` searches with. */
  function EqualTo<K(==)>(k: K): K -> bool
  {
    key => key == k
  }

  /** Entry `i` is the first one whose key satisfies `pred`. */
  ghost predicate IsFirstMatch<K, T, V>(m: MemberMap<K, T, V>, pred: K -> bool, i: int)
  {
    0 <= i < |m| && pred(m[i].0) && forall j :: 0 <= j < i ==> !pred(m[j].0)
  }

  // ---------------------------------------------------------------------
  // Comparable

  /** `equal_impl`: `all` over the accessors of "the accessor gives equal
      results on `x` and on `y`". */
  function Equal<K, T, V(==)>(m: MemberMap<K, T, V>, x: T, y: T): (r: bool)
    ensures r <==> forall i :: 0 <= i < |m| ==> m[i].1(x) == m[i].1(y)
  {
    var agree := (acc: T -> V) => acc(x) == acc(y);
    var accessors := Values(m);
    assert forall i :: 0 <= i < |m| ==> (agree(accessors[i]) <==> m[i].1(x) == m[i].1(y));
    Seq.All(agree, accessors)
  }

  /** `not_equal`, the negation of the derived `equal`. */
  function NotEqual<K, T, V(==)>(m: MemberMap<K, T, V>, x: T, y: T): (r: bool)
    ensures r <==> exists i :: 0 <= i < |m| && m[i].1(x) != m[i].1(y)
  {
    !Equal(m, x, y)
  }

  /** The derived equality is an equivalence relation, as `Comparable` expects. */
  lemma EqualIsEquivalence<K, T, V>(m: MemberMap<K, T, V>, x: T, y: T, z: T)
    ensures Equal(m, x, x)
    ensures Equal(m, x, y) ==> Equal(m, y, x)
    ensures Equal(m, x, y) && Equal(m, y, z) ==> Equal(m, x, z)
  {
  }

  // ---------------------------------------------------------------------
  // Foldable

  /** `foldl_impl`: left fold over the accessors, applying each to `x` before
      combining; the same as left-folding `f` over the field values. */
  function Foldl<K, T, V, S>(m: MemberMap<K, T, V>, f: (S, V) -> S, s: S, x: T): (r: S)
    ensures r == Seq.FoldLeft(f, s, FieldValues(m, x))
  {
    var g := (acc: S, accessor: T -> V) => f(acc, accessor(x));
    Seq.FoldLeftMapped(f, (accessor: T -> V) => accessor(x), g, s, Values(m), FieldValues(m, x));
    Seq.FoldLeft(g, s, Values(m))
  }

  /** `foldr_impl`: right fold over the accessors, applying each to `x` before
      combining; the same as right-folding `f` over the field values. */
  function Foldr<K, T, V, S>(m: MemberMap<K, T, V>, f: (V, S) -> S, s: S, x: T): (r: S)
    ensures r == Seq.FoldRight(f, s, FieldValues(m, x))
  {
    var g := (accessor: T -> V, acc: S) => f(accessor(x), acc);
    Seq.FoldRightMapped(f, (accessor: T -> V) => accessor(x), g, s, Values(m), FieldValues(m, x));
    Seq.FoldRight(g, s, Values(m))
  }

  /** `foldr(cons, list(), x)` lists the field values in declaration order. */
  lemma FoldrConsIsFieldValues<K, T, V>(m: MemberMap<K, T, V>, x: T)
    ensures Foldr(m, Seq.Cons, [], x) == FieldValues(m, x)
  {
    Seq.FoldRightCons(FieldValues(m, x));
  }

  /** Left-folding `snoc` from the empty list also lists the field values in
      declaration order. */
  lemma FoldlSnocIsFieldValues<K, T, V>(m: MemberMap<K, T, V>, x: T)
    ensures Foldl(m, Seq.Snoc, [], x) == FieldValues(m, x)
  {
    Seq.FoldLeftSnoc([], FieldValues(m, x));
  }

  // ---------------------------------------------------------------------
  // Searchable

  /** `find` on the member map itself: the accessor of the first entry whose
      key satisfies `pred`. */
  function FindAccessor<K, T, V>(m: MemberMap<K, T, V>, pred: K -> bool): (r: Option<T -> V>)
    ensures r.None? <==> forall i :: 0 <= i < |m| ==> !pred(m[i].0)
    ensures forall i :: IsFirstMatch(m, pred, i) ==> r == Some(m[i].1)
  {
    if m == [] then None
    else if pred(m[0].0) then Some(m[0].1)
    else
      var r := FindAccessor(m[1..], pred);
      assert forall i :: IsFirstMatch(m, pred, i) ==> i > 0 && IsFirstMatch(m[1..], pred, i - 1);
      r
  }

  /** `find_impl`: `just` the value of the first field whose key satisfies
      `pred`, `nothing` when no key does. */
  function Find<K, T, V>(m: MemberMap<K, T, V>, pred: K -> bool, x: T): (r: Option<V>)
    ensures r.None? <==> forall i :: 0 <= i < |m| ==> !pred(m[i].0)
    ensures forall i :: IsFirstMatch(m, pred, i) ==> r == Some(m[i].1(x))
  {
    Fmap((accessor: T -> V) => accessor(x), FindAccessor(m, pred))
  }

  /** `any_impl`: some key of the member map satisfies `pred`. */
  function Any<K, T, V>(m: MemberMap<K, T, V>, pred: K -> bool, x: T): (r: bool)
    ensures r <==> exists i :: 0 <= i < |m| && pred(m[i].0)
  {
    var keys := Keys(m);
    assert forall i :: 0 <= i < |m| ==> keys[i] == m[i].0;
    Seq.Any(pred, keys)
  }

  /** `any` reports exactly whether `find` finds something. */
  lemma AnyIffFind<K, T, V>(m: MemberMap<K, T, V>, pred: K -> bool, x: T)
    ensures Any(m, pred, x) <==> Find(m, pred, x).Some?
  {
  }

  /** `any` looks at the keys only, never at the instance. */
  lemma AnyIgnoresInstance<K, T, V>(m: MemberMap<K, T, V>, pred: K -> bool, x: T, y: T)
    ensures Any(m, pred, x) == Any(m, pred, y)
  {
  }

  /** `lookup(k, x)`: `find` with the predicate "equal to `k`". */
  function Lookup<K(==), T, V>(m: MemberMap<K, T, V>, k: K, x: T): (r: Option<V>)
    ensures r.None? <==> k !in Keys(m)
    ensures forall i :: IsFirstKey(m, k, i) ==> r == Some(m[i].1(x))
  {
    var keys := Keys(m);
    assert forall i :: 0 <= i < |m| ==> keys[i] == m[i].0;
    assert forall i :: IsFirstKey(m, k, i) ==> IsFirstMatch(m, EqualTo(k), i);
    Find(m, EqualTo(k), x)
  }

  /** In a well-formed member map, looking up a declared key yields that
      field's value. */
  lemma LookupDeclared<K, T, V>(m: MemberMap<K, T, V>, i: int, x: T)
    requires DistinctKeys(m)
    requires 0 <= i < |m|
    ensures Lookup(m, m[i].0, x) == Some(m[i].1(x))
  {
    assert IsFirstKey(m, m[i].0, i);
  }

  // ---------------------------------------------------------------------
  // Conversion to Map

  /** The right fold over `ks` in `convert<Map>`: for each key, `cons` the pair
      of the key and `from_just(lookup(key, x))` onto the rest. Every key must
      be declared, so that `from_just` is applied to a present value. */
  function ConvertKeys<K(==), T, V>(m: MemberMap<K, T, V>, ks: seq<K>, x: T): (r: seq<(K, V)>)
    requires forall k :: k in ks ==> k in Keys(m)
    ensures |r| == |ks|
    ensures forall i :: 0 <= i < |ks| ==> r[i].0 == ks[i] && Lookup(m, ks[i], x) == Some(r[i].1)
  {
    if ks == [] then []
    else Seq.Cons((ks[0], FromJust(Lookup(m, ks[0], x))), ConvertKeys(m, ks[1..], x))
  }

  /** The ordered list of `(key, value)` pairs that `convert<Map>` builds
      before handing it to `to<Map>`. */
  function ToPairs<K(==), T, V>(m: MemberMap<K, T, V>, x: T): (r: seq<(K, V)>)
    ensures |r| == |m|
    ensures forall i :: 0 <= i < |m| ==> r[i].0 == m[i].0 && Lookup(m, m[i].0, x) == Some(r[i].1)
  {
    ConvertKeys(m, Keys(m), x)
  }

  /** In a well-formed member map, the pairs are the keys with their field
      values, in declaration order. */
  lemma ToPairsInOrder<K, T, V>(m: MemberMap<K, T, V>, x: T)
    requires DistinctKeys(m)
    ensures |ToPairs(m, x)| == |m|
    ensures forall i :: 0 <= i < |m| ==> ToPairs(m, x)[i] == (m[i].0, m[i].1(x))
  {
    forall i | 0 <= i < |m|
      ensures ToPairs(m, x)[i] == (m[i].0, m[i].1(x))
    {
      LookupDeclared(m, i, x);
    }
  }

  /** `to<Map>` on a list of pairs: a key maps to the value of its first pair. */
  function PairsToMap<K, V>(ps: seq<(K, V)>): (r: map<K, V>)
    ensures r.Keys == set i | 0 <= i < |ps| :: ps[i].0
    ensures forall k :: k in r ==> exists i :: 0 <= i < |ps| && ps[i] == (k, r[k])
  {
    if ps == [] then map[]
    else
      var rest := PairsToMap(ps[1..]);
      assert forall i :: 0 < i < |ps| ==> ps[i] == ps[1..][i - 1];
      rest[ps[0].0 := ps[0].1]
  }

  /** `convert<Map, T>::apply`: a map with exactly the declared keys, each
      bound to what `lookup` gives for it on `x`. */
  function ToMap<K(==), T, V>(m: MemberMap<K, T, V>, x: T): (r: map<K, V>)
    ensures r.Keys == set i | 0 <= i < |m| :: m[i].0
    ensures forall k :: k in r ==> Lookup(m, k, x) == Some(r[k])
  {
    var ps := ToPairs(m, x);
    assert (set i | 0 <= i < |ps| :: ps[i].0) == (set i | 0 <= i < |m| :: m[i].0);
    PairsToMap(ps)
  }

  /** Converting to a map and then looking a key up agrees with `lookup` on
      the instance, for every key, declared or not. */
  lemma LookupAfterToMap<K, T, V>(m: MemberMap<K, T, V>, k: K, x: T)
    ensures Lookup(m, k, x) == if k in ToMap(m, x) then Some(ToMap(m, x)[k]) else None
  {
  }

  /** In a well-formed member map, the converted map binds each declared key
      to its accessor applied to `x`. */
  lemma ToMapFields<K, T, V>(m: MemberMap<K, T, V>, x: T)
    requires DistinctKeys(m)
    ensures forall i :: 0 <= i < |m| ==> m[i].0 in ToMap(m, x) && ToMap(m, x)[m[i].0] == m[i].1(x)
  {
    forall i | 0 <= i < |m|
      ensures m[i].0 in ToMap(m, x) && ToMap(m, x)[m[i].0] == m[i].1(x)
    {
      assert m[i].0 in ToMap(m, x).Keys;
      LookupDeclared(m, i, x);
    }
  }

  /** In a well-formed member map, the converted map is the one map whose keys
      are the declared keys and which binds each to its field value on `x`. */
  lemma ToMapIsFieldMap<K, T, V>(m: MemberMap<K, T, V>, x: T, e: map<K, V>)
    requires DistinctKeys(m)
    requires e.Keys == set i | 0 <= i < |m| :: m[i].0
    requires forall i :: 0 <= i < |m| ==> e[m[i].0] == m[i].1(x)
    ensures ToMap(m, x) == e
  {
    var r := ToMap(m, x);
    assert r.Keys == e.Keys;
    assert forall k :: k in r ==> r[k] == e[k] by {
      forall k | k in r
        ensures r[k] == e[k]
      {
        var i :| 0 <= i < |m| && m[i].0 == k;
        LookupDeclared(m, i, x);
      }
    }
    MapsAgree(r, e);
  }

  /** Two maps with the same keys and the same value at every key are equal. */
  lemma MapsAgree<K, V>(r: map<K, V>, e: map<K, V>)
    requires r.Keys == e.Keys
    requires forall k :: k in r ==> r[k] == e[k]
    ensures r == e
  {
  }
}
