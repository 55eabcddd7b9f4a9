# Associative user-defined types: derived equality, folds, search and conversion

This project models the "associative UDT" experiment of Boost.Hana
(`test/sandbox/assoc_udt_typeclass.cpp`). A record type opts in by declaring
one thing: its *member map*, an ordered association from symbolic keys to
accessor functions. From that map alone the library derives:

- structural equality (`Comparable`: `equal`, and `not_equal` as its negation);
- left and right folds over the field values (`Foldable`: `foldl`, `foldr`);
- key search (`Searchable`: `find`, `any`, and `lookup` as `find` with a
  key-equality predicate);
- conversion of an instance into a key/value `Map` (`convert<Map, T>`).

The worked example is `Person { gender, age }` with the member map
`gender`, then `age`, and the assertions about `louis` and `rose` in `main`.

Layout:

- `maybe.dfy` (module `Maybe`): `Option`, `Fmap`, `FromJust`.
- `sequences.dfy` (module `Sequences`): `all`, `any`, `foldl`, `foldr`, `cons`
  and `snoc` with their usual meaning on finite lists, and fold lemmas.
- `assoc_udt.dfy` (module `AssociativeUdt`): the member map
  `MemberMap<K, T, V> = seq<(K, T -> V)>` and every derived operation, each
  built from the member map the way the C++ builds it, with contracts that
  state what it computes in terms of the member map.
- `person.dfy` (module `PersonExample`): `Person`, its member map, and the
  `main` assertions as lemmas.

Notes on reading the code:

- `find` and `any` on the member map apply the predicate to the *keys*, and
  `find` returns the *accessor* of the first matching key. This is what the
  library's `find`/`any` do on a map. `find_impl` then applies that accessor to
  the instance with `fmap`.
- `convert<Map>` right-folds over the keys. For each key it conses the pair of
  the key and `from_just(lookup(key, x))`. It then turns the list into a map.
  `ConvertKeys` is that fold, `ToPairs` is its result over all the keys, and
  `PairsToMap` is `to<Map>`. `from_just` can only be applied to a present
  value. Every key passed to it is a declared key, so `lookup` always finds
  it, and the model proves this.
- Duplicate keys are not assumed away. The operations are defined for every
  member map. Properties that need distinct keys (`LookupDeclared`,
  `ToPairsInOrder`, `ToMapFields`, `ToMapIsFieldMap`) require
  `DistinctKeys(m)`.

## Model

| member | source | states |
|---|---|---|
| AssociativeUdt.Equal | test/sandbox/assoc_udt_typeclass.cpp:31-36 | `equal(x, y)` holds iff every accessor of the member map gives equal values on `x` and `y` |
| AssociativeUdt.NotEqual | test/sandbox/assoc_udt_typeclass.cpp:126 | `not_equal(x, y)` holds iff some accessor gives different values on `x` and `y` |
| AssociativeUdt.EqualIsEquivalence | test/sandbox/assoc_udt_typeclass.cpp:27-37 | the derived equality is reflexive, symmetric and transitive, as a `Comparable` instance must be |
| AssociativeUdt.Foldl | test/sandbox/assoc_udt_typeclass.cpp:43-49 | folding over the accessors, applying each to `x`, equals left-folding `f` from `s` over the field values of `x` in member-map order |
| AssociativeUdt.Foldr | test/sandbox/assoc_udt_typeclass.cpp:51-57 | folding over the accessors, applying each to `x`, equals right-folding `f` from `s` over the field values of `x` in member-map order |
| AssociativeUdt.FoldrConsIsFieldValues | test/sandbox/assoc_udt_typeclass.cpp:51-57 | `foldr(cons, list(), x)` is the list of field values of `x` in declaration order |
| AssociativeUdt.FoldlSnocIsFieldValues | test/sandbox/assoc_udt_typeclass.cpp:43-49 | left-folding an append from the empty list also gives the field values in declaration order |
| AssociativeUdt.FindAccessor | test/sandbox/assoc_udt_typeclass.cpp:66 | `find(pred, member_map)` is absent iff no key satisfies `pred`, otherwise it is the accessor of the first key that does |
| AssociativeUdt.Find | test/sandbox/assoc_udt_typeclass.cpp:64-68 | `find_impl` is `nothing` iff no key satisfies `pred`, otherwise `just` the first matching accessor applied to `x` |
| AssociativeUdt.Any | test/sandbox/assoc_udt_typeclass.cpp:70-73 | `any_impl` holds iff some key of the member map satisfies `pred` |
| AssociativeUdt.AnyIffFind | test/sandbox/assoc_udt_typeclass.cpp:64-73 | `any(pred, x)` holds exactly when `find(pred, x)` is present |
| AssociativeUdt.AnyIgnoresInstance | test/sandbox/assoc_udt_typeclass.cpp:70-73 | `any(pred, x)` does not depend on the instance `x` |
| AssociativeUdt.Lookup | test/sandbox/assoc_udt_typeclass.cpp:82 | `lookup(k, x)` is `nothing` iff `k` is not a declared key, otherwise `just` the first accessor with key `k` applied to `x` |
| AssociativeUdt.LookupDeclared | test/sandbox/assoc_udt_typeclass.cpp:129-130 | with distinct keys, looking up a declared key gives that field's value on `x` |
| AssociativeUdt.ConvertKeys | test/sandbox/assoc_udt_typeclass.cpp:81-83 | the fold over the keys gives one pair per key, in the same order, each key with the value `lookup` finds for it |
| AssociativeUdt.ToPairs | test/sandbox/assoc_udt_typeclass.cpp:80-84 | the pair list has one entry per member-map entry, with that entry's key and the value `lookup` gives for the key |
| AssociativeUdt.ToPairsInOrder | test/sandbox/assoc_udt_typeclass.cpp:80-84 | with distinct keys, pair `i` is key `i` with accessor `i` applied to `x`, in declaration order |
| AssociativeUdt.PairsToMap | test/sandbox/assoc_udt_typeclass.cpp:80 | `to<Map>` of a pair list has exactly the listed keys, and each key is bound to the value of one of its pairs |
| AssociativeUdt.ToMap | test/sandbox/assoc_udt_typeclass.cpp:79-85 | `to<Map>(x)` has exactly the declared keys, and each key is bound to what `lookup` gives for it on `x` |
| AssociativeUdt.LookupAfterToMap | test/sandbox/assoc_udt_typeclass.cpp:79-85 | for every key, looking it up in `to<Map>(x)` agrees with `lookup(k, x)`, both when the key is declared and when it is not |
| AssociativeUdt.ToMapFields | test/sandbox/assoc_udt_typeclass.cpp:79-85 | with distinct keys, `to<Map>(x)` binds each declared key to its accessor applied to `x` |
| AssociativeUdt.ToMapIsFieldMap | test/sandbox/assoc_udt_typeclass.cpp:79-85 | with distinct keys, `to<Map>(x)` equals any map that has the declared keys and binds each to its field value |
| Maybe.Fmap | test/sandbox/assoc_udt_typeclass.cpp:67 | `fmap` keeps `nothing` and applies the function under `just` |
| Maybe.FromJust | test/sandbox/assoc_udt_typeclass.cpp:82 | `from_just` is only applied to `just v` and gives back `v` |
| Sequences.All | test/sandbox/assoc_udt_typeclass.cpp:33-35 | `all(p, xs)` holds iff every element satisfies `p` |
| Sequences.Any | test/sandbox/assoc_udt_typeclass.cpp:72 | `any(p, xs)` holds iff some element satisfies `p` |
| Sequences.FoldLeftMapped | test/sandbox/assoc_udt_typeclass.cpp:45-48 | a left fold whose step first maps each element equals the left fold over the mapped list |
| Sequences.FoldRightMapped | test/sandbox/assoc_udt_typeclass.cpp:53-56 | a right fold whose step first maps each element equals the right fold over the mapped list |
| Sequences.FoldRightCons | test/sandbox/assoc_udt_typeclass.cpp:127 | right-folding `cons` from the empty list rebuilds the list unchanged |
| PersonExample.PersonMap | test/sandbox/assoc_udt_typeclass.cpp:114-120 | the member map of `Person` has two distinct keys, and its field values are the gender, then the age |
| PersonExample.PersonEqualIff | test/sandbox/assoc_udt_typeclass.cpp:104-107 | the derived equality on persons holds iff the two persons are equal in both members |
| PersonExample.LouisIsNotRose | test/sandbox/assoc_udt_typeclass.cpp:125-126 | `not_equal(louis, rose)` |
| PersonExample.FoldrConsLouis | test/sandbox/assoc_udt_typeclass.cpp:127 | `foldr(cons, list(), louis) == list(male, 22)` |
| PersonExample.LookupLouis | test/sandbox/assoc_udt_typeclass.cpp:129-130 | `lookup(gender, louis) == just(male)` and `lookup(age, louis) == just(22)` |
| PersonExample.ToMapPerson | test/sandbox/assoc_udt_typeclass.cpp:132-135 | any person converts to the map `{gender: its gender, age: its age}` |
| PersonExample.ToMapLouis | test/sandbox/assoc_udt_typeclass.cpp:132-135 | `to<Map>(louis) == map(pair(gender, male), pair(age, 22))` |

## Left out

- Typeclass dispatch (`BOOST_HANA_TYPECLASS`, `instantiates`, `when`, `enable_if_t`, the `mcd` bases): this is compile-time template selection with no runtime behaviour. The derived operations are plain functions that take the member map as an argument.
- `constexpr`, `BOOST_HANA_CONSTEXPR_LAMBDA` and `BOOST_HANA_STATIC_ASSERT`: these are compile-time evaluation details. The assertions in `main` are ordinary lemmas.
- Pointer-to-member keys (`constant<decltype(&Person::gender), &Person::gender>`): keys are the enumeration `Key`.
- Heterogeneous field types: the fields of `Person` share one sum type, `Value`.
- The library's own implementations of `all`, `foldl`, `foldr`, `find`, `any`, `fmap`, `values`, `keys`, `cons`, `to<Map>`, `from_just`, `lookup`, `not_equal` and map equality are not part of this model. Each is given its usual meaning on finite lists, options and maps. `lookup` is `find` with the predicate `equal(k)`. `not_equal` is the negation of `equal`.
- AssociativeUdt.ToMap: the result is an unordered Dafny `map`. The library's map keeps insertion order, so that order is stated on the pair list instead (`ToPairsInOrder`).
- Rejection of ill-formed member maps (duplicate keys, wrong accessor types) happens at compile time in C++ and has no runtime counterpart. Duplicate keys are instead captured by the `DistinctKeys` predicate. The lemmas that need distinct keys require it.
- `Person.age` is a C++ `int`. No operation here does arithmetic on it, so it is an unbounded `int`.
- Evaluation order and short-circuiting inside `all`, `find` and `any` are not modelled. All functions are pure, so the order cannot be observed.
