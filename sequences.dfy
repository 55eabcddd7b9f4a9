/** The list operations the derivation is built from (`all`, `any`, `foldl`,
    `foldr`, `cons`), given their standard meaning on finite sequences. */
module Sequences {

  /** `all(p, xs)`: every element satisfies `p`. */
  function All<A>(p: A -> bool, xs: seq<A>): (r: bool)
    ensures r <==> forall i :: 0 <= i < |xs| ==> p(xs[i])
  {
    if xs == [] then true else p(xs[0]) && All(p, xs[1..])
  }

  /** `any(p, xs)`: some element satisfies `p`. */
  function Any<A>(p: A -> bool, xs: seq<A>): (r: bool)
    ensures r <==> exists i :: 0 <= i < |xs| && p(xs[i])
  {
    if xs == [] then false else p(xs[0]) || Any(p, xs[1..])
  }

  /** `foldl(f, s, xs)`: combines from the left, `f(...f(f(s, x0), x1)..., xn)`. */
  function FoldLeft<A, S>(f: (S, A) -> S, s: S, xs: seq<A>): S
  {
    if xs == [] then s else FoldLeft(f, f(s, xs[0]), xs[1..])
  }

  /** `foldr(f, s, xs)`: combines from the right, `f(x0, f(x1, ...f(xn, s)))`. */
  function FoldRight<A, S>(f: (A, S) -> S, s: S, xs: seq<A>): S
  {
    if xs == [] then s else f(xs[0], FoldRight(f, s, xs[1..]))
  }

  /** `cons(x, xs)`: prepends one element. */
  function Cons<A>(x: A, xs: seq<A>): (r: seq<A>)
    ensures |r| == |xs| + 1 && r[0] == x && r[1..] == xs
  {
    [x] + xs
  }

  /** Appends one element; the left-fold counterpart of `Cons`. */
  function Snoc<A>(xs: seq<A>, x: A): (r: seq<A>)
    ensures |r| == |xs| + 1 && r[|xs|] == x && r[..|xs|] == xs
  {
    xs + [x]
  }

  /** Folding from the left over `xs` with a step that first maps each element
      through `h` is folding `f` over the mapped sequence `ys`. */
  lemma {:induction false} FoldLeftMapped<A, B, S>(f: (S, B) -> S, h: A -> B, g: (S, A) -> S, s: S, xs: seq<A>, ys: seq<B>)
    requires forall acc, a :: g(acc, a) == f(acc, h(a))
    requires |ys| == |xs| && forall i :: 0 <= i < |xs| ==> ys[i] == h(xs[i])
    ensures FoldLeft(g, s, xs) == FoldLeft(f, s, ys)
  {
    if xs != [] {
      FoldLeftMapped(f, h, g, f(s, h(xs[0])), xs[1..], ys[1..]);
    }
  }

  /** The right-fold counterpart of `FoldLeftMapped`. */
  lemma {:induction false} FoldRightMapped<A, B, S>(f: (B, S) -> S, h: A -> B, g: (A, S) -> S, s: S, xs: seq<A>, ys: seq<B>)
    requires forall a, acc :: g(a, acc) == f(h(a), acc)
    requires |ys| == |xs| && forall i :: 0 <= i < |xs| ==> ys[i] == h(xs[i])
    ensures FoldRight(g, s, xs) == FoldRight(f, s, ys)
  {
    if xs != [] {
      FoldRightMapped(f, h, g, s, xs[1..], ys[1..]);
    }
  }

  /** Right-folding `cons` from the empty list rebuilds the list in order. */
  lemma {:induction false} FoldRightCons<A>(xs: seq<A>)
    ensures FoldRight(Cons, [], xs) == xs
  {
    if xs != [] {
      FoldRightCons(xs[1..]);
    }
  }

  /** Left-folding `snoc` from `s` appends the list, in order, to `s`. */
  lemma {:induction false} FoldLeftSnoc<A>(s: seq<A>, xs: seq<A>)
    ensures FoldLeft(Snoc, s, xs) == s + xs
    decreases xs
  {
    if xs != [] {
      FoldLeftSnoc(s + [xs[0]], xs[1..]);
      assert s + [xs[0]] + xs[1..] == s + xs;
    }
  }
}
