/** One-argument functions (the Function1 base class).
    A Java Function1 may throw, so it is modelled as a partial arrow `T --> R`:
    its `requires` is the set of arguments on which `apply` returns normally. */
module Function1 {

  /** The identity function, the neutral element of composition. */
  function Id<T(!new)>(): (f: T --> T)
    ensures forall x :: f.requires(x) && f(x) == x
  {
    x => x
  }

  /** `f.compose(g)` applies `f` first and then `g`; it is defined at least
      where `f` is defined and `g` is defined on `f`'s result. */
  function Compose<T(!new), R, E>(f: T --> R, g: R --> E): (h: T --> E)
    ensures forall x :: f.requires(x) && g.requires(f(x)) ==> h.requires(x) && h(x) == g(f(x))
  {
    x requires f.requires(x) && g.requires(f(x)) => g(f(x))
  }

  /** `g` extends `f`: defined wherever `f` is, with the same values there. */
  ghost predicate Extends<T(!new), R>(g: T --> R, f: T --> R) {
    forall x :: f.requires(x) ==> g.requires(x) && g(x) == f(x)
  }

  /** Composing with the identity on the right leaves `f` unchanged. */
  lemma ComposeIdRight<T(!new), R(!new)>(f: T --> R)
    ensures Extends(Compose(f, Id()), f)
  {
  }

  /** Composing the identity with `f` gives `f`. */
  lemma ComposeIdLeft<T(!new), R>(f: T --> R)
    ensures Extends(Compose(Id(), f), f)
  {
  }

  /** Composition is associative: wherever the chain f, g, h runs without
      throwing, both groupings are defined and give `h(g(f(x)))`. */
  lemma ComposeAssociative<T(!new), R(!new), E, F>(f: T --> R, g: R --> E, h: E --> F, x: T)
    requires f.requires(x) && g.requires(f(x)) && h.requires(g(f(x)))
    ensures Compose(Compose(f, g), h).requires(x) && Compose(f, Compose(g, h)).requires(x)
    ensures Compose(Compose(f, g), h)(x) == Compose(f, Compose(g, h))(x) == h(g(f(x)))
  {
  }
}

/** Two-argument functions (the Function2 base class). */
module Function2 {
  import Function1

  /** `f.compose(g)` gives `(x, y) => g(f(x, y))`. */
  function Compose<T1(!new), T2(!new), R, E>(f: (T1, T2) --> R, g: R --> E): (h: (T1, T2) --> E)
    ensures forall x, y :: f.requires(x, y) && g.requires(f(x, y)) ==> h.requires(x, y) && h(x, y) == g(f(x, y))
  {
    (x, y) requires f.requires(x, y) && g.requires(f(x, y)) => g(f(x, y))
  }

  /** `f.bind1(x)` fixes the first argument. */
  function Bind1<T1, T2(!new), R>(f: (T1, T2) --> R, x: T1): (h: T2 --> R)
    ensures forall y :: f.requires(x, y) ==> h.requires(y) && h(y) == f(x, y)
  {
    y requires f.requires(x, y) => f(x, y)
  }

  /** `f.bind2(y)` fixes the second argument. */
  function Bind2<T1(!new), T2, R>(f: (T1, T2) --> R, y: T2): (h: T1 --> R)
    ensures forall x :: f.requires(x, y) ==> h.requires(x) && h(x) == f(x, y)
  {
    x requires f.requires(x, y) => f(x, y)
  }

  /** `f.curry()` takes the first argument and returns `f.bind1` of it; applying
      the curried function never throws, applying its result is applying `f`. */
  function Curry<T1(!new), T2(!new), R>(f: (T1, T2) --> R): (c: T1 --> (T2 --> R))
    ensures forall x :: c.requires(x) && c(x) == Bind1(f, x)
    ensures forall x, y :: f.requires(x, y) ==> c(x).requires(y) && c(x)(y) == f(x, y)
  {
    x => Bind1(f, x)
  }

  /** Binding both arguments in either order gives back `f(x, y)`. */
  lemma BindsCommute<T1(!new), T2(!new), R>(f: (T1, T2) --> R, x: T1, y: T2)
    requires f.requires(x, y)
    ensures Bind1(f, x).requires(y) && Bind2(f, y).requires(x)
    ensures Bind1(f, x)(y) == Bind2(f, y)(x) == Curry(f)(x)(y) == f(x, y)
  {
  }

  /** Composing after a binding is binding after composing. */
  lemma ComposeThenBind1<T1(!new), T2(!new), R, E>(f: (T1, T2) --> R, g: R --> E, x: T1, y: T2)
    requires f.requires(x, y) && g.requires(f(x, y))
    ensures Bind1(Compose(f, g), x).requires(y) && Function1.Compose(Bind1(f, x), g).requires(y)
    ensures Bind1(Compose(f, g), x)(y) == Function1.Compose(Bind1(f, x), g)(y) == g(f(x, y))
  {
  }
}

/** Boolean-valued functions (the Predicate class, a Function1 to Boolean). */
module Predicate {

  /** ALWAYS_TRUE: true for every input. */
  function AlwaysTrue<T(!new)>(): (p: T --> bool)
    ensures forall x :: p.requires(x) && p(x)
  {
    x => true
  }

  /** ALWAYS_FALSE: false for every input. */
  function AlwaysFalse<T(!new)>(): (p: T --> bool)
    ensures forall x :: p.requires(x) && !p(x)
  {
    x => false
  }

  /** `p.or(g)`: short-circuit disjunction. `g` is evaluated only when `p(x)` is
      false, so `g` need be defined only there. */
  function Or<T(!new)>(p: T --> bool, g: T --> bool): (h: T --> bool)
    ensures forall x :: p.requires(x) && (!p(x) ==> g.requires(x)) ==>
                          h.requires(x) && (h(x) <==> p(x) || g(x))
  {
    x requires p.requires(x) && (!p(x) ==> g.requires(x)) => if p(x) then true else g(x)
  }

  /** `p.and(g)`: short-circuit conjunction. `g` is evaluated only when `p(x)` is
      true, so `g` need be defined only there. */
  function And<T(!new)>(p: T --> bool, g: T --> bool): (h: T --> bool)
    ensures forall x :: p.requires(x) && (p(x) ==> g.requires(x)) ==>
                          h.requires(x) && (h(x) <==> p(x) && g(x))
  {
    x requires p.requires(x) && (p(x) ==> g.requires(x)) => if !p(x) then false else g(x)
  }

  /** `p.not()`: negation, defined where `p` is. */
  function Not<T(!new)>(p: T --> bool): (h: T --> bool)
    ensures forall x :: p.requires(x) ==> h.requires(x) && (h(x) <==> !p(x))
  {
    x requires p.requires(x) => !p(x)
  }

  /** Laziness of `or`: ALWAYS_TRUE.or(g) is true everywhere, even for a `g` that
      is defined nowhere (one that always throws). */
  lemma OrShortCircuits<T(!new)>(g: T --> bool, x: T)
    ensures Or(AlwaysTrue(), g).requires(x) && Or(AlwaysTrue(), g)(x)
  {
  }

  /** Laziness of `and`: ALWAYS_FALSE.and(g) is false everywhere, whatever `g` is. */
  lemma AndShortCircuits<T(!new)>(g: T --> bool, x: T)
    ensures And(AlwaysFalse(), g).requires(x) && !And(AlwaysFalse(), g)(x)
  {
  }

  /** Double negation: `p.not().not()` agrees with `p`. */
  lemma NotNot<T(!new)>(p: T --> bool, x: T)
    requires p.requires(x)
    ensures Not(Not(p)).requires(x) && (Not(Not(p))(x) <==> p(x))
  {
  }

  /** De Morgan over the lazy connectives: `p.or(g).not()` agrees with
      `p.not().and(g.not())`; both are defined at least where `p` is, and `g`
      too when `p` fails. */
  lemma DeMorgan<T(!new)>(p: T --> bool, g: T --> bool, x: T)
    requires p.requires(x) && (!p(x) ==> g.requires(x))
    ensures Not(Or(p, g)).requires(x) && And(Not(p), Not(g)).requires(x)
    ensures Not(Or(p, g))(x) <==> And(Not(p), Not(g))(x)
  {
  }
}
