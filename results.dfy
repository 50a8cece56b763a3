/** The two small wrapper families of the lexicon tool: Either (Right holds
    a found value, Left a fallback) and Option (Just holds a value, Nothing
    marks its absence). Each Python class of the family is a constructor. */
module Results {

  /** Either with its two classes Right and Left; both keep one payload. */
  datatype Either<T(==)> = Right(value: T) | Left(value: T)
  {
    /** bind: Right applies f to its payload; Left ignores f and hands back
        its payload as it is, not wrapped in Left again. */
    function Bind(f: T -> T): (r: T)
      ensures Left? ==> r == value
      ensures Right? ==> r == f(value)
    {
      match this
      case Right(v) => f(v)
      case Left(v) => v
    }

    /** __eq__: only the payloads are compared, whatever the tags; the
        payloads are compared by mathematical equality. */
    predicate Eq(x: Either<T>) {
      value == x.value
    }
  }

  /** Option with its two classes Just and Nothing. A Nothing keeps the
      value it was built with (None unless one is given), of a type N of
      its own. */
  datatype Option<T(==), N> = Just(value: T) | Nothing(carried: N)
  {
    /** is_nothing */
    predicate IsNothing() {
      Nothing?
    }

    /** bind: Just applies f to its payload; a Nothing is rebuilt with the
        value it carries, and f is never called. */
    function Bind<U(==)>(f: T -> Option<U, N>): (r: Option<U, N>)
      ensures Nothing? ==> r == Nothing(carried)
      ensures Just? ==> r == f(value)
    {
      match this
      case Just(v) => f(v)
      case Nothing(n) => Nothing(n)
    }

    /** __eq__: a Just equals another Just with an equal payload (by
        mathematical equality) and never a Nothing; a Nothing equals nothing
        at all. */
    predicate Eq(x: Option<T, N>) {
      match this
      case Nothing(_) => false
      case Just(v) => if x.Nothing? then false else v == x.value
    }
  }

  /** Option's bind obeys the three monad laws, and a Nothing passes through
      any chain of binds unchanged. */
  lemma OptionBindMonadLaws<T, U, W, N>(m: Option<T, N>, v: T, n: N, f: T -> Option<U, N>, g: U -> Option<W, N>)
    ensures Just(v).Bind(f) == f(v)
    ensures m.Bind(x => Just(x)) == m
    ensures m.Bind(f).Bind(g) == m.Bind(x => f(x).Bind(g))
    ensures Nothing(n).Bind(f).Bind(g) == Nothing(n)
  {
    match m
    case Nothing(_) =>
    case Just(w) =>
  }

  /** is_nothing is false on a Just and true on a Nothing; it holds exactly
      on the values that do not equal themselves, and binding a Nothing
      gives a Nothing again while binding a Just gives what f returns. */
  lemma OptionIsNothingLaws<T, U, N>(m: Option<T, N>, v: T, n: N, f: T -> Option<U, N>)
    ensures !Option<T, N>.Just(v).IsNothing() && Option<T, N>.Nothing(n).IsNothing()
    ensures m.IsNothing() <==> !m.Eq(m)
    ensures m.IsNothing() ==> m.Bind(f).IsNothing()
    ensures !m.IsNothing() ==> m.Bind(f) == f(m.value)
  {
  }

  /** Either's bind is a fold, not a monadic bind: the result of
      Left(v).Bind never depends on f and is never re-wrapped, so Right(v)
      and Left(v) bind to the same value exactly when f leaves v as it is. */
  lemma EitherBindIsFold<T>(v: T, f: T -> T, g: T -> T)
    ensures Left(v).Bind(f) == Left(v).Bind(g)
    ensures Right(v).Bind(f) == Left(v).Bind(f) <==> f(v) == v
  {
  }

  /** Either's equality compares the payloads and ignores the tags, so
      Right(v) equals Left(v). It is an equivalence relation. */
  lemma EitherEqIsPayloadEquality<T>(a: Either<T>, b: Either<T>, c: Either<T>, v: T)
    ensures a.Eq(b) <==> a.value == b.value
    ensures Right(v).Eq(Left(v)) && Left(v).Eq(Right(v))
    ensures a.Eq(a)
    ensures a.Eq(b) <==> b.Eq(a)
    ensures a.Eq(b) && b.Eq(c) ==> a.Eq(c)
  {
  }

  /** Option's equality compares the payloads of two Justs; it is
      reflexive exactly on Just, so a Nothing does not even equal itself; it
      is symmetric and transitive, and a Just and a Nothing never compare
      equal in either order. */
  lemma OptionEqLaws<T, N>(a: Option<T, N>, b: Option<T, N>, c: Option<T, N>, v: T, w: T, n: N)
    ensures Option<T, N>.Just(v).Eq(Just(w)) <==> v == w
    ensures a.Just? && b.Just? ==> (a.Eq(b) <==> a.value == b.value)
    ensures a.Eq(a) <==> a.Just?
    ensures !Just(v).Eq(Nothing(n)) && !Nothing(n).Eq(Just(v))
    ensures !Nothing(n).Eq(a)
    ensures a.Eq(b) <==> b.Eq(a)
    ensures a.Eq(b) && b.Eq(c) ==> a.Eq(c)
  {
  }
}
