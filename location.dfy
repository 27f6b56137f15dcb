/** `Locatable<T>` (src/ast/location/mod.rs): a value together with the
    region of source it came from. Equality and hashing look at the value
    only, so trees that differ only in their positions compare equal. */
module Location {
  import opened SourcePosition

  datatype Locatable<T> = Locatable(inner: T, position: Position) {

    static function New(inner: T, position: Position): (l: Locatable<T>)
      ensures l.IntoInner() == inner && l.AsInner() == inner && l.GetPosition() == position
    {
      Locatable(inner, position)
    }

    /** Applies `f` to the value; the position is kept. */
    function Map<U>(f: T -> U): (m: Locatable<U>)
      ensures m.IntoInner() == f(IntoInner()) && m.GetPosition() == GetPosition()
    {
      Locatable<U>.New(f(inner), position)
    }

    function AsInner(): T { inner }

    function IntoInner(): T { inner }

    function GetPosition(): Position { position }

    /** `From<T>`: the default position. */
    static function From(x: T): (l: Locatable<T>)
      ensures l.IntoInner() == x && l.GetPosition() == Position.Default()
    {
      New(x, Position.Default())
    }
  }

  /** `Locatable<Option<T>>::transpose`. */
  function Transpose<T>(l: Locatable<Option<T>>): (r: Option<Locatable<T>>)
    ensures r.None? <==> l.IntoInner().None?
    ensures r.Some? ==> r.value.IntoInner() == l.IntoInner().value && r.value.GetPosition() == l.GetPosition()
  {
    match l.inner
    case Some(x) => Some(Locatable.New(x, l.position))
    case None => None
  }

  /** `PartialEq for Locatable<T>`. */
  predicate Eq<T(==)>(a: Locatable<T>, b: Locatable<T>) {
    a.inner == b.inner
  }

  /** `PartialEq<T> for Locatable<T>`. */
  predicate EqInner<T(==)>(a: Locatable<T>, x: T) {
    a.inner == x
  }

  /** `Hash for Locatable<T>`: the value's hash, given as `hash`. */
  function Hash<T>(a: Locatable<T>, hash: T -> int): int {
    hash(a.inner)
  }

  /** Wrapping values at any two positions gives equal `Locatable`s exactly
      when the values are equal, and then equal hashes. */
  lemma PositionIndependent<T>(x: T, y: T, p: Position, q: Position, hash: T -> int)
    ensures Eq(Locatable.New(x, p), Locatable.New(y, q)) <==> x == y
    ensures EqInner(Locatable.New(x, p), y) <==> x == y
    ensures x == y ==> Hash(Locatable.New(x, p), hash) == Hash(Locatable.New(y, q), hash)
  {
  }

  /** `Eq` is an equivalence relation, and equal values hash alike. */
  lemma EqIsEquivalence<T>(a: Locatable<T>, b: Locatable<T>, c: Locatable<T>, hash: T -> int)
    ensures Eq(a, a)
    ensures Eq(a, b) ==> Eq(b, a)
    ensures Eq(a, b) && Eq(b, c) ==> Eq(a, c)
    ensures Eq(a, b) ==> Hash(a, hash) == Hash(b, hash)
  {
  }

  /** `map` followed by `map` is `map` of the composition, at the same position. */
  lemma MapCompose<T, U, V>(l: Locatable<T>, f: T -> U, g: U -> V)
    ensures l.Map(f).Map(g) == l.Map(x => g(f(x)))
  {
  }
}
