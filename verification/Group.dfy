/**
 Abelian groups given by their operations, and integer multiples of an element.
 The curve's point addition, doubling and negation are used through these laws only.
 */
module Group {

  datatype Group<!E> = Group(zero: E, add: (E, E) -> E, neg: E -> E)

  ghost predicate Assoc<E>(g: Group<E>, x: E, y: E, z: E) {
    g.add(g.add(x, y), z) == g.add(x, g.add(y, z))
  }

  ghost predicate Comm<E>(g: Group<E>, x: E, y: E) {
    g.add(x, y) == g.add(y, x)
  }

  ghost predicate Unit<E>(g: Group<E>, x: E) {
    g.add(g.zero, x) == x && g.add(x, g.neg(x)) == g.zero
  }

  ghost predicate IsAbelian<E(!new)>(g: Group<E>) {
    && (forall x, y, z :: Assoc(g, x, y, z))
    && (forall x, y :: Comm(g, x, y))
    && (forall x :: Unit(g, x))
  }

  /** n·x for any integer n. */
  ghost function Times<E>(g: Group<E>, n: int, x: E): E
    decreases if n < 0 then -n else n
  {
    if n == 0 then g.zero
    else if n > 0 then g.add(Times(g, n - 1, x), x)
    else g.add(Times(g, n + 1, x), g.neg(x))
  }

  lemma AddZero<E(!new)>(g: Group<E>, x: E)
    requires IsAbelian(g)
    ensures g.add(x, g.zero) == x && g.add(g.zero, x) == x
  {
    assert Comm(g, x, g.zero) && Unit(g, x);
  }

  lemma AddFour<E(!new)>(g: Group<E>, a: E, b: E, c: E, d: E)
    requires IsAbelian(g)
    ensures g.add(g.add(a, b), g.add(c, d)) == g.add(g.add(a, c), g.add(b, d))
  {
    assert Assoc(g, a, b, g.add(c, d)) && Assoc(g, b, c, d) && Comm(g, b, c);
    assert Assoc(g, c, b, d) && Assoc(g, a, c, g.add(b, d));
  }

  lemma CancelRight<E(!new)>(g: Group<E>, a: E, x: E)
    requires IsAbelian(g)
    ensures g.add(g.add(a, x), g.neg(x)) == a
    ensures g.add(g.add(a, g.neg(x)), x) == a
  {
    AddZero(g, a);
    assert Assoc(g, a, x, g.neg(x)) && Assoc(g, a, g.neg(x), x);
    assert Unit(g, x) && Comm(g, g.neg(x), x);
  }

  lemma TimesSucc<E(!new)>(g: Group<E>, n: int, x: E)
    requires IsAbelian(g)
    ensures Times(g, n + 1, x) == g.add(Times(g, n, x), x)
  {
    if n < 0 {
      CancelRight(g, Times(g, n + 1, x), x);
    }
  }

  lemma {:induction false} TimesAdd<E(!new)>(g: Group<E>, m: int, n: int, x: E)
    requires IsAbelian(g)
    ensures Times(g, m + n, x) == g.add(Times(g, m, x), Times(g, n, x))
    decreases if n < 0 then -n else n
  {
    var a, b := Times(g, m, x), Times(g, n, x);
    if n == 0 {
      AddZero(g, a);
    } else if n > 0 {
      TimesAdd(g, m, n - 1, x);
      TimesSucc(g, m + n - 1, x);
      assert Assoc(g, a, Times(g, n - 1, x), x);
    } else {
      TimesAdd(g, m, n + 1, x);
      TimesSucc(g, m + n, x);
      CancelRight(g, Times(g, m + n, x), x);
      assert Assoc(g, a, Times(g, n + 1, x), g.neg(x));
    }
  }

  lemma {:induction false} TimesTimes<E(!new)>(g: Group<E>, m: int, n: int, x: E)
    requires IsAbelian(g)
    ensures Times(g, m, Times(g, n, x)) == Times(g, m * n, x)
    decreases if m < 0 then -m else m
  {
    if m == 0 {
    } else if m > 0 {
      TimesTimes(g, m - 1, n, x);
      TimesAdd(g, (m - 1) * n, n, x);
      assert (m - 1) * n + n == m * n;
    } else {
      TimesTimes(g, m + 1, n, x);
      TimesAdd(g, m * n, n, x);
      assert (m + 1) * n == m * n + n;
      CancelRight(g, Times(g, m * n, x), Times(g, n, x));
    }
  }

  lemma TimesOne<E(!new)>(g: Group<E>, x: E)
    requires IsAbelian(g)
    ensures Times(g, 1, x) == x && Times(g, -1, x) == g.neg(x)
  {
    AddZero(g, x);
    AddZero(g, g.neg(x));
    TimesSucc(g, 0, x);
    assert Times(g, -1, x) == g.add(Times(g, 0, x), g.neg(x));
  }

  /** Multiplying the opposite element is multiplying by the opposite number. */
  lemma TimesNeg<E(!new)>(g: Group<E>, n: int, x: E)
    requires IsAbelian(g)
    ensures Times(g, n, g.neg(x)) == Times(g, -n, x)
  {
    TimesOne(g, x);
    TimesTimes(g, n, -1, x);
  }

  lemma TimesZero<E(!new)>(g: Group<E>, n: int)
    requires IsAbelian(g)
    ensures Times(g, n, g.zero) == g.zero
  {
    assert Times(g, 0, g.zero) == g.zero;
    TimesTimes(g, n, 0, g.zero);
  }

  /** Where order·x vanishes, only the multiplier modulo the order matters. */
  lemma TimesMod<E(!new)>(g: Group<E>, order: int, m: int, n: int, q: int, x: E)
    requires IsAbelian(g)
    requires Times(g, order, x) == g.zero
    requires m == n + q * order
    ensures Times(g, m, x) == Times(g, n, x)
  {
    TimesTimes(g, q, order, x);
    TimesZero(g, q);
    TimesAdd(g, q * order, n, x);
    AddZero(g, Times(g, n, x));
  }
}
