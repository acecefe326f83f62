/** An abelian group given by its operations, and integer multiples of its points. */
module Groups {

  datatype Group<!T(!new)> = Group(add: (T, T) -> T, neg: T -> T, zero: T)

  ghost predicate AssocAt<T(!new)>(g: Group<T>, x: T, y: T, z: T) {
    g.add(g.add(x, y), z) == g.add(x, g.add(y, z))
  }

  ghost predicate CommAt<T(!new)>(g: Group<T>, x: T, y: T) {
    g.add(x, y) == g.add(y, x)
  }

  ghost predicate UnitAt<T(!new)>(g: Group<T>, x: T) {
    g.add(x, g.zero) == x && g.add(x, g.neg(x)) == g.zero
  }

  ghost predicate Abelian<T(!new)>(g: Group<T>) {
    && (forall x, y, z :: AssocAt(g, x, y, z))
    && (forall x, y :: CommAt(g, x, y))
    && (forall x :: UnitAt(g, x))
  }

  lemma Assoc<T(!new)>(g: Group<T>, x: T, y: T, z: T)
    requires Abelian(g)
    ensures g.add(g.add(x, y), z) == g.add(x, g.add(y, z))
  {
    assert AssocAt(g, x, y, z);
  }

  lemma Comm<T(!new)>(g: Group<T>, x: T, y: T)
    requires Abelian(g)
    ensures g.add(x, y) == g.add(y, x)
  {
    assert CommAt(g, x, y);
  }

  lemma Unit<T(!new)>(g: Group<T>, x: T)
    requires Abelian(g)
    ensures g.add(x, g.zero) == x && g.add(g.zero, x) == x
  {
    assert UnitAt(g, x) && CommAt(g, x, g.zero);
  }

  lemma Inverse<T(!new)>(g: Group<T>, x: T)
    requires Abelian(g)
    ensures g.add(x, g.neg(x)) == g.zero && g.add(g.neg(x), x) == g.zero
  {
    assert UnitAt(g, x) && CommAt(g, x, g.neg(x));
  }

  lemma Cancel<T(!new)>(g: Group<T>, x: T, y: T, z: T)
    requires Abelian(g) && g.add(x, z) == g.add(y, z)
    ensures x == y
  {
    hide Abelian;
    Assoc(g, x, z, g.neg(z));
    Assoc(g, y, z, g.neg(z));
    Inverse(g, z);
    Unit(g, x);
    Unit(g, y);
  }

  /** (x + y) + (z + w) = (x + z) + (y + w). */
  lemma Exchange<T(!new)>(g: Group<T>, x: T, y: T, z: T, w: T)
    requires Abelian(g)
    ensures g.add(g.add(x, y), g.add(z, w)) == g.add(g.add(x, z), g.add(y, w))
  {
    hide Abelian;
    Assoc(g, x, y, g.add(z, w));
    Assoc(g, y, z, w);
    Comm(g, y, z);
    Assoc(g, z, y, w);
    Assoc(g, x, z, g.add(y, w));
  }

  /** k times P, for any integer k. */
  ghost function Times<T(!new)>(g: Group<T>, k: int, P: T): T
    decreases if k >= 0 then k else -k
  {
    if k == 0 then g.zero
    else if k > 0 then g.add(Times(g, k - 1, P), P)
    else g.add(Times(g, k + 1, P), g.neg(P))
  }

  lemma TimesSucc<T(!new)>(g: Group<T>, k: int, P: T)
    requires Abelian(g)
    ensures Times(g, k + 1, P) == g.add(Times(g, k, P), P)
  {
    hide Abelian;
    if k < 0 {
      Assoc(g, Times(g, k + 1, P), g.neg(P), P);
      Inverse(g, P);
      Unit(g, Times(g, k + 1, P));
    }
  }

  lemma TimesOne<T(!new)>(g: Group<T>, P: T)
    requires Abelian(g)
    ensures Times(g, 0, P) == g.zero && Times(g, 1, P) == P
  {
    hide Abelian;
    Unit(g, P);
    assert Times(g, 1, P) == g.add(Times(g, 0, P), P);
  }

  lemma {:induction false} TimesAdd<T(!new)>(g: Group<T>, k: int, l: int, P: T)
    requires Abelian(g)
    ensures Times(g, k + l, P) == g.add(Times(g, k, P), Times(g, l, P))
    decreases if l >= 0 then l else -l
  {
    hide Abelian;
    hide Times;
    if l == 0 {
      TimesOne(g, P);
      Unit(g, Times(g, k, P));
    } else if l > 0 {
      TimesAdd(g, k, l - 1, P);
      TimesSucc(g, k + l - 1, P);
      TimesSucc(g, l - 1, P);
      Assoc(g, Times(g, k, P), Times(g, l - 1, P), P);
    } else {
      TimesAdd(g, k, l + 1, P);
      TimesSucc(g, k + l, P);
      TimesSucc(g, l, P);
      Assoc(g, Times(g, k, P), Times(g, l, P), P);
      Cancel(g, Times(g, k + l, P), g.add(Times(g, k, P), Times(g, l, P)), P);
    }
  }

  lemma TimesNeg<T(!new)>(g: Group<T>, k: int, P: T)
    requires Abelian(g)
    ensures Times(g, -k, P) == g.neg(Times(g, k, P))
  {
    hide Abelian;
    hide Times;
    TimesAdd(g, -k, k, P);
    TimesOne(g, P);
    Inverse(g, Times(g, k, P));
    Cancel(g, Times(g, -k, P), g.neg(Times(g, k, P)), Times(g, k, P));
  }

  lemma {:induction false} TimesZero<T(!new)>(g: Group<T>, k: int)
    requires Abelian(g)
    ensures Times(g, k, g.zero) == g.zero
    decreases if k >= 0 then k else -k
  {
    hide Abelian;
    Unit(g, g.zero);
    Inverse(g, g.zero);
    Unit(g, g.neg(g.zero));
    if k > 0 { TimesZero(g, k - 1); } else if k < 0 { TimesZero(g, k + 1); }
  }

  /** k*(l*P) = (k*l)*P. */
  lemma {:induction false} TimesTimes<T(!new)>(g: Group<T>, k: int, l: int, P: T)
    requires Abelian(g)
    ensures Times(g, k, Times(g, l, P)) == Times(g, k * l, P)
    decreases if k >= 0 then k else -k
  {
    hide Abelian;
    hide Times;
    TimesOne(g, P);
    TimesOne(g, Times(g, l, P));
    if k == 0 {
      assert k * l == 0;
    } else if k > 0 {
      TimesTimes(g, k - 1, l, P);
      TimesSucc(g, k - 1, Times(g, l, P));
      assert k * l == (k - 1) * l + l;
      TimesAdd(g, (k - 1) * l, l, P);
    } else {
      TimesTimes(g, k + 1, l, P);
      TimesSucc(g, k, Times(g, l, P));
      assert (k + 1) * l == k * l + l;
      TimesAdd(g, k * l, l, P);
      Cancel(g, Times(g, k, Times(g, l, P)), Times(g, k * l, P), Times(g, l, P));
    }
  }

  // ----- combinations of two points --------------------------------------------------------

  /** a*P + b*Q. */
  ghost function Comb<T(!new)>(g: Group<T>, a: int, P: T, b: int, Q: T): T {
    g.add(Times(g, a, P), Times(g, b, Q))
  }

  lemma CombAdd<T(!new)>(g: Group<T>, a: int, c: int, P: T, b: int, d: int, Q: T)
    requires Abelian(g)
    ensures g.add(Comb(g, a, P, b, Q), Comb(g, c, P, d, Q)) == Comb(g, a + c, P, b + d, Q)
  {
    hide Abelian;
    hide Times;
    Exchange(g, Times(g, a, P), Times(g, b, Q), Times(g, c, P), Times(g, d, Q));
    TimesAdd(g, a, c, P);
    TimesAdd(g, b, d, Q);
  }

  lemma CombNeg<T(!new)>(g: Group<T>, a: int, P: T, b: int, Q: T)
    requires Abelian(g)
    ensures g.neg(Comb(g, a, P, b, Q)) == Comb(g, -a, P, -b, Q)
  {
    hide Abelian;
    hide Times;
    CombAdd(g, -a, a, P, -b, b, Q);
    TimesOne(g, P);
    TimesOne(g, Q);
    Unit(g, g.zero);
    Inverse(g, Comb(g, a, P, b, Q));
    Cancel(g, g.neg(Comb(g, a, P, b, Q)), Comb(g, -a, P, -b, Q), Comb(g, a, P, b, Q));
  }

  lemma CombSub<T(!new)>(g: Group<T>, a: int, c: int, P: T, b: int, d: int, Q: T)
    requires Abelian(g)
    ensures g.add(Comb(g, a, P, b, Q), g.neg(Comb(g, c, P, d, Q))) == Comb(g, a - c, P, b - d, Q)
  {
    hide Abelian;
    hide Comb;
    CombNeg(g, c, P, d, Q);
    CombAdd(g, a, -c, P, b, -d, Q);
  }

  lemma CombOne<T(!new)>(g: Group<T>, P: T, Q: T)
    requires Abelian(g)
    ensures Comb(g, 1, P, 0, Q) == P && Comb(g, 0, P, 1, Q) == Q && Comb(g, 0, P, 0, Q) == g.zero
  {
    hide Abelian;
    hide Times;
    TimesOne(g, P);
    TimesOne(g, Q);
    Unit(g, P);
    Unit(g, Q);
    Unit(g, g.zero);
  }
}
