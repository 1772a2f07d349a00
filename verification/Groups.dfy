/** Abelian groups, given by their operation, and multiples of a group element. Only the laws of a
    commutative monoid are needed: nothing here subtracts. */
module Groups {
  datatype Group<!G> = Group(zero: G, add: (G, G) -> G)

  ghost predicate LawsAt<G>(g: Group<G>, a: G, b: G, c: G) {
    g.add(a, b) == g.add(b, a) &&
    g.add(a, g.add(b, c)) == g.add(g.add(a, b), c) &&
    g.add(g.zero, a) == a
  }

  ghost predicate Abelian<G(!new)>(g: Group<G>) {
    forall a, b, c :: LawsAt(g, a, b, c)
  }

  /** k * x by repeated addition. */
  function Times<G>(g: Group<G>, k: nat, x: G): G {
    if k == 0 then g.zero else g.add(x, Times(g, k - 1, x))
  }

  lemma ZeroRight<G(!new)>(g: Group<G>, a: G)
    requires Abelian(g)
    ensures g.add(a, g.zero) == a == g.add(g.zero, a)
  {
    assert LawsAt(g, a, g.zero, g.zero);
  }

  lemma Commute<G(!new)>(g: Group<G>, a: G, b: G)
    requires Abelian(g)
    ensures g.add(a, b) == g.add(b, a)
  {
    assert LawsAt(g, a, b, b);
  }

  lemma Assoc<G(!new)>(g: Group<G>, a: G, b: G, c: G)
    requires Abelian(g)
    ensures g.add(a, g.add(b, c)) == g.add(g.add(a, b), c)
  {
    assert LawsAt(g, a, b, c);
  }

  /** (a + b) + (c + d) == (a + c) + (b + d). */
  lemma Interchange<G(!new)>(g: Group<G>, a: G, b: G, c: G, d: G)
    requires Abelian(g)
    ensures g.add(g.add(a, b), g.add(c, d)) == g.add(g.add(a, c), g.add(b, d))
  {
    Assoc(g, a, b, g.add(c, d));
    Assoc(g, b, c, d);
    Commute(g, b, c);
    Assoc(g, c, b, d);
    Assoc(g, a, c, g.add(b, d));
  }

  lemma {:induction false} TimesAdd<G(!new)>(g: Group<G>, j: nat, k: nat, x: G)
    requires Abelian(g)
    ensures Times(g, j + k, x) == g.add(Times(g, j, x), Times(g, k, x))
  {
    if j == 0 {
      ZeroRight(g, Times(g, k, x));
    } else {
      TimesAdd(g, j - 1, k, x);
      Assoc(g, x, Times(g, j - 1, x), Times(g, k, x));
    }
  }

  lemma {:induction false} TimesSum<G(!new)>(g: Group<G>, k: nat, x: G, y: G)
    requires Abelian(g)
    ensures Times(g, k, g.add(x, y)) == g.add(Times(g, k, x), Times(g, k, y))
  {
    if k == 0 {
      ZeroRight(g, g.zero);
    } else {
      TimesSum(g, k - 1, x, y);
      Interchange(g, x, y, Times(g, k - 1, x), Times(g, k - 1, y));
    }
  }

  lemma {:induction false} TimesZero<G(!new)>(g: Group<G>, k: nat)
    requires Abelian(g)
    ensures Times(g, k, g.zero) == g.zero
  {
    ZeroRight(g, g.zero);
    if k != 0 { TimesZero(g, k - 1); }
  }

  lemma {:induction false} TimesTimes<G(!new)>(g: Group<G>, j: nat, k: nat, x: G)
    requires Abelian(g)
    ensures Times(g, j * k, x) == Times(g, j, Times(g, k, x))
  {
    if j == 0 {
      assert j * k == 0;
    } else {
      TimesTimes(g, j - 1, k, x);
      assert j * k == k + (j - 1) * k;
      TimesAdd(g, k, (j - 1) * k, x);
    }
  }

  /** The naive multi-scalar sum s[0]*P[0] + s[1]*P[1] + ... */
  function Msm<G>(g: Group<G>, points: seq<G>, scalars: seq<nat>): G
    requires |points| == |scalars|
  {
    if points == [] then g.zero
    else
      var n := |points| - 1;
      g.add(Msm(g, points[..n], scalars[..n]), Times(g, scalars[n], points[n]))
  }

  /** Splitting every scalar as c * high + low. */
  lemma {:induction false} MsmCombine<G(!new)>(
      g: Group<G>, points: seq<G>, c: nat, high: seq<nat>, low: seq<nat>, whole: seq<nat>)
    requires Abelian(g) && |points| == |high| == |low| == |whole|
    requires forall i :: 0 <= i < |whole| ==> whole[i] == c * high[i] + low[i]
    ensures Msm(g, points, whole) == g.add(Times(g, c, Msm(g, points, high)), Msm(g, points, low))
  {
    if points == [] {
      TimesZero(g, c);
      ZeroRight(g, g.zero);
    } else {
      var n := |points| - 1;
      var p, ps := points[n], points[..n];
      MsmCombine(g, ps, c, high[..n], low[..n], whole[..n]);
      TimesAdd(g, c * high[n], low[n], p);
      TimesTimes(g, c, high[n], p);
      var h, l := Msm(g, ps, high[..n]), Msm(g, ps, low[..n]);
      TimesSum(g, c, h, Times(g, high[n], p));
      Interchange(g, Times(g, c, h), l, Times(g, c, Times(g, high[n], p)), Times(g, low[n], p));
    }
  }

  lemma {:induction false} MsmZero<G(!new)>(g: Group<G>, points: seq<G>, zeros: seq<nat>)
    requires Abelian(g) && |points| == |zeros| && forall i :: 0 <= i < |zeros| ==> zeros[i] == 0
    ensures Msm(g, points, zeros) == g.zero
  {
    if points != [] {
      var n := |points| - 1;
      MsmZero(g, points[..n], zeros[..n]);
      ZeroRight(g, g.zero);
    }
  }
}
