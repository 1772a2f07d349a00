/** How many roots a polynomial can have, and its formal derivative. */
module Roots {
  import opened Residue
  import opened Poly
  import opened Prime

  ghost predicate Distinct(xs: seq<int>, p: nat)
    requires p > 0
  {
    forall i, j :: 0 <= i < j < |xs| ==> !Cong(xs[i], xs[j], p)
  }

  /** A polynomial that vanishes at as many distinct points as it has coefficients is zero. */
  lemma {:induction false} RootBound(c: seq<int>, xs: seq<int>, p: nat)
    requires IsPrime(p) && |xs| == |c| && Distinct(xs, p)
    requires forall i :: 0 <= i < |xs| ==> Cong(Eval(c, xs[i]), 0, p)
    ensures AllZero(c, p)
    decreases |c|
  {
    hide Mod, Eval, IsPrime;
    if c != [] {
      PrimeSize(p);
      var z, d := xs[0], c[1..];
      var q, ys := Tails(d, z), xs[1..];
      forall i | 0 <= i < |ys| ensures Cong(Eval(q, ys[i]), 0, p) {
        SyntheticDivision(c, z, ys[i]);
        assert ys[i] == xs[i + 1];
        CongAdd(Eval(c, ys[i]), 0, Eval(c, z), 0, p);
        CongDiff(ys[i], z, p);
        ZeroProduct(ys[i] - z, Eval(q, ys[i]), p);
      }
      RootBound(q, ys, p);
      forall i | 0 <= i < |c| ensures Cong(c[i], 0, p) {
        ZeroTail(c, z, i, p);
      }
    }
  }

  /** c[i] is the value of suffix i minus z times the value of suffix i + 1. */
  lemma ZeroTail(c: seq<int>, z: int, i: nat, p: nat)
    requires p > 0 && i < |c| && Cong(Eval(c, z), 0, p) && AllZero(Tails(c[1..], z), p)
    ensures Cong(c[i], 0, p)
  {
    hide Mod, Eval, Cong, Tails, AllZero;
    SuffixZero(c, z, i, p);
    SuffixZero(c, z, i + 1, p);
    EvalFrom(c, i, z);
    var e := Eval(c[i + 1..], z);
    CongScale(z, e, 0, p);
    CongAdd(c[i] + z * e, 0, z * e, z * 0, p);
  }

  lemma EvalFrom(c: seq<int>, i: nat, z: int)
    requires i < |c|
    ensures Eval(c[i..], z) == c[i] + z * Eval(c[i + 1..], z)
  {
    assert c[i..][1..] == c[i + 1..];
  }

  lemma SuffixZero(c: seq<int>, z: int, i: nat, p: nat)
    requires p > 0 && i <= |c| && c != [] && Cong(Eval(c, z), 0, p) && AllZero(Tails(c[1..], z), p)
    ensures Cong(Eval(c[i..], z), 0, p)
  {
    if i == 0 {
      assert c[0..] == c;
    } else if i == |c| {
      assert c[i..] == [];
    } else {
      assert Tails(c[1..], z)[i - 1] == Eval(c[1..][i - 1..], z);
      assert c[1..][i - 1..] == c[i..];
    }
  }

  // ----- derivative -----

  /** The coefficients (k + i) * c[i]: with c = M[1..] and k = 1, the derivative of M. */
  ghost function Derived(c: seq<int>, k: int): (s: seq<int>)
    ensures |s| == |c|
    ensures forall i :: 0 <= i < |c| ==> s[i] == (k + i) * c[i]
  {
    if c == [] then [] else
      var t := Derived(c[1..], k + 1);
      [k * c[0]] + t
  }

  lemma {:induction false} DerivedEval(c: seq<int>, k: int, a: int)
    ensures Eval(Derived(c, k), a) == Eval(Tails(c, a), a) + (k - 1) * Eval(c, a)
  {
    if c != [] {
      var d := c[1..];
      DerivedEval(d, k + 1, a);
      assert Derived(c, k)[1..] == Derived(d, k + 1);
      assert Tails(c, a)[1..] == Tails(d, a);
      DerivedStep(c[0], k, a, Eval(d, a), Eval(Tails(d, a), a));
    }
  }

  lemma DerivedStep(c0: int, k: int, a: int, e: int, t: int)
    ensures k * c0 + a * (t + k * e) == ((c0 + a * e) + a * t) + (k - 1) * (c0 + a * e)
  {
    assert a * (t + k * e) == a * t + k * (a * e);
    assert (k - 1) * (c0 + a * e) == k * c0 + k * (a * e) - c0 - a * e;
  }

  /** The derivative at a is the quotient by X - a at a. */
  lemma DerivativeIsQuotient(m: seq<int>, a: int)
    requires m != []
    ensures Eval(Derived(m[1..], 1), a) == Eval(Tails(m[1..], a), a)
  {
    DerivedEval(m[1..], 1, a);
    assert (1 - 1) * Eval(m[1..], a) == 0;
  }
}
