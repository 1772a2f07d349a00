/** Division in Z_p for a prime p: the Fermat inverse used by the sources is an inverse. */
module Prime {
  import opened Residue
  import opened Poly

  ghost predicate IsPrime(p: nat) {
    2 <= p && forall d :: 1 < d < p ==> Mod(p, d) != 0
  }

  lemma PrimeSize(p: nat)
    requires IsPrime(p)
    ensures p > 1
  {
  }

  /** Euclid's lemma, by descent on the first factor. */
  lemma {:induction false} ZeroProduct(a: int, b: int, p: nat)
    requires IsPrime(p) && Cong(a * b, 0, p)
    ensures Cong(a, 0, p) || Cong(b, 0, p)
  {
    var r := Mod(a, p);
    if r != 0 {
      CongMul(r, a, b, b, p);
      Descent(r, b, p);
    }
  }

  lemma {:induction false} Descent(a: nat, b: int, p: nat)
    requires IsPrime(p) && 0 < a < p && Cong(a * b, 0, p)
    ensures Cong(b, 0, p)
    decreases a
  {
    if a > 1 {
      var q, r := Quotient(p, a), Mod(p, a);
      QuotientLaw(p, a);
      assert r != 0;
      RemainderTimes(p, q, a, r, b);
      CongScale(-q, a * b, 0, p);
      CongFrom(r * b, -q * (a * b), b, p);
      Descent(r, b, p);
    }
  }

  lemma RemainderTimes(p: int, q: int, a: int, r: int, b: int)
    requires p == q * a + r
    ensures r * b == -q * (a * b) + b * p
  {
    MulAssoc(q, a, b);
    assert b * p == b * (q * a) + b * r;
  }

  /** Cancelling a non-zero factor. */
  lemma Cancel(a: int, b: int, c: int, p: nat)
    requires IsPrime(p) && !Cong(a, 0, p) && Cong(a * b, a * c, p)
    ensures Cong(b, c, p)
  {
    CongDiff(a * b, a * c, p);
    assert a * b - a * c == a * (b - c);
    ZeroProduct(a, b - c, p);
    CongDiff(b, c, p);
  }

  // ----- binomial coefficients -----

  ghost function Choose(n: nat, k: nat): int {
    if k == 0 then 1 else if n == 0 then 0 else Choose(n - 1, k - 1) + Choose(n - 1, k)
  }

  lemma {:induction false} ChooseAbove(n: nat, k: nat)
    requires k > n
    ensures Choose(n, k) == 0
  {
    if n != 0 {
      ChooseAbove(n - 1, k - 1);
      ChooseAbove(n - 1, k);
    }
  }

  lemma {:induction false} ChooseSelf(n: nat)
    ensures Choose(n, n) == 1
  {
    if n != 0 {
      ChooseSelf(n - 1);
      ChooseAbove(n - 1, n);
    }
  }

  lemma {:induction false} Absorption(n: nat, k: nat)
    requires 0 < n && 0 < k
    ensures k * Choose(n, k) == n * Choose(n - 1, k - 1)
  {
    if n == 1 {
      if k > 1 { ChooseAbove(0, k - 1); ChooseAbove(0, k); }
    } else if k == 1 {
      Absorption(n - 1, 1);
    } else {
      Absorption(n - 1, k - 1);
      Absorption(n - 1, k);
      AbsorptionStep(n, k, Choose(n - 1, k - 1), Choose(n - 1, k), Choose(n - 2, k - 2), Choose(n - 2, k - 1));
    }
  }

  lemma AbsorptionStep(n: int, k: int, a: int, b: int, c: int, d: int)
    requires (k - 1) * a == (n - 1) * c && k * b == (n - 1) * d && a == c + d
    ensures k * (a + b) == n * a
  {
  }

  /** p divides the inner entries of row p of Pascal's triangle. */
  lemma ChoosePrime(p: nat, k: nat)
    requires IsPrime(p) && 0 < k < p
    ensures Cong(Choose(p, k), 0, p)
  {
    hide Choose;
    Absorption(p, k);
    assert k * Choose(p, k) == 0 + Choose(p - 1, k - 1) * p;
    CongFrom(k * Choose(p, k), 0, Choose(p - 1, k - 1), p);
    ZeroProduct(k, Choose(p, k), p);
    assert Mod(k, p) == k;
  }

  /** Row n of Pascal's triangle from entry k on. */
  ghost function Row(n: nat, k: nat): (s: seq<int>)
    requires k <= n + 1
    ensures |s| == n + 1 - k
    ensures forall i :: 0 <= i < |s| ==> s[i] == Choose(n, k + i)
    decreases n + 1 - k
  {
    if k == n + 1 then [] else [Choose(n, k)] + Row(n, k + 1)
  }

  /** The part of (1 + a)^(n+1) from entry k + 1 on, by Pascal's rule. */
  lemma {:induction false} PascalEval(n: nat, k: nat, a: int)
    requires k <= n
    ensures Eval(Row(n + 1, k + 1), a) == Eval(Row(n, k), a) + Eval(Row(n, k + 1), a)
    decreases n - k
  {
    var next, cur := Row(n + 1, k + 1), Row(n, k);
    assert next[1..] == Row(n + 1, k + 2) && cur[1..] == Row(n, k + 1);
    if k == n {
      ChooseAbove(n, n + 1);
    } else {
      PascalEval(n, k + 1, a);
      assert Row(n, k + 1)[1..] == Row(n, k + 2);
      assert a * (Eval(Row(n, k + 1), a) + Eval(Row(n, k + 2), a))
          == a * Eval(Row(n, k + 1), a) + a * Eval(Row(n, k + 2), a);
    }
  }

  lemma {:induction false} Binomial(n: nat, a: int)
    ensures Eval(Row(n, 0), a) == Pow(1 + a, n)
  {
    if n == 0 {
      assert Row(0, 0)[1..] == [];
    } else {
      Binomial(n - 1, a);
      PascalEval(n - 1, 0, a);
      assert Row(n, 0)[1..] == Row(n, 1);
      assert Row(n - 1, 0)[1..] == Row(n - 1, 1);
      BinomialStep(Eval(Row(n - 1, 0), a), Eval(Row(n - 1, 1), a), a);
    }
  }

  lemma BinomialStep(u: int, v: int, a: int)
    requires u == 1 + a * v
    ensures 1 + a * (u + v) == (1 + a) * u
  {
  }

  /** Row p modulo p is 1, 0, ..., 0, 1. */
  lemma FreshmansDream(a: int, p: nat)
    requires IsPrime(p)
    ensures Cong(Pow(1 + a, p), 1 + Pow(a, p), p)
  {
    var row := Row(p, 0);
    Binomial(p, a);
    var mid := row[..p];
    assert row == mid + [row[p]];
    EvalAppend(mid, [row[p]], a);
    ChooseSelf(p);
    SingletonEval(1, a);
    var inner := mid[1..];
    forall i | 0 <= i < |inner| ensures Cong(inner[i], 0, p) {
      ChoosePrime(p, i + 1);
    }
    EvalAllZero(inner, a, p);
    CongScale(a, Eval(inner, a), 0, p);
    CongAdd(a * Eval(inner, a), 0, 1 + Pow(a, p), 1 + Pow(a, p), p);
  }

  lemma SingletonEval(c: int, x: int)
    ensures Eval([c], x) == c
  {
    assert [c][1..] == [];
  }

  /** Fermat: a^p = a. */
  lemma {:induction false} FermatNat(a: nat, p: nat)
    requires IsPrime(p)
    ensures Cong(Pow(a, p), a, p)
  {
    if a != 0 {
      FermatNat(a - 1, p);
      FreshmansDream(a - 1, p);
      CongAdd(Pow(a - 1, p), a - 1, 1, 1, p);
    }
  }

  /** The inverse of the sources: x^(p-2) modulo p. */
  function Inv(x: int, p: nat): (r: nat)
    requires p >= 2
    ensures r < p
  {
    Mod(Pow(Mod(x, p), p - 2), p)
  }

  /** Fermat's little theorem: `Inv` inverts every non-zero scalar. */
  lemma InverseLaw(x: int, p: nat)
    requires IsPrime(p) && !Cong(x, 0, p)
    ensures Cong(x * Inv(x, p), 1, p)
  {
    var a := Mod(x, p);
    FermatNat(a, p);
    assert Pow(a, p) == a * Pow(a, p - 1);
    Cancel(a, Pow(a, p - 1), 1, p);
    CongMul(x, a, Inv(x, p), Pow(a, p - 2), p);
  }

  /** A quotient is the only solution of its defining equation. */
  lemma DivideBy(d: int, n: int, y: int, p: nat)
    requires IsPrime(p) && !Cong(d, 0, p) && Cong(d * y, n, p)
    ensures Cong(n * Inv(d, p), y, p)
  {
    hide Cong, Mod, Pow, Inv;
    var v := Inv(d, p);
    InverseLaw(d, p);
    CongRefl(v, p);
    CongMul(d * y, n, v, v, p);
    CongSym((d * y) * v, n * v, p);
    CongScale(y, d * v, 1, p);
    DivideStep(d, y, v);
    CongTrans(n * v, y * (d * v), y, p);
  }

  lemma DivideStep(d: int, y: int, v: int)
    ensures (d * y) * v == y * (d * v) && y * 1 == y
  {
  }
}
