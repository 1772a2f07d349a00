/** A Reed-Solomon code over the field of 256 elements: data bytes are the values of a polynomial at the first
    points, parity bytes its values at the next ones. It keeps the law asked of an erasure code. */
module ReedSolomon {
  import opened Bytes
  import opened ErasureCode
  import opened GaloisField

  // ----- polynomials over the field -----

  function Eval(c: seq<Elem>, x: Elem): Elem {
    if c == [] then Zero() else Add(c[0], Mul(x, Eval(c[1..], x)))
  }

  /** The quotient of the polynomial x * c + any constant by X - z. */
  function Tails(c: seq<Elem>, z: Elem): (q: seq<Elem>)
    ensures |q| == |c|
  {
    if c == [] then [] else [Eval(c, z)] + Tails(c[1..], z)
  }

  lemma {:induction false} Division(c: seq<Elem>, z: Elem, x: Elem)
    requires c != []
    ensures Add(Eval(c, x), Eval(c, z)) == Mul(Add(x, z), Eval(Tails(c[1..], z), x))
  {
    hide Add, Mul;
    var d := c[1..];
    if d == [] {
      ZeroTimes(x);
      ZeroTimes(z);
      ZeroTimes(Add(x, z));
      AddLaws(c[0], c[0], c[0]);
      AddLaws(Add(c[0], Zero()), c[0], c[0]);
    } else {
      var q := Tails(d[1..], z);
      Division(d, z, x);
      assert Tails(d, z)[1..] == q;
      DivisionStep(c[0], x, z, Eval(d, x), Eval(d, z), Eval(q, x));
    }
  }

  lemma DivisionStep(c: Elem, x: Elem, z: Elem, dx: Elem, dz: Elem, q: Elem)
    requires Add(dx, dz) == Mul(Add(x, z), q)
    ensures Add(Add(c, Mul(x, dx)), Add(c, Mul(z, dz))) == Mul(Add(x, z), Add(dz, Mul(x, q)))
  {
    hide Add, Mul;
    var e := Add(x, z);
    AddSwap(c, Mul(x, dx), c, Mul(z, dz));
    AddLaws(c, c, c);
    AddLaws(Zero(), Add(Mul(x, dx), Mul(z, dz)), Zero());
    AddLaws(Add(Mul(x, dx), Mul(z, dz)), Zero(), Zero());
    // e * dz + e * (x * q) = (x * dz + z * dz) + x * (dx + dz)
    Distributes(dz, Mul(x, q), e);
    Distributes(x, z, dz);
    Associates(e, x, q);
    Commutes(e, x);
    Associates(x, e, q);
    Distributes(dx, dz, x);
    AddLaws(Mul(x, dz), Mul(z, dz), Zero());
    AddSwap(Mul(x, dz), Mul(z, dz), Mul(x, dz), Mul(x, dx));
    AddLaws(Mul(x, dx), Mul(x, dz), Zero());
    AddLaws(Mul(x, dz), Mul(x, dz), Zero());
    AddLaws(Mul(z, dz), Mul(x, dx), Zero());
  }

  lemma NoZeroDivisors(a: Elem, b: Elem)
    requires Mul(a, b) == Zero() && a != Zero()
    ensures b == Zero()
  {
    hide Mul, Inv;
    Inverse(a);
    Commutes(a, Inv(a));
    Associates(Inv(a), a, b);
    OneTimes(b);
    ZeroTimes(Inv(a));
  }

  ghost predicate Distinct(xs: seq<Elem>) {
    forall i, j :: 0 <= i < j < |xs| ==> xs[i] != xs[j]
  }

  /** A polynomial with as many roots as coefficients is zero everywhere. */
  lemma {:induction false} ManyRoots(c: seq<Elem>, xs: seq<Elem>, x: Elem)
    requires Distinct(xs) && |c| <= |xs| && forall i :: 0 <= i < |xs| ==> Eval(c, xs[i]) == Zero()
    ensures Eval(c, x) == Zero()
    decreases |c|
  {
    hide Add, Mul, Eval, Tails;
    if c == [] {
      NoCoefficients(x);
    } else {
      var z, q := xs[0], Tails(c[1..], xs[0]);
      forall i | 0 <= i < |xs| - 1 ensures Eval(q, xs[1..][i]) == Zero() {
        var y := xs[i + 1];
        Division(c, z, y);
        AddLaws(Zero(), Zero(), Zero());
        if Add(y, z) == Zero() { AddTwice(y, z); }
        NoZeroDivisors(Add(y, z), Eval(q, y));
      }
      ManyRoots(q, xs[1..], x);
      Division(c, z, x);
      ZeroTimes(Add(x, z));
      AddLaws(Eval(c, x), Zero(), Zero());
    }
  }

  lemma NoCoefficients(x: Elem)
    ensures Eval([], x) == Zero()
  {
  }

  function Sum(a: seq<Elem>, b: seq<Elem>): (c: seq<Elem>)
    requires |a| == |b|
    ensures |c| == |a|
  {
    seq(|a|, i requires 0 <= i < |a| => Add(a[i], b[i]))
  }

  lemma {:induction false} EvalSum(a: seq<Elem>, b: seq<Elem>, x: Elem)
    requires |a| == |b|
    ensures Eval(Sum(a, b), x) == Add(Eval(a, x), Eval(b, x))
  {
    hide Add, Mul;
    if a == [] {
      AddLaws(Zero(), Zero(), Zero());
    } else {
      EvalSum(a[1..], b[1..], x);
      assert Sum(a, b)[1..] == Sum(a[1..], b[1..]);
      Distributes(Eval(a[1..], x), Eval(b[1..], x), x);
      AddSwap(a[0], b[0], Mul(x, Eval(a[1..], x)), Mul(x, Eval(b[1..], x)));
    }
  }

  /** Two polynomials that agree at as many points as they have coefficients agree everywhere. */
  lemma Agree(a: seq<Elem>, b: seq<Elem>, xs: seq<Elem>, x: Elem)
    requires |a| == |b| <= |xs| && Distinct(xs) && forall i :: 0 <= i < |xs| ==> Eval(a, xs[i]) == Eval(b, xs[i])
    ensures Eval(a, x) == Eval(b, x)
  {
    hide Add, Eval, Sum;
    var c := Sum(a, b);
    forall i | 0 <= i < |xs| ensures Eval(c, xs[i]) == Zero() {
      EvalSum(a, b, xs[i]);
      AddLaws(Eval(a, xs[i]), Zero(), Zero());
    }
    ManyRoots(c, xs, x);
    EvalSum(a, b, x);
    AddTwice(Eval(a, x), Eval(b, x));
  }

  // ----- interpolation -----

  function Scaled(s: Elem, a: seq<Elem>): (c: seq<Elem>)
    ensures |c| == |a|
  {
    seq(|a|, i requires 0 <= i < |a| => Mul(s, a[i]))
  }

  lemma {:induction false} EvalScaled(s: Elem, a: seq<Elem>, x: Elem)
    ensures Eval(Scaled(s, a), x) == Mul(s, Eval(a, x))
  {
    hide Add, Mul;
    if a == [] {
      ZeroTimes(s);
    } else {
      var e := Eval(a[1..], x);
      EvalScaled(s, a[1..], x);
      assert Scaled(s, a)[1..] == Scaled(s, a[1..]);
      Distributes(a[0], Mul(x, e), s);
      Associates(x, s, e);
      Commutes(x, s);
      Associates(s, x, e);
    }
  }

  lemma {:induction false} EvalPadded(a: seq<Elem>, x: Elem)
    ensures Eval(a + [Zero()], x) == Eval(a, x)
  {
    hide Add, Mul;
    if a == [] {
      assert (a + [Zero()])[1..] == [];
      ZeroTimes(x);
      AddLaws(Zero(), Zero(), Zero());
    } else {
      EvalPadded(a[1..], x);
      assert (a + [Zero()])[1..] == a[1..] + [Zero()];
    }
  }

  /** The divided differences with the first point. */
  function Differences(xs: seq<Elem>, ys: seq<Elem>): (d: seq<Elem>)
    requires |xs| == |ys| > 0
    ensures |d| == |xs| - 1
  {
    seq(|xs| - 1, i requires 0 <= i < |xs| - 1 => Mul(Inv(Add(xs[i + 1], xs[0])), Add(ys[i + 1], ys[0])))
  }

  /** The polynomial with values ys at the points xs. */
  function Interpolation(xs: seq<Elem>, ys: seq<Elem>): (c: seq<Elem>)
    requires |xs| == |ys|
    ensures |c| == |xs|
    decreases |xs|
  {
    if xs == [] then []
    else
      var q := Interpolation(xs[1..], Differences(xs, ys));
      Sum([ys[0]] + q, Scaled(xs[0], q) + [Zero()])
  }

  /** It is the first value plus X - x_0 times the rest. */
  lemma InterpolationValue(xs: seq<Elem>, ys: seq<Elem>, x: Elem)
    requires |xs| == |ys| > 0
    ensures var q := Interpolation(xs[1..], Differences(xs, ys));
      Eval(Interpolation(xs, ys), x) == Add(ys[0], Mul(Add(x, xs[0]), Eval(q, x)))
  {
    hide Add, Mul, Sum, Scaled, Differences;
    var q := Interpolation(xs[1..], Differences(xs, ys));
    EvalSum([ys[0]] + q, Scaled(xs[0], q) + [Zero()], x);
    EvalPadded(Scaled(xs[0], q), x);
    EvalScaled(xs[0], q, x);
    assert ([ys[0]] + q)[1..] == q;
    var e := Eval(q, x);
    AddLaws(ys[0], Mul(x, e), Mul(xs[0], e));
    Distributes(x, xs[0], e);
  }

  lemma {:induction false} Interpolates(xs: seq<Elem>, ys: seq<Elem>, i: nat)
    requires |xs| == |ys| && Distinct(xs) && i < |xs|
    ensures Eval(Interpolation(xs, ys), xs[i]) == ys[i]
    decreases |xs|
  {
    hide Add, Mul, Eval, Interpolation, Inv, Differences;
    InterpolationValue(xs, ys, xs[i]);
    var d := Differences(xs, ys);
    var q := Interpolation(xs[1..], d);
    if i == 0 {
      AddLaws(xs[0], ys[0], ys[0]);
      AddLaws(ys[0], ys[0], ys[0]);
      ZeroTimes(Eval(q, xs[0]));
    } else {
      Interpolates(xs[1..], d, i - 1);
      var e := Add(xs[i], xs[0]);
      if e == Zero() { AddTwice(xs[i], xs[0]); }
      DifferenceAt(xs, ys, i - 1);
      var t := Add(ys[i], ys[0]);
      Inverse(e);
      Associates(e, Inv(e), t);
      OneTimes(t);
      AddLaws(ys[i], ys[0], Zero());
      AddTwice(ys[0], ys[i]);
    }
  }

  lemma DifferenceAt(xs: seq<Elem>, ys: seq<Elem>, i: nat)
    requires |xs| == |ys| && i + 1 < |xs|
    ensures Differences(xs, ys)[i] == Mul(Inv(Add(xs[i + 1], xs[0])), Add(ys[i + 1], ys[0]))
  {
    hide Add, Mul, Inv;
  }

  // ----- bytes -----

  function Lowest(b: byte): Bit {
    b % 2
  }

  function Rest(b: byte): byte {
    b / 2
  }

  function ToElem(b: byte): Elem {
    var r1 := Rest(b);
    var r2 := Rest(r1);
    var r3 := Rest(r2);
    var r4 := Rest(r3);
    var r5 := Rest(r4);
    var r6 := Rest(r5);
    Elem(Lowest(b), Lowest(r1), Lowest(r2), Lowest(r3), Lowest(r4), Lowest(r5), Lowest(r6), Lowest(Rest(r6)))
  }

  function ToByte(e: Elem): byte {
    e.b0 + 2 * (e.b1 + 2 * (e.b2 + 2 * (e.b3 + 2 * (e.b4 + 2 * (e.b5 + 2 * (e.b6 + 2 * e.b7))))))
  }

  lemma Halves(b: byte)
    ensures b == Lowest(b) + 2 * Rest(b)
  {
  }

  lemma WholeOf(bit: Bit, rest: byte)
    requires rest < 128
    ensures Lowest(bit + 2 * rest) == bit && Rest(bit + 2 * rest) == rest
  {
  }

  lemma ByteOfElem(b: byte)
    ensures ToByte(ToElem(b)) == b
  {
    hide Lowest, Rest;
    var r1 := Rest(b);
    var r2 := Rest(r1);
    var r3 := Rest(r2);
    var r4 := Rest(r3);
    var r5 := Rest(r4);
    var r6 := Rest(r5);
    Halves(b);
    Halves(r1);
    Halves(r2);
    Halves(r3);
    Halves(r4);
    Halves(r5);
    Halves(r6);
    Halves(Rest(r6));
  }

  lemma ElemOfByte(e: Elem)
    ensures ToElem(ToByte(e)) == e
  {
    hide Lowest, Rest;
    var r6 := e.b6 + 2 * e.b7;
    var r5 := e.b5 + 2 * r6;
    var r4 := e.b4 + 2 * r5;
    var r3 := e.b3 + 2 * r4;
    var r2 := e.b2 + 2 * r3;
    var r1 := e.b1 + 2 * r2;
    WholeOf(e.b0, r1);
    WholeOf(e.b1, r2);
    WholeOf(e.b2, r3);
    WholeOf(e.b3, r4);
    WholeOf(e.b4, r5);
    WholeOf(e.b5, r6);
    WholeOf(e.b6, e.b7);
    WholeOf(e.b7, 0);
  }

  // ----- the code -----

  /** The values of a polynomial at the first n points. */
  function Word(c: seq<Elem>, n: nat): (w: seq<byte>)
    requires n <= 256
    ensures |w| == n
  {
    seq(n, i requires 0 <= i < n => ToByte(Eval(c, ToElem(i))))
  }

  function PointsOf(indices: seq<nat>): (xs: seq<Elem>)
    requires forall i :: 0 <= i < |indices| ==> indices[i] < 256
    ensures |xs| == |indices|
  {
    seq(|indices|, i requires 0 <= i < |indices| => ToElem(indices[i]))
  }

  function ValuesOf(bytes: seq<byte>): (ys: seq<Elem>)
    ensures |ys| == |bytes|
  {
    seq(|bytes|, i requires 0 <= i < |bytes| => ToElem(bytes[i]))
  }

  function FirstIndices(k: nat): (s: seq<nat>)
    ensures |s| == k && forall i :: 0 <= i < k ==> s[i] == i
  {
    seq(k, i => i)
  }

  /** The polynomial of some data. */
  function DataPolynomial(data: seq<byte>): (c: seq<Elem>)
    requires |data| <= 256
    ensures |c| == |data|
  {
    Interpolation(PointsOf(FirstIndices(|data|)), ValuesOf(data))
  }

  function Parity(data: seq<byte>, m: nat): (p: seq<byte>)
    ensures |data| + m <= 256 ==> |p| == m
  {
    if |data| + m <= 256 then Word(DataPolynomial(data), |data| + m)[|data|..] else []
  }

  /** Where a shard is present. */
  function Indices(s: seq<Option<byte>>): (r: seq<nat>)
    ensures |r| == Present(s) && forall i :: 0 <= i < |r| ==> r[i] < |s| && s[r[i]].Some?
    ensures forall i, j :: 0 <= i < j < |r| ==> r[i] < r[j]
  {
    if s == [] then [] else Indices(s[..|s| - 1]) + if s[|s| - 1].Some? then [|s| - 1] else []
  }

  function Taken(s: seq<Option<byte>>, at: seq<nat>): (b: seq<byte>)
    requires forall i :: 0 <= i < |at| ==> at[i] < |s| && s[at[i]].Some?
    ensures |b| == |at| && forall i :: 0 <= i < |at| ==> b[i] == s[at[i]].value
  {
    seq(|at|, i requires 0 <= i < |at| => s[at[i]].value)
  }

  /** Interpolating through the first k shards that are present. */
  function Recovered(s: seq<Option<byte>>, k: nat): (w: seq<byte>)
  {
    if |Indices(s)| < k || |s| > 256 then []
    else
      var at := Indices(s)[..k];
      Word(Interpolation(PointsOf(at), ValuesOf(Taken(s, at))), |s|)
  }

  function RsCode(k: nat, m: nat): Code {
    Code(k, m, data => Parity(data, m), s => Recovered(s, k))
  }

  lemma DistinctPoints(at: seq<nat>)
    requires forall i :: 0 <= i < |at| ==> at[i] < 256
    requires forall i, j :: 0 <= i < j < |at| ==> at[i] < at[j]
    ensures Distinct(PointsOf(at))
  {
    hide ToElem, ToByte;
    var xs := PointsOf(at);
    forall i, j | 0 <= i < j < |xs| ensures xs[i] != xs[j] {
      ByteOfElem(at[i]);
      ByteOfElem(at[j]);
    }
  }

  /** The codeword is the values of the polynomial of the data. */
  lemma CodewordIsWord(data: seq<byte>, m: nat)
    requires |data| + m <= 256
    ensures data + Parity(data, m) == Word(DataPolynomial(data), |data| + m)
  {
    hide ToElem, ToByte, Eval, Interpolation;
    var k, first := |data|, FirstIndices(|data|);
    var c, w := DataPolynomial(data), Word(DataPolynomial(data), |data| + m);
    DistinctPoints(first);
    forall i | 0 <= i < k ensures w[i] == data[i] {
      Interpolates(PointsOf(first), ValuesOf(data), i);
      ByteOfElem(data[i]);
    }
    assert w[..k] == data;
  }

  lemma RsRecovers(k: nat, m: nat, data: seq<byte>, survived: seq<Option<byte>>)
    requires k > 0 && k + m <= 256 && |data| == k
    ensures Recovers(RsCode(k, m), data, survived)
  {
    hide ToElem, ToByte, Eval, Interpolation, Indices, DataPolynomial, Taken;
    var code := RsCode(k, m);
    assert code.parity(data) == Parity(data, m) && code.recover(survived) == Recovered(survived, k);
    CodewordIsWord(data, m);
    var c := DataPolynomial(data);
    var word := Word(c, k + m);
    if Partial(survived, word) && Present(survived) >= k {
      var at := Indices(survived)[..k];
      var xs, ys := PointsOf(at), ValuesOf(Taken(survived, at));
      var d := Interpolation(xs, ys);
      DistinctPoints(at);
      forall i | 0 <= i < k ensures Eval(d, xs[i]) == Eval(c, xs[i]) {
        Interpolates(xs, ys, i);
        assert survived[at[i]].value == word[at[i]];
        ElemOfByte(Eval(c, xs[i]));
      }
      forall i | 0 <= i < k + m ensures Word(d, k + m)[i] == word[i] {
        Agree(d, c, xs, ToElem(i));
      }
      assert Word(d, k + m) == word;
    }
  }

  /** The law can be met, for every number of data and parity shards up to 256 together. */
  lemma RsIsLawful(k: nat, m: nat)
    requires k > 0 && m > 0 && k + m <= 256
    ensures Lawful(RsCode(k, m)) && RsCode(k, m).k == k && RsCode(k, m).m == m
  {
    hide Recovers;
    forall data: seq<byte>, survived | |data| == k ensures Recovers(RsCode(k, m), data, survived) {
      RsRecovers(k, m, data, survived);
    }
  }
}
