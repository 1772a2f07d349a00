/** The field of 256 elements, as polynomials over two elements modulo x^8 + x^4 + x^3 + x^2 + 1: a
    commutative ring in which every element but zero has an inverse. */
module GaloisField {

  type Bit = x: int | 0 <= x < 2

  /** A polynomial by its coefficients, the constant one first. */
  datatype Elem = Elem(b0: Bit, b1: Bit, b2: Bit, b3: Bit, b4: Bit, b5: Bit, b6: Bit, b7: Bit)

  function Zero(): Elem {
    Elem(0, 0, 0, 0, 0, 0, 0, 0)
  }

  function One(): Elem {
    Elem(1, 0, 0, 0, 0, 0, 0, 0)
  }

  /** The polynomial x. */
  function X(): Elem {
    Elem(0, 1, 0, 0, 0, 0, 0, 0)
  }

  /** The sum of two coefficients. */
  function Plus(x: Bit, y: Bit): Bit {
    if x == y then 0 else 1
  }

  function Add(a: Elem, b: Elem): Elem {
    Elem(Plus(a.b0, b.b0), Plus(a.b1, b.b1), Plus(a.b2, b.b2), Plus(a.b3, b.b3),
         Plus(a.b4, b.b4), Plus(a.b5, b.b5), Plus(a.b6, b.b6), Plus(a.b7, b.b7))
  }

  /** The product with x. */
  function Double(a: Elem): Elem {
    Elem(a.b7, a.b0, Plus(a.b1, a.b7), Plus(a.b2, a.b7), Plus(a.b3, a.b7), a.b4, a.b5, a.b6)
  }

  /** The polynomial without its constant coefficient, divided by x. */
  function Half(a: Elem): Elem {
    Elem(a.b1, a.b2, a.b3, a.b4, a.b5, a.b6, a.b7, 0)
  }

  function If(bit: Bit, a: Elem): Elem {
    if bit == 1 then a else Zero()
  }

  /** The sum of a * x^i over the lowest n coefficients of b that are set. */
  function Times(a: Elem, b: Elem, n: nat): Elem
    decreases n
  {
    if n == 0 then Zero() else Add(If(b.b0, a), Times(Double(a), Half(b), n - 1))
  }

  function Mul(a: Elem, b: Elem): Elem {
    Times(a, b, 8)
  }

  // ----- addition -----

  lemma PlusLaws(x: Bit, y: Bit, z: Bit)
    ensures Plus(Plus(x, y), z) == Plus(x, Plus(y, z)) && Plus(x, y) == Plus(y, x) && Plus(x, x) == 0 && Plus(x, 0) == x
  {
  }

  lemma AddLaws(a: Elem, b: Elem, c: Elem)
    ensures Add(Add(a, b), c) == Add(a, Add(b, c))
    ensures Add(a, b) == Add(b, a) && Add(a, a) == Zero() && Add(a, Zero()) == a
  {
    hide Plus;
    PlusLaws(a.b0, b.b0, c.b0);
    PlusLaws(a.b1, b.b1, c.b1);
    PlusLaws(a.b2, b.b2, c.b2);
    PlusLaws(a.b3, b.b3, c.b3);
    PlusLaws(a.b4, b.b4, c.b4);
    PlusLaws(a.b5, b.b5, c.b5);
    PlusLaws(a.b6, b.b6, c.b6);
    PlusLaws(a.b7, b.b7, c.b7);
  }

  lemma AddSwap(a: Elem, b: Elem, c: Elem, d: Elem)
    ensures Add(Add(a, b), Add(c, d)) == Add(Add(a, c), Add(b, d))
  {
    hide Add;
    AddLaws(a, b, Add(c, d));
    AddLaws(b, c, d);
    AddLaws(c, b, d);
    AddLaws(b, c, c);
    AddLaws(a, c, Add(b, d));
  }

  /** Adding twice undoes it. */
  lemma AddTwice(a: Elem, b: Elem)
    ensures Add(a, Add(a, b)) == b && (Add(a, b) == Zero() ==> a == b)
  {
    hide Add;
    AddLaws(a, a, b);
    AddLaws(b, Zero(), Zero());
    AddLaws(Zero(), b, b);
    AddLaws(a, b, b);
    AddLaws(b, b, b);
  }

  // ----- multiplication -----

  lemma DoubleAdd(a: Elem, b: Elem)
    ensures Double(Add(a, b)) == Add(Double(a), Double(b))
  {
    hide Plus;
    PlusSwap(a.b1, b.b1, a.b7, b.b7);
    PlusSwap(a.b2, b.b2, a.b7, b.b7);
    PlusSwap(a.b3, b.b3, a.b7, b.b7);
  }

  lemma PlusSwap(x: Bit, y: Bit, z: Bit, w: Bit)
    ensures Plus(Plus(x, y), Plus(z, w)) == Plus(Plus(x, z), Plus(y, w))
  {
  }

  lemma IfLaws(bit: Bit, other: Bit, a: Elem, b: Elem)
    ensures If(bit, Add(a, b)) == Add(If(bit, a), If(bit, b))
    ensures If(Plus(bit, other), a) == Add(If(bit, a), If(other, a))
    ensures Double(If(bit, a)) == If(bit, Double(a))
  {
    hide Add;
    AddLaws(a, b, b);
    AddLaws(a, a, a);
    AddLaws(Zero(), Zero(), Zero());
    AddLaws(Zero(), a, a);
  }

  lemma {:induction false} TimesAdd(a: Elem, b: Elem, c: Elem, n: nat)
    ensures Times(Add(a, b), c, n) == Add(Times(a, c, n), Times(b, c, n))
    decreases n
  {
    hide Add, If, Double, Half;
    if n == 0 {
      AddLaws(Zero(), Zero(), Zero());
    } else {
      DoubleAdd(a, b);
      IfLaws(c.b0, c.b0, a, b);
      TimesAdd(Double(a), Double(b), Half(c), n - 1);
      AddSwap(If(c.b0, a), If(c.b0, b), Times(Double(a), Half(c), n - 1), Times(Double(b), Half(c), n - 1));
    }
  }

  lemma {:induction false} DoubleTimes(a: Elem, b: Elem, n: nat)
    ensures Double(Times(a, b, n)) == Times(Double(a), b, n)
    decreases n
  {
    hide Add, If, Double, Half;
    if n == 0 {
      IfLaws(0, 0, Zero(), Zero());
      DoubleZero();
    } else {
      IfLaws(b.b0, b.b0, a, a);
      DoubleTimes(Double(a), Half(b), n - 1);
      DoubleAdd(If(b.b0, a), Times(Double(a), Half(b), n - 1));
    }
  }

  lemma DoubleZero()
    ensures Double(Zero()) == Zero() && Half(Zero()) == Zero()
  {
  }

  lemma {:induction false} TimesZero(c: Elem, n: nat)
    ensures Times(Zero(), c, n) == Zero()
    decreases n
  {
    hide Add, Double, Half;
    if n != 0 {
      DoubleZero();
      TimesZero(Half(c), n - 1);
      AddLaws(Zero(), Zero(), Zero());
    }
  }

  /** Multiplications commute, as all of them are sums of repeated doublings. */
  lemma {:induction false} TimesSwap(a: Elem, b: Elem, n: nat, c: Elem, m: nat)
    ensures Times(Times(a, b, n), c, m) == Times(Times(a, c, m), b, n)
    decreases n
  {
    hide Add, Double, Half;
    TimesZero(c, m);
    if n != 0 {
      var rest := Times(Double(a), Half(b), n - 1);
      TimesAdd(If(b.b0, a), rest, c, m);
      TimesSwap(Double(a), Half(b), n - 1, c, m);
      DoubleTimes(a, c, m);
      assert Times(If(b.b0, a), c, m) == If(b.b0, Times(a, c, m));
    }
  }

  /** The coefficients from i on. */
  function From(b: Elem, i: nat): Elem {
    Elem(if i <= 0 then b.b0 else 0, if i <= 1 then b.b1 else 0, if i <= 2 then b.b2 else 0, if i <= 3 then b.b3 else 0,
         if i <= 4 then b.b4 else 0, if i <= 5 then b.b5 else 0, if i <= 6 then b.b6 else 0, if i <= 7 then b.b7 else 0)
  }

  function Unit(i: nat): Elem {
    Elem(if i == 0 then 1 else 0, if i == 1 then 1 else 0, if i == 2 then 1 else 0, if i == 3 then 1 else 0,
         if i == 4 then 1 else 0, if i == 5 then 1 else 0, if i == 6 then 1 else 0, if i == 7 then 1 else 0)
  }

  function Shifted(b: Elem, i: nat): Elem {
    if i == 0 then b else Half(Shifted(b, i - 1))
  }

  lemma AddBit(b: Elem, i: nat)
    requires i < 8
    ensures Add(If(Shifted(b, i).b0, Unit(i)), From(b, i + 1)) == From(b, i)
  {
    assert Shifted(b, 1) == Half(Shifted(b, 0));
    assert Shifted(b, 2) == Half(Shifted(b, 1));
    assert Shifted(b, 3) == Half(Shifted(b, 2));
    assert Shifted(b, 4) == Half(Shifted(b, 3));
    assert Shifted(b, 5) == Half(Shifted(b, 4));
    assert Shifted(b, 6) == Half(Shifted(b, 5));
    assert Shifted(b, 7) == Half(Shifted(b, 6));
  }

  lemma {:induction false} UnitTimes(b: Elem, i: nat)
    requires i <= 8
    ensures i < 8 ==> Times(Unit(i), Shifted(b, i), 8 - i) == From(b, i)
    decreases 8 - i
  {
    hide Add, If, Half, Double, From, Unit;
    if i < 7 {
      UnitTimes(b, i + 1);
      NextUnit(i);
      AddBit(b, i);
    } else if i == 7 {
      AddBit(b, 7);
      Nothing(b);
      assert Times(Double(Unit(7)), Half(Shifted(b, 7)), 0) == Zero();
    }
  }

  lemma NextUnit(i: nat)
    requires i < 7
    ensures Double(Unit(i)) == Unit(i + 1)
  {
  }

  lemma Nothing(b: Elem)
    ensures From(b, 8) == Zero() && From(b, 0) == b && Unit(0) == One() && Unit(1) == X()
  {
  }

  lemma OneTimes(b: Elem)
    ensures Mul(One(), b) == b
  {
    hide Times, From, Unit;
    UnitTimes(b, 0);
    Nothing(b);
  }

  lemma Commutes(a: Elem, b: Elem)
    ensures Mul(a, b) == Mul(b, a)
  {
    hide Times;
    OneTimes(a);
    OneTimes(b);
    TimesSwap(One(), a, 8, b, 8);
  }

  lemma Associates(a: Elem, b: Elem, c: Elem)
    ensures Mul(Mul(a, b), c) == Mul(a, Mul(b, c))
  {
    hide Times;
    Commutes(a, Mul(b, c));
    TimesSwap(b, c, 8, a, 8);
    Commutes(b, a);
  }

  lemma Distributes(a: Elem, b: Elem, c: Elem)
    ensures Mul(Add(a, b), c) == Add(Mul(a, c), Mul(b, c)) && Mul(c, Add(a, b)) == Add(Mul(c, a), Mul(c, b))
  {
    hide Times, Add;
    TimesAdd(a, b, c, 8);
    Commutes(c, Add(a, b));
    Commutes(c, a);
    Commutes(c, b);
  }

  lemma ZeroTimes(c: Elem)
    ensures Mul(Zero(), c) == Zero() && Mul(c, Zero()) == Zero()
  {
    hide Times;
    TimesZero(c, 8);
    Commutes(c, Zero());
  }

  // ----- inverses -----

  function Square(a: Elem): Elem {
    Mul(a, a)
  }

  lemma SquareAdd(a: Elem, b: Elem)
    ensures Square(Add(a, b)) == Add(Square(a), Square(b))
  {
    hide Mul, Add;
    Distributes(a, b, Add(a, b));
    Distributes(a, b, a);
    Distributes(a, b, b);
    Commutes(a, b);
    AddSwap(Square(a), Mul(a, b), Mul(a, b), Square(b));
    AddLaws(Mul(a, b), Mul(a, b), Mul(a, b));
    AddLaws(Add(Square(a), Square(b)), Zero(), Zero());
    AddSwap(Square(a), Mul(a, b), Square(b), Mul(a, b));
    AddLaws(Mul(a, b), Square(b), Zero());
  }

  lemma SquareMul(a: Elem, b: Elem)
    ensures Square(Mul(a, b)) == Mul(Square(a), Square(b))
  {
    hide Mul;
    Associates(a, b, Mul(a, b));
    Associates(b, a, b);
    Commutes(b, a);
    Associates(a, b, b);
    Associates(a, a, Square(b));
  }

  /** a^(2^n). */
  function Power2(a: Elem, n: nat): Elem {
    if n == 0 then a else Square(Power2(a, n - 1))
  }

  lemma {:induction false} Power2Laws(a: Elem, b: Elem, n: nat)
    ensures Power2(Add(a, b), n) == Add(Power2(a, n), Power2(b, n))
    ensures Power2(Mul(a, b), n) == Mul(Power2(a, n), Power2(b, n))
    decreases n
  {
    hide Mul, Add, Square;
    if n != 0 {
      Power2Laws(a, b, n - 1);
      SquareAdd(Power2(a, n - 1), Power2(b, n - 1));
      SquareMul(Power2(a, n - 1), Power2(b, n - 1));
    }
  }

  lemma DoubleIsMul(a: Elem)
    ensures Mul(a, X()) == Double(a)
  {
    hide Times, Double;
    DoubleTimes(a, One(), 8);
    Commutes(a, One());
    OneTimes(a);
    Commutes(a, X());
    DoubleOne();
    DoubleTimes(One(), a, 8);
  }

  lemma DoubleOne()
    ensures Double(One()) == X()
  {
  }

  function Doubled(a: Elem, i: nat): Elem {
    if i == 0 then a else Double(Doubled(a, i - 1))
  }

  lemma {:induction false} UnitMul(a: Elem, i: nat)
    requires i < 8
    ensures Mul(a, Unit(i)) == Doubled(a, i)
    decreases i
  {
    hide Mul, Double, Unit;
    if i == 0 {
      Nothing(a);
      Commutes(a, One());
      OneTimes(a);
    } else {
      UnitMul(a, i - 1);
      NextUnit(i - 1);
      DoubleIsMul(Unit(i - 1));
      Associates(a, Unit(i - 1), X());
      DoubleIsMul(Mul(a, Unit(i - 1)));
    }
  }

  /** The square of an element, from the squares of 1, x, ..., x^7. */
  function SquareSum(e: Elem): Elem {
    Add(If(e.b0, Elem(1, 0, 0, 0, 0, 0, 0, 0)),
    Add(If(e.b1, Elem(0, 0, 1, 0, 0, 0, 0, 0)),
    Add(If(e.b2, Elem(0, 0, 0, 0, 1, 0, 0, 0)),
    Add(If(e.b3, Elem(0, 0, 0, 0, 0, 0, 1, 0)),
    Add(If(e.b4, Elem(1, 0, 1, 1, 1, 0, 0, 0)),
    Add(If(e.b5, Elem(0, 0, 1, 0, 1, 1, 1, 0)),
    Add(If(e.b6, Elem(1, 0, 1, 1, 0, 0, 1, 1)),
    If(e.b7, Elem(1, 1, 0, 0, 1, 0, 0, 0)))))))))
  }

  lemma SquareFrom(e: Elem, i: nat)
    requires i < 8
    ensures Square(From(e, i)) == Add(If(Shifted(e, i).b0, Square(Unit(i))), Square(From(e, i + 1)))
  {
    hide Mul, Add, From, Unit, Half, Shifted;
    AddBit(e, i);
    SquareAdd(If(Shifted(e, i).b0, Unit(i)), From(e, i + 1));
    ZeroTimes(Zero());
  }

  lemma UnitSquares()
    ensures Square(Unit(0)) == Elem(1, 0, 0, 0, 0, 0, 0, 0)
    ensures Square(Unit(1)) == Elem(0, 0, 1, 0, 0, 0, 0, 0)
    ensures Square(Unit(2)) == Elem(0, 0, 0, 0, 1, 0, 0, 0)
    ensures Square(Unit(3)) == Elem(0, 0, 0, 0, 0, 0, 1, 0)
    ensures Square(Unit(4)) == Elem(1, 0, 1, 1, 1, 0, 0, 0)
    ensures Square(Unit(5)) == Elem(0, 0, 1, 0, 1, 1, 1, 0)
    ensures Square(Unit(6)) == Elem(1, 0, 1, 1, 0, 0, 1, 1)
    ensures Square(Unit(7)) == Elem(1, 1, 0, 0, 1, 0, 0, 0)
  {
    hide Mul;
    UnitMul(Unit(0), 0);
    UnitMul(Unit(1), 1);
    UnitMul(Unit(2), 2);
    UnitMul(Unit(3), 3);
    UnitMul(Unit(4), 4);
    UnitMul(Unit(5), 5);
    UnitMul(Unit(6), 6);
    UnitMul(Unit(7), 7);
    assert Doubled(Unit(3), 2) == Elem(0, 0, 0, 0, 0, 1, 0, 0);
    assert Doubled(Unit(4), 2) == Elem(0, 0, 0, 0, 0, 0, 1, 0);
    assert Doubled(Unit(5), 2) == Elem(0, 0, 0, 0, 0, 0, 0, 1);
    assert Doubled(Unit(5), 4) == Elem(0, 1, 0, 1, 1, 1, 0, 0);
    assert Doubled(Unit(6), 2) == Elem(1, 0, 1, 1, 1, 0, 0, 0);
    assert Doubled(Unit(6), 4) == Elem(0, 0, 1, 0, 1, 1, 1, 0);
    assert Doubled(Unit(7), 2) == Elem(0, 1, 0, 1, 1, 1, 0, 0);
    assert Doubled(Unit(7), 4) == Elem(0, 0, 0, 1, 0, 1, 1, 1);
    assert Doubled(Unit(7), 6) == Elem(1, 1, 1, 0, 0, 0, 0, 1);
  }

  lemma SquareIsSum(e: Elem)
    ensures Square(e) == SquareSum(e)
  {
    hide Square, Add, From, Unit, If;
    Nothing(e);
    UnitSquares();
    ShiftedBits(e);
    SquareFrom(e, 0);
    SquareFrom(e, 1);
    SquareFrom(e, 2);
    SquareFrom(e, 3);
    SquareFrom(e, 4);
    SquareFrom(e, 5);
    SquareFrom(e, 6);
    SquareFrom(e, 7);
    SquareZero();
    AddLaws(If(e.b7, Square(Unit(7))), Zero(), Zero());
  }

  lemma SquareZero()
    ensures Square(Zero()) == Zero()
  {
    hide Mul;
    ZeroTimes(Zero());
  }

  lemma ShiftedBits(e: Elem)
    ensures Shifted(e, 0).b0 == e.b0
    ensures Shifted(e, 1).b0 == e.b1
    ensures Shifted(e, 2).b0 == e.b2
    ensures Shifted(e, 3).b0 == e.b3
    ensures Shifted(e, 4).b0 == e.b4
    ensures Shifted(e, 5).b0 == e.b5
    ensures Shifted(e, 6).b0 == e.b6
    ensures Shifted(e, 7).b0 == e.b7
  {
    assert Shifted(e, 1) == Half(Shifted(e, 0));
    assert Shifted(e, 2) == Half(Shifted(e, 1));
    assert Shifted(e, 3) == Half(Shifted(e, 2));
    assert Shifted(e, 4) == Half(Shifted(e, 3));
    assert Shifted(e, 5) == Half(Shifted(e, 4));
    assert Shifted(e, 6) == Half(Shifted(e, 5));
    assert Shifted(e, 7) == Half(Shifted(e, 6));
  }

  /** The squares of x, eight times over, come back to x. */
  lemma SquaresOfX()
    ensures Power2(X(), 8) == X()
  {
    hide Square;
    SquareIsSum(Elem(0, 1, 0, 0, 0, 0, 0, 0));
    SquareIsSum(Elem(0, 0, 1, 0, 0, 0, 0, 0));
    SquareIsSum(Elem(0, 0, 0, 0, 1, 0, 0, 0));
    SquareIsSum(Elem(1, 0, 1, 1, 1, 0, 0, 0));
    SquareIsSum(Elem(0, 0, 1, 1, 0, 0, 1, 0));
    SquareIsSum(Elem(1, 0, 1, 1, 1, 0, 0, 1));
    SquareIsSum(Elem(1, 1, 1, 1, 1, 0, 1, 0));
    SquareIsSum(Elem(1, 0, 1, 0, 0, 0, 0, 1));
    assert Power2(X(), 1) == Elem(0, 0, 1, 0, 0, 0, 0, 0);
    assert Power2(X(), 2) == Elem(0, 0, 0, 0, 1, 0, 0, 0);
    assert Power2(X(), 3) == Elem(1, 0, 1, 1, 1, 0, 0, 0);
    assert Power2(X(), 4) == Elem(0, 0, 1, 1, 0, 0, 1, 0);
    assert Power2(X(), 5) == Elem(1, 0, 1, 1, 1, 0, 0, 1);
    assert Power2(X(), 6) == Elem(1, 1, 1, 1, 1, 0, 1, 0);
    assert Power2(X(), 7) == Elem(1, 0, 1, 0, 0, 0, 0, 1);
    assert Power2(X(), 8) == Elem(0, 1, 0, 0, 0, 0, 0, 0);
  }

  lemma {:induction false} Fixed(a: Elem, b: Elem, n: nat)
    requires Power2(a, 8) == a
    ensures Power2(Times(a, b, n), 8) == Times(a, b, n)
    decreases n
  {
    hide Mul, Add, Double, Half, Power2;
    FixedZero();
    if n != 0 {
      SquaresOfX();
      DoubleIsMul(a);
      Power2Laws(a, X(), 8);
      Fixed(Double(a), Half(b), n - 1);
      Power2Laws(If(b.b0, a), Times(Double(a), Half(b), n - 1), 8);
    }
  }

  lemma FixedZero()
    ensures Power2(Zero(), 8) == Zero() && Power2(One(), 8) == One()
  {
    hide Mul;
    ZeroTimes(Zero());
    OneTimes(One());
    Power2Of(Zero(), 8);
    Power2Of(One(), 8);
  }

  lemma {:induction false} Power2Of(a: Elem, n: nat)
    requires Square(a) == a
    ensures Power2(a, n) == a
  {
    hide Square;
    if n != 0 { Power2Of(a, n - 1); }
  }

  /** a^256 = a. */
  lemma Frobenius(a: Elem)
    ensures Power2(a, 8) == a
  {
    hide Times, Power2;
    FixedZero();
    Fixed(One(), a, 8);
    OneTimes(a);
  }

  /** a^(2^n - 1). */
  function Below2(a: Elem, n: nat): Elem {
    if n == 0 then One() else Mul(Below2(a, n - 1), Power2(a, n - 1))
  }

  lemma {:induction false} Below2Times(a: Elem, n: nat)
    ensures Mul(a, Below2(a, n)) == Power2(a, n)
    decreases n
  {
    hide Mul;
    if n == 0 {
      OneTimes(a);
      Commutes(a, One());
    } else {
      Below2Times(a, n - 1);
      Associates(a, Below2(a, n - 1), Power2(a, n - 1));
    }
  }

  /** Only zero and one are their own squares. */
  lemma OwnSquare(e: Elem)
    requires Square(e) == e
    ensures e == Zero() || e == One()
  {
    hide Square;
    SquareIsSum(e);
  }

  /** a^254. */
  function Inv(a: Elem): Elem {
    Square(Below2(a, 7))
  }

  lemma Inverse(a: Elem)
    requires a != Zero()
    ensures Mul(a, Inv(a)) == One()
  {
    hide Mul, Power2, Below2;
    var p, e := Below2(a, 7), Below2(a, 8);
    assert e == Mul(p, Power2(a, 7)) by { NextBelow2(a); }
    Below2Times(a, 7);
    Associates(p, a, p);
    Commutes(p, a);
    Associates(a, p, p);
    assert e == Mul(a, Inv(a));
    Below2Times(a, 8);
    Frobenius(a);
    Associates(a, Inv(a), e);
    Commutes(Inv(a), e);
    Associates(a, e, Inv(a));
    assert Square(e) == e;
    ZeroTimes(a);
    OwnSquare(e);
  }

  lemma NextBelow2(a: Elem)
    ensures Below2(a, 8) == Mul(Below2(a, 7), Power2(a, 7))
  {
  }
}
