/** The field of 1024 elements, in which the generator of the Bech32 code has its roots. An element
    is a polynomial in e of degree below ten, with e^10 = e^9 + e^5 + e^2 + 1. */
module Gf1024 {
  import Numbers

  type Elem = bv10

  function Add(a: Elem, b: Elem): Elem { a ^ b }

  /** Multiplication by e. */
  function Times(a: Elem): Elem { Add(Double(a), Pick(High(a), 0x225)) }

  function Double(a: Elem): Elem { a << 1 }
  predicate High(a: Elem) { a & 0x200 != 0 }

  function Half(b: Elem): Elem { b >> 1 }
  predicate Odd(b: Elem) { b & 1 != 0 }
  function Pick(p: bool, a: Elem): Elem { if p then a else 0 }

  /** a times the lower n bits of b. */
  function MulN(a: Elem, b: Elem, n: nat): Elem {
    if n == 0 then 0 else Add(Times(MulN(a, Half(b), n - 1)), Pick(Odd(b), a))
  }

  function Mul(a: Elem, b: Elem): Elem { MulN(a, b, 10) }

  /** Only the lower n bits are set. */
  predicate Small(b: Elem, n: nat) { if n == 0 then b == 0 else Small(Half(b), n - 1) }

  // ---- addition ----

  lemma AddZero(a: Elem)
    ensures Add(a, 0) == a && Add(0, a) == a && Add(a, a) == 0
  {
  }

  lemma AddCommutes(a: Elem, b: Elem)
    ensures Add(a, b) == Add(b, a)
  {
  }

  lemma AddAssoc(a: Elem, b: Elem, c: Elem)
    ensures Add(Add(a, b), c) == Add(a, Add(b, c))
  {
  }

  lemma AddSwap(a: Elem, b: Elem, c: Elem, d: Elem)
    ensures Add(Add(a, b), Add(c, d)) == Add(Add(a, c), Add(b, d))
  {
    hide Add;
    AddAssoc(a, b, Add(c, d));
    AddAssoc(b, c, d);
    AddCommutes(b, c);
    AddAssoc(c, b, d);
    AddAssoc(a, c, Add(b, d));
  }

  lemma AddEqual(a: Elem, b: Elem)
    requires Add(a, b) == 0
    ensures a == b
  {
  }

  lemma TimesAdd(a: Elem, b: Elem)
    ensures Times(Add(a, b)) == Add(Times(a), Times(b))
  {
    HighAdd(a, b);
    hide Add; hide Double; hide High;
    AddSwap(Double(a), Pick(High(a), 0x225), Double(b), Pick(High(b), 0x225));
    AddZero(0x225);
    AddZero(0);
  }

  lemma HighAdd(a: Elem, b: Elem)
    ensures Double(Add(a, b)) == Add(Double(a), Double(b)) && (High(Add(a, b)) <==> High(a) != High(b))
  {
  }

  lemma HalfAdd(a: Elem, b: Elem)
    ensures Half(Add(a, b)) == Add(Half(a), Half(b)) && (Odd(Add(a, b)) <==> Odd(a) != Odd(b))
  {
  }

  lemma Split(a: Elem)
    ensures a == Add(Times(Half(a)), Pick(Odd(a), 1))
  {
  }

  lemma AllSmall(a: Elem)
    ensures Small(a, 10)
  {
    var b := Half(Half(Half(Half(Half(a)))));
    FiveHalves(a);
    assert Small(b, 5) by { assert Small(Half(Half(Half(b))), 2); }
    assert Small(Half(Half(Half(a))), 7);
  }

  lemma FiveHalves(a: Elem)
    ensures var b := Half(Half(Half(Half(Half(a))))); Half(Half(Half(Half(Half(b))))) == 0
  {
  }

  // ---- multiplication ----

  lemma {:induction false} MulAddLeft(a: Elem, a': Elem, b: Elem, n: nat)
    ensures MulN(Add(a, a'), b, n) == Add(MulN(a, b, n), MulN(a', b, n))
    decreases n
  {
    hide Add; hide Times; hide Half; hide Odd;
    if n == 0 {
      AddZero(0);
    } else {
      MulAddLeft(a, a', Half(b), n - 1);
      var x, y := MulN(a, Half(b), n - 1), MulN(a', Half(b), n - 1);
      TimesAdd(x, y);
      AddSwap(Times(x), Pick(Odd(b), a), Times(y), Pick(Odd(b), a'));
      AddZero(0);
    }
  }

  lemma {:induction false} MulAddRight(a: Elem, b: Elem, b': Elem, n: nat)
    ensures MulN(a, Add(b, b'), n) == Add(MulN(a, b, n), MulN(a, b', n))
    decreases n
  {
    hide Add; hide Times; hide Half; hide Odd;
    if n == 0 {
      AddZero(0);
    } else {
      HalfAdd(b, b');
      MulAddRight(a, Half(b), Half(b'), n - 1);
      var x, y := MulN(a, Half(b), n - 1), MulN(a, Half(b'), n - 1);
      TimesAdd(x, y);
      AddSwap(Times(x), Pick(Odd(b), a), Times(y), Pick(Odd(b'), a));
      AddZero(a);
      AddZero(0);
    }
  }

  lemma TimesZero()
    ensures Times(0) == 0 && Half(0) == 0 && !Odd(0) && Times(1) == 2
  {
  }

  lemma {:induction false} MulZero(a: Elem, n: nat)
    ensures MulN(0, a, n) == 0 && MulN(a, 0, n) == 0
    decreases n
  {
    hide Add; hide Times; hide Half; hide Odd;
    TimesZero();
    AddZero(0);
    if n > 0 {
      MulZero(Half(a), n - 1);
      MulZero(a, n - 1);
    }
  }

  lemma {:induction false} MulTimes(a: Elem, b: Elem, n: nat)
    ensures MulN(Times(a), b, n) == Times(MulN(a, b, n))
    decreases n
  {
    hide Add; hide Times; hide Half; hide Odd;
    TimesZero();
    if n > 0 {
      MulTimes(a, Half(b), n - 1);
      TimesAdd(Times(MulN(a, Half(b), n - 1)), Pick(Odd(b), a));
    }
  }

  lemma {:induction false} OneTimes(b: Elem, n: nat)
    requires Small(b, n)
    ensures MulN(1, b, n) == b
    decreases n
  {
    hide Add; hide Times; hide Half; hide Odd;
    if n > 0 {
      OneTimes(Half(b), n - 1);
      Split(b);
    }
  }

  lemma One(a: Elem)
    ensures Mul(1, a) == a && Mul(a, 1) == a
  {
    AllSmall(a);
    OneTimes(a, 10);
    MulCommutes(a, 1);
  }

  lemma {:induction false} MulTurned(a: Elem, b: Elem, n: nat)
    requires Small(a, n)
    ensures MulN(b, a, n) == Mul(a, b)
    decreases n
  {
    hide Add; hide Times; hide Half; hide Odd;
    if n == 0 {
      MulZero(b, 10);
    } else {
      MulTurned(Half(a), b, n - 1);
      Split(a);
      MulAddLeft(Times(Half(a)), Pick(Odd(a), 1), b, 10);
      MulTimes(Half(a), b, 10);
      MulZero(b, 10);
      AllSmall(b);
      OneTimes(b, 10);
    }
  }

  lemma MulCommutes(a: Elem, b: Elem)
    ensures Mul(a, b) == Mul(b, a)
  {
    AllSmall(a);
    MulTurned(a, b, 10);
  }

  lemma TimesRight(a: Elem, b: Elem)
    ensures Mul(a, Times(b)) == Times(Mul(a, b))
  {
    MulCommutes(a, Times(b));
    MulTimes(b, a, 10);
    MulCommutes(a, b);
  }

  lemma {:induction false} MulAssocN(a: Elem, b: Elem, c: Elem, n: nat)
    ensures MulN(Mul(a, b), c, n) == Mul(a, MulN(b, c, n))
    decreases n
  {
    hide Add; hide Times; hide Half; hide Odd;
    if n == 0 {
      MulZero(a, 10);
    } else {
      MulAssocN(a, b, Half(c), n - 1);
      var x := MulN(b, Half(c), n - 1);
      MulAddRight(a, Times(x), Pick(Odd(c), b), 10);
      TimesRight(a, x);
      MulZero(a, 10);
    }
  }

  lemma MulAssoc(a: Elem, b: Elem, c: Elem)
    ensures Mul(Mul(a, b), c) == Mul(a, Mul(b, c))
  {
    MulAssocN(a, b, c, 10);
  }

  // ---- squares ----

  function Sq(a: Elem): Elem { Mul(a, a) }

  lemma SqAdd(a: Elem, b: Elem)
    ensures Sq(Add(a, b)) == Add(Sq(a), Sq(b))
  {
    MulAddLeft(a, b, Add(a, b), 10);
    MulAddRight(a, a, b, 10);
    MulAddRight(b, a, b, 10);
    MulCommutes(a, b);
    hide Add; hide Mul;
    AddSwap(Mul(a, a), Mul(a, b), Mul(a, b), Mul(b, b));
    AddCommutes(Mul(a, b), Mul(b, b));
    AddSwap(Mul(a, a), Mul(a, b), Mul(b, b), Mul(a, b));
    AddZero(Mul(a, b));
    AddZero(Add(Mul(a, a), Mul(b, b)));
  }

  function Part(a: Elem, bit: Elem, k: Elem): Elem { if a & bit != 0 then k else 0 }

  /** Squaring is linear: what it makes of the ten powers of e. */
  function Square(a: Elem): Elem {
    Part(a, 0x1, 0x1) ^ Part(a, 0x2, 0x4) ^ Part(a, 0x4, 0x10) ^ Part(a, 0x8, 0x40) ^ Part(a, 0x10, 0x100)
    ^ Part(a, 0x20, 0x225) ^ Part(a, 0x40, 0x2fb) ^ Part(a, 0x80, 0x183) ^ Part(a, 0x100, 0x29) ^ Part(a, 0x200, 0xa4)
  }

  lemma SquareSplit(a: Elem)
    ensures Square(a) == Add(Times(Times(Square(Half(a)))), Pick(Odd(a), 1)) && Square(0) == 0
  {
  }

  lemma {:induction false} SquareIs(a: Elem, n: nat)
    requires Small(a, n)
    ensures Sq(a) == Square(a)
    decreases n
  {
    hide Add; hide Times; hide Half; hide Odd; hide MulN; hide Square;
    SquareSplit(a);
    if n == 0 {
      MulZero(0, 10);
    } else {
      var h := Half(a);
      SquareIs(h, n - 1);
      Split(a);
      SqAdd(Times(h), Pick(Odd(a), 1));
      MulTimes(h, Times(h), 10);
      TimesRight(h, h);
      One(1);
      MulZero(0, 10);
    }
  }

  lemma SqIs(a: Elem)
    ensures Sq(a) == Square(a)
  {
    AllSmall(a);
    SquareIs(a, 10);
  }

  lemma FixedSquare(a: Elem)
    requires Square(a) == a
    ensures a == 0 || a == 1
  {
  }

  /** Only zero and one are their own squares. */
  lemma Fixed(a: Elem)
    requires Sq(a) == a
    ensures a == 0 || a == 1
  {
    SqIs(a);
    FixedSquare(a);
  }

  lemma SqMul(a: Elem, b: Elem)
    ensures Sq(Mul(a, b)) == Mul(Sq(a), Sq(b))
  {
    hide Mul;
    MulAssoc(a, b, Mul(a, b));
    MulCommutes(a, b);
    MulAssoc(b, b, a);
    MulCommutes(Mul(b, b), a);
    MulAssoc(a, a, Mul(b, b));
  }

  /** The square, k times over. */
  function Frob(a: Elem, k: nat): Elem { if k == 0 then a else Sq(Frob(a, k - 1)) }

  lemma {:induction false} FrobAdd(a: Elem, b: Elem, k: nat)
    ensures Frob(Add(a, b), k) == Add(Frob(a, k), Frob(b, k))
    decreases k
  {
    hide Add; hide Sq;
    if k > 0 {
      FrobAdd(a, b, k - 1);
      SqAdd(Frob(a, k - 1), Frob(b, k - 1));
    }
  }

  lemma {:induction false} FrobMul(a: Elem, b: Elem, k: nat)
    ensures Frob(Mul(a, b), k) == Mul(Frob(a, k), Frob(b, k))
    decreases k
  {
    hide Mul; hide Sq;
    if k > 0 {
      FrobMul(a, b, k - 1);
      SqMul(Frob(a, k - 1), Frob(b, k - 1));
    }
  }

  lemma TimesIsMul(a: Elem)
    ensures Times(a) == Mul(2, a)
  {
    hide MulN; hide Times;
    TimesZero();
    MulTimes(1, a, 10);
    One(a);
  }

  lemma Squares()
    ensures Sq(0) == 0 && Sq(1) == 1 && Sq(0x2) == 0x4 && Sq(0x4) == 0x10 && Sq(0x10) == 0x100
    ensures Sq(0x100) == 0x29 && Sq(0x29) == 0x264 && Sq(0x264) == 0x6a
    ensures Sq(0x6a) == 0x9a && Sq(0x9a) == 0xc7 && Sq(0xc7) == 0x36d && Sq(0x36d) == 0x2
  {
    hide Sq;
    SqIs(0); SqIs(1); SqIs(0x2); SqIs(0x4); SqIs(0x10); SqIs(0x100);
    SqIs(0x29); SqIs(0x264); SqIs(0x6a); SqIs(0x9a); SqIs(0xc7); SqIs(0x36d);
  }

  lemma FrobOfE()
    ensures Frob(0, 10) == 0 && Frob(1, 10) == 1 && Frob(2, 10) == 2
  {
    hide Sq;
    Squares();
    assert Frob(2, 5) == 0x264;
  }

  /** Every element is its own 1024th power. */
  lemma {:induction false} FrobBack(a: Elem, n: nat)
    requires Small(a, n)
    ensures Frob(a, 10) == a
    decreases n
  {
    hide Add; hide Times; hide Half; hide Odd; hide Mul; hide Sq;
    FrobOfE();
    hide Frob;
    if n > 0 {
      var h := Half(a);
      FrobBack(h, n - 1);
      Split(a);
      TimesIsMul(h);
      FrobMul(2, h, 10);
      FrobAdd(Times(h), Pick(Odd(a), 1), 10);
    }
  }

  // ---- powers ----

  function Pow(a: Elem, n: nat): Elem { if n == 0 then 1 else Mul(a, Pow(a, n - 1)) }

  lemma {:induction false} PowAdd(a: Elem, m: nat, n: nat)
    ensures Pow(a, m + n) == Mul(Pow(a, m), Pow(a, n))
    decreases m
  {
    hide Mul;
    if m == 0 {
      One(Pow(a, n));
    } else {
      PowAdd(a, m - 1, n);
      MulAssoc(a, Pow(a, m - 1), Pow(a, n));
    }
  }

  lemma PowTwice(a: Elem, m: nat)
    ensures Pow(a, 2 * m) == Sq(Pow(a, m))
  {
    PowAdd(a, m, m);
  }

  lemma Pow1024(a: Elem)
    ensures Pow(a, 1024) == a
  {
    hide Pow;
    AllSmall(a);
    FrobBack(a, 10);
    PowOne(a);
    PowFrob(a, 0, 1); PowFrob(a, 1, 2); PowFrob(a, 2, 4); PowFrob(a, 3, 8); PowFrob(a, 4, 16);
    PowFrob(a, 5, 32); PowFrob(a, 6, 64); PowFrob(a, 7, 128); PowFrob(a, 8, 256); PowFrob(a, 9, 512);
  }

  lemma PowFrob(a: Elem, k: nat, m: nat)
    ensures Pow(a, m) == Frob(a, k) ==> Pow(a, 2 * m) == Frob(a, k + 1)
  {
    PowTwice(a, m);
  }

  /** The 1023rd power of anything but zero is one. */
  lemma Pow1023(a: Elem)
    requires a != 0
    ensures Pow(a, 1023) == 1
  {
    hide Mul; hide Pow;
    var u := Pow(a, 1023);
    PowTwice(a, 1023);
    PowAdd(a, 1024, 1022);
    PowAdd(a, 1, 1022);
    PowAdd(a, 1, 1023);
    Pow1024(a);
    PowOne(a);
    Fixed(u);
    TimesNothing(a);
  }

  lemma PowOne(a: Elem)
    ensures Pow(a, 1) == a
  {
    hide Mul;
    One(a);
    assert Pow(a, 0) == 1;
  }

  lemma {:induction false} PowMul(a: Elem, b: Elem, n: nat)
    ensures Pow(Mul(a, b), n) == Mul(Pow(a, n), Pow(b, n))
    decreases n
  {
    hide Mul;
    if n == 0 {
      One(1);
    } else {
      PowMul(a, b, n - 1);
      MulSwap(a, b, Pow(a, n - 1), Pow(b, n - 1));
    }
  }

  lemma MulSwap(a: Elem, b: Elem, c: Elem, d: Elem)
    ensures Mul(Mul(a, b), Mul(c, d)) == Mul(Mul(a, c), Mul(b, d))
  {
    hide Mul;
    MulAssoc(a, b, Mul(c, d));
    MulAssoc(b, c, d);
    MulCommutes(b, c);
    MulAssoc(c, b, d);
    MulAssoc(a, c, Mul(b, d));
  }

  lemma {:induction false} PowNotZero(a: Elem, n: nat)
    requires a != 0
    ensures Pow(a, n) != 0
    decreases n
  {
    hide Mul;
    if n > 0 {
      PowNotZero(a, n - 1);
      if Mul(a, Pow(a, n - 1)) == 0 { NoZeroDivisors(a, Pow(a, n - 1)); }
    }
  }

  /** There are no zero divisors. */
  lemma NoZeroDivisors(a: Elem, b: Elem)
    requires Mul(a, b) == 0
    ensures a == 0 || b == 0
  {
    hide Mul; hide Pow;
    if a != 0 {
      Pow1023(a);
      PowAdd(a, 1, 1022);
      PowOne(a);
      MulCommutes(a, Pow(a, 1022));
      MulAssoc(Pow(a, 1022), a, b);
      One(b);
      assert Mul(Pow(a, 1022), 0) == 0 by { TimesNothing(Pow(a, 1022)); }
    }
  }

  lemma TimesNothing(a: Elem)
    ensures Mul(a, 0) == 0 && Mul(0, a) == 0
  {
    MulZero(a, 10);
  }

  // ---- the order of e ----

  predicate Period(n: nat) { Pow(2, n) == 1 }

  lemma PeriodLess(m: nat, n: nat)
    requires Period(m) && Period(m + n)
    ensures Period(n)
  {
    PowAdd(2, m, n);
    One(Pow(2, n));
  }

  /** What is left of a period after taking off another one as often as it goes. */
  lemma {:induction false} PeriodRest(n: nat, d: nat) returns (q: nat, r: nat)
    requires d > 0 && Period(d) && Period(n)
    ensures n == d * q + r && r < d && Period(r)
    decreases n
  {
    hide Period;
    if n < d {
      q, r := 0, n;
    } else {
      PeriodLess(d, n - d);
      q, r := PeriodRest(n - d, d);
      OneMore(d, q);
      q := q + 1;
    }
  }

  lemma OneMore(d: int, q: int)
    ensures d * (q + 1) == d * q + d
  {
  }

  lemma {:induction false} PeriodTimes(d: nat, k: nat)
    requires Period(d)
    ensures Period(d * k)
    decreases k
  {
    if k > 0 {
      PeriodTimes(d, k - 1);
      PowAdd(2, d, d * (k - 1));
      One(1);
      assert d + d * (k - 1) == d * k;
    } else {
      assert d * k == 0;
    }
  }

  /** The least period that is not zero divides every other. */
  lemma {:induction false} LeastPeriod(n: nat) returns (d: nat, k: nat)
    requires n > 0 && Period(n)
    ensures 0 < d <= n && Period(d) && n == d * k
    ensures forall m | 0 < m < d :: !Period(m)
    decreases n
  {
    hide Period;
    if m :| 0 < m < n && Period(m) {
      var k', r;
      d, k' := LeastPeriod(m);
      k, r := PeriodRest(n, d);
    } else {
      d, k := n, 1;
    }
  }

  lemma SmallFactors(d: nat)
    requires 0 < d <= 31 && 1023 % d == 0
    ensures d == 1 || d == 3 || d == 11 || d == 31
  {
    if d < 8 {
    } else if d < 16 {
    } else if d < 24 {
    }
  }

  lemma Divides(n: int, d: int, k: int)
    requires d > 0 && n == d * k
    ensures n % d == 0
  {
    Numbers.DivModUnique(n, d, k, 0);
  }

  lemma Large(d: int, k: int)
    requires d >= 32 && k >= 32
    ensures d * k >= 1024
  {
  }

  /** Whatever divides 1023 and is smaller divides 341, 93 or 33. */
  lemma Factors(d: nat, k: nat) returns (j: nat)
    requires 0 < d < 1023 && d * k == 1023
    ensures d * j == 341 || d * j == 93 || d * j == 33
  {
    Divides(1023, d, k);
    if d <= 31 {
      SmallFactors(d);
      j := if d == 31 then 3 else 33 / d;
    } else {
      assert k > 0;
      if k >= 32 { Large(d, k); }
      Divides(1023, k, d);
      SmallFactors(k);
      j := 1;
    }
  }

  lemma PowersOfE()
    ensures Pow(2, 4) == 0x10 && Pow(2, 2) == 0x4 && Pow(2, 16) == 0x29 && Pow(2, 32) == 0x264 && Pow(2, 64) == 0x6a
  {
    hide Pow; hide Sq;
    Squares();
    PowOne(2);
    PowTwice(2, 1); PowTwice(2, 2); PowTwice(2, 4); PowTwice(2, 8); PowTwice(2, 16); PowTwice(2, 32);
  }

  lemma TimesLiteral(a: Elem)
    ensures Mul(a, 2) == Times(a)
  {
    TimesIsMul(a);
    MulCommutes(a, 2);
  }

  lemma Product96()
    ensures Mul(0x6a, 0x264) == 0xed
  {
  }

  lemma Product80()
    ensures Mul(0x6a, 0x29) == 0x230
  {
  }

  lemma Product84()
    ensures Mul(0x230, 0x10) == 0xd3
  {
  }

  lemma Not33()
    ensures !Period(33)
  {
    hide Pow; hide Mul;
    PowersOfE();
    PowOne(2);
    PowAdd(2, 32, 1);
    TimesLiteral(0x264);
  }

  lemma Not93()
    ensures !Period(93)
  {
    hide Pow; hide Mul;
    PowersOfE();
    PowOne(2);
    PowAdd(2, 64, 32);
    Product96();
    PowAdd(2, 93, 3);
    PowAdd(2, 2, 1);
    TimesLiteral(4);
    One(Pow(2, 3));
  }

  lemma Not341()
    ensures !Period(341)
  {
    hide Pow; hide Mul; hide Sq;
    PowersOfE();
    PowOne(2);
    PowAdd(2, 64, 16);
    Product80();
    PowAdd(2, 80, 4);
    Product84();
    PowAdd(2, 84, 1);
    TimesLiteral(0xd3);
    PowTwice(2, 85);
    PowTwice(2, 170);
    SqIs(0x1a6);
    SqIs(0x39b);
    PowAdd(2, 340, 1);
    TimesLiteral(0x4b);
  }

  /** No smaller power of e than the 1023rd is one. */
  lemma Order(m: nat)
    requires 0 < m < 1023
    ensures Pow(2, m) != 1
  {
    hide Pow;
    if Pow(2, m) == 1 {
      Pow1023(2);
      var d, k := LeastPeriod(m);
      var q, r := PeriodRest(1023, d);
      var j := Factors(d, q);
      PeriodTimes(d, j);
      Not33();
      Not93();
      Not341();
    }
  }

  /** Three equations in three unknowns that have no solution but zero. */
  lemma Vandermonde(a: Elem, b: Elem, d: Elem, x: Elem, y: Elem)
    requires x != y && x != 1 && y != 1
    requires Add(Add(a, b), d) == 0 && Add(Add(Mul(a, x), Mul(b, y)), d) == 0
    requires Add(Add(Mul(Mul(a, x), x), Mul(Mul(b, y), y)), d) == 0
    ensures a == 0 && b == 0 && d == 0
  {
    hide Mul;
    var u, v := Mul(a, Add(x, 1)), Mul(b, Add(y, 1));
    Less(a, x);
    Less(b, y);
    Less(Mul(a, x), x);
    Less(Mul(b, y), y);
    Sums(a, b, d, Mul(a, x), Mul(b, y), Mul(Mul(a, x), x), Mul(Mul(b, y), y));
    Turn(a, x);
    Turn(b, y);
    assert u == v && Mul(u, x) == Mul(v, y);
    assert Mul(v, Add(x, y)) == 0 by { MulAddRightOnce(v, x, y); AddZero(Mul(v, x)); }
    if v != 0 { Nothing(v, x, y); }
    Factor(b, y);
    Factor(a, x);
    AddZero(0);
    AddZero(d);
  }

  lemma MulAddRightOnce(a: Elem, b: Elem, c: Elem)
    ensures Mul(a, Add(b, c)) == Add(Mul(a, b), Mul(a, c))
  {
    MulAddRight(a, b, c, 10);
  }

  /** a (x + 1) */
  lemma Less(a: Elem, x: Elem)
    ensures Mul(a, Add(x, 1)) == Add(Mul(a, x), a)
  {
    MulAddRightOnce(a, x, 1);
    One(a);
  }

  /** a x (x + 1) is a (x + 1) x. */
  lemma Turn(a: Elem, x: Elem)
    ensures Mul(Mul(a, x), Add(x, 1)) == Mul(Mul(a, Add(x, 1)), x)
  {
    hide Mul;
    MulAssoc(a, x, Add(x, 1));
    MulCommutes(x, Add(x, 1));
    MulAssoc(a, Add(x, 1), x);
  }

  lemma Sums(a: Elem, b: Elem, d: Elem, a1: Elem, b1: Elem, a2: Elem, b2: Elem)
    requires Add(Add(a, b), d) == 0 && Add(Add(a1, b1), d) == 0 && Add(Add(a2, b2), d) == 0
    ensures Add(a1, a) == Add(b1, b) && Add(a2, a1) == Add(b2, b1)
  {
  }

  lemma Nothing(v: Elem, x: Elem, y: Elem)
    requires v != 0 && x != y
    ensures Mul(v, Add(x, y)) != 0
  {
    if Mul(v, Add(x, y)) == 0 {
      NoZeroDivisors(v, Add(x, y));
      AddEqual(x, y);
    }
  }

  lemma Factor(a: Elem, x: Elem)
    requires x != 1
    ensures Mul(a, Add(x, 1)) == 0 ==> a == 0
  {
    if a != 0 { Nothing(a, x, 1); }
  }
}
