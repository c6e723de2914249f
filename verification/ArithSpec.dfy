/** Numbers as sequences of 32-bit limbs, the least significant first, and the arithmetic facts that
    the limb-wise operations rest on. */
module ArithSpec {
  import opened Numbers

  const BASE := 0x1_0000_0000
  const WIDTH: nat := 8

  type Limb = x: int | 0 <= x < BASE
  type U64 = x: int | 0 <= x < 0x1_0000_0000_0000_0000

  // ---- powers ----

  /** The weight of limb n. */
  function Pow(n: nat): (p: nat)
    ensures p > 0
  {
    if n == 0 then 1 else BASE * Pow(n - 1)
  }

  lemma {:induction false} Pow2Add(m: nat, n: nat)
    ensures Pow2(m + n) == Pow2(m) * Pow2(n)
  {
    if m > 0 {
      Pow2Add(m - 1, n);
      Assoc(2, Pow2(m - 1), Pow2(n));
    }
  }

  lemma {:induction false} PowAdd(m: nat, n: nat)
    ensures Pow(m + n) == Pow(m) * Pow(n)
  {
    if m > 0 {
      PowAdd(m - 1, n);
      Assoc(BASE, Pow(m - 1), Pow(n));
    }
  }

  lemma Pow2Base()
    ensures Pow2(32) == BASE
  {
    assert Pow2(8) == 256;
    Pow2Add(8, 8);
    Pow2Add(16, 16);
  }

  lemma {:induction false} PowIsPow2(n: nat)
    ensures Pow(n) == Pow2(32 * n)
  {
    if n > 0 {
      PowIsPow2(n - 1);
      Pow2Base();
      Pow2Add(32, 32 * (n - 1));
    }
  }

  lemma {:induction false} Pow2Mono(m: nat, n: nat)
    requires m <= n
    ensures Pow2(m) <= Pow2(n)
  {
    if m < n {
      Pow2Mono(m, n - 1);
    }
  }

  // ---- plain arithmetic ----

  lemma DivMod(x: int, d: int)
    requires d > 0
    ensures x == x / d * d + x % d && 0 <= x % d < d
  {
  }

  lemma DivBound(x: nat, d: nat)
    requires d > 0
    ensures 0 <= x / d <= x
  {
    var q := x / d;
    DivMod(x, d);
    if q < 0 { MulMono(q, -1, d); } else { MulMono(1, d, q); }
  }

  /** Adding a multiple of the modulus changes nothing. */
  lemma ModAdd(x: int, k: int, m: int)
    requires m > 0
    ensures (x + k * m) % m == x % m
  {
    DivMod(x, m);
    Dist(x / m, k, m);
    DivModUnique(x + k * m, m, x / m + k, x % m);
  }

  lemma DivDiv(x: nat, a: nat, b: nat)
    requires a > 0 && b > 0
    ensures a * b > 0 && x / a / b == x / (a * b)
  {
    var q, r := x / a, x % a;
    var q2, r2 := q / b, q % b;
    DivMod(x, a);
    DivMod(q, b);
    assert x == (q2 * b + r2) * a + r;
    Dist(q2 * b, r2, a);
    Assoc(q2, b, a);
    assert x == q2 * (a * b) + (r2 * a + r);
    MulMono(r2, b - 1, a);
    Dist(b, -1, a);
    MulMono(1, a, b);
    DivModUnique(x, a * b, q2, r2 * a + r);
  }

  // ---- values ----

  function Val(s: seq<Limb>): nat
    decreases |s|
  {
    if s == [] then 0 else Val(s[..|s| - 1]) + s[|s| - 1] * Pow(|s| - 1)
  }

  lemma ValPush(s: seq<Limb>, x: Limb)
    ensures Val(s + [x]) == Val(s) + x * Pow(|s|)
  {
    assert (s + [x])[..|s|] == s;
  }

  lemma ValTake(s: seq<Limb>, n: nat)
    requires n < |s|
    ensures Val(s[..n + 1]) == Val(s[..n]) + s[n] * Pow(n)
  {
    assert s[..n + 1] == s[..n] + [s[n]];
    ValPush(s[..n], s[n]);
  }

  lemma {:induction false} ValBound(s: seq<Limb>)
    ensures Val(s) < Pow(|s|)
    decreases |s|
  {
    if s != [] {
      var n := |s| - 1;
      ValBound(s[..n]);
      MulMono(s[n], BASE - 1, Pow(n));
      Dist(BASE, -1, Pow(n));
    }
  }

  /** The value of a number is that of its lower part and, scaled, that of its upper part. */
  lemma {:induction false} ValSplit(s: seq<Limb>, n: nat)
    requires n <= |s|
    ensures Val(s) == Val(s[..n]) + Val(s[n..]) * Pow(n)
    decreases |s|
  {
    if n < |s| {
      var m := |s| - 1;
      ValSplit(s[..m], n);
      assert s[..m][..n] == s[..n] && s[..m][n..] == s[n..][..m - n];
      PowAdd(m - n, n);
      Dist(Val(s[n..m]), s[m] * Pow(m - n), Pow(n));
      Assoc(s[m], Pow(m - n), Pow(n));
      assert s[n..][..m - n] == s[n..m];
    } else {
      assert s[..n] == s && s[n..] == [];
    }
  }

  lemma {:induction false} ValZero(s: seq<Limb>)
    requires forall i | 0 <= i < |s| :: s[i] == 0
    ensures Val(s) == 0
    decreases |s|
  {
    if s != [] {
      ValZero(s[..|s| - 1]);
    }
  }

  // ---- single limbs ----

  function Shl(x: Limb, s: nat): Limb { x * Pow2(s) % BASE }
  function Shr(x: Limb, s: nat): Limb { DivBound(x, Pow2(s)); x / Pow2(s) }

  /** Bitwise or. */
  function Or(a: nat, b: nat): nat {
    if a == 0 then b else if b == 0 then a else 2 * Or(a / 2, b / 2) + if a % 2 == 1 || b % 2 == 1 then 1 else 0
  }

  /** Where no bits are shared, or is addition. */
  lemma {:induction false} OrIsSum(a: nat, b: nat, k: nat)
    requires a < Pow2(k) && b % Pow2(k) == 0
    ensures Or(a, b) == a + b
    decreases k
  {
    if a > 0 && b > 0 {
      var p := Pow2(k - 1);
      DivMod(b, Pow2(k));
      var q := b / Pow2(k);
      Assoc(q, 2, p);
      Assoc(2, q, p);
      assert b == 2 * (q * p) && b / 2 == q * p;
      DivModUnique(b / 2, p, q, 0);
      OrIsSum(a / 2, b / 2, k - 1);
    }
  }

  // ---- the steps of the loops ----

  /** Limbs r and a carry are what adding the lower limbs of x and y comes to. */
  ghost predicate Sum(r: seq<Limb>, carry: int, x: seq<Limb>, y: seq<Limb>) {
    |r| <= |x| && |r| <= |y| && Val(r) + carry * Pow(|r|) == Val(x[..|r|]) + Val(y[..|r|])
  }

  lemma SumNone(x: seq<Limb>, y: seq<Limb>)
    ensures Sum([], 0, x, y)
  {
  }

  lemma SumNext(r: seq<Limb>, carry: int, x: seq<Limb>, y: seq<Limb>, n: int)
    requires Sum(r, carry, x, y) && |r| < |x| && |r| < |y| && n == carry + x[|r|] + y[|r|]
    ensures Sum(r + [n % BASE], n / BASE, x, y)
  {
    var i := |r|;
    AddStep(Val(r), carry, Pow(i), Val(x[..i]), Val(y[..i]), x[i], y[i], n);
    ValPush(r, n % BASE);
    ValTake(x, i);
    ValTake(y, i);
  }

  lemma SumEnd(r: seq<Limb>, carry: int, x: seq<Limb>, y: seq<Limb>)
    requires Sum(r, carry, x, y) && |r| == |x| == |y|
    ensures Val(r) == (Val(x) + Val(y)) % Pow(|r|)
  {
    hide Val; hide Pow;
    assert x[..|r|] == x && y[..|r|] == y;
    ValBound(r);
    DivModUnique(Val(x) + Val(y), Pow(|r|), carry, Val(r));
  }

  /** Limbs r and a carry are the lower limbs of x times b. */
  ghost predicate Product(r: seq<Limb>, carry: int, x: seq<Limb>, b: int) {
    |r| <= |x| && Val(r) + carry * Pow(|r|) == Val(x[..|r|]) * b
  }

  lemma ProductNext(r: seq<Limb>, carry: int, x: seq<Limb>, b: int, n: int)
    requires Product(r, carry, x, b) && |r| < |x| && n == carry + b * x[|r|]
    ensures Product(r + [n % BASE], n / BASE, x, b)
  {
    var i := |r|;
    MulStep(Val(r), carry, Pow(i), Val(x[..i]), b, x[i], n);
    ValPush(r, n % BASE);
    ValTake(x, i);
  }

  lemma ProductEnd(r: seq<Limb>, carry: int, x: seq<Limb>, b: int)
    requires Product(r, carry, x, b) && |r| == |x|
    ensures Val(r) == Val(x) * b % Pow(|r|)
  {
    hide Val; hide Pow;
    assert x[..|r|] == x;
    ValBound(r);
    DivModUnique(Val(x) * b, Pow(|r|), carry, Val(r));
  }

  /** Row j of a long multiplication: limbs r and a carry are the lower limbs of a plus x times those
      of b, shifted by j. */
  ghost predicate Row(r: seq<Limb>, carry: int, a: seq<Limb>, x: int, b: seq<Limb>, j: nat) {
    && j <= |r| <= |a| && |r| - j <= |b|
    && Val(r) + carry * Pow(|r|) == Val(a[..|r|]) + x * Val(b[..|r| - j]) * Pow(j)
  }

  lemma RowNext(r: seq<Limb>, carry: int, a: seq<Limb>, x: int, b: seq<Limb>, j: nat, n: int)
    requires Row(r, carry, a, x, b, j) && |r| < |a| && |r| - j < |b| && n == carry + a[|r|] + x * b[|r| - j]
    ensures Row(r + [n % BASE], n / BASE, a, x, b, j)
  {
    var i := |r| - j;
    PowAdd(j, i);
    RowStep(Val(r), carry, Pow(j), Pow(i), Val(a[..|r|]), a[|r|], x, Val(b[..i]), b[i], n);
    ValPush(r, n % BASE);
    ValTake(a, |r|);
    ValTake(b, i);
  }

  lemma SplitProduct(x: int, low: int, high: int, p: int, q: int)
    ensures x * (low + high * p) * q == x * low * q + x * high * (p * q)
  {
    assert x * (low + high * p) == x * low + x * (high * p);
    Dist(x * low, x * (high * p), q);
    Assoc(x, high, p);
    Assoc(x * high, p, q);
  }

  lemma RowSum(r: int, carry: int, a: int, x: int, vb: int, low: int, high: int, p: int, q: int, m: int)
    requires m == p * q && vb == low + high * p && r + carry * m == a + x * low * q
    ensures a + x * vb * q == (carry + x * high) * m + r
  {
    SplitProduct(x, low, high, p, q);
    Dist(carry, x * high, m);
  }

  lemma RowValue(r: seq<Limb>, carry: int, a: seq<Limb>, x: int, b: seq<Limb>, j: nat) returns (q: int)
    requires Row(r, carry, a, x, b, j) && |r| == |a| == |b|
    ensures Val(a) + x * Val(b) * Pow(j) == q * Pow(|a|) + Val(r)
  {
    hide Val; hide Pow;
    var n := |a| - j;
    assert a[..|r|] == a;
    ValSplit(b, n);
    PowAdd(n, j);
    var high := Val(b[n..]);
    RowSum(Val(r), carry, Val(a), x, Val(b), Val(b[..n]), high, Pow(n), Pow(j), Pow(|a|));
    q := carry + x * high;
  }

  /** A finished row has added x times all of b, as far as the width goes. */
  lemma RowEnd(r: seq<Limb>, carry: int, a: seq<Limb>, x: int, b: seq<Limb>, j: nat)
    requires Row(r, carry, a, x, b, j) && |r| == |a| == |b|
    ensures Val(r) == (Val(a) + x * Val(b) * Pow(j)) % Pow(|a|)
  {
    hide Val; hide Pow;
    var q := RowValue(r, carry, a, x, b, j);
    ValBound(r);
    DivModUnique(Val(a) + x * Val(b) * Pow(j), Pow(|a|), q, Val(r));
  }

  lemma NoRows(x: seq<Limb>, vb: int)
    ensures 0 == Val(x[..0]) * vb % Pow(|x|)
  {
    assert x[..0] == [];
    DivModUnique(0, Pow(|x|), 0, 0);
  }

  /** The rows up to j together are the product with the lower j limbs. */
  lemma RowsNext(v: int, v': int, x: seq<Limb>, vb: int, j: nat)
    requires j < |x| && v == Val(x[..j]) * vb % Pow(|x|) && v' == (v + x[j] * vb * Pow(j)) % Pow(|x|)
    ensures v' == Val(x[..j + 1]) * vb % Pow(|x|)
  {
    hide Val; hide Pow;
    var m, t := Pow(|x|), Val(x[..j]) * vb;
    ValTake(x, j);
    Dist(Val(x[..j]), x[j] * Pow(j), vb);
    assert x[j] * Pow(j) * vb == x[j] * vb * Pow(j);
    DivMod(t, m);
    ModAdd(v + x[j] * vb * Pow(j), t / m, m);
  }

  /** Flipping every bit counts from the other end. */
  lemma {:induction false} ComplementValue(s: seq<Limb>, t: seq<Limb>)
    requires |s| == |t| && forall i | 0 <= i < |s| :: t[i] == BASE - 1 - s[i]
    ensures Val(t) == Pow(|s|) - 1 - Val(s)
    decreases |s|
  {
    if s != [] {
      var n := |s| - 1;
      ComplementValue(s[..n], t[..n]);
      Dist(BASE - 1 - s[n], s[n], Pow(n));
      Dist(BASE, -1, Pow(n));
    }
  }

  /** Limbs r and a carry, which may be a borrow, are the lower limbs of x plus c. */
  ghost predicate Carried(r: seq<Limb>, carry: int, x: seq<Limb>, c: int) {
    |r| <= |x| && Val(r) + carry * Pow(|r|) == Val(x[..|r|]) + c
  }

  lemma CarriedNone(x: seq<Limb>, c: int)
    ensures Carried([], c, x, c)
  {
  }

  lemma CarriedNext(r: seq<Limb>, carry: int, x: seq<Limb>, c: int, n: int)
    requires Carried(r, carry, x, c) && |r| < |x| && n == carry + x[|r|]
    ensures Carried(r + [n % BASE], n / BASE, x, c)
  {
    AddStep(Val(r), carry, Pow(|r|), Val(x[..|r|]), c, x[|r|], 0, n);
    ValPush(r, n % BASE);
    ValTake(x, |r|);
  }

  /** Once there is nothing left to carry, or no limb left to carry to, the sum is there. */
  lemma CarriedEnd(s: seq<Limb>, r: seq<Limb>, carry: int, x: seq<Limb>, c: int)
    requires |s| == |x| && |r| <= |s| && Carried(r, carry, x, c) && (carry == 0 || |r| == |s|)
    requires (forall k | 0 <= k < |r| :: s[k] == r[k]) && forall k | |r| <= k < |s| :: s[k] == x[k]
    ensures Val(s) == (Val(x) + c) % Pow(|s|)
  {
    hide Val; hide Pow;
    assert s[..|r|] == r && s[|r|..] == x[|r|..];
    SameAbove(s, x, |r|);
    ValBound(s);
    CarriedOff(Val(s), Val(x), Val(r), Val(x[..|r|]), carry, Pow(|r|), Pow(|s|), c);
  }

  lemma CarriedOff(s: int, x: int, r: int, xr: int, carry: int, p: int, m: int, c: int)
    requires s - x == r - xr && r + carry * p == xr + c && (carry == 0 || p == m) && 0 <= s < m
    ensures s == (x + c) % m
  {
    DivModUnique(x + c, m, carry, s);
  }

  lemma SubtractMod(a: int, b: int, m: int)
    requires m > 0
    ensures (a + (m - b) % m) % m == (a - b) % m
  {
    DivMod(m - b, m);
    ModAdd(a + (m - b) % m, (m - b) / m, m);
    ModAdd(a - b, 1, m);
  }

  /** Two numbers that agree above limb n differ by what they differ by up to it. */
  lemma SameAbove(s: seq<Limb>, t: seq<Limb>, n: nat)
    requires |s| == |t| && n <= |s| && s[n..] == t[n..]
    ensures Val(s) - Val(t) == Val(s[..n]) - Val(t[..n])
  {
    hide Val; hide Pow;
    ValSplit(s, n);
    ValSplit(t, n);
  }

  /** The highest limb in which two numbers differ decides. */
  lemma HighestDecides(s: seq<Limb>, t: seq<Limb>, i: nat)
    requires |s| == |t| && i < |s| && s[i + 1..] == t[i + 1..] && s[i] < t[i]
    ensures Val(s) < Val(t)
  {
    hide Val; hide Pow;
    SameAbove(s, t, i + 1);
    ValTake(s, i);
    ValTake(t, i);
    ValBound(s[..i]);
    MulMono(s[i] + 1, t[i], Pow(i));
    Dist(s[i], 1, Pow(i));
  }

  /** One limb of an addition. */
  lemma AddStep(v: int, carry: int, p: int, va: int, vb: int, x: int, y: int, n: int)
    requires v + carry * p == va + vb && n == carry + x + y
    ensures v + n % BASE * p + n / BASE * (BASE * p) == va + x * p + (vb + y * p)
  {
    Carry(n, p);
    Dist(carry, x, p);
    Dist(carry + x, y, p);
  }

  lemma Carry(n: int, p: int)
    ensures n % BASE * p + n / BASE * (BASE * p) == n * p
  {
    DivMod(n, BASE);
    Dist(n / BASE * BASE, n % BASE, p);
    Assoc(n / BASE, BASE, p);
  }

  /** One limb of a multiplication by a single limb. */
  lemma MulStep(v: int, carry: int, p: int, va: int, b: int, x: int, n: int)
    requires v + carry * p == va * b && n == carry + b * x
    ensures v + n % BASE * p + n / BASE * (BASE * p) == (va + x * p) * b
  {
    Carry(n, p);
    Dist(carry, b * x, p);
    Dist(va, x * p, b);
    assert b * x * p == x * p * b;
  }

  /** One limb of a row of a long multiplication: v and va are what the rows have come to before and
      after, and p and q are the weights of the row and of the limb within it. */
  lemma RowStep(v: int, carry: int, p: int, q: int, va: int, a: int, x: int, vb: int, b: int, n: int)
    requires v + carry * (p * q) == va + x * vb * p && n == carry + a + x * b
    ensures v + n % BASE * (p * q) + n / BASE * (BASE * (p * q)) == va + a * (p * q) + x * (vb + b * q) * p
  {
    var w := p * q;
    Carry(n, w);
    Dist(carry, a, w);
    Dist(carry + a, x * b, w);
    calc {
      x * (vb + b * q) * p;
      (x * vb + x * (b * q)) * p;
      { Dist(x * vb, x * (b * q), p); }
      x * vb * p + x * (b * q) * p;
      { Regroup(x, b, q, p); }
      x * vb * p + x * b * w;
    }
  }

  lemma Regroup(x: int, b: int, q: int, p: int)
    ensures x * (b * q) * p == x * b * (p * q)
  {
    Assoc(x, b, q);
    Assoc(x * b, q, p);
  }

  lemma ProductFits(x: Limb, y: Limb)
    ensures 0 <= x * y <= (BASE - 1) * (BASE - 1)
  {
    MulMono(x, BASE - 1, y);
    MulMono(0, x, y);
  }

  lemma WrapUp(x: Limb)
    ensures (1 + x) % BASE == (if x == BASE - 1 then 0 else x + 1)
    ensures (1 + x) / BASE == if x == BASE - 1 then 1 else 0
  {
  }

  lemma WrapDown(x: Limb)
    ensures (-1 + x) % BASE == (if x == 0 then BASE - 1 else x - 1)
    ensures (-1 + x) / BASE == if x == 0 then -1 else 0
  {
  }

  // ---- shifts ----

  /** What a limb loses at its upper end when it is shifted by s bits. */
  function Over(x: Limb, s: nat): Limb
    requires s < 32
  {
    if s == 0 then 0 else Shr(x, 32 - s)
  }

  lemma ShiftArith(x: int, p: int, q: int, m: int)
    requires p > 0 && q > 0 && m == p * q && 0 <= x < m
    ensures x * p == x / q * m + x % q * p
    ensures 0 <= x % q * p <= m - p && x % q * p % p == 0 && 0 <= x / q < p
  {
    var hi, rest := x / q, x % q;
    DivMod(x, q);
    Dist(hi * q, rest, p);
    Assoc(hi, q, p);
    MulMono(rest, q - 1, p);
    MulMono(0, rest, p);
    Dist(q, -1, p);
    DivModUnique(rest * p, p, rest, 0);
    if hi >= p { MulMono(p, hi, q); }
    if hi < 0 { MulMono(hi, -1, q); }
  }

  /** A shifted limb is the part that stays, a multiple of the shift, and the part that goes over. */
  lemma ShiftedLimb(x: Limb, s: nat)
    requires s < 32
    ensures x * Pow2(s) == Over(x, s) * BASE + Shl(x, s)
    ensures 0 <= Over(x, s) < Pow2(s) && Shl(x, s) % Pow2(s) == 0 && Shl(x, s) + Pow2(s) <= BASE
  {
    var p, q := Pow2(s), Pow2(32 - s);
    Pow2Base();
    Pow2Add(s, 32 - s);
    ShiftArith(x, p, q, BASE);
    DivModUnique(x * p, BASE, x / q, x % q * p);
    if s == 0 {
      DivModUnique(x, BASE, 0, x);
    }
  }

  /** After the lower m limbs of a have been shifted by k limbs and s bits into r; top is what goes
      over into the next limb. */
  ghost predicate ShlSoFar(a: seq<Limb>, r: seq<Limb>, m: nat, k: nat, s: nat, top: nat) {
    && |a| == |r| == WIDTH && m + k <= WIDTH && s < 32 && top < Pow2(s)
    && Val(r[..m + k]) + top * Pow(m + k) == Val(a[..m]) * (Pow2(s) * Pow(k))
    && (m + k < WIDTH ==> r[m + k] == top) && forall n | m + k < n < WIDTH :: r[n] == 0
  }

  lemma ShlStart(a: seq<Limb>, r: seq<Limb>, k: nat, s: nat)
    requires |a| == |r| == WIDTH && k < WIDTH && s < 32 && forall n | 0 <= n < WIDTH :: r[n] == 0
    ensures ShlSoFar(a, r, 0, k, s, 0)
  {
    ValZero(r[..k]);
    assert a[..0] == [];
  }

  lemma ShlFits(a: seq<Limb>, r: seq<Limb>, i: nat, k: nat, s: nat, top: nat)
    requires ShlSoFar(a, r, i, k, s, top) && i + k < WIDTH
    ensures Or(r[i + k], Shl(a[i], s)) == r[i + k] + Shl(a[i], s) < BASE
    ensures i + k + 1 < WIDTH ==> Or(r[i + k + 1], Over(a[i], s)) == Over(a[i], s)
  {
    ShiftedLimb(a[i], s);
    OrIsSum(r[i + k], Shl(a[i], s), s);
  }

  /** What the loop writes for one limb. */
  ghost function ShlStep(r: seq<Limb>, x: Limb, n: nat, s: nat): seq<Limb>
    requires |r| == WIDTH && n < WIDTH && s < 32 && r[n] + Shl(x, s) < BASE
  {
    var r1 := if n + 1 < WIDTH then r[n + 1 := Over(x, s)] else r;
    r1[n := r[n] + Shl(x, s)]
  }

  lemma ShlNext(a: seq<Limb>, r: seq<Limb>, i: nat, k: nat, s: nat, top: nat)
    requires ShlSoFar(a, r, i, k, s, top) && i + k < WIDTH
    ensures r[i + k] + Shl(a[i], s) < BASE
    ensures ShlSoFar(a, ShlStep(r, a[i], i + k, s), i + 1, k, s, Over(a[i], s))
  {
    hide Val; hide Or;
    ShlFits(a, r, i, k, s, top);
    ShiftedLimb(a[i], s);
    var r', n := ShlStep(r, a[i], i + k, s), i + k;
    assert r'[..n] == r[..n];
    ValTake(r', n);
    ValTake(a, i);
    PowAdd(i, k);
    ShlSum(Val(r[..n]), top, Over(a[i], s), Shl(a[i], s), Val(a[..i]), a[i], Pow2(s), Pow(k), Pow(i), Pow(n));
  }

  lemma ShlSum(r: int, top: int, hi: int, lo: int, a: int, x: int, p: int, pk: int, pi: int, w: int)
    requires r + top * w == a * (p * pk) && x * p == hi * BASE + lo && w == pi * pk
    ensures r + (top + lo) * w + hi * (BASE * w) == (a + x * pi) * (p * pk)
  {
    Dist(top, lo, w);
    Assoc(hi, BASE, w);
    Dist(hi * BASE, lo, w);
    assert hi * (BASE * w) + lo * w == x * p * w;
    Dist(a, x * pi, p * pk);
    Shuffle(x, p, pi, pk);
  }

  lemma Shuffle(x: int, p: int, pi: int, pk: int)
    ensures x * p * (pi * pk) == x * pi * (p * pk)
  {
    Assoc(x, p, pi * pk);
    Assoc(p, pi, pk);
    Assoc(pi, p, pk);
    Assoc(x, pi, p * pk);
  }

  lemma ShlEnd(a: seq<Limb>, r: seq<Limb>, k: nat, s: nat, top: nat)
    requires |a| == |r| == WIDTH && s < 32
    requires k >= WIDTH ==> forall n | 0 <= n < WIDTH :: r[n] == 0
    requires k < WIDTH ==> ShlSoFar(a, r, WIDTH - k, k, s, top)
    ensures Val(r) == Val(a) * Pow2(32 * k + s) % Pow(WIDTH)
  {
    hide Val; hide Pow;
    Pow2Add(s, 32 * k);
    PowIsPow2(k);
    var f := Pow2(s) * Pow(k);
    ValBound(r);
    if k >= WIDTH {
      ValZero(r);
      PowAdd(k - WIDTH, WIDTH);
      ShiftedOut(Val(a), Pow2(s), Pow(k - WIDTH), Pow(WIDTH));
    } else {
      var n := WIDTH - k;
      ValSplit(a, n);
      PowAdd(n, k);
      assert r[..n + k] == r;
      ShlCut(Val(r), top, Val(a), Val(a[..n]), Val(a[n..]), Pow2(s), Pow(n), Pow(k), Pow(WIDTH));
    }
  }

  lemma ShiftedOut(a: int, p: int, q: int, m: int)
    requires m > 0
    ensures a * (p * (q * m)) % m == 0
  {
    Assoc(p, q, m);
    Assoc(a, p * q, m);
    DivModUnique(a * (p * (q * m)), m, a * (p * q), 0);
  }

  lemma ShlCut(r: int, top: int, a: int, low: int, high: int, p: int, pn: int, pk: int, m: int)
    requires m == pn * pk && a == low + high * pn && r + top * m == low * (p * pk) && 0 <= r < m
    ensures r == a * (p * pk) % m
  {
    Dist(low, high * pn, p * pk);
    Shuffle(high, pn, p, pk);
    DistBack(top, high * p, m);
    DivModUnique(a * (p * pk), m, top + high * p, r);
  }

  lemma DistBack(a: int, b: int, c: int)
    ensures a * c + b * c == (a + b) * c
  {
  }

  /** After m limbs of a, from limb k on, have been shifted by s bits into r. */
  ghost predicate ShrSoFar(a: seq<Limb>, r: seq<Limb>, m: nat, k: nat, s: nat) {
    && |a| == |r| == WIDTH && k + m <= WIDTH && s < 32
    && Val(r[..m]) == Val(a[k..k + m]) / Pow2(s)
    && (m > 0 ==> r[m - 1] == Shr(a[k + m - 1], s)) && forall n | m <= n < WIDTH :: r[n] == 0
  }

  lemma ShrStart(a: seq<Limb>, r: seq<Limb>, k: nat, s: nat)
    requires |a| == |r| == WIDTH && k < WIDTH && s < 32 && forall n | 0 <= n < WIDTH :: r[n] == 0
    ensures ShrSoFar(a, r, 0, k, s)
  {
    assert a[k..k] == [] && r[..0] == [];
    DivModUnique(0, Pow2(s), 0, 0);
  }

  /** What goes over at the lower end when a limb is shifted to the right. */
  function Under(x: Limb, s: nat): Limb
    requires s < 32
  {
    if s == 0 then 0 else Shl(x, 32 - s)
  }

  lemma ShiftedRight(x: Limb, y: Limb, s: nat)
    requires s < 32
    ensures x * Pow2(32 - s) == Shr(x, s) * BASE + Under(x, s)
    ensures Or(Shr(y, s), Under(x, s)) == Shr(y, s) + Under(x, s) < BASE
  {
    Pow2Base();
    if s == 0 {
      DivModUnique(x, 1, x, 0);
    } else {
      ShiftedLimb(x, 32 - s);
      ShiftedLimb(y, 32 - s);
      OrIsSum(Shr(y, s), Under(x, s), 32 - s);
    }
  }

  ghost function ShrStep(r: seq<Limb>, x: Limb, m: nat, s: nat): seq<Limb>
    requires |r| == WIDTH && m < WIDTH && s < 32 && (m > 0 ==> r[m - 1] + Under(x, s) < BASE)
  {
    (if m > 0 then r[m - 1 := r[m - 1] + Under(x, s)] else r)[m := Shr(x, s)]
  }

  lemma ShrNext(a: seq<Limb>, r: seq<Limb>, m: nat, k: nat, s: nat)
    requires ShrSoFar(a, r, m, k, s) && k + m < WIDTH
    ensures m > 0 ==> Or(r[m - 1], Under(a[k + m], s)) == r[m - 1] + Under(a[k + m], s) < BASE
    ensures ShrSoFar(a, ShrStep(r, a[k + m], m, s), m + 1, k, s)
  {
    hide Val; hide Or;
    var x, p := a[k + m], Pow2(s);
    assert a[k..k + m + 1] == a[k..k + m] + [x];
    ValPush(a[k..k + m], x);
    if m == 0 {
      ValZero(a[k..k]);
      assert a[k..k] == [];
      ShrFirst(ShrStep(r, x, 0, s), x, s);
    } else {
      ShiftedRight(x, a[k + m - 1], s);
      ShrLimbs(r, x, m, s);
      Pow2Base();
      Pow2Add(s, 32 - s);
      ShrSum(Val(r[..m]), Val(a[k..k + m]), x, Shr(x, s), Under(x, s), p, Pow2(32 - s), Pow(m - 1), Pow(m));
    }
  }

  lemma ShrFirst(r: seq<Limb>, x: Limb, s: nat)
    requires |r| == WIDTH && r[0] == Shr(x, s)
    ensures Val(r[..1]) == (0 + x * Pow(0)) / Pow2(s)
  {
    ValTake(r, 0);
    assert r[..0] == [];
  }

  lemma ShrLimbs(r: seq<Limb>, x: Limb, m: nat, s: nat)
    requires |r| == WIDTH && 0 < m < WIDTH && s < 32 && r[m - 1] + Under(x, s) < BASE
    ensures Val(ShrStep(r, x, m, s)[..m + 1]) == Val(r[..m]) + Under(x, s) * Pow(m - 1) + Shr(x, s) * Pow(m)
  {
    var r' := ShrStep(r, x, m, s);
    ValTake(r', m);
    ValTake(r', m - 1);
    ValTake(r, m - 1);
    assert r'[..m - 1] == r[..m - 1];
    Dist(r[m - 1], Under(x, s), Pow(m - 1));
  }

  lemma ShrSum(v: int, a: int, x: int, hi: int, lo: int, p: int, q: int, w: int, w': int)
    requires p > 0 && v == a / p && p * q == BASE && x * q == hi * BASE + lo && w' == BASE * w
    ensures (a + x * w') / p == v + lo * w + hi * w'
  {
    DivMod(a, p);
    calc {
      x * w';
      { assert BASE * w == q * p * w; Assoc(q, p, w); Assoc(x, q, p * w); }
      x * q * (p * w);
      { Dist(hi * BASE, lo, p * w); }
      hi * BASE * (p * w) + lo * (p * w);
      { Swap(hi * BASE, p, w); Swap(lo, p, w); Assoc(hi, BASE, w); }
      hi * w' * p + lo * w * p;
      { DistBack(hi * w', lo * w, p); }
      (hi * w' + lo * w) * p;
    }
    DistBack(v, hi * w' + lo * w, p);
    DivModUnique(a + x * w', p, v + (hi * w' + lo * w), a % p);
  }

  lemma Swap(a: int, b: int, c: int)
    ensures a * (b * c) == a * c * b
  {
    Assoc(a, c, b);
  }

  lemma ToTheEnd<T>(a: seq<T>, k: nat, n: nat)
    requires k <= n == |a|
    ensures a[k..n] == a[k..]
  {
  }

  lemma ShrEnd(a: seq<Limb>, r: seq<Limb>, k: nat, s: nat)
    requires |a| == |r| == WIDTH && s < 32
    requires k >= WIDTH ==> forall n | 0 <= n < WIDTH :: r[n] == 0
    requires k < WIDTH ==> ShrSoFar(a, r, WIDTH - k, k, s)
    ensures Val(r) == Val(a) / Pow2(32 * k + s)
  {
    hide Val; hide Pow;
    Pow2Add(32 * k, s);
    PowIsPow2(k);
    if k >= WIDTH {
      ValZero(r);
      ValBound(a);
      PowIsPow2(WIDTH);
      Pow2Mono(32 * WIDTH, 32 * k + s);
      DivModUnique(Val(a), Pow2(32 * k + s), 0, Val(a));
    } else {
      ValSplit(r, WIDTH - k);
      ValZero(r[WIDTH - k..]);
      ValSplit(a, k);
      ValBound(a[..k]);
      ToTheEnd(a, k, k + (WIDTH - k));
      DivModUnique(Val(a), Pow(k), Val(a[k..]), Val(a[..k]));
      DivDiv(Val(a), Pow(k), Pow2(s));
    }
  }

  // ---- single bits ----

  predicate TestBit(x: nat, n: nat) { x / Pow2(n) % 2 == 1 }

  /** The highest bit that can be set is set exactly if the number reaches its weight. */
  lemma TestHighest(x: nat, n: nat)
    requires x < Pow2(n + 1)
    ensures TestBit(x, n) <==> x >= Pow2(n)
  {
    if x >= Pow2(n) {
      DivModUnique(x, Pow2(n), 1, x - Pow2(n));
    } else {
      DivModUnique(x, Pow2(n), 0, x);
    }
  }

  /** The highest bit of the highest limb that is not zero gives the size of a number. */
  lemma TopBit(s: seq<Limb>, pos: nat, n: nat)
    requires pos < |s| && Pow2(n) <= s[pos] < Pow2(n + 1) && forall i | pos < i < |s| :: s[i] == 0
    ensures Pow2(32 * pos + n) <= Val(s) < Pow2(32 * pos + n + 1)
  {
    hide Val; hide Pow;
    ValSplit(s, pos + 1);
    ValZero(s[pos + 1..]);
    ValTake(s, pos);
    ValBound(s[..pos]);
    PowIsPow2(pos);
    Pow2Add(n, 32 * pos);
    Pow2Add(n + 1, 32 * pos);
    MulMono(Pow2(n), s[pos], Pow(pos));
    MulMono(s[pos] as int + 1, Pow2(n + 1), Pow(pos));
    Dist(s[pos], 1, Pow(pos));
  }

  /** No bit below bit n is set. */
  ghost predicate LowZero(s: seq<Limb>, n: nat) {
    && n <= 32 * |s|
    && (forall i | 0 <= i < n / 32 :: s[i] == 0)
    && (n % 32 != 0 ==> s[n / 32] % Pow2(n % 32) == 0)
  }

  lemma SetLowBit(s: seq<Limb>, n: nat)
    requires n < 32 * |s| && LowZero(s, n + 1)
    ensures var w, b := n / 32, Pow2(n % 32);
            && Or(s[w], b) == s[w] + b < BASE
            && Val(s[w := s[w] + b]) == Val(s) + Pow2(n) && LowZero(s[w := s[w] + b], n)
  {
    hide Val; hide Pow; hide Or;
    var w, u := n / 32, n % 32;
    var b := Pow2(u);
    LimbLow(s, n);
    BitFits(s[w], u);
    var t := s[w := s[w] + b];
    assert t[..w] == s[..w] && t[w + 1..] == s[w + 1..];
    ValTake(s, w);
    ValTake(t, w);
    SameAbove(s, t, w + 1);
    Dist(s[w], b, Pow(w));
    PowIsPow2(w);
    Pow2Add(u, 32 * w);
  }

  lemma LimbLow(s: seq<Limb>, n: nat)
    requires n < 32 * |s| && LowZero(s, n + 1)
    ensures s[n / 32] % Pow2(n % 32 + 1) == 0
  {
    if n % 32 == 31 {
      assert (n + 1) / 32 == n / 32 + 1;
      assert s[n / 32] == 0;
      DivModUnique(0, Pow2(n % 32 + 1), 0, 0);
    } else {
      assert (n + 1) / 32 == n / 32 && (n + 1) % 32 == n % 32 + 1;
    }
  }

  lemma BitFits(x: Limb, u: nat)
    requires u < 32 && x % Pow2(u + 1) == 0
    ensures Or(x, Pow2(u)) == x + Pow2(u) < BASE && (x + Pow2(u)) % Pow2(u) == 0
  {
    OrIsSum(Pow2(u), x, u + 1);
    OrCommutes(Pow2(u), x);
    Pow2Base();
    Pow2Add(u + 1, 31 - u);
    BitArith(x, Pow2(u), Pow2(31 - u));
  }

  lemma BitArith(x: int, p: int, m: int)
    requires p > 0 && m > 0 && 2 * p * m == BASE && 0 <= x < BASE && x % (2 * p) == 0
    ensures x + p < BASE && (x + p) % p == 0
  {
    var q := x / (2 * p);
    DivMod(x, 2 * p);
    if q >= m {
      MulMono(m, q, 2 * p);
    } else {
      MulMono(q + 1, m, 2 * p);
      Dist(q, 1, 2 * p);
    }
    Assoc(q, 2, p);
    Dist(q * 2, 1, p);
    DivModUnique(x + p, p, q * 2 + 1, 0);
  }

  lemma {:induction false} OrCommutes(a: nat, b: nat)
    ensures Or(a, b) == Or(b, a)
  {
    if a > 0 && b > 0 {
      OrCommutes(a / 2, b / 2);
    }
  }
}
