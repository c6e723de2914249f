/** The Bech32 checksum detects every change of up to three symbols within 1023: three such changes
    would be a polynomial of three terms with three consecutive roots, which there is not. */
module Bech32Errors {
  import opened Bech32Spec
  import opened Bech32Roots
  import K = Gf1024

  function Zeros(k: nat): Data { if k == 0 then [] else Zeros(k - 1) + [0] }

  lemma {:induction false} ZerosAre(k: nat)
    ensures |Zeros(k)| == k && forall i | 0 <= i < k :: Zeros(k)[i] == 0
  {
    if k > 0 { ZerosAre(k - 1); }
  }

  lemma AllZeros(v: Data)
    requires forall i | 0 <= i < |v| :: v[i] == 0
    ensures v == Zeros(|v|)
  {
    ZerosAre(|v|);
  }

  // ---- strings with few symbols, at a root ----

  lemma PolyPush(c: bv32, v: Data, x: bv8)
    ensures Poly(c, v + [x]) == Step(Poly(c, v), x)
  {
    assert (v + [x])[..|v|] == v;
  }

  lemma {:induction false} ZerosAtRoot(c: bv32, k: nat, t: nat)
    requires c < 0x4000_0000 && t < 3
    ensures Eval(Poly(c, Zeros(k)), t, 6) == K.Mul(Eval(c, t, 6), K.Pow(Root(t), k))
    decreases k
  {
    hide Step; hide Eval; hide K.Mul; hide Root; hide ByRoot; hide Next;
    var x := Eval(c, t, 6);
    if k == 0 {
      K.One(x);
    } else {
      ZerosAtRoot(c, k - 1, t);
      PolyPush(c, Zeros(k - 1), 0);
      PolyRange(c, Zeros(k - 1));
      StepAtRoot(Poly(c, Zeros(k - 1)), 0, t);
      var y := K.Pow(Root(t), k - 1);
      NoSymbol(K.Mul(x, y), t);
      K.MulAssoc(x, y, Root(t));
      K.MulCommutes(y, Root(t));
    }
  }

  lemma NoSymbol(x: bv10, t: nat)
    ensures Next(x, 0, t) == K.Mul(x, Root(t))
  {
    hide ByRoot; hide K.Add; hide K.Mul; hide Symbol;
    ZeroSymbol();
    ByRootIs(x, t);
    K.AddZero(ByRoot(x, t));
  }

  /** A symbol after k zeros. */
  lemma SymbolAfter(c: bv32, k: nat, v: bv8, t: nat)
    requires c < 0x4000_0000 && v < 32 && t < 3
    ensures Eval(Poly(c, Zeros(k) + [v]), t, 6) == K.Add(K.Mul(Eval(c, t, 6), K.Pow(Root(t), k + 1)), Symbol(v))
  {
    hide Step; hide Eval; hide K.Mul; hide K.Add; hide Root; hide ByRoot; hide Symbol;
    var x, y := Eval(c, t, 6), K.Pow(Root(t), k);
    ZerosAtRoot(c, k, t);
    PolyPush(c, Zeros(k), v);
    PolyRange(c, Zeros(k));
    StepAtRoot(Poly(c, Zeros(k)), v, t);
    ByRootIs(K.Mul(x, y), t);
    K.MulAssoc(x, y, Root(t));
    K.MulCommutes(y, Root(t));
  }

  /** The state after three symbols with zeros before and between them. */
  function Three(p: nat, a: bv8, i: nat, b: bv8, j: nat, d: bv8): bv32 {
    Poly(Poly(Poly(0, Zeros(p) + [a]), Zeros(i) + [b]), Zeros(j) + [d])
  }

  lemma ThreeAtRoot(p: nat, a: bv8, i: nat, b: bv8, j: nat, d: bv8, t: nat)
    requires a < 32 && b < 32 && d < 32 && t < 3
    ensures Eval(Three(p, a, i, b, j, d), t, 6)
         == K.Add(K.Add(K.Mul(Symbol(a), K.Pow(Root(t), i + j + 2)), K.Mul(Symbol(b), K.Pow(Root(t), j + 1))),
                  Symbol(d))
  {
    hide Poly; hide Eval; hide K.Mul; hide K.Add; hide Root; hide Symbol; hide K.Pow;
    var c1 := Poly(0, Zeros(p) + [a]);
    var c2 := Poly(c1, Zeros(i) + [b]);
    PolyRange(0, Zeros(p) + [a]);
    PolyRange(c1, Zeros(i) + [b]);
    SymbolAfter(0, p, a, t);
    EvalZero(t, 6);
    K.TimesNothing(K.Pow(Root(t), p + 1));
    K.AddZero(Symbol(a));
    SymbolAfter(c1, i, b, t);
    SymbolAfter(c2, j, d, t);
    var m, n := K.Pow(Root(t), i + 1), K.Pow(Root(t), j + 1);
    MulSum(K.Mul(Symbol(a), m), Symbol(b), n);
    K.MulAssoc(Symbol(a), m, n);
    K.PowAdd(Root(t), i + 1, j + 1);
  }

  lemma MulSum(x: bv10, y: bv10, n: bv10)
    ensures K.Mul(K.Add(x, y), n) == K.Add(K.Mul(x, n), K.Mul(y, n))
  {
    K.MulAddLeft(x, y, n, 10);
  }

  // ---- the three roots together ----

  lemma RootsAre()
    ensures Root(0) == 0xd && Root(1) == K.Mul(0xd, 2) && Root(2) == K.Mul(Root(1), 2)
  {
    hide K.Mul;
    K.TimesLiteral(0xd);
    K.TimesLiteral(0x1a);
  }

  /** A power of each root is the power of the first one times powers of e. */
  lemma RootPowers(s: bv10, m: nat)
    ensures var x, a := K.Pow(2, m), K.Mul(s, K.Pow(0xd, m));
            && K.Mul(s, K.Pow(Root(0), m)) == a && K.Mul(s, K.Pow(Root(1), m)) == K.Mul(a, x)
            && K.Mul(s, K.Pow(Root(2), m)) == K.Mul(K.Mul(a, x), x)
  {
    hide K.Mul; hide K.Pow; hide Root;
    RootsAre();
    var x, r := K.Pow(2, m), K.Pow(0xd, m);
    K.PowMul(0xd, 2, m);
    K.PowMul(Root(1), 2, m);
    K.MulAssoc(s, r, x);
    K.MulAssoc(s, K.Mul(r, x), x);
  }

  lemma PowersDiffer(m: nat, n: nat)
    requires 0 < n < m < 1023
    ensures K.Pow(2, m) != K.Pow(2, n)
  {
    hide K.Mul; hide K.Pow; hide K.Add;
    var y, z := K.Pow(2, n), K.Pow(2, m - n);
    K.PowAdd(2, m - n, n);
    K.Order(m - n);
    K.PowNotZero(2, n);
    if K.Mul(z, y) == y {
      K.One(y);
      MulSum(z, 1, y);
      K.AddZero(y);
      K.NoZeroDivisors(K.Add(z, 1), y);
      K.AddEqual(z, 1);
    }
  }

  lemma NoFactor(s: bv10, m: nat)
    requires K.Mul(s, K.Pow(0xd, m)) == 0
    ensures s == 0
  {
    hide K.Mul; hide K.Pow;
    K.PowNotZero(0xd, m);
    K.NoZeroDivisors(s, K.Pow(0xd, m));
  }

  /** Three symbols within 1023 places leave no trace only if they are all zero. */
  lemma NoThree(p: nat, a: bv8, i: nat, b: bv8, j: nat, d: bv8)
    requires a < 32 && b < 32 && d < 32 && i + j + 2 < 1023 && Three(p, a, i, b, j, d) == 0
    ensures a == 0 && b == 0 && d == 0
  {
    hide Three; hide Eval; hide K.Mul; hide K.Add; hide K.Pow; hide Root; hide Symbol;
    var m, n := i + j + 2, j + 1;
    ThreeAtRoot(p, a, i, b, j, d, 0);
    ThreeAtRoot(p, a, i, b, j, d, 1);
    ThreeAtRoot(p, a, i, b, j, d, 2);
    EvalZero(0, 6);
    EvalZero(1, 6);
    EvalZero(2, 6);
    RootPowers(Symbol(a), m);
    RootPowers(Symbol(b), n);
    K.Order(m);
    K.Order(n);
    PowersDiffer(m, n);
    K.Vandermonde(K.Mul(Symbol(a), K.Pow(0xd, m)), K.Mul(Symbol(b), K.Pow(0xd, n)), Symbol(d),
                  K.Pow(2, m), K.Pow(2, n));
    NoFactor(Symbol(a), m);
    NoFactor(Symbol(b), n);
    SymbolZero(a);
    SymbolZero(b);
    SymbolZero(d);
  }

  // ---- strings that differ in few places ----

  lemma DifferenceAt(v: Data, w: Data, i: nat)
    requires |v| == |w| && Symbols(v) && Symbols(w) && i < |v|
    ensures XorData(v, w)[i] < 32 && (XorData(v, w)[i] == 0 <==> v[i] == w[i])
  {
    SymbolsXor(v[i], w[i]);
  }

  /** A difference with three places that may not be zero, taken apart. */
  lemma TakeApart(x: Data, p: nat, q: nat, r: nat)
    requires p < q < r < |x| && forall i | 0 <= i < |x| && i != p && i != q && i != r :: x[i] == 0
    ensures x == (Zeros(p) + [x[p]]) + (Zeros(q - p - 1) + [x[q]]) + (Zeros(r - q - 1) + [x[r]]) + Zeros(|x| - r - 1)
  {
    AllZeros(x[..p]);
    AllZeros(x[p + 1..q]);
    AllZeros(x[q + 1..r]);
    AllZeros(x[r + 1..]);
    assert x == x[..p] + [x[p]] + x[p + 1..q] + [x[q]] + x[q + 1..r] + [x[r]] + x[r + 1..];
  }

  lemma StateOfParts(x: Data, p: nat, q: nat, r: nat)
    requires p < q < r < |x| && forall i | 0 <= i < |x| && i != p && i != q && i != r :: x[i] == 0
    ensures Poly(0, x) == Poly(Three(p, x[p], q - p - 1, x[q], r - q - 1, x[r]), Zeros(|x| - r - 1))
  {
    hide Poly;
    TakeApart(x, p, q, r);
    var a, b, d := Zeros(p) + [x[p]], Zeros(q - p - 1) + [x[q]], Zeros(r - q - 1) + [x[r]];
    PolyConcat(0, a + b + d, Zeros(|x| - r - 1));
    PolyConcat(0, a + b, d);
    PolyConcat(0, a, b);
  }

  lemma {:induction false} NothingStays(k: nat)
    ensures Poly(0, Zeros(k)) == 0
  {
    if k > 0 {
      NothingStays(k - 1);
      PolyPush(0, Zeros(k - 1), 0);
      NothingToFold(0);
    }
  }

  lemma ThreeRange(p: nat, a: bv8, i: nat, b: bv8, j: nat, d: bv8)
    ensures Three(p, a, i, b, j, d) < 0x4000_0000
  {
    hide Poly;
    PolyRange(0, Zeros(p) + [a]);
    PolyRange(Poly(0, Zeros(p) + [a]), Zeros(i) + [b]);
    PolyRange(Poly(Poly(0, Zeros(p) + [a]), Zeros(i) + [b]), Zeros(j) + [d]);
  }

  lemma NoTrace(x: Data, p: nat, q: nat, r: nat)
    requires p < q < r < |x| && r - p < 1023 && x[p] < 32 && x[q] < 32 && x[r] < 32
    requires forall i | 0 <= i < |x| && i != p && i != q && i != r :: x[i] == 0
    requires Poly(0, x) == 0
    ensures x[p] == 0 && x[q] == 0 && x[r] == 0
  {
    hide Poly; hide Three;
    var c := Three(p, x[p], q - p - 1, x[q], r - q - 1, x[r]);
    StateOfParts(x, p, q, r);
    NothingStays(|x| - r - 1);
    ThreeRange(p, x[p], q - p - 1, x[q], r - q - 1, x[r]);
    PolyInjective(c, 0, Zeros(|x| - r - 1));
    NoThree(p, x[p], q - p - 1, x[q], r - q - 1, x[r]);
  }

  lemma ThreePlaces(c: bv32, v: Data, w: Data, p: nat, q: nat, r: nat)
    requires |v| == |w| && Symbols(v) && Symbols(w) && p < q < r < |v| && r - p < 1023
    requires forall i | 0 <= i < |v| && i != p && i != q && i != r :: v[i] == w[i]
    requires Poly(c, v) == Poly(c, w)
    ensures v == w
  {
    hide Poly; hide Xor; hide Xor8;
    var x := XorData(v, w);
    PolyLinear(c, c, v, w);
    XorSelf(c);
    XorSelf(Poly(c, v));
    forall i | 0 <= i < |v|
      ensures x[i] < 32 && (x[i] == 0 <==> v[i] == w[i])
    {
      DifferenceAt(v, w, i);
    }
    NoTrace(x, p, q, r);
    assert forall i | 0 <= i < |v| :: v[i] == w[i];
  }

  /** The places in which two strings differ. */
  ghost function Changes(v: Data, w: Data): set<nat>
    requires |v| == |w|
  {
    set i: nat | i < |v| && v[i] != w[i]
  }

  /** At most three places, no two of them 1023 or more apart. */
  ghost predicate Few(s: set<nat>) { |s| <= 3 && forall i: nat, j: nat | i in s && j in s :: j - i < 1023 }

  lemma {:induction false} Ends(s: set<nat>) returns (p: nat, r: nat)
    requires s != {}
    ensures p in s && r in s && forall i: nat | i in s :: p <= i <= r
    decreases |s|
  {
    var i :| i in s;
    if s == {i} {
      p, r := i, i;
    } else {
      var p', r' := Ends(s - {i});
      p, r := if i < p' then i else p', if i > r' then i else r';
      forall j: nat | j in s
        ensures p <= j <= r
      {
        assert j != i ==> j in s - {i};
      }
    }
  }

  /** Up to three places are the first, the last and one more. */
  lemma Between(s: set<nat>) returns (p: nat, q: nat, r: nat)
    requires s != {} && |s| <= 3
    ensures p <= q <= r && s == {p, q, r}
  {
    p, r := Ends(s);
    var rest := s - {p, r};
    if rest == {} {
      q := p;
    } else {
      q :| q in rest;
      assert |{p, r}| + |rest| == |s| by { assert s == {p, r} + rest; }
      assert p != r by { if p == r { assert forall i | i in s :: i == p; } }
      assert |rest| == 1;
      OnlyOne(rest, q);
    }
  }

  lemma OnlyOne(s: set<nat>, q: nat)
    requires |s| == 1 && q in s
    ensures s == {q}
  {
    assert |s - {q}| == 0;
  }

  /** Fewer than three places can be taken for three. */
  lemma Spread(p: nat, q: nat, r: nat, n: nat) returns (a: nat, b: nat, d: nat)
    requires p <= q <= r < n && n >= 3 && r - p < 1023
    ensures a < b < d < n && d - a < 1023 && {p, q, r} <= {a, b, d}
  {
    if p < q < r {
      a, b, d := p, q, r;
    } else if r - p >= 2 {
      a, b, d := p, p + 1, r;
    } else if r >= 2 {
      a, b, d := r - 2, r - 1, r;
    } else {
      a, b, d := 0, 1, 2;
    }
  }

  /** Up to three changed symbols within 1023 always change the checksum, whatever else there is. */
  lemma ThreeErrorsDetected(c: bv32, v: Data, w: Data)
    requires c < 0x4000_0000 && |v| == |w| && Symbols(v) && Symbols(w) && v != w && Few(Changes(v, w))
    ensures Poly(c, v) != Poly(c, w)
  {
    hide Poly;
    if Poly(c, v) == Poly(c, w) {
      if |v| < 3 {
        ShortDiffer(c, v, w);
      } else {
        var s := Changes(v, w);
        var k: nat :| k < |v| && v[k] != w[k];
        assert k in s;
        var p, q, r := Between(s);
        var a, b, d := Spread(p, q, r, |v|);
        forall i | 0 <= i < |v| && i != a && i != b && i != d
          ensures v[i] == w[i]
        {
          assert v[i] != w[i] ==> i in s;
        }
        ThreePlaces(c, v, w, a, b, d);
      }
    }
  }

  // ---- valid strings ----

  lemma ExpandSymbols(hrp: Data)
    ensures Symbols(Expand(hrp))
  {
    forall i | 0 <= i < |hrp|
      ensures High(hrp[i]) < 32 && Low(hrp[i]) < 32
    {
      HighLow(hrp[i]);
    }
    hide High; hide Low;
  }

  lemma HighLow(c: bv8)
    ensures High(c) < 32 && Low(c) < 32
  {
  }

  /** A valid string with up to three changed symbols is not valid under the same encoding. The
      symbols may be those of the human readable part. */
  lemma ThreeNeverVerify(hrp: Data, v: Data, hrp': Data, w: Data)
    requires Symbols(v) && Symbols(w) && Verify(hrp, v).Valid?
    requires var x, y := Expand(hrp) + v, Expand(hrp') + w; |x| == |y| && x != y && Few(Changes(x, y))
    ensures Verify(hrp', w) != Verify(hrp, v)
  {
    hide Poly; hide Expand; hide Few;
    ExpandSymbols(hrp);
    ExpandSymbols(hrp');
    ThreeErrorsDetected(1, Expand(hrp) + v, Expand(hrp') + w);
  }

  /** The same for the symbols after the human readable part alone. */
  lemma ThreeOfDataNeverVerify(hrp: Data, v: Data, w: Data)
    requires |v| == |w| && Symbols(v) && Symbols(w) && v != w && Few(Changes(v, w)) && Verify(hrp, v).Valid?
    ensures Verify(hrp, w) != Verify(hrp, v)
  {
    hide Poly; hide Expand; hide Few;
    PolyConcat(1, Expand(hrp), v);
    PolyConcat(1, Expand(hrp), w);
    PolyRange(1, Expand(hrp));
    ThreeErrorsDetected(Poly(1, Expand(hrp)), v, w);
  }
}
