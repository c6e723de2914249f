/** The checksum of Bech32 and Bech32m strings as a linear map over bits, as laid out in the Checksum
    sections of BIP 173 and BIP 350. */
module Bech32Spec {

  type Data = seq<bv8>

  // ---- one step ----

  function Xor(a: bv32, b: bv32): bv32 { a ^ b }
  function Xor8(x: bv8, y: bv8): bv8 { x ^ y }

  /** A constant if a bit is set. */
  function Part(c: bv32, bit: bv32, k: bv32): bv32 { if c & bit != 0 then k else 0 }

  function Xor5(a: bv32, b: bv32, c: bv32, d: bv32, e: bv32): bv32 { Xor(Xor(Xor(Xor(a, b), c), d), e) }

  /** What the five bits that are shifted out at the top are replaced by. */
  function Fold(c: bv32): bv32 {
    Xor5(Part(c, 0x200_0000, 0x3b6a57b2), Part(c, 0x400_0000, 0x26508e6d), Part(c, 0x800_0000, 0x1ea119fa),
         Part(c, 0x1000_0000, 0x3d4233dd), Part(c, 0x2000_0000, 0x2a1462b3))
  }

  /** The lower 25 bits make room for a symbol. */
  function Shift(c: bv32): bv32 { (c & 0x1ff_ffff) << 5 }
  function Wide(v: bv8): bv32 { v as bv32 }

  function Step(c: bv32, v: bv8): bv32 { Xor(Xor(Shift(c), Wide(v)), Fold(c)) }

  lemma BitLinear(c: bv32, d: bv32)
    ensures (c ^ d) & 0x200_0000 != 0 <==> (c & 0x200_0000 != 0) != (d & 0x200_0000 != 0)
    ensures (c ^ d) & 0x400_0000 != 0 <==> (c & 0x400_0000 != 0) != (d & 0x400_0000 != 0)
    ensures (c ^ d) & 0x800_0000 != 0 <==> (c & 0x800_0000 != 0) != (d & 0x800_0000 != 0)
    ensures (c ^ d) & 0x1000_0000 != 0 <==> (c & 0x1000_0000 != 0) != (d & 0x1000_0000 != 0)
    ensures (c ^ d) & 0x2000_0000 != 0 <==> (c & 0x2000_0000 != 0) != (d & 0x2000_0000 != 0)
  {
  }

  lemma PartLinear(c: bv32, d: bv32, bit: bv32, k: bv32)
    requires (c ^ d) & bit != 0 <==> (c & bit != 0) != (d & bit != 0)
    ensures Part(Xor(c, d), bit, k) == Xor(Part(c, bit, k), Part(d, bit, k))
  {
    assert Xor(k, k) == 0 && Xor(k, 0) == k && Xor(0, k) == k && Xor(0, 0) == 0;
  }

  lemma XorAssoc(a: bv32, b: bv32, c: bv32)
    ensures Xor(Xor(a, b), c) == Xor(a, Xor(b, c))
  {
  }

  lemma XorCommutes(a: bv32, b: bv32)
    ensures Xor(a, b) == Xor(b, a)
  {
  }

  lemma XorSwap(a: bv32, b: bv32, c: bv32, d: bv32)
    ensures Xor(Xor(a, b), Xor(c, d)) == Xor(Xor(a, c), Xor(b, d))
  {
    hide Xor;
    XorAssoc(a, b, Xor(c, d));
    XorAssoc(b, c, d);
    XorCommutes(b, c);
    XorAssoc(c, b, d);
    XorAssoc(a, c, Xor(b, d));
  }

  lemma Regroup(a: bv32, b: bv32, c: bv32, d: bv32, e: bv32, a': bv32, b': bv32, c': bv32, d': bv32, e': bv32)
    ensures Xor5(Xor(a, a'), Xor(b, b'), Xor(c, c'), Xor(d, d'), Xor(e, e'))
         == Xor(Xor5(a, b, c, d, e), Xor5(a', b', c', d', e'))
  {
    hide Xor;
    var ab, ab' := Xor(a, b), Xor(a', b');
    var abc, abc' := Xor(ab, c), Xor(ab', c');
    XorSwap(a, a', b, b');
    XorSwap(ab, ab', c, c');
    XorSwap(abc, abc', d, d');
    XorSwap(Xor(abc, d), Xor(abc', d'), e, e');
  }

  lemma FoldLinear(c: bv32, d: bv32)
    ensures Fold(Xor(c, d)) == Xor(Fold(c), Fold(d))
  {
    BitLinear(c, d);
    PartLinear(c, d, 0x200_0000, 0x3b6a57b2);
    PartLinear(c, d, 0x400_0000, 0x26508e6d);
    PartLinear(c, d, 0x800_0000, 0x1ea119fa);
    PartLinear(c, d, 0x1000_0000, 0x3d4233dd);
    PartLinear(c, d, 0x2000_0000, 0x2a1462b3);
    hide Xor; hide Part;
    Regroup(Part(c, 0x200_0000, 0x3b6a57b2), Part(c, 0x400_0000, 0x26508e6d), Part(c, 0x800_0000, 0x1ea119fa),
            Part(c, 0x1000_0000, 0x3d4233dd), Part(c, 0x2000_0000, 0x2a1462b3),
            Part(d, 0x200_0000, 0x3b6a57b2), Part(d, 0x400_0000, 0x26508e6d), Part(d, 0x800_0000, 0x1ea119fa),
            Part(d, 0x1000_0000, 0x3d4233dd), Part(d, 0x2000_0000, 0x2a1462b3));
  }

  lemma ShiftLinear(c: bv32, d: bv32)
    ensures Shift(Xor(c, d)) == Xor(Shift(c), Shift(d))
  {
  }

  lemma WideLinear(v: bv8, w: bv8)
    ensures Wide(Xor8(v, w)) == Xor(Wide(v), Wide(w))
  {
  }

  lemma StepLinear(c: bv32, d: bv32, v: bv8, w: bv8)
    ensures Step(Xor(c, d), Xor8(v, w)) == Xor(Step(c, v), Step(d, w))
  {
    FoldLinear(c, d);
    ShiftLinear(c, d);
    WideLinear(v, w);
    hide Xor; hide Fold; hide Shift; hide Wide; hide Xor8;
    XorSwap(Shift(c), Shift(d), Wide(v), Wide(w));
    XorSwap(Xor(Shift(c), Wide(v)), Xor(Shift(d), Wide(w)), Fold(c), Fold(d));
  }

  lemma StepKernel(x: bv32)
    requires x < 0x4000_0000 && Step(x, 0) == 0
    ensures x == 0
  {
  }

  lemma StepRange(c: bv32, v: bv8)
    ensures Step(c, v) < 0x4000_0000
  {
  }

  /** Two different states stay different whatever symbol comes next. */
  lemma StepInjective(c: bv32, d: bv32, v: bv8)
    requires c < 0x4000_0000 && d < 0x4000_0000 && Step(c, v) == Step(d, v)
    ensures c == d
  {
    hide Step; hide Xor; hide Xor8;
    StepLinear(c, d, v, v);
    XorSelf(Step(c, v));
    Xor8Self(v);
    XorRange(c, d);
    StepKernel(Xor(c, d));
    XorEqual(c, d);
  }

  lemma XorRange(c: bv32, d: bv32)
    requires c < 0x4000_0000 && d < 0x4000_0000
    ensures Xor(c, d) < 0x4000_0000
  {
  }

  lemma XorEqual(c: bv32, d: bv32)
    requires Xor(c, d) == 0
    ensures c == d
  {
  }

  lemma XorSelf(p: bv32)
    ensures Xor(p, p) == 0 && Xor(p, 0) == p
  {
  }

  lemma Xor8Self(v: bv8)
    ensures Xor8(v, v) == 0 && Xor8(0, v) == v
  {
  }

  // ---- whole strings ----

  /** The state after a string of symbols. */
  function Poly(c: bv32, v: Data): bv32
    decreases |v|
  {
    if v == [] then c else Step(Poly(c, v[..|v| - 1]), v[|v| - 1])
  }

  lemma {:induction false} PolyConcat(c: bv32, v: Data, w: Data)
    ensures Poly(c, v + w) == Poly(Poly(c, v), w)
    decreases |w|
  {
    hide Step;
    if w == [] {
      assert v + w == v;
    } else {
      var n := |w| - 1;
      assert (v + w)[..|v + w| - 1] == v + w[..n];
      PolyConcat(c, v, w[..n]);
    }
  }

  lemma {:induction false} PolyRange(c: bv32, v: Data)
    requires c < 0x4000_0000
    ensures Poly(c, v) < 0x4000_0000
    decreases |v|
  {
    hide Step;
    if v != [] {
      StepRange(Poly(c, v[..|v| - 1]), v[|v| - 1]);
    }
  }

  ghost function XorData(v: Data, w: Data): Data
    requires |v| == |w|
  {
    seq(|v|, i requires 0 <= i < |v| => Xor8(v[i], w[i]))
  }

  /** The checksum is linear: differences of strings make differences of checksums. */
  lemma {:induction false} PolyLinear(c: bv32, d: bv32, v: Data, w: Data)
    requires |v| == |w|
    ensures Poly(Xor(c, d), XorData(v, w)) == Xor(Poly(c, v), Poly(d, w))
    decreases |v|
  {
    hide Xor; hide Xor8; hide Step;
    if v != [] {
      var n := |v| - 1;
      PolyLinear(c, d, v[..n], w[..n]);
      assert XorData(v, w)[..n] == XorData(v[..n], w[..n]);
      StepLinear(Poly(c, v[..n]), Poly(d, w[..n]), v[n], w[n]);
    }
  }

  lemma {:induction false} PolyInjective(c: bv32, d: bv32, v: Data)
    requires c < 0x4000_0000 && d < 0x4000_0000 && Poly(c, v) == Poly(d, v)
    ensures c == d
    decreases |v|
  {
    hide Step;
    if v != [] {
      var n := |v| - 1;
      PolyRange(c, v[..n]);
      PolyRange(d, v[..n]);
      StepInjective(Poly(c, v[..n]), Poly(d, v[..n]), v[n]);
      PolyInjective(c, d, v[..n]);
    }
  }

  // ---- up to six symbols ----

  predicate Symbols(v: Data) { forall i | 0 <= i < |v| :: v[i] < 32 }

  /** A state of n symbols that nothing has been shifted out of. */
  predicate Short(c: bv32, n: nat) {
    (n <= 5 ==> c < 0x200_0000) && (n <= 4 ==> c < 0x10_0000) && (n <= 3 ==> c < 0x8000) &&
    (n <= 2 ==> c < 0x400) && (n <= 1 ==> c < 0x20) && (n == 0 ==> c == 0)
  }

  function Put(c: bv32, v: bv8): bv32 { (c << 5) ^ (v as bv32) }

  lemma NothingToFold(c: bv32)
    requires c < 0x200_0000
    ensures Fold(c) == 0 && c & 0x1ff_ffff == c
  {
  }

  lemma StepIsPut(c: bv32, v: bv8)
    requires c < 0x200_0000
    ensures Step(c, v) == Put(c, v)
  {
    NothingToFold(c);
  }

  lemma ShortPut(c: bv32, v: bv8, n: nat)
    requires n <= 5 && Short(c, n) && v < 32
    ensures Short(Put(c, v), n + 1) && (Put(c, v) == 0 <==> c == 0 && v == 0)
  {
  }

  lemma ShortStep(c: bv32, v: bv8, n: nat)
    requires n <= 5 && Short(c, n) && v < 32
    ensures Step(c, v) == Put(c, v)
    ensures Short(Step(c, v), n + 1) && (Step(c, v) == 0 <==> c == 0 && v == 0)
  {
    StepIsPut(c, v);
    ShortPut(c, v, n);
  }

  /** Up to six symbols, from nothing, give zero only if they are all zero. */
  lemma {:induction false} ShortPoly(v: Data)
    requires |v| <= 6 && Symbols(v)
    ensures Short(Poly(0, v), |v|) && (Poly(0, v) == 0 <==> forall i | 0 <= i < |v| :: v[i] == 0)
    decreases |v|
  {
    hide Step;
    if v != [] {
      var n := |v| - 1;
      ShortPoly(v[..n]);
      ShortStep(Poly(0, v[..n]), v[n], n);
    }
  }

  lemma SymbolsXor(x: bv8, y: bv8)
    requires x < 32 && y < 32
    ensures Xor8(x, y) < 32 && (Xor8(x, y) == 0 <==> x == y)
  {
  }

  /** From the same state, different strings of up to six symbols lead to different states. */
  lemma ShortDiffer(p: bv32, x: Data, y: Data)
    requires |x| == |y| <= 6 && Symbols(x) && Symbols(y) && Poly(p, x) == Poly(p, y)
    ensures x == y
  {
    hide Xor; hide Poly;
    PolyLinear(p, p, x, y);
    XorSelf(p);
    XorSelf(Poly(p, x));
    var z := XorData(x, y);
    forall i | 0 <= i < |x| ensures z[i] < 32 && (z[i] == 0 <==> x[i] == y[i]) { SymbolsXor(x[i], y[i]); }
    ShortPoly(z);
  }

  /** Changes that lie within six symbols of each other never go unnoticed. */
  lemma BurstDetected(c: bv32, a: Data, x: Data, y: Data, b: Data)
    requires c < 0x4000_0000 && |x| == |y| <= 6 && Symbols(x) && Symbols(y) && x != y
    ensures Poly(c, a + x + b) != Poly(c, a + y + b)
  {
    hide Poly;
    var p := Poly(c, a);
    PolyConcat(c, a, x);
    PolyConcat(c, a, y);
    PolyConcat(c, a + x, b);
    PolyConcat(c, a + y, b);
    PolyRange(c, a + x);
    PolyRange(c, a + y);
    if Poly(c, a + x + b) == Poly(c, a + y + b) {
      PolyInjective(Poly(c, a + x), Poly(c, a + y), b);
      ShortDiffer(p, x, y);
    }
  }

  // ---- the checksum ----

  datatype Encoding = Bech32 | Bech32m

  function Constant(e: Encoding): bv32 { if e == Bech32 then 1 else 0x2bc830a3 }

  /** The human readable part as symbols: first the upper bits, a zero, then the lower bits. */
  function Expand(hrp: Data): Data {
    seq(|hrp|, i requires 0 <= i < |hrp| => High(hrp[i])) + [0] + seq(|hrp|, i requires 0 <= i < |hrp| => Low(hrp[i]))
  }

  function High(c: bv8): bv8 { c >> 5 }
  function Low(c: bv8): bv8 { c & 31 }

  /** A character is 32 times its upper part and its lower part, as numbers. */
  predicate MadeOf(c: bv8, high: bv8, low: bv8) {
    high < 8 && low < 32 && 32 * (high as int) + low as int == c as int
  }

  lemma HighLow(c: bv8)
    ensures MadeOf(c, High(c), Low(c))
  {
  }

  const ZEROS: Data := [0, 0, 0, 0, 0, 0]

  /** Six symbols out of thirty bits. */
  function Unpack(m: bv32): Data {
    [((m >> 25) & 31) as bv8, ((m >> 20) & 31) as bv8, ((m >> 15) & 31) as bv8,
     ((m >> 10) & 31) as bv8, ((m >> 5) & 31) as bv8, (m & 31) as bv8]
  }

  function Checksum(e: Encoding, hrp: Data, values: Data): Data {
    Unpack(Xor(Poly(1, Expand(hrp) + values + ZEROS), Constant(e)))
  }

  lemma UnpackSymbols(m: bv32)
    ensures Symbols(Unpack(m))
  {
  }

  /** The upper k of six symbols as a number. */
  function Upper(m: bv32, k: nat): bv32 {
    match k
    case 0 => 0
    case 1 => m >> 25
    case 2 => m >> 20
    case 3 => m >> 15
    case 4 => m >> 10
    case 5 => m >> 5
    case _ => m
  }

  lemma Take0(m: bv32)
    requires m < 0x4000_0000
    ensures Put(0, ((m >> 25) & 31) as bv8) == m >> 25
  {
  }

  lemma Take1(m: bv32)
    requires m < 0x4000_0000
    ensures Put(m >> 25, ((m >> 20) & 31) as bv8) == m >> 20
  {
  }

  lemma Take2(m: bv32)
    requires m < 0x4000_0000
    ensures Put(m >> 20, ((m >> 15) & 31) as bv8) == m >> 15
  {
  }

  lemma Take3(m: bv32)
    requires m < 0x4000_0000
    ensures Put(m >> 15, ((m >> 10) & 31) as bv8) == m >> 10
  {
  }

  lemma Take4(m: bv32)
    requires m < 0x4000_0000
    ensures Put(m >> 10, ((m >> 5) & 31) as bv8) == m >> 5
  {
  }

  lemma Take5(m: bv32)
    ensures Put(m >> 5, (m & 31) as bv8) == m
  {
  }

  lemma UpperNext(m: bv32, k: nat)
    requires m < 0x4000_0000 && k < 6
    ensures Put(Upper(m, k), Unpack(m)[k]) == Upper(m, k + 1)
  {
    Take0(m);
    Take1(m);
    Take2(m);
    Take3(m);
    Take4(m);
    Take5(m);
  }

  /** Six symbols taken out of thirty bits give these bits again. */
  lemma {:induction false} UnpackPoly(m: bv32, k: nat)
    requires m < 0x4000_0000 && k <= 6
    ensures Poly(0, Unpack(m)[..k]) == Upper(m, k)
  {
    hide Put; hide Step;
    if k > 0 {
      var u := Unpack(m);
      UnpackPoly(m, k - 1);
      UnpackSymbols(m);
      PutNext(u, k - 1);
      UpperNext(m, k - 1);
    }
  }

  lemma PutNext(u: Data, n: nat)
    requires n < |u| && n <= 5 && Symbols(u)
    ensures Poly(0, u[..n + 1]) == Put(Poly(0, u[..n]), u[n])
  {
    hide Put; hide Step;
    assert u[..n + 1][..n] == u[..n];
    ShortPoly(u[..n]);
    ShortStep(Poly(0, u[..n]), u[n], n);
  }

  /** Six symbols at the end change the state by exactly the bits they hold. */
  lemma LastSix(p: bv32, u: Data)
    requires |u| == 6 && Symbols(u)
    ensures Poly(p, u) == Xor(Poly(p, ZEROS), Poly(0, u))
  {
    hide Xor; hide Poly; hide Xor8;
    PolyLinear(p, 0, ZEROS, u);
    assert XorData(ZEROS, u) == u by {
      forall i | 0 <= i < 6 ensures XorData(ZEROS, u)[i] == u[i] { Xor8Self(u[i]); }
    }
    XorSelf(p);
  }

  lemma XorCancel(a: bv32, k: bv32)
    ensures Xor(a, Xor(a, k)) == k
  {
  }

  lemma ConstantRange(p: bv32, e: Encoding)
    requires p < 0x4000_0000
    ensures Xor(p, Constant(e)) < 0x4000_0000
  {
  }

  /** Strings of any length with the checksum appended verify. */
  lemma ChecksumVerifies(e: Encoding, hrp: Data, values: Data)
    ensures Poly(1, Expand(hrp) + values + Checksum(e, hrp, values)) == Constant(e)
  {
    hide Xor; hide Poly;
    var v, s := Expand(hrp) + values, Checksum(e, hrp, values);
    var p := Poly(1, v);
    var m := Xor(Poly(1, v + ZEROS), Constant(e));
    PolyConcat(1, v, ZEROS);
    PolyConcat(1, v, s);
    PolyRange(1, v + ZEROS);
    ConstantRange(Poly(1, v + ZEROS), e);
    UnpackSymbols(m);
    LastSix(p, s);
    UnpackPoly(m, 6);
    assert s[..6] == s;
    XorCancel(Poly(p, ZEROS), Constant(e));
  }

  /** There is no other checksum. */
  lemma ChecksumUnique(e: Encoding, hrp: Data, values: Data, s: Data)
    requires |s| == 6 && Symbols(s) && Poly(1, Expand(hrp) + values + s) == Constant(e)
    ensures s == Checksum(e, hrp, values)
  {
    hide Xor; hide Poly;
    var v, t := Expand(hrp) + values, Checksum(e, hrp, values);
    ChecksumVerifies(e, hrp, values);
    UnpackSymbols(Xor(Poly(1, v + ZEROS), Constant(e)));
    PolyConcat(1, v, s);
    PolyConcat(1, v, t);
    ShortDiffer(Poly(1, v), s, t);
  }

  datatype Checked = Invalid | Valid(encoding: Encoding)

  function Verify(hrp: Data, values: Data): Checked {
    var c := Poly(1, Expand(hrp) + values);
    if c == Constant(Bech32) then Valid(Bech32) else if c == Constant(Bech32m) then Valid(Bech32m) else Invalid
  }

  /** Symbols are valid under an encoding exactly if the last six are the checksum of the others. */
  lemma VerifyIff(e: Encoding, hrp: Data, values: Data)
    requires |values| >= 6 && Symbols(values)
    ensures Verify(hrp, values) == Valid(e) <==> values[|values| - 6..] == Checksum(e, hrp, values[..|values| - 6])
  {
    hide Poly; hide Expand; hide Checksum;
    var n := |values| - 6;
    var v, s := values[..n], values[n..];
    assert Expand(hrp) + values == Expand(hrp) + v + s by { assert values == v + s; }
    ChecksumVerifies(e, hrp, v);
    if Verify(hrp, values) == Valid(e) {
      ChecksumUnique(e, hrp, v, s);
    }
  }

  /** A valid string with changes within six neighbouring symbols is not valid under the same encoding. */
  lemma ChangedNeverVerifies(hrp: Data, a: Data, x: Data, y: Data, b: Data)
    requires |x| == |y| <= 6 && Symbols(x) && Symbols(y) && x != y && Verify(hrp, a + x + b).Valid?
    ensures Verify(hrp, a + y + b) != Verify(hrp, a + x + b)
  {
    hide Poly; hide Expand;
    var e := Expand(hrp);
    assert e + (a + x + b) == (e + a) + x + b && e + (a + y + b) == (e + a) + y + b;
    BurstDetected(1, e + a, x, y, b);
  }

  // ---- characters ----

  predicate IsLower(c: bv8) { 0x61 <= c <= 0x7a }
  predicate IsUpper(c: bv8) { 0x41 <= c <= 0x5a }
  function ToLower(c: bv8): bv8 { if IsUpper(c) then c - 0x41 + 0x61 else c }

  const SEPARATOR: bv8 := 0x31
  const NO_SYMBOL: bv8 := 0xff

  /** The character for a symbol: qpzry9x8gf2tvdw0s3jn54khce6mua7l. */
  function Chr(s: bv8): bv8 {
    match s
    case 0 => 0x71 case 1 => 0x70 case 2 => 0x7a case 3 => 0x72
    case 4 => 0x79 case 5 => 0x39 case 6 => 0x78 case 7 => 0x38
    case 8 => 0x67 case 9 => 0x66 case 10 => 0x32 case 11 => 0x74
    case 12 => 0x76 case 13 => 0x64 case 14 => 0x77 case 15 => 0x30
    case 16 => 0x73 case 17 => 0x33 case 18 => 0x6a case 19 => 0x6e
    case 20 => 0x35 case 21 => 0x34 case 22 => 0x6b case 23 => 0x68
    case 24 => 0x63 case 25 => 0x65 case 26 => 0x36 case 27 => 0x6d
    case 28 => 0x75 case 29 => 0x61 case 30 => 0x37 case 31 => 0x6c
    case _ => 0
  }

  /** The symbol for a character that is not an upper case letter, if it is one. */
  function RevLower(c: bv8): bv8 {
    match c
    case 0x71 => 0 case 0x70 => 1 case 0x7a => 2 case 0x72 => 3
    case 0x79 => 4 case 0x39 => 5 case 0x78 => 6 case 0x38 => 7
    case 0x67 => 8 case 0x66 => 9 case 0x32 => 10 case 0x74 => 11
    case 0x76 => 12 case 0x64 => 13 case 0x77 => 14 case 0x30 => 15
    case 0x73 => 16 case 0x33 => 17 case 0x6a => 18 case 0x6e => 19
    case 0x35 => 20 case 0x34 => 21 case 0x6b => 22 case 0x68 => 23
    case 0x63 => 24 case 0x65 => 25 case 0x36 => 26 case 0x6d => 27
    case 0x75 => 28 case 0x61 => 29 case 0x37 => 30 case 0x6c => 31
    case _ => NO_SYMBOL
  }

  /** The symbol for a character; the two cases of a letter stand for the same one. */
  function Rev(c: bv8): bv8 { RevLower(ToLower(c)) }

  lemma RevChr(s: bv8)
    requires s < 32
    ensures RevLower(Chr(s)) == s
  {
    hide RevLower; hide Chr;
    if s < 8 {
      RevChrFirst(s);
    } else if s < 16 {
      RevChrSecond(s);
    } else if s < 24 {
      RevChrThird(s);
    } else if s < 28 {
      RevChrFourth(s);
    } else {
      RevChrFifth(s);
    }
  }

  lemma RevChrFirst(s: bv8)
    requires s < 8
    ensures RevLower(Chr(s)) == s
  {
  }

  lemma RevChrSecond(s: bv8)
    requires 8 <= s < 16
    ensures RevLower(Chr(s)) == s
  {
  }

  lemma RevChrThird(s: bv8)
    requires 16 <= s < 24
    ensures RevLower(Chr(s)) == s
  {
  }

  lemma RevChrFourth(s: bv8)
    requires 24 <= s < 28
    ensures RevLower(Chr(s)) == s
  {
  }

  lemma RevChrFifth(s: bv8)
    requires 28 <= s < 32
    ensures RevLower(Chr(s)) == s
  {
  }

  lemma ChrPlain(s: bv8)
    requires s < 32
    ensures Chr(s) != SEPARATOR && 33 <= Chr(s) <= 126 && !IsUpper(Chr(s))
  {
  }

  /** Reading the character for a symbol gives the symbol. */
  lemma RevOfChr(s: bv8)
    requires s < 32
    ensures Rev(Chr(s)) == s
  {
    RevChr(s);
    ChrPlain(s);
    hide RevLower; hide Chr;
  }

  lemma RevLowerIs(c: bv8)
    requires RevLower(c) != NO_SYMBOL
    ensures RevLower(c) < 32
  {
  }

  lemma ChrRevLower(c: bv8)
    requires RevLower(c) != NO_SYMBOL
    ensures RevLower(c) < 32 && Chr(RevLower(c)) == c
  {
    RevLowerIs(c);
    if c < 0x6b { ChrRevFirst(c); } else { ChrRevSecond(c); }
  }

  lemma ChrRevFirst(c: bv8)
    requires RevLower(c) != NO_SYMBOL && c < 0x6b
    ensures Chr(RevLower(c)) == c
  {
  }

  lemma ChrRevSecond(c: bv8)
    requires RevLower(c) != NO_SYMBOL && c >= 0x6b
    ensures Chr(RevLower(c)) == c
  {
  }

  /** The character for the symbol that has been read is the lower case one. */
  lemma ChrRev(c: bv8)
    requires Rev(c) != NO_SYMBOL
    ensures Rev(c) < 32 && Chr(Rev(c)) == ToLower(c)
  {
    ChrRevLower(ToLower(c));
  }
}
