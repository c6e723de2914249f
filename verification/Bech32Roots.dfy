/** Why the Bech32 checksum detects up to three changed symbols within 1023: its generator has three
    roots in the field of 1024 elements that are consecutive powers of e up to a common factor. */
module Bech32Roots {
  import opened Bech32Spec
  import K = Gf1024

  // ---- symbols as elements ----

  function Bit(v: bv8, bit: bv8, k: bv10): bv10 { if v & bit != 0 then k else 0 }

  /** A symbol as an element of the subfield of 32. */
  function Symbol(v: bv8): bv10 {
    K.Add(K.Add(K.Add(K.Add(Bit(v, 1, 0x1), Bit(v, 2, 0x14d)), Bit(v, 4, 0x283)), Bit(v, 8, 0x267)), Bit(v, 16, 0x122))
  }

  lemma BitsAdd(v: bv8, w: bv8)
    ensures (v ^ w) & 1 != 0 <==> (v & 1 != 0) != (w & 1 != 0)
    ensures (v ^ w) & 2 != 0 <==> (v & 2 != 0) != (w & 2 != 0)
    ensures (v ^ w) & 4 != 0 <==> (v & 4 != 0) != (w & 4 != 0)
    ensures (v ^ w) & 8 != 0 <==> (v & 8 != 0) != (w & 8 != 0)
    ensures (v ^ w) & 16 != 0 <==> (v & 16 != 0) != (w & 16 != 0)
  {
  }

  lemma BitAdd(v: bv8, w: bv8, bit: bv8, k: bv10)
    requires (v ^ w) & bit != 0 <==> (v & bit != 0) != (w & bit != 0)
    ensures Bit(Xor8(v, w), bit, k) == K.Add(Bit(v, bit, k), Bit(w, bit, k))
  {
    hide K.Add;
    K.AddZero(k);
    K.AddZero(0);
  }

  lemma SymbolAdd(v: bv8, w: bv8)
    ensures Symbol(Xor8(v, w)) == K.Add(Symbol(v), Symbol(w))
  {
    hide K.Add; hide Bit; hide Xor8;
    BitsAdd(v, w);
    BitAdd(v, w, 1, 0x1);
    BitAdd(v, w, 2, 0x14d);
    BitAdd(v, w, 4, 0x283);
    BitAdd(v, w, 8, 0x267);
    BitAdd(v, w, 16, 0x122);
    var a, b, c, d, e := Bit(v, 1, 0x1), Bit(v, 2, 0x14d), Bit(v, 4, 0x283), Bit(v, 8, 0x267), Bit(v, 16, 0x122);
    var a', b', c', d', e' := Bit(w, 1, 0x1), Bit(w, 2, 0x14d), Bit(w, 4, 0x283), Bit(w, 8, 0x267), Bit(w, 16, 0x122);
    K.AddSwap(a, a', b, b');
    K.AddSwap(K.Add(a, b), K.Add(a', b'), c, c');
    K.AddSwap(K.Add(K.Add(a, b), c), K.Add(K.Add(a', b'), c'), d, d');
    K.AddSwap(K.Add(K.Add(K.Add(a, b), c), d), K.Add(K.Add(K.Add(a', b'), c'), d'), e, e');
  }

  lemma SymbolZero(v: bv8)
    requires v < 32
    ensures Symbol(v) == 0 <==> v == 0
  {
  }

  // ---- the roots ----

  /** e^997, e^998 and e^999. */
  function Root(t: nat): bv10 { if t == 0 then 0xd else if t == 1 then 0x1a else 0x34 }

  /** Multiplication by a root. */
  function ByRoot(x: bv10, t: nat): bv10 { if t == 0 then By0(x) else if t == 1 then By1(x) else By2(x) }

  function By0(x: bv10): bv10 {
    K.Part(x, 0x1, 0xd) ^ K.Part(x, 0x2, 0x1a) ^ K.Part(x, 0x4, 0x34) ^ K.Part(x, 0x8, 0x68) ^ K.Part(x, 0x10, 0xd0)
    ^ K.Part(x, 0x20, 0x1a0) ^ K.Part(x, 0x40, 0x340) ^ K.Part(x, 0x80, 0xa5) ^ K.Part(x, 0x100, 0x14a)
    ^ K.Part(x, 0x200, 0x294)
  }

  function By1(x: bv10): bv10 {
    K.Part(x, 0x1, 0x1a) ^ K.Part(x, 0x2, 0x34) ^ K.Part(x, 0x4, 0x68) ^ K.Part(x, 0x8, 0xd0) ^ K.Part(x, 0x10, 0x1a0)
    ^ K.Part(x, 0x20, 0x340) ^ K.Part(x, 0x40, 0xa5) ^ K.Part(x, 0x80, 0x14a) ^ K.Part(x, 0x100, 0x294)
    ^ K.Part(x, 0x200, 0x30d)
  }

  function By2(x: bv10): bv10 {
    K.Part(x, 0x1, 0x34) ^ K.Part(x, 0x2, 0x68) ^ K.Part(x, 0x4, 0xd0) ^ K.Part(x, 0x8, 0x1a0) ^ K.Part(x, 0x10, 0x340)
    ^ K.Part(x, 0x20, 0xa5) ^ K.Part(x, 0x40, 0x14a) ^ K.Part(x, 0x80, 0x294) ^ K.Part(x, 0x100, 0x30d)
    ^ K.Part(x, 0x200, 0x3f)
  }

  lemma By0Split(x: bv10)
    ensures By0(x) == K.Add(K.Times(By0(K.Half(x))), K.Pick(K.Odd(x), 0xd)) && By0(0) == 0
  {
  }

  lemma By1Split(x: bv10)
    ensures By1(x) == K.Add(K.Times(By1(K.Half(x))), K.Pick(K.Odd(x), 0x1a)) && By1(0) == 0
  {
  }

  lemma By2Split(x: bv10)
    ensures By2(x) == K.Add(K.Times(By2(K.Half(x))), K.Pick(K.Odd(x), 0x34)) && By2(0) == 0
  {
  }

  lemma {:induction false} ByRootN(x: bv10, t: nat, n: nat)
    requires K.Small(x, n)
    ensures ByRoot(x, t) == K.MulN(Root(t), x, n)
    decreases n
  {
    hide K.Add; hide K.Times; hide K.Half; hide K.Odd; hide By0; hide By1; hide By2;
    By0Split(x);
    By1Split(x);
    By2Split(x);
    if n > 0 { ByRootN(K.Half(x), t, n - 1); }
  }

  lemma ByRootIs(x: bv10, t: nat)
    ensures ByRoot(x, t) == K.Mul(x, Root(t))
  {
    hide K.MulN; hide ByRoot;
    K.AllSmall(x);
    ByRootN(x, t, 10);
    K.MulCommutes(x, Root(t));
  }

  lemma ByRootAdd(x: bv10, y: bv10, t: nat)
    ensures ByRoot(K.Add(x, y), t) == K.Add(ByRoot(x, t), ByRoot(y, t))
  {
    hide K.Mul; hide K.Add; hide ByRoot;
    ByRootIs(K.Add(x, y), t);
    ByRootIs(x, t);
    ByRootIs(y, t);
    K.MulCommutes(K.Add(x, y), Root(t));
    K.MulCommutes(x, Root(t));
    K.MulCommutes(y, Root(t));
    K.MulAddRightOnce(Root(t), x, y);
  }

  lemma ByRootZero(t: nat)
    ensures ByRoot(0, t) == 0
  {
    hide K.Mul; hide ByRoot;
    ByRootIs(0, t);
    K.TimesNothing(Root(t));
  }

  // ---- a state as a polynomial, at a root ----

  function Rest(c: bv32): bv32 { c >> 5 }
  function Lowest(c: bv32): bv8 { (c & 31) as bv8 }

  /** One more coefficient. */
  function Next(x: bv10, v: bv8, t: nat): bv10 { K.Add(ByRoot(x, t), Symbol(v)) }

  /** The lower n symbols of a state as coefficients. */
  function Eval(c: bv32, t: nat, n: nat): bv10 {
    if n == 0 then 0 else Next(Eval(Rest(c), t, n - 1), Lowest(c), t)
  }

  lemma RestAdd(c: bv32, d: bv32)
    ensures Rest(Xor(c, d)) == Xor(Rest(c), Rest(d)) && Lowest(Xor(c, d)) == Xor8(Lowest(c), Lowest(d))
  {
  }

  lemma {:induction false} EvalAdd(c: bv32, d: bv32, t: nat, n: nat)
    ensures Eval(Xor(c, d), t, n) == K.Add(Eval(c, t, n), Eval(d, t, n))
    decreases n
  {
    hide K.Add; hide Xor; hide Rest; hide Lowest; hide ByRoot; hide Symbol; hide Xor8;
    if n == 0 {
      K.AddZero(0);
    } else {
      RestAdd(c, d);
      EvalAdd(Rest(c), Rest(d), t, n - 1);
      var x, y := Eval(Rest(c), t, n - 1), Eval(Rest(d), t, n - 1);
      ByRootAdd(x, y, t);
      SymbolAdd(Lowest(c), Lowest(d));
      K.AddSwap(ByRoot(x, t), ByRoot(y, t), Symbol(Lowest(c)), Symbol(Lowest(d)));
    }
  }

  predicate Fits(c: bv32, n: nat) { if n == 0 then c == 0 else Fits(Rest(c), n - 1) }

  lemma ZeroSymbol()
    ensures Rest(0) == 0 && Lowest(0) == 0 && Symbol(0) == 0
  {
  }

  lemma {:induction false} EvalFits(c: bv32, t: nat, n: nat)
    requires Fits(c, n)
    ensures Eval(c, t, n + 1) == Eval(c, t, n)
    decreases n
  {
    hide K.Add; hide Rest; hide Lowest; hide ByRoot; hide Symbol;
    if n == 0 {
      ZeroSymbol();
      ByRootZero(t);
      K.AddZero(0);
      assert Eval(Rest(c), t, 0) == 0;
    } else {
      EvalFits(Rest(c), t, n - 1);
    }
  }

  lemma {:induction false} EvalZero(t: nat, n: nat)
    ensures Eval(0, t, n) == 0
    decreases n
  {
    hide K.Add; hide Rest; hide Lowest; hide ByRoot; hide Symbol;
    if n > 0 {
      ZeroSymbol();
      EvalZero(t, n - 1);
      ByRootZero(t);
      K.AddZero(0);
    }
  }

  // ---- the generator has the roots ----

  function Group1(c: bv32): bv8 { ((c >> 5) & 31) as bv8 }
  function Group2(c: bv32): bv8 { ((c >> 10) & 31) as bv8 }
  function Group3(c: bv32): bv8 { ((c >> 15) & 31) as bv8 }
  function Group4(c: bv32): bv8 { ((c >> 20) & 31) as bv8 }
  function Group5(c: bv32): bv8 { ((c >> 25) & 31) as bv8 }

  /** A state of six symbols at a root, written out. */
  function AtRoot(c: bv32, t: nat): bv10 {
    Next(Next(Next(Next(Next(Symbol(Group5(c)), Group4(c), t), Group3(c), t), Group2(c), t), Group1(c), t),
         Lowest(c), t)
  }

  lemma Groups(c: bv32)
    ensures Lowest(Rest(c)) == Group1(c) && Lowest(Rest(Rest(c))) == Group2(c)
            && Lowest(Rest(Rest(Rest(c)))) == Group3(c)
    ensures Lowest(Rest(Rest(Rest(Rest(c))))) == Group4(c) && Lowest(Rest(Rest(Rest(Rest(Rest(c)))))) == Group5(c)
  {
  }

  lemma FirstCoefficient(v: bv8, t: nat)
    ensures Next(0, v, t) == Symbol(v)
  {
    hide ByRoot; hide Symbol; hide K.Add;
    ByRootZero(t);
    K.AddZero(Symbol(v));
  }

  lemma EvalIsAtRoot(c: bv32, t: nat)
    ensures Eval(c, t, 6) == AtRoot(c, t)
  {
    hide Next; hide Symbol; hide Rest; hide Lowest; hide Group1; hide Group2; hide Group3; hide Group4; hide Group5;
    Groups(c);
    var c1 := Rest(c);
    var c2 := Rest(c1);
    var c3 := Rest(c2);
    var c4 := Rest(c3);
    var c5 := Rest(c4);
    FirstCoefficient(Lowest(c5), t);
    assert Eval(Rest(c5), t, 0) == 0;
    assert Eval(c5, t, 1) == Symbol(Lowest(c5));
    assert Eval(c3, t, 3) == Next(Next(Eval(c5, t, 1), Lowest(c4), t), Lowest(c3), t);
    assert Eval(c1, t, 5) == Next(Next(Eval(c3, t, 3), Lowest(c2), t), Lowest(c1), t);
  }

  function At0(c: bv32): bv10 {
    var x := K.Add(By0(K.Add(By0(Symbol(Group5(c))), Symbol(Group4(c)))), Symbol(Group3(c)));
    K.Add(By0(K.Add(By0(K.Add(By0(x), Symbol(Group2(c)))), Symbol(Group1(c)))), Symbol(Lowest(c)))
  }

  function At1(c: bv32): bv10 {
    var x := K.Add(By1(K.Add(By1(Symbol(Group5(c))), Symbol(Group4(c)))), Symbol(Group3(c)));
    K.Add(By1(K.Add(By1(K.Add(By1(x), Symbol(Group2(c)))), Symbol(Group1(c)))), Symbol(Lowest(c)))
  }

  function At2(c: bv32): bv10 {
    var x := K.Add(By2(K.Add(By2(Symbol(Group5(c))), Symbol(Group4(c)))), Symbol(Group3(c)));
    K.Add(By2(K.Add(By2(K.Add(By2(x), Symbol(Group2(c)))), Symbol(Group1(c)))), Symbol(Lowest(c)))
  }

  /** A bit at the top, shifted out, is worth what it is replaced by. */
  predicate Replaces(g: bv32, bit: bv32) {
    At0(g) == By0(At0(bit)) && At1(g) == By1(At1(bit)) && At2(g) == By2(At2(bit))
  }

  /** The six symbols of a state, from the top. */
  predicate Has(c: bv32, s5: bv10, s4: bv10, s3: bv10, s2: bv10, s1: bv10, s0: bv10) {
    && Symbol(Group5(c)) == s5 && Symbol(Group4(c)) == s4 && Symbol(Group3(c)) == s3
    && Symbol(Group2(c)) == s2 && Symbol(Group1(c)) == s1 && Symbol(Lowest(c)) == s0
  }

  lemma Symbols0()
    ensures Has(0x3b6a57b2, 0x1c7, 0x2ec, 0x3a1, 0x3a0, 0x1c7, 0x6f) && Has(0x200_0000, 0x1, 0x0, 0x0, 0x0, 0x0, 0x0)
  {
  }

  lemma Symbols1()
    ensures Has(0x26508e6d, 0x6e, 0x282, 0x1, 0x14c, 0x6e, 0xe5) && Has(0x400_0000, 0x14d, 0x0, 0x0, 0x0, 0x0, 0x0)
  {
  }

  lemma Symbols2()
    ensures Has(0x1ea119fa, 0x1a8, 0x32a, 0x14d, 0x3ce, 0x1a8, 0x208) && Has(0x800_0000, 0x283, 0x0, 0x0, 0x0, 0x0, 0x0)
  {
  }

  lemma Symbols3()
    ensures Has(0x3d4233dd, 0x8b, 0x3a1, 0x283, 0xe4, 0x8b, 0x1c7) && Has(0x1000_0000, 0x267, 0x0, 0x0, 0x0, 0x0, 0x0)
  {
  }

  lemma Symbols4()
    ensures Has(0x2a1462b3, 0x3a0, 0x1, 0x267, 0x345, 0x3a0, 0x6e) && Has(0x2000_0000, 0x122, 0x0, 0x0, 0x0, 0x0, 0x0)
  {
  }

  /** The state at the root, one symbol after the other. */
  lemma Stages0(c: bv32, s5: bv10, s4: bv10, s3: bv10, s2: bv10, s1: bv10, s0: bv10,
                x4: bv10, x3: bv10, x2: bv10, x1: bv10, x0: bv10)
    requires Has(c, s5, s4, s3, s2, s1, s0)
    requires K.Add(By0(s5), s4) == x4 && K.Add(By0(x4), s3) == x3 && K.Add(By0(x3), s2) == x2
    requires K.Add(By0(x2), s1) == x1 && K.Add(By0(x1), s0) == x0
    ensures At0(c) == x0
  {
    hide By0; hide K.Add; hide Symbol; hide Lowest; hide Group1; hide Group2; hide Group3; hide Group4; hide Group5;
  }

  /** The state at the root, one symbol after the other. */
  lemma Stages1(c: bv32, s5: bv10, s4: bv10, s3: bv10, s2: bv10, s1: bv10, s0: bv10,
                x4: bv10, x3: bv10, x2: bv10, x1: bv10, x0: bv10)
    requires Has(c, s5, s4, s3, s2, s1, s0)
    requires K.Add(By1(s5), s4) == x4 && K.Add(By1(x4), s3) == x3 && K.Add(By1(x3), s2) == x2
    requires K.Add(By1(x2), s1) == x1 && K.Add(By1(x1), s0) == x0
    ensures At1(c) == x0
  {
    hide By1; hide K.Add; hide Symbol; hide Lowest; hide Group1; hide Group2; hide Group3; hide Group4; hide Group5;
  }

  /** The state at the root, one symbol after the other. */
  lemma Stages2(c: bv32, s5: bv10, s4: bv10, s3: bv10, s2: bv10, s1: bv10, s0: bv10,
                x4: bv10, x3: bv10, x2: bv10, x1: bv10, x0: bv10)
    requires Has(c, s5, s4, s3, s2, s1, s0)
    requires K.Add(By2(s5), s4) == x4 && K.Add(By2(x4), s3) == x3 && K.Add(By2(x3), s2) == x2
    requires K.Add(By2(x2), s1) == x1 && K.Add(By2(x1), s0) == x0
    ensures At2(c) == x0
  {
    hide By2; hide K.Add; hide Symbol; hide Lowest; hide Group1; hide Group2; hide Group3; hide Group4; hide Group5;
  }

  lemma Bit0Root0()
    ensures At0(0x3b6a57b2) == By0(At0(0x200_0000))
  {
    hide Has; hide At0;
    Symbols0();
    Stages0(0x3b6a57b2, 0x1c7, 0x2ec, 0x3a1, 0x3a0, 0x1c7, 0x6f,
            0x60, 0x141, 0x1a7, 0x1ab, 0x5f);
    Stages0(0x200_0000, 0x1, 0x0, 0x0, 0x0, 0x0, 0x0,
            0xd, 0x51, 0x39d, 0x3fa, 0x139);
    assert By0(0x139) == 0x5f;
  }

  lemma Bit0Root1()
    ensures At1(0x3b6a57b2) == By1(At1(0x200_0000))
  {
    hide Has; hide At1;
    Symbols0();
    Stages1(0x3b6a57b2, 0x1c7, 0x2ec, 0x3a1, 0x3a0, 0x1c7, 0x6f,
            0x1d1, 0x160, 0x2d1, 0x29f, 0x31e);
    Stages1(0x200_0000, 0x1, 0x0, 0x0, 0x0, 0x0, 0x0,
            0x1a, 0x144, 0x259, 0x2c2, 0x2d6);
    assert By1(0x2d6) == 0x31e;
  }

  lemma Bit0Root2()
    ensures At2(0x3b6a57b2) == By2(At2(0x200_0000))
  {
    hide Has; hide At2;
    Symbols0();
    Stages2(0x3b6a57b2, 0x1c7, 0x2ec, 0x3a1, 0x3a0, 0x1c7, 0x6f,
            0x2b3, 0x2b3, 0x2b2, 0xe1, 0x320);
    Stages2(0x200_0000, 0x1, 0x0, 0x0, 0x0, 0x0, 0x0,
            0x34, 0x335, 0x33, 0x3b9, 0x3d7);
    assert By2(0x3d7) == 0x320;
  }

  lemma Bit1Root0()
    ensures At0(0x26508e6d) == By0(At0(0x400_0000))
  {
    hide Has; hide At0;
    Symbols1();
    Stages0(0x26508e6d, 0x6e, 0x282, 0x1, 0x14c, 0x6e, 0xe5,
            0x24, 0x195, 0x4a, 0x35c, 0xf7);
    Stages0(0x400_0000, 0x14d, 0x0, 0x0, 0x0, 0x0, 0x0,
            0x25b, 0x17b, 0x305, 0x3e7, 0x1b8);
    assert By0(0x1b8) == 0xf7;
  }

  lemma Bit1Root1()
    ensures At1(0x26508e6d) == By1(At1(0x400_0000))
  {
    hide Has; hide At1;
    Symbols1();
    Stages1(0x26508e6d, 0x6e, 0x282, 0x1, 0x14c, 0x6e, 0xe5,
            0x1eb, 0xc4, 0xcb, 0x17f, 0xa2);
    Stages1(0x400_0000, 0x14d, 0x0, 0x0, 0x0, 0x0, 0x0,
            0x293, 0x3c9, 0xbc, 0x312, 0xd);
    assert By1(0xd) == 0xa2;
  }

  lemma Bit1Root2()
    ensures At2(0x26508e6d) == By2(At2(0x400_0000))
  {
    hide Has; hide At2;
    Symbols1();
    Stages2(0x26508e6d, 0x6e, 0x282, 0x1, 0x14c, 0x6e, 0xe5,
            0x275, 0x275, 0x338, 0x119, 0x13c);
    Stages2(0x400_0000, 0x14d, 0x0, 0x0, 0x0, 0x0, 0x0,
            0x303, 0x36e, 0x3c5, 0x8, 0x1a0);
    assert By2(0x1a0) == 0x13c;
  }

  lemma Bit2Root0()
    ensures At0(0x1ea119fa) == By0(At0(0x800_0000))
  {
    hide Has; hide At0;
    Symbols2();
    Stages0(0x1ea119fa, 0x1a8, 0x32a, 0x14d, 0x3ce, 0x1a8, 0x208,
            0x30d, 0x2c2, 0x2a5, 0x200, 0x9c);
    Stages0(0x800_0000, 0x283, 0x0, 0x0, 0x0, 0x0, 0x0,
            0x226, 0x31a, 0x37c, 0x1b2, 0x85);
    assert By0(0x85) == 0x9c;
  }

  lemma Bit2Root1()
    ensures At1(0x1ea119fa) == By1(At1(0x800_0000))
  {
    hide Has; hide At1;
    Symbols2();
    Stages1(0x1ea119fa, 0x1a8, 0x32a, 0x14d, 0x3ce, 0x1a8, 0x208,
            0x364, 0x359, 0x398, 0xb, 0x2f6);
    Stages1(0x800_0000, 0x283, 0x0, 0x0, 0x0, 0x0, 0x0,
            0x269, 0x22, 0x374, 0x3b4, 0x25b);
    assert By1(0x25b) == 0x2f6;
  }

  lemma Bit2Root2()
    ensures At2(0x1ea119fa) == By2(At2(0x800_0000))
  {
    hide Has; hide At2;
    Symbols2();
    Stages2(0x1ea119fa, 0x1a8, 0x32a, 0x14d, 0x3ce, 0x1a8, 0x208,
            0x3b6, 0x3b6, 0x135, 0x1a4, 0x3e4);
    Stages2(0x800_0000, 0x283, 0x0, 0x0, 0x0, 0x0, 0x0,
            0x2f7, 0x88, 0x334, 0x7, 0x8c);
    assert By2(0x8c) == 0x3e4;
  }

  lemma Bit3Root0()
    ensures At0(0x3d4233dd) == By0(At0(0x1000_0000))
  {
    hide Has; hide At0;
    Symbols3();
    Stages0(0x3d4233dd, 0x8b, 0x3a1, 0x283, 0xe4, 0x8b, 0x1c7,
            0x37b, 0x312, 0x3f0, 0x1c0, 0x368);
    Stages0(0x1000_0000, 0x267, 0x0, 0x0, 0x0, 0x0, 0x0,
            0x57, 0x3b3, 0x21c, 0x218, 0x22c);
    assert By0(0x22c) == 0x368;
  }

  lemma Bit3Root1()
    ensures At1(0x3d4233dd) == By1(At1(0x1000_0000))
  {
    hide Has; hide At1;
    Symbols3();
    Stages1(0x3d4233dd, 0x8b, 0x3a1, 0x283, 0xe4, 0x8b, 0x1c7,
            0x215, 0x5c, 0x159, 0x3d0, 0x11);
    Stages1(0x1000_0000, 0x267, 0x0, 0x0, 0x0, 0x0, 0x0,
            0xae, 0x286, 0x21b, 0x253, 0x226);
    assert By1(0x226) == 0x11;
  }

  lemma Bit3Root2()
    ensures At2(0x3d4233dd) == By2(At2(0x1000_0000))
  {
    hide Has; hide At2;
    Symbols3();
    Stages2(0x3d4233dd, 0x8b, 0x3a1, 0x283, 0xe4, 0x8b, 0x1c7,
            0xc9, 0xc9, 0x2ae, 0x39d, 0x265);
    Stages2(0x1000_0000, 0x267, 0x0, 0x0, 0x0, 0x0, 0x0,
            0x15c, 0x77, 0x223, 0xc6, 0x366);
    assert By2(0x366) == 0x265;
  }

  lemma Bit4Root0()
    ensures At0(0x2a1462b3) == By0(At0(0x2000_0000))
  {
    hide Has; hide At0;
    Symbols4();
    Stages0(0x2a1462b3, 0x3a0, 0x1, 0x267, 0x345, 0x3a0, 0x6e,
            0x2da, 0x3b4, 0x17a, 0xa8, 0x103);
    Stages0(0x2000_0000, 0x122, 0x0, 0x0, 0x0, 0x0, 0x0,
            0xf0, 0x295, 0x2d8, 0x1c9, 0x2ca);
    assert By0(0x2ca) == 0x103;
  }

  lemma Bit4Root1()
    ensures At1(0x2a1462b3) == By1(At1(0x2000_0000))
  {
    hide Has; hide At1;
    Symbols4();
    Stages1(0x2a1462b3, 0x3a0, 0x1, 0x267, 0x345, 0x3a0, 0x6e,
            0x392, 0x320, 0x19c, 0x166, 0x143);
    Stages1(0x2000_0000, 0x122, 0x0, 0x0, 0x0, 0x0, 0x0,
            0x1e0, 0x3b, 0x21e, 0x221, 0x57);
    assert By1(0x57) == 0x143;
  }

  lemma Bit4Root2()
    ensures At2(0x2a1462b3) == By2(At2(0x2000_0000))
  {
    hide Has; hide At2;
    Symbols4();
    Stages2(0x2a1462b3, 0x3a0, 0x1, 0x267, 0x345, 0x3a0, 0x6e,
            0x102, 0x102, 0x20, 0x305, 0x3b8);
    Stages2(0x2000_0000, 0x122, 0x0, 0x0, 0x0, 0x0, 0x0,
            0x3c0, 0xec, 0x20b, 0x1c3, 0x8f);
    assert By2(0x8f) == 0x3b8;
  }

  /** The generator has the three roots, and so have its multiples. */
  lemma Generators()
    ensures Replaces(0x3b6a57b2, 0x200_0000)
    ensures Replaces(0x26508e6d, 0x400_0000)
    ensures Replaces(0x1ea119fa, 0x800_0000)
    ensures Replaces(0x3d4233dd, 0x1000_0000)
    ensures Replaces(0x2a1462b3, 0x2000_0000)
  {
    hide At0; hide At1; hide At2; hide By0; hide By1; hide By2;
    Bit0Root0(); Bit1Root0(); Bit2Root0(); Bit3Root0(); Bit4Root0();
    Bit0Root1(); Bit1Root1(); Bit2Root1(); Bit3Root1(); Bit4Root1();
    Bit0Root2(); Bit1Root2(); Bit2Root2(); Bit3Root2(); Bit4Root2();
  }

  function Upper(c: bv32): bv32 { c & 0x3e00_0000 }
  function Under(c: bv32): bv32 { c & 0x1ff_ffff }

  lemma Halves(c: bv32)
    requires c < 0x4000_0000
    ensures c == Xor(Under(c), Upper(c))
    ensures Upper(c) == Xor5(Part(c, 0x200_0000, 0x200_0000), Part(c, 0x400_0000, 0x400_0000),
                             Part(c, 0x800_0000, 0x800_0000),
                             Part(c, 0x1000_0000, 0x1000_0000), Part(c, 0x2000_0000, 0x2000_0000))
  {
  }

  lemma At0Is(c: bv32)
    ensures AtRoot(c, 0) == At0(c)
  {
    hide K.Add; hide By0; hide By1; hide By2; hide Symbol; hide Lowest; hide Group1; hide Group2; hide Group3;
    hide Group4; hide Group5;
  }

  lemma At1Is(c: bv32)
    ensures AtRoot(c, 1) == At1(c)
  {
    hide K.Add; hide By0; hide By1; hide By2; hide Symbol; hide Lowest; hide Group1; hide Group2; hide Group3;
    hide Group4; hide Group5;
  }

  lemma At2Is(c: bv32)
    ensures AtRoot(c, 2) == At2(c)
  {
    hide K.Add; hide By0; hide By1; hide By2; hide Symbol; hide Lowest; hide Group1; hide Group2; hide Group3;
    hide Group4; hide Group5;
  }

  lemma AtRootIs(c: bv32, t: nat)
    requires t < 3
    ensures Eval(c, t, 6) == if t == 0 then At0(c) else if t == 1 then At1(c) else At2(c)
  {
    hide Eval; hide AtRoot; hide At0; hide At1; hide At2;
    EvalIsAtRoot(c, t);
    At0Is(c);
    At1Is(c);
    At2Is(c);
  }

  lemma Piece(c: bv32, bit: bv32, g: bv32, t: nat)
    requires Replaces(g, bit) && t < 3
    ensures Eval(Part(c, bit, g), t, 6) == ByRoot(Eval(Part(c, bit, bit), t, 6), t)
  {
    hide At0; hide At1; hide At2; hide By0; hide By1; hide By2; hide Eval;
    AtRootIs(g, t);
    AtRootIs(bit, t);
    EvalZero(t, 6);
    ByRootZero(t);
  }

  lemma EvalXor5(a: bv32, b: bv32, c: bv32, d: bv32, e: bv32, t: nat)
    ensures Eval(Xor5(a, b, c, d, e), t, 6)
         == K.Add(K.Add(K.Add(K.Add(Eval(a, t, 6), Eval(b, t, 6)), Eval(c, t, 6)), Eval(d, t, 6)), Eval(e, t, 6))
  {
    hide Eval; hide K.Add; hide Xor;
    EvalAdd(a, b, t, 6);
    EvalAdd(Xor(a, b), c, t, 6);
    EvalAdd(Xor(Xor(a, b), c), d, t, 6);
    EvalAdd(Xor(Xor(Xor(a, b), c), d), e, t, 6);
  }

  lemma ByRootSum(a: bv10, b: bv10, c: bv10, d: bv10, e: bv10, t: nat)
    ensures ByRoot(K.Add(K.Add(K.Add(K.Add(a, b), c), d), e), t)
         == K.Add(K.Add(K.Add(K.Add(ByRoot(a, t), ByRoot(b, t)), ByRoot(c, t)), ByRoot(d, t)), ByRoot(e, t))
  {
    hide K.Add; hide ByRoot;
    ByRootAdd(a, b, t);
    ByRootAdd(K.Add(a, b), c, t);
    ByRootAdd(K.Add(K.Add(a, b), c), d, t);
    ByRootAdd(K.Add(K.Add(K.Add(a, b), c), d), e, t);
  }

  /** What is shifted out at the top comes back as its value at the root. */
  lemma FoldAtRoot(c: bv32, t: nat)
    requires c < 0x4000_0000 && t < 3
    ensures Eval(Fold(c), t, 6) == ByRoot(Eval(Upper(c), t, 6), t)
  {
    hide ByRoot; hide Part; hide Eval; hide AtRoot; hide Upper; hide Under; hide Xor; hide Xor5; hide K.Add;
    hide Replaces;
    Halves(c);
    Generators();
    Piece(c, 0x200_0000, 0x3b6a57b2, t);
    Piece(c, 0x400_0000, 0x26508e6d, t);
    Piece(c, 0x800_0000, 0x1ea119fa, t);
    Piece(c, 0x1000_0000, 0x3d4233dd, t);
    Piece(c, 0x2000_0000, 0x2a1462b3, t);
    EvalXor5(Part(c, 0x200_0000, 0x3b6a57b2), Part(c, 0x400_0000, 0x26508e6d), Part(c, 0x800_0000, 0x1ea119fa),
             Part(c, 0x1000_0000, 0x3d4233dd), Part(c, 0x2000_0000, 0x2a1462b3), t);
    var b0, b1, b2, b3, b4 := Part(c, 0x200_0000, 0x200_0000), Part(c, 0x400_0000, 0x400_0000),
                              Part(c, 0x800_0000, 0x800_0000),
                              Part(c, 0x1000_0000, 0x1000_0000), Part(c, 0x2000_0000, 0x2000_0000);
    EvalXor5(b0, b1, b2, b3, b4, t);
    ByRootSum(Eval(b0, t, 6), Eval(b1, t, 6), Eval(b2, t, 6), Eval(b3, t, 6), Eval(b4, t, 6), t);
  }

  // ---- one step at a root ----

  lemma FiveRests(c: bv32)
    ensures Rest(Rest(Rest(Rest(Rest(Under(c)))))) == 0
  {
  }

  lemma UnderFits(c: bv32)
    ensures Fits(Under(c), 5)
  {
    hide Rest; hide Under;
    FiveRests(c);
    var d := Rest(Rest(Rest(Under(c))));
    assert Rest(Rest(d)) == 0;
    assert Fits(Rest(Rest(d)), 0);
    assert Fits(Rest(d), 1);
    assert Fits(d, 2);
    assert Fits(Rest(Rest(Under(c))), 3);
    assert Fits(Rest(Under(c)), 4);
  }

  lemma Shifted(c: bv32, v: bv8)
    requires v < 32
    ensures Rest(Xor(Shift(c), Wide(v))) == Under(c) && Lowest(Xor(Shift(c), Wide(v))) == v
  {
  }

  lemma ShiftedAtRoot(c: bv32, v: bv8, t: nat)
    requires v < 32
    ensures Eval(Xor(Shift(c), Wide(v)), t, 6) == Next(Eval(Under(c), t, 6), v, t)
  {
    hide Shift; hide Wide; hide Xor; hide Under; hide Rest; hide Lowest; hide Next; hide Fits;
    Shifted(c, v);
    UnderFits(c);
    EvalFits(Under(c), t, 5);
  }

  lemma Regrouped(a: bv10, s: bv10, b: bv10)
    ensures K.Add(K.Add(a, s), b) == K.Add(K.Add(a, b), s)
  {
    hide K.Add;
    K.AddAssoc(a, s, b);
    K.AddCommutes(s, b);
    K.AddAssoc(a, b, s);
  }

  /** A step multiplies by the root and adds the symbol. */
  lemma StepAtRoot(c: bv32, v: bv8, t: nat)
    requires c < 0x4000_0000 && v < 32 && t < 3
    ensures Eval(Step(c, v), t, 6) == Next(Eval(c, t, 6), v, t)
  {
    hide Shift; hide Wide; hide Fold; hide Xor; hide Xor5; hide Part; hide Upper; hide Under; hide Symbol;
    hide ByRoot; hide K.Add; hide Eval;
    Halves(c);
    var w, lo, hi := Xor(Shift(c), Wide(v)), Eval(Under(c), t, 6), Eval(Upper(c), t, 6);
    ShiftedAtRoot(c, v, t);
    EvalAdd(w, Fold(c), t, 6);
    FoldAtRoot(c, t);
    EvalAdd(Under(c), Upper(c), t, 6);
    ByRootAdd(lo, hi, t);
    Regrouped(ByRoot(lo, t), Symbol(v), ByRoot(hi, t));
  }
}
