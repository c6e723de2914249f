/** Known strings of BIP 173 and BIP 350, and upper case: what decoding makes of them. The longer two
    hold every symbol, so they fix the character table and, with it, the expansion of the human
    readable part, the generator and the constants of both encodings. */
module Bech32Vectors {
  import opened Bech32Spec
  import opened B = Bech32

  // ---- upper case ----

  predicate NoLower(str: Data) { forall i | 0 <= i < |str| :: !IsLower(str[i]) }

  lemma LowerCharacter(c: bv8)
    ensures ToLower(ToLower(c)) == ToLower(c) && (ToLower(c) == SEPARATOR <==> c == SEPARATOR)
    ensures Printable(ToLower(c)) <==> Printable(c)
    ensures !IsUpper(ToLower(c))
  {
  }

  lemma {:induction false} LowerLastSeparator(str: Data)
    ensures LastSeparator(LowerAll(str)) == LastSeparator(str)
    decreases |str|
  {
    if str != [] {
      var rest := str[..|str| - 1];
      LowerCharacter(str[|str| - 1]);
      LowerLastSeparator(rest);
      assert LowerAll(str)[..|str| - 1] == LowerAll(rest);
    }
  }

  lemma LowerCharactersOk(str: Data)
    requires NoLower(str)
    ensures CharactersOk(LowerAll(str)) <==> CharactersOk(str)
  {
    forall i | 0 <= i < |str|
      ensures Printable(LowerAll(str)[i]) <==> Printable(str[i])
      ensures !IsUpper(LowerAll(str)[i])
    {
      LowerCharacter(str[i]);
    }
    hide Printable; hide IsUpper; hide IsLower; hide ToLower;
    assert forall i | 0 <= i < |str| :: LowerAll(str)[i] == ToLower(str[i]);
  }

  lemma LowerPieces(str: Data, pos: nat)
    requires pos < |str|
    ensures SymbolsOf(LowerAll(str)[pos + 1..]) == SymbolsOf(str[pos + 1..])
    ensures LowerAll(LowerAll(str)[..pos]) == LowerAll(str[..pos])
  {
    hide RevLower; hide ToLower;
    forall i | 0 <= i < |str|
      ensures ToLower(LowerAll(str)[i]) == ToLower(str[i])
    {
      LowerCharacter(str[i]);
    }
    assert SymbolsOf(LowerAll(str)[pos + 1..]) == SymbolsOf(str[pos + 1..]);
  }

  /** A string without lower case letters decodes like the same string in lower case. */
  lemma UpperDecodesAlike(str: Data)
    requires NoLower(str)
    ensures Decode(str) == Decode(LowerAll(str))
  {
    hide CharactersOk; hide Opened; hide LastSeparator;
    LowerLastSeparator(str);
    LowerCharactersOk(str);
    var pos := LastSeparator(str);
    if 0 <= pos < |str| {
      LowerPieces(str, pos);
    }
  }

  // ---- the strings ----

  const ABCDEF: Data := [0x61, 0x62, 0x63, 0x64, 0x65, 0x66]

  const RISING_0: Data := [0, 1, 2, 3, 4, 5, 6, 7]
  const RISING_1: Data := [8, 9, 10, 11, 12, 13, 14, 15]
  const RISING_2: Data := [16, 17, 18, 19, 20, 21, 22, 23]
  const RISING_3: Data := [24, 25, 26, 27, 28, 29, 30, 31]
  const RISING: Data := RISING_0 + RISING_1 + RISING_2 + RISING_3

  const FALLING_0: Data := [31, 30, 29, 28, 27, 26, 25, 24]
  const FALLING_1: Data := [23, 22, 21, 20, 19, 18, 17, 16]
  const FALLING_2: Data := [15, 14, 13, 12, 11, 10, 9, 8]
  const FALLING_3: Data := [7, 6, 5, 4, 3, 2, 1, 0]
  const FALLING: Data := FALLING_0 + FALLING_1 + FALLING_2 + FALLING_3

  // ---- running the checksum over known symbols ----

  lemma Three(c0: bv32, c1: bv32, c2: bv32, c3: bv32, v1: bv8, v2: bv8, v3: bv8)
    requires Step(c0, v1) == c1 && Step(c1, v2) == c2 && Step(c2, v3) == c3
    ensures Poly(c0, [v1, v2, v3]) == c3
  {
    hide Step;
    assert [v1, v2, v3][..2] == [v1, v2] && [v1, v2][..1] == [v1] && [v1][..0] == [];
    assert Poly(c0, [v1]) == c1 && Poly(c0, [v1, v2]) == c2;
  }

  lemma Four(c0: bv32, c1: bv32, c2: bv32, c3: bv32, c4: bv32, v1: bv8, v2: bv8, v3: bv8, v4: bv8)
    requires Step(c0, v1) == c1 && Step(c1, v2) == c2 && Step(c2, v3) == c3 && Step(c3, v4) == c4
    ensures Poly(c0, [v1, v2, v3, v4]) == c4
  {
    hide Step;
    Three(c0, c1, c2, c3, v1, v2, v3);
    assert [v1, v2, v3, v4][..3] == [v1, v2, v3];
  }

  lemma Rising0()
    ensures Poly(0x3be80e6a, RISING_0) == 0x11e88668
  {
    hide Poly;
    Four(0x3be80e6a, 0xf9cd266, 0x30018ce4, 0x1767cdec, 0xc815781, 0, 1, 2, 3);
    Four(0xc815781, 0x28db67b3, 0x2fd98d2c, 0x12be0710, 0x11e88668, 4, 5, 6, 7);
    var a, b: Data := [0, 1, 2, 3], [4, 5, 6, 7];
    assert RISING_0 == a + b;
    PolyConcat(0x3be80e6a, a, b);
  }

  lemma Rising1()
    ensures Poly(0x11e88668, RISING_1) == 0x31223f8a
  {
    hide Poly;
    Four(0x11e88668, 0x52fed5, 0xa5fdaa9, 0x2e301b62, 0x2f8ccedd, 8, 9, 10, 11);
    Four(0x2f8ccedd, 0x1816793a, 0x212c0d6a, 0xf95cffd, 0x31223f8a, 12, 13, 14, 15);
    var a, b: Data := [8, 9, 10, 11], [12, 13, 14, 15];
    assert RISING_1 == a + b;
    PolyConcat(0x11e88668, a, b);
  }

  lemma Rising2()
    ensures Poly(0x31223f8a, RISING_2) == 0x297c48e0
  {
    hide Poly;
    Four(0x31223f8a, 0x3311a03e, 0xe08010d, 0x29be197, 0x28166541, 16, 17, 18, 19);
    Four(0x28166541, 0x3679d37d, 0x556e704, 0xc8c6efb, 0x297c48e0, 20, 21, 22, 23);
    var a, b: Data := [16, 17, 18, 19], [20, 21, 22, 23];
    assert RISING_2 == a + b;
    PolyConcat(0x31223f8a, a, b);
  }

  lemma Rising3()
    ensures Poly(0x297c48e0, RISING_3) == 0x1a0d3656
  {
    hide Poly;
    Four(0x297c48e0, 0x1b3c6751, 0x3f0597ac, 0x347f64d1, 0x3eea4538, 24, 25, 26, 27);
    Four(0x3eea4538, 0x9853657, 0x2e07d307, 0x2975c268, 0x1a0d3656, 28, 29, 30, 31);
    var a, b: Data := [24, 25, 26, 27], [28, 29, 30, 31];
    assert RISING_3 == a + b;
    PolyConcat(0x297c48e0, a, b);
  }

  lemma Falling0()
    ensures Poly(0x3be80e6a, FALLING_0) == 0x387a7c0c
  {
    hide Poly;
    Four(0x3be80e6a, 0xf9cd279, 0x30018f1b, 0x1767b213, 0xc8ea87e, 31, 30, 29, 28);
    Four(0xc8ea87e, 0x2924984c, 0x102672d3, 0x398c69a4, 0x387a7c0c, 27, 26, 25, 24);
    var a, b: Data := [31, 30, 29, 28], [27, 26, 25, 24];
    assert FALLING_0 == a + b;
    PolyConcat(0x3be80e6a, a, b);
  }

  lemma Falling1()
    ensures Poly(0x387a7c0c, FALLING_1) == 0x351f9f3
  {
    hide Poly;
    Four(0x387a7c0c, 0x6b8c903, 0xa23f9a9, 0x21b47b7d, 0x1c9b0d07, 23, 22, 21, 20);
    Four(0x1c9b0d07, 0x16d204b9, 0x3a387d30, 0x3592b937, 0x351f9f3, 19, 18, 17, 16);
    var a, b: Data := [23, 22, 21, 20], [19, 18, 17, 16];
    assert FALLING_1 == a + b;
    PolyConcat(0x387a7c0c, a, b);
  }

  lemma Falling2()
    ensures Poly(0x351f9f3, FALLING_2) == 0x160e43ba
  {
    hide Poly;
    Four(0x351f9f3, 0x115569dd, 0x17ef0873, 0x1d99e46f, 0x368f29a6, 15, 14, 13, 12);
    Four(0x368f29a6, 0x1b89bc7a, 0x29bef2df, 0x36b20a0, 0x160e43ba, 11, 10, 9, 8);
    var a, b: Data := [15, 14, 13, 12], [11, 10, 9, 8];
    assert FALLING_2 == a + b;
    PolyConcat(0x351f9f3, a, b);
  }

  lemma Falling3()
    ensures Poly(0x160e43ba, FALLING_3) == 0xcd42356
  {
    hide Poly;
    Four(0x160e43ba, 0x21b09d45, 0x1c07ca15, 0x54ae6ef, 0xf0c5389, 7, 6, 5, 4);
    Four(0xf0c5389, 0x2211b106, 0x134815c3, 0x2f2adc0e, 0xcd42356, 3, 2, 1, 0);
    var a, b: Data := [7, 6, 5, 4], [3, 2, 1, 0];
    assert FALLING_3 == a + b;
    PolyConcat(0x160e43ba, a, b);
  }

  lemma ExpandedRun()
    ensures Poly(1, Expand(ABCDEF)) == 0x3be80e6a
  {
    hide Poly;
    var a, b, c, d: Data := [3, 3, 3, 3], [3, 3, 0], [1, 2, 3], [4, 5, 6];
    assert Expand(ABCDEF) == a + b + c + d;
    Four(0x1, 0x23, 0x463, 0x8c63, 0x118c63, 3, 3, 3, 3);
    Three(0x118c63, 0x2318c63, 0x3d5bdbd1, 0x4dcbcd9, 3, 3, 0);
    Three(0x4dcbcd9, 0x3dc7154c, 0x17456f7b, 0x8d50561, 1, 2, 3);
    Three(0x8d50561, 0x401b5de, 0x266635a8, 0x3be80e6a, 4, 5, 6);
    PolyConcat(1, a, b);
    PolyConcat(1, a + b, c);
    PolyConcat(1, a + b + c, d);
  }

  lemma RisingRun()
    ensures Poly(0x3be80e6a, RISING) == 0x1a0d3656
  {
    hide Poly;
    Rising0();
    Rising1();
    Rising2();
    Rising3();
    var a, b, c, d := RISING_0, RISING_1, RISING_2, RISING_3;
    PolyConcat(0x3be80e6a, a, b);
    PolyConcat(0x3be80e6a, a + b, c);
    PolyConcat(0x3be80e6a, a + b + c, d);
  }

  lemma FallingRun()
    ensures Poly(0x3be80e6a, FALLING) == 0xcd42356
  {
    hide Poly;
    Falling0();
    Falling1();
    Falling2();
    Falling3();
    var a, b, c, d := FALLING_0, FALLING_1, FALLING_2, FALLING_3;
    PolyConcat(0x3be80e6a, a, b);
    PolyConcat(0x3be80e6a, a + b, c);
    PolyConcat(0x3be80e6a, a + b + c, d);
  }

  lemma RisingChecksum()
    ensures Checksum(Bech32Spec.Bech32, ABCDEF, RISING) == [27, 0, 0, 0, 6, 14]
  {
    hide Poly; hide Expand; hide Checksum;
    var a, b: Data := [27, 0, 0], [0, 6, 14];
    ExpandedRun();
    RisingRun();
    Three(0x1a0d3656, 0x192fb74e, 0x615c3e7, 0x1f82a53f, 27, 0, 0);
    Three(0x1f82a53f, 0xe8d5418, 0x12314323, 0x1, 0, 6, 14);
    PolyConcat(0x1a0d3656, a, b);
    PolyConcat(1, Expand(ABCDEF), RISING);
    PolyConcat(1, Expand(ABCDEF) + RISING, a + b);
    ChecksumUnique(Bech32Spec.Bech32, ABCDEF, RISING, a + b);
  }

  lemma FallingChecksum()
    ensures Checksum(Bech32m, ABCDEF, FALLING) == [2, 13, 17, 3, 4, 6]
  {
    hide Poly; hide Expand; hide Checksum;
    var a, b: Data := [2, 13, 17], [3, 4, 6];
    ExpandedRun();
    FallingRun();
    Three(0xcd42356, 0x2275fd55, 0x1fc19fac, 0x6ea0669, 2, 13, 17);
    Three(0x6ea0669, 0x7a14fc, 0xf429f84, 0x2bc830a3, 3, 4, 6);
    PolyConcat(0xcd42356, a, b);
    PolyConcat(1, Expand(ABCDEF), FALLING);
    PolyConcat(1, Expand(ABCDEF) + FALLING, a + b);
    ChecksumUnique(Bech32m, ABCDEF, FALLING, a + b);
  }

  lemma EmptyChecksum()
    ensures Checksum(Bech32Spec.Bech32, [0x61], []) == [10, 28, 25, 31, 20, 31]
    ensures Checksum(Bech32m, [0x61], []) == [31, 0, 9, 19, 17, 29]
  {
    hide Poly; hide Checksum;
    var none: Data := [];
    assert Expand([0x61]) == [3, 0, 1] && Expand([0x61]) + none == Expand([0x61]);
    Three(0x1, 0x23, 0x460, 0x8c01, 3, 0, 1);
    EmptyBech32();
    EmptyBech32m();
    hide Expand;
    PolyConcat(1, [3, 0, 1], [10, 28, 25, 31, 20, 31]);
    PolyConcat(1, [3, 0, 1], [31, 0, 9, 19, 17, 29]);
    ChecksumUnique(Bech32Spec.Bech32, [0x61], none, [10, 28, 25, 31, 20, 31]);
    ChecksumUnique(Bech32m, [0x61], none, [31, 0, 9, 19, 17, 29]);
  }

  lemma EmptyBech32()
    ensures Poly(0x8c01, [10, 28, 25, 31, 20, 31]) == 1
  {
    hide Poly;
    Three(0x8c01, 0x11802a, 0x230055c, 0x3d6afc2b, 10, 28, 25);
    Three(0x3d6afc2b, 0x2f84386, 0x24622766, 0x1, 31, 20, 31);
    var a, b: Data := [10, 28, 25], [31, 20, 31];
    assert [10, 28, 25, 31, 20, 31] == a + b;
    PolyConcat(0x8c01, a, b);
  }

  lemma EmptyBech32m()
    ensures Poly(0x8c01, [31, 0, 9, 19, 17, 29]) == 0x2bc830a3
  {
    hide Poly;
    Three(0x8c01, 0x11803f, 0x23007e0, 0x3d6aabbb, 31, 0, 9);
    Three(0x3d6aabbb, 0x2f2b18a, 0x253c66e3, 0x2bc830a3, 19, 17, 29);
    var a, b: Data := [31, 0, 9], [19, 17, 29];
    assert [31, 0, 9, 19, 17, 29] == a + b;
    PolyConcat(0x8c01, a, b);
  }

  // ---- the texts ----

  /** The bytes of an ASCII text. */
  function Bytes(s: string): Data { seq(|s|, i requires 0 <= i < |s| => Byte(s[i])) }

  function Byte(c: char): bv8 { if (c as int) < 256 then (c as int) as bv8 else 0 }

  lemma BytesJoin(s: string, t: string)
    ensures Bytes(s + t) == Bytes(s) + Bytes(t)
  {
  }

  lemma TextJoin(v: Data, w: Data)
    ensures Text(v + w) == Text(v) + Text(w)
  {
  }

  /** Symbols and their characters, six at a time. */
  lemma Spell6(v1: bv8, v2: bv8, v3: bv8, v4: bv8, v5: bv8, v6: bv8,
              c1: char, c2: char, c3: char, c4: char, c5: char, c6: char)
    requires Chr(v1) == Byte(c1) && Chr(v2) == Byte(c2) && Chr(v3) == Byte(c3) && Chr(v4) == Byte(c4)
    requires Chr(v5) == Byte(c5) && Chr(v6) == Byte(c6)
    ensures Text([v1, v2, v3, v4, v5, v6]) == Bytes([c1, c2, c3, c4, c5, c6])
  {
    hide Chr; hide Byte;
    var v, s := [v1, v2, v3, v4, v5, v6], [c1, c2, c3, c4, c5, c6];
    assert forall i | 0 <= i < 6 :: Chr(v[i]) == Byte(s[i]);
  }

  /** Symbols and their characters, eight at a time. */
  lemma Spell8(v1: bv8, v2: bv8, v3: bv8, v4: bv8, v5: bv8, v6: bv8, v7: bv8, v8: bv8,
              c1: char, c2: char, c3: char, c4: char, c5: char, c6: char, c7: char, c8: char)
    requires Chr(v1) == Byte(c1) && Chr(v2) == Byte(c2) && Chr(v3) == Byte(c3) && Chr(v4) == Byte(c4)
    requires Chr(v5) == Byte(c5) && Chr(v6) == Byte(c6) && Chr(v7) == Byte(c7) && Chr(v8) == Byte(c8)
    ensures Text([v1, v2, v3, v4, v5, v6, v7, v8]) == Bytes([c1, c2, c3, c4, c5, c6, c7, c8])
  {
    hide Chr; hide Byte;
    var v, s := [v1, v2, v3, v4, v5, v6, v7, v8], [c1, c2, c3, c4, c5, c6, c7, c8];
    assert forall i | 0 <= i < 8 :: Chr(v[i]) == Byte(s[i]);
  }

  lemma Table0()
    ensures Chr(0) == 0x71 && Chr(1) == 0x70 && Chr(2) == 0x7a && Chr(3) == 0x72
    ensures Chr(4) == 0x79 && Chr(5) == 0x39 && Chr(6) == 0x78 && Chr(7) == 0x38
  {
  }

  lemma Letters0()
    ensures Byte('q') == 0x71 && Byte('p') == 0x70 && Byte('z') == 0x7a && Byte('r') == 0x72
    ensures Byte('y') == 0x79 && Byte('9') == 0x39 && Byte('x') == 0x78 && Byte('8') == 0x38
  {
  }

  lemma Table1()
    ensures Chr(8) == 0x67 && Chr(9) == 0x66 && Chr(10) == 0x32 && Chr(11) == 0x74
    ensures Chr(12) == 0x76 && Chr(13) == 0x64 && Chr(14) == 0x77 && Chr(15) == 0x30
  {
  }

  lemma Letters1()
    ensures Byte('g') == 0x67 && Byte('f') == 0x66 && Byte('2') == 0x32 && Byte('t') == 0x74
    ensures Byte('v') == 0x76 && Byte('d') == 0x64 && Byte('w') == 0x77 && Byte('0') == 0x30
  {
  }

  lemma Table2()
    ensures Chr(16) == 0x73 && Chr(17) == 0x33 && Chr(18) == 0x6a && Chr(19) == 0x6e
    ensures Chr(20) == 0x35 && Chr(21) == 0x34 && Chr(22) == 0x6b && Chr(23) == 0x68
  {
  }

  lemma Letters2()
    ensures Byte('s') == 0x73 && Byte('3') == 0x33 && Byte('j') == 0x6a && Byte('n') == 0x6e
    ensures Byte('5') == 0x35 && Byte('4') == 0x34 && Byte('k') == 0x6b && Byte('h') == 0x68
  {
  }

  lemma Table3()
    ensures Chr(24) == 0x63 && Chr(25) == 0x65 && Chr(26) == 0x36 && Chr(27) == 0x6d
    ensures Chr(28) == 0x75 && Chr(29) == 0x61 && Chr(30) == 0x37 && Chr(31) == 0x6c
  {
  }

  lemma Letters3()
    ensures Byte('c') == 0x63 && Byte('e') == 0x65 && Byte('6') == 0x36 && Byte('m') == 0x6d
    ensures Byte('u') == 0x75 && Byte('a') == 0x61 && Byte('7') == 0x37 && Byte('l') == 0x6c
  {
  }

  lemma Pairs0()
    ensures Chr(0) == Byte('q') && Chr(1) == Byte('p') && Chr(2) == Byte('z') && Chr(3) == Byte('r')
    ensures Chr(4) == Byte('y') && Chr(5) == Byte('9') && Chr(6) == Byte('x') && Chr(7) == Byte('8')
  {
    Table0();
    Letters0();
    hide Chr; hide Byte;
  }

  lemma Pairs1()
    ensures Chr(8) == Byte('g') && Chr(9) == Byte('f') && Chr(10) == Byte('2') && Chr(11) == Byte('t')
    ensures Chr(12) == Byte('v') && Chr(13) == Byte('d') && Chr(14) == Byte('w') && Chr(15) == Byte('0')
  {
    Table1();
    Letters1();
    hide Chr; hide Byte;
  }

  lemma Pairs2()
    ensures Chr(16) == Byte('s') && Chr(17) == Byte('3') && Chr(18) == Byte('j') && Chr(19) == Byte('n')
    ensures Chr(20) == Byte('5') && Chr(21) == Byte('4') && Chr(22) == Byte('k') && Chr(23) == Byte('h')
  {
    Table2();
    Letters2();
    hide Chr; hide Byte;
  }

  lemma Pairs3()
    ensures Chr(24) == Byte('c') && Chr(25) == Byte('e') && Chr(26) == Byte('6') && Chr(27) == Byte('m')
    ensures Chr(28) == Byte('u') && Chr(29) == Byte('a') && Chr(30) == Byte('7') && Chr(31) == Byte('l')
  {
    Table3();
    Letters3();
    hide Chr; hide Byte;
  }

  lemma Rising0Text()
    ensures Text(RISING_0) == Bytes("qpzry9x8")
  {
    hide Text; hide Bytes; hide Chr; hide Byte;
    Pairs0();
    Spell8(0, 1, 2, 3, 4, 5, 6, 7,
           'q', 'p', 'z', 'r', 'y', '9', 'x', '8');
  }

  lemma Rising1Text()
    ensures Text(RISING_1) == Bytes("gf2tvdw0")
  {
    hide Text; hide Bytes; hide Chr; hide Byte;
    Pairs1();
    Spell8(8, 9, 10, 11, 12, 13, 14, 15,
           'g', 'f', '2', 't', 'v', 'd', 'w', '0');
  }

  lemma Rising2Text()
    ensures Text(RISING_2) == Bytes("s3jn54kh")
  {
    hide Text; hide Bytes; hide Chr; hide Byte;
    Pairs2();
    Spell8(16, 17, 18, 19, 20, 21, 22, 23,
           's', '3', 'j', 'n', '5', '4', 'k', 'h');
  }

  lemma Rising3Text()
    ensures Text(RISING_3) == Bytes("ce6mua7l")
  {
    hide Text; hide Bytes; hide Chr; hide Byte;
    Pairs3();
    Spell8(24, 25, 26, 27, 28, 29, 30, 31,
           'c', 'e', '6', 'm', 'u', 'a', '7', 'l');
  }

  lemma Falling0Text()
    ensures Text(FALLING_0) == Bytes("l7aum6ec")
  {
    hide Text; hide Bytes; hide Chr; hide Byte;
    Pairs3();
    Spell8(31, 30, 29, 28, 27, 26, 25, 24,
           'l', '7', 'a', 'u', 'm', '6', 'e', 'c');
  }

  lemma Falling1Text()
    ensures Text(FALLING_1) == Bytes("hk45nj3s")
  {
    hide Text; hide Bytes; hide Chr; hide Byte;
    Pairs2();
    Spell8(23, 22, 21, 20, 19, 18, 17, 16,
           'h', 'k', '4', '5', 'n', 'j', '3', 's');
  }

  lemma Falling2Text()
    ensures Text(FALLING_2) == Bytes("0wdvt2fg")
  {
    hide Text; hide Bytes; hide Chr; hide Byte;
    Pairs1();
    Spell8(15, 14, 13, 12, 11, 10, 9, 8,
           '0', 'w', 'd', 'v', 't', '2', 'f', 'g');
  }

  lemma Falling3Text()
    ensures Text(FALLING_3) == Bytes("8x9yrzpq")
  {
    hide Text; hide Bytes; hide Chr; hide Byte;
    Pairs0();
    Spell8(7, 6, 5, 4, 3, 2, 1, 0,
           '8', 'x', '9', 'y', 'r', 'z', 'p', 'q');
  }

  lemma RisingCheckText()
    ensures Text([27, 0, 0, 0, 6, 14]) == Bytes("mqqqxw")
  {
    hide Text; hide Bytes; hide Chr; hide Byte;
    Pairs0();
    Pairs1();
    Pairs3();
    Spell6(27, 0, 0, 0, 6, 14, 'm', 'q', 'q', 'q', 'x', 'w');
  }

  lemma FallingCheckText()
    ensures Text([2, 13, 17, 3, 4, 6]) == Bytes("zd3ryx")
  {
    hide Text; hide Bytes; hide Chr; hide Byte;
    Pairs0();
    Pairs1();
    Pairs2();
    Spell6(2, 13, 17, 3, 4, 6, 'z', 'd', '3', 'r', 'y', 'x');
  }

  lemma EmptyCheckText()
    ensures Text([10, 28, 25, 31, 20, 31]) == Bytes("2uel5l")
  {
    hide Text; hide Bytes; hide Chr; hide Byte;
    Pairs1();
    Pairs2();
    Pairs3();
    Spell6(10, 28, 25, 31, 20, 31, '2', 'u', 'e', 'l', '5', 'l');
  }

  lemma EmptyCheckMText()
    ensures Text([31, 0, 9, 19, 17, 29]) == Bytes("lqfn3a")
  {
    hide Text; hide Bytes; hide Chr; hide Byte;
    Pairs0();
    Pairs1();
    Pairs2();
    Pairs3();
    Spell6(31, 0, 9, 19, 17, 29, 'l', 'q', 'f', 'n', '3', 'a');
  }

  lemma HrpTexts()
    ensures Bytes("abcdef") == ABCDEF && Bytes("a") == [0x61] && Bytes("1") == [SEPARATOR]
  {
  }

  lemma HrpPlain()
    ensures NoUpper(ABCDEF) && NoUpper([0x61])
    ensures (forall i | 0 <= i < |ABCDEF| :: Printable(ABCDEF[i])) && Printable(0x61)
  {
  }

  lemma RisingSpelled()
    ensures Text(RISING) == Bytes("qpzry9x8" + "gf2tvdw0" + "s3jn54kh" + "ce6mua7l")
  {
    hide Text; hide Bytes;
    Rising0Text();
    Rising1Text();
    Rising2Text();
    Rising3Text();
    TextJoin(RISING_0, RISING_1);
    TextJoin(RISING_0 + RISING_1, RISING_2);
    TextJoin(RISING_0 + RISING_1 + RISING_2, RISING_3);
    BytesJoin("qpzry9x8", "gf2tvdw0");
    BytesJoin("qpzry9x8" + "gf2tvdw0", "s3jn54kh");
    BytesJoin("qpzry9x8" + "gf2tvdw0" + "s3jn54kh", "ce6mua7l");
  }

  /** A text put together from its parts, as decoded. */
  lemma Joined(e: Encoding, hrp: string, values: Data, body: string, sum: Data, check: string, text: string)
    requires text == hrp + "1" + (body + check)
    requires Text(values) == Bytes(body) && Text(sum) == Bytes(check)
    requires Checksum(e, Bytes(hrp), values) == sum && Symbols(values)
    requires 1 <= |hrp| && |text| <= 90 && |sum| == 6 && NoUpper(Bytes(hrp))
    requires forall i | 0 <= i < |hrp| :: Printable(Bytes(hrp)[i])
    ensures Decode(Bytes(text)) == Decoded(e, Bytes(hrp), values)
  {
    hide Decode; hide Checksum; hide NoUpper; hide Printable; hide Chr;
    assert Bytes("1") == [SEPARATOR];
    hide Byte;
    TextJoin(values, sum);
    BytesJoin(hrp, "1");
    BytesJoin(body, check);
    BytesJoin(hrp + "1", body + check);
    DecodeOfEncoded(e, Bytes(hrp), values);
  }

  lemma RisingWhole()
    ensures "abcdef" + "1" + ("qpzry9x8" + "gf2tvdw0" + "s3jn54kh" + "ce6mua7l" + "mqqqxw")
         == "abcdef1qpzry9x8gf2tvdw0s3jn54khce6mua7lmqqqxw"
  {
  }

  /** The human readable part abcdef and all symbols in rising order, in Bech32. */
  lemma RisingDecodes()
    ensures Decode(Bytes("abcdef1qpzry9x8gf2tvdw0s3jn54khce6mua7lmqqqxw"))
         == Decoded(Bech32Spec.Bech32, Bytes("abcdef"), RISING)
  {
    hide Text; hide Bytes; hide Decode; hide Checksum; hide NoUpper;
    HrpTexts();
    HrpPlain();
    RisingSpelled();
    RisingChecksum();
    RisingCheckText();
    RisingWhole();
    Joined(Bech32Spec.Bech32, "abcdef", RISING,
           "qpzry9x8" + "gf2tvdw0" + "s3jn54kh" + "ce6mua7l", [27, 0, 0, 0, 6, 14], "mqqqxw",
           "abcdef1qpzry9x8gf2tvdw0s3jn54khce6mua7lmqqqxw");
  }

  lemma FallingSpelled()
    ensures Text(FALLING) == Bytes("l7aum6ec" + "hk45nj3s" + "0wdvt2fg" + "8x9yrzpq")
  {
    hide Text; hide Bytes;
    Falling0Text();
    Falling1Text();
    Falling2Text();
    Falling3Text();
    TextJoin(FALLING_0, FALLING_1);
    TextJoin(FALLING_0 + FALLING_1, FALLING_2);
    TextJoin(FALLING_0 + FALLING_1 + FALLING_2, FALLING_3);
    BytesJoin("l7aum6ec", "hk45nj3s");
    BytesJoin("l7aum6ec" + "hk45nj3s", "0wdvt2fg");
    BytesJoin("l7aum6ec" + "hk45nj3s" + "0wdvt2fg", "8x9yrzpq");
  }

  lemma FallingWhole()
    ensures "abcdef" + "1" + ("l7aum6ec" + "hk45nj3s" + "0wdvt2fg" + "8x9yrzpq" + "zd3ryx")
         == "abcdef1l7aum6echk45nj3s0wdvt2fg8x9yrzpqzd3ryx"
  {
  }

  /** The human readable part abcdef and all symbols in falling order, in Bech32m. */
  lemma FallingDecodes()
    ensures Decode(Bytes("abcdef1l7aum6echk45nj3s0wdvt2fg8x9yrzpqzd3ryx"))
         == Decoded(Bech32m, Bytes("abcdef"), FALLING)
  {
    hide Text; hide Bytes; hide Decode; hide Checksum; hide NoUpper;
    HrpTexts();
    HrpPlain();
    FallingSpelled();
    FallingChecksum();
    FallingCheckText();
    FallingWhole();
    Joined(Bech32m, "abcdef", FALLING,
           "l7aum6ec" + "hk45nj3s" + "0wdvt2fg" + "8x9yrzpq", [2, 13, 17, 3, 4, 6], "zd3ryx",
           "abcdef1l7aum6echk45nj3s0wdvt2fg8x9yrzpqzd3ryx");
  }

  lemma EmptyText()
    ensures Text([]) == Bytes("")
  {
  }

  /** The shortest strings of both encodings: no symbols but the checksum. */
  lemma EmptyDecodes()
    ensures Decode(Bytes("a12uel5l")) == Decoded(Bech32Spec.Bech32, Bytes("a"), [])
    ensures Decode(Bytes("a1lqfn3a")) == Decoded(Bech32m, Bytes("a"), [])
  {
    hide Bytes; hide Decode; hide Checksum; hide NoUpper;
    HrpTexts();
    HrpPlain();
    EmptyChecksum();
    EmptyCheckText();
    EmptyCheckMText();
    assert Text([]) == Bytes("") by { EmptyText(); }
    assert "a" + "1" + ("" + "2uel5l") == "a12uel5l" && "a" + "1" + ("" + "lqfn3a") == "a1lqfn3a";
    Joined(Bech32Spec.Bech32, "a", [], "", [10, 28, 25, 31, 20, 31], "2uel5l", "a12uel5l");
    Joined(Bech32m, "a", [], "", [31, 0, 9, 19, 17, 29], "lqfn3a", "a1lqfn3a");
  }

  /** Letters and digits in both cases. */
  lemma Lowered(c1: char, c2: char, c3: char, c4: char, c5: char, c6: char, c7: char, c8: char,
                d1: char, d2: char, d3: char, d4: char, d5: char, d6: char, d7: char, d8: char)
    requires !IsLower(Byte(c1)) && !IsLower(Byte(c2)) && !IsLower(Byte(c3)) && !IsLower(Byte(c4))
    requires !IsLower(Byte(c5)) && !IsLower(Byte(c6)) && !IsLower(Byte(c7)) && !IsLower(Byte(c8))
    requires ToLower(Byte(c1)) == Byte(d1) && ToLower(Byte(c2)) == Byte(d2) && ToLower(Byte(c3)) == Byte(d3)
    requires ToLower(Byte(c4)) == Byte(d4) && ToLower(Byte(c5)) == Byte(d5) && ToLower(Byte(c6)) == Byte(d6)
    requires ToLower(Byte(c7)) == Byte(d7) && ToLower(Byte(c8)) == Byte(d8)
    ensures NoLower(Bytes([c1, c2, c3, c4, c5, c6, c7, c8]))
    ensures LowerAll(Bytes([c1, c2, c3, c4, c5, c6, c7, c8])) == Bytes([d1, d2, d3, d4, d5, d6, d7, d8])
  {
    hide Byte; hide ToLower; hide IsLower;
    var s, t := [c1, c2, c3, c4, c5, c6, c7, c8], [d1, d2, d3, d4, d5, d6, d7, d8];
    assert forall i | 0 <= i < 8 :: !IsLower(Byte(s[i])) && ToLower(Byte(s[i])) == Byte(t[i]);
  }

  lemma Capitals()
    ensures Byte('A') == 0x41 && Byte('E') == 0x45 && Byte('F') == 0x46 && Byte('L') == 0x4c
    ensures Byte('N') == 0x4e && Byte('Q') == 0x51 && Byte('U') == 0x55 && Byte('1') == 0x31
  {
  }

  lemma UpperText()
    ensures NoLower(Bytes("A12UEL5L")) && LowerAll(Bytes("A12UEL5L")) == Bytes("a12uel5l")
  {
    hide Bytes; hide LowerAll; hide NoLower; hide Byte;
    Capitals();
    Letters0();
    Letters1();
    Letters2();
    Letters3();
    Lowered('A', '1', '2', 'U', 'E', 'L', '5', 'L', 'a', '1', '2', 'u', 'e', 'l', '5', 'l');
  }

  lemma UpperTextM()
    ensures NoLower(Bytes("A1LQFN3A")) && LowerAll(Bytes("A1LQFN3A")) == Bytes("a1lqfn3a")
  {
    hide Bytes; hide LowerAll; hide NoLower; hide Byte;
    Capitals();
    Letters0();
    Letters1();
    Letters2();
    Letters3();
    Lowered('A', '1', 'L', 'Q', 'F', 'N', '3', 'A', 'a', '1', 'l', 'q', 'f', 'n', '3', 'a');
  }

  /** The same in upper case, and not in mixed case. */
  lemma EmptyUpperDecodes()
    ensures Decode(Bytes("A12UEL5L")) == Decoded(Bech32Spec.Bech32, Bytes("a"), [])
    ensures Decode(Bytes("A1LQFN3A")) == Decoded(Bech32m, Bytes("a"), [])
    ensures Decode(Bytes("a12UEL5L")) == Failed
  {
    hide Bytes; hide NoLower; hide LowerAll; hide LastSeparator;
    EmptyDecodes();
    UpperText();
    UpperTextM();
    UpperDecodesAlike(Bytes("A12UEL5L"));
    UpperDecodesAlike(Bytes("A1LQFN3A"));
    MixedText();
  }

  lemma MixedText()
    ensures !CharactersOk(Bytes("a12UEL5L"))
  {
    var str := Bytes("a12UEL5L");
    assert IsLower(str[0]) && IsUpper(str[3]);
  }
}
