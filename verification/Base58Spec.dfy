/** Numbers written in a base, what Base58 text stands for, and why the buffers that the conversions
    use are large enough. */
module Base58Spec {
  import opened Numbers

  type Byte = x: int | 0 <= x < 256
  type Bytes = seq<Byte>

  // ---- powers ----

  function Pow(b: nat, n: nat): nat { if n == 0 then 1 else b * Pow(b, n - 1) }

  lemma {:induction false} PowPositive(b: nat, n: nat)
    requires b > 0
    ensures Pow(b, n) > 0
  {
    if n > 0 {
      PowPositive(b, n - 1);
      MulMono(1, b, Pow(b, n - 1));
    }
  }

  lemma {:induction false} PowAdd(b: nat, m: nat, n: nat)
    ensures Pow(b, m + n) == Pow(b, m) * Pow(b, n)
  {
    if m > 0 {
      PowAdd(b, m - 1, n);
      Assoc(b, Pow(b, m - 1), Pow(b, n));
    }
  }

  lemma {:induction false} PowMono(b: nat, m: nat, n: nat)
    requires b > 0 && m <= n
    ensures Pow(b, m) <= Pow(b, n)
  {
    if m < n {
      PowMono(b, m, n - 1);
      MulMono(1, b, Pow(b, n - 1));
    }
  }

  lemma ProductMono(a: int, b: int, c: int, d: int)
    requires 0 <= a <= b && 0 <= c <= d
    ensures a * c <= b * d
  {
    MulMono(a, b, c);
    MulMono(c, d, b);
  }

  /** If blocks of one base fit into blocks of the other, so does any number of them. */
  lemma {:induction false} PowFits(a: nat, m: nat, b: nat, n: nat, k: nat)
    requires Pow(a, m) <= Pow(b, n)
    ensures Pow(a, m * k) <= Pow(b, n * k)
  {
    if k > 0 {
      PowFits(a, m, b, n, k - 1);
      assert m * k == m + m * (k - 1) && n * k == n + n * (k - 1);
      PowAdd(a, m, m * (k - 1));
      PowAdd(b, n, n * (k - 1));
      ProductMono(Pow(a, m), Pow(b, n), Pow(a, m * (k - 1)), Pow(b, n * (k - 1)));
    }
  }

  lemma FitsAdd(a: nat, m: nat, b: nat, n: nat, m': nat, n': nat)
    requires Pow(a, m) <= Pow(b, n) && Pow(a, m') <= Pow(b, n')
    ensures Pow(a, m + m') <= Pow(b, n + n')
  {
    PowAdd(a, m, m');
    PowAdd(b, n, n');
    ProductMono(Pow(a, m), Pow(b, n), Pow(a, m'), Pow(b, n'));
  }

  // ---- the sizes of the buffers ----

  lemma Squares()
    ensures Pow(58, 2) == 3364 && Pow(58, 4) == 11316496 && Pow(58, 8) == 128063081718016
    ensures Pow(256, 2) == 0x1_0000 && Pow(256, 4) == 0x1_0000_0000 && Pow(256, 8) == 0x1_0000_0000_0000_0000
  {
    PowAdd(58, 2, 2);
    PowAdd(58, 4, 4);
    PowAdd(256, 2, 2);
    PowAdd(256, 4, 4);
  }

  /** Eight bytes fit into eleven digits. */
  lemma EightBytes()
    ensures Pow(256, 8) <= Pow(58, 11)
  {
    Squares();
    PowAdd(58, 8, 3);
    assert Pow(58, 3) == 195112;
  }

  lemma FewBytes(r: nat)
    requires r < 8
    ensures Pow(256, r) <= Pow(58, r * 138 / 100 + 1)
  {
    Squares();
    assert Pow(58, 1) == 58 && Pow(58, 3) == 195112 && Pow(256, 1) == 256 && Pow(256, 3) == 0x100_0000;
    PowAdd(58, 4, 1);
    PowAdd(58, 4, 2);
    PowAdd(58, 4, 3);
    PowAdd(58, 8, 1);
    PowAdd(58, 8, 2);
    PowAdd(256, 4, 1);
    PowAdd(256, 4, 2);
    PowAdd(256, 4, 3);
    match r
    case 0 =>
    case 1 =>
    case 2 =>
    case 3 =>
    case 4 =>
    case 5 =>
    case 6 =>
    case 7 =>
  }

  /** The buffer for encoding n bytes is large enough. */
  lemma EncodeFits(n: nat)
    ensures Pow(256, n) <= Pow(58, n * 138 / 100 + 1)
  {
    hide Pow;
    var q, r := n / 8, n % 8;
    EightBytes();
    PowFits(256, 8, 58, 11, q);
    FewBytes(r);
    FitsAdd(256, 8 * q, 58, 11 * q, r, r * 138 / 100 + 1);
    PowMono(58, 11 * q + (r * 138 / 100 + 1), n * 138 / 100 + 1);
  }

  lemma FifteenDigits()
    ensures Pow(58, 15) <= Pow(256, 11) && Pow(58, 4) <= Pow(256, 3) && Pow(58, 1) <= Pow(256, 1)
  {
    Squares();
    assert Pow(58, 3) == 195112 && Pow(256, 3) == 0x100_0000;
    PowAdd(58, 8, 4);
    PowAdd(58, 12, 3);
    PowAdd(256, 8, 3);
  }

  lemma SeventyOneDigits()
    ensures Pow(58, 71) <= Pow(256, 52)
  {
    Squares();
    assert Pow(58, 3) == 195112;
    PowAdd(58, 8, 8);
    PowAdd(58, 16, 16);
    PowAdd(58, 32, 32);
    PowAdd(58, 64, 4);
    PowAdd(58, 68, 3);
    PowAdd(256, 8, 8);
    PowAdd(256, 16, 16);
    PowAdd(256, 32, 16);
    PowAdd(256, 48, 4);
    assert Pow(58, 64) ==
      72342179355466901471258927612150153907721848234316445933056526044582001260898145151856420451025374266490194231296;
  }

  lemma FewDigits(r: nat)
    requires r < 71
    ensures Pow(58, r) <= Pow(256, r * 733 / 1000 + 1)
  {
    hide Pow;
    var a, b, c := r / 15, r % 15 / 4, r % 15 % 4;
    FifteenDigits();
    PowFits(58, 15, 256, 11, a);
    PowFits(58, 4, 256, 3, b);
    PowFits(58, 1, 256, 1, c);
    FitsAdd(58, 15 * a, 256, 11 * a, 4 * b, 3 * b);
    FitsAdd(58, 15 * a + 4 * b, 256, 11 * a + 3 * b, c, c);
    assert 5 * a + 68 * b + 267 * c <= 1000;
    PowMono(256, 11 * a + 3 * b + c, r * 733 / 1000 + 1);
  }

  /** The buffer for decoding n characters is large enough. */
  lemma DecodeFits(n: nat)
    ensures Pow(58, n) <= Pow(256, n * 733 / 1000 + 1)
  {
    hide Pow;
    var q, r := n / 71, n % 71;
    SeventyOneDigits();
    PowFits(58, 71, 256, 52, q);
    FewDigits(r);
    FitsAdd(58, 71 * q, 256, 52 * q, r, r * 733 / 1000 + 1);
    PowMono(256, 52 * q + (r * 733 / 1000 + 1), n * 733 / 1000 + 1);
  }

  // ---- numbers ----

  /** The number that digits in a base stand for, the most significant first. */
  function Num(b: nat, s: Bytes): nat
    decreases |s|
  {
    if s == [] then 0 else Num(b, s[..|s| - 1]) * b + s[|s| - 1]
  }

  predicate Below(b: nat, s: Bytes) { forall i | 0 <= i < |s| :: s[i] < b }

  /** The digits of a number, without leading zeros. */
  function Digits(b: nat, v: nat): (s: Bytes)
    requires 2 <= b <= 256
    decreases v
  {
    if v == 0 then [] else DivSmaller(v, b); Digits(b, v / b) + [v % b]
  }

  lemma DivSmaller(v: nat, b: nat)
    requires v > 0 && b >= 2
    ensures 0 <= v / b < v
  {
    var q := v / b;
    assert v == q * b + v % b;
    if q < 0 {
      MulMono(q, -1, b);
    } else {
      MulMono(2, b, q);
    }
  }

  lemma {:induction false} NumBound(b: nat, s: Bytes)
    requires Below(b, s)
    ensures Num(b, s) < Pow(b, |s|)
    decreases |s|
  {
    if s != [] {
      var n := |s| - 1;
      NumBound(b, s[..n]);
      MulMono(Num(b, s[..n]) + 1, Pow(b, n), b);
      Dist(Num(b, s[..n]), 1, b);
    }
  }

  lemma {:induction false} NumCons(b: nat, d: Byte, s: Bytes)
    ensures Num(b, [d] + s) == d * Pow(b, |s|) + Num(b, s)
    decreases |s|
  {
    if s == [] {
      assert [d] + s == [d];
      assert [d][..0] == [];
    } else {
      var n := |s| - 1;
      assert ([d] + s)[..|s|] == [d] + s[..n];
      NumCons(b, d, s[..n]);
      Dist(d * Pow(b, n), Num(b, s[..n]), b);
      Assoc(d, Pow(b, n), b);
    }
  }

  /** Leading zeros make no difference. */
  lemma {:induction false} NumZeros(b: nat, z: Bytes, s: Bytes)
    requires forall i | 0 <= i < |z| :: z[i] == 0
    ensures Num(b, z + s) == Num(b, s)
    decreases |z|
  {
    if z == [] {
      assert z + s == s;
    } else {
      assert z + s == [z[0]] + (z[1..] + s);
      NumCons(b, z[0], z[1..] + s);
      NumZeros(b, z[1..], s);
    }
  }

  /** The digits of a number stand for it, and there is no leading zero. */
  lemma {:induction false} NumOfDigits(b: nat, v: nat)
    requires 2 <= b <= 256
    ensures var s := Digits(b, v); Num(b, s) == v && Below(b, s) && (s != [] ==> s[0] != 0) && (s == [] <==> v == 0)
    decreases v
  {
    if v > 0 {
      DivSmaller(v, b);
      var q, r := v / b, v % b;
      assert v == q * b + r && 0 <= r < b;
      NumOfDigits(b, q);
      NumPush(b, Digits(b, q), r);
    }
  }

  lemma NumPush(b: nat, s: Bytes, d: Byte)
    ensures Num(b, s + [d]) == Num(b, s) * b + d
  {
    assert (s + [d])[..|s|] == s;
  }

  lemma {:induction false} NumPositive(b: nat, s: Bytes)
    requires b > 0 && s != [] && s[0] != 0
    ensures Num(b, s) > 0
  {
    assert s == [s[0]] + s[1..];
    NumCons(b, s[0], s[1..]);
    PowPositive(b, |s| - 1);
    MulMono(1, s[0], Pow(b, |s| - 1));
  }

  /** Digits without a leading zero are the digits of the number they stand for. */
  lemma {:induction false} DigitsOfNum(b: nat, s: Bytes)
    requires 2 <= b <= 256 && Below(b, s) && (s != [] ==> s[0] != 0)
    ensures Digits(b, Num(b, s)) == s
    decreases |s|
  {
    if s != [] {
      var n := |s| - 1;
      NumPositive(b, s);
      DivModUnique(Num(b, s), b, Num(b, s[..n]), s[n]);
      DigitsOfNum(b, s[..n]);
      assert s == s[..n] + [s[n]];
    }
  }

  // ---- multiplying and adding in place ----

  /** Digits t and a carry are what the lower digits x come to when multiplied and added to. */
  ghost predicate Scaled(b: nat, t: Bytes, carry: int, x: Bytes, mul: nat, add: nat) {
    |t| == |x| && Num(b, t) + carry * Pow(b, |t|) == mul * Num(b, x) + add
  }

  /** One digit of it, and what is carried on. */
  function Sum(carry: nat, mul: nat, d: Byte): nat { MulMono(0, mul, d); carry + mul * d }

  function DigitOf(n: nat, b: nat): Byte
    requires 0 < b <= 256
  {
    n % b
  }

  function CarryOf(n: nat, b: nat): nat
    requires b > 0
  {
    n / b
  }

  lemma CarryOn(b: nat, n: nat)
    requires 2 <= b <= 256
    ensures DigitOf(n, b) < b && (CarryOf(n, b) == 0 ==> DigitOf(n, b) == n)
  {
  }

  lemma SumPositive(carry: nat, mul: nat, d: Byte)
    ensures carry > 0 ==> Sum(carry, mul, d) > 0
  {
    MulMono(0, mul, d);
  }

  lemma ScaledNext(b: nat, t: Bytes, carry: nat, x: Bytes, mul: nat, add: nat, d: Byte)
    requires 0 < b <= 256 && Scaled(b, t, carry, x, mul, add)
    ensures var n := Sum(carry, mul, d); Scaled(b, [DigitOf(n, b)] + t, CarryOf(n, b), [d] + x, mul, add)
  {
    var n := Sum(carry, mul, d);
    var d' := DigitOf(n, b);
    hide Num; hide Pow;
    NumCons(b, d', t);
    NumCons(b, d, x);
    ScaledStep(Num(b, t), carry, Pow(b, |t|), Num(b, x), mul, add, d, n, b);
  }

  lemma ScaledStep(t: int, carry: int, p: int, x: int, mul: int, add: int, d: int, n: int, b: int)
    requires b > 0 && t + carry * p == mul * x + add && n == carry + mul * d
    ensures n % b * p + t + n / b * (b * p) == mul * (d * p + x) + add
  {
    assert n == n / b * b + n % b;
    Dist(n / b * b, n % b, p);
    Assoc(n / b, b, p);
    Dist(carry, mul * d, p);
    Assoc(mul, d, p);
    assert mul * (d * p + x) == mul * (d * p) + mul * x;
  }

  /** What is left over after the last digit is nothing, if the result fits. */
  lemma NoCarry(b: nat, t: Bytes, carry: int, x: Bytes, mul: nat, add: nat)
    requires b > 0 && carry >= 0 && Scaled(b, t, carry, x, mul, add) && mul * Num(b, x) + add < Pow(b, |t|)
    ensures carry == 0
  {
    PowPositive(b, |t|);
    if carry > 0 { MulMono(1, carry, Pow(b, |t|)); }
  }

  /** Digits that stand for a number with so many digits start with one that is not zero. */
  lemma TopDigit(b: nat, s: Bytes)
    requires Below(b, s) && s != [] && Num(b, s) >= Pow(b, |s| - 1)
    ensures s[0] != 0
  {
    assert s == [s[0]] + s[1..];
    NumCons(b, s[0], s[1..]);
    NumBound(b, s[1..]);
  }

  lemma AtLeast(b: nat, s: Bytes)
    requires s != [] && s[0] != 0
    ensures Num(b, s) >= Pow(b, |s| - 1)
  {
    assert s == [s[0]] + s[1..];
    NumCons(b, s[0], s[1..]);
    MulMono(1, s[0], Pow(b, |s| - 1));
  }

  // ---- characters ----

  const ONE: Byte := 49

  /** The character for a digit, by ranges without gaps. */
  function Chr(d: Byte): Byte
    requires d < 58
  {
    if d < 9 then d + 49
    else if d < 17 then d - 9 + 65
    else if d < 22 then d - 17 + 74
    else if d < 33 then d - 22 + 80
    else if d < 44 then d - 33 + 97
    else d - 44 + 109
  }

  /** The digit for a character, or -1. */
  function Rev(c: Byte): int {
    if 49 <= c <= 57 then c - 49
    else if 65 <= c <= 72 then c - 65 + 9
    else if 74 <= c <= 78 then c - 74 + 17
    else if 80 <= c <= 90 then c - 80 + 22
    else if 97 <= c <= 107 then c - 97 + 33
    else if 109 <= c <= 122 then c - 109 + 44
    else -1
  }

  /** The digits and letters without 0, O, I and l, from 0 to 57. */
  const ALPHABET := "123456789" + "ABCDEFGH" + "JKLMN" + "PQRSTUVWXYZ" + "abcdefghijk" + "mnopqrstuvwxyz"

  /** A run of characters in the order of their codes. */
  predicate Run(s: string, first: int) { forall i | 0 <= i < |s| :: s[i] as int == first + i }

  lemma Runs()
    ensures Run("123456789", 49) && Run("ABCDEFGH", 65) && Run("JKLMN", 74)
    ensures Run("PQRSTUVWXYZ", 80) && Run("abcdefghijk", 97) && Run("mnopqrstuvwxyz", 109)
  {
  }

  lemma ChrIsLetter(d: Byte)
    requires d < 58
    ensures |ALPHABET| == 58 && Chr(d) == ALPHABET[d] as int
  {
    Runs();
  }

  /** Space, tab, line feed, vertical tab, form feed and carriage return. */
  predicate IsSpace(c: Byte) { c == 32 || 9 <= c <= 13 }

  lemma RevOfChr(d: Byte)
    requires d < 58
    ensures Rev(Chr(d)) == d && !IsSpace(Chr(d)) && Chr(d) != 0 && (Chr(d) == ONE <==> d == 0)
  {
  }

  lemma ChrOfRev(c: Byte)
    requires Rev(c) != -1
    ensures 0 <= Rev(c) < 58 && Chr(Rev(c)) == c
  {
  }

  function Text(s: Bytes): Bytes
    requires Below(58, s)
  {
    seq(|s|, i requires 0 <= i < |s| => Chr(s[i]))
  }

  predicate Readable(s: Bytes) { forall i | 0 <= i < |s| :: Rev(s[i]) != -1 }

  function Values(s: Bytes): (v: Bytes)
    requires Readable(s)
    ensures Below(58, v)
  {
    seq(|s|, i requires 0 <= i < |s| => Rev(s[i]))
  }

  function Repeat(x: Byte, n: nat): Bytes { seq(n, _ => x) }

  /** How often x stands at the start. */
  function Leading(x: Byte, s: Bytes): nat
    decreases |s|
  {
    if s == [] || s[0] != x then 0 else 1 + Leading(x, s[1..])
  }

  lemma {:induction false} LeadingSplits(x: Byte, s: Bytes)
    ensures var z := Leading(x, s); z <= |s| && s[..z] == Repeat(x, z) && (z < |s| ==> s[z] != x)
    decreases |s|
  {
    if s != [] && s[0] == x {
      LeadingSplits(x, s[1..]);
      var z := Leading(x, s[1..]);
      assert s[..z + 1] == [x] + s[1..][..z];
      assert Repeat(x, z + 1) == [x] + Repeat(x, z);
    } else {
      assert s[..0] == Repeat(x, 0);
    }
  }

  lemma {:induction false} LeadingFound(x: Byte, z: nat, s: Bytes)
    requires s != [] ==> s[0] != x
    ensures Leading(x, Repeat(x, z) + s) == z
  {
    if z == 0 {
      assert Repeat(x, 0) + s == s;
    } else {
      assert Repeat(x, z) + s == [x] + (Repeat(x, z - 1) + s);
      assert (Repeat(x, z) + s)[1..] == Repeat(x, z - 1) + s;
      LeadingFound(x, z - 1, s);
    }
  }

  // ---- what texts stand for ----

  /** Leading zeros become ones, and the rest the digits of the number. */
  function Encoded(input: Bytes): Bytes {
    NumOfDigits(58, Num(256, input));
    Repeat(ONE, Leading(0, input)) + Text(Digits(58, Num(256, input)))
  }

  /** The bytes that a text without spaces stands for: ones become zeros. */
  function Decoded(w: Bytes): Bytes
    requires Readable(w)
  {
    Repeat(0, Leading(ONE, w)) + Digits(256, Num(58, Values(w)))
  }

  datatype Result = Failed | Ok(bytes: Bytes)

  function SkipSpaces(s: Bytes): Bytes
    decreases |s|
  {
    if s != [] && IsSpace(s[0]) then SkipSpaces(s[1..]) else s
  }

  /** Everything up to the first space. */
  function Word(s: Bytes): Bytes
    decreases |s|
  {
    if s == [] || IsSpace(s[0]) then [] else [s[0]] + Word(s[1..])
  }

  /** More bytes than asked for. */
  predicate TooMany(n: nat, max: int) { n > 0 && n > max }

  /** What decoding is to give: one word with spaces around it, and no more bytes than asked for. */
  function Decode(str: Bytes, max: int): Result {
    if 0 in str then Failed
    else
      var s := SkipSpaces(str);
      var w := Word(s);
      WordFits(s);
      if SkipSpaces(s[|w|..]) != [] || !Readable(w) || TooMany(|Decoded(w)|, max) then Failed else Ok(Decoded(w))
  }

  lemma {:induction false} WordFits(s: Bytes)
    ensures |Word(s)| <= |s| && s[..|Word(s)|] == Word(s)
    ensures forall i | 0 <= i < |Word(s)| :: !IsSpace(Word(s)[i])
    ensures |Word(s)| < |s| ==> IsSpace(s[|Word(s)|])
    decreases |s|
  {
    if s != [] && !IsSpace(s[0]) {
      WordFits(s[1..]);
      var n := |Word(s[1..])|;
      assert s[..n + 1] == [s[0]] + s[1..][..n];
    }
  }

  // ---- there and back ----

  lemma NumOfZeros(b: nat, z: nat, s: Bytes)
    ensures Num(b, Repeat(0, z) + s) == Num(b, s)
  {
    NumZeros(b, Repeat(0, z), s);
  }

  lemma ValuesOfText(z: nat, d: Bytes)
    requires Below(58, d)
    ensures Readable(Repeat(ONE, z) + Text(d)) && Values(Repeat(ONE, z) + Text(d)) == Repeat(0, z) + d
  {
    var w := Repeat(ONE, z) + Text(d);
    forall i | 0 <= i < |w|
      ensures Rev(w[i]) != -1 && Rev(w[i]) == (Repeat(0, z) + d)[i]
    {
      if i >= z { RevOfChr(d[i - z]); }
    }
  }

  /** Decoding an encoded text gives the bytes again. */
  lemma DecodedOfEncoded(input: Bytes)
    ensures Readable(Encoded(input)) && Decoded(Encoded(input)) == input
  {
    hide Num; hide Digits; hide Leading;
    var z, v := Leading(0, input), Num(256, input);
    var d := Digits(58, v);
    NumOfDigits(58, v);
    ValuesOfText(z, d);
    NumOfZeros(58, z, d);
    FirstIsNotOne(d);
    LeadingFound(ONE, z, Text(d));
    DigitsOfBytes(input);
  }

  lemma FirstIsNotOne(d: Bytes)
    requires Below(58, d) && (d != [] ==> d[0] != 0)
    ensures Text(d) != [] ==> Text(d)[0] != ONE
  {
    if d != [] { RevOfChr(d[0]); }
  }

  /** Bytes are their leading zeros and the digits of their number. */
  lemma DigitsOfBytes(input: Bytes)
    ensures Repeat(0, Leading(0, input)) + Digits(256, Num(256, input)) == input
  {
    hide Num; hide Digits; hide Leading;
    var z := Leading(0, input);
    LeadingSplits(0, input);
    assert input == Repeat(0, z) + input[z..];
    NumOfZeros(256, z, input[z..]);
    DigitsOfNum(256, input[z..]);
  }

  /** Encoding a decoded text gives the text again. */
  lemma EncodedOfDecoded(w: Bytes)
    requires Readable(w)
    ensures Encoded(Decoded(w)) == w
  {
    var z := Leading(ONE, w);
    var v := Num(58, Values(w));
    LeadingSplits(ONE, w);
    NumOfDigits(256, v);
    LeadingFound(0, z, Digits(256, v));
    NumOfZeros(256, z, Digits(256, v));
    var rest := Values(w)[z..];
    ValuesSplit(w, z);
    NumOfZeros(58, z, rest);
    DigitsOfNum(58, rest);
    TextOfValues(w, z);
  }

  lemma ValuesSplit(w: Bytes, z: nat)
    requires Readable(w) && z <= |w| && w[..z] == Repeat(ONE, z) && (z < |w| ==> w[z] != ONE)
    ensures var v := Values(w);
            v == Repeat(0, z) + v[z..] && Below(58, v[z..]) && (v[z..] != [] ==> v[z] != 0)
  {
    var v := Values(w);
    forall i | 0 <= i < z ensures v[i] == 0 { assert w[i] == w[..z][i] == ONE; }
    assert v[..z] == Repeat(0, z);
    if z < |w| { ChrOfRev(w[z]); }
  }

  lemma TextOfValues(w: Bytes, z: nat)
    requires Readable(w) && z <= |w| && w[..z] == Repeat(ONE, z)
    ensures Repeat(ONE, z) + Text(Values(w)[z..]) == w
  {
    var t := Text(Values(w)[z..]);
    forall i | 0 <= i < |t| ensures t[i] == w[z + i] { ChrOfRev(w[z + i]); }
    assert w == w[..z] + w[z..];
    assert t == w[z..];
  }

  /** Decoding gives back what has been encoded, unless that is more than was asked for. */
  lemma DecodeOfEncoded(input: Bytes, max: int)
    ensures Decode(Encoded(input), max) == if TooMany(|input|, max) then Failed else Ok(input)
  {
    var w := Encoded(input);
    DecodedOfEncoded(input);
    forall i | 0 <= i < |w| ensures w[i] != 0 && !IsSpace(w[i]) {
      ChrOfRev(w[i]);
      RevOfChr(Rev(w[i]));
    }
    WordIs(w, |w|);
    assert w[..|w|] == w && w[|w|..] == [];
  }

  /** Whatever can be decoded is, without the spaces around it, what encoding the bytes gives. */
  lemma EncodedOfDecode(str: Bytes, max: int)
    requires Decode(str, max).Ok?
    ensures Encoded(Decode(str, max).bytes) == Word(SkipSpaces(str)) && !TooMany(|Decode(str, max).bytes|, max)
  {
    EncodedOfDecoded(Word(SkipSpaces(str)));
  }

  lemma {:induction false} WordStarts(s: Bytes, n: nat)
    requires n <= |s| && forall i | 0 <= i < n :: !IsSpace(s[i])
    ensures |Word(s)| >= n && Word(s)[..n] == s[..n]
  {
    if n > 0 {
      forall i | 0 <= i < n - 1 ensures !IsSpace(s[1..][i]) { assert s[1..][i] == s[i + 1]; }
      WordStarts(s[1..], n - 1);
      assert s[..n] == [s[0]] + s[1..][..n - 1];
    }
  }

  lemma WordAt(s: Bytes, i: nat)
    requires i < |Word(s)|
    ensures i < |s| && !IsSpace(s[i])
  {
    WordFits(s);
    assert Word(s)[i] == s[..|Word(s)|][i];
  }

  lemma WordIs(s: Bytes, n: nat)
    requires n <= |s| && (forall i | 0 <= i < n :: !IsSpace(s[i])) && (n == |s| || IsSpace(s[n]))
    ensures Word(s) == s[..n]
  {
    hide Word;
    if n < |Word(s)| { WordAt(s, n); }
    WordStarts(s, n);
  }

  // ---- lengths ----

  lemma {:induction false} DigitsMono(b: nat, u: nat, v: nat)
    requires 2 <= b <= 256 && u <= v
    ensures |Digits(b, u)| <= |Digits(b, v)|
    decreases v
  {
    if u > 0 {
      DivSmaller(u, b);
      DivSmaller(v, b);
      DivMono(u, v, b);
      DigitsMono(b, u / b, v / b);
    }
  }

  lemma DivMono(u: nat, v: nat, b: nat)
    requires u <= v && b > 0
    ensures u / b <= v / b
  {
    var p, q := u / b, v / b;
    assert u == p * b + u % b && v == q * b + v % b;
    if q + 1 <= p { MulMono(q + 1, p, b); Dist(q, 1, b); }
  }

  lemma {:induction false} NumPrefix(b: nat, s: Bytes, n: nat)
    requires b > 0 && n <= |s|
    ensures Num(b, s[..n]) <= Num(b, s)
    decreases |s|
  {
    if n == |s| {
      assert s[..n] == s;
    } else {
      var m := |s| - 1;
      NumPrefix(b, s[..m], n);
      assert s[..m][..n] == s[..n];
      MulMono(1, b, Num(b, s[..m]));
    }
  }

  /** The part of a word that has been read never stands for more bytes than the whole. */
  lemma PartIsShorter(w: Bytes, z: nat, n: nat)
    requires Readable(w) && z <= n <= |w| && w[..z] == Repeat(ONE, z)
    ensures z + |Digits(256, Num(58, Values(w[z..n])))| <= |Decoded(w)|
  {
    hide Digits; hide Num;
    assert w[z..n] == w[..n][z..];
    LeadingAtLeast(w, z);
    var v := Values(w);
    assert v[..n] == Repeat(0, z) + Values(w[z..n]) by {
      forall i | 0 <= i < z ensures v[i] == 0 { assert w[i] == w[..z][i]; }
    }
    NumOfZeros(58, z, Values(w[z..n]));
    NumPrefix(58, v, n);
    DigitsMono(256, Num(58, Values(w[z..n])), Num(58, v));
  }

  lemma {:induction false} LeadingAtLeast(w: Bytes, z: nat)
    requires z <= |w| && w[..z] == Repeat(ONE, z)
    ensures Leading(ONE, w) >= z
    decreases z
  {
    if z > 0 {
      assert w[0] == w[..z][0] == ONE;
      assert w[1..][..z - 1] == w[..z][1..] == Repeat(ONE, z - 1);
      LeadingAtLeast(w[1..], z - 1);
    }
  }
}
