/** Base58 text: encoding and decoding by multiplying and adding in a buffer of digits. */
module Base58 {
  import opened Numbers
  import opened Base58Spec

  // ---- the buffer ----

  /** A buffer of digits of a base, of which the last ones, as many as length says, are in use. */
  ghost predicate Buffer(a: Bytes, b: nat, length: nat) {
    && length <= |a| && Below(b, a)
    && (forall k | 0 <= k < |a| - length :: a[k] == 0)
    && (length > 0 ==> a[|a| - length] != 0)
  }

  /** Multiplies the number in a buffer and adds to it. */
  method MulAdd(a: array<Byte>, b: nat, mul: nat, add: nat, length: nat) returns (length': nat)
    requires 2 <= b <= 256 && mul >= 1 && Buffer(a[..], b, length)
    requires mul * Num(b, a[..]) + add < Pow(b, a.Length)
    modifies a
    ensures Buffer(a[..], b, length') && Num(b, a[..]) == mul * Num(b, old(a[..])) + add
  {
    hide Num; hide Pow; hide Scaled; hide Sum; hide DigitOf; hide CarryOf;
    ghost var x := a[..];
    var size, carry: nat, i := a.Length, add, 0;
    ScaledNone(b, x, mul, add);
    while (carry != 0 || i < length) && i < size
      invariant 0 <= i <= size && Below(b, a[..])
      invariant forall k | 0 <= k < size - i :: a[k] == x[k]
      invariant Scaled(b, a[size - i..], carry, x[size - i..], mul, add)
      invariant i > length ==> carry != 0 || a[size - i] != 0
    {
      var k := size - 1 - i;
      ghost var t := a[k + 1..];
      var n := Sum(carry, mul, a[k]);
      CarryOn(b, n);
      SumPositive(carry, mul, a[k]);
      ScaledNext(b, t, carry, x[k + 1..], mul, add, x[k]);
      a[k] := DigitOf(n, b);
      carry := CarryOf(n, b);
      assert a[k..] == [a[k]] + t && x[k..] == [x[k]] + x[k + 1..];
      i := i + 1;
    }
    Finished(a[..], x, b, mul, add, length, i, carry);
    length' := i;
  }

  lemma ScaledNone(b: nat, x: Bytes, mul: nat, add: nat)
    ensures Scaled(b, x[|x|..], add, x[|x|..], mul, add)
  {
    assert x[|x|..] == [];
  }

  /** What has been written is the whole result: in front of it there are only zeros. */
  lemma WholeResult(a: Bytes, x: Bytes, b: nat, mul: nat, add: nat, n: nat, carry: int)
    requires |a| == |x| && n <= |a| && (forall k | 0 <= k < n :: a[k] == 0 && x[k] == 0)
    requires Scaled(b, a[n..], carry, x[n..], mul, add) && carry == 0
    ensures Num(b, a) == mul * Num(b, x) + add
  {
    hide Num; hide Pow;
    assert a == a[..n] + a[n..] && x == x[..n] + x[n..];
    NumZeros(b, a[..n], a[n..]);
    NumZeros(b, x[..n], x[n..]);
  }

  /** The first digit in use stays different from zero. */
  lemma StillInUse(t: Bytes, x: Bytes, b: nat, mul: nat, add: nat)
    requires mul >= 1 && Below(b, t) && x != [] && x[0] != 0 && Scaled(b, t, 0, x, mul, add)
    ensures t[0] != 0
  {
    hide Num; hide Pow;
    AtLeast(b, x);
    MulMono(1, mul, Num(b, x));
    TopDigit(b, t);
  }

  lemma AllWritten(a: Bytes, x: Bytes, b: nat, mul: nat, add: nat, carry: int)
    requires b > 0 && carry >= 0 && |a| == |x| && Scaled(b, a[0..], carry, x[0..], mul, add)
    requires mul * Num(b, x) + add < Pow(b, |a|)
    ensures carry == 0
  {
    hide Num; hide Pow;
    assert a[0..] == a && x[0..] == x;
    NoCarry(b, a, carry, x, mul, add);
  }

  /** When the loop ends nothing is left to carry, and the digits written are those in use. */
  lemma Finished(a: Bytes, x: Bytes, b: nat, mul: nat, add: nat, length: nat, i: nat, carry: int)
    requires b > 0 && mul >= 1 && carry >= 0 && Buffer(x, b, length) && |a| == |x| && i <= |a| && Below(b, a)
    requires forall k | 0 <= k < |a| - i :: a[k] == x[k]
    requires Scaled(b, a[|a| - i..], carry, x[|a| - i..], mul, add)
    requires (carry == 0 && i >= length) || i == |a|
    requires i > length ==> carry != 0 || a[|a| - i] != 0
    requires mul * Num(b, x) + add < Pow(b, |a|)
    ensures carry == 0 && Buffer(a, b, i) && Num(b, a) == mul * Num(b, x) + add
  {
    hide Scaled; hide Num; hide Pow;
    var n := |a| - i;
    if i == |a| {
      AllWritten(a, x, b, mul, add, carry);
    }
    WholeResult(a, x, b, mul, add, n, carry);
    if i == length && i > 0 {
      StillInUse(a[n..], x[n..], b, mul, add);
    }
  }

  /** The digits in use are those of the number. */
  lemma InUse(a: Bytes, b: nat, length: nat)
    requires 2 <= b <= 256 && Buffer(a, b, length)
    ensures a[|a| - length..] == Digits(b, Num(b, a))
  {
    hide Num; hide Digits;
    var n := |a| - length;
    assert a == a[..n] + a[n..];
    NumZeros(b, a[..n], a[n..]);
    DigitsOfNum(b, a[n..]);
  }

  lemma EmptyBuffer(a: Bytes, b: nat)
    requires b > 0 && forall k | 0 <= k < |a| :: a[k] == 0
    ensures Buffer(a, b, 0) && Num(b, a) == 0
  {
    assert a + [] == a;
    NumZeros(b, a, []);
  }

  lemma NumNext(b: nat, s: Bytes, j: nat)
    requires j < |s|
    ensures Num(b, s[..j + 1]) == Num(b, s[..j]) * b + s[j]
  {
    assert s[..j + 1] == s[..j] + [s[j]];
    NumPush(b, s[..j], s[j]);
  }

  /** As long as the buffer fits the whole, it fits every part. */
  lemma PartFits(s: Bytes, b: nat, j: nat, c: nat, size: nat)
    requires 0 < b && Below(b, s) && j < |s| && Pow(b, |s|) <= Pow(c, size)
    ensures b * Num(b, s[..j]) + s[j] < Pow(c, size)
  {
    hide Pow; hide Num;
    var n := Num(b, s[..j]);
    NumNext(b, s, j);
    Commutes(b, n);
    NumBound(b, s[..j + 1]);
    PowMono(b, j + 1, |s|);
  }

  // ---- encoding ----

  method EncodeBase58(input: Bytes) returns (str: Bytes)
    ensures str == Encoded(input)
  {
    hide Num; hide Pow; hide Digits;
    var zeroes := CountLeading(0, input);
    LeadingSplits(0, input);
    var rest := input[zeroes..];
    var size := |rest| * 138 / 100 + 1;
    EncodeFits(|rest|);
    var b58 := new Byte[size](_ => 0);
    var length: nat := 0;
    EmptyBuffer(b58[..], 58);
    NumEmpty(256, rest);
    for j := 0 to |rest|
      invariant Buffer(b58[..], 58, length) && Num(58, b58[..]) == Num(256, rest[..j])
    {
      PartFits(rest, 256, j, 58, size);
      NumNext(256, rest, j);
      length := MulAdd(b58, 58, 256, rest[j], length);
    }
    assert rest[..|rest|] == rest;
    InUse(b58[..], 58, length);
    NumOfDigits(58, Num(58, b58[..]));
    assert input == Repeat(0, zeroes) + rest;
    NumOfZeros(256, zeroes, rest);
    var digits := b58[size - length..];
    var skip := CountLeading(0, digits);
    assert digits[0..] == digits;
    str := Write(Repeat(ONE, zeroes), digits[skip..]);
  }

  lemma Commutes(a: int, b: int)
    ensures a * b == b * a
  {
  }

  lemma NumEmpty(b: nat, s: Bytes)
    ensures Num(b, s[..0]) == 0
  {
    assert s[..0] == [];
  }

  method CountLeading(x: Byte, s: Bytes) returns (n: nat)
    ensures n == Leading(x, s)
  {
    n := 0;
    while n < |s| && s[n] == x
      invariant n <= |s| && Leading(x, s) == n + Leading(x, s[n..])
      decreases |s| - n
    {
      assert s[n..][1..] == s[n + 1..];
      n := n + 1;
    }
  }

  method Write(start: Bytes, digits: Bytes) returns (str: Bytes)
    requires Below(58, digits)
    ensures str == start + Text(digits)
  {
    str := start;
    for i := 0 to |digits|
      invariant str == start + Text(digits[..i])
    {
      assert Text(digits[..i + 1]) == Text(digits[..i]) + [Chr(digits[i])];
      str := str + [Chr(digits[i])];
    }
    assert digits[..|digits|] == digits;
  }

  // ---- decoding ----

  method SkipFrom(str: Bytes, start: nat) returns (p: nat)
    requires start <= |str|
    ensures start <= p <= |str| && str[p..] == SkipSpaces(str[start..])
  {
    p := start;
    while p < |str| && IsSpace(str[p])
      invariant start <= p <= |str| && SkipSpaces(str[p..]) == SkipSpaces(str[start..])
    {
      assert str[p..][1..] == str[p + 1..];
      p := p + 1;
    }
  }

  /** The word at the start of a text is readable and not too long. */
  predicate Accepted(s: Bytes, max: int) {
    Readable(Word(s)) && !TooMany(|Decoded(Word(s))|, max)
  }

  /** Counts the ones at the start; fails as soon as there are more than asked for. */
  method ReadOnes(s: Bytes, max: int) returns (ok: bool, zeroes: nat)
    ensures !ok ==> !Accepted(s, max)
    ensures ok ==> zeroes == Leading(ONE, s) <= |s| && (zeroes == 0 || zeroes <= max)
  {
    zeroes := 0;
    while zeroes < |s| && s[zeroes] == ONE
      invariant zeroes <= |s| && Leading(ONE, s) == zeroes + Leading(ONE, s[zeroes..])
      invariant zeroes == 0 || zeroes <= max
    {
      assert s[zeroes..][1..] == s[zeroes + 1..];
      zeroes := zeroes + 1;
      if zeroes > max {
        TooManyOnes(s, zeroes, max);
        return false, zeroes;
      }
    }
    return true, zeroes;
  }

  lemma OnesStart(s: Bytes, z: nat)
    requires z <= Leading(ONE, s)
    ensures z <= |Word(s)| && Word(s)[..z] == Repeat(ONE, z) && z <= |s| && s[..z] == Repeat(ONE, z)
  {
    LeadingSplits(ONE, s);
    forall i | 0 <= i < z ensures s[i] == ONE { assert s[..Leading(ONE, s)][i] == ONE; }
    WordStarts(s, z);
  }

  lemma TooManyOnes(s: Bytes, z: nat, max: int)
    requires 0 < z <= Leading(ONE, s) && z > max
    ensures !Accepted(s, max)
  {
    OnesStart(s, z);
    LeadingAtLeast(Word(s), z);
  }

  /** The buffer holds the number that the first i characters stand for. */
  ghost predicate Read(rest: Bytes, i: nat, a: Bytes, length: nat) {
    && i <= |rest| && Readable(rest[..i])
    && Buffer(a, 256, length) && Num(256, a) == Num(58, Values(rest[..i]))
  }

  lemma ReadNone(rest: Bytes, a: Bytes)
    requires forall k | 0 <= k < |a| :: a[k] == 0
    ensures Read(rest, 0, a, 0)
  {
    EmptyBuffer(a, 256);
    assert rest[..0] == [];
    assert Values([]) == [];
  }

  lemma ReadNext(rest: Bytes, i: nat, a: Bytes, length: nat)
    requires Read(rest, i, a, length) && i < |rest| && Rev(rest[i]) != -1
    requires Pow(58, |rest|) <= Pow(256, |a|)
    ensures 0 <= Rev(rest[i]) < 58 && Readable(rest[..i + 1])
    ensures Num(58, Values(rest[..i + 1])) == 58 * Num(256, a) + Rev(rest[i]) < Pow(256, |a|)
  {
    hide Num; hide Pow; hide Buffer;
    ChrOfRev(rest[i]);
    assert rest[..i + 1] == rest[..i] + [rest[i]];
    var v := Values(rest[..i + 1]);
    assert v == Values(rest[..i]) + [Rev(rest[i])];
    NumPush(58, Values(rest[..i]), Rev(rest[i]));
    NumBound(58, v);
    PowMono(58, i + 1, |rest|);
  }

  lemma Unreadable(s: Bytes, z: nat, i: nat, max: int)
    requires z + i < |s| && Rev(s[z + i]) == -1 && (forall k | 0 <= k <= z + i :: !IsSpace(s[k]))
    ensures !Accepted(s, max)
  {
    WordStarts(s, z + i + 1);
    assert Word(s)[z + i] == Word(s)[..z + i + 1][z + i] == s[..z + i + 1][z + i];
  }

  /** What is in the buffer is part of what the word stands for. */
  lemma PartRead(s: Bytes, z: nat, i: nat, a: Bytes, length: nat)
    requires z == Leading(ONE, s) && z + i <= |s| && Read(s[z..], i, a, length)
    requires (forall k | 0 <= k < z + i :: !IsSpace(s[k])) && Readable(Word(s))
    ensures z + length <= |Decoded(Word(s))|
  {
    hide Num; hide Digits; hide Leading; hide Word; hide Decoded; hide Readable;
    OnesStart(s, z);
    WordStarts(s, z + i);
    var w := Word(s);
    assert w[z..z + i] == w[..z + i][z..] == s[..z + i][z..] == s[z..][..i];
    InUse(a, 256, length);
    PartIsShorter(w, z, z + i);
  }

  /** The first character that is not a one stands for more than nothing. */
  lemma SomethingRead(s: Bytes, z: nat, i: nat, a: Bytes, length: nat)
    requires z == Leading(ONE, s) && 0 < i && z + i <= |s| && Read(s[z..], i, a, length)
    ensures length > 0
  {
    LeadingSplits(ONE, s);
    var r := s[z..][..i];
    ChrOfRev(r[0]);
    NumPositive(58, Values(r));
    if length == 0 { EmptyBuffer(a, 256); }
  }

  lemma TooLong(s: Bytes, z: nat, i: nat, a: Bytes, length: nat, max: int)
    requires z == Leading(ONE, s) && 0 < i && z + i <= |s| && Read(s[z..], i, a, length) && length + z > max
    requires forall k | 0 <= k < z + i :: !IsSpace(s[k])
    ensures !Accepted(s, max)
  {
    hide Read; hide Decoded;
    SomethingRead(s, z, i, a, length);
    if Readable(Word(s)) { PartRead(s, z, i, a, length); }
  }

  lemma ReadAll(s: Bytes, z: nat, i: nat, a: Bytes, length: nat)
    requires z == Leading(ONE, s) && z + i <= |s| && Read(s[z..], i, a, length)
    requires (forall k | 0 <= k < z + i :: !IsSpace(s[k])) && (z + i == |s| || IsSpace(s[z + i]))
    ensures Word(s) == s[..z + i] && Readable(Word(s)) && Decoded(Word(s)) == Repeat(0, z) + a[|a| - length..]
  {
    hide Num; hide Digits; hide Leading; hide Word;
    var rest := s[z..][..i];
    WordIs(s, z + i);
    OnesStart(s, z);
    LeadingSplits(ONE, s);
    assert Word(s) == Repeat(ONE, z) + rest;
    if i > 0 { assert rest[0] == s[z]; }
    LeadingFound(ONE, z, rest);
    ValuesAfterOnes(z, rest);
    NumOfZeros(58, z, Values(rest));
    InUse(a, 256, length);
  }

  lemma ValuesAfterOnes(z: nat, rest: Bytes)
    requires Readable(rest)
    ensures Readable(Repeat(ONE, z) + rest) && Values(Repeat(ONE, z) + rest) == Repeat(0, z) + Values(rest)
  {
    var w := Repeat(ONE, z) + rest;
    forall k | 0 <= k < |w| ensures Rev(w[k]) != -1 {
      if k >= z { assert w[k] == rest[k - z]; }
    }
  }

  /** Reads a word. */
  method ReadWord(s: Bytes, max: int) returns (ok: bool, n: nat, bytes: Bytes)
    ensures ok <==> Accepted(s, max)
    ensures ok ==> n == |Word(s)| && bytes == Decoded(Word(s))
  {
    hide Num; hide Pow; hide Digits; hide Readable; hide Word; hide Decoded; hide Leading;
    var zeroes;
    ok, zeroes := ReadOnes(s, max);
    if !ok { return false, 0, []; }
    OnesPlain(s, zeroes);
    var rest := s[zeroes..];
    var size := |rest| * 733 / 1000 + 1;
    DecodeFits(|rest|);
    var b256 := new Byte[size](_ => 0);
    var length: nat, i: nat := 0, 0;
    ReadNone(rest, b256[..]);
    while i < |rest| && !IsSpace(rest[i])
      invariant 0 <= i <= |rest| && (forall k | 0 <= k < zeroes + i :: !IsSpace(s[k]))
      invariant Read(rest, i, b256[..], length) && (i > 0 ==> length + zeroes <= max) && (i == 0 ==> length == 0)
    {
      var carry := Rev(rest[i]);
      if carry == -1 {
        Unreadable(s, zeroes, i, max);
        return false, 0, [];
      }
      ReadNext(rest, i, b256[..], length);
      length := MulAdd(b256, 256, 58, carry, length);
      i := i + 1;
      if length + zeroes > max {
        TooLong(s, zeroes, i, b256[..], length, max);
        return false, 0, [];
      }
    }
    ReadAll(s, zeroes, i, b256[..], length);
    n := zeroes + i;
    bytes := Repeat(0, zeroes) + b256[size - length..];
    ok := true;
  }

  lemma OnesPlain(s: Bytes, z: nat)
    requires z <= Leading(ONE, s)
    ensures z <= |s| && forall k | 0 <= k < z :: !IsSpace(s[k])
  {
    OnesStart(s, z);
    forall k | 0 <= k < z ensures !IsSpace(s[k]) { assert s[k] == s[..z][k]; }
  }

  method DecodeBase58(str: Bytes, max: int) returns (r: Result)
    ensures r == Decode(str, max)
  {
    if 0 in str { return Failed; }
    hide Word; hide SkipSpaces; hide Readable; hide Decoded; hide TooMany;
    var p := SkipFrom(str, 0);
    assert str[0..] == str;
    var s := str[p..];
    var ok, n, bytes := ReadWord(s, max);
    if !ok { return Failed; }
    WordFits(s);
    var q := SkipFrom(s, n);
    if q != |s| { return Failed; }
    return Ok(bytes);
  }
}
