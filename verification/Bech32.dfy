/** Encoding and decoding of Bech32 and Bech32m strings. */
module Bech32 {
  import opened Bech32Spec
  import Errors = Bech32Errors

  // ---- what encoding and decoding mean ----

  predicate Printable(c: bv8) { 33 <= c <= 126 }

  /** No character is out of range, and not both cases occur. */
  ghost predicate CharactersOk(str: Data) {
    && (forall i | 0 <= i < |str| :: Printable(str[i]))
    && !((exists i :: 0 <= i < |str| && IsLower(str[i])) && (exists i :: 0 <= i < |str| && IsUpper(str[i])))
  }

  predicate NoUpper(str: Data) { forall i | 0 <= i < |str| :: !IsUpper(str[i]) }

  /** The place of the last separator, or -1. */
  function LastSeparator(str: Data): int
    decreases |str|
  {
    if str == [] then -1
    else if str[|str| - 1] == SEPARATOR then |str| - 1
    else LastSeparator(str[..|str| - 1])
  }

  function Text(values: Data): Data { seq(|values|, i requires 0 <= i < |values| => Chr(values[i])) }

  function SymbolsOf(str: Data): Data { seq(|str|, i requires 0 <= i < |str| => Rev(str[i])) }

  function LowerAll(str: Data): Data { seq(|str|, i requires 0 <= i < |str| => ToLower(str[i])) }

  function Encoded(e: Encoding, hrp: Data, values: Data): Data {
    hrp + [SEPARATOR] + Text(values + Checksum(e, hrp, values))
  }

  datatype Result = Failed | Decoded(encoding: Encoding, hrp: Data, values: Data)

  /** What a human readable part and symbols, including a checksum, stand for. */
  function Opened(hrp: Data, values: Data): Result
    requires |values| >= 6
  {
    match Verify(hrp, values)
    case Invalid => Failed
    case Valid(e) => Decoded(e, hrp, values[..|values| - 6])
  }

  ghost function Decode(str: Data): Result {
    var pos := LastSeparator(str);
    if !CharactersOk(str) || |str| > 90 || pos < 1 || pos + 7 > |str| then Failed
    else
      var values := SymbolsOf(str[pos + 1..]);
      if NO_SYMBOL in values then Failed else Opened(LowerAll(str[..pos]), values)
  }

  // ---- decoding what has been encoded ----

  lemma {:induction false} SeparatorFound(a: Data, b: Data)
    requires SEPARATOR !in b
    ensures LastSeparator(a + [SEPARATOR] + b) == |a|
    decreases |b|
  {
    var str := a + [SEPARATOR] + b;
    if b != [] {
      var n := |b| - 1;
      assert str[..|str| - 1] == a + [SEPARATOR] + b[..n];
      SeparatorFound(a, b[..n]);
    } else {
      assert str == a + [SEPARATOR];
    }
  }

  lemma TextPlain(v: Data)
    requires Symbols(v)
    ensures SEPARATOR !in Text(v) && NoUpper(Text(v)) && SymbolsOf(Text(v)) == v && NO_SYMBOL !in v
    ensures forall i | 0 <= i < |v| :: Printable(Text(v)[i])
  {
    forall i | 0 <= i < |v|
      ensures Text(v)[i] != SEPARATOR && !IsUpper(Text(v)[i]) && Rev(Text(v)[i]) == v[i] && Printable(Text(v)[i])
    {
      RevOfChr(v[i]);
      ChrPlain(v[i]);
    }
  }

  lemma LowerPlain(hrp: Data)
    requires NoUpper(hrp)
    ensures LowerAll(hrp) == hrp
  {
  }

  lemma SeparatorPlain()
    ensures Printable(SEPARATOR) && !IsUpper(SEPARATOR) && !IsLower(SEPARATOR)
  {
  }

  lemma EncodedCharacters(hrp: Data, text: Data)
    requires NoUpper(hrp) && NoUpper(text) && forall i | 0 <= i < |text| :: Printable(text[i])
    ensures CharactersOk(hrp + [SEPARATOR] + text) <==> forall i | 0 <= i < |hrp| :: Printable(hrp[i])
  {
    SeparatorPlain();
    var str := hrp + [SEPARATOR] + text;
    assert forall i | 0 <= i < |hrp| :: str[i] == hrp[i];
    forall i | 0 <= i < |str| ensures !IsUpper(str[i]) {
      if i > |hrp| { assert str[i] == text[i - |hrp| - 1]; }
    }
    forall i | |hrp| <= i < |str| ensures Printable(str[i]) {
      if i > |hrp| { assert str[i] == text[i - |hrp| - 1]; }
    }
  }

  lemma SymbolsJoin(a: Data, b: Data)
    requires Symbols(a) && Symbols(b)
    ensures Symbols(a + b)
  {
  }

  /** Decoding gives back what has been encoded exactly if the human readable part is there and
      printable and the whole is not too long; otherwise it fails. */
  lemma DecodeOfEncoded(e: Encoding, hrp: Data, values: Data)
    requires NoUpper(hrp) && Symbols(values)
    ensures Decode(Encoded(e, hrp, values)) ==
              if |hrp| >= 1 && |hrp| + |values| + 7 <= 90 && (forall i | 0 <= i < |hrp| :: Printable(hrp[i]))
              then Decoded(e, hrp, values) else Failed
  {
    var all := values + Checksum(e, hrp, values);
    var text, str := Text(all), Encoded(e, hrp, values);
    UnpackSymbols(Xor(Poly(1, Expand(hrp) + values + ZEROS), Constant(e)));
    SymbolsJoin(values, Checksum(e, hrp, values));
    TextPlain(all);
    SeparatorFound(hrp, text);
    EncodedCharacters(hrp, text);
    assert str[|hrp| + 1..] == text && str[..|hrp|] == hrp;
    LowerPlain(hrp);
    OpenedAgain(e, hrp, values);
  }

  lemma OpenedAgain(e: Encoding, hrp: Data, values: Data)
    ensures Opened(hrp, values + Checksum(e, hrp, values)) == Decoded(e, hrp, values)
  {
    var all := values + Checksum(e, hrp, values);
    ChecksumVerifies(e, hrp, values);
    assert Expand(hrp) + all == Expand(hrp) + values + Checksum(e, hrp, values);
    ConstantsDiffer();
    assert all[..|all| - 6] == values;
  }

  lemma ConstantsDiffer()
    ensures Constant(Bech32Spec.Bech32) != Constant(Bech32m)
  {
  }

  // ---- encoding what has been decoded ----

  lemma {:induction false} SeparatorSplits(str: Data)
    ensures -1 <= LastSeparator(str) < |str|
    ensures LastSeparator(str) >= 0 ==> str[LastSeparator(str)] == SEPARATOR
    decreases |str|
  {
    if str != [] && str[|str| - 1] != SEPARATOR {
      SeparatorSplits(str[..|str| - 1]);
    }
  }

  lemma SymbolsRead(str: Data)
    requires NO_SYMBOL !in SymbolsOf(str)
    ensures Symbols(SymbolsOf(str)) && Text(SymbolsOf(str)) == LowerAll(str)
  {
    var v := SymbolsOf(str);
    forall i | 0 <= i < |str|
      ensures v[i] < 32 && Chr(v[i]) == ToLower(str[i])
    {
      assert v[i] != NO_SYMBOL;
      ChrRev(str[i]);
    }
  }

  lemma OpenedEncodes(hrp: Data, values: Data)
    requires |values| >= 6 && Symbols(values) && Opened(hrp, values).Decoded?
    ensures var r := Opened(hrp, values); r.hrp == hrp && r.values + Checksum(r.encoding, hrp, r.values) == values
  {
    var r, n := Opened(hrp, values), |values| - 6;
    assert values == r.values + values[n..];
    assert Expand(hrp) + values == Expand(hrp) + r.values + values[n..];
    ChecksumUnique(r.encoding, hrp, r.values, values[n..]);
  }

  lemma LowerSeparator()
    ensures ToLower(SEPARATOR) == SEPARATOR
  {
  }

  /** Whatever can be decoded is, up to its case, what encoding the result gives. */
  lemma EncodedOfDecode(str: Data)
    requires Decode(str).Decoded?
    ensures var r := Decode(str); Encoded(r.encoding, r.hrp, r.values) == LowerAll(str)
  {
    var pos := LastSeparator(str);
    SeparatorSplits(str);
    var values := SymbolsOf(str[pos + 1..]);
    SymbolsRead(str[pos + 1..]);
    OpenedEncodes(LowerAll(str[..pos]), values);
    LowerSplit(str, pos);
  }

  lemma LowerSplit(str: Data, pos: nat)
    requires pos < |str| && str[pos] == SEPARATOR
    ensures LowerAll(str) == LowerAll(str[..pos]) + [SEPARATOR] + LowerAll(str[pos + 1..])
  {
    LowerSeparator();
  }

  // ---- a changed character ----

  lemma {:induction false} SeparatorStays(str: Data, i: nat, c: bv8)
    requires LastSeparator(str) < i < |str| && c != SEPARATOR
    ensures LastSeparator(str[i := c]) == LastSeparator(str)
    decreases |str|
  {
    var n := |str| - 1;
    if i < n {
      assert str[i := c][..n] == str[..n][i := c];
      SeparatorStays(str[..n], i, c);
    } else {
      assert str[i := c][..n] == str[..n];
    }
  }

  lemma SymbolsChanged(str: Data, a: nat, i: nat, c: bv8)
    requires a <= i < |str|
    ensures SymbolsOf(str[i := c][a..]) == SymbolsOf(str[a..])[i - a := Rev(c)]
  {
    hide Rev;
  }

  lemma OpenedChanged(hrp: Data, v: Data, k: nat, y: bv8)
    requires |v| >= 6 && Symbols(v) && k < |v| && y < 32 && y != v[k] && Opened(hrp, v).Decoded?
    ensures Opened(hrp, v[k := y]).Decoded? ==> Opened(hrp, v[k := y]).encoding != Opened(hrp, v).encoding
  {
    assert v == v[..k] + [v[k]] + v[k + 1..];
    assert v[k := y] == v[..k] + [y] + v[k + 1..];
    hide Verify;
    ChangedNeverVerifies(hrp, v[..k], [v[k]], [y], v[k + 1..]);
  }

  /** What decoding comes to where it succeeds. */
  lemma Reading(str: Data)
    requires Decode(str).Decoded?
    ensures var pos := LastSeparator(str);
            && 1 <= pos <= |str| - 7 && Symbols(SymbolsOf(str[pos + 1..]))
            && Decode(str) == Opened(LowerAll(str[..pos]), SymbolsOf(str[pos + 1..]))
  {
    hide CharactersOk; hide LastSeparator; hide Opened; hide SymbolsOf; hide LowerAll; hide Symbols;
    SymbolsRead(str[LastSeparator(str) + 1..]);
  }

  /** A string that can be decoded, with one character after the separator replaced by one that stands
      for something else, cannot be decoded under the same encoding. */
  lemma ChangedCharacter(str: Data, i: nat, c: bv8)
    requires Decode(str).Decoded? && LastSeparator(str) < i < |str| && c != SEPARATOR && Rev(c) != Rev(str[i])
    ensures Decode(str[i := c]).Decoded? ==> Decode(str[i := c]).encoding != Decode(str).encoding
  {
    var pos := LastSeparator(str);
    hide Rev; hide Opened; hide LowerAll; hide LastSeparator;
    SeparatorStays(str, i, c);
    Reading(str);
    if Decode(str[i := c]).Decoded? {
      Reading(str[i := c]);
      SymbolsChanged(str, pos + 1, i, c);
      assert str[i := c][..pos] == str[..pos];
      hide Decode;
      var v, k := SymbolsOf(str[pos + 1..]), i - pos - 1;
      assert v[k] == Rev(str[i]) && SymbolsOf(str[i := c][pos + 1..])[k] == Rev(c);
      OpenedChanged(LowerAll(str[..pos]), v, k, Rev(c));
    }
  }

  lemma OpenedDiffer(hrp: Data, v: Data, w: Data)
    requires 6 <= |v| == |w| <= 90 && Symbols(v) && Symbols(w) && v != w && |Errors.Changes(v, w)| <= 3
    requires Opened(hrp, v).Decoded? && Opened(hrp, w).Decoded?
    ensures Opened(hrp, w).encoding != Opened(hrp, v).encoding
  {
    hide Verify;
    Errors.ThreeOfDataNeverVerify(hrp, v, w);
  }

  /** A string that can be decoded, with up to three of the characters after the separator replaced by
      ones that stand for something else, cannot be decoded under the same encoding. */
  lemma ChangedCharacters(str: Data, str': Data)
    requires Decode(str).Decoded? && |str'| == |str| && LastSeparator(str') == LastSeparator(str)
    requires var pos := LastSeparator(str);
             && LowerAll(str'[..pos]) == LowerAll(str[..pos]) && SymbolsOf(str'[pos + 1..]) != SymbolsOf(str[pos + 1..])
             && |Errors.Changes(SymbolsOf(str[pos + 1..]), SymbolsOf(str'[pos + 1..]))| <= 3
    ensures Decode(str').Decoded? ==> Decode(str').encoding != Decode(str).encoding
  {
    hide Decode; hide LastSeparator; hide Opened; hide LowerAll; hide Rev; hide Errors.Changes;
    if Decode(str').Decoded? {
      Reading(str);
      Reading(str');
      DecodedLength(str);
      var pos := LastSeparator(str);
      OpenedDiffer(LowerAll(str[..pos]), SymbolsOf(str[pos + 1..]), SymbolsOf(str'[pos + 1..]));
    }
  }

  lemma DecodedLength(str: Data)
    requires Decode(str).Decoded?
    ensures |str| <= 90
  {
    hide CharactersOk; hide LastSeparator; hide SymbolsOf; hide LowerAll;
  }

  // ---- the code ----

  method PolyMod(v: Data) returns (c: bv32)
    ensures c == Poly(1, v)
  {
    c := 1;
    for i := 0 to |v|
      invariant c == Poly(1, v[..i])
    {
      assert v[..i + 1][..i] == v[..i];
      c := PolyStep(c, v[i]);
    }
    assert v[..|v|] == v;
  }

  method PolyStep(c: bv32, v: bv8) returns (r: bv32)
    ensures r == Step(c, v)
  {
    StepByBits(c, v);
    var c0 := (c >> 25) & 31;
    var k1 := if c0 & 1 != 0 then 0x3b6a57b2 else 0;
    var k2 := if c0 & 2 != 0 then 0x26508e6d else 0;
    var k3 := if c0 & 4 != 0 then 0x1ea119fa else 0;
    var k4 := if c0 & 8 != 0 then 0x3d4233dd else 0;
    var k5 := if c0 & 16 != 0 then 0x2a1462b3 else 0;
    r := Xor((c & 0x1ff_ffff) << 5, v as bv32);
    XorChain(r, k1, k2, k3, k4, k5);
    r := Xor(Xor(Xor(Xor(Xor(r, k1), k2), k3), k4), k5);
  }

  lemma XorChain(a: bv32, p1: bv32, p2: bv32, p3: bv32, p4: bv32, p5: bv32)
    ensures Xor(Xor(Xor(Xor(Xor(a, p1), p2), p3), p4), p5) == Xor(a, Xor5(p1, p2, p3, p4, p5))
  {
    var q2 := Xor(p1, p2);
    var q3 := Xor(q2, p3);
    XorAssoc(a, p1, p2);
    XorAssoc(a, q2, p3);
    XorAssoc(a, q3, p4);
    XorAssoc(a, Xor(q3, p4), p5);
  }

  /** The bits that decide are the same after shifting down. */
  lemma StepByBits(c: bv32, v: bv8)
    ensures ((c >> 25) & 31) & 1 != 0 <==> c & 0x200_0000 != 0
    ensures ((c >> 25) & 31) & 2 != 0 <==> c & 0x400_0000 != 0
    ensures ((c >> 25) & 31) & 4 != 0 <==> c & 0x800_0000 != 0
    ensures ((c >> 25) & 31) & 8 != 0 <==> c & 0x1000_0000 != 0
    ensures ((c >> 25) & 31) & 16 != 0 <==> c & 0x2000_0000 != 0
  {
  }

  method ExpandHrp(hrp: Data) returns (r: Data)
    ensures r == Expand(hrp)
    ensures |r| == 2 * |hrp| + 1 && r[|hrp|] == 0
    ensures forall i | 0 <= i < |hrp| :: MadeOf(hrp[i], r[i], r[|hrp| + 1 + i])
  {
    var n := |hrp|;
    var a := new bv8[2 * n + 1];
    for i := 0 to n
      invariant forall k | 0 <= k < i :: a[k] == High(hrp[k]) && a[k + n + 1] == Low(hrp[k])
    {
      a[i] := High(hrp[i]);
      a[i + n + 1] := Low(hrp[i]);
    }
    a[n] := 0;
    assert a[..] == Expand(hrp);
    r := a[..];
    forall i | 0 <= i < n
      ensures MadeOf(hrp[i], r[i], r[n + 1 + i])
    {
      HighLow(hrp[i]);
      assert r[i] == High(hrp[i]) && r[n + 1 + i] == Low(hrp[i]);
    }
  }

  method VerifyChecksum(hrp: Data, values: Data) returns (r: Checked)
    ensures r == Verify(hrp, values)
    ensures |values| >= 6 && Symbols(values) ==>
              forall e :: r == Valid(e) <==> values[|values| - 6..] == Checksum(e, hrp, values[..|values| - 6])
  {
    if |values| >= 6 && Symbols(values) {
      VerifyIff(Bech32Spec.Bech32, hrp, values);
      VerifyIff(Bech32m, hrp, values);
    }
    hide Checksum; hide Poly;
    var expanded := ExpandHrp(hrp);
    var check := PolyMod(expanded + values);
    if check == Constant(Bech32Spec.Bech32) { return Valid(Bech32Spec.Bech32); }
    if check == Constant(Bech32m) { return Valid(Bech32m); }
    return Invalid;
  }

  method CreateChecksum(e: Encoding, hrp: Data, values: Data) returns (r: Data)
    ensures r == Checksum(e, hrp, values) && |r| == 6 && Symbols(r) && Verify(hrp, values + r) == Valid(e)
  {
    OpenedAgain(e, hrp, values);
    UnpackSymbols(Xor(Poly(1, Expand(hrp) + values + ZEROS), Constant(e)));
    hide Verify; hide Poly; hide Expand;
    var expanded := ExpandHrp(hrp);
    var poly := PolyMod(expanded + values + [0, 0, 0, 0, 0, 0]);
    r := Unpack(Xor(poly, Constant(e)));
  }

  lemma TextPush(v: Data, i: nat)
    requires i < |v|
    ensures Text(v[..i + 1]) == Text(v[..i]) + [Chr(v[i])]
  {
  }

  lemma SymbolsPush(str: Data, a: nat, i: nat)
    requires a <= i < |str|
    ensures SymbolsOf(str[a..i + 1]) == SymbolsOf(str[a..i]) + [Rev(str[i])]
  {
  }

  lemma LowerPush(str: Data, i: nat)
    requires i < |str|
    ensures LowerAll(str[..i + 1]) == LowerAll(str[..i]) + [ToLower(str[i])]
  {
  }

  method Encode(e: Encoding, hrp: Data, values: Data) returns (str: Data)
    requires NoUpper(hrp) && Symbols(values)
    ensures str == Encoded(e, hrp, values)
  {
    var checksum := CreateChecksum(e, hrp, values);
    var combined := values + checksum;
    str := hrp + [SEPARATOR];
    for i := 0 to |combined|
      invariant str == hrp + [SEPARATOR] + Text(combined[..i])
    {
      TextPush(combined, i);
      str := str + [Chr(combined[i])];
    }
    assert combined[..|combined|] == combined;
  }

  method CheckCharacters(str: Data) returns (errors: seq<nat>)
    ensures errors == [] <==> CharactersOk(str)
  {
    var lower, upper := false, false;
    errors := [];
    for i := 0 to |str|
      invariant errors == [] ==> forall k | 0 <= k < i :: Printable(str[k])
      invariant errors == [] ==> (lower <==> exists k :: 0 <= k < i && IsLower(str[k]))
      invariant errors == [] ==> (upper <==> exists k :: 0 <= k < i && IsUpper(str[k]))
      invariant lower ==> exists k :: 0 <= k < i && IsLower(str[k])
      invariant upper ==> exists k :: 0 <= k < i && IsUpper(str[k])
      invariant !(lower && upper)
      invariant errors != [] ==> !CharactersOk(str)
    {
      CaseOf(str[i]);
      if IsLower(str[i]) {
        if upper { errors := errors + [i]; } else { lower := true; }
      } else if IsUpper(str[i]) {
        if lower { errors := errors + [i]; } else { upper := true; }
      } else if !Printable(str[i]) {
        errors := errors + [i];
      }
    }
  }

  lemma CaseOf(c: bv8)
    ensures !(IsLower(c) && IsUpper(c)) && (IsLower(c) || IsUpper(c) ==> Printable(c))
  {
  }

  method FindLast(str: Data) returns (pos: int)
    ensures pos == LastSeparator(str)
  {
    pos := |str| - 1;
    assert str[..|str|] == str;
    while pos >= 0 && str[pos] != SEPARATOR
      invariant -1 <= pos < |str| && LastSeparator(str[..pos + 1]) == LastSeparator(str)
      decreases pos
    {
      assert str[..pos + 1][..pos] == str[..pos];
      pos := pos - 1;
    }
  }

  /** Reads the symbols after a position, as far as they are symbols. */
  method ReadSymbols(text: Data) returns (ok: bool, values: Data)
    ensures ok <==> NO_SYMBOL !in SymbolsOf(text)
    ensures ok ==> values == SymbolsOf(text)
  {
    values := [];
    for i := 0 to |text|
      invariant values == SymbolsOf(text[..i]) && NO_SYMBOL !in values
    {
      var symbol := Rev(text[i]);
      if symbol == NO_SYMBOL {
        assert SymbolsOf(text)[i] == NO_SYMBOL;
        return false, values;
      }
      SymbolsPush(text, 0, i);
      values := values + [symbol];
    }
    assert text[..|text|] == text;
    return true, values;
  }

  method ReadHrp(text: Data) returns (hrp: Data)
    ensures hrp == LowerAll(text)
  {
    hrp := [];
    for i := 0 to |text|
      invariant hrp == LowerAll(text[..i])
    {
      LowerPush(text, i);
      hrp := hrp + [ToLower(text[i])];
    }
    assert text[..|text|] == text;
  }

  method DecodeText(str: Data) returns (r: Result)
    ensures r == Decode(str)
  {
    var errors := CheckCharacters(str);
    if errors != [] { return Failed; }
    var pos := FindLast(str);
    if |str| > 90 || pos < 0 || pos == 0 || pos + 7 > |str| { return Failed; }
    var ok, values := ReadSymbols(str[pos + 1..]);
    if !ok { return Failed; }
    var hrp := ReadHrp(str[..pos]);
    var result := VerifyChecksum(hrp, values);
    if result == Invalid { return Failed; }
    return Decoded(result.encoding, hrp, values[..|values| - 6]);
  }
}
