/** The compact form of a target: a size in bytes, a sign and the leading three bytes. */
module Compact {
  import opened Numbers
  import opened ArithSpec

  function Size(c: Limb): nat { c / 0x100_0000 }

  function Mantissa(c: Limb): nat { c % 0x80_0000 }

  predicate Sign(c: Limb) { c / 0x80_0000 % 2 == 1 }

  /** The number that a compact form stands for, of whatever size. */
  function CompactValue(c: Limb): nat {
    if Size(c) <= 3 then DivBound(Mantissa(c), Pow2(8 * (3 - Size(c)))); Mantissa(c) / Pow2(8 * (3 - Size(c)))
    else Mantissa(c) * Pow2(8 * (Size(c) - 3))
  }

  lemma CompactValueIs(c: Limb)
    ensures Size(c) <= 3 ==> CompactValue(c) == Mantissa(c) / Pow2(8 * (3 - Size(c))) <= Mantissa(c)
    ensures Size(c) > 3 ==> CompactValue(c) == Mantissa(c) * Pow2(8 * (Size(c) - 3))
  {
    if Size(c) <= 3 { DivBound(Mantissa(c), Pow2(8 * (3 - Size(c)))); }
  }

  lemma Pow2Small()
    ensures Pow2(0) == 1 && Pow2(8) == 0x100 && Pow2(16) == 0x1_0000 && Pow2(23) == 0x80_0000
            && Pow2(24) == 0x100_0000 && Pow2(32) == BASE
  {
    assert Pow2(8) == 0x100;
    Pow2Add(8, 8);
    Pow2Add(16, 8);
    assert Pow2(24) == 2 * Pow2(23);
    Pow2Base();
  }

  /** A mantissa below 256^a shifted by at most 32 - a bytes stays within 32 bytes. */
  lemma Inside(m: nat, a: nat, shift: nat)
    requires a <= 32 && m < Pow2(8 * a) && shift <= 8 * (32 - a)
    ensures m * Pow2(shift) < Pow2(256)
  {
    Pow2Add(8 * a, 8 * (32 - a));
    Pow2Mono(shift, 8 * (32 - a));
    ProductLess(m, Pow2(8 * a), Pow2(shift), Pow2(8 * (32 - a)));
  }

  lemma ProductLess(m: int, p: int, s: int, t: int)
    requires 0 <= m < p && 0 < s <= t
    ensures m * s < p * t
  {
    MulMono(m + 1, p, s);
    Dist(m, 1, s);
    MulMono(s, t, p);
  }

  /** A mantissa that is not below 256^a shifted by at least 32 - a bytes does not. */
  lemma Outside(m: nat, a: nat, shift: nat)
    requires a <= 32 && m >= Pow2(8 * a) && shift >= 8 * (32 - a)
    ensures m * Pow2(shift) >= Pow2(256)
  {
    Pow2Add(8 * a, 8 * (32 - a));
    Pow2Mono(8 * (32 - a), shift);
    ProductNotLess(m, Pow2(8 * a), Pow2(shift), Pow2(8 * (32 - a)));
  }

  lemma ProductNotLess(m: int, p: int, s: int, t: int)
    requires m >= p > 0 && s >= t > 0
    ensures m * s >= p * t
  {
    MulMono(p, m, s);
    MulMono(t, s, p);
  }

  lemma Fits(m: nat, a: nat, shift: nat)
    requires a <= 32
    ensures m < Pow2(8 * a) && shift <= 8 * (32 - a) ==> m * Pow2(shift) < Pow2(256)
    ensures m >= Pow2(8 * a) && shift >= 8 * (32 - a) ==> m * Pow2(shift) >= Pow2(256)
  {
    if m < Pow2(8 * a) && shift <= 8 * (32 - a) { Inside(m, a, shift); }
    if m >= Pow2(8 * a) && shift >= 8 * (32 - a) { Outside(m, a, shift); }
  }

  /** The test for overflow is exact. */
  lemma OverflowIsExact(c: Limb)
    ensures Size(c) > 3 ==>
              (CompactValue(c) >= Pow(WIDTH) <==>
               && Mantissa(c) != 0
               && (Size(c) > 34 || (Mantissa(c) > 0xff && Size(c) > 33) || (Mantissa(c) > 0xffff && Size(c) > 32)))
    ensures Size(c) <= 3 ==> CompactValue(c) < Pow(WIDTH)
    ensures CompactValue(c) == 0 <==> (if Size(c) <= 3 then CompactValue(c) else Mantissa(c)) == 0
  {
    PowIsPow2(WIDTH);
    Pow2Small();
    var m := Mantissa(c);
    if Size(c) > 3 {
      var shift := 8 * (Size(c) - 3);
      Fits(m, 0, shift);
      Fits(m, 1, shift);
      Fits(m, 2, shift);
      Fits(m, 3, shift);
      if m > 0 { MulMono(1, m, Pow2(shift)); }
    } else {
      DivBound(m, Pow2(8 * (3 - Size(c))));
      Pow2Mono(24, 256);
    }
  }

  // ---- sizes in bytes ----

  function Bytes(v: nat): nat { if v == 0 then 0 else 1 + Bytes(v / 256) }

  lemma MulMonoIf(a: int, b: int, c: int)
    ensures a <= b && c >= 0 ==> a * c <= b * c
  {
    if a <= b && c >= 0 { MulMono(a, b, c); }
  }

  /** The number of bytes is the one whose powers enclose the number. */
  lemma {:induction false} BytesUnique(v: nat, n: nat)
    requires v < Pow2(8 * n) && (n > 0 ==> Pow2(8 * (n - 1)) <= v)
    ensures Bytes(v) == n
  {
    if n > 0 {
      Pow2Small();
      Pow2Add(8 * (n - 1), 8);
      DivMod(v, 256);
      MulMonoIf(Pow2(8 * (n - 1)), v / 256, 256);
      if n > 1 {
        Pow2Add(8 * (n - 2), 8);
        MulMonoIf(v / 256 + 1, Pow2(8 * (n - 2)), 256);
      }
      BytesUnique(v / 256, n - 1);
    }
  }

  lemma {:induction false} BytesEnclose(v: nat)
    ensures v < Pow2(8 * Bytes(v)) && (v > 0 ==> Pow2(8 * (Bytes(v) - 1)) <= v)
  {
    hide Pow2;
    if v == 0 {
      Pow2Small();
    } else {
      var u := v / 256;
      var n := Bytes(u);
      BytesEnclose(u);
      Pow2Small();
      Pow2Add(8 * n, 8);
      DivMod(v, 256);
      MulMono(u + 1, Pow2(8 * n), 256);
      if u > 0 {
        Pow2Add(8 * (n - 1), 8);
        MulMono(Pow2(8 * (n - 1)), u, 256);
      }
    }
  }

  lemma BytesBound(v: nat, n: nat)
    requires v < Pow2(8 * n)
    ensures Bytes(v) <= n
  {
    BytesEnclose(v);
    if Bytes(v) > n { Pow2Mono(8 * n, 8 * (Bytes(v) - 1)); }
  }

  lemma BitsToBytes(v: nat, bits: nat)
    requires v < Pow2(bits) && (bits > 0 ==> Pow2(bits - 1) <= v)
    ensures Bytes(v) == (bits + 7) / 8
  {
    var n := (bits + 7) / 8;
    Pow2Mono(bits, 8 * n);
    if n > 0 { Pow2Mono(8 * (n - 1), bits - 1); }
    BytesUnique(v, n);
  }

  // ---- into the compact form ----

  /** The leading three bytes. */
  function Top(v: nat): nat {
    if Bytes(v) <= 3 then v * Pow2(8 * (3 - Bytes(v)))
    else DivBound(v, Pow2(8 * (Bytes(v) - 3))); v / Pow2(8 * (Bytes(v) - 3))
  }

  /** The leading byte is moved down if its highest bit, which is the sign's, is set. */
  function Word(v: nat): nat { if Top(v) >= 0x80_0000 then Top(v) / 256 else Top(v) }

  function WordSize(v: nat): nat { if Top(v) >= 0x80_0000 then Bytes(v) + 1 else Bytes(v) }

  /** Size, sign and leading bytes in one number. */
  function Packed(size: nat, word: nat, negative: bool): nat {
    var w, n := if word >= 0x80_0000 then word / 256 else word, if word >= 0x80_0000 then size + 1 else size;
    w + n * 0x100_0000 + if negative && w != 0 then 0x80_0000 else 0
  }

  function ToCompact(v: nat, negative: bool): nat { Packed(Bytes(v), Top(v), negative) }

  lemma TopFits(v: nat)
    ensures Top(v) < 0x100_0000 && Word(v) < 0x80_0000
  {
    BytesEnclose(v);
    Pow2Small();
    var n := Bytes(v);
    if n <= 3 {
      Pow2Add(8 * n, 8 * (3 - n));
      MulMono(v + 1, Pow2(8 * n), Pow2(8 * (3 - n)));
      Dist(v, 1, Pow2(8 * (3 - n)));
    } else {
      var u := Pow2(8 * (n - 3));
      Pow2Add(24, 8 * (n - 3));
      DivMod(v, u);
      if v / u >= 0x100_0000 { MulMono(0x100_0000, v / u, u); }
    }
  }

  lemma Low(v: nat, size: nat)
    requires size <= 3 && v < Pow2(8 * size)
    ensures v % Pow(2) == v
  {
    Pow2Small();
    Pow2Mono(8 * size, 24);
    LowEnough(v);
  }

  lemma LowEnough(v: nat)
    requires v < 0x100_0000
    ensures v % Pow(2) == v
  {
    assert Pow(2) == BASE * BASE;
    DivModUnique(v, Pow(2), 0, v);
  }

  /** In a word with a size the bit of the sign is free. */
  lemma SignFree(word: nat, size: nat)
    requires word < 0x80_0000
    ensures !TestBit(word + size * 0x100_0000, 23)
  {
    Pow2Small();
    DivModUnique(word + size * 0x100_0000, 0x80_0000, 2 * size, word);
  }

  /** Setting a bit that is free is adding its weight. */
  lemma {:induction false} OrFree(x: nat, u: nat)
    requires !TestBit(x, u)
    ensures Or(x, Pow2(u)) == x + Pow2(u)
  {
    if u > 0 && x > 0 {
      DivDiv(x, 2, Pow2(u - 1));
      OrFree(x / 2, u - 1);
    } else if x > 0 {
      assert Or(x / 2, 0) == x / 2;
    }
  }

  // ---- there and back ----

  lemma Unpack(v: nat, negative: bool)
    requires WordSize(v) < 256
    ensures var c := ToCompact(v, negative);
            && c < BASE && Size(c) == WordSize(v) && Mantissa(c) == Word(v) && (Sign(c) <==> negative && Word(v) != 0)
  {
    TopFits(v);
    var c, w, n := ToCompact(v, negative), Word(v), WordSize(v);
    var s := if negative && w != 0 then 1 else 0;
    assert c == w + s * 0x80_0000 + n * 0x100_0000;
    DivModUnique(c, 0x100_0000, n, w + s * 0x80_0000);
    DivModUnique(c, 0x80_0000, 2 * n + s, w);
  }

  /** What is left of a number in the compact form: it is rounded down to whole units of its size. */
  function Rounded(v: nat): nat {
    if WordSize(v) <= 3 then v
    else DivBound(v, Pow2(8 * (WordSize(v) - 3))); v / Pow2(8 * (WordSize(v) - 3)) * Pow2(8 * (WordSize(v) - 3))
  }

  /** Into the compact form and back is rounding down, without a sign or an overflow of its own. */
  lemma ThereAndBack(v: nat, negative: bool)
    requires WordSize(v) < 256
    ensures var c := ToCompact(v, negative); c < BASE && CompactValue(c) == Rounded(v)
  {
    Unpack(v, negative);
    var n := Bytes(v);
    Pow2Small();
    if n <= 3 {
      var p := Pow2(8 * (3 - n));
      if Top(v) < 0x80_0000 {
        DivModUnique(v * p, p, v, 0);
      } else if n < 3 {
        Pow2Add(8 * (2 - n), 8);
        Assoc(v, Pow2(8 * (2 - n)), 256);
        DivModUnique(v * p, 256, v * Pow2(8 * (2 - n)), 0);
        DivModUnique(v * Pow2(8 * (2 - n)), Pow2(8 * (2 - n)), v, 0);
      }
    } else if Top(v) >= 0x80_0000 {
      Pow2Add(8 * (n - 3), 8);
      DivDiv(v, Pow2(8 * (n - 3)), 256);
    }
  }

  /** Rounding leaves the number of bytes as it was. */
  lemma RoundedBytes(v: nat)
    ensures Rounded(v) <= v && Bytes(Rounded(v)) == Bytes(v)
  {
    BytesEnclose(v);
    var n, k := Bytes(v), WordSize(v);
    if k > 3 {
      var u := Pow2(8 * (k - 3));
      DivMod(v, u);
      var low := Pow2(8 * (n - 1 - (k - 3)));
      Pow2Add(8 * (n - 1 - (k - 3)), 8 * (k - 3));
      RoundedAtLeast(v, u, low);
      BytesUnique(Rounded(v), n);
    }
  }

  lemma RoundedAtLeast(v: nat, u: nat, low: nat)
    requires u > 0 && v >= low * u
    ensures v / u * u >= low * u
  {
    DivMod(v, u);
    if v / u < low {
      MulMono(v / u + 1, low, u);
      Dist(v / u, 1, u);
    } else {
      MulMono(low, v / u, u);
    }
  }

  lemma WholeUnits(v: nat, n: nat, t: nat)
    requires n < 3 && t == v * Pow2(8 * (3 - n))
    ensures t % 256 == 0
  {
    Pow2Small();
    Pow2Add(8 * (2 - n), 8);
    Assoc(v, Pow2(8 * (2 - n)), 256);
    DivModUnique(t, 256, v * Pow2(8 * (2 - n)), 0);
  }

  lemma RoundedTop(v: nat)
    ensures Top(Rounded(v)) == if Top(v) >= 0x80_0000 then Top(v) / 256 * 256 else Top(v)
  {
    RoundedBytes(v);
    Pow2Small();
    var n, t := Bytes(v), Top(v);
    if n <= 3 {
      if t >= 0x80_0000 && n < 3 { WholeUnits(v, n, t); }
    } else {
      var u := Pow2(8 * (n - 3));
      if t < 0x80_0000 {
        DivModUnique(v / u * u, u, v / u, 0);
      } else {
        Pow2Add(8 * (n - 3), 8);
        DivDiv(v, u, 256);
        Swap(t / 256, u, 256);
        DivModUnique(Rounded(v), u, t / 256 * 256, 0);
      }
    }
  }

  /** A number that has been through the compact form once has the same form again. */
  lemma CompactIsStable(v: nat, negative: bool)
    requires WordSize(v) < 256
    ensures var c := ToCompact(v, negative);
            c < BASE && ToCompact(CompactValue(c), negative) == c
  {
    ThereAndBack(v, negative);
    RoundedBytes(v);
    RoundedTop(v);
    var t := Top(v);
    if t >= 0x80_0000 {
      assert t / 256 * 256 >= 0x80_0000;
      DivModUnique(t / 256 * 256, 256, t / 256, 0);
    }
  }

  /** A target that fits: what it stands for, and that one more than it fits too. */
  lemma TargetFits(c: Limb)
    requires CompactValue(c) < Pow(WIDTH)
    ensures CompactValue(c) + 1 < Pow(WIDTH)
  {
    Pow2Small();
    PowIsPow2(WIDTH);
    Pow2Add(248, 8);
    if Size(c) <= 3 {
      DivBound(Mantissa(c), Pow2(8 * (3 - Size(c))));
      Pow2Mono(24, 248);
    } else {
      Pow2Add(8 * (Size(c) - 3) - 8, 8);
      Assoc(Mantissa(c), Pow2(8 * (Size(c) - 3) - 8), 256);
    }
  }
}
