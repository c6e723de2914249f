/** The 256-bit unsigned integers of the block chain: eight limbs that are rewritten in place. */
module Arith {
  import opened Numbers
  import opened ArithSpec
  import opened Compact

  class Uint256 {
    const pn: array<Limb>

    ghost predicate Valid()
    {
      pn.Length == WIDTH
    }

    ghost function Value(): nat
      reads pn
    {
      Val(pn[..])
    }

    constructor (b: U64)
      ensures Valid() && fresh(pn) && Value() == b
    {
      pn := new Limb[WIDTH](_ => 0);
      new;
      pn[0] := b % BASE;
      pn[1] := b / BASE;
      SmallValue(pn[..]);
    }

    constructor Copy(b: Uint256)
      requires b.Valid()
      ensures Valid() && fresh(pn) && pn[..] == b.pn[..]
    {
      pn := new Limb[WIDTH];
      new;
      for i := 0 to WIDTH
        invariant pn[..i] == b.pn[..i] && fresh(pn) && Valid()
      {
        pn[i] := b.pn[i];
      }
    }

    /** Addition. */
    method Add(b: Uint256)
      requires Valid() && b.Valid()
      modifies pn
      ensures Value() == (old(Value()) + old(b.Value())) % Pow(WIDTH)
    {
      hide Sum; hide Val; hide Pow;
      ghost var x, y, r := pn[..], b.pn[..], [];
      SumNone(x, y);
      var carry: U64 := 0;
      for i := 0 to WIDTH
        invariant carry <= 1 && Done(r, x, i) && Ahead(b.pn, y, i) && Sum(r, carry, x, y)
      {
        var n: U64 := carry + pn[i] + b.pn[i];
        SumNext(r, carry, x, y, n);
        pn[i] := n % BASE;
        carry := n / BASE;
        r := r + [pn[i]];
      }
      assert pn[..] == r;
      SumEnd(r, carry, x, y);
    }

    /** So far r has been written over x. */
    ghost predicate Done(r: seq<Limb>, x: seq<Limb>, i: nat)
      reads pn
    {
      |r| == i <= |x| == pn.Length && (forall k | 0 <= k < i :: pn[k] == r[k]) && Ahead(pn, x, i)
    }

    method Increment()
      requires Valid()
      modifies pn
      ensures Value() == (old(Value()) + 1) % Pow(WIDTH)
    {
      hide Carried; hide Val; hide Pow;
      ghost var x, r := pn[..], [];
      CarriedNone(x, 1);
      var i := 0;
      while i < WIDTH
        invariant 0 <= i <= WIDTH && Done(r, x, i) && Carried(r, 1, x, 1)
      {
        CarriedNext(r, 1, x, 1, 1 + x[i] as int);
        WrapUp(x[i]);
        pn[i] := if pn[i] == BASE - 1 then 0 else pn[i] + 1;
        r := r + [pn[i]];
        if pn[i] != 0 {
          CarriedEnd(pn[..], r, 0, x, 1);
          return;
        }
        i := i + 1;
      }
      CarriedEnd(pn[..], r, 1, x, 1);
    }

    method Decrement()
      requires Valid()
      modifies pn
      ensures Value() == (old(Value()) - 1) % Pow(WIDTH)
    {
      hide Carried; hide Val; hide Pow;
      ghost var x, r := pn[..], [];
      CarriedNone(x, -1);
      var i := 0;
      while i < WIDTH
        invariant 0 <= i <= WIDTH && Done(r, x, i) && Carried(r, -1, x, -1)
      {
        CarriedNext(r, -1, x, -1, -1 + x[i] as int);
        WrapDown(x[i]);
        pn[i] := if pn[i] == 0 then BASE - 1 else pn[i] - 1;
        r := r + [pn[i]];
        if pn[i] != BASE - 1 {
          CarriedEnd(pn[..], r, 0, x, -1);
          return;
        }
        i := i + 1;
      }
      CarriedEnd(pn[..], r, -1, x, -1);
    }

    method Complement() returns (r: Uint256)
      requires Valid()
      ensures fresh(r) && fresh(r.pn) && r.Valid() && r.Value() == Pow(WIDTH) - 1 - Value()
    {
      r := new Uint256(0);
      for i := 0 to WIDTH
        invariant fresh(r.pn) && r.Valid() && forall k | 0 <= k < i :: r.pn[k] == BASE - 1 - pn[k]
      {
        r.pn[i] := BASE - 1 - pn[i];
      }
      ComplementValue(pn[..], r.pn[..]);
    }

    method Negate() returns (r: Uint256)
      requires Valid()
      ensures fresh(r) && fresh(r.pn) && r.Valid() && r.Value() == (0 - Value()) % Pow(WIDTH)
    {
      r := Complement();
      r.Increment();
      ModAdd(0 - Value(), 1, Pow(WIDTH));
    }

    method Sub(b: Uint256)
      requires Valid() && b.Valid()
      modifies pn
      ensures Value() == (old(Value()) - old(b.Value())) % Pow(WIDTH)
    {
      hide Val; hide Pow;
      var m := b.Negate();
      ModAdd(0 - b.Value(), 1, Pow(WIDTH));
      SubtractMod(Value(), b.Value(), Pow(WIDTH));
      Add(m);
    }

    /** Multiplication by a single limb. */
    method MulSmall(b: Limb)
      requires Valid()
      modifies pn
      ensures Value() == old(Value()) * b % Pow(WIDTH)
    {
      ghost var x, r := pn[..], [];
      var carry: U64 := 0;
      for i := 0 to WIDTH
        invariant carry < BASE && Done(r, x, i) && Product(r, carry, x, b)
      {
        ProductFits(b, pn[i]);
        var n: U64 := carry + b * pn[i];
        ProductNext(r, carry, x, b, n);
        pn[i] := n % BASE;
        carry := n / BASE;
        r := r + [pn[i]];
      }
      assert pn[..] == r;
      ProductEnd(r, carry, x, b);
    }

    /** Adds x times b, shifted by j limbs. */
    method AddRow(x: Limb, b: Uint256, j: nat)
      requires Valid() && b.Valid() && j < WIDTH && pn != b.pn
      modifies pn
      ensures Value() == (old(Value()) + x * b.Value() * Pow(j)) % Pow(WIDTH)
    {
      hide Row;
      ghost var a, y, r := pn[..], b.pn[..], pn[..j];
      var carry: U64 := 0;
      var i := 0;
      RowStart(a, x, y, j);
      while i + j < WIDTH
        invariant 0 <= i <= WIDTH - j && carry < BASE && Done(r, a, i + j) && Row(r, carry, a, x, y, j)
      {
        ProductFits(x, b.pn[i]);
        var n: U64 := carry + pn[i + j] + x * b.pn[i];
        RowNext(r, carry, a, x, y, j, n);
        pn[i + j] := n % BASE;
        carry := n / BASE;
        r := r + [pn[i + j]];
        i := i + 1;
      }
      assert pn[..] == r;
      RowEnd(r, carry, a, x, y, j);
    }

    /** Multiplication. */
    method Mul(b: Uint256)
      requires Valid() && b.Valid()
      modifies pn
      ensures Value() == old(Value()) * old(b.Value()) % Pow(WIDTH)
    {
      hide Val; hide Pow;
      var a := new Uint256(0);
      ghost var x, vb := pn[..], b.Value();
      NoRows(x, vb);
      for j := 0 to WIDTH
        invariant a.Valid() && fresh(a.pn) && pn[..] == x && b.Value() == vb
        invariant a.Value() == Val(x[..j]) * vb % Pow(WIDTH)
      {
        ghost var v := a.Value();
        a.AddRow(pn[j], b, j);
        RowsNext(v, a.Value(), x, vb, j);
      }
      assert x[..WIDTH] == x;
      Set(a);
    }

    method Set(b: Uint256)
      requires Valid() && b.Valid()
      modifies pn
      ensures pn[..] == old(b.pn[..])
    {
      ghost var y := b.pn[..];
      for i := 0 to WIDTH
        invariant pn[..i] == y[..i] && b.pn[i..] == y[i..]
      {
        assert b.pn[i] == y[i];
        pn[i] := b.pn[i];
      }
    }

    method Clear()
      requires Valid()
      modifies pn
      ensures forall k | 0 <= k < WIDTH :: pn[k] == 0
    {
      for i := 0 to WIDTH
        invariant forall k | 0 <= k < i :: pn[k] == 0
      {
        pn[i] := 0;
      }
    }

    /** Enters limb x, shifted by s bits, at limb n. */
    method ShlLimb(x: Limb, n: nat, s: nat)
      requires Valid() && n < WIDTH && s < 32
      requires Or(pn[n], Shl(x, s)) == pn[n] + Shl(x, s) < BASE
      requires n + 1 < WIDTH ==> Or(pn[n + 1], Over(x, s)) == Over(x, s)
      modifies pn
      ensures pn[..] == ShlStep(old(pn[..]), x, n, s)
    {
      if n + 1 < WIDTH && s != 0 {
        pn[n + 1] := Or(pn[n + 1], Shr(x, 32 - s));
      }
      pn[n] := Or(pn[n], Shl(x, s));
    }

    /** Shift to the left; what is shifted out is lost. */
    method ShiftLeft(shift: nat)
      requires Valid()
      modifies pn
      ensures Value() == old(Value()) * Pow2(shift) % Pow(WIDTH)
    {
      hide Val; hide Pow;
      var a := pn[..];
      Clear();
      var k, s := shift / 32, shift % 32;
      ghost var top := 0;
      if k < WIDTH { ShlStart(a, pn[..], k, s); }
      for i := 0 to WIDTH
        invariant k >= WIDTH ==> forall n | 0 <= n < WIDTH :: pn[n] == 0
        invariant k < WIDTH ==> ShlSoFar(a, pn[..], if i < WIDTH - k then i else WIDTH - k, k, s, top)
      {
        if i + k < WIDTH {
          ShlFits(a, pn[..], i, k, s, top);
          ShlNext(a, pn[..], i, k, s, top);
          ShlLimb(a[i], i + k, s);
          top := Over(a[i], s);
        }
      }
      ShlEnd(a, pn[..], k, s, top);
    }

    /** Enters limb x, shifted by s bits, at limb m. */
    method ShrLimb(x: Limb, m: nat, s: nat)
      requires Valid() && m < WIDTH && s < 32 && pn[m] == 0
      requires m > 0 ==> Or(pn[m - 1], Under(x, s)) == pn[m - 1] + Under(x, s) < BASE
      modifies pn
      ensures pn[..] == ShrStep(old(pn[..]), x, m, s)
    {
      if m > 0 && s != 0 {
        pn[m - 1] := Or(pn[m - 1], Shl(x, 32 - s));
      }
      pn[m] := Or(pn[m], Shr(x, s));
    }

    /** Shift to the right. */
    method ShiftRight(shift: nat)
      requires Valid()
      modifies pn
      ensures Value() == old(Value()) / Pow2(shift)
    {
      hide Pow2;
      hide Val; hide Pow;
      var a := pn[..];
      Clear();
      var k, s := shift / 32, shift % 32;
      if k < WIDTH { ShrStart(a, pn[..], k, s); }
      for i := 0 to WIDTH
        invariant k >= WIDTH ==> forall n | 0 <= n < WIDTH :: pn[n] == 0
        invariant k < WIDTH ==> ShrSoFar(a, pn[..], Past(i, k), k, s)
      {
        if i - k >= 0 {
          ShrNext(a, pn[..], i - k, k, s);
          ShrLimb(a[i], i - k, s);
        }
      }
      ShrEnd(a, pn[..], k, s);
    }

    /** The position of the highest bit plus one, or zero. */
    method Bits() returns (r: nat)
      requires Valid()
      ensures r <= 32 * WIDTH && Value() < Pow2(r) && (r > 0 ==> Pow2(r - 1) <= Value())
    {
      var pos := WIDTH - 1;
      while pos >= 0
        invariant -1 <= pos < WIDTH && forall k | pos < k < WIDTH :: pn[k] == 0
      {
        if pn[pos] != 0 {
          var n := TopOf(pn[pos]);
          TopBit(pn[..], pos, n);
          return 32 * pos + n + 1;
        }
        pos := pos - 1;
      }
      ValZero(pn[..]);
      return 0;
    }

    method CompareTo(b: Uint256) returns (r: int)
      requires Valid() && b.Valid()
      ensures Value() < b.Value() <==> r == -1
      ensures Value() > b.Value() <==> r == 1
      ensures Value() == b.Value() <==> r == 0
    {
      var i := WIDTH - 1;
      while i >= 0
        invariant -1 <= i < WIDTH && pn[i + 1..] == b.pn[i + 1..]
      {
        if pn[i] < b.pn[i] {
          HighestDecides(pn[..], b.pn[..], i);
          return -1;
        }
        if pn[i] > b.pn[i] {
          HighestDecides(b.pn[..], pn[..], i);
          return 1;
        }
        i := i - 1;
      }
      assert pn[..] == b.pn[..];
      return 0;
    }

    method SetBit(n: nat)
      requires Valid() && n < 32 * WIDTH && LowZero(pn[..], n + 1)
      modifies pn
      ensures Value() == old(Value()) + Pow2(n) && LowZero(pn[..], n)
    {
      SetLowBit(pn[..], n);
      ghost var s := pn[..];
      pn[n / 32] := Or(pn[n / 32], Pow2(n % 32));
      assert pn[..] == s[n / 32 := s[n / 32] + Pow2(n % 32)];
    }

    /** Subtraction that does not wrap around. */
    method TakeOff(b: Uint256)
      requires Valid() && b.Valid() && Value() >= b.Value()
      modifies pn
      ensures Value() == old(Value()) - old(b.Value())
    {
      hide Val; hide Pow;
      ValBound(pn[..]);
      DivModUnique(Value() - b.Value(), Pow(WIDTH), 0, Value() - b.Value());
      Sub(b);
    }

    /** One step of a division: takes the divisor off once if it goes, and halves it. */
    method DivStep(num: Uint256, div: Uint256, shift: nat)
      requires Valid() && num.Valid() && div.Valid() && pn != num.pn && pn != div.pn && num.pn != div.pn
      requires shift < 32 * WIDTH && LowZero(pn[..], shift + 1)
      modifies pn, num.pn, div.pn
      ensures LowZero(pn[..], shift) && div.Value() == old(div.Value()) / 2
      ensures if old(num.Value()) >= old(div.Value())
              then num.Value() == old(num.Value()) - old(div.Value()) && Value() == old(Value()) + Pow2(shift)
              else num.Value() == old(num.Value()) && Value() == old(Value())
    {
      hide Val; hide Pow;
      var c := num.CompareTo(div);
      if c >= 0 {
        num.TakeOff(div);
        SetBit(shift);
      } else {
        LowerZero(pn[..], shift);
      }
      div.ShiftRight(1);
    }

    /** Division. Fails, with this set to zero, exactly if the divisor is zero. */
    method Div(b: Uint256) returns (ok: bool)
      requires Valid() && b.Valid()
      modifies pn
      ensures ok <==> old(b.Value()) != 0
      ensures Value() == if ok then old(Value()) / old(b.Value()) else 0
    {
      var div := new Uint256.Copy(b);
      var num := new Uint256.Copy(this);
      Clear();
      ok := Divide(num, div);
    }

    /** Divides one number by another into this one, which is zero to start with. */
    method Divide(num: Uint256, div: Uint256) returns (ok: bool)
      requires Valid() && num.Valid() && div.Valid() && pn != num.pn && pn != div.pn && num.pn != div.pn
      requires forall k | 0 <= k < WIDTH :: pn[k] == 0
      modifies pn, num.pn, div.pn
      ensures ok <==> old(div.Value()) != 0
      ensures Value() == if ok then old(num.Value()) / old(div.Value()) else 0
    {
      hide Val; hide Pow;
      ghost var n, d := num.Value(), div.Value();
      ValZero(pn[..]);
      var numBits := num.Bits();
      var divBits := div.Bits();
      if divBits == 0 {
        return false;
      }
      if divBits > numBits {
        Pow2Mono(numBits, divBits - 1);
        DivModUnique(n, d, 0, n);
        return true;
      }
      var shift := numBits - divBits;
      DivStart(n, d, numBits, divBits);
      AllLow(pn[..], shift + 1);
      div.ShiftLeft(shift);
      DivLoop(num, div, shift, n, d);
      DivModUnique(n, d, Value(), num.Value());
      return true;
    }

    method DivLoop(num: Uint256, div: Uint256, start: nat, ghost n: nat, ghost d: nat)
      requires Valid() && num.Valid() && div.Valid() && pn != num.pn && pn != div.pn && num.pn != div.pn
      requires start < 32 * WIDTH && LowZero(pn[..], start + 1) && div.Value() == d * Pow2(start)
      requires Dividing(n, d, Value(), num.Value(), start + 1)
      modifies pn, num.pn, div.pn
      ensures Dividing(n, d, Value(), num.Value(), 0)
    {
      var shift := start;
      while shift >= 0
        invariant -1 <= shift < 32 * WIDTH && LowZero(pn[..], shift + 1)
        invariant Dividing(n, d, Value(), num.Value(), shift + 1)
        invariant shift >= 0 ==> div.Value() == d * Pow2(shift)
      {
        DivNext(n, d, Value(), num.Value(), shift);
        DivStep(num, div, shift);
        shift := shift - 1;
      }
    }

    method Assign(b: U64)
      requires Valid()
      modifies pn
      ensures Value() == b
    {
      Clear();
      pn[0] := b % BASE;
      pn[1] := b / BASE;
      SmallValue(pn[..]);
    }

    method GetLow64() returns (r: U64)
      requires Valid()
      ensures r == Value() % Pow(2)
    {
      LowValue(pn[..]);
      OrIsSum(pn[0], pn[1] * BASE, 32);
      r := Or(pn[0], pn[1] * BASE);
    }

    method EqualTo(b: U64) returns (r: bool)
      requires Valid()
      ensures r <==> Value() == b
    {
      var i := WIDTH - 1;
      while i >= 2
        invariant 1 <= i < WIDTH && forall k | i < k < WIDTH :: pn[k] == 0
      {
        if pn[i] != 0 {
          NotSmall(pn[..], i);
          return false;
        }
        i := i - 1;
      }
      SmallValue(pn[..]);
      if pn[1] != b / BASE {
        return false;
      }
      r := pn[0] == b % BASE;
    }

    // ---- the compact form ----

    method SetShifted(b: U64, shift: nat)
      requires Valid()
      modifies pn
      ensures Value() == b * Pow2(shift) % Pow(WIDTH)
    {
      Assign(b);
      ShiftLeft(shift);
    }

    method SetCompact(c: Limb) returns (negative: bool, overflow: bool)
      requires Valid()
      modifies pn
      ensures Value() == CompactValue(c) % Pow(WIDTH)
      ensures negative <==> CompactValue(c) != 0 && Sign(c)
      ensures overflow <==> CompactValue(c) >= Pow(WIDTH)
    {
      hide Pow; hide Pow2; hide CompactValue;
      var size, word := Size(c), Mantissa(c);
      OverflowIsExact(c);
      CompactValueIs(c);
      if size <= 3 {
        word := word / Pow2(8 * (3 - size));
        NoWrap(word, Pow(WIDTH));
        Assign(word);
      } else {
        SetShifted(word, 8 * (size - 3));
      }
      negative := word != 0 && Sign(c);
      overflow := word != 0 && (size > 34 || (word > 0xff && size > 33) || (word > 0xffff && size > 32));
    }

    /** The size in bytes and the leading three of them. */
    method LeadingBytes() returns (size: nat, word: nat)
      requires Valid()
      ensures size == Bytes(Value()) <= 32 && word == Top(Value()) < 0x100_0000
    {
      hide Val; hide Pow;
      var bits := Bits();
      size := (bits + 7) / 8;
      BitsToBytes(Value(), bits);
      ValBound(pn[..]);
      PowIsPow2(WIDTH);
      BytesBound(Value(), 32);
      TopFits(Value());
      if size <= 3 {
        BytesEnclose(Value());
        Low(Value(), size);
        word := GetLow64();
        word := word * Pow2(8 * (3 - size));
      } else {
        var bn := new Uint256.Copy(this);
        bn.ShiftRight(8 * (size - 3));
        LowEnough(bn.Value());
        word := bn.GetLow64();
      }
    }

    method GetCompact(negative: bool) returns (c: Limb)
      requires Valid()
      ensures c == ToCompact(Value(), negative)
    {
      var size, word := LeadingBytes();
      c := Pack(size, word, negative);
    }
  }

  /** Puts the parts of the compact form together, keeping the bit of the sign free for the sign. */
  method Pack(size: nat, word: nat, negative: bool) returns (c: Limb)
    requires size <= 32 && word < 0x100_0000
    ensures c == Packed(size, word, negative)
  {
    Pow2Small();
    TestHighest(word, 23);
    var n, w := size, word;
    if TestBit(w, 23) {
      w := w / 256;
      n := n + 1;
    }
    assert w < 0x80_0000;
    OrIsSum(w, n * 0x100_0000, 24);
    var r := Or(w, n * 0x100_0000);
    if negative && w != 0 {
      SignFree(w, n);
      OrFree(r, 23);
      r := Or(r, 0x80_0000);
    }
    c := r;
  }

  // ---- proof of work ----

  /** The number of hashes that a target takes on average, which is none for a target that is no good. */
  function BlockProof(c: Limb): nat {
    var t := CompactValue(c);
    if Sign(c) || t >= Pow(WIDTH) || t == 0 then 0 else DivBound(Pow(WIDTH), t + 1); Pow(WIDTH) / (t + 1)
  }

  /** How to divide a power that does not fit. */
  lemma ProofFits(t: nat, m: nat)
    requires 1 <= t && t + 1 < m
    ensures (m - 1 - t) / (t + 1) + 1 == m / (t + 1) < m
  {
    var d := t + 1;
    DivMod(m, d);
    Dist(m / d, -1, d);
    if m / d <= 0 { MulMono(m / d, 0, d); }
    DivModUnique(m - d, d, m / d - 1, m % d);
    MulMono(2, d, m / d);
  }

  lemma NoWrap(v: nat, m: nat)
    requires v < m
    ensures v % m == v
  {
    DivModUnique(v, m, 0, v);
  }

  method ProofOf(target: Uint256) returns (r: Uint256)
    requires target.Valid() && 1 <= target.Value() && target.Value() + 1 < Pow(WIDTH)
    ensures r.Valid() && r.Value() == Pow(WIDTH) / (target.Value() + 1)
  {
    hide Pow;
    ghost var t, m := target.Value(), Pow(WIDTH);
    ProofFits(t, m);
    NoWrap(t + 1, m);
    NoWrap(m / (t + 1), m);
    var one := new Uint256(1);
    var divisor := new Uint256.Copy(target);
    divisor.Add(one);
    r := target.Complement();
    var ok := r.Div(divisor);
    r.Add(one);
  }

  method GetBlockProof(bits: Limb) returns (r: Uint256)
    ensures r.Valid() && r.Value() == BlockProof(bits)
  {
    var target := new Uint256(0);
    var negative, overflow := target.SetCompact(bits);
    if !overflow { NoWrap(CompactValue(bits), Pow(WIDTH)); }
    var zero := target.EqualTo(0);
    if negative || overflow || zero {
      r := new Uint256(0);
      return;
    }
    TargetFits(bits);
    r := ProofOf(target);
  }

  /** The highest bit of a limb. */
  method TopOf(x: Limb) returns (n: nat)
    requires x != 0
    ensures n < 32 && Pow2(n) <= x < Pow2(n + 1)
  {
    Pow2Base();
    n := 31;
    while n > 0
      invariant 0 <= n <= 31 && x < Pow2(n + 1)
    {
      TestHighest(x, n);
      if TestBit(x, n) {
        return;
      }
      n := n - 1;
    }
  }

  // ---- division ----

  /** Quotient q and remainder r so far, with the bits from bit n on decided. */
  ghost predicate Dividing(num: nat, d: nat, q: nat, r: nat, n: nat) {
    num == q * d + r && r < d * Pow2(n)
  }

  lemma DivStart(num: nat, d: nat, numBits: nat, divBits: nat)
    requires 0 < divBits <= numBits <= 32 * WIDTH && num < Pow2(numBits) && Pow2(divBits - 1) <= d < Pow2(divBits)
    ensures d * Pow2(numBits - divBits) % Pow(WIDTH) == d * Pow2(numBits - divBits)
    ensures Dividing(num, d, 0, num, numBits - divBits + 1)
  {
    var s := numBits - divBits;
    Pow2Add(divBits, s);
    Pow2Add(divBits - 1, s + 1);
    MulMono(Pow2(divBits - 1), d, Pow2(s + 1));
    Pow2Mono(numBits, 32 * WIDTH);
    PowIsPow2(WIDTH);
    Smaller(d, Pow2(divBits), Pow2(s), Pow(WIDTH));
  }

  lemma Smaller(d: nat, p: nat, q: nat, m: nat)
    requires d < p && p * q <= m && q > 0
    ensures d * q % m == d * q
  {
    MulMono(d + 1, p, q);
    Dist(d, 1, q);
    MulMono(0, d, q);
    DivModUnique(d * q, m, 0, d * q);
  }

  lemma DivNext(num: nat, d: nat, q: nat, r: nat, n: nat)
    requires Dividing(num, d, q, r, n + 1)
    ensures var t := d * Pow2(n);
            && (if r >= t then Dividing(num, d, q + Pow2(n), r - t, n) else Dividing(num, d, q, r, n))
            && (n > 0 ==> t / 2 == d * Pow2(n - 1))
  {
    var t := d * Pow2(n);
    Assoc(d, 2, Pow2(n));
    assert d * Pow2(n + 1) == t + t;
    Dist(q, Pow2(n), d);
    if n > 0 {
      assert t == 2 * (d * Pow2(n - 1));
    }
  }

  lemma AllLow(s: seq<Limb>, n: nat)
    requires n <= 32 * |s| && forall i | 0 <= i < |s| :: s[i] == 0
    ensures LowZero(s, n)
  {
    if n % 32 != 0 {
      DivModUnique(0, Pow2(n % 32), 0, 0);
    }
  }

  lemma LowerZero(s: seq<Limb>, n: nat)
    requires n < 32 * |s| && LowZero(s, n + 1)
    ensures LowZero(s, n)
  {
    LimbLow(s, n);
    var x, p := s[n / 32], Pow2(n % 32);
    DivMod(x, 2 * p);
    Assoc(x / (2 * p), 2, p);
    DivModUnique(x, p, x / (2 * p) * 2, 0);
  }

  lemma LowValue(s: seq<Limb>)
    requires |s| == WIDTH
    ensures Val(s) % Pow(2) == s[0] + s[1] * BASE && (s[1] * BASE) % Pow2(32) == 0 && Pow2(32) == BASE
  {
    ValSplit(s, 2);
    ValTake(s, 1);
    ValTake(s, 0);
    assert s[..0] == [];
    ValBound(s[..2]);
    DivModUnique(Val(s), Pow(2), Val(s[2..]), Val(s[..2]));
    Pow2Base();
    DivModUnique(s[1] * BASE, BASE, s[1], 0);
  }

  /** A number with a limb above the second one does not fit into 64 bits. */
  lemma NotSmall(s: seq<Limb>, i: nat)
    requires |s| == WIDTH && 2 <= i < WIDTH && s[i] != 0 && forall k | i < k < WIDTH :: s[k] == 0
    ensures Val(s) >= 0x1_0000_0000_0000_0000
  {
    ValSplit(s, i + 1);
    ValTake(s, i);
    MulMono(1, s[i], Pow(i));
    PowAdd(i - 2, 2);
    MulMono(1, Pow(i - 2), Pow(2));
    assert Pow(2) == BASE * BASE;
  }

  function Past(i: nat, k: nat): nat { if i < k then 0 else i - k }

  ghost predicate Ahead(pn: array<Limb>, x: seq<Limb>, i: nat)
    reads pn
  {
    |x| == pn.Length && forall k | i <= k < pn.Length :: pn[k] == x[k]
  }

  lemma RowStart(a: seq<Limb>, x: int, b: seq<Limb>, j: nat)
    requires j <= |a|
    ensures Row(a[..j], 0, a, x, b, j)
  {
    assert b[..0] == [];
  }

  lemma SmallValue(s: seq<Limb>)
    requires |s| == WIDTH && forall i | 2 <= i < WIDTH :: s[i] == 0
    ensures Val(s) == s[0] + s[1] * BASE
  {
    ValSplit(s, 2);
    ValZero(s[2..]);
    ValTake(s, 1);
    ValTake(s, 0);
    assert s[..0] == [];
  }
}
