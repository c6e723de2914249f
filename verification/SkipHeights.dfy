/** The heights that skip pointers lead to, and how many of them a walk to an ancestor takes: at most
    twice the square of the number of bits of the height it starts from. */
module SkipHeights {
  import opened Numbers

  // ---- heights to skip to ----

  /** Bitwise and of two natural numbers. */
  function And(a: nat, b: nat): nat {
    if a == 0 || b == 0 then 0 else 2 * And(a / 2, b / 2) + if a % 2 == 1 && b % 2 == 1 then 1 else 0
  }

  function InvertLowestOne(n: nat): nat { if n == 0 then 0 else And(n, n - 1) }

  /** The largest power of two that divides n. */
  function LowestOne(n: nat): (p: nat)
    requires n > 0
    ensures 1 <= p <= n
  {
    if n % 2 == 1 then 1 else 2 * LowestOne(n / 2)
  }

  lemma {:induction false} AndSelf(n: nat)
    ensures And(n, n) == n
  {
    if n > 0 {
      AndSelf(n / 2);
    }
  }

  /** The lowest bit that is set, and only that one, is cleared. */
  lemma {:induction false} InvertsLowestOne(n: nat)
    requires n > 0
    ensures InvertLowestOne(n) == n - LowestOne(n)
  {
    if n % 2 == 1 {
      AndSelf(n / 2);
      assert (n - 1) / 2 == n / 2;
    } else {
      InvertsLowestOne(n / 2);
      assert (n - 1) / 2 == n / 2 - 1;
    }
  }

  function GetSkipHeight(height: int): int {
    if height < 2 then 0
    else if height % 2 == 1 then InvertLowestOne(InvertLowestOne(height - 1)) + 1
    else InvertLowestOne(height)
  }

  /** Skipping always goes back. */
  lemma SkipGoesBack(h: int)
    requires h >= 1
    ensures 0 <= GetSkipHeight(h) < h
  {
    if h >= 2 {
      if h % 2 == 1 {
        InvertsLowestOne(h - 1);
        if InvertLowestOne(h - 1) > 0 { InvertsLowestOne(InvertLowestOne(h - 1)); }
      } else {
        InvertsLowestOne(h);
      }
    }
  }

  // ---- the walk to an ancestor, by its heights ----

  /** Whether a walk at height w to height a follows the skip pointer. */
  predicate Follows(w: int, a: int) {
    var skip, skipPrev := GetSkipHeight(w), GetSkipHeight(w - 1);
    skip == a || (skip > a && !(skipPrev < skip - 2 && skipPrev >= a))
  }

  function NextHeight(w: nat, a: nat): (n: nat)
    requires a < w
    ensures a <= n < w
  {
    SkipGoesBack(w);
    if Follows(w, a) then GetSkipHeight(w) else w - 1
  }

  /** The number of steps of the walk. */
  function Steps(w: nat, a: nat): nat
    decreases w
  {
    if w <= a then 0 else 1 + Steps(NextHeight(w, a), a)
  }

  lemma StepsNext(w: nat, a: nat)
    requires a < w
    ensures GetSkipHeight(w) >= 0
    ensures Steps(w, a) == 1 + Steps(if Follows(w, a) then GetSkipHeight(w) else w - 1, a)
  {
  }

  // ---- bits ----

  function Bits(n: nat): nat { if n == 0 then 0 else 1 + Bits(n / 2) }

  function Ones(n: nat): nat { if n == 0 then 0 else n % 2 + Ones(n / 2) }

  /** How many of the lower bits must be dropped for two numbers to be the same. */
  function Level(x: nat, b: nat): nat
    decreases x + b
  {
    if x == b then 0 else 1 + Level(x / 2, b / 2)
  }

  lemma {:induction false} BitsGrow(y: nat, x: nat)
    requires y <= x
    ensures Bits(y) <= Bits(x)
  {
    if y > 0 { BitsGrow(y / 2, x / 2); }
  }

  lemma {:induction false} FewOnes(n: nat)
    ensures Ones(n) <= Bits(n)
  {
    if n > 0 { FewOnes(n / 2); }
  }

  lemma {:induction false} FewLevels(x: nat, b: nat)
    requires b <= x
    ensures Level(x, b) <= Bits(x)
    decreases x
  {
    if x != b { FewLevels(x / 2, b / 2); }
  }

  /** Coming closer from above never takes the level up. */
  lemma {:induction false} LevelFalls(y: nat, x: nat, b: nat)
    requires b <= y <= x
    ensures Level(y, b) <= Level(x, b)
    decreases x
  {
    if y != b { LevelFalls(y / 2, x / 2, b / 2); }
  }

  lemma ClearDoubled(x: nat)
    requires x > 0
    ensures InvertLowestOne(2 * x) == 2 * InvertLowestOne(x) && InvertLowestOne(2 * x + 1) == 2 * x
    ensures InvertLowestOne(x) < x
  {
    InvertsLowestOne(x);
    InvertsLowestOne(2 * x);
    InvertsLowestOne(2 * x + 1);
    assert 2 * x / 2 == x;
  }

  lemma {:induction false} OneLess(x: nat)
    requires x > 0
    ensures Ones(InvertLowestOne(x)) == Ones(x) - 1 && InvertLowestOne(x) < x
  {
    hide InvertLowestOne;
    var y := x / 2;
    if y == 0 {
      InvertsLowestOne(x);
    } else {
      ClearDoubled(y);
      if x % 2 == 1 {
        assert x == 2 * y + 1;
      } else {
        assert x == 2 * y;
        OneLess(y);
      }
    }
  }

  /** A number that must be passed between x with its lowest bit cleared and x lies a level lower
      seen from x - 1. */
  lemma {:induction false} LevelDrops(x: nat, b: nat)
    requires x > 0 && InvertLowestOne(x) <= b < x
    ensures Level(x - 1, b) < Level(x, b)
    decreases x
  {
    hide InvertLowestOne;
    var y := x / 2;
    if x % 2 == 1 {
      InvertsLowestOne(x);
    } else {
      ClearDoubled(y);
      assert x == 2 * y && (x - 1) / 2 == y - 1;
      LevelDrops(y, b / 2);
    }
  }

  lemma SkipOfDoubled(x: nat)
    requires x > 0
    ensures GetSkipHeight(2 * x) == 2 * InvertLowestOne(x)
    ensures GetSkipHeight(2 * x + 1) == 2 * InvertLowestOne(InvertLowestOne(x)) + 1
  {
    hide InvertLowestOne;
    ClearDoubled(x);
    if InvertLowestOne(x) > 0 {
      ClearDoubled(InvertLowestOne(x));
    } else {
      Nothing();
    }
  }

  lemma Nothing()
    ensures InvertLowestOne(0) == 0
  {
  }

  // ---- the number of steps ----

  /** What bounds the number of steps from w to a, if the half of w has at most n bits. */
  function Bound(w: nat, a: nat, n: nat): nat { Weighted(n, Level(w / 2, a / 2)) + 2 * Ones(w / 2) + w % 2 }

  function Weighted(n: nat, level: nat): nat { (2 * n + 2) * level }

  lemma Raised(n: nat, k: nat, l: nat)
    requires k <= l
    ensures Weighted(n, k) <= Weighted(n, l) && (k < l ==> Weighted(n, k) + 2 * n + 2 <= Weighted(n, l))
  {
    var c := 2 * n + 2;
    MulMono(k, l, c);
    if k < l {
      MulMono(k + 1, l, c);
      Dist(k, 1, c);
    }
  }

  /** The same parity, closer to a, and with so many ones less. */
  lemma Closer(x: nat, y: nat, b: nat, n: nat)
    requires b <= y <= x
    ensures Weighted(n, Level(y, b)) <= Weighted(n, Level(x, b))
  {
    hide Weighted; hide Level;
    LevelFalls(y, x, b);
    Raised(n, Level(y, b), Level(x, b));
  }

  lemma TwoLess(x: nat)
    ensures var y := InvertLowestOne(InvertLowestOne(x));
            y <= x && Ones(y) == if Ones(x) >= 2 then Ones(x) - 2 else 0
    ensures x > 0 ==> Ones(x) > 0
  {
    hide InvertLowestOne;
    Nothing();
    if x > 0 {
      OneLess(x);
      if InvertLowestOne(x) > 0 { OneLess(InvertLowestOne(x)); }
    }
  }

  lemma OddStep(x: nat, a: nat, n: nat)
    requires x > 0 && a < 2 * x + 1
    ensures Bound(NextHeight(2 * x + 1, a), a, n) < Bound(2 * x + 1, a, n)
  {
    hide Weighted; hide Level; hide Ones;
    hide InvertLowestOne; hide GetSkipHeight;
    SkipOfDoubled(x);
    TwoLess(x);
    OneLess(x);
    var y := InvertLowestOne(InvertLowestOne(x));
    if Follows(2 * x + 1, a) {
      assert (2 * y + 1) / 2 == y && a / 2 <= y;
      Closer(x, y, a / 2, n);
    } else {
      assert 2 * x / 2 == (2 * x + 1) / 2;
    }
  }

  lemma EvenSkip(x: nat, a: nat, n: nat)
    requires x > 0 && a < 2 * x && Follows(2 * x, a)
    ensures Bound(NextHeight(2 * x, a), a, n) < Bound(2 * x, a, n)
  {
    hide Weighted; hide Level; hide Ones;
    hide InvertLowestOne; hide GetSkipHeight;
    SkipOfDoubled(x);
    OneLess(x);
    var y := InvertLowestOne(x);
    assert 2 * y / 2 == y && a / 2 <= y;
    Closer(x, y, a / 2, n);
  }

  /** When the skip pointer leads too far, the next step goes down a level. */
  lemma EvenBack(x: nat, a: nat, n: nat)
    requires x > 0 && a < 2 * x && GetSkipHeight(2 * x) < a && Bits(x) <= n
    ensures Bound(NextHeight(2 * x, a), a, n) < Bound(2 * x, a, n)
  {
    hide Weighted; hide Level; hide Ones;
    hide InvertLowestOne; hide GetSkipHeight;
    SkipOfDoubled(x);
    var b := a / 2;
    assert (2 * x - 1) / 2 == x - 1 && 2 * x / 2 == x;
    LevelDrops(x, b);
    Raised(n, Level(x - 1, b), Level(x, b));
    FewOnes(x - 1);
    BitsGrow(x - 1, x);
  }

  /** Where the walk prefers the skip pointer of the block before, that one saves more. */
  lemma EvenDetour(x: nat, a: nat)
    requires x > 0 && a < 2 * x && GetSkipHeight(2 * x) > a && !Follows(2 * x, a)
    ensures x > 1 && var y := InvertLowestOne(InvertLowestOne(x - 1));
            GetSkipHeight(2 * x - 1) == 2 * y + 1 >= a && y <= x && Ones(y) <= Ones(x) - 2
  {
    hide InvertLowestOne; hide GetSkipHeight;
    SkipOfDoubled(x);
    OneLess(x);
    SkipOfOne();
    SkipOfDoubled(x - 1);
    TwoLess(x - 1);
    TwoLess(InvertLowestOne(x));
    OnesBefore(x);
  }

  lemma SkipOfOne()
    ensures GetSkipHeight(1) == 0 && GetSkipHeight(2) == 0
  {
    InvertsLowestOne(2);
  }

  /** The number before has no more ones, but for multiples of four, of which it skips less. */
  lemma OnesBefore(x: nat)
    requires x > 1
    ensures x % 4 != 0 ==> Ones(x - 1) <= Ones(x)
    ensures x % 2 == 1 ==> Ones(x - 1) == Ones(x) - 1
    ensures x % 4 == 0 ==> InvertLowestOne(InvertLowestOne(x - 1)) >= InvertLowestOne(x)
  {
    hide InvertLowestOne; hide Ones;
    var z := x / 4;
    OnesOf(z);
    OnesOf(2 * z);
    OnesOf(2 * z + 1);
    OnesOf(x / 2);
    if x % 4 == 0 {
      FourBefore(z);
      assert x == 4 * z;
    } else if x % 2 == 1 {
      assert x == 2 * (x / 2) + 1;
    } else {
      assert x == 2 * (2 * z + 1) && x - 1 == 2 * (2 * z) + 1;
    }
  }

  lemma OnesOf(z: nat)
    ensures Ones(2 * z) == Ones(z) && Ones(2 * z + 1) == Ones(z) + 1
  {
  }

  lemma FourBefore(z: nat)
    requires z > 0
    ensures InvertLowestOne(InvertLowestOne(4 * z - 1)) >= InvertLowestOne(4 * z)
  {
    hide InvertLowestOne;
    var u := 2 * (z - 1) + 1;
    ClearDoubled(u);
    ClearDoubled(z);
    ClearDoubled(2 * z);
    InvertsLowestOne(u);
    assert 4 * z - 1 == 2 * u + 1 && 4 * z == 2 * (2 * z) && LowestOne(u) == 1;
  }

  lemma OddFollows(x: nat, a: nat)
    requires x > 0 && GetSkipHeight(2 * x + 1) >= a
    ensures Follows(2 * x + 1, a)
  {
    hide InvertLowestOne; hide GetSkipHeight;
    SkipOfDoubled(x);
    TwoLess(InvertLowestOne(x));
    if InvertLowestOne(x) > 0 { OneLess(InvertLowestOne(x)); } else { Nothing(); }
  }

  /** The detour takes two steps. */
  lemma Detour(x: nat, a: nat, n: nat)
    requires x > 0 && a < 2 * x && GetSkipHeight(2 * x) > a && !Follows(2 * x, a)
    ensures var y := GetSkipHeight(2 * x - 1);
            && a <= y < 2 * x - 1 && NextHeight(2 * x, a) == 2 * x - 1 && NextHeight(2 * x - 1, a) == y
            && Bound(y, a, n) + 2 <= Bound(2 * x, a, n)
  {
    hide Weighted; hide Level; hide Ones;
    hide InvertLowestOne; hide GetSkipHeight;
    EvenDetour(x, a);
    SkipGoesBack(2 * x - 1);
    OddFollows(x - 1, a);
    var y := InvertLowestOne(InvertLowestOne(x - 1));
    assert (2 * y + 1) / 2 == y && a / 2 <= y;
    Closer(x, y, a / 2, n);
  }

  lemma {:induction false} StepsBound(w: nat, a: nat, n: nat)
    requires a <= w && Bits(w / 2) <= n
    ensures Steps(w, a) <= Bound(w, a, n)
    decreases w
  {
    hide GetSkipHeight; hide InvertLowestOne; hide Bound; hide Follows;
    if a < w {
      var x, next := w / 2, NextHeight(w, a);
      if w % 2 == 0 && !Follows(w, a) && GetSkipHeight(w) > a {
        Detour(x, a, n);
        var y := GetSkipHeight(w - 1);
        BitsGrow(y / 2, x);
        StepsBound(y, a, n);
      } else {
        BitsGrow(next / 2, x);
        StepsBound(next, a, n);
        StepLowers(w, a, n);
      }
    }
  }

  lemma StepLowers(w: nat, a: nat, n: nat)
    requires a < w && Bits(w / 2) <= n && (w % 2 == 1 || Follows(w, a) || GetSkipHeight(w) <= a)
    ensures Bound(NextHeight(w, a), a, n) < Bound(w, a, n)
  {
    hide Level; hide Ones; hide GetSkipHeight; hide InvertLowestOne; hide Bound; hide Follows; hide NextHeight;
    hide Bits;
    var x := w / 2;
    assert w == if w % 2 == 1 then 2 * x + 1 else 2 * x;
    if w == 1 {
      LastStep(n);
    } else if w % 2 == 1 {
      OddStep(x, a, n);
    } else if Follows(w, a) {
      EvenSkip(x, a, n);
    } else {
      SkipsThere(w, a);
      EvenBack(x, a, n);
    }
  }

  lemma SkipsThere(w: nat, a: nat)
    ensures GetSkipHeight(w) == a ==> Follows(w, a)
  {
  }

  lemma LastStep(n: nat)
    ensures Bound(0, 0, n) < Bound(1, 0, n)
  {
  }

  /** A walk from any height to any height below takes at most twice the square of the number of bits
      of the height it starts from. */
  lemma StepsAreFew(w: nat, a: nat)
    requires a <= w
    ensures Steps(w, a) <= 2 * Bits(w) * Bits(w)
  {
    hide Steps; hide Bound;
    if w > 0 {
      var n := Bits(w / 2);
      StepsBound(w, a, n);
      BoundIsSmall(w, a, n);
      Squared(n);
    } else {
      NoSteps();
    }
  }

  lemma NoSteps()
    ensures Steps(0, 0) == 0
  {
  }

  lemma BoundIsSmall(w: nat, a: nat, n: nat)
    requires a <= w && n == Bits(w / 2)
    ensures Bound(w, a, n) <= (2 * n + 2) * n + 2 * n + 1
  {
    hide Level; hide Bits; hide Ones;
    FewOnes(w / 2);
    FewLevels(w / 2, a / 2);
    Raised(n, Level(w / 2, a / 2), n);
  }

  lemma Squared(n: nat)
    ensures (2 * n + 2) * n + 2 * n + 1 < 2 * (1 + n) * (1 + n)
  {
  }
}
