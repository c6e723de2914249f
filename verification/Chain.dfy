/** The tree of blocks with its skip pointers, and the active chain as a vector that is updated in
    place. Everything fast is proved equal to walking back one block at a time. */
module Chain {
  import opened Numbers
  import opened SkipHeights

  // ---- blocks ----

  class BlockIndex {
    const hash: nat
    const pprev: BlockIndex?
    const nHeight: int
    const timeMax: int
    var pskip: BlockIndex?

    constructor (hash: nat, pprev: BlockIndex?, time: int)
      ensures this.hash == hash && this.pprev == pprev && pskip == null
      ensures nHeight == if pprev == null then 0 else pprev.nHeight + 1
      ensures timeMax == if pprev == null || pprev.timeMax < time then time else pprev.timeMax
    {
      this.hash, this.pprev, pskip := hash, pprev, null;
      nHeight := if pprev == null then 0 else pprev.nHeight + 1;
      timeMax := if pprev == null || pprev.timeMax < time then time else pprev.timeMax;
    }

    /** The ancestor at a height, found by way of the skip pointers. Where all of them are set, the
        walk takes no more than twice the square of the number of bits of the height. */
    method GetAncestor(height: int) returns (r: BlockIndex?, ghost steps: nat)
      requires Linked(this) && SkipsOk(this)
      ensures r == Ancestor(this, height)
      ensures SkipsSet(this) ==> steps <= 2 * Bits(nHeight) * Bits(nHeight)
    {
      hide GetSkipHeight; hide Bits; hide Steps; hide SkipsOk; hide SkipsSet; hide Path;
      steps := 0;
      if height > nHeight || height < 0 {
        return null, steps;
      }
      StepsAreFew(nHeight, height);
      var walk: BlockIndex, heightWalk := this, nHeight;
      while heightWalk > height
        invariant Linked(walk) && heightWalk == walk.nHeight >= height && SkipsOk(walk)
        invariant Ancestor(walk, height) == Ancestor(this, height)
        invariant SkipsSet(this) ==> SkipsSet(walk) && steps + Steps(heightWalk, height) == Steps(nHeight, height)
        decreases heightWalk
      {
        var heightSkip := GetSkipHeight(heightWalk);
        var heightSkipPrev := GetSkipHeight(heightWalk - 1);
        SkipsBelow(walk, heightWalk - 1);
        if SkipsSet(walk) { SetBelow(walk, heightWalk - 1); }
        StepsNext(heightWalk, height);
        steps := steps + 1;
        if walk.pskip != null
           && (heightSkip == height
               || (heightSkip > height && !(heightSkipPrev < heightSkip - 2 && heightSkipPrev >= height)))
        {
          SkipGoesBack(heightWalk);
          SkipsBelow(walk, heightSkip);
          if SkipsSet(walk) { SetBelow(walk, heightSkip); }
          AncestorOfAncestor(walk, heightSkip, height);
          walk, heightWalk := walk.pskip, heightSkip;
        } else {
          AncestorOfAncestor(walk, heightWalk - 1, height);
          walk, heightWalk := walk.pprev, heightWalk - 1;
        }
      }
      r := walk;
    }

    method BuildSkip()
      requires Linked(this) && (pprev != null ==> SkipsOk(pprev))
      modifies this`pskip
      ensures pskip == if pprev == null then old(pskip) else Ancestor(this, GetSkipHeight(nHeight))
      ensures SkipSet(this)
    {
      if pprev != null {
        SkipGoesBack(nHeight);
        Below(this, GetSkipHeight(nHeight));
        var ancestor, _ := pprev.GetAncestor(GetSkipHeight(nHeight));
        pskip := ancestor;
      }
    }
  }

  /** Heights count from the root. */
  ghost predicate Linked(b: BlockIndex)
    decreases if b.nHeight > 0 then b.nHeight else 0
  {
    if b.pprev == null then b.nHeight == 0
    else b.nHeight > 0 && b.pprev.nHeight == b.nHeight - 1 && b.pprev.timeMax <= b.timeMax && Linked(b.pprev)
  }

  /** The block n steps back. */
  function Back(b: BlockIndex, n: nat): BlockIndex?
    decreases n
  {
    if n == 0 then b else if b.pprev == null then null else Back(b.pprev, n - 1)
  }

  /** The ancestor at a height, by walking back. */
  function Ancestor(b: BlockIndex, height: int): BlockIndex? {
    if 0 <= height <= b.nHeight then Back(b, b.nHeight - height) else null
  }

  /** All blocks from the root to b. */
  ghost function Path(b: BlockIndex): seq<BlockIndex>
    requires Linked(b)
    ensures |Path(b)| == b.nHeight + 1 && Path(b)[b.nHeight] == b
    decreases b.nHeight
  {
    if b.pprev == null then [b] else Path(b.pprev) + [b]
  }

  ghost predicate SkipOk(b: BlockIndex)
    reads b
  {
    b.pskip != null ==> b.nHeight >= 1 && b.pskip == Ancestor(b, GetSkipHeight(b.nHeight))
  }

  /** The skip pointers on the way from b to the root, where they are set, are right. */
  ghost predicate SkipsOk(b: BlockIndex)
    requires Linked(b)
    reads Path(b)
  {
    forall x | x in Path(b) :: SkipOk(x)
  }

  lemma SkipsBelow(b: BlockIndex, height: int)
    requires Linked(b) && 0 <= height <= b.nHeight && SkipsOk(b)
    ensures var a := Ancestor(b, height); a != null && a.nHeight == height && Linked(a) && SkipsOk(a)
    ensures SkipOk(b)
  {
    Below(b, height);
    assert b in Path(b);
  }

  /** All skip pointers on the way from b to the root are set. */
  ghost predicate SkipsSet(b: BlockIndex)
    requires Linked(b)
    reads Path(b)
  {
    forall x | x in Path(b) :: SkipSet(x)
  }

  ghost predicate SkipSet(b: BlockIndex)
    reads b
  {
    b.pprev != null ==> b.pskip != null
  }

  lemma SetBelow(b: BlockIndex, height: int)
    requires Linked(b) && 0 <= height <= b.nHeight && SkipsSet(b)
    ensures var a := Ancestor(b, height); a != null && Linked(a) && SkipsSet(a) && SkipSet(b)
  {
    Below(b, height);
    assert b in Path(b);
  }

  lemma {:induction false} PathExists(b: BlockIndex)
    requires Linked(b)
    ensures forall x | x in Path(b) :: allocated(x)
    decreases b.nHeight
  {
    if b.pprev != null {
      PathExists(b.pprev);
    }
  }

  /** What there is at a height below b. */
  lemma {:induction false} Below(b: BlockIndex, height: int)
    requires Linked(b) && 0 <= height <= b.nHeight
    ensures var a := Ancestor(b, height);
            a != null && Linked(a) && a.nHeight == height && a == Path(b)[height] && Path(a) == Path(b)[..height + 1]
    decreases b.nHeight
  {
    if height < b.nHeight {
      Below(b.pprev, height);
    }
  }

  lemma {:induction false} AncestorOfAncestor(b: BlockIndex, middle: int, height: int)
    requires Linked(b) && 0 <= height <= middle <= b.nHeight
    ensures var a := Ancestor(b, middle); a != null && a.nHeight == middle && Ancestor(a, height) == Ancestor(b, height)
    decreases b.nHeight
  {
    if middle < b.nHeight {
      AncestorOfAncestor(b.pprev, middle, height);
    }
  }

  /** A block is on the path to b exactly if it is b's ancestor at its own height. */
  lemma OnPath(b: BlockIndex, x: BlockIndex)
    requires Linked(b)
    ensures x in Path(b) <==> x == Ancestor(b, x.nHeight)
  {
    if x in Path(b) {
      var i :| 0 <= i < |Path(b)| && Path(b)[i] == x;
      Below(b, i);
    }
    if x == Ancestor(b, x.nHeight) {
      Below(b, x.nHeight);
    }
  }

  // ---- the tree ----

  /** The index of all known blocks. */
  class BlockTree {
    var blocks: set<BlockIndex>

    ghost predicate Valid()
      reads this, blocks
    {
      && (forall b | b in blocks :: Linked(b) && SkipOk(b) && SkipSet(b))
      && (forall b | b in blocks && b.pprev != null :: b.pprev in blocks)
    }

    constructor ()
      ensures Valid() && blocks == {}
    {
      blocks := {};
    }

    /** Every path stays within the tree, so that all skip pointers on it are set and right. */
    lemma {:induction false} PathInside(b: BlockIndex)
      requires Valid() && b in blocks
      ensures SkipsOk(b) && SkipsSet(b)
      decreases b.nHeight
    {
      if b.pprev != null {
        PathInside(b.pprev);
      }
    }

    /** Enters a block below a known one, or as a root. */
    method Add(hash: nat, pprev: BlockIndex?, time: int) returns (b: BlockIndex)
      requires Valid() && (pprev != null ==> pprev in blocks)
      modifies this
      ensures Valid() && blocks == old(blocks) + {b} && fresh(b)
      ensures b.hash == hash && b.pprev == pprev
    {
      hide GetSkipHeight; hide Ancestor;
      b := new BlockIndex(hash, pprev, time);
      if pprev != null {
        PathInside(pprev);
        b.BuildSkip();
      }
      blocks := blocks + {b};
    }
  }

  // ---- the active chain ----

  /** The highest block on two paths, or none. */
  ghost predicate HighestCommon(r: BlockIndex?, p: seq<BlockIndex>, q: seq<BlockIndex>) {
    && (r != null ==> r in p && r in q)
    && (forall x | x in p && x in q :: r != null && x.nHeight <= r.nHeight)
  }

  class ActiveChain {
    var vChain: seq<BlockIndex?>

    /** The chain is empty or the path to its tip. */
    ghost predicate Valid()
      reads this
    {
      IsPath(vChain)
    }

    constructor ()
      ensures Valid() && vChain == []
    {
      vChain := [];
    }

    function At(height: int): BlockIndex?
      reads this
    {
      if height < 0 || height >= |vChain| then null else vChain[height]
    }

    predicate Contains(b: BlockIndex)
      reads this
    {
      At(b.nHeight) == b
    }

    /** Makes a block the tip. Writing stops at the first block that is already in its place. */
    method SetTip(block: BlockIndex)
      requires Valid() && Linked(block)
      modifies this
      ensures Valid() && vChain == Path(block)
    {
      ghost var path := Path(block);
      vChain := if block.nHeight + 1 <= |vChain| then vChain[..block.nHeight + 1]
                else vChain + seq(block.nHeight + 1 - |vChain|, _ => null);
      ghost var start := vChain;
      WayStart(path, start, block);
      hide OnTheWay; hide Path; hide IsPath;
      var b: BlockIndex? := block;
      while b != null && vChain[b.nHeight] != b
        invariant |vChain| == |path| && (b != null ==> Linked(b) && b.nHeight < |path|)
        invariant OnTheWay(path, start, vChain, b)
        decreases if b == null then -1 else b.nHeight
      {
        StepDown(path, start, vChain, b);
        vChain := vChain[b.nHeight := b];
        b := b.pprev;
      }
      if b != null {
        StillThere(path, start, vChain, b);
        RestIsRight(path, start, vChain, b, old(vChain));
      } else {
        WayEnd(path, start, vChain);
      }
      PathIsPath(block);
    }

    /** The last block that a block's path has in common with the chain. */
    method FindFork(block: BlockIndex?) returns (r: BlockIndex?)
      requires Valid() && (block != null ==> Linked(block) && SkipsOk(block))
      ensures block == null ==> r == null
      ensures block != null ==> HighestCommon(r, Path(block), PathOf(vChain))
    {
      if block == null {
        return null;
      }
      r := block;
      if block.nHeight > |vChain| - 1 {
        var ancestor, _ := block.GetAncestor(|vChain| - 1);
        r := ancestor;
        if |vChain| > 0 { Below(block, |vChain| - 1); }
      }
      if |vChain| > 0 { PathHeights(vChain[|vChain| - 1]); }
      NarrowTo(block, |vChain| - 1, PathOf(vChain));
      while r != null && !Contains(r)
        invariant Narrowed(r, block, PathOf(vChain)) && (r != null ==> r.nHeight < |vChain|)
        decreases if r == null then -1 else r.nHeight
      {
        if r in PathOf(vChain) { OnPath(vChain[|vChain| - 1], r); Below(vChain[|vChain| - 1], r.nHeight); }
        DropTop(r, block, PathOf(vChain));
        r := r.pprev;
      }
      if r != null {
        PathHeights(r);
      }
    }

    /** The first block that is late enough and high enough. */
    method FindEarliestAtLeast(time: int, height: int) returns (r: BlockIndex?)
      requires Valid()
      ensures r != null ==> Contains(r) && r.timeMax >= time && r.nHeight >= height
      ensures forall b | b != null && b in vChain && b.timeMax >= time && b.nHeight >= height ::
                r != null && r.nHeight <= b.nHeight
    {
      var low, high := 0, |vChain|;
      forall i | 0 <= i < |vChain| ensures vChain[i] != null && vChain[i].nHeight == i {
        Below(vChain[|vChain| - 1], i);
      }
      while low < high
        invariant 0 <= low <= high <= |vChain|
        invariant forall i | 0 <= i < low :: vChain[i].timeMax < time || i < height
        invariant forall i | high <= i < |vChain| :: vChain[i].timeMax >= time && i >= height
      {
        var mid := (low + high) / 2;
        if vChain[mid].timeMax < time || vChain[mid].nHeight < height {
          forall i | 0 <= i <= mid ensures vChain[i].timeMax <= vChain[mid].timeMax {
            TimesGrow(vChain[|vChain| - 1], i, mid);
          }
          low := mid + 1;
        } else {
          forall i | mid <= i < |vChain| ensures vChain[i].timeMax >= vChain[mid].timeMax {
            TimesGrow(vChain[|vChain| - 1], mid, i);
          }
          high := mid;
        }
      }
      r := if low == |vChain| then null else vChain[low];
    }
  }

  ghost predicate IsPath(chain: seq<BlockIndex?>) {
    chain != [] ==> var tip := chain[|chain| - 1]; tip != null && Linked(tip) && chain == Path(tip)
  }

  ghost function PathOf(chain: seq<BlockIndex?>): seq<BlockIndex>
    requires IsPath(chain)
  {
    if chain == [] then [] else Path(chain[|chain| - 1])
  }

  lemma {:induction false} TimesGrow(b: BlockIndex, i: int, j: int)
    requires Linked(b) && 0 <= i <= j <= b.nHeight
    ensures Path(b)[i].timeMax <= Path(b)[j].timeMax
    decreases b.nHeight
  {
    if i < b.nHeight {
      TimesGrow(b.pprev, i, if j < b.nHeight then j else j - 1);
    }
  }

  // ---- common ancestors ----

  /** What b's path and q have in common is on the path to r, which is on b's path. */
  ghost predicate Narrowed(r: BlockIndex?, b: BlockIndex, q: seq<BlockIndex>) {
    && Linked(b) && (r != null ==> Linked(r) && r in Path(b))
    && (forall x | x in Path(b) && x in q :: r != null && x in Path(r))
  }

  lemma PathHeights(b: BlockIndex)
    requires Linked(b)
    ensures forall x | x in Path(b) :: 0 <= x.nHeight <= b.nHeight
  {
    forall x | x in Path(b) ensures 0 <= x.nHeight <= b.nHeight { OnPath(b, x); }
  }

  /** Nothing above the height of q can be in common. */
  lemma NarrowTo(b: BlockIndex, height: int, q: seq<BlockIndex>)
    requires Linked(b) && forall x | x in q :: 0 <= x.nHeight <= height
    ensures Narrowed(if height < b.nHeight then Ancestor(b, height) else b, b, q)
  {
    if 0 <= height < b.nHeight {
      Below(b, height);
      forall x | x in Path(b) && x in q
        ensures x in Path(b)[..height + 1]
      {
        OnPath(b, x);
        Below(b, x.nHeight);
        assert Path(b)[..height + 1][x.nHeight] == x;
      }
    }
  }

  lemma DropTop(r: BlockIndex, b: BlockIndex, q: seq<BlockIndex>)
    requires Narrowed(r, b, q) && r !in q
    ensures Narrowed(r.pprev, b, q)
  {
    if r.pprev != null {
      OnPath(b, r);
      Below(b, r.nHeight);
      Below(b, r.nHeight - 1);
      assert r.pprev == Path(r)[..r.nHeight][r.nHeight - 1];
    }
  }

  /** The last common ancestor of two blocks; none if they have different roots. */
  method LastCommonAncestor(a: BlockIndex, b: BlockIndex) returns (r: BlockIndex?)
    requires Linked(a) && Linked(b) && SkipsOk(a) && SkipsOk(b)
    ensures HighestCommon(r, Path(a), Path(b))
  {
    var pa: BlockIndex?, pb: BlockIndex? := a, b;
    if a.nHeight > b.nHeight {
      var ancestor, _ := a.GetAncestor(b.nHeight);
      pa := ancestor;
    } else if b.nHeight > a.nHeight {
      var ancestor, _ := b.GetAncestor(a.nHeight);
      pb := ancestor;
    }
    Levelled(a, b);
    while pa != pb && pa != null && pb != null
      invariant Narrowed(pa, a, Path(b)) && Narrowed(pb, b, Path(a))
      invariant pa != null && pb != null ==> pa.nHeight == pb.nHeight
      invariant pa == null <==> pb == null
      decreases if pa == null then -1 else pa.nHeight
    {
      Differ(pa, pb, a, b);
      DropTop(pa, a, Path(b));
      DropTop(pb, b, Path(a));
      pa, pb := pa.pprev, pb.pprev;
    }
    if pa != null {
      PathHeights(pa);
    }
    r := pa;
  }

  lemma Levelled(a: BlockIndex, b: BlockIndex)
    requires Linked(a) && Linked(b)
    ensures var pa, pb := if a.nHeight > b.nHeight then Ancestor(a, b.nHeight) else a,
                          if b.nHeight > a.nHeight then Ancestor(b, a.nHeight) else b;
            Narrowed(pa, a, Path(b)) && Narrowed(pb, b, Path(a)) && pa != null && pb != null && pa.nHeight == pb.nHeight
  {
    PathHeights(a);
    PathHeights(b);
    NarrowTo(a, b.nHeight, Path(b));
    NarrowTo(b, a.nHeight, Path(a));
    if a.nHeight > b.nHeight { Below(a, b.nHeight); }
    if b.nHeight > a.nHeight { Below(b, a.nHeight); }
  }

  /** Two different blocks of the same height are not on each other's path. */
  lemma Differ(pa: BlockIndex, pb: BlockIndex, a: BlockIndex, b: BlockIndex)
    requires Linked(a) && Linked(b) && Narrowed(pa, a, Path(b)) && Narrowed(pb, b, Path(a)) && pa != pb
             && pa.nHeight == pb.nHeight
    ensures pa !in Path(b) && pb !in Path(a)
  {
    if pa in Path(b) { OnPath(pb, pa); }
    if pb in Path(a) { OnPath(pa, pb); }
  }

  // ---- locators ----

  /** The heights that a locator lists: one by one at first, then in steps that double. */
  function LocatorHeights(h: nat, step: nat, n: nat): seq<nat>
    requires step > 0
    decreases h
  {
    [h] + if h == 0 then []
          else LocatorHeights(if h < step then 0 else h - step, if n + 1 > 10 then 2 * step else step, n + 1)
  }

  lemma LocatorNext(hs: seq<nat>, n: nat, h: nat, step: nat)
    requires step > 0 && n < |hs| && hs[n..] == LocatorHeights(h, step, n)
    ensures hs[n] == h && (h == 0 ==> |hs| == n + 1)
    ensures h > 0 ==>
              n + 1 < |hs|
              && hs[n + 1..] == LocatorHeights(if h < step then 0 else h - step,
                                               if n + 1 > 10 then 2 * step else step, n + 1)
  {
    assert hs[n] == hs[n..][0];
    assert hs[n + 1..] == hs[n..][1..];
  }

  /** The hashes of the ancestors at the first heights of a list. */
  ghost predicate HashesAt(index: BlockIndex, have: seq<nat>, hs: seq<nat>) {
    && Linked(index) && |have| <= |hs|
    && forall i | 0 <= i < |have| :: hs[i] <= index.nHeight && have[i] == Path(index)[hs[i]].hash
  }

  ghost predicate LocatorSoFar(index: BlockIndex, at: BlockIndex, step: int, have: seq<nat>, hs: seq<nat>) {
    && HashesAt(index, have, hs) && Linked(at) && at.nHeight <= index.nHeight && at == Ancestor(index, at.nHeight)
    && step > 0 && |have| < |hs| && hs[|have|..] == LocatorHeights(at.nHeight, step, |have|)
  }

  lemma OneMoreHash(index: BlockIndex, have: seq<nat>, at: BlockIndex, hs: seq<nat>)
    requires HashesAt(index, have, hs) && |have| < |hs| && 0 <= hs[|have|] <= index.nHeight
             && Path(index)[hs[|have|]] == at
    ensures HashesAt(index, have + [at.hash], hs)
  {
  }

  lemma LocatorGoesOn(index: BlockIndex, at: BlockIndex, step: int, have: seq<nat>, hs: seq<nat>)
    requires LocatorSoFar(index, at, step, have, hs)
    ensures HashesAt(index, have + [at.hash], hs)
    ensures at.nHeight == 0 ==> |have| + 1 == |hs|
    ensures at.nHeight > 0 ==>
              var a := Ancestor(at, if at.nHeight - step > 0 then at.nHeight - step else 0);
              && a != null && a.nHeight < at.nHeight
              && LocatorSoFar(index, a, if |have| + 1 > 10 then 2 * step else step, have + [at.hash], hs)
  {
    Below(index, at.nHeight);
    LocatorNext(hs, |have|, at.nHeight, step);
    OneMoreHash(index, have, at, hs);
    if at.nHeight > 0 {
      var height := if at.nHeight - step > 0 then at.nHeight - step else 0;
      Below(at, height);
      AncestorOfAncestor(index, at.nHeight, height);
    }
  }

  /** The hashes of a block, of ancestors of it at growing distances, and of the root. */
  method LocatorEntries(index: BlockIndex?) returns (have: seq<nat>)
    requires index != null ==> Linked(index) && SkipsOk(index)
    ensures index == null ==> have == []
    ensures index != null ==>
              var hs := LocatorHeights(index.nHeight, 1, 0); |have| == |hs| && HashesAt(index, have, hs)
  {
    var step := 1;
    have := [];
    if index == null {
      return;
    }
    ghost var hs := LocatorHeights(index.nHeight, 1, 0);
    var at: BlockIndex := index;
    while true
      invariant LocatorSoFar(index, at, step, have, hs) && SkipsOk(index)
      decreases at.nHeight
    {
      LocatorGoesOn(index, at, step, have, hs);
      have := have + [at.hash];
      if at.nHeight == 0 {
        break;
      }
      var height := if at.nHeight - step > 0 then at.nHeight - step else 0;
      SkipsBelow(index, at.nHeight);
      PathExists(index);
      var ancestor, _ := at.GetAncestor(height);
      at := ancestor;
      if |have| > 10 {
        step := 2 * step;
      }
    }
  }

  /** A locator starts with the block itself, goes strictly down and ends with the root. */
  lemma {:induction false} LocatorDescends(h: nat, step: nat, n: nat)
    requires step > 0
    ensures var hs := LocatorHeights(h, step, n);
            && |hs| > 0 && hs[0] == h && hs[|hs| - 1] == 0
            && forall i, j | 0 <= i < j < |hs| :: hs[i] > hs[j]
    decreases h
  {
    if h > 0 {
      var next, step' := if h < step then 0 else h - step, if n + 1 > 10 then 2 * step else step;
      LocatorDescends(next, step', n + 1);
      var hs, rest := LocatorHeights(h, step, n), LocatorHeights(next, step', n + 1);
      assert hs == [h] + rest;
      forall j | 0 < j < |hs| ensures hs[j] < h { assert hs[j] == rest[j - 1] <= rest[0]; }
    }
  }

  lemma Doubled(step: int, p: int)
    ensures 2 * step * (p - 1) + step == step * (2 * p - 1)
  {
  }

  lemma {:induction false} DoublingSteps(h: nat, step: nat, n: nat)
    requires step > 0 && n >= 10
    ensures var l := |LocatorHeights(h, step, n)|;
            l == 1 || (l >= 2 && h > step * (Pow2(l - 2) - 1))
    decreases h
  {
    if h > 0 {
      var next := if h < step then 0 else h - step;
      DoublingSteps(next, 2 * step, n + 1);
      var l := |LocatorHeights(next, 2 * step, n + 1)|;
      if l >= 2 {
        Doubled(step, Pow2(l - 2));
      }
    }
  }

  lemma {:induction false} SingleSteps(h: nat, n: nat)
    requires n <= 10
    ensures var l := |LocatorHeights(h, 1, n)|; l <= 12 - n || Pow2(l - 12 + n) + 10 - n <= h
    decreases h
  {
    if n == 10 {
      DoublingSteps(h, 1, n);
    } else if h > 0 {
      SingleSteps(h - 1, n + 1);
    }
  }

  /** A locator has at most 12 + log2(height + 1) entries. */
  lemma LocatorIsShort(h: nat)
    ensures var l := |LocatorHeights(h, 1, 0)|; l <= 12 || Pow2(l - 12) <= h + 1
  {
    SingleSteps(h, 0);
  }

  // ---- setting the tip ----

  /** Above b the vector is the path, up to b it is as it was. */
  ghost predicate OnTheWay(path: seq<BlockIndex>, start: seq<BlockIndex?>, chain: seq<BlockIndex?>, b: BlockIndex?) {
    && |path| == |start| == |chain|
    && var k := if b == null then 0 else b.nHeight + 1;
       && 0 <= k <= |path| && chain[k..] == path[k..] && chain[..k] == start[..k]
       && (b != null ==> Linked(b) && Path(b) == path[..k])
  }

  lemma WayStart(path: seq<BlockIndex>, start: seq<BlockIndex?>, b: BlockIndex)
    requires Linked(b) && path == Path(b) && |start| == |path|
    ensures OnTheWay(path, start, start, b)
  {
    assert path[..b.nHeight + 1] == path;
  }

  lemma WayEnd(path: seq<BlockIndex>, start: seq<BlockIndex?>, chain: seq<BlockIndex?>)
    requires OnTheWay(path, start, chain, null)
    ensures chain == path
  {
    assert chain[0..] == chain && path[0..] == path;
  }

  /** What is in place before anything has been written there was there from the start. */
  lemma StillThere(path: seq<BlockIndex>, start: seq<BlockIndex?>, chain: seq<BlockIndex?>, b: BlockIndex)
    requires OnTheWay(path, start, chain, b) && Linked(b) && b.nHeight < |chain| && chain[b.nHeight] == b
    ensures start[b.nHeight] == b
  {
    assert start[..b.nHeight + 1][b.nHeight] == chain[..b.nHeight + 1][b.nHeight];
  }

  lemma PathIsPath(b: BlockIndex)
    requires Linked(b)
    ensures IsPath(Path(b))
  {
  }

  lemma StepDown(path: seq<BlockIndex>, start: seq<BlockIndex?>, chain: seq<BlockIndex?>, b: BlockIndex)
    requires OnTheWay(path, start, chain, b)
    ensures OnTheWay(path, start, chain[b.nHeight := b], b.pprev)
  {
    assert path[b.nHeight] == path[..b.nHeight + 1][b.nHeight] == b;
    assert path[..b.nHeight] == path[..b.nHeight + 1][..b.nHeight];
  }

  /** A block that is in its place has its whole path below it in place. */
  lemma RestIsRight(path: seq<BlockIndex>, start: seq<BlockIndex?>, chain: seq<BlockIndex?>, b: BlockIndex,
                    before: seq<BlockIndex?>)
    requires OnTheWay(path, start, chain, b) && b.nHeight < |before| && before[b.nHeight] == b
    requires start[..b.nHeight + 1] == before[..b.nHeight + 1]
    requires IsPath(before)
    ensures chain == path
  {
    Below(before[|before| - 1], b.nHeight);
    assert chain == chain[..b.nHeight + 1] + chain[b.nHeight + 1..];
    assert path == path[..b.nHeight + 1] + path[b.nHeight + 1..];
  }
}
