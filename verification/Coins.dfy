/** The stack of coins views: a bottom store and caches on it to any depth, updated in place.
    View number 0 is the store; cache number i reads from, and is written back to, view i and
    shows view i + 1. */
module Coins {
  import opened Wrappers
  import opened CoinsSpec

  type Hash = nat
  const NULL_HASH: Hash := 0

  datatype Layer = Layer(cacheCoins: Entries, cachedCoinsUsage: int, hashBlock: Hash)

  /** A sound layer over `base` that shows `shown`. */
  ghost predicate Shows(base: View, l: Layer, shown: View) {
    && shown == Overlay(base, l.cacheCoins)
    && EntriesOk(l.cacheCoins, base)
    && l.cachedCoinsUsage == Usage(l.cacheCoins)
  }

  /** `views` are the views of the stack, the store's first, and every layer is sound. */
  ghost predicate Consistent(coins: map<OutPoint, Coin>, layers: seq<Layer>, views: seq<View>) {
    && |views| == |layers| + 1
    && views[0] == Unspent(coins)
    && forall i | 0 <= i < |layers| :: Shows(views[i], layers[i], views[i + 1])
  }

  class CoinsStack {
    /** The store. It may hold spent coins, which it then reports as found. */
    var coins: map<OutPoint, Coin>
    var bestBlock: Hash
    var layers: seq<Layer>
    ghost var views: seq<View>

    ghost predicate Valid()
      reads this
    {
      Consistent(coins, layers, views)
    }

    constructor (coins: map<OutPoint, Coin>, bestBlock: Hash)
      ensures Valid() && views == [Unspent(coins)] && layers == [] && this.bestBlock == bestBlock
    {
      this.coins, this.bestBlock, layers := coins, bestBlock, [];
      views := [Unspent(coins)];
    }

    /** Everything but the contents of the cache maps: views, hashes and the store. */
    twostate predicate OnlyCaching()
      reads this
    {
      && views == old(views) && coins == old(coins) && bestBlock == old(bestBlock)
      && |layers| == old(|layers|)
      && forall j | 0 <= j < |layers| :: layers[j].hashBlock == old(layers)[j].hashBlock
    }

    /** Looks the outpoint up in cache i, pulling it up from the base when needed. */
    method FetchCoin(i: nat, outpoint: OutPoint) returns (found: bool)
      requires Valid() && i < |layers|
      modifies this
      ensures Valid() && OnlyCaching() && layers[i + 1..] == old(layers)[i + 1..]
      ensures found <==> outpoint in layers[i].cacheCoins
      ensures !found ==> outpoint !in views[i + 1]
      decreases i, 1
    {
      if outpoint in layers[i].cacheCoins {
        return true;
      }
      var coin;
      found, coin := GetCoin(i, outpoint);
      if found {
        CacheFetched(i, outpoint, coin);
      }
    }

    method CacheFetched(i: nat, outpoint: OutPoint, coin: Coin)
      requires Valid() && i < |layers| && outpoint !in layers[i].cacheCoins
      requires if coin.IsSpent() then outpoint !in views[i] else outpoint in views[i] && coin == views[i][outpoint]
      modifies this
      ensures Valid() && OnlyCaching() && layers[i + 1..] == old(layers)[i + 1..]
      ensures outpoint in layers[i].cacheCoins
    {
      ghost var e := Entry(coin, false, coin.IsSpent());
      assert Shows(views[i], layers[i], views[i + 1]);
      FetchSound(views[i], layers[i].cacheCoins, outpoint, e);
      UsageSet(layers[i].cacheCoins, outpoint, e);
      layers := layers[i := layers[i].(
        cacheCoins := layers[i].cacheCoins[outpoint := Entry(coin, false, coin.IsSpent())],
        cachedCoinsUsage := layers[i].cachedCoinsUsage + coin.DynamicMemoryUsage())];
    }

    /** View v answers exactly what it shows; only the store may also report a spent coin. */
    method GetCoin(v: nat, outpoint: OutPoint) returns (found: bool, coin: Coin)
      requires Valid() && v <= |layers|
      modifies this
      ensures Valid() && OnlyCaching() && layers[v..] == old(layers)[v..]
      ensures found && !coin.IsSpent() <==> outpoint in views[v]
      ensures outpoint in views[v] ==> coin == views[v][outpoint]
      ensures v > 0 ==> (found <==> outpoint in views[v])
      decreases v, 0
    {
      coin := EMPTY_COIN;
      if v == 0 {
        found := outpoint in coins;
        if found {
          coin := coins[outpoint];
        }
      } else {
        found := FetchCoin(v - 1, outpoint);
        if found {
          coin := layers[v - 1].cacheCoins[outpoint].coin;
          found := !coin.IsSpent();
          assert Shows(views[v - 1], layers[v - 1], views[v]);
        }
      }
    }

    method HaveCoin(i: nat, outpoint: OutPoint) returns (have: bool)
      requires Valid() && i < |layers|
      modifies this
      ensures Valid() && OnlyCaching() && layers[i + 1..] == old(layers)[i + 1..]
      ensures have <==> outpoint in views[i + 1]
    {
      var found := FetchCoin(i, outpoint);
      assert Shows(views[i], layers[i], views[i + 1]);
      have := found && !layers[i].cacheCoins[outpoint].coin.IsSpent();
    }

    method AccessCoin(i: nat, outpoint: OutPoint) returns (coin: Coin)
      requires Valid() && i < |layers|
      modifies this
      ensures Valid() && OnlyCaching() && layers[i + 1..] == old(layers)[i + 1..]
      ensures if outpoint in views[i + 1] then coin == views[i + 1][outpoint] else coin.IsSpent()
    {
      var found := FetchCoin(i, outpoint);
      assert Shows(views[i], layers[i], views[i + 1]);
      coin := if found then layers[i].cacheCoins[outpoint].coin else EMPTY_COIN;
    }

    /** Adds a coin to the top cache. The stack stays sound, with the coin in the top view, exactly
        when the caller is truthful about overwriting; a false claim either throws or leaves a
        FRESH flag on a coin that the base still shows. */
    method AddCoin(outpoint: OutPoint, coin: Coin, possibleOverwrite: bool) returns (threw: bool)
      requires Valid() && |layers| > 0 && !coin.IsSpent()
      modifies this
      ensures |layers| == old(|layers|) && layers[..|layers| - 1] == old(layers[..|layers| - 1])
      ensures coins == old(coins) && bestBlock == old(bestBlock)
      ensures coin.IsUnspendable() ==> !threw && Valid() && views == old(views)
      ensures !coin.IsUnspendable() && (possibleOverwrite || outpoint !in old(views)[old(|layers|)]) ==>
                !threw && Valid() && views == old(views)[old(|layers|) := old(views)[old(|layers|)][outpoint := coin]]
      ensures !coin.IsUnspendable() && !possibleOverwrite && outpoint in old(views)[old(|layers|)] ==>
                if outpoint in old(layers)[|layers| - 1].cacheCoins then threw
                else !threw && !EntriesOk(layers[|layers| - 1].cacheCoins, old(views)[|layers| - 1])
    {
      if coin.IsUnspendable() {
        return false;
      }
      var i := |layers| - 1;
      assert Shows(views[i], layers[i], views[i + 1]);
      var l := layers[i];
      var entry := if outpoint in l.cacheCoins then l.cacheCoins[outpoint] else Entry(EMPTY_COIN, false, false);
      var usage := l.cachedCoinsUsage;
      if outpoint in l.cacheCoins {
        usage := usage - entry.coin.DynamicMemoryUsage();
      }
      var isFresh := false;
      if !possibleOverwrite {
        if !entry.coin.IsSpent() {
          layers := layers[i := l.(cachedCoinsUsage := usage)];
          return true;
        }
        isFresh := !entry.isDirty;
      }
      entry := Entry(coin, true, entry.isFresh || isFresh);
      usage := usage + coin.DynamicMemoryUsage();
      AddSound(views[i], l.cacheCoins, outpoint, coin, possibleOverwrite);
      UsageSet(l.cacheCoins, outpoint, entry);
      layers := layers[i := l.(cacheCoins := l.cacheCoins[outpoint := entry], cachedCoinsUsage := usage)];
      views := views[i + 1 := views[i + 1][outpoint := coin]];
      threw := false;
    }

    /** Spends a coin in the top cache. When the top view has no such coin nothing visible changes. */
    method SpendCoin(outpoint: OutPoint) returns (spent: bool, moveout: Coin)
      requires Valid() && |layers| > 0
      modifies this
      ensures Valid() && views == old(views)[old(|layers|) := old(views)[old(|layers|)] - {outpoint}]
      ensures outpoint in old(views)[old(|layers|)] ==> spent && moveout == old(views)[old(|layers|)][outpoint]
      ensures outpoint !in old(views)[old(|layers|)] ==> moveout.IsSpent()
    {
      var i := |layers| - 1;
      spent := FetchCoin(i, outpoint);
      assert Shows(views[i], layers[i], views[i + 1]);
      moveout := EMPTY_COIN;
      if !spent {
        assert views[i + 1] - {outpoint} == views[i + 1];
        return;
      }
      var l := layers[i];
      moveout := l.cacheCoins[outpoint].coin;
      var usage := l.cachedCoinsUsage - moveout.DynamicMemoryUsage();
      SpendSound(views[i], l.cacheCoins, outpoint);
      if l.cacheCoins[outpoint].isFresh {
        UsageDrop(l.cacheCoins, outpoint);
        l := l.(cacheCoins := l.cacheCoins - {outpoint}, cachedCoinsUsage := usage);
      } else {
        UsageSet(l.cacheCoins, outpoint, Entry(EMPTY_COIN, true, false));
        l := l.(cacheCoins := l.cacheCoins[outpoint := Entry(EMPTY_COIN, true, false)], cachedCoinsUsage := usage);
      }
      layers := layers[i := l];
      views := views[i + 1 := views[i + 1] - {outpoint}];
    }

    /** Drops an unmodified entry from cache i. */
    method Uncache(i: nat, outpoint: OutPoint)
      requires Valid() && i < |layers|
      modifies this
      ensures Valid() && OnlyCaching() && layers[i + 1..] == old(layers)[i + 1..]
      ensures outpoint in layers[i].cacheCoins ==>
                && layers == old(layers)
                && (layers[i].cacheCoins[outpoint].isDirty || layers[i].cacheCoins[outpoint].isFresh)
    {
      var l := layers[i];
      assert Shows(views[i], l, views[i + 1]);
      if outpoint in l.cacheCoins && !l.cacheCoins[outpoint].isDirty && !l.cacheCoins[outpoint].isFresh {
        UncacheSound(views[i], l.cacheCoins, outpoint);
        UsageDrop(l.cacheCoins, outpoint);
        layers := layers[i := l.(
          cacheCoins := l.cacheCoins - {outpoint},
          cachedCoinsUsage := l.cachedCoinsUsage - l.cacheCoins[outpoint].coin.DynamicMemoryUsage())];
      }
    }

    // ---- write-back ----

    /** Writes a map of entries into the store. */
    method StoreBatchWrite(mapCoins: Entries, hashIn: Hash)
      modifies this`coins, this`bestBlock
      ensures coins == StoreWrite(old(coins), mapCoins) && bestBlock == hashIn
    {
      var todo := mapCoins.Keys;
      while todo != {}
        invariant todo <= mapCoins.Keys
        invariant forall k ::
                    At(coins, k) == (if k in todo then At(old(coins), k) else StoredAt(old(coins), mapCoins, k))
        decreases |todo|
      {
        var k :| k in todo;
        if mapCoins[k].isDirty {
          if mapCoins[k].coin.IsSpent() {
            coins := coins - {k};
          } else {
            coins := coins[k := mapCoins[k].coin];
          }
        }
        todo := todo - {k};
      }
      SameCoins(coins, StoreWrite(old(coins), mapCoins));
      bestBlock := hashIn;
    }

    /** Writes a map of entries into cache i. It throws exactly when some dirty entry claims to be
        FRESH over a coin that the cache holds unspent. */
    method BatchWrite(i: nat, mapCoins: Entries, hashIn: Hash) returns (threw: bool)
      requires i < |layers| && layers[i].cachedCoinsUsage == Usage(layers[i].cacheCoins)
      modifies this`layers
      ensures threw <==> exists k :: k in mapCoins && Misapplied(Lookup(old(layers)[i].cacheCoins, k), mapCoins[k])
      ensures |layers| == old(|layers|) && forall j | 0 <= j < |layers| && j != i :: layers[j] == old(layers)[j]
      ensures !threw ==>
                var merged := Merge(old(layers)[i].cacheCoins, mapCoins);
                layers[i] == Layer(merged, Usage(merged), hashIn)
    {
      hide UsageOf;
      var l, todo := layers[i], mapCoins.Keys;
      ghost var was := l.cacheCoins;
      while todo != {}
        invariant todo <= mapCoins.Keys && layers == old(layers)
        invariant l.cachedCoinsUsage == Usage(l.cacheCoins)
        invariant forall k ::
                    Lookup(l.cacheCoins, k) == (if k in todo then Lookup(was, k) else Merged(was, mapCoins, k))
        invariant forall k :: k in mapCoins && k !in todo ==> !Misapplied(Lookup(was, k), mapCoins[k])
        decreases |todo|
      {
        var k :| k in todo;
        assert Lookup(l.cacheCoins, k) == Lookup(was, k);
        if mapCoins[k].isDirty {
          threw, l := WriteEntry(l, k, mapCoins[k]);
          if threw {
            layers := layers[i := l];
            return;
          }
        }
        todo := todo - {k};
      }
      SameEntries(l.cacheCoins, Merge(was, mapCoins));
      layers := layers[i := l.(hashBlock := hashIn)];
      threw := false;
    }

    /** One dirty child entry meets a cache. */
    method WriteEntry(l: Layer, k: OutPoint, e: Entry) returns (threw: bool, l': Layer)
      requires e.isDirty && l.cachedCoinsUsage == Usage(l.cacheCoins)
      ensures threw <==> Misapplied(Lookup(l.cacheCoins, k), e)
      ensures l'.cachedCoinsUsage == Usage(l'.cacheCoins)
      ensures Lookup(l'.cacheCoins, k)
           == if threw then Lookup(l.cacheCoins, k) else MergeEntry(Lookup(l.cacheCoins, k), e)
      ensures forall j | j != k :: Lookup(l'.cacheCoins, j) == Lookup(l.cacheCoins, j)
    {
      threw, l' := false, l;
      if k !in l.cacheCoins {
        if !(e.isFresh && e.coin.IsSpent()) {
          UsageSet(l.cacheCoins, k, Entry(e.coin, true, e.isFresh));
          l' := l.(cacheCoins := l.cacheCoins[k := Entry(e.coin, true, e.isFresh)],
                   cachedCoinsUsage := l.cachedCoinsUsage + e.coin.DynamicMemoryUsage());
        }
      } else {
        var us := l.cacheCoins[k];
        if e.isFresh && !us.coin.IsSpent() {
          return true, l;
        }
        var usage := l.cachedCoinsUsage - us.coin.DynamicMemoryUsage();
        if us.isFresh && e.coin.IsSpent() {
          UsageDrop(l.cacheCoins, k);
          l' := l.(cacheCoins := l.cacheCoins - {k}, cachedCoinsUsage := usage);
        } else {
          UsageSet(l.cacheCoins, k, Entry(e.coin, true, us.isFresh));
          l' := l.(cacheCoins := l.cacheCoins[k := Entry(e.coin, true, us.isFresh)],
                   cachedCoinsUsage := usage + e.coin.DynamicMemoryUsage());
        }
      }
    }

    /** Writes cache i back to view i; what remains of the cache is up to the caller. */
    method WriteBack(i: nat)
      requires Valid() && i < |layers|
      requires i == 0 ==> layers[0].hashBlock != NULL_HASH
      modifies this
      ensures views == old(views) && |layers| == old(|layers|)
      ensures forall j | 0 <= j < |layers| && j != i - 1 :: layers[j] == old(layers)[j]
      ensures i == 0 ==> coins == StoreWrite(old(coins), layers[0].cacheCoins) && bestBlock == layers[0].hashBlock
      ensures i > 0 ==> coins == old(coins) && bestBlock == old(bestBlock)
      ensures i > 0 ==>
                var merged := Merge(old(layers)[i - 1].cacheCoins, layers[i].cacheCoins);
                layers[i - 1] == Layer(merged, Usage(merged), layers[i].hashBlock)
    {
      if i == 0 {
        StoreBatchWrite(layers[0].cacheCoins, layers[0].hashBlock);
      } else {
        assert Shows(views[i - 1], layers[i - 1], views[i]) && Shows(views[i], layers[i], views[i + 1]);
        MergeRefines(views[i - 1], layers[i - 1].cacheCoins, layers[i].cacheCoins);
        var threw := BatchWrite(i - 1, layers[i].cacheCoins, layers[i].hashBlock);
        assert !threw;
      }
    }

    /** Pushes cache i down and empties it: its base then shows what the cache showed, and no
        other view changes, the cache's own included. */
    method Flush(i: nat)
      requires Valid() && i < |layers|
      requires i == 0 ==> layers[0].hashBlock != NULL_HASH
      modifies this
      ensures Valid() && views == old(views)[i := old(views)[i + 1]]
      ensures |layers| == old(|layers|) && layers[i] == Layer(map[], 0, old(layers)[i].hashBlock)
      ensures i == 0 ==> bestBlock == old(layers)[0].hashBlock
      ensures i > 0 ==> bestBlock == old(bestBlock) && layers[i - 1].hashBlock == old(layers)[i].hashBlock
      ensures forall j | 0 <= j < |layers| && j != i && j != i - 1 :: layers[j] == old(layers)[j]
      ensures i > 0 ==>
                (BestAt(bestBlock, layers, i + 1) == BestAt(bestBlock, old(layers), i + 1)
                 <==> || old(layers)[i].hashBlock != NULL_HASH
                      || BestAt(bestBlock, old(layers), i) == BestAt(bestBlock, old(layers), i - 1))
    {
      WriteBack(i);
      layers := layers[i := layers[i].(cacheCoins := map[], cachedCoinsUsage := 0)];
      views := views[i := views[i + 1]];
      WroteBack(old(coins), old(layers), old(views), coins, layers, i);
      if i > 0 { FlushBestBlock(bestBlock, old(layers), layers, i); }
    }

    /** As Flush, but the cache keeps its unspent coins, now unflagged. */
    method Sync(i: nat)
      requires Valid() && i < |layers|
      requires i == 0 ==> layers[0].hashBlock != NULL_HASH
      modifies this
      ensures Valid() && views == old(views)[i := old(views)[i + 1]]
      ensures |layers| == old(|layers|) && layers[i].cacheCoins == Retained(old(layers)[i].cacheCoins)
      ensures layers[i].hashBlock == old(layers)[i].hashBlock
      ensures i == 0 ==> bestBlock == old(layers)[0].hashBlock
      ensures i > 0 ==> bestBlock == old(bestBlock) && layers[i - 1].hashBlock == old(layers)[i].hashBlock
      ensures forall j | 0 <= j < |layers| && j != i && j != i - 1 :: layers[j] == old(layers)[j]
      ensures i > 0 ==>
                (BestAt(bestBlock, layers, i + 1) == BestAt(bestBlock, old(layers), i + 1)
                 <==> || old(layers)[i].hashBlock != NULL_HASH
                      || BestAt(bestBlock, old(layers), i) == BestAt(bestBlock, old(layers), i - 1))
    {
      assert Shows(views[i], layers[i], views[i + 1]);
      WriteBack(i);
      Unflag(i);
      views := views[i := views[i + 1]];
      WroteBack(old(coins), old(layers), old(views), coins, layers, i);
      if i > 0 { FlushBestBlock(bestBlock, old(layers), layers, i); }
    }

    /** Erases the spent entries of cache i and clears the flags of the others. */
    method Unflag(i: nat)
      requires i < |layers| && layers[i].cachedCoinsUsage == Usage(layers[i].cacheCoins)
      modifies this`layers
      ensures |layers| == old(|layers|) && forall j | 0 <= j < |layers| && j != i :: layers[j] == old(layers)[j]
      ensures layers[i].cacheCoins == Retained(old(layers)[i].cacheCoins)
      ensures layers[i].cachedCoinsUsage == Usage(layers[i].cacheCoins)
      ensures layers[i].hashBlock == old(layers)[i].hashBlock
    {
      var was, l := layers[i].cacheCoins, layers[i];
      var todo := was.Keys;
      while todo != {}
        invariant todo <= was.Keys && layers == old(layers)
        invariant forall k :: Lookup(l.cacheCoins, k) == Lookup(if k in todo then was else Retained(was), k)
        invariant l.cachedCoinsUsage == Usage(l.cacheCoins) && l.hashBlock == layers[i].hashBlock
        decreases |todo|
      {
        var k :| k in todo;
        assert Lookup(l.cacheCoins, k) == Lookup(was, k);
        if was[k].coin.IsSpent() {
          UsageDrop(l.cacheCoins, k);
          l := l.(cacheCoins := l.cacheCoins - {k},
                  cachedCoinsUsage := l.cachedCoinsUsage - was[k].coin.DynamicMemoryUsage());
        } else {
          UsageSet(l.cacheCoins, k, Entry(was[k].coin, false, false));
          l := l.(cacheCoins := l.cacheCoins[k := Entry(was[k].coin, false, false)]);
        }
        todo := todo - {k};
      }
      SameEntries(l.cacheCoins, Retained(was));
      layers := layers[i := l];
    }

    // ---- best block ----

    /** The best block of view v, filled in along the way wherever a cache had none. */
    method GetBestBlock(v: nat) returns (best: Hash)
      requires v <= |layers|
      modifies this`layers
      ensures best == BestAt(bestBlock, old(layers), v)
      ensures SameBest(bestBlock, old(layers), bestBlock, layers)
      ensures forall j | 0 <= j < |layers| ::
                && layers[j].cacheCoins == old(layers)[j].cacheCoins
                && layers[j].cachedCoinsUsage == old(layers)[j].cachedCoinsUsage
      ensures v > 0 ==> layers[v - 1].hashBlock == best
      ensures forall j | v <= j < |layers| :: layers[j] == old(layers)[j]
      decreases v
    {
      if v == 0 {
        return bestBlock;
      }
      if layers[v - 1].hashBlock == NULL_HASH {
        best := GetBestBlock(v - 1);
        FillHash(bestBlock, layers, v - 1, best);
        layers := layers[v - 1 := layers[v - 1].(hashBlock := best)];
      }
      best := layers[v - 1].hashBlock;
    }

    method SetBestBlock(i: nat, hashIn: Hash)
      requires i < |layers|
      modifies this`layers
      ensures layers == old(layers)[i := old(layers)[i].(hashBlock := hashIn)]
    {
      layers := layers[i := layers[i].(hashBlock := hashIn)];
    }

    /** The source's own consistency check on one cache. It passes exactly when only the listed flag
        states occur and the memory counter is the exact sum. */
    method SanityCheck(i: nat) returns (ok: bool)
      requires i < |layers|
      ensures ok <==> && (forall k :: k in layers[i].cacheCoins ==> FlagsListed(layers[i].cacheCoins[k]))
                      && layers[i].cachedCoinsUsage == Usage(layers[i].cacheCoins)
    {
      var entries, recomputed := layers[i].cacheCoins, 0;
      var todo := entries.Keys;
      ghost var done: set<OutPoint> := {};
      while todo != {}
        invariant done !! todo && done + todo == entries.Keys
        invariant forall k :: k in done ==> FlagsListed(entries[k])
        invariant recomputed == UsageOf(entries, done)
        decreases |todo|
      {
        var k :| k in todo;
        var attr := 0;
        if entries[k].isDirty { attr := attr + 1; }
        if entries[k].isFresh { attr := attr + 2; }
        if entries[k].coin.IsSpent() { attr := attr + 4; }
        if attr == 2 || attr == 4 || attr == 7 {
          return false;
        }
        UsageAdd(entries, done, k);
        recomputed := recomputed + entries[k].coin.DynamicMemoryUsage();
        todo, done := todo - {k}, done + {k};
      }
      ok := recomputed == layers[i].cachedCoinsUsage;
    }

    // ---- whole runs ----

    /** Starts a new cache on top of the stack. */
    method Push()
      requires Valid()
      modifies this`layers, this`views
      ensures Valid() && views == old(views) + [old(views)[old(|layers|)]]
      ensures layers == old(layers) + [Layer(map[], 0, NULL_HASH)]
    {
      OverlayNothing(views[|layers|]);
      layers := layers + [Layer(map[], 0, NULL_HASH)];
      views := views + [views[|views| - 1]];
    }

    /** Destroys the top cache; what it had not written back is forgotten. */
    method Pop()
      requires Valid() && |layers| > 0
      modifies this`layers, this`views
      ensures Valid() && views == old(views)[..old(|layers|)]
    {
      views := views[..|layers|];
      layers := layers[..|layers| - 1];
    }

    method Perform(op: Op)
      requires Valid() && Legal(views, op)
      modifies this
      ensures Valid() && views == Step(old(views), op)
    {
      match op
      case Get(v, outpoint) => var _, _ := GetCoin(v, outpoint);
      case Uncache(i, outpoint) => Uncache(i, outpoint);
      case Add(outpoint, coin, possibleOverwrite) => var threw := AddCoin(outpoint, coin, possibleOverwrite);
      case Spend(outpoint) => var _, _ := SpendCoin(outpoint);
      case Flush(i, hash) =>
        SetBest(i, hash);
        Flush(i);
      case Sync(i, hash) =>
        SetBest(i, hash);
        Sync(i);
      case Push => Push();
      case Pop => Pop();
    }

    method SetBest(i: nat, hashIn: Hash)
      requires Valid() && i < |layers|
      modifies this`layers
      ensures Valid() && layers == old(layers)[i := old(layers)[i].(hashBlock := hashIn)]
    {
      forall j | 0 <= j < |layers| ensures Shows(views[j], layers[j], views[j + 1]) { }
      SetBestBlock(i, hashIn);
      forall j | 0 <= j < |layers|
        ensures Shows(views[j], layers[j], views[j + 1])
      {
        assert Shows(views[j], old(layers)[j], views[j + 1]);
      }
    }

    /** Every run on a stack of any depth keeps the stack sound and shows, view by view, what a
        plain stack of maps shows after the same operations. */
    method Run(ops: seq<Op>)
      requires Valid() && LegalRun(views, ops)
      modifies this
      ensures Valid() && views == Replay(old(views), ops)
    {
      for k := 0 to |ops|
        invariant Valid() && LegalRun(views, ops[k..])
        invariant Replay(views, ops[k..]) == Replay(old(views), ops)
      {
        assert ops[k..][1..] == ops[k + 1..];
        Perform(ops[k]);
      }
    }
  }

  // ---- the plain specification: a stack of maps ----

  datatype Op =
    | Get(v: nat, outpoint: OutPoint)
    | Uncache(i: nat, outpoint: OutPoint)
    | Add(outpoint: OutPoint, coin: Coin, possibleOverwrite: bool)
    | Spend(outpoint: OutPoint)
    | Flush(i: nat, hash: Hash)
    | Sync(i: nat, hash: Hash)
    | Push
    | Pop

  function Last(views: seq<View>): View
    requires |views| > 0
  {
    views[|views| - 1]
  }

  /** What the callers of the cache promise. */
  predicate Legal(views: seq<View>, op: Op) {
    && |views| > 0
    && match op
       case Get(v, _) => v < |views|
       case Uncache(i, _) => i + 1 < |views|
       case Add(outpoint, coin, possibleOverwrite) =>
         |views| > 1 && !coin.IsSpent() && (possibleOverwrite || outpoint !in Last(views))
       case Spend(_) => |views| > 1
       case Flush(i, hash) => i + 1 < |views| && (i == 0 ==> hash != NULL_HASH)
       case Sync(i, hash) => i + 1 < |views| && (i == 0 ==> hash != NULL_HASH)
       case Push => true
       case Pop => |views| > 1
  }

  /** The effect of an operation on a stack of plain maps. */
  function Step(views: seq<View>, op: Op): (views': seq<View>)
    requires Legal(views, op)
    ensures |views'| > 0
  {
    match op
    case Get(_, _) => views
    case Uncache(_, _) => views
    case Add(_, _, _) => views[|views| - 1 := Plain(Last(views), op)]
    case Spend(_) => views[|views| - 1 := Plain(Last(views), op)]
    case Flush(i, _) => views[i := views[i + 1]]
    case Sync(i, _) => views[i := views[i + 1]]
    case Push => views + [Last(views)]
    case Pop => views[..|views| - 1]
  }

  /** The effect of an operation on the one map that the top of the stack stands for. */
  function Plain(v: View, op: Op): View {
    match op
    case Add(outpoint, coin, _) => if coin.IsUnspendable() then v else v[outpoint := coin]
    case Spend(outpoint) => v - {outpoint}
    case _ => v
  }

  predicate LegalRun(views: seq<View>, ops: seq<Op>)
    decreases |ops|
  {
    ops != [] ==> Legal(views, ops[0]) && LegalRun(Step(views, ops[0]), ops[1..])
  }

  function Replay(views: seq<View>, ops: seq<Op>): seq<View>
    requires LegalRun(views, ops)
    decreases |ops|
  {
    if ops == [] then views else Replay(Step(views, ops[0]), ops[1..])
  }

  function PlainRun(v: View, ops: seq<Op>): View
    decreases |ops|
  {
    if ops == [] then v else PlainRun(Plain(v, ops[0]), ops[1..])
  }

  /** As long as no cache is added or removed, the top of the stack is one plain map to which the
      additions and spends are applied, whatever is read, uncached, synced or flushed in between,
      at whatever depth. */
  lemma {:induction false} TopIsPlainMap(views: seq<View>, ops: seq<Op>)
    requires |views| > 1 && LegalRun(views, ops)
    requires forall k | 0 <= k < |ops| :: !ops[k].Push? && !ops[k].Pop?
    ensures |Replay(views, ops)| == |views|
    ensures Last(Replay(views, ops)) == PlainRun(Last(views), ops)
    decreases |ops|
  {
    if ops != [] {
      assert !ops[0].Push? && !ops[0].Pop?;
      TopIsPlainMap(Step(views, ops[0]), ops[1..]);
    }
  }

  /** Flushing every cache, from the top down to the store. */
  function FlushAll(n: nat, hash: Hash): (ops: seq<Op>)
    ensures |ops| == n
  {
    if n == 0 then [] else [Flush(n - 1, hash)] + FlushAll(n - 1, hash)
  }

  /** Flushing the caches one by one, from the top, brings the top view to every level and into
      the store. */
  lemma {:induction false} FlushAllReachesStore(views: seq<View>, n: nat, hash: Hash)
    requires n < |views| && hash != NULL_HASH
    ensures LegalRun(views, FlushAll(n, hash))
    ensures |Replay(views, FlushAll(n, hash))| == |views|
    ensures forall j | 0 <= j <= n :: Replay(views, FlushAll(n, hash))[j] == views[n]
    ensures forall j | n < j < |views| :: Replay(views, FlushAll(n, hash))[j] == views[j]
    decreases n
  {
    if n > 0 {
      assert FlushAll(n, hash)[1..] == FlushAll(n - 1, hash);
      FlushAllReachesStore(views[n - 1 := views[n]], n - 1, hash);
    }
  }

  // ---- best block laws ----

  ghost function BestAt(bestBlock: Hash, layers: seq<Layer>, v: nat): Hash
    requires v <= |layers|
  {
    if v == 0 then bestBlock
    else if layers[v - 1].hashBlock != NULL_HASH then layers[v - 1].hashBlock
    else BestAt(bestBlock, layers, v - 1)
  }

  ghost predicate SameBest(b: Hash, ls: seq<Layer>, b': Hash, ls': seq<Layer>) {
    |ls| == |ls'| && forall v | 0 <= v <= |ls| :: BestAt(b', ls', v) == BestAt(b, ls, v)
  }

  lemma {:induction false} FillHash(b: Hash, ls: seq<Layer>, i: nat, best: Hash)
    requires i < |ls| && best == BestAt(b, ls, i) && ls[i].hashBlock == NULL_HASH
    ensures SameBest(b, ls, b, ls[i := ls[i].(hashBlock := best)])
  {
    var ls' := ls[i := ls[i].(hashBlock := best)];
    for v := 0 to |ls| + 1
      invariant forall w | 0 <= w < v :: BestAt(b, ls', w) == BestAt(b, ls, w)
    {
    }
  }

  /** What Flush and Sync do to the best block of the cache that is written back: they keep it if
      and only if the cache had recorded one, or its base answered what the view below it answers.
      A cache that never asked for its best block erases the one that its base had recorded. */
  lemma {:induction false} FlushBestBlock(b: Hash, ls: seq<Layer>, ls': seq<Layer>, i: nat)
    requires 0 < i < |ls| == |ls'|
    requires ls'[i].hashBlock == ls[i].hashBlock && ls'[i - 1].hashBlock == ls[i].hashBlock
    requires forall j | 0 <= j < i - 1 :: ls'[j] == ls[j]
    ensures BestAt(b, ls', i + 1) == BestAt(b, ls', i)
    ensures BestAt(b, ls', i + 1) == BestAt(b, ls, i + 1)
       <==> ls[i].hashBlock != NULL_HASH || BestAt(b, ls, i) == BestAt(b, ls, i - 1)
  {
    BestBelow(b, ls, ls', i - 1);
  }

  /** Two caches over a store, of which the upper one has no best block of its own. */
  method TwoCaches(coins: map<OutPoint, Coin>) returns (s: CoinsStack)
    ensures fresh(s) && s.Valid() && |s.layers| == 2 && s.bestBlock == 1
    ensures s.layers[0].hashBlock == 2 && s.layers[1].hashBlock == NULL_HASH
  {
    s := new CoinsStack(coins, 1);
    s.Push();
    s.SetBest(0, 2);
    s.Push();
  }

  /** Flushing the upper one takes the best block of the top from 2 back to the store's 1. */
  method FlushErasesBestBlock(s: CoinsStack)
    requires s.Valid() && |s.layers| == 2 && s.bestBlock == 1
    requires s.layers[0].hashBlock == 2 && s.layers[1].hashBlock == NULL_HASH
    modifies s
    ensures s.Valid() && |s.layers| == 2
    ensures BestAt(old(s.bestBlock), old(s.layers), 2) == 2 && BestAt(s.bestBlock, s.layers, 2) == 1
  {
    assert BestAt(s.bestBlock, s.layers, 1) == 2;
    s.Flush(1);
    assert BestAt(s.bestBlock, s.layers, 1) == BestAt(s.bestBlock, s.layers, 0);
  }

  lemma {:induction false} BestBelow(b: Hash, ls: seq<Layer>, ls': seq<Layer>, v: nat)
    requires v <= |ls| && v <= |ls'|
    requires forall j | 0 <= j < v :: ls'[j].hashBlock == ls[j].hashBlock
    ensures BestAt(b, ls', v) == BestAt(b, ls, v)
    decreases v
  {
    if v > 0 {
      BestBelow(b, ls, ls', v - 1);
    }
  }

  /** Every cache of a sound stack passes the sanity check. */
  lemma SoundPassesSanityCheck(coins: map<OutPoint, Coin>, layers: seq<Layer>, views: seq<View>, i: nat)
    requires Consistent(coins, layers, views) && i < |layers|
    ensures forall k :: k in layers[i].cacheCoins ==> FlagsListed(layers[i].cacheCoins[k])
    ensures layers[i].cachedCoinsUsage == Usage(layers[i].cacheCoins)
  {
    assert Shows(views[i], layers[i], views[i + 1]);
  }

  /** After a write-back that kept all or nothing of the cache's unspent coins the stack is
      sound, the base shows what the cache showed, and no other view has changed. */
  lemma WroteBack(coins: map<OutPoint, Coin>, layers: seq<Layer>, views: seq<View>,
                  coins': map<OutPoint, Coin>, layers': seq<Layer>, i: nat)
    requires Consistent(coins, layers, views) && i < |layers| == |layers'|
    requires forall j | 0 <= j < |layers| && j != i && j != i - 1 :: layers'[j] == layers[j]
    requires i == 0 ==> coins' == StoreWrite(coins, layers[0].cacheCoins)
    requires i > 0 ==>
               && coins' == coins
               && layers'[i - 1].cacheCoins == Merge(layers[i - 1].cacheCoins, layers[i].cacheCoins)
               && layers'[i - 1].cachedCoinsUsage == Usage(layers'[i - 1].cacheCoins)
    requires layers'[i].cacheCoins == map[] || layers'[i].cacheCoins == Retained(layers[i].cacheCoins)
    requires layers'[i].cachedCoinsUsage == Usage(layers'[i].cacheCoins)
    ensures Consistent(coins', layers', views[i := views[i + 1]])
  {
    var views' := views[i := views[i + 1]];
    assert Shows(views[i], layers[i], views[i + 1]);
    assert Shows(views'[i], layers'[i], views'[i + 1]) by {
      OverlayNothing(views[i + 1]);
      RetainedOk(views[i], layers[i].cacheCoins);
    }
    if i == 0 {
      StoreWriteRefines(coins, layers[0].cacheCoins);
    } else {
      assert Shows(views[i - 1], layers[i - 1], views[i]);
      MergeRefines(views[i - 1], layers[i - 1].cacheCoins, layers[i].cacheCoins);
      assert Shows(views'[i - 1], layers'[i - 1], views'[i]);
    }
    forall j | 0 <= j < |layers'|
      ensures Shows(views'[j], layers'[j], views'[j + 1])
    {
      if j != i && j != i - 1 {
        assert Shows(views[j], layers[j], views[j + 1]);
      }
    }
  }
}
