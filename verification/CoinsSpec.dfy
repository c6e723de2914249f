/** Values and pure laws of the layered UTXO cache: coins, cache entries with their
    DIRTY and FRESH flags, what a layer shows on top of its base, and what one layer
    does to the one below when it is written back. */
module CoinsSpec {
  import opened Wrappers

  datatype OutPoint = OutPoint(txid: nat, n: nat)

  datatype TxOut = TxOut(value: int, script: seq<bv8>)

  /** A spent coin is one whose output was nulled, that is, has value -1. */
  datatype Coin = Coin(out: TxOut, coinbase: bool, height: nat) {
    predicate IsSpent() { out.value == -1 }

    predicate IsUnspendable() {
      (|out.script| > 0 && out.script[0] == OP_RETURN) || |out.script| > MAX_SCRIPT_SIZE
    }

    function DynamicMemoryUsage(): nat {
      if |out.script| <= SCRIPT_INLINE_SIZE then 0 else |out.script|
    }
  }

  const OP_RETURN: bv8 := 0x6a
  const MAX_SCRIPT_SIZE := 10000
  const SCRIPT_INLINE_SIZE := 28
  const EMPTY_COIN := Coin(TxOut(-1, []), false, 0)

  datatype Entry = Entry(coin: Coin, isDirty: bool, isFresh: bool)

  type Entries = map<OutPoint, Entry>

  /** The plain specification of a coins view: the unspent coins it shows. */
  type View = map<OutPoint, Coin>

  function Unspent(coins: map<OutPoint, Coin>): View {
    map k | k in coins && !coins[k].IsSpent() :: coins[k]
  }

  /** What a layer shows: its own entries first, the base for the rest. */
  function Overlay(base: View, entries: Entries): View {
    map k | k in base.Keys + entries.Keys && (k in entries ==> !entries[k].coin.IsSpent())
      :: if k in entries then entries[k].coin else base[k]
  }

  lemma OverlayNothing(base: View)
    ensures Overlay(base, map[]) == base && EntriesOk(map[], base) && Usage(map[]) == 0
  {
  }

  /** The five flag states that the source lists, out of eight. */
  predicate FlagsListed(e: Entry) {
    if e.coin.IsSpent() then e.isFresh != e.isDirty else e.isFresh ==> e.isDirty
  }

  /** What the flags of one entry promise about the base view. */
  ghost predicate EntryOk(k: OutPoint, e: Entry, base: View) {
    && FlagsListed(e)
    && (e.isFresh ==> k !in base)
    && (!e.isDirty ==> if e.coin.IsSpent() then k !in base else k in base && base[k] == e.coin)
  }

  ghost predicate EntriesOk(entries: Entries, base: View) {
    forall k :: k in entries ==> EntryOk(k, entries[k], base)
  }

  // ---- memory accounting ----

  ghost function Usage(entries: Entries): nat {
    UsageOf(entries, entries.Keys)
  }

  ghost function UsageOf(entries: Entries, ks: set<OutPoint>): nat
    requires ks <= entries.Keys
  {
    if ks == {} then 0
    else
      var k :| k in ks;
      entries[k].coin.DynamicMemoryUsage() + UsageOf(entries, ks - {k})
  }

  /** The sum does not depend on the order in which entries are visited. */
  lemma {:induction false} UsageRemove(entries: Entries, ks: set<OutPoint>, k: OutPoint)
    requires k in ks && ks <= entries.Keys
    ensures UsageOf(entries, ks) == entries[k].coin.DynamicMemoryUsage() + UsageOf(entries, ks - {k})
  {
    var p :| p in ks && UsageOf(entries, ks) == entries[p].coin.DynamicMemoryUsage() + UsageOf(entries, ks - {p});
    if p != k {
      assert (ks - {p}) - {k} == (ks - {k}) - {p};
      UsageRemove(entries, ks - {p}, k);
      UsageRemove(entries, ks - {k}, p);
    }
  }

  lemma {:induction false} UsageFrame(a: Entries, b: Entries, ks: set<OutPoint>)
    requires ks <= a.Keys && ks <= b.Keys
    requires forall k | k in ks :: a[k].coin == b[k].coin
    ensures UsageOf(a, ks) == UsageOf(b, ks)
  {
    if ks != {} {
      var k :| k in ks;
      UsageFrame(a, b, ks - {k});
      UsageRemove(a, ks, k);
      UsageRemove(b, ks, k);
    }
  }

  lemma UsageAdd(entries: Entries, ks: set<OutPoint>, k: OutPoint)
    requires k !in ks && ks + {k} <= entries.Keys
    ensures UsageOf(entries, ks + {k}) == UsageOf(entries, ks) + entries[k].coin.DynamicMemoryUsage()
  {
    UsageRemove(entries, ks + {k}, k);
    assert ks + {k} - {k} == ks;
  }

  lemma UsageDrop(entries: Entries, k: OutPoint)
    requires k in entries
    ensures Usage(entries - {k}) == Usage(entries) - entries[k].coin.DynamicMemoryUsage()
  {
    assert (entries - {k}).Keys == entries.Keys - {k};
    UsageRemove(entries, entries.Keys, k);
    UsageFrame(entries, entries - {k}, entries.Keys - {k});
  }

  lemma UsageSet(entries: Entries, k: OutPoint, e: Entry)
    ensures Usage(entries[k := e])
         == Usage(entries) + e.coin.DynamicMemoryUsage()
            - (if k in entries then entries[k].coin.DynamicMemoryUsage() else 0)
  {
    var rest := entries.Keys - {k};
    assert entries[k := e].Keys - {k} == rest;
    UsageRemove(entries[k := e], entries[k := e].Keys, k);
    UsageFrame(entries, entries[k := e], rest);
    if k in entries {
      UsageRemove(entries, entries.Keys, k);
    } else {
      assert entries.Keys == rest;
    }
  }

  // ---- writing a layer back to the one below ----

  /** What BatchWrite makes of one child entry, given the entry the parent holds, if any.
      None means that the parent ends up without an entry. */
  function Lookup(entries: Entries, k: OutPoint): Option<Entry> {
    if k in entries then Some(entries[k]) else None
  }

  function MergeEntry(parent: Option<Entry>, child: Entry): Option<Entry> {
    if !child.isDirty then parent
    else match parent
      case None =>
        if child.isFresh && child.coin.IsSpent() then None
        else Some(Entry(child.coin, true, child.isFresh))
      case Some(us) =>
        if us.isFresh && child.coin.IsSpent() then None
        else Some(Entry(child.coin, true, us.isFresh))
  }

  /** The condition on which BatchWrite throws "FRESH flag misapplied". */
  predicate Misapplied(parent: Option<Entry>, child: Entry) {
    child.isDirty && child.isFresh && parent.Some? && !parent.value.coin.IsSpent()
  }

  function Merge(parent: Entries, child: Entries): Entries {
    map k | k in parent.Keys + child.Keys && Merged(parent, child, k).Some?
      :: Merged(parent, child, k).value
  }

  function Merged(parent: Entries, child: Entries, k: OutPoint): Option<Entry> {
    if k in child then MergeEntry(Lookup(parent, k), child[k]) else Lookup(parent, k)
  }

  /** Writing a sound child layer back into a sound parent layer leaves the parent sound, gives
      it exactly the view that the child had, and never meets a misapplied FRESH flag. */
  lemma MergeRefines(grand: View, parent: Entries, child: Entries)
    requires EntriesOk(parent, grand)
    requires EntriesOk(child, Overlay(grand, parent))
    ensures EntriesOk(Merge(parent, child), grand)
    ensures Overlay(grand, Merge(parent, child)) == Overlay(Overlay(grand, parent), child)
    ensures forall k :: k in child ==> !Misapplied(Lookup(parent, k), child[k])
  {
    forall k
      ensures MergedPointwise(grand, parent, child, k)
    {
      MergeOne(grand, parent, child, k);
    }
    var l, r := Overlay(grand, Merge(parent, child)), Overlay(Overlay(grand, parent), child);
    forall k
      ensures k in l <==> k in r
      ensures k in l ==> l[k] == r[k]
    {
      assert MergedPointwise(grand, parent, child, k);
    }
    forall k | k in Merge(parent, child)
      ensures EntryOk(k, Merge(parent, child)[k], grand)
    {
      assert MergedPointwise(grand, parent, child, k);
    }
    forall k | k in child
      ensures !Misapplied(Lookup(parent, k), child[k])
    {
      assert MergedPointwise(grand, parent, child, k);
    }
  }

  function Shown(e: Option<Entry>, below: Option<Coin>): Option<Coin> {
    match e
    case None => below
    case Some(x) => if x.coin.IsSpent() then None else Some(x.coin)
  }

  function At(v: View, k: OutPoint): Option<Coin> {
    if k in v then Some(v[k]) else None
  }

  ghost predicate MergedPointwise(grand: View, parent: Entries, child: Entries, k: OutPoint) {
    var m := Merged(parent, child, k);
    && (m.Some? ==> EntryOk(k, m.value, grand))
    && Shown(m, At(grand, k)) == Shown(Lookup(child, k), Shown(Lookup(parent, k), At(grand, k)))
    && (k in child ==> !Misapplied(Lookup(parent, k), child[k]))
  }

  lemma MergeOne(grand: View, parent: Entries, child: Entries, k: OutPoint)
    requires EntriesOk(parent, grand)
    requires EntriesOk(child, Overlay(grand, parent))
    ensures MergedPointwise(grand, parent, child, k)
  {
    assert At(Overlay(grand, parent), k) == Shown(Lookup(parent, k), At(grand, k));
    assert k in parent ==> EntryOk(k, parent[k], grand);
    assert k in child ==> EntryOk(k, child[k], Overlay(grand, parent));
  }

  /** The bottom store: dirty entries are written, spent ones erased. */
  function StoredAt(coins: map<OutPoint, Coin>, child: Entries, k: OutPoint): Option<Coin> {
    if k in child && child[k].isDirty then
      if child[k].coin.IsSpent() then None else Some(child[k].coin)
    else At(coins, k)
  }

  function StoreWrite(coins: map<OutPoint, Coin>, child: Entries): map<OutPoint, Coin> {
    map k | k in coins.Keys + child.Keys && StoredAt(coins, child, k).Some?
      :: StoredAt(coins, child, k).value
  }

  lemma StoreWriteRefines(coins: map<OutPoint, Coin>, child: Entries)
    requires EntriesOk(child, Unspent(coins))
    ensures Unspent(StoreWrite(coins, child)) == Overlay(Unspent(coins), child)
  {
    var l, r := Unspent(StoreWrite(coins, child)), Overlay(Unspent(coins), child);
    forall k
      ensures k in l <==> k in r
      ensures k in l ==> l[k] == r[k]
    {
      if k in child {
        assert EntryOk(k, child[k], Unspent(coins));
      }
    }
  }

  // ---- what a layer keeps of itself after a write-back ----

  /** Sync drops spent entries and clears the flags of the others. */
  function Retained(entries: Entries): Entries {
    map k | k in entries && !entries[k].coin.IsSpent() :: Entry(entries[k].coin, false, false)
  }

  lemma RetainedOk(base: View, entries: Entries)
    ensures EntriesOk(Retained(entries), Overlay(base, entries))
    ensures Overlay(Overlay(base, entries), Retained(entries)) == Overlay(base, entries)
  {
    var v := Overlay(base, entries);
    assert forall k :: k in Retained(entries) ==> k in v && v[k] == Retained(entries)[k].coin;
  }

  // ---- single-coin updates ----

  function AddedEntry(old_: Option<Entry>, coin: Coin, possibleOverwrite: bool): Entry {
    var e := if old_.Some? then old_.value else Entry(EMPTY_COIN, false, false);
    Entry(coin, true, e.isFresh || (!possibleOverwrite && !e.isDirty))
  }

  /** An addition keeps the layer sound exactly when the caller told the truth about overwriting. */
  lemma AddSound(base: View, entries: Entries, k: OutPoint, coin: Coin, possibleOverwrite: bool)
    requires EntriesOk(entries, base) && !coin.IsSpent()
    requires !possibleOverwrite && k in entries ==> entries[k].coin.IsSpent()
    ensures EntriesOk(entries[k := AddedEntry(Lookup(entries, k), coin, possibleOverwrite)], base)
       <==> (possibleOverwrite || k !in Overlay(base, entries))
    ensures Overlay(base, entries[k := AddedEntry(Lookup(entries, k), coin, possibleOverwrite)])
         == Overlay(base, entries)[k := coin]
  {
    var e := AddedEntry(Lookup(entries, k), coin, possibleOverwrite);
    var after := entries[k := e];
    assert k in entries ==> EntryOk(k, entries[k], base);
    assert k in Overlay(base, entries) <==>
           if k in entries then !entries[k].coin.IsSpent() else k in base;
    assert EntryOk(k, e, base) <==> (possibleOverwrite || k !in Overlay(base, entries));
    forall j | j in after && j != k
      ensures EntryOk(j, after[j], base)
    {
      assert EntryOk(j, entries[j], base);
    }
    assert EntriesOk(after, base) <==> EntryOk(k, after[k], base);
  }

  function SpentEntries(entries: Entries, k: OutPoint): Entries
    requires k in entries
  {
    if entries[k].isFresh then entries - {k}
    else entries[k := Entry(EMPTY_COIN, true, false)]
  }

  lemma SpendSound(base: View, entries: Entries, k: OutPoint)
    requires EntriesOk(entries, base) && k in entries
    ensures EntriesOk(SpentEntries(entries, k), base)
    ensures Overlay(base, SpentEntries(entries, k)) == Overlay(base, entries) - {k}
  {
    var after := SpentEntries(entries, k);
    assert EntryOk(k, entries[k], base);
    forall j | j in after
      ensures EntryOk(j, after[j], base)
    {
      if j != k {
        assert EntryOk(j, entries[j], base);
      }
    }
  }

  /** Caching what the base answered changes nothing that can be seen. */
  lemma FetchSound(base: View, entries: Entries, k: OutPoint, e: Entry)
    requires EntriesOk(entries, base) && k !in entries
    requires !e.isDirty && e.isFresh == e.coin.IsSpent()
    requires if e.coin.IsSpent() then k !in base else k in base && base[k] == e.coin
    ensures EntriesOk(entries[k := e], base)
    ensures Overlay(base, entries[k := e]) == Overlay(base, entries)
  {
    var after := entries[k := e];
    forall j | j in after
      ensures EntryOk(j, after[j], base)
    {
      assert j != k ==> EntryOk(j, entries[j], base);
    }
  }

  lemma UncacheSound(base: View, entries: Entries, k: OutPoint)
    requires EntriesOk(entries, base) && k in entries
    requires !entries[k].isDirty && !entries[k].isFresh
    ensures EntriesOk(entries - {k}, base)
    ensures Overlay(base, entries - {k}) == Overlay(base, entries)
  {
    assert EntryOk(k, entries[k], base);
    forall j | j in entries - {k}
      ensures EntryOk(j, (entries - {k})[j], base)
    {
      assert EntryOk(j, entries[j], base);
    }
  }

  lemma SameCoins(a: map<OutPoint, Coin>, b: map<OutPoint, Coin>)
    requires forall k :: At(a, k) == At(b, k)
    ensures a == b
  {
    forall k
      ensures k in a <==> k in b
      ensures k in a ==> a[k] == b[k]
    {
      assert At(a, k) == At(b, k);
    }
  }

  lemma SameEntries(a: Entries, b: Entries)
    requires forall k :: Lookup(a, k) == Lookup(b, k)
    ensures a == b
  {
    forall k
      ensures k in a <==> k in b
      ensures k in a ==> a[k] == b[k]
    {
      assert Lookup(a, k) == Lookup(b, k);
    }
  }
}
