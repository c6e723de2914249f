/** Which entries of a record are left when it is read, and where: new entries whose buckets no longer
    apply, because their number or the grouping of addresses has changed, and tried entries. */
module AddrRebucket {
  import opened AddrBook
  import opened AddrDisk
  import Ops = AddrOps
  import AddrCheck
  import opened Seqs

  /** The number of buckets and the checksum of the grouping that a record was written with. */
  function BucketCount(d: Disk): nat { if d.format >= 1 then Flipped(d.buckets) else d.buckets }
  function StoredChecksum(d: Disk): nat { if d.format >= 2 then d.checksum else 0 }

  /** All listings of a record, bucket after bucket. */
  function Listings(entries: seq<seq<int>>): seq<int>
    decreases |entries|
  {
    if entries == [] then [] else entries[0] + Listings(entries[1..])
  }

  /** The listing is about an entry of the record that has a valid address. */
  predicate Listable(e: Env, d: Disk, k: int) { 0 <= k < |d.newInfos| && e.valid(d.newInfos[k].service.ip) }

  /** The slot that the source of an entry selects. */
  function SlotOf(e: Env, d: Disk, k: nat): Slot
    requires k < |d.newInfos|
  {
    NewSlot(e, d.key, d.newInfos[k].service, d.newInfos[k].source)
  }

  /** Some listing is about a valid entry that selects the slot. */
  ghost predicate Taken(e: Env, d: Disk, ls: seq<int>, s: Slot) {
    exists h :: 0 <= h < |ls| && Listable(e, d, ls[h]) && SlotOf(e, d, ls[h]) == s
  }

  /** A listing of entry k comes before those of all other valid entries that select the same slot. */
  ghost predicate Wins(e: Env, d: Disk, ls: seq<int>, k: int) {
    Listable(e, d, k) && exists i :: 0 <= i < |ls| && ls[i] == k && !Taken(e, d, ls[..i], SlotOf(e, d, k))
  }

  lemma TakenAppend(e: Env, d: Disk, ls: seq<int>, x: int, s: Slot)
    ensures Taken(e, d, ls + [x], s) <==> Taken(e, d, ls, s) || (Listable(e, d, x) && SlotOf(e, d, x) == s)
  {
    hide SlotOf;
    var more := ls + [x];
    assert more[|ls|] == x;
    if Taken(e, d, ls, s) {
      var h :| 0 <= h < |ls| && Listable(e, d, ls[h]) && SlotOf(e, d, ls[h]) == s;
      assert more[h] == ls[h];
    }
    if Taken(e, d, more, s) {
      var h :| 0 <= h < |more| && Listable(e, d, more[h]) && SlotOf(e, d, more[h]) == s;
      assert h < |ls| ==> more[h] == ls[h];
    }
  }

  lemma WinsAppend(e: Env, d: Disk, ls: seq<int>, x: int, k: int)
    ensures Wins(e, d, ls + [x], k) <==>
              Wins(e, d, ls, k) || (k == x && Listable(e, d, x) && !Taken(e, d, ls, SlotOf(e, d, x)))
  {
    hide SlotOf; hide Taken;
    var more := ls + [x];
    assert more[|ls|] == x && more[..|ls|] == ls;
    if Wins(e, d, ls, k) {
      var i :| 0 <= i < |ls| && ls[i] == k && !Taken(e, d, ls[..i], SlotOf(e, d, k));
      assert more[i] == ls[i] && more[..i] == ls[..i];
    }
    if Wins(e, d, more, k) {
      var i :| 0 <= i < |more| && more[i] == k && !Taken(e, d, more[..i], SlotOf(e, d, k));
      assert i < |ls| ==> ls[i] == k && more[..i] == ls[..i];
    }
  }

  // ---- the entries that have been read ----

  /** The new entries are there under their places in the record, and nothing is in the new table. */
  ghost predicate JustRead(d: Disk, b: Book) {
    && b.key == d.key && b.newT == map[] && |d.newInfos| <= b.idCount
    && (forall k | 0 <= k < |d.newInfos| :: Id(k) in b.info && NewAs(d.newInfos[k], b.info[Id(k)]))
    && (forall id | id in b.info :: id.n < b.idCount && b.info[id].refCount == 0)
    && (forall id | id in b.info && !b.info[id].inTried :: 0 <= id.n < |d.newInfos|)
  }

  /** A new entry as the record has it, but for where it is listed. */
  predicate NewAs(d: DiskInfo, i: AddrInfo) { Written(i) == d && !i.inTried }

  /** The first n entries of the record, and nothing else. */
  ghost predicate FirstJustRead(d: Disk, n: nat, b: Book) {
    && n <= |d.newInfos| && b.key == d.key && b.newT == map[] && b.idCount == n
    && (forall k | 0 <= k < n :: Id(k) in b.info && NewAs(d.newInfos[k], b.info[Id(k)]))
    && (forall id | id in b.info :: 0 <= id.n < n && b.info[id].refCount == 0)
  }

  lemma NextJustRead(e: Env, d: Disk, n: nat, b: Book)
    requires FirstJustRead(d, n, b) && n < |d.newInfos|
    ensures FirstJustRead(d, n + 1, WithNew(e, b, d.newInfos[n]))
  {
    hide Bumped;
  }

  lemma {:induction false} NewJustRead(e: Env, d: Disk, n: nat)
    requires n <= |d.newInfos|
    ensures FirstJustRead(d, n, AllNew(e, Ops.Empty(d.key), d.newInfos[..n]))
    decreases n
  {
    if n > 0 {
      hide FirstJustRead; hide WithNew;
      NewJustRead(e, d, n - 1);
      assert d.newInfos[..n][..n - 1] == d.newInfos[..n - 1];
      NextJustRead(e, d, n - 1, AllNew(e, Ops.Empty(d.key), d.newInfos[..n - 1]));
    }
  }

  lemma {:induction false} TriedJustRead(e: Env, d: Disk, b: Book, ds: seq<DiskInfo>)
    requires JustRead(d, b)
    ensures JustRead(d, AllTried(e, b, ds))
    decreases |ds|
  {
    if ds != [] {
      TriedJustRead(e, d, b, ds[..|ds| - 1]);
      hide Bumped; hide TriedSlot;
    }
  }

  // ---- placing them ----

  /** After some listings the slots that any of them selects are taken by the winners, once each. */
  ghost predicate Rebucketed(e: Env, d: Disk, b: Book, ls: seq<int>, c: Book) {
    && JustRead(d, b) && c.key == b.key && c.info.Keys == b.info.Keys
    && (forall id | id in c.info :: c.info[id] == b.info[id].(refCount := c.info[id].refCount))
    && (forall s :: s in c.newT <==> Taken(e, d, ls, s))
    && (forall s | s in c.newT :: Wins(e, d, ls, c.newT[s].n) && c.newT[s] in c.info && SlotOf(e, d, c.newT[s].n) == s)
    && (forall k | 0 <= k < |d.newInfos| :: ListedOnce(e, d, ls, c, k))
  }

  /** The winners are listed once, where they belong, and the others not at all. */
  ghost predicate ListedOnce(e: Env, d: Disk, ls: seq<int>, c: Book, k: nat)
    requires k < |d.newInfos|
  {
    && Id(k) in c.info && c.info[Id(k)].refCount == (if Wins(e, d, ls, k) then 1 else 0)
    && (Wins(e, d, ls, k) ==> SlotOf(e, d, k) in c.newT && c.newT[SlotOf(e, d, k)] == Id(k))
  }

  lemma NoneRebucketed(e: Env, d: Disk, b: Book)
    requires JustRead(d, b)
    ensures Rebucketed(e, d, b, [], b)
  {
  }

  /** The slot of a listed entry, as the reader computes it. */
  lemma SlotIs(e: Env, d: Disk, b: Book, ls: seq<int>, c: Book, x: int)
    requires Rebucketed(e, d, b, ls, c) && 0 <= x < |d.newInfos|
    ensures Id(x) in c.info && Ops.OwnNewSlot(e, c, Id(x)) == SlotOf(e, d, x)
    ensures c.info[Id(x)].service == d.newInfos[x].service && c.info[Id(x)].refCount <= 1
  {
    hide Taken; hide Wins; hide NewSlot;
    assert NewAs(d.newInfos[x], b.info[Id(x)]) && ListedOnce(e, d, ls, c, x);
  }

  /** What one listing does. */
  lemma PlacedIs(e: Env, d: Disk, b: Book, ls: seq<int>, c: Book, bucket: nat, x: int)
    requires Rebucketed(e, d, b, ls, c)
    ensures Listable(e, d, x) ==> Id(x) in c.info
    ensures Placed(e, c, bucket, x, |d.newInfos|, false)
         == if Listable(e, d, x) && !Taken(e, d, ls, SlotOf(e, d, x)) then Ref(c, SlotOf(e, d, x), Id(x)) else c
  {
    if 0 <= x < |d.newInfos| {
      SlotIs(e, d, b, ls, c, x);
      hide Wins; hide NewSlot; hide SlotOf; hide ListedOnce;
    }
  }

  lemma Skipped(e: Env, d: Disk, b: Book, ls: seq<int>, c: Book, x: int)
    requires Rebucketed(e, d, b, ls, c) && (Listable(e, d, x) ==> Taken(e, d, ls, SlotOf(e, d, x)))
    ensures Rebucketed(e, d, b, ls + [x], c)
  {
    hide Taken; hide Wins; hide SlotOf;
    forall s ensures Taken(e, d, ls + [x], s) <==> Taken(e, d, ls, s) { TakenAppend(e, d, ls, x, s); }
    forall k ensures Wins(e, d, ls + [x], k) <==> Wins(e, d, ls, k) { WinsAppend(e, d, ls, x, k); }
    forall k | 0 <= k < |d.newInfos| ensures ListedOnce(e, d, ls + [x], c, k) { assert ListedOnce(e, d, ls, c, k); }
  }

  lemma Added(e: Env, d: Disk, b: Book, ls: seq<int>, c: Book, x: int)
    requires Rebucketed(e, d, b, ls, c) && Listable(e, d, x) && !Taken(e, d, ls, SlotOf(e, d, x)) && Id(x) in c.info
    ensures Rebucketed(e, d, b, ls + [x], Ref(c, SlotOf(e, d, x), Id(x)))
  {
    hide Taken; hide Wins; hide SlotOf; hide NewAs; hide ListedOnce;
    var t := SlotOf(e, d, x);
    forall s ensures Taken(e, d, ls + [x], s) <==> Taken(e, d, ls, s) || s == t { TakenAppend(e, d, ls, x, s); }
    forall k ensures Wins(e, d, ls + [x], k) <==> Wins(e, d, ls, k) || k == x { WinsAppend(e, d, ls, x, k); }
    forall k | 0 <= k < |d.newInfos| ensures ListedOnce(e, d, ls + [x], Ref(c, t, Id(x)), k) {
      AddedOnce(e, d, b, ls, c, x, k);
    }
  }

  lemma AddedOnce(e: Env, d: Disk, b: Book, ls: seq<int>, c: Book, x: int, k: nat)
    requires Rebucketed(e, d, b, ls, c) && Listable(e, d, x) && !Taken(e, d, ls, SlotOf(e, d, x)) && Id(x) in c.info
    requires k < |d.newInfos|
    ensures ListedOnce(e, d, ls + [x], Ref(c, SlotOf(e, d, x), Id(x)), k)
  {
    hide Taken; hide Wins; hide SlotOf; hide NewAs;
    WinsAppend(e, d, ls, x, k);
    assert ListedOnce(e, d, ls, c, x) && ListedOnce(e, d, ls, c, k);
  }

  lemma Rebucket(e: Env, d: Disk, b: Book, ls: seq<int>, c: Book, bucket: nat, x: int)
    requires Rebucketed(e, d, b, ls, c)
    ensures Rebucketed(e, d, b, ls + [x], Placed(e, c, bucket, x, |d.newInfos|, false))
  {
    hide Rebucketed; hide Placed; hide Taken; hide SlotOf; hide Ref;
    PlacedIs(e, d, b, ls, c, bucket, x);
    if Listable(e, d, x) && !Taken(e, d, ls, SlotOf(e, d, x)) {
      Added(e, d, b, ls, c, x);
    } else {
      Skipped(e, d, b, ls, c, x);
    }
  }

  lemma {:induction false} RebucketBucket(e: Env, d: Disk, b: Book, ls: seq<int>, c: Book, bucket: nat, xs: seq<int>)
    requires Rebucketed(e, d, b, ls, c)
    ensures Rebucketed(e, d, b, ls + xs, PlacedBucket(e, c, bucket, xs, |d.newInfos|, false))
    decreases |xs|
  {
    hide Rebucketed; hide Placed;
    if xs == [] {
      assert ls + xs == ls;
    } else {
      Rebucket(e, d, b, ls, c, bucket, xs[0]);
      RebucketBucket(e, d, b, ls + [xs[0]], Placed(e, c, bucket, xs[0], |d.newInfos|, false), bucket, xs[1..]);
      Shift(ls, xs);
    }
  }

  lemma {:induction false} RebucketAll(e: Env, d: Disk, b: Book, ls: seq<int>, c: Book, bucket: nat,
                                       entries: seq<seq<int>>)
    requires Rebucketed(e, d, b, ls, c)
    ensures Rebucketed(e, d, b, ls + Listings(entries), PlacedAll(e, c, bucket, entries, |d.newInfos|, false))
    decreases |entries|
  {
    hide Rebucketed; hide PlacedBucket;
    if entries == [] {
      assert ls + [] == ls;
    } else {
      RebucketBucket(e, d, b, ls, c, bucket, entries[0]);
      RebucketAll(e, d, b, ls + entries[0], PlacedBucket(e, c, bucket, entries[0], |d.newInfos|, false), bucket + 1,
                  entries[1..]);
      Assoc(ls, entries[0], Listings(entries[1..]));
    }
  }

  // ---- what is left ----

  /** Entries are removed, and others may change their place in the order. */
  ghost predicate Fewer(b: Book, c: Book, ids: set<Id>) {
    && c.newT == b.newT && c.triedT == b.triedT && c.key == b.key
    && c.info.Keys <= b.info.Keys && b.info.Keys - ids <= c.info.Keys
    && forall j | j in c.info :: c.info[j] == b.info[j].(randomPos := c.info[j].randomPos)
  }

  lemma DeletedFewer(e: Env, b: Book, id: Id)
    requires CanDrop(b, id)
    ensures Fewer(b, Deleted(e, b, id), {id})
  {
    hide Bumped;
  }

  lemma {:induction false} PrunedFewer(e: Env, b: Book, ids: set<Id>)
    ensures Fewer(b, Pruned(e, b, ids), ids)
    decreases |ids|
  {
    if ids != {} {
      hide Deleted; hide CanDrop;
      var id := Ops.Least(ids);
      var c := if CanDrop(b, id) then Deleted(e, b, id) else b;
      if CanDrop(b, id) { DeletedFewer(e, b, id); }
      PrunedFewer(e, c, ids - {id});
    }
  }

  /** What is left of a record that has been read anew. */
  ghost predicate Rebuilt(e: Env, d: Disk, b: Book) {
    && (forall s | s in b.newT :: b.newT[s] in b.info && s == Ops.OwnNewSlot(e, b, b.newT[s]))
    && (forall id | id in b.info && !b.info[id].inTried ::
          0 <= id.n < |d.newInfos| && NewAs(d.newInfos[id.n], b.info[id]) && b.info[id].refCount == 1)
    && (forall k | 0 <= k < |d.newInfos| :: Id(k) in b.info <==> Wins(e, d, Listings(d.entries), k))
  }

  /** A new entry that is left is a winner, and listed once. */
  lemma EntryLeft(e: Env, d: Disk, b2: Book, ls: seq<int>, b3: Book, b: Book, id: Id)
    requires Rebucketed(e, d, b2, ls, b3) && Fewer(b3, b, Nowhere(b3)) && TablesOk(e, b, {})
    requires id in b.info && !b.info[id].inTried
    ensures 0 <= id.n < |d.newInfos| && NewAs(d.newInfos[id.n], b.info[id]) && b.info[id].refCount == 1
    ensures Wins(e, d, ls, id.n)
  {
    hide Taken; hide Wins; hide SlotOf;
    assert EntryOk(e, b, id, {});
    hide TablesOk;
    var k := id.n;
    assert id == Id(k);
    assert NewAs(d.newInfos[k], b2.info[id]) && ListedOnce(e, d, ls, b3, k);
  }

  /** A winner is left. */
  lemma WinnerLeft(e: Env, d: Disk, b2: Book, ls: seq<int>, b3: Book, b: Book, k: nat)
    requires Rebucketed(e, d, b2, ls, b3) && Fewer(b3, b, Nowhere(b3)) && k < |d.newInfos| && Wins(e, d, ls, k)
    ensures Id(k) in b.info && !b.info[Id(k)].inTried
  {
    hide Taken; hide Wins; hide SlotOf;
    assert NewAs(d.newInfos[k], b2.info[Id(k)]) && ListedOnce(e, d, ls, b3, k);
  }

  lemma SlotLeft(e: Env, d: Disk, b2: Book, ls: seq<int>, b3: Book, b: Book, s: Slot)
    requires Rebucketed(e, d, b2, ls, b3) && Fewer(b3, b, Nowhere(b3)) && s in b.newT
    ensures b.newT[s] in b.info && s == Ops.OwnNewSlot(e, b, b.newT[s])
  {
    hide Taken; hide NewSlot;
    var k := b.newT[s].n;
    assert b.newT[s] == Id(k) && Wins(e, d, ls, k);
    WinnerLeft(e, d, b2, ls, b3, b, k);
    assert NewAs(d.newInfos[k], b2.info[Id(k)]);
  }

  lemma LeftOver(e: Env, d: Disk, b2: Book, b3: Book, b: Book)
    requires Rebucketed(e, d, b2, Listings(d.entries), b3) && Fewer(b3, b, Nowhere(b3)) && TablesOk(e, b, {})
    ensures Rebuilt(e, d, b)
  {
    hide Rebucketed; hide Fewer; hide TablesOk; hide Wins; hide NewSlot; hide Listings; hide NewAs; hide Nowhere;
    var ls := Listings(d.entries);
    StillNew(e, d, b2, ls, b3, b);
    forall s | s in b.newT ensures b.newT[s] in b.info && s == Ops.OwnNewSlot(e, b, b.newT[s]) {
      SlotLeft(e, d, b2, ls, b3, b, s);
    }
    forall id | id in b.info && !b.info[id].inTried
      ensures 0 <= id.n < |d.newInfos| && NewAs(d.newInfos[id.n], b.info[id]) && b.info[id].refCount == 1
    {
      EntryLeft(e, d, b2, ls, b3, b, id);
    }
    forall k | 0 <= k < |d.newInfos| ensures Id(k) in b.info <==> Wins(e, d, ls, k) {
      if Wins(e, d, ls, k) { WinnerLeft(e, d, b2, ls, b3, b, k); }
      if Id(k) in b.info { EntryLeft(e, d, b2, ls, b3, b, Id(k)); }
    }
  }

  lemma StillNew(e: Env, d: Disk, b2: Book, ls: seq<int>, b3: Book, b: Book)
    requires Rebucketed(e, d, b2, ls, b3) && Fewer(b3, b, Nowhere(b3))
    ensures forall k | 0 <= k < |d.newInfos| && Id(k) in b.info :: !b.info[Id(k)].inTried
  {
    hide Taken; hide Wins; hide SlotOf; hide ListedOnce;
    forall k | 0 <= k < |d.newInfos| && Id(k) in b.info ensures !b.info[Id(k)].inTried {
      assert NewAs(d.newInfos[k], b2.info[Id(k)]);
    }
  }

  /** If the number of buckets or the grouping has changed since a record was written, every new
      entry that is read is in the one slot that its source selects, and the entries that are left
      are those that are listed before every other valid one that selects the same slot. */
  lemma Rebuckets(e: Env, d: Disk, checksum: nat)
    requires BucketCount(d) != NEW_BUCKET_COUNT || StoredChecksum(d) != checksum
    requires Unserialized(e, d, checksum).Ok?
    ensures Rebuilt(e, d, Unserialized(e, d, checksum).book)
  {
    hide AllNew; hide AllTried; hide PlacedAll; hide Pruned; hide Rebucketed; hide Fewer; hide Rebuilt; hide Nowhere;
    hide Flipped; hide JustRead; hide Listings; hide AddrCheck.Checked; hide TablesOk; hide Ops.Empty;
    var b1 := AllNew(e, Ops.Empty(d.key), d.newInfos);
    AllJustRead(e, d);
    var b2 := AllTried(e, b1, d.triedInfos);
    TriedJustRead(e, d, b1, d.triedInfos);
    NoneRebucketed(e, d, b2);
    RebucketAll(e, d, b2, [], b2, 0, d.entries);
    assert [] + Listings(d.entries) == Listings(d.entries);
    var b3 := PlacedAll(e, b2, 0, d.entries, |d.newInfos|, false);
    PrunedFewer(e, b3, Nowhere(b3));
    var b := Pruned(e, b3, Nowhere(b3));
    CheckedTables(e, b);
    LeftOver(e, d, b2, b3, b);
  }

  lemma CheckedTables(e: Env, b: Book)
    ensures AddrCheck.Checked(e, b) ==> TablesOk(e, b, {})
  {
  }

  lemma AllJustRead(e: Env, d: Disk)
    ensures JustRead(d, AllNew(e, Ops.Empty(d.key), d.newInfos))
  {
    NewJustRead(e, d, |d.newInfos|);
    assert d.newInfos[..|d.newInfos|] == d.newInfos;
  }

  // ---- tried entries, whatever the buckets ----

  /** Tried entry h of a record is valid and selects slot s. */
  predicate Selects(e: Env, key: nat, ds: seq<DiskInfo>, h: nat, s: Slot)
    requires h < |ds|
  {
    e.valid(ds[h].service.ip) && TriedSlot(e, key, ds[h].service) == s
  }

  /** Entry h is the first one that does. */
  predicate SelectsFirst(e: Env, key: nat, ds: seq<DiskInfo>, h: nat, s: Slot)
    requires h < |ds|
  {
    Selects(e, key, ds, h, s) && forall g | 0 <= g < h :: !Selects(e, key, ds, g, s)
  }

  /** The tried table holds, for every slot, the first of the first n entries that selects it. */
  ghost predicate TriedRead(e: Env, ds: seq<DiskInfo>, n: nat, b: Book)
    requires n <= |ds|
  {
    && (forall h, s | 0 <= h < n && Selects(e, b.key, ds, h, s) :: s in b.triedT)
    && (forall s | s in b.triedT :: SlotRead(e, ds, n, b, s))
  }

  ghost predicate SlotRead(e: Env, ds: seq<DiskInfo>, n: nat, b: Book, s: Slot)
    requires n <= |ds| && s in b.triedT
  {
    && b.triedT[s] in b.info && b.info[b.triedT[s]].inTried
    && exists h :: 0 <= h < n && SelectsFirst(e, b.key, ds, h, s) && Written(b.info[b.triedT[s]]) == ds[h]
  }

  lemma SlotReadFollows(e: Env, ds: seq<DiskInfo>, n: nat, b: Book, m: nat, c: Book, s: Slot)
    requires n <= m <= |ds| && s in b.triedT && SlotRead(e, ds, n, b, s) && c.key == b.key
    requires s in c.triedT && c.triedT[s] == b.triedT[s] && b.triedT[s] in c.info
    requires Written(c.info[b.triedT[s]]) == Written(b.info[b.triedT[s]]) && c.info[b.triedT[s]].inTried
    ensures SlotRead(e, ds, m, c, s)
  {
    var h :| 0 <= h < n && SelectsFirst(e, b.key, ds, h, s) && Written(b.info[b.triedT[s]]) == ds[h];
    assert SelectsFirst(e, c.key, ds, h, s);
  }

  lemma WithTriedRead(e: Env, ds: seq<DiskInfo>, n: nat, b: Book)
    requires n < |ds| && TriedRead(e, ds, n, b) && NextId(b) !in b.info
    ensures var c := WithTried(e, b, ds[n]);
            TriedRead(e, ds, n + 1, c) && c.key == b.key && forall id | id in c.info :: id in b.info || id == NextId(b)
  {
    hide Bumped; hide TriedSlot; hide SelectsFirst; hide Position; hide SlotRead;
    var c, s := WithTried(e, b, ds[n]), TriedSlot(e, b.key, ds[n].service);
    forall t | t in b.triedT ensures SlotRead(e, ds, n + 1, c, t) {
      HolderThere(e, ds, n, b, t);
      SlotReadFollows(e, ds, n, b, n + 1, c, t);
    }
    if c != b {
      NewRead(e, ds, n, b, s);
    }
  }

  lemma HolderThere(e: Env, ds: seq<DiskInfo>, n: nat, b: Book, s: Slot)
    requires n <= |ds| && s in b.triedT && SlotRead(e, ds, n, b, s)
    ensures b.triedT[s] in b.info && b.info[b.triedT[s]].inTried
  {
  }

  lemma NewRead(e: Env, ds: seq<DiskInfo>, n: nat, b: Book, s: Slot)
    requires n < |ds| && TriedRead(e, ds, n, b) && Selects(e, b.key, ds, n, s) && s !in b.triedT
    ensures SlotRead(e, ds, n + 1, WithTried(e, b, ds[n]), s)
  {
    hide Bumped; hide TriedSlot; hide Position;
    assert SelectsFirst(e, b.key, ds, n, s);
  }

  lemma {:induction false} AllTriedRead(e: Env, b: Book, ds: seq<DiskInfo>, n: nat)
    requires n <= |ds| && b.triedT == map[] && forall id | id in b.info :: id.n < b.idCount
    ensures var c := AllTried(e, b, ds[..n]);
            TriedRead(e, ds, n, c) && c.key == b.key && forall id | id in c.info :: id.n < c.idCount
    decreases n
  {
    if n > 0 {
      hide TriedRead;
      AllTriedRead(e, b, ds, n - 1);
      assert ds[..n][..n - 1] == ds[..n - 1];
      var c := AllTried(e, b, ds[..n - 1]);
      WithTriedRead(e, ds, n - 1, c);
      hide Bumped; hide TriedSlot;
    }
  }

  /** Placing listings changes nothing but the new table and the numbers of slots. */
  ghost predicate OnlyListed(b: Book, c: Book) {
    && c.triedT == b.triedT && c.key == b.key && c.info.Keys == b.info.Keys
    && forall id | id in c.info :: c.info[id] == b.info[id].(refCount := c.info[id].refCount)
  }

  lemma PlacedOnly(e: Env, b: Book, bucket: nat, x: int, nNew: nat, restore: bool)
    ensures OnlyListed(b, Placed(e, b, bucket, x, nNew, restore))
  {
    hide Position; hide NewSlot;
  }

  lemma OnlyListedOn(b: Book, c: Book, d: Book)
    requires OnlyListed(b, c) && OnlyListed(c, d)
    ensures OnlyListed(b, d)
  {
  }

  lemma {:induction false} PlacedBucketOnly(e: Env, b: Book, bucket: nat, xs: seq<int>, nNew: nat, restore: bool)
    ensures OnlyListed(b, PlacedBucket(e, b, bucket, xs, nNew, restore))
    decreases |xs|
  {
    if xs != [] {
      hide OnlyListed; hide Placed;
      var c := Placed(e, b, bucket, xs[0], nNew, restore);
      PlacedOnly(e, b, bucket, xs[0], nNew, restore);
      PlacedBucketOnly(e, c, bucket, xs[1..], nNew, restore);
      OnlyListedOn(b, c, PlacedBucket(e, c, bucket, xs[1..], nNew, restore));
    }
  }

  lemma {:induction false} PlacedAllOnly(e: Env, b: Book, bucket: nat, xs: seq<seq<int>>, nNew: nat, restore: bool)
    ensures OnlyListed(b, PlacedAll(e, b, bucket, xs, nNew, restore))
    decreases |xs|
  {
    if xs != [] {
      hide OnlyListed; hide PlacedBucket;
      var c := PlacedBucket(e, b, bucket, xs[0], nNew, restore);
      PlacedBucketOnly(e, b, bucket, xs[0], nNew, restore);
      PlacedAllOnly(e, c, bucket + 1, xs[1..], nNew, restore);
      OnlyListedOn(b, c, PlacedAll(e, c, bucket + 1, xs[1..], nNew, restore));
    }
  }

  lemma TriedReadFollows(e: Env, ds: seq<DiskInfo>, b: Book, c: Book, b': Book)
    requires TriedRead(e, ds, |ds|, b) && OnlyListed(b, c) && Fewer(c, b', Nowhere(c))
    ensures TriedRead(e, ds, |ds|, b')
  {
    hide TriedSlot; hide Selects; hide SelectsFirst; hide SlotRead;
    forall s | s in b'.triedT ensures SlotRead(e, ds, |ds|, b', s) {
      HolderThere(e, ds, |ds|, b, s);
      SlotReadFollows(e, ds, |ds|, b, |ds|, b', s);
    }
  }

  /** Whatever record is read: the tried slots that any of its valid tried entries selects are taken,
      each by the first such entry, and no others. */
  lemma TriedAreRead(e: Env, d: Disk, checksum: nat)
    requires Unserialized(e, d, checksum).Ok?
    ensures TriedRead(e, d.triedInfos, |d.triedInfos|, Unserialized(e, d, checksum).book)
  {
    hide AllNew; hide AllTried; hide PlacedAll; hide Pruned; hide Fewer; hide Nowhere; hide Flipped;
    hide OnlyListed; hide TriedRead; hide AddrCheck.Checked; hide Ops.Empty;
    var b1 := AllNew(e, Ops.Empty(d.key), d.newInfos);
    NewUntried(e, d, |d.newInfos|);
    assert d.newInfos[..|d.newInfos|] == d.newInfos && d.triedInfos[..|d.triedInfos|] == d.triedInfos;
    AllTriedRead(e, b1, d.triedInfos, |d.triedInfos|);
    var b2 := AllTried(e, b1, d.triedInfos);
    var restore := BucketCount(d) == NEW_BUCKET_COUNT && StoredChecksum(d) == checksum;
    var b3 := PlacedAll(e, b2, 0, d.entries, |d.newInfos|, restore);
    PlacedAllOnly(e, b2, 0, d.entries, |d.newInfos|, restore);
    PrunedFewer(e, b3, Nowhere(b3));
    TriedReadFollows(e, d.triedInfos, b2, b3, Pruned(e, b3, Nowhere(b3)));
  }

  lemma {:induction false} NewUntried(e: Env, d: Disk, n: nat)
    requires n <= |d.newInfos|
    ensures var b := AllNew(e, Ops.Empty(d.key), d.newInfos[..n]);
            b.triedT == map[] && forall id | id in b.info :: id.n < b.idCount
    decreases n
  {
    if n > 0 {
      NewUntried(e, d, n - 1);
      assert d.newInfos[..n][..n - 1] == d.newInfos[..n - 1];
      hide Bumped;
    }
  }
}
