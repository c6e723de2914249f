/** The address manager on disk: what is written, how it is read back, and that a book comes back
    with every entry in its place. */
module AddrDisk {
  import opened AddrBook
  import Ops = AddrOps
  import AddrCheck

  // ---- the record ----

  /** The part of an entry that is written. */
  datatype DiskInfo = DiskInfo(
    service: Service, time: int, services: set<nat>, source: NetAddr, lastSuccess: int, attempts: int)

  datatype Disk = Disk(
    format: nat, compat: nat, key: nat, buckets: nat,
    newInfos: seq<DiskInfo>, triedInfos: seq<DiskInfo>, entries: seq<seq<int>>, checksum: nat)

  const FILE_FORMAT := 4
  const INCOMPATIBILITY_BASE := 32
  const BIT_30 := 0x4000_0000

  /** Exclusive or with 2^30. */
  function Flipped(n: nat): nat { if n / BIT_30 % 2 == 1 then n - BIT_30 else n + BIT_30 }

  function Written(i: AddrInfo): DiskInfo {
    DiskInfo(i.service, i.time, i.services, i.source, i.lastSuccess, i.attempts)
  }

  /** An entry as it is read: what is not written starts afresh. */
  function ReadInfo(d: DiskInfo, pos: int): AddrInfo {
    AddrInfo(d.service, d.time, d.services, d.source, 0, 0, d.lastSuccess, d.attempts, 0, false, pos)
  }

  // ---- writing ----

  /** The entries of one table, in the order in which the map lists them. */
  function Listed(b: Book, order: seq<Id>, tried: bool): seq<Id>
    decreases |order|
  {
    if order == [] then []
    else
      var rest, id := Listed(b, order[..|order| - 1], tried), order[|order| - 1];
      if id in b.info && (if tried then b.info[id].inTried else b.info[id].refCount != 0) then rest + [id] else rest
  }

  function IndexOf(s: seq<Id>, x: Id): (i: nat)
    ensures x in s ==> i < |s| && s[i] == x
    decreases |s|
  {
    if s == [] then 0 else if s[0] == x then 0 else 1 + IndexOf(s[1..], x)
  }

  function Infos(b: Book, ids: seq<Id>): seq<DiskInfo>
    requires forall k | 0 <= k < |ids| :: ids[k] in b.info
  {
    seq(|ids|, k requires 0 <= k < |ids| => Written(b.info[ids[k]]))
  }

  /** The entries of a bucket from a position on, as places in the list of new entries. */
  function BucketFrom(b: Book, ids: seq<Id>, bucket: nat, i: nat): seq<int>
    decreases BUCKET_SIZE - i
  {
    if i >= BUCKET_SIZE then []
    else if Slot(bucket, i) in b.newT then [IndexOf(ids, b.newT[Slot(bucket, i)])] + BucketFrom(b, ids, bucket, i + 1)
    else BucketFrom(b, ids, bucket, i + 1)
  }

  function BucketsFrom(b: Book, ids: seq<Id>, bucket: nat): seq<seq<int>>
    decreases NEW_BUCKET_COUNT - bucket
  {
    if bucket >= NEW_BUCKET_COUNT then [] else [BucketFrom(b, ids, bucket, 0)] + BucketsFrom(b, ids, bucket + 1)
  }

  lemma {:induction false} ListedIsIn(b: Book, order: seq<Id>, tried: bool)
    ensures forall k | 0 <= k < |Listed(b, order, tried)| :: Listed(b, order, tried)[k] in b.info
    decreases |order|
  {
    if order != [] {
      ListedIsIn(b, order[..|order| - 1], tried);
    }
  }

  function Serialized(b: Book, order: seq<Id>, checksum: nat): Disk {
    var ns, ts := Listed(b, order, false), Listed(b, order, true);
    ListedIsIn(b, order, false);
    ListedIsIn(b, order, true);
    Disk(FILE_FORMAT, INCOMPATIBILITY_BASE + 4, b.key, Flipped(NEW_BUCKET_COUNT),
         Infos(b, ns), Infos(b, ts), BucketsFrom(b, ns, 0), checksum)
  }

  // ---- reading ----

  /** One more new entry, which no bucket holds yet. */
  function WithNew(e: Env, b: Book, d: DiskInfo): Book {
    Bump(b.(idCount := b.idCount + 1,
            info := b.info[NextId(b) := ReadInfo(d, |b.random|)],
            addr := b.addr[d.service := NextId(b)],
            random := b.random + [NextId(b)]),
         e.network(d.service.ip), false, 1)
  }

  /** One more tried entry; it is lost if it is not valid or its place is taken. */
  function WithTried(e: Env, b: Book, d: DiskInfo): Book {
    var s := TriedSlot(e, b.key, d.service);
    if !e.valid(d.service.ip) || s in b.triedT then b
    else
      Bump(b.(idCount := b.idCount + 1,
              info := b.info[NextId(b) := ReadInfo(d, |b.random|).(inTried := true)],
              addr := b.addr[d.service := NextId(b)],
              random := b.random + [NextId(b)],
              triedT := b.triedT[s := NextId(b)]),
           e.network(d.service.ip), true, 1)
  }

  function AllNew(e: Env, b: Book, ds: seq<DiskInfo>): Book
    decreases |ds|
  {
    if ds == [] then b else WithNew(e, AllNew(e, b, ds[..|ds| - 1]), ds[|ds| - 1])
  }

  function AllTried(e: Env, b: Book, ds: seq<DiskInfo>): Book
    decreases |ds|
  {
    if ds == [] then b else WithTried(e, AllTried(e, b, ds[..|ds| - 1]), ds[|ds| - 1])
  }

  /** One listing of a new entry: at its old position if that can be, and otherwise at the one that
      its source selects, if that is free. */
  function Placed(e: Env, b: Book, bucket: nat, index: int, nNew: nat, restore: bool): Book {
    var id := Id(index);
    if !(0 <= index < nNew) || id !in b.info || !e.valid(b.info[id].service.ip)
       || b.info[id].refCount >= NEW_BUCKETS_PER_ADDRESS then b
    else
      var s := Slot(bucket, Position(e, b.key, true, bucket, b.info[id].service));
      if restore && s !in b.newT then Ref(b, s, id)
      else if Ops.OwnNewSlot(e, b, id) !in b.newT then Ref(b, Ops.OwnNewSlot(e, b, id), id)
      else b
  }

  function PlacedBucket(e: Env, b: Book, bucket: nat, entries: seq<int>, nNew: nat, restore: bool): Book
    decreases |entries|
  {
    if entries == [] then b
    else PlacedBucket(e, Placed(e, b, bucket, entries[0], nNew, restore), bucket, entries[1..], nNew, restore)
  }

  function PlacedAll(e: Env, b: Book, bucket: nat, entries: seq<seq<int>>, nNew: nat, restore: bool): Book
    decreases |entries|
  {
    if entries == [] then b
    else PlacedAll(e, PlacedBucket(e, b, bucket, entries[0], nNew, restore), bucket + 1, entries[1..], nNew, restore)
  }

  /** The entries that ended up nowhere. */
  ghost function Nowhere(b: Book): set<Id> {
    set id | id in b.info && !b.info[id].inTried && b.info[id].refCount == 0
  }

  ghost function Pruned(e: Env, b: Book, ids: set<Id>): Book
    decreases |ids|
  {
    if ids == {} then b
    else
      var id := Ops.Least(ids);
      Pruned(e, if CanDrop(b, id) then Deleted(e, b, id) else b, ids - {id})
  }

  datatype Loaded = Failed | Ok(book: Book)

  /** Reading a record into a fresh address manager. */
  ghost function Unserialized(e: Env, d: Disk, checksum: nat): Loaded {
    var buckets := if d.format >= 1 then Flipped(d.buckets) else d.buckets;
    if d.compat < INCOMPATIBILITY_BASE || d.compat - INCOMPATIBILITY_BASE > FILE_FORMAT then Failed
    else if |d.newInfos| > NEW_BUCKET_COUNT * BUCKET_SIZE
        || |d.triedInfos| > TRIED_BUCKET_COUNT * BUCKET_SIZE then Failed
    else
      var b1 := AllNew(e, Ops.Empty(d.key), d.newInfos);
      var b2 := AllTried(e, b1, d.triedInfos);
      var restore := buckets == NEW_BUCKET_COUNT && (if d.format >= 2 then d.checksum else 0) == checksum;
      var b3 := PlacedAll(e, b2, 0, d.entries, |d.newInfos|, restore);
      var b4 := Pruned(e, b3, Nowhere(b3));
      if AddrCheck.Checked(e, b4) then Ok(b4) else Failed
  }

  // ---- what comes back ----

  /** An order in which the map may list the entries. */
  ghost predicate IsOrder(b: Book, order: seq<Id>) {
    AddrCheck.Distinct(order) && AddrCheck.Elements(order) == b.info.Keys
  }

  /** What a list of one kind of entries is: each of them once. */
  ghost predicate Lists(b: Book, ids: seq<Id>, tried: bool) {
    && AddrCheck.Distinct(ids)
    && (forall k | 0 <= k < |ids| :: ids[k] in b.info && b.info[ids[k]].inTried == tried)
    && (forall id | id in b.info && b.info[id].inTried == tried :: id in ids)
  }

  lemma {:induction false} ListedElements(b: Book, order: seq<Id>, tried: bool)
    requires AddrCheck.Distinct(order)
    ensures AddrCheck.Distinct(Listed(b, order, tried))
    ensures forall id :: id in Listed(b, order, tried) <==>
              id in order && id in b.info && (if tried then b.info[id].inTried else b.info[id].refCount != 0)
    decreases |order|
  {
    if order != [] {
      var n := |order| - 1;
      ListedElements(b, order[..n], tried);
      assert order == order[..n] + [order[n]];
    }
  }

  lemma ListsOfBook(e: Env, b: Book, order: seq<Id>, tried: bool)
    requires TablesOk(e, b, {}) && IsOrder(b, order)
    ensures Lists(b, Listed(b, order, tried), tried)
  {
    ListedElements(b, order, tried);
    forall id | id in b.info
      ensures id in order && (b.info[id].refCount != 0 <==> !b.info[id].inTried)
    {
      assert id in AddrCheck.Elements(order);
      assert EntryOk(e, b, id, {});
    }
  }

  ghost function FirstIds(n: nat): set<Id> { set k | 0 <= k < n :: Id(k) }

  lemma FirstIdsNext(n: nat)
    ensures FirstIds(n + 1) == FirstIds(n) + {Id(n)} && Id(n) !in FirstIds(n)
  {
  }

  /** Entry k of a list as it comes back at a place. */
  function Back(b: Book, ids: seq<Id>, k: nat, pos: int): AddrInfo
    requires k < |ids| && ids[k] in b.info
  {
    ReadInfo(Written(b.info[ids[k]]), pos)
  }

  // ---- new entries ----

  /** The first n new entries are back, and nothing else. */
  ghost predicate NewLoaded(e: Env, b: Book, ns: seq<Id>, n: nat, c: Book) {
    && n <= |ns| && Lists(b, ns, false)
    && c.key == b.key && c.idCount == n && |c.random| == n && c.newT == map[] && c.triedT == map[] && c.collisions == {}
    && (forall id :: id in c.info <==> 0 <= id.n < n)
    && (forall k | 0 <= k < n :: c.info[Id(k)] == Back(b, ns, k, k))
  }

  /** Reading a new entry is creating it and setting what is known about it. */
  lemma WithNewIs(e: Env, c: Book, d: DiskInfo)
    ensures var a := Address(d.service, d.time, d.services);
            WithNew(e, c, d) == Ops.Touch(Created(e, c, a, d.source), NextId(c), ReadInfo(d, |c.random|))
  {
  }

  lemma WithNewKeeps(e: Env, c: Book, d: DiskInfo, limbo: set<Id>)
    requires Almost(e, c, limbo, {}) && d.service !in c.addr && e.Routable(d.service.ip) && d.lastSuccess >= 0
    ensures Almost(e, WithNew(e, c, d), limbo + {NextId(c)}, {})
  {
    var a := Address(d.service, d.time, d.services);
    WithNewIs(e, c, d);
    hide Almost; hide WithNew;
    CreatedKeeps(e, c, a, d.source, limbo, {});
    assert Created(e, c, a, d.source).info[NextId(c)] == Fresh(c, a, d.source);
    Ops.TouchKeeps(e, Created(e, c, a, d.source), NextId(c), ReadInfo(d, |c.random|), limbo + {NextId(c)}, {});
  }

  /** Addresses that belong to different entries are different. */
  lemma ServicesDiffer(e: Env, b: Book, i: Id, j: Id)
    requires AddressesOk(e, b) && i in b.info && j in b.info && i != j
    ensures b.info[i].service != b.info[j].service && e.Routable(b.info[i].service.ip)
  {
    assert IdOk(e, b, i) && IdOk(e, b, j);
  }

  lemma NewIsFresh(e: Env, b: Book, ns: seq<Id>, n: nat, c: Book)
    requires AddressesOk(e, b) && NewLoaded(e, b, ns, n, c) && n < |ns| && AddressesOk(e, c)
    ensures b.info[ns[n]].service !in c.addr && e.Routable(b.info[ns[n]].service.ip)
  {
    var s := b.info[ns[n]].service;
    assert IdOk(e, b, ns[n]);
    forall id | id in c.info ensures c.info[id].service != s {
      assert id == Id(id.n);
      ServicesDiffer(e, b, ns[id.n], ns[n]);
    }
    assert s in c.addr ==> ServiceOk(c, s);
  }

  lemma NewLoadedNext(e: Env, b: Book, ns: seq<Id>, n: nat, c: Book)
    requires Consistent(e, b) && NewLoaded(e, b, ns, n, c) && n < |ns| && Almost(e, c, FirstIds(n), {})
    ensures var c' := WithNew(e, c, Written(b.info[ns[n]]));
            NewLoaded(e, b, ns, n + 1, c') && Almost(e, c', FirstIds(n + 1), {})
  {
    hide TablesOk; hide AddressesOk; hide OrderOk; hide TalliesOk;
    NewIsFresh(e, b, ns, n, c);
    WithNewKeeps(e, c, Written(b.info[ns[n]]), FirstIds(n));
    FirstIdsNext(n);
  }

  lemma NoneLoaded(e: Env, b: Book, ns: seq<Id>)
    requires Consistent(e, b) && Lists(b, ns, false)
    ensures NewLoaded(e, b, ns, 0, Ops.Empty(b.key)) && Almost(e, Ops.Empty(b.key), FirstIds(0), {})
  {
    Ops.EmptyConsistent(e, b.key);
    assert FirstIds(0) == {};
  }

  lemma {:induction false} NewLoadedAll(e: Env, b: Book, ns: seq<Id>, n: nat)
    requires Consistent(e, b) && Lists(b, ns, false) && n <= |ns|
    ensures var c := AllNew(e, Ops.Empty(b.key), Infos(b, ns)[..n]);
            NewLoaded(e, b, ns, n, c) && Almost(e, c, FirstIds(n), {})
    decreases n
  {
    hide Consistent; hide Almost; hide WithNew; hide NewLoaded;
    if n == 0 {
      NoneLoaded(e, b, ns);
    } else {
      NewLoadedAll(e, b, ns, n - 1);
      var ds := Infos(b, ns);
      assert ds[..n][..n - 1] == ds[..n - 1];
      NewLoadedNext(e, b, ns, n - 1, AllNew(e, Ops.Empty(b.key), ds[..n - 1]));
    }
  }

  // ---- tried entries ----

  /** All new and the first t tried entries are back; the latter are in their places. */
  ghost predicate TriedLoaded(e: Env, b: Book, ns: seq<Id>, ts: seq<Id>, t: nat, c: Book) {
    && t <= |ts| && Lists(b, ns, false) && Lists(b, ts, true)
    && c.key == b.key && c.idCount == |ns| + t && |c.random| == |ns| + t && c.newT == map[] && c.collisions == {}
    && (forall id :: id in c.info <==> 0 <= id.n < |ns| + t)
    && (forall k | 0 <= k < |ns| :: c.info[Id(k)] == Back(b, ns, k, k))
    && (forall k | 0 <= k < t :: TriedBack(e, b, ns, ts, k, c))
  }

  ghost predicate TriedBack(e: Env, b: Book, ns: seq<Id>, ts: seq<Id>, k: nat, c: Book)
    requires k < |ts| && ts[k] in b.info
  {
    var id, s := Id(|ns| + k), TriedSlot(e, b.key, b.info[ts[k]].service);
    && id in c.info && c.info[id] == Back(b, ts, k, |ns| + k).(inTried := true)
    && s in c.triedT && c.triedT[s] == id
  }

  /** Reading a tried entry is creating it and moving it to the tried table. */
  lemma WithTriedIs(e: Env, c: Book, d: DiskInfo)
    requires e.valid(d.service.ip) && TriedSlot(e, c.key, d.service) !in c.triedT
    ensures var c1 := WithNew(e, c, d);
            NextId(c) in c1.info
            && WithTried(e, c, d)
               == Tried(e, Bump(c1, NetworkOf(e, c1, NextId(c)), false, -1), TriedSlot(e, c.key, d.service), NextId(c))
  {
    var n := e.network(d.service.ip);
    BumpedBack(c.counts, n);
    hide Bumped;
  }

  lemma BumpedBack(counts: map<nat, Tally>, n: nat)
    ensures Bumped(Bumped(Bumped(counts, n, false, 1), n, false, -1), n, true, 1) == Bumped(counts, n, true, 1)
  {
  }

  lemma WithTriedKeeps(e: Env, c: Book, d: DiskInfo, limbo: set<Id>)
    requires Almost(e, c, limbo, {}) && d.service !in c.addr && e.Routable(d.service.ip) && d.lastSuccess > 0
    requires TriedSlot(e, c.key, d.service) !in c.triedT && NextId(c) !in limbo
    ensures Almost(e, WithTried(e, c, d), limbo, {})
  {
    hide TablesOk; hide AddressesOk; hide OrderOk; hide TalliesOk;
    var c1, id, s := WithNew(e, c, d), NextId(c), TriedSlot(e, c.key, d.service);
    WithTriedIs(e, c, d);
    WithNewKeeps(e, c, d, limbo);
    NewAlone(e, c, d);
    hide Almost; hide WithNew; hide WithTried;
    RecountKeeps(e, c1, id, limbo + {id}, {});
    assert {} + {id} == {id} && {id} - {id} == {} && limbo + {id} - {id} == limbo;
    TriedKeeps(e, Bump(c1, NetworkOf(e, c1, id), false, -1), s, id, limbo + {id}, {id});
  }

  lemma NewAlone(e: Env, c: Book, d: DiskInfo)
    ensures var c1 := WithNew(e, c, d);
            && c1.key == c.key && c1.triedT == c.triedT && NextId(c) in c1.info
            && c1.info[NextId(c)] == ReadInfo(d, |c.random|)
  {
  }

  lemma TriedIsFresh(e: Env, b: Book, ns: seq<Id>, ts: seq<Id>, t: nat, c: Book)
    requires AddressesOk(e, b) && TriedLoaded(e, b, ns, ts, t, c) && t < |ts| && AddressesOk(e, c)
    ensures b.info[ts[t]].service !in c.addr && e.Routable(b.info[ts[t]].service.ip)
  {
    var s := b.info[ts[t]].service;
    assert IdOk(e, b, ts[t]);
    forall id | id in c.info ensures c.info[id].service != s {
      assert id == Id(id.n);
      if id.n < |ns| {
        ServicesDiffer(e, b, ns[id.n], ts[t]);
      } else {
        assert TriedBack(e, b, ns, ts, id.n - |ns|, c);
        ServicesDiffer(e, b, ts[id.n - |ns|], ts[t]);
      }
    }
    assert s in c.addr ==> ServiceOk(c, s);
  }

  lemma PlaceIsFree(e: Env, b: Book, ns: seq<Id>, ts: seq<Id>, t: nat, c: Book)
    requires TablesOk(e, b, {}) && TriedLoaded(e, b, ns, ts, t, c) && t < |ts| && TablesOk(e, c, FirstIds(|ns|))
    ensures TriedSlot(e, c.key, b.info[ts[t]].service) !in c.triedT
  {
    var s := TriedSlot(e, b.key, b.info[ts[t]].service);
    assert EntryOk(e, b, ts[t], {});
    hide TriedSlot; hide NewEntryOk;
    forall id | id in c.info && c.info[id].inTried ensures TriedSlot(e, c.key, c.info[id].service) != s {
      assert id == Id(id.n) && id.n >= |ns|;
      assert TriedBack(e, b, ns, ts, id.n - |ns|, c);
      assert EntryOk(e, b, ts[id.n - |ns|], {});
    }
    assert s in c.triedT ==> TriedEntryOk(e, c, s);
  }

  lemma TriedLoadedNext(e: Env, b: Book, ns: seq<Id>, ts: seq<Id>, t: nat, c: Book)
    requires Consistent(e, b) && TriedLoaded(e, b, ns, ts, t, c) && t < |ts| && Almost(e, c, FirstIds(|ns|), {})
    ensures var c' := WithTried(e, c, Written(b.info[ts[t]]));
            TriedLoaded(e, b, ns, ts, t + 1, c') && Almost(e, c', FirstIds(|ns|), {})
  {
    hide TablesOk; hide AddressesOk; hide OrderOk; hide TalliesOk;
    TriedIsFresh(e, b, ns, ts, t, c);
    PlaceIsFree(e, b, ns, ts, t, c);
    var c' := WithTried(e, c, Written(b.info[ts[t]]));
    WithTriedKeeps(e, c, Written(b.info[ts[t]]), FirstIds(|ns|));
    forall k | 0 <= k < t + 1 ensures TriedBack(e, b, ns, ts, k, c') {
      assert k < t ==> TriedBack(e, b, ns, ts, k, c);
    }
  }

  lemma NoneTried(e: Env, b: Book, ns: seq<Id>, ts: seq<Id>, c: Book)
    requires NewLoaded(e, b, ns, |ns|, c) && Lists(b, ts, true)
    ensures TriedLoaded(e, b, ns, ts, 0, c)
  {
  }

  lemma {:induction false} TriedLoadedAll(e: Env, b: Book, ns: seq<Id>, ts: seq<Id>, t: nat)
    requires Consistent(e, b) && Lists(b, ns, false) && Lists(b, ts, true) && t <= |ts|
    ensures var c := AllTried(e, AllNew(e, Ops.Empty(b.key), Infos(b, ns)), Infos(b, ts)[..t]);
            TriedLoaded(e, b, ns, ts, t, c) && Almost(e, c, FirstIds(|ns|), {})
    decreases t
  {
    hide Consistent; hide Almost; hide WithTried; hide TriedLoaded;
    if t == 0 {
      NewLoadedAll(e, b, ns, |ns|);
      assert Infos(b, ns)[..|ns|] == Infos(b, ns);
      NoneTried(e, b, ns, ts, AllNew(e, Ops.Empty(b.key), Infos(b, ns)));
    } else {
      TriedLoadedAll(e, b, ns, ts, t - 1);
      var ds := Infos(b, ts);
      assert ds[..t][..t - 1] == ds[..t - 1];
      TriedLoadedNext(e, b, ns, ts, t - 1, AllTried(e, AllNew(e, Ops.Empty(b.key), Infos(b, ns)), ds[..t - 1]));
    }
  }

  // ---- listings ----

  /** Of the slots of the new table, those that a walk has passed are as they were, up to the names
      of the entries; everything else is as it has been loaded. */
  ghost predicate Restored(b: Book, ns: seq<Id>, c2: Book, c: Book, n: int, i: int) {
    && c == c2.(newT := c.newT, info := c.info) && c.info.Keys == c2.info.Keys
    && (forall id | id in c.info :: c.info[id] == c2.info[id].(refCount := c.info[id].refCount))
    && (forall s :: s in c.newT <==> s in b.newT && AddrCheck.Before(s, n, i))
    && (forall s | s in c.newT :: c.newT[s] == Id(IndexOf(ns, b.newT[s])))
  }

  lemma NothingRestored(e: Env, b: Book, ns: seq<Id>, ts: seq<Id>, c2: Book)
    requires TriedLoaded(e, b, ns, ts, |ts|, c2)
    ensures Restored(b, ns, c2, c2, 0, 0)
  {
  }

  /** A list in which each id is once tells where it is. */
  lemma IndexIs(s: seq<Id>, k: nat)
    requires AddrCheck.Distinct(s) && k < |s|
    ensures IndexOf(s, s[k]) == k
  {
    var i := IndexOf(s, s[k]);
    assert s[i] == s[k];
  }

  /** The entry under its new name. */
  lemma Named(b: Book, ns: seq<Id>, x: Id)
    requires Lists(b, ns, false) && x in b.info && !b.info[x].inTried
    ensures var k := IndexOf(ns, x); k < |ns| && ns[k] == x
  {
  }

  /** An entry that is still to be listed somewhere is not listed in all its slots yet. */
  lemma RoomLeft(e: Env, b: Book, ns: seq<Id>, ts: seq<Id>, c2: Book, c: Book, n: nat, i: nat)
    requires TablesOk(e, b, {}) && Lists(b, ns, false) && Restored(b, ns, c2, c, n, i) && Slot(n, i) in b.newT
    ensures var x := b.newT[Slot(n, i)];
            |SlotsOf(c.newT, Id(IndexOf(ns, x)))| < NEW_BUCKETS_PER_ADDRESS
  {
    var s := Slot(n, i);
    var x := b.newT[s];
    assert NewEntryOk(e, b, s) && EntryOk(e, b, x, {});
    Named(b, ns, x);
    var k := IndexOf(ns, x);
    var placed, all := SlotsOf(c.newT, Id(k)), SlotsOf(b.newT, x);
    forall t | t in placed ensures t in all && t != s {
      assert NewEntryOk(e, b, t);
      Named(b, ns, b.newT[t]);
    }
    assert s in all;
    AddrCheck.SubsetSize(placed, all - {s});
  }

  /** Entry x is back under its new name, with the same address. */
  lemma BackAs(e: Env, b: Book, ns: seq<Id>, ts: seq<Id>, c2: Book, c: Book, n: nat, i: nat, x: Id)
    requires AddressesOk(e, b) && TriedLoaded(e, b, ns, ts, |ts|, c2) && Restored(b, ns, c2, c, n, i)
    requires x in b.info && !b.info[x].inTried
    ensures var id := Id(IndexOf(ns, x));
            && IndexOf(ns, x) < |ns| && id in c.info && !c.info[id].inTried && c.info[id].service == b.info[x].service
            && e.valid(c.info[id].service.ip) && c.key == b.key
  {
    Named(b, ns, x);
    assert IdOk(e, b, x);
  }

  /** A listing is put back where it was. */
  lemma PlacedBack(e: Env, b: Book, ns: seq<Id>, ts: seq<Id>, c2: Book, c: Book, n: nat, i: nat)
    requires Consistent(e, b) && TriedLoaded(e, b, ns, ts, |ts|, c2) && Restored(b, ns, c2, c, n, i)
    requires Almost(e, c, Nowhere(c), {}) && Slot(n, i) in b.newT && n < NEW_BUCKET_COUNT
    ensures var s, k := Slot(n, i), IndexOf(ns, b.newT[Slot(n, i)]);
            && Id(k) in c.info && Placed(e, c, n, k, |ns|, true) == Ref(c, s, Id(k)) && Fits(e, c, s, Id(k))
  {
    hide AddressesOk; hide OrderOk; hide TalliesOk; hide CollisionsOk; hide TimesOk; hide TriedEntryOk;
    var s := Slot(n, i);
    var x := b.newT[s];
    assert NewEntryOk(e, b, s);
    BackAs(e, b, ns, ts, c2, c, n, i, x);
    RoomLeft(e, b, ns, ts, c2, c, n, i);
    assert EntryOk(e, c, Id(IndexOf(ns, x)), Nowhere(c));
  }

  lemma RefRestores(b: Book, ns: seq<Id>, c2: Book, c: Book, n: nat, i: nat)
    requires Restored(b, ns, c2, c, n, i) && Slot(n, i) in b.newT && Id(IndexOf(ns, b.newT[Slot(n, i)])) in c.info
    ensures Restored(b, ns, c2, Ref(c, Slot(n, i), Id(IndexOf(ns, b.newT[Slot(n, i)]))), n, i + 1)
  {
    forall s | s in b.newT ensures AddrCheck.Before(s, n, i + 1) <==> AddrCheck.Before(s, n, i) || s == Slot(n, i) {}
  }

  lemma SkipRestores(b: Book, ns: seq<Id>, c2: Book, c: Book, n: nat, i: nat)
    requires Restored(b, ns, c2, c, n, i) && Slot(n, i) !in b.newT
    ensures Restored(b, ns, c2, c, n, i + 1)
  {
    forall s | s in b.newT ensures AddrCheck.Before(s, n, i + 1) <==> AddrCheck.Before(s, n, i) {
      assert s != Slot(n, i);
    }
  }

  lemma OneLessNowhere(e: Env, c: Book, s: Slot, id: Id)
    requires TablesOk(e, c, Nowhere(c)) && id in c.info
    ensures Nowhere(Ref(c, s, id)) == Nowhere(c) - {id}
  {
    assert EntryOk(e, c, id, Nowhere(c));
    forall j ensures j in Nowhere(Ref(c, s, id)) <==> j in Nowhere(c) - {id} {}
  }

  /** One position of a bucket. */
  lemma PositionRestored(e: Env, b: Book, ns: seq<Id>, ts: seq<Id>, c2: Book, c: Book, n: nat, i: nat)
    requires Consistent(e, b) && TriedLoaded(e, b, ns, ts, |ts|, c2) && Restored(b, ns, c2, c, n, i)
    requires Almost(e, c, Nowhere(c), {}) && Slot(n, i) in b.newT && n < NEW_BUCKET_COUNT
    ensures var c' := Placed(e, c, n, IndexOf(ns, b.newT[Slot(n, i)]), |ns|, true);
            Restored(b, ns, c2, c', n, i + 1) && Almost(e, c', Nowhere(c'), {})
  {
    var s, id := Slot(n, i), Id(IndexOf(ns, b.newT[Slot(n, i)]));
    PlacedBack(e, b, ns, ts, c2, c, n, i);
    hide Consistent; hide TriedLoaded; hide TablesOk; hide AddressesOk; hide OrderOk; hide TalliesOk;
    RefRestores(b, ns, c2, c, n, i);
    RefKeeps(e, c, s, id, Nowhere(c), {});
    OneLessNowhere(e, c, s, id);
  }

  lemma {:induction false} BucketRestored(e: Env, b: Book, ns: seq<Id>, ts: seq<Id>, c2: Book, c: Book, n: nat, i: nat)
    requires Consistent(e, b) && TriedLoaded(e, b, ns, ts, |ts|, c2) && Restored(b, ns, c2, c, n, i)
    requires Almost(e, c, Nowhere(c), {}) && n < NEW_BUCKET_COUNT && i <= BUCKET_SIZE
    ensures var c' := PlacedBucket(e, c, n, BucketFrom(b, ns, n, i), |ns|, true);
            Restored(b, ns, c2, c', n, BUCKET_SIZE) && Almost(e, c', Nowhere(c'), {})
    decreases BUCKET_SIZE - i
  {
    hide Consistent; hide Almost; hide TriedLoaded; hide Restored; hide Placed;
    if i < BUCKET_SIZE {
      if Slot(n, i) in b.newT {
        PositionRestored(e, b, ns, ts, c2, c, n, i);
        var k := IndexOf(ns, b.newT[Slot(n, i)]);
        var entries := BucketFrom(b, ns, n, i);
        assert entries[0] == k && entries[1..] == BucketFrom(b, ns, n, i + 1);
        BucketRestored(e, b, ns, ts, c2, Placed(e, c, n, k, |ns|, true), n, i + 1);
      } else {
        SkipRestores(b, ns, c2, c, n, i);
        BucketRestored(e, b, ns, ts, c2, c, n, i + 1);
      }
    }
  }

  lemma BucketDone(e: Env, b: Book, ns: seq<Id>, c2: Book, c: Book, n: nat)
    requires Consistent(e, b) && Restored(b, ns, c2, c, n, BUCKET_SIZE)
    ensures Restored(b, ns, c2, c, n + 1, 0)
  {
    hide AddressesOk; hide OrderOk; hide TalliesOk; hide CollisionsOk; hide EntryOk; hide TriedEntryOk; hide TimesOk;
    forall s | s in b.newT ensures AddrCheck.Before(s, n, BUCKET_SIZE) <==> AddrCheck.Before(s, n + 1, 0) {
      assert NewEntryOk(e, b, s);
    }
  }

  lemma {:induction false} BucketsRestored(e: Env, b: Book, ns: seq<Id>, ts: seq<Id>, c2: Book, c: Book, n: nat)
    requires Consistent(e, b) && TriedLoaded(e, b, ns, ts, |ts|, c2) && Restored(b, ns, c2, c, n, 0)
    requires Almost(e, c, Nowhere(c), {}) && n <= NEW_BUCKET_COUNT
    ensures var c' := PlacedAll(e, c, n, BucketsFrom(b, ns, n), |ns|, true);
            Restored(b, ns, c2, c', NEW_BUCKET_COUNT, 0) && Almost(e, c', Nowhere(c'), {})
    decreases NEW_BUCKET_COUNT - n
  {
    hide Consistent; hide Almost; hide TriedLoaded; hide Restored; hide PlacedBucket; hide BucketFrom;
    if n < NEW_BUCKET_COUNT {
      BucketRestored(e, b, ns, ts, c2, c, n, 0);
      var c' := PlacedBucket(e, c, n, BucketFrom(b, ns, n, 0), |ns|, true);
      BucketDone(e, b, ns, c2, c', n);
      var entries := BucketsFrom(b, ns, n);
      assert entries[0] == BucketFrom(b, ns, n, 0) && entries[1..] == BucketsFrom(b, ns, n + 1);
      BucketsRestored(e, b, ns, ts, c2, c', n + 1);
    }
  }

  // ---- sizes ----

  lemma {:induction false} OneBucket(slots: set<Slot>, bucket: nat, size: nat)
    requires forall s | s in slots :: s.bucket == bucket && s.pos < size
    ensures |slots| <= size
    decreases size
  {
    if size == 0 {
      assert slots == {};
    } else {
      var last := Slot(bucket, size - 1);
      forall s | s in slots - {last} ensures s.bucket == bucket && s.pos < size - 1 {
        assert s == Slot(s.bucket, s.pos);
      }
      OneBucket(slots - {last}, bucket, size - 1);
    }
  }

  lemma {:induction false} AllBuckets(slots: set<Slot>, buckets: nat, size: nat)
    requires forall s | s in slots :: s.bucket < buckets && s.pos < size
    ensures |slots| <= buckets * size
    decreases buckets
  {
    if buckets == 0 {
      assert slots == {};
    } else {
      var top := set s | s in slots && s.bucket == buckets - 1;
      OneBucket(top, buckets - 1, size);
      AllBuckets(slots - top, buckets - 1, size);
      assert slots == top + (slots - top);
      assert buckets * size == (buckets - 1) * size + size;
    }
  }

  /** Entries that each have a slot are no more than the slots. */
  lemma {:induction false} NoMoreThanSlots(t: map<Slot, Id>, ids: set<Id>)
    requires forall id | id in ids :: exists s :: s in t && t[s] == id
    ensures |ids| <= |t.Keys|
    decreases ids
  {
    if ids != {} {
      var x :| x in ids;
      var s :| s in t && t[s] == x;
      var t' := t - {s};
      forall id | id in ids - {x} ensures exists r :: r in t' && t'[r] == id {
        var r :| r in t && t[r] == id;
        assert r in t';
      }
      NoMoreThanSlots(t', ids - {x});
      assert t'.Keys == t.Keys - {s};
    }
  }

  lemma FewEnough(e: Env, b: Book, ids: seq<Id>, tried: bool)
    requires TablesOk(e, b, {}) && Lists(b, ids, tried)
    ensures |ids| <= (if tried then TRIED_BUCKET_COUNT else NEW_BUCKET_COUNT) * BUCKET_SIZE
  {
    var t := if tried then b.triedT else b.newT;
    forall id | id in AddrCheck.Elements(ids) ensures exists s :: s in t && t[s] == id {
      assert EntryOk(e, b, id, {});
      if tried {
        assert TriedSlot(e, b.key, b.info[id].service) in t;
      } else {
        var s :| s in SlotsOf(b.newT, id);
      }
    }
    AddrCheck.ElementsSize(ids);
    NoMoreThanSlots(t, AddrCheck.Elements(ids));
    forall s | s in t.Keys
      ensures s.bucket < (if tried then TRIED_BUCKET_COUNT else NEW_BUCKET_COUNT) && s.pos < BUCKET_SIZE
    {
      if tried { assert TriedEntryOk(e, b, s); } else { assert NewEntryOk(e, b, s); }
    }
    AllBuckets(t.Keys, if tried then TRIED_BUCKET_COUNT else NEW_BUCKET_COUNT, BUCKET_SIZE);
  }

  // ---- the round trip ----

  /** The new name of an entry: its place among the new entries, or behind them among the tried ones. */
  function Renamed(ns: seq<Id>, ts: seq<Id>, x: Id): Id {
    if x in ns then Id(IndexOf(ns, x)) else Id(|ns| + IndexOf(ts, x))
  }

  /** Two entries that agree in all that is written, and in where they are listed. */
  predicate SameEntry(i: AddrInfo, j: AddrInfo) {
    Written(i) == Written(j) && i.inTried == j.inTried && i.refCount == j.refCount
  }

  /** Book c is b up to the names of the entries, their order, and what is kept in memory only. */
  ghost predicate SameBook(b: Book, c: Book, ns: seq<Id>, ts: seq<Id>) {
    && c.key == b.key && |c.info.Keys| == |b.info.Keys|
    && (forall x | x in b.info :: Renamed(ns, ts, x) in c.info && SameEntry(b.info[x], c.info[Renamed(ns, ts, x)]))
    && (forall x, y | x in b.info && y in b.info && x != y :: Renamed(ns, ts, x) != Renamed(ns, ts, y))
    && SameTable(b.newT, c.newT, ns, ts) && SameTable(b.triedT, c.triedT, ns, ts)
  }

  /** Slot for slot the same entries. */
  ghost predicate SameTable(t: map<Slot, Id>, u: map<Slot, Id>, ns: seq<Id>, ts: seq<Id>) {
    u.Keys == t.Keys && forall s | s in t :: u[s] == Renamed(ns, ts, t[s])
  }

  lemma NewTableBack(e: Env, b: Book, ns: seq<Id>, ts: seq<Id>, c2: Book, c: Book)
    requires TablesOk(e, b, {}) && Lists(b, ns, false) && Restored(b, ns, c2, c, NEW_BUCKET_COUNT, 0)
    ensures SameTable(b.newT, c.newT, ns, ts)
  {
    forall s ensures s in c.newT.Keys <==> s in b.newT.Keys {
      assert s in b.newT ==> NewEntryOk(e, b, s);
    }
    forall s | s in b.newT ensures c.newT[s] == Renamed(ns, ts, b.newT[s]) {
      assert NewEntryOk(e, b, s);
      Named(b, ns, b.newT[s]);
    }
  }

  lemma NamedTried(b: Book, ns: seq<Id>, ts: seq<Id>, x: Id)
    requires Lists(b, ns, false) && Lists(b, ts, true) && x in b.info
    ensures if b.info[x].inTried
            then IndexOf(ts, x) < |ts| && ts[IndexOf(ts, x)] == x && Renamed(ns, ts, x) == Id(|ns| + IndexOf(ts, x))
            else IndexOf(ns, x) < |ns| && ns[IndexOf(ns, x)] == x && Renamed(ns, ts, x) == Id(IndexOf(ns, x))
  {
    if x in ns {
      var k :| 0 <= k < |ns| && ns[k] == x;
    }
  }

  lemma TriedSlotBack(e: Env, b: Book, ns: seq<Id>, ts: seq<Id>, c2: Book, s: Slot)
    requires TablesOk(e, b, {}) && TriedLoaded(e, b, ns, ts, |ts|, c2) && s in b.triedT
    ensures s in c2.triedT && c2.triedT[s] == Renamed(ns, ts, b.triedT[s])
  {
    assert TriedEntryOk(e, b, s);
    NamedTried(b, ns, ts, b.triedT[s]);
    assert TriedBack(e, b, ns, ts, IndexOf(ts, b.triedT[s]), c2);
  }

  lemma NoOtherTriedSlot(e: Env, b: Book, ns: seq<Id>, ts: seq<Id>, c2: Book, s: Slot)
    requires TablesOk(e, b, {}) && TriedLoaded(e, b, ns, ts, |ts|, c2) && TablesOk(e, c2, FirstIds(|ns|))
             && s in c2.triedT
    ensures s in b.triedT
  {
    hide TriedSlot; hide NewEntryOk; hide SlotsOf;
    assert TriedEntryOk(e, c2, s);
    var k := c2.triedT[s].n;
    assert c2.triedT[s] == Id(k) && k >= |ns|;
    assert TriedBack(e, b, ns, ts, k - |ns|, c2);
    assert EntryOk(e, b, ts[k - |ns|], {});
  }

  lemma TriedTableBack(e: Env, b: Book, ns: seq<Id>, ts: seq<Id>, c2: Book)
    requires TablesOk(e, b, {}) && TriedLoaded(e, b, ns, ts, |ts|, c2) && TablesOk(e, c2, FirstIds(|ns|))
    ensures SameTable(b.triedT, c2.triedT, ns, ts)
  {
    hide TablesOk; hide TriedLoaded; hide Renamed;
    forall s | s in b.triedT ensures s in c2.triedT && c2.triedT[s] == Renamed(ns, ts, b.triedT[s]) {
      TriedSlotBack(e, b, ns, ts, c2, s);
    }
    forall s | s in c2.triedT ensures s in b.triedT {
      NoOtherTriedSlot(e, b, ns, ts, c2, s);
    }
  }

  /** An entry is listed in the same slots under its new name. */
  lemma SameSlots(e: Env, b: Book, ns: seq<Id>, ts: seq<Id>, c: Book, x: Id)
    requires TablesOk(e, b, {}) && Lists(b, ns, false) && Lists(b, ts, true) && SameTable(b.newT, c.newT, ns, ts)
             && x in b.info
    ensures SlotsOf(c.newT, Renamed(ns, ts, x)) == SlotsOf(b.newT, x)
  {
    forall s ensures s in SlotsOf(c.newT, Renamed(ns, ts, x)) <==> s in SlotsOf(b.newT, x) {
      if s in b.newT {
        assert NewEntryOk(e, b, s);
        NamedTried(b, ns, ts, b.newT[s]);
        NamedTried(b, ns, ts, x);
      }
    }
  }

  /** Every new entry is listed again somewhere. */
  lemma NobodyNowhere(e: Env, b: Book, ns: seq<Id>, ts: seq<Id>, c2: Book, c: Book)
    requires TablesOk(e, b, {}) && TriedLoaded(e, b, ns, ts, |ts|, c2) && Restored(b, ns, c2, c, NEW_BUCKET_COUNT, 0)
    requires TablesOk(e, c, Nowhere(c)) && SameTable(b.newT, c.newT, ns, ts)
    ensures Nowhere(c) == {}
  {
    hide TablesOk; hide SameTable;
    forall id | id in c.info ensures id !in Nowhere(c) {
      assert id == Id(id.n);
      if id.n < |ns| {
        ListedAgain(e, b, ns, ts, c, id.n);
      } else {
        assert TriedBack(e, b, ns, ts, id.n - |ns|, c2);
      }
    }
  }

  lemma ListedAgain(e: Env, b: Book, ns: seq<Id>, ts: seq<Id>, c: Book, k: nat)
    requires TablesOk(e, b, {}) && Lists(b, ns, false) && Lists(b, ts, true) && k < |ns|
    requires TablesOk(e, c, Nowhere(c)) && SameTable(b.newT, c.newT, ns, ts) && Id(k) in c.info
    ensures Id(k) !in Nowhere(c)
  {
    var x := ns[k];
    IndexIs(ns, k);
    SameSlots(e, b, ns, ts, c, x);
    assert EntryOk(e, b, x, {}) && EntryOk(e, c, Id(k), Nowhere(c));
  }

  /** What is written of an entry, and the table that it is in, are back. */
  lemma EntryCame(e: Env, b: Book, ns: seq<Id>, ts: seq<Id>, c2: Book, c: Book, x: Id)
    requires TriedLoaded(e, b, ns, ts, |ts|, c2) && Restored(b, ns, c2, c, NEW_BUCKET_COUNT, 0) && x in b.info
    ensures var id := Renamed(ns, ts, x);
            id in c.info && Written(b.info[x]) == Written(c.info[id]) && b.info[x].inTried == c.info[id].inTried
  {
    NamedTried(b, ns, ts, x);
    hide Renamed; hide IndexOf;
    if b.info[x].inTried {
      assert TriedBack(e, b, ns, ts, IndexOf(ts, x), c2);
    }
  }

  lemma EntryBack(e: Env, b: Book, ns: seq<Id>, ts: seq<Id>, c2: Book, c: Book, x: Id)
    requires TablesOk(e, b, {}) && TriedLoaded(e, b, ns, ts, |ts|, c2) && Restored(b, ns, c2, c, NEW_BUCKET_COUNT, 0)
    requires TablesOk(e, c, {}) && SameTable(b.newT, c.newT, ns, ts) && x in b.info
    ensures Renamed(ns, ts, x) in c.info && SameEntry(b.info[x], c.info[Renamed(ns, ts, x)])
  {
    EntryCame(e, b, ns, ts, c2, c, x);
    SameSlots(e, b, ns, ts, c, x);
    hide TriedLoaded; hide Restored; hide Renamed; hide SameTable; hide SlotsOf;
    assert EntryOk(e, b, x, {}) && EntryOk(e, c, Renamed(ns, ts, x), {});
  }

  lemma NamesDiffer(b: Book, ns: seq<Id>, ts: seq<Id>, x: Id, y: Id)
    requires Lists(b, ns, false) && Lists(b, ts, true) && x in b.info && y in b.info && x != y
    ensures Renamed(ns, ts, x) != Renamed(ns, ts, y)
  {
    NamedTried(b, ns, ts, x);
    NamedTried(b, ns, ts, y);
  }

  lemma AsManyEntries(e: Env, b: Book, ns: seq<Id>, ts: seq<Id>, c: Book)
    requires Lists(b, ns, false) && Lists(b, ts, true) && forall id :: id in c.info <==> 0 <= id.n < |ns| + |ts|
    ensures |c.info.Keys| == |b.info.Keys|
  {
    forall x ensures x in b.info.Keys <==> x in AddrCheck.Elements(ns) + AddrCheck.Elements(ts) {}
    AddrCheck.ElementsSize(ns);
    AddrCheck.ElementsSize(ts);
    assert AddrCheck.Elements(ns) !! AddrCheck.Elements(ts);
    assert b.info.Keys == AddrCheck.Elements(ns) + AddrCheck.Elements(ts);
    assert c.info.Keys == FirstIds(|ns| + |ts|) by {
      forall id ensures id in c.info.Keys <==> id in FirstIds(|ns| + |ts|) {
        if id in c.info { assert id == Id(id.n); }
      }
    }
    FirstIdsSize(|ns| + |ts|);
  }

  lemma {:induction false} FirstIdsSize(n: nat)
    ensures |FirstIds(n)| == n
  {
    if n == 0 {
      assert FirstIds(0) == {};
    } else {
      FirstIdsNext(n - 1);
      FirstIdsSize(n - 1);
    }
  }

  lemma Shape(e: Env, b: Book, ns: seq<Id>, ts: seq<Id>, c2: Book, c: Book)
    requires TriedLoaded(e, b, ns, ts, |ts|, c2) && Restored(b, ns, c2, c, NEW_BUCKET_COUNT, 0)
    ensures c.key == b.key && c.triedT == c2.triedT && c.collisions == {} && Lists(b, ns, false) && Lists(b, ts, true)
    ensures forall id :: id in c.info <==> 0 <= id.n < |ns| + |ts|
  {
  }

  lemma TablesBack(e: Env, b: Book, ns: seq<Id>, ts: seq<Id>, c2: Book, c: Book)
    requires TablesOk(e, b, {}) && TriedLoaded(e, b, ns, ts, |ts|, c2) && Restored(b, ns, c2, c, NEW_BUCKET_COUNT, 0)
    requires TablesOk(e, c2, FirstIds(|ns|)) && TablesOk(e, c, Nowhere(c))
    ensures Nowhere(c) == {} && SameTable(b.newT, c.newT, ns, ts) && SameTable(b.triedT, c.triedT, ns, ts)
  {
    Shape(e, b, ns, ts, c2, c);
    hide TablesOk; hide TriedLoaded; hide Restored; hide SameTable; hide Nowhere; hide Lists;
    NewTableBack(e, b, ns, ts, c2, c);
    TriedTableBack(e, b, ns, ts, c2);
    NobodyNowhere(e, b, ns, ts, c2, c);
  }

  lemma EntriesBack(e: Env, b: Book, ns: seq<Id>, ts: seq<Id>, c2: Book, c: Book)
    requires TablesOk(e, b, {}) && TriedLoaded(e, b, ns, ts, |ts|, c2) && Restored(b, ns, c2, c, NEW_BUCKET_COUNT, 0)
    requires TablesOk(e, c, {}) && SameTable(b.newT, c.newT, ns, ts) && SameTable(b.triedT, c.triedT, ns, ts)
    ensures SameBook(b, c, ns, ts)
  {
    Shape(e, b, ns, ts, c2, c);
    AsManyEntries(e, b, ns, ts, c);
    hide TablesOk; hide TriedLoaded; hide Restored; hide SameTable; hide SameEntry; hide Renamed; hide Lists;
    EveryEntryBack(e, b, ns, ts, c2, c);
    AllNamesDiffer(b, ns, ts);
  }

  lemma EveryEntryBack(e: Env, b: Book, ns: seq<Id>, ts: seq<Id>, c2: Book, c: Book)
    requires TablesOk(e, b, {}) && TriedLoaded(e, b, ns, ts, |ts|, c2) && Restored(b, ns, c2, c, NEW_BUCKET_COUNT, 0)
    requires TablesOk(e, c, {}) && SameTable(b.newT, c.newT, ns, ts)
    ensures forall x | x in b.info :: Renamed(ns, ts, x) in c.info && SameEntry(b.info[x], c.info[Renamed(ns, ts, x)])
  {
    hide TablesOk; hide TriedLoaded; hide Restored; hide SameTable; hide SameEntry; hide Renamed;
    forall x | x in b.info ensures Renamed(ns, ts, x) in c.info && SameEntry(b.info[x], c.info[Renamed(ns, ts, x)]) {
      EntryBack(e, b, ns, ts, c2, c, x);
    }
  }

  lemma AllNamesDiffer(b: Book, ns: seq<Id>, ts: seq<Id>)
    requires Lists(b, ns, false) && Lists(b, ts, true)
    ensures forall x, y | x in b.info && y in b.info && x != y :: Renamed(ns, ts, x) != Renamed(ns, ts, y)
  {
    hide Lists; hide Renamed;
    forall x, y | x in b.info && y in b.info && x != y ensures Renamed(ns, ts, x) != Renamed(ns, ts, y) {
      NamesDiffer(b, ns, ts, x, y);
    }
  }

  /** What the stages of reading come to. */
  lemma AllBack(e: Env, b: Book, ns: seq<Id>, ts: seq<Id>, c2: Book, c: Book)
    requires Consistent(e, b) && TriedLoaded(e, b, ns, ts, |ts|, c2) && Restored(b, ns, c2, c, NEW_BUCKET_COUNT, 0)
    requires Almost(e, c2, FirstIds(|ns|), {}) && Almost(e, c, Nowhere(c), {})
    ensures Nowhere(c) == {} && Consistent(e, c) && SameBook(b, c, ns, ts)
  {
    Shape(e, b, ns, ts, c2, c);
    hide TablesOk; hide AddressesOk; hide OrderOk; hide TalliesOk; hide TimesOk; hide TriedLoaded; hide Restored;
    hide SameTable;
    hide SameBook; hide Nowhere; hide Lists;
    TablesBack(e, b, ns, ts, c2, c);
    EntriesBack(e, b, ns, ts, c2, c);
  }

  lemma PrunedNone(e: Env, c: Book)
    ensures Pruned(e, c, {}) == c
  {
  }

  lemma LoadedInLimbo(e: Env, b: Book, ns: seq<Id>, ts: seq<Id>, c2: Book)
    requires TriedLoaded(e, b, ns, ts, |ts|, c2)
    ensures Nowhere(c2) == FirstIds(|ns|)
  {
    forall id ensures id in Nowhere(c2) <==> id in FirstIds(|ns|) {
      assert id == Id(id.n);
      if id in c2.info && id.n >= |ns| { assert TriedBack(e, b, ns, ts, id.n - |ns|, c2); }
    }
  }

  /** The stages of reading, one after the other. */
  lemma Stages(e: Env, b: Book, ns: seq<Id>, ts: seq<Id>)
    requires Consistent(e, b) && Lists(b, ns, false) && Lists(b, ts, true)
    ensures var c2 := AllTried(e, AllNew(e, Ops.Empty(b.key), Infos(b, ns)), Infos(b, ts));
            var c := PlacedAll(e, c2, 0, BucketsFrom(b, ns, 0), |ns|, true);
            Pruned(e, c, Nowhere(c)) == c && Consistent(e, c) && SameBook(b, c, ns, ts)
  {
    hide Consistent; hide Almost; hide BucketsFrom; hide AllNew; hide AllTried; hide PlacedAll; hide SameBook;
    hide TriedLoaded; hide Restored; hide Nowhere; hide Pruned;
    TriedLoadedAll(e, b, ns, ts, |ts|);
    assert Infos(b, ts)[..|ts|] == Infos(b, ts);
    var c2 := AllTried(e, AllNew(e, Ops.Empty(b.key), Infos(b, ns)), Infos(b, ts));
    LoadedInLimbo(e, b, ns, ts, c2);
    NothingRestored(e, b, ns, ts, c2);
    BucketsRestored(e, b, ns, ts, c2, c2, 0);
    var c := PlacedAll(e, c2, 0, BucketsFrom(b, ns, 0), |ns|, true);
    AllBack(e, b, ns, ts, c2, c);
    PrunedNone(e, c);
  }

  /** A record as an older version writes it: the bucket count as it is before format 1, and no
      checksum, which counts as 0, before format 2. */
  function InFormat(d: Disk, format: nat): Disk {
    d.(format := format, buckets := if format >= 1 then d.buckets else Flipped(d.buckets))
  }

  /** Reading a record of a book, in whatever format, with the buckets it was written with loses no
      entry and puts every listing back into its slot. */
  lemma FormatRoundTrip(e: Env, b: Book, order: seq<Id>, stored: nat, format: nat, checksum: nat)
    requires Consistent(e, b) && IsOrder(b, order) && checksum == if format >= 2 then stored else 0
    ensures var ns, ts := Listed(b, order, false), Listed(b, order, true);
            var r := Unserialized(e, InFormat(Serialized(b, order, stored), format), checksum);
            r.Ok? && Consistent(e, r.book) && SameBook(b, r.book, ns, ts)
  {
    hide Consistent; hide Listed; hide Flipped; hide IsOrder; hide BucketsFrom; hide AllNew; hide AllTried;
    hide PlacedAll;
    hide SameBook; hide Nowhere; hide Pruned; hide AddrCheck.Checked; hide Ops.Empty; hide Lists;
    var ns, ts := Listed(b, order, false), Listed(b, order, true);
    ListedIsIn(b, order, false);
    ListedIsIn(b, order, true);
    Prepared(e, b, order);
    Stages(e, b, ns, ts);
    var c2 := AllTried(e, AllNew(e, Ops.Empty(b.key), Infos(b, ns)), Infos(b, ts));
    AddrCheck.ConsistentIsChecked(e, PlacedAll(e, c2, 0, BucketsFrom(b, ns, 0), |ns|, true));
  }

  /** Writing a book, in whatever order the map lists its entries, and reading it into a fresh address
      manager with the same buckets loses no entry and puts every listing back into its slot. */
  lemma RoundTrip(e: Env, b: Book, order: seq<Id>, checksum: nat)
    requires Consistent(e, b) && IsOrder(b, order)
    ensures var ns, ts := Listed(b, order, false), Listed(b, order, true);
            var r := Unserialized(e, Serialized(b, order, checksum), checksum);
            r.Ok? && Consistent(e, r.book) && SameBook(b, r.book, ns, ts)
  {
    hide Consistent; hide Listed; hide Flipped; hide IsOrder; hide BucketsFrom; hide SameBook; hide Unserialized;
    FormatRoundTrip(e, b, order, checksum, FILE_FORMAT, checksum);
    assert InFormat(Serialized(b, order, checksum), FILE_FORMAT) == Serialized(b, order, checksum);
  }

  lemma Prepared(e: Env, b: Book, order: seq<Id>)
    requires Consistent(e, b) && IsOrder(b, order)
    ensures Lists(b, Listed(b, order, false), false) && Lists(b, Listed(b, order, true), true)
    ensures |Listed(b, order, false)| <= NEW_BUCKET_COUNT * BUCKET_SIZE
            && |Listed(b, order, true)| <= TRIED_BUCKET_COUNT * BUCKET_SIZE
    ensures Flipped(Flipped(NEW_BUCKET_COUNT)) == NEW_BUCKET_COUNT
  {
    ListsOfBook(e, b, order, false);
    ListsOfBook(e, b, order, true);
    hide TablesOk; hide Lists; hide IsOrder; hide Listed;
    FewEnough(e, b, Listed(b, order, false), false);
    FewEnough(e, b, Listed(b, order, true), true);
  }

  // ---- records of any origin ----

  /** What holds of a book that is being read, whatever the record says. */
  ghost predicate Orderly(e: Env, b: Book) {
    && b.idCount >= 0 && b.collisions == {}
    && (forall id | id in b.info :: 0 <= id.n < b.idCount && e.network(b.info[id].service.ip) in b.counts)
    && (forall s | s in b.addr :: ServiceOk(b, s))
  }

  lemma WithNewOrderly(e: Env, b: Book, d: DiskInfo)
    requires Orderly(e, b)
    ensures Orderly(e, WithNew(e, b, d))
  {
    var c := WithNew(e, b, d);
    forall s | s in c.addr ensures ServiceOk(c, s) { assert s != d.service ==> ServiceOk(b, s); }
  }

  lemma WithTriedOrderly(e: Env, b: Book, d: DiskInfo)
    requires Orderly(e, b)
    ensures Orderly(e, WithTried(e, b, d))
  {
    var c := WithTried(e, b, d);
    forall s | s in c.addr ensures ServiceOk(c, s) { assert s != d.service || c == b ==> ServiceOk(b, s); }
  }

  lemma {:induction false} AllNewOrderly(e: Env, b: Book, ds: seq<DiskInfo>)
    requires Orderly(e, b)
    ensures Orderly(e, AllNew(e, b, ds))
    decreases |ds|
  {
    hide Orderly; hide WithNew;
    if ds != [] {
      AllNewOrderly(e, b, ds[..|ds| - 1]);
      WithNewOrderly(e, AllNew(e, b, ds[..|ds| - 1]), ds[|ds| - 1]);
    }
  }

  lemma {:induction false} AllTriedOrderly(e: Env, b: Book, ds: seq<DiskInfo>)
    requires Orderly(e, b)
    ensures Orderly(e, AllTried(e, b, ds))
    decreases |ds|
  {
    hide Orderly; hide WithTried;
    if ds != [] {
      AllTriedOrderly(e, b, ds[..|ds| - 1]);
      WithTriedOrderly(e, AllTried(e, b, ds[..|ds| - 1]), ds[|ds| - 1]);
    }
  }

  lemma RefOrderly(e: Env, b: Book, s: Slot, id: Id)
    requires Orderly(e, b) && id in b.info
    ensures Orderly(e, Ref(b, s, id))
  {
    var c := Ref(b, s, id);
    forall s | s in c.addr ensures ServiceOk(c, s) { assert ServiceOk(b, s); }
  }

  lemma PlacedOrderly(e: Env, b: Book, bucket: nat, index: int, nNew: nat, restore: bool)
    requires Orderly(e, b)
    ensures Orderly(e, Placed(e, b, bucket, index, nNew, restore))
  {
    hide Orderly; hide Ref;
    var id := Id(index);
    if id in b.info {
      RefOrderly(e, b, Slot(bucket, Position(e, b.key, true, bucket, b.info[id].service)), id);
      RefOrderly(e, b, Ops.OwnNewSlot(e, b, id), id);
    }
  }

  lemma {:induction false} PlacedBucketOrderly(e: Env, b: Book, bucket: nat, entries: seq<int>, nNew: nat,
                                               restore: bool)
    requires Orderly(e, b)
    ensures Orderly(e, PlacedBucket(e, b, bucket, entries, nNew, restore))
    decreases |entries|
  {
    hide Orderly; hide Placed;
    if entries != [] {
      PlacedOrderly(e, b, bucket, entries[0], nNew, restore);
      PlacedBucketOrderly(e, Placed(e, b, bucket, entries[0], nNew, restore), bucket, entries[1..], nNew, restore);
    }
  }

  lemma {:induction false} PlacedAllOrderly(e: Env, b: Book, bucket: nat, entries: seq<seq<int>>, nNew: nat,
                                            restore: bool)
    requires Orderly(e, b)
    ensures Orderly(e, PlacedAll(e, b, bucket, entries, nNew, restore))
    decreases |entries|
  {
    hide Orderly; hide PlacedBucket;
    if entries != [] {
      PlacedBucketOrderly(e, b, bucket, entries[0], nNew, restore);
      PlacedAllOrderly(e, PlacedBucket(e, b, bucket, entries[0], nNew, restore), bucket + 1, entries[1..],
                      nNew, restore);
    }
  }

  lemma DeletedOrderly(e: Env, b: Book, id: Id)
    requires Orderly(e, b) && CanDrop(b, id)
    ensures Orderly(e, Deleted(e, b, id))
  {
    var c := Deleted(e, b, id);
    forall s | s in c.addr ensures ServiceOk(c, s) { assert ServiceOk(b, s); }
  }

  lemma {:induction false} PrunedOrderly(e: Env, b: Book, ids: set<Id>)
    requires Orderly(e, b)
    ensures Orderly(e, Pruned(e, b, ids))
    decreases |ids|
  {
    hide Orderly; hide Deleted; hide CanDrop;
    if ids != {} {
      var id := Ops.Least(ids);
      if CanDrop(b, id) { DeletedOrderly(e, b, id); }
      PrunedOrderly(e, if CanDrop(b, id) then Deleted(e, b, id) else b, ids - {id});
    }
  }

  /** Whatever record is read, from whatever source: a book that comes of it without error satisfies
      the whole invariant exactly if all its addresses are routable, which is not looked at. */
  lemma LoadedIsConsistent(e: Env, d: Disk, checksum: nat)
    requires Unserialized(e, d, checksum).Ok?
    ensures var b := Unserialized(e, d, checksum).book;
            Consistent(e, b) <==> forall id | id in b.info :: e.Routable(b.info[id].service.ip)
  {
    hide Orderly; hide AllNew; hide AllTried; hide PlacedAll; hide Pruned; hide Consistent; hide AddrCheck.Checked;
    var b1 := AllNew(e, Ops.Empty(d.key), d.newInfos);
    EmptyOrderly(e, d.key);
    AllNewOrderly(e, Ops.Empty(d.key), d.newInfos);
    var b2 := AllTried(e, b1, d.triedInfos);
    AllTriedOrderly(e, b1, d.triedInfos);
    var b := Unserialized(e, d, checksum).book;
    PlacedAllOrderly(e, b2, 0, d.entries, |d.newInfos|, true);
    PlacedAllOrderly(e, b2, 0, d.entries, |d.newInfos|, false);
    var b3 := PlacedAll(e, b2, 0, d.entries, |d.newInfos|, true);
    var b4 := PlacedAll(e, b2, 0, d.entries, |d.newInfos|, false);
    PrunedOrderly(e, b3, Nowhere(b3));
    PrunedOrderly(e, b4, Nowhere(b4));
    assert Orderly(e, b);
    OrderlyIsUnseen(e, b);
    AddrCheck.InvariantIsCheckedAndUnseen(e, b);
  }

  lemma EmptyOrderly(e: Env, key: nat)
    ensures Orderly(e, Ops.Empty(key))
  {
  }

  lemma OrderlyIsUnseen(e: Env, b: Book)
    requires Orderly(e, b)
    ensures AddrCheck.Unseen(e, b) <==> forall id | id in b.info :: e.Routable(b.info[id].service.ip)
  {
  }

  /** Every valid address of the record is public. */
  predicate AllPublic(e: Env, ds: seq<DiskInfo>) {
    forall k | 0 <= k < |ds| :: e.valid(ds[k].service.ip) ==> e.public(ds[k].service.ip)
  }

  /** Of the entries that are being read, valid ones are public, and those in a table are valid. */
  ghost predicate Sifted(e: Env, b: Book) {
    forall id | id in b.info :: EntrySifted(e, b.info[id])
  }

  predicate EntrySifted(e: Env, i: AddrInfo) {
    && (e.valid(i.service.ip) ==> e.public(i.service.ip))
    && (i.inTried || i.refCount > 0 ==> e.valid(i.service.ip))
    && i.refCount >= 0
  }

  lemma {:induction false} AllNewSifted(e: Env, b: Book, ds: seq<DiskInfo>)
    requires Sifted(e, b) && AllPublic(e, ds)
    ensures Sifted(e, AllNew(e, b, ds))
    decreases |ds|
  {
    if ds != [] { AllNewSifted(e, b, ds[..|ds| - 1]); }
  }

  lemma {:induction false} AllTriedSifted(e: Env, b: Book, ds: seq<DiskInfo>)
    requires Sifted(e, b) && AllPublic(e, ds)
    ensures Sifted(e, AllTried(e, b, ds))
    decreases |ds|
  {
    if ds != [] { AllTriedSifted(e, b, ds[..|ds| - 1]); }
  }

  lemma PlacedSifted(e: Env, b: Book, bucket: nat, index: int, nNew: nat, restore: bool)
    requires Sifted(e, b)
    ensures Sifted(e, Placed(e, b, bucket, index, nNew, restore))
  {
    hide Position; hide NewSlot;
  }

  lemma {:induction false} PlacedBucketSifted(e: Env, b: Book, bucket: nat, entries: seq<int>, nNew: nat, restore: bool)
    requires Sifted(e, b)
    ensures Sifted(e, PlacedBucket(e, b, bucket, entries, nNew, restore))
    decreases |entries|
  {
    hide Sifted; hide Placed;
    if entries != [] {
      PlacedSifted(e, b, bucket, entries[0], nNew, restore);
      PlacedBucketSifted(e, Placed(e, b, bucket, entries[0], nNew, restore), bucket, entries[1..], nNew, restore);
    }
  }

  lemma {:induction false} PlacedAllSifted(e: Env, b: Book, bucket: nat, entries: seq<seq<int>>, nNew: nat,
                                           restore: bool)
    requires Sifted(e, b)
    ensures Sifted(e, PlacedAll(e, b, bucket, entries, nNew, restore))
    decreases |entries|
  {
    hide Sifted; hide PlacedBucket;
    if entries != [] {
      PlacedBucketSifted(e, b, bucket, entries[0], nNew, restore);
      PlacedAllSifted(e, PlacedBucket(e, b, bucket, entries[0], nNew, restore), bucket + 1, entries[1..],
                      nNew, restore);
    }
  }

  lemma {:induction false} PrunedSifted(e: Env, b: Book, ids: set<Id>)
    requires Sifted(e, b)
    ensures Sifted(e, Pruned(e, b, ids))
    decreases |ids|
  {
    if ids != {} {
      var id := Ops.Least(ids);
      PrunedSifted(e, if CanDrop(b, id) then Deleted(e, b, id) else b, ids - {id});
    }
  }

  lemma SiftedIsRoutable(e: Env, b: Book, id: Id)
    requires Sifted(e, b) && AddrCheck.Checked(e, b) && id in b.info
    ensures e.Routable(b.info[id].service.ip)
  {
    assert AddrCheck.EntryChecked(b, id) && EntrySifted(e, b.info[id]);
  }

  /** Reading a record whose valid addresses are all public gives a consistent manager, or fails. */
  lemma PublicRecordIsConsistent(e: Env, d: Disk, checksum: nat)
    requires AllPublic(e, d.newInfos) && AllPublic(e, d.triedInfos) && Unserialized(e, d, checksum).Ok?
    ensures Consistent(e, Unserialized(e, d, checksum).book)
  {
    hide Sifted; hide AllNew; hide AllTried; hide PlacedAll; hide Pruned; hide Consistent; hide AddrCheck.Checked;
    LoadedIsConsistent(e, d, checksum);
    var b1 := AllNew(e, Ops.Empty(d.key), d.newInfos);
    EmptySifted(e, d.key);
    AllNewSifted(e, Ops.Empty(d.key), d.newInfos);
    var b2 := AllTried(e, b1, d.triedInfos);
    AllTriedSifted(e, b1, d.triedInfos);
    var b := Unserialized(e, d, checksum).book;
    var b3 := PlacedAll(e, b2, 0, d.entries, |d.newInfos|, true);
    var b4 := PlacedAll(e, b2, 0, d.entries, |d.newInfos|, false);
    PlacedAllSifted(e, b2, 0, d.entries, |d.newInfos|, true);
    PlacedAllSifted(e, b2, 0, d.entries, |d.newInfos|, false);
    PrunedSifted(e, b3, Nowhere(b3));
    PrunedSifted(e, b4, Nowhere(b4));
    assert Sifted(e, b);
    forall id | id in b.info ensures e.Routable(b.info[id].service.ip) { SiftedIsRoutable(e, b, id); }
  }

  lemma EmptySifted(e: Env, key: nat)
    ensures Sifted(e, Ops.Empty(key))
  {
  }

  /** A record with a single tried entry, the address of which is valid but not public. */
  function PrivateRecord(key: nat, d: DiskInfo, checksum: nat): Disk {
    Disk(FILE_FORMAT, INCOMPATIBILITY_BASE + 4, key, Flipped(NEW_BUCKET_COUNT), [], [d], [], checksum)
  }

  /** Reading it succeeds, and the result is not consistent. */
  lemma PrivateRecordIsRead(e: Env, key: nat, d: DiskInfo, checksum: nat)
    requires key != 0 && d.lastSuccess > 0 && e.valid(d.service.ip) && !e.public(d.service.ip)
    ensures var r := Unserialized(e, PrivateRecord(key, d, checksum), checksum);
            r.Ok? && !Consistent(e, r.book)
  {
    var b := OnlyTried(e, key, d);
    OnlyTriedIsChecked(e, key, d);
    LoadedOnly(e, key, d, checksum);
    assert Id(0) in b.info && !e.Routable(b.info[Id(0)].service.ip);
    hide AddrCheck.Checked; hide Consistent; hide Unserialized;
    LoadedIsConsistent(e, PrivateRecord(key, d, checksum), checksum);
  }

  function OnlyTried(e: Env, key: nat, d: DiskInfo): Book {
    Book(key, 1, map[Id(0) := ReadInfo(d, 0).(inTried := true)], map[d.service := Id(0)], [Id(0)],
         map[], map[TriedSlot(e, key, d.service) := Id(0)], 0, 1, map[e.network(d.service.ip) := Tally(0, 1)], {}, 1)
  }

  lemma LoadedOnly(e: Env, key: nat, d: DiskInfo, checksum: nat)
    requires e.valid(d.service.ip) && AddrCheck.Checked(e, OnlyTried(e, key, d))
    ensures Unserialized(e, PrivateRecord(key, d, checksum), checksum) == Ok(OnlyTried(e, key, d))
  {
    hide AddrCheck.Checked; hide TriedSlot;
    var b := OnlyTried(e, key, d);
    assert [d][..0] == [];
    assert AllTried(e, Ops.Empty(key), [d]) == WithTried(e, Ops.Empty(key), d) == b;
    assert Nowhere(b) == {};
  }

  lemma OnlyTriedIsChecked(e: Env, key: nat, d: DiskInfo)
    requires key != 0 && d.lastSuccess > 0
    ensures AddrCheck.Checked(e, OnlyTried(e, key, d))
  {
    var b, n := OnlyTried(e, key, d), e.network(d.service.ip);
    assert SlotsOf(b.newT, Id(0)) == {};
    assert Ids(e, b.info, All(true)) == {Id(0)} && Ids(e, b.info, All(false)) == {};
    assert Ids(e, b.info, On(n, true)) == {Id(0)} && Ids(e, b.info, On(n, false)) == {};
    assert AddrCheck.Networks(e, b.info) == {n} && b.counts.Keys == {n};
  }

  // ---- how many entries are written ----

  /** The lists that are written are as long as the counts that are written with them. */
  lemma ListedCounts(e: Env, b: Book, order: seq<Id>, tried: bool)
    requires Consistent(e, b) && IsOrder(b, order)
    ensures |Listed(b, order, tried)| == if tried then b.nTried else b.nNew
  {
    hide TablesOk; hide AddressesOk; hide OrderOk; hide TalliesOk; hide CollisionsOk; hide Listed; hide Ids;
    var ids := Listed(b, order, tried);
    ListsOfBook(e, b, order, tried);
    AddrCheck.ElementsSize(ids);
    ListIsIds(e, b, ids, tried);
    AddrCheck.AllCounted(e, b);
  }

  lemma ListIsIds(e: Env, b: Book, ids: seq<Id>, tried: bool)
    requires Lists(b, ids, tried)
    ensures AddrCheck.Elements(ids) == Ids(e, b.info, All(tried))
  {
  }
}
