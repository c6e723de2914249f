/** The operations of the address manager on a book, and what every run of them keeps. */
module AddrOps {
  import opened Numbers
  import opened Wrappers
  import opened AddrBook

  // ---- the new table ----

  /** Empties a slot of the new table; an entry that loses its last slot is deleted. */
  function ClearNew(e: Env, b: Book, s: Slot): Book {
    if s in b.newT && b.newT[s] in b.info then
      var c, id := Unref(b, s), b.newT[s];
      if c.info[id].refCount == 0 && CanDrop(c, id) then Deleted(e, c, id) else c
    else b
  }

  lemma ClearNewKeeps(e: Env, b: Book, s: Slot, limbo: set<Id>, u: set<Id>)
    requires Almost(e, b, limbo, u)
    ensures Almost(e, ClearNew(e, b, s), limbo, u)
  {
    if s in b.newT {
      UnrefKeeps(e, b, s, limbo, u);
      var c, id := Unref(b, s), b.newT[s];
      if c.info[id].refCount == 0 {
        DeletedKeeps(e, c, id, limbo + {id}, u);
        AndBack(limbo, id);
      }
    }
  }

  /** What stays as it was when entry x loses a slot or goes for good. */
  ghost predicate OnlyTouches(b: Book, c: Book, x: Id) {
    && c.triedT == b.triedT && c.key == b.key && c.idCount == b.idCount
    && c.collisions == b.collisions && c.lastGood == b.lastGood
    && (forall j | j in b.info && j != x :: j in c.info && c.info[j] == b.info[j].(randomPos := c.info[j].randomPos))
    && SameServices(b, c)
  }

  /** No entry is new, and those that are left are about the addresses they were about. */
  ghost predicate SameServices(b: Book, c: Book) {
    c.info.Keys <= b.info.Keys && forall j | j in c.info :: c.info[j].service == b.info[j].service
  }

  lemma UnrefFrame(b: Book, s: Slot)
    requires s in b.newT && b.newT[s] in b.info
    ensures OnlyTouches(b, Unref(b, s), b.newT[s])
  {
  }

  lemma DeletedFrame(e: Env, b: Book, id: Id)
    requires CanDrop(b, id)
    ensures OnlyTouches(b, Deleted(e, b, id), id) && Deleted(e, b, id).newT == b.newT
  {
  }

  lemma OnlyTouchesAgain(b: Book, c: Book, d: Book, x: Id)
    requires OnlyTouches(b, c, x) && OnlyTouches(c, d, x)
    ensures OnlyTouches(b, d, x)
  {
  }

  /** Only the entry that was in the slot is touched. */
  lemma ClearNewFrame(e: Env, b: Book, s: Slot)
    requires s in b.newT ==> b.newT[s] in b.info
    ensures ClearNew(e, b, s).newT == b.newT - {s}
    ensures if s in b.newT then OnlyTouches(b, ClearNew(e, b, s), b.newT[s]) else ClearNew(e, b, s) == b
  {
    if s in b.newT {
      var c, id := Unref(b, s), b.newT[s];
      UnrefFrame(b, s);
      if c.info[id].refCount == 0 && CanDrop(c, id) {
        DeletedFrame(e, c, id);
        OnlyTouchesAgain(b, c, Deleted(e, c, id), id);
      }
    } else {
      assert b.newT - {s} == b.newT;
    }
  }

  // ---- moving an entry to the tried table ----

  /** The slot of the new table that an entry's first source selects. */
  function OwnNewSlot(e: Env, b: Book, id: Id): Slot
    requires id in b.info
  {
    NewSlot(e, b.key, b.info[id].service, b.info[id].source)
  }

  function OwnTriedSlot(e: Env, b: Book, id: Id): Slot
    requires id in b.info
  {
    TriedSlot(e, b.key, b.info[id].service)
  }

  /** The entry in a tried slot goes back to the new table, over whatever is there. */
  function Evicted(e: Env, b: Book, s: Slot): Book
    requires s in b.triedT && b.triedT[s] in b.info
  {
    var id := b.triedT[s];
    var u := OwnNewSlot(e, b, id);
    var c := ClearNew(e, Untried(e, b, s), u);
    if id in c.info then Ref(Bump(c, NetworkOf(e, c, id), false, 1), u, id) else c
  }

  /** An entry that is in no table and not counted goes into a free slot and is counted again. */
  lemma RefBack(e: Env, b: Book, s: Slot, id: Id, limbo: set<Id>, u: set<Id>)
    requires Almost(e, b, limbo, u) && id in limbo && id in u && Fits(e, b, s, id)
    ensures Almost(e, Ref(Bump(b, NetworkOf(e, b, id), false, 1), s, id), limbo - {id}, u - {id})
  {
    RecountKeeps(e, b, id, limbo, u);
    RefKeeps(e, Bump(b, NetworkOf(e, b, id), false, 1), s, id, limbo, u - {id});
  }

  lemma UntriedFrame(e: Env, b: Book, s: Slot)
    requires s in b.triedT && b.triedT[s] in b.info
    ensures var c, id := Untried(e, b, s), b.triedT[s];
            && c.newT == b.newT && c.triedT == b.triedT - {s} && c.key == b.key
            && c.info == b.info[id := b.info[id].(inTried := false)]
            && c.idCount == b.idCount && c.collisions == b.collisions && c.lastGood == b.lastGood
  {
  }

  lemma EvictedKeeps(e: Env, b: Book, s: Slot, limbo: set<Id>, u: set<Id>)
    requires Almost(e, b, limbo, u) && s in b.triedT
    ensures b.triedT[s] in b.info && b.triedT[s] in Evicted(e, b, s).info
    ensures Almost(e, Evicted(e, b, s), limbo, u)
  {
    var id := b.triedT[s];
    UntriedKeeps(e, b, s, limbo, u);
    UntriedFrame(e, b, s);
    var c, slot := Untried(e, b, s), OwnNewSlot(e, b, id);
    EvictedInto(e, c, slot, id, limbo + {id}, u + {id});
    AndBack(limbo, id);
    AndBack(u, id);
  }

  lemma AndBack<T>(s: set<T>, x: T)
    requires x !in s
    ensures s + {x} - {x} == s
  {
  }

  lemma EvictedInto(e: Env, c: Book, slot: Slot, id: Id, limbo: set<Id>, u: set<Id>)
    requires Almost(e, c, limbo, u) && id in limbo && id in u && slot == OwnNewSlot(e, c, id)
    ensures var d := ClearNew(e, c, slot);
            && id in d.info
            && Almost(e, Ref(Bump(d, NetworkOf(e, d, id), false, 1), slot, id), limbo - {id}, u - {id})
  {
    InLimbo(e, c, id, limbo);
    NotListed(e, c, id, limbo);
    hide TablesOk; hide AddressesOk; hide OrderOk; hide TalliesOk;
    ClearNewKeeps(e, c, slot, limbo, u);
    ClearNewFrame(e, c, slot);
    RefBack(e, ClearNew(e, c, slot), slot, id, limbo, u);
  }

  /** What moving entries around leaves alone: the key, the ids handed out, the pending collisions,
      and of every other entry all but its place in the order and its number of slots. */
  lemma EvictedFrame(e: Env, b: Book, s: Slot, x: Id)
    requires s in b.triedT && b.triedT[s] in b.info && x in b.info && x != b.triedT[s]
    requires forall t | t in b.newT :: b.newT[t] in b.info && b.newT[t] != x
    ensures var c := Evicted(e, b, s);
            && c.triedT == b.triedT - {s} && c.key == b.key && c.idCount == b.idCount
            && c.collisions == b.collisions && c.lastGood == b.lastGood && SameServices(b, c)
            && x in c.info && c.info[x] == b.info[x].(randomPos := c.info[x].randomPos)
  {
    hide ClearNew; hide Untried; hide NewSlot;
    var id := b.triedT[s];
    UntriedFrame(e, b, s);
    ClearNewFrame(e, Untried(e, b, s), OwnNewSlot(e, b, id));
  }

  /** Takes an entry out of the new table and puts it into its tried slot, from which another one
      may have to go. */
  ghost function MakeTried(e: Env, b: Book, id: Id): Book
    requires id in b.info
  {
    var c := Bump(AllUnref(b, id), NetworkOf(e, b, id), false, -1);
    var s := OwnTriedSlot(e, b, id);
    var d := if s in c.triedT && c.triedT[s] in c.info then Evicted(e, c, s) else c;
    if id in d.info then Tried(e, d, s, id) else d
  }

  /** What a move to the tried table leaves alone, and what it does to that table. */
  ghost predicate MovedTo(b: Book, c: Book, s: Slot, id: Id) {
    && c.triedT == b.triedT[s := id] && c.key == b.key && c.idCount == b.idCount
    && c.collisions == b.collisions && c.lastGood == b.lastGood && SameServices(b, c)
  }

  lemma Gone<T>(x: T)
    ensures {x} - {x} == {}
  {
  }

  lemma Only<T>(x: T)
    ensures {} + {x} == {x}
  {
  }

  lemma IntoEmpty(e: Env, c: Book, id: Id, s: Slot)
    requires Almost(e, c, {id}, {id}) && s == OwnTriedSlot(e, c, id) && c.info[id].lastSuccess > 0 && s !in c.triedT
    ensures Almost(e, Tried(e, c, s, id), {}, {}) && MovedTo(c, Tried(e, c, s, id), s, id)
  {
    TriedKeeps(e, c, s, id, {id}, {id});
    Gone(id);
  }

  lemma IntoTaken(e: Env, c: Book, id: Id, s: Slot)
    requires Almost(e, c, {id}, {id}) && s == OwnTriedSlot(e, c, id) && c.info[id].lastSuccess > 0 && s in c.triedT
    ensures c.triedT[s] in c.info && id in Evicted(e, c, s).info
    ensures Almost(e, Tried(e, Evicted(e, c, s), s, id), {}, {})
    ensures MovedTo(c, Tried(e, Evicted(e, c, s), s, id), s, id)
  {
    NotListed(e, c, id, {id});
    assert TriedEntryOk(e, c, s) && EntryOk(e, c, id, {id});
    EvictedKeeps(e, c, s, {id}, {id});
    EvictedFrame(e, c, s, id);
    Overwrite(c.triedT, s, id);
    IntoEmpty(e, Evicted(e, c, s), id, s);
  }

  lemma Overwrite<K, V>(t: map<K, V>, k: K, v: V)
    ensures (t - {k})[k := v] == t[k := v]
  {
  }

  /** An entry in limbo is in no slot of the new table. */
  lemma NotListed(e: Env, b: Book, id: Id, limbo: set<Id>)
    requires TablesOk(e, b, limbo) && id in limbo
    ensures forall t | t in b.newT :: b.newT[t] in b.info && b.newT[t] != id
  {
    assert EntryOk(e, b, id, limbo);
    forall t | t in b.newT
      ensures b.newT[t] in b.info && b.newT[t] != id
    {
      assert NewEntryOk(e, b, t);
      assert b.newT[t] == id ==> t in SlotsOf(b.newT, id);
    }
  }

  lemma OutOfNew(e: Env, b: Book, id: Id)
    requires Almost(e, b, {}, {}) && id in b.info && !b.info[id].inTried
    ensures Almost(e, Bump(AllUnref(b, id), NetworkOf(e, b, id), false, -1), {id}, {id})
  {
    AllUnrefKeeps(e, b, id, {}, {});
    Only(id);
    RecountKeeps(e, AllUnref(b, id), id, {id}, {});
  }

  lemma MakeTriedKeeps(e: Env, b: Book, id: Id)
    requires Almost(e, b, {}, {}) && id in b.info && !b.info[id].inTried && b.info[id].lastSuccess > 0
    ensures Almost(e, MakeTried(e, b, id), {}, {})
    ensures MovedTo(b, MakeTried(e, b, id), OwnTriedSlot(e, b, id), id)
  {
    OutOfNew(e, b, id);
    var c, s := Bump(AllUnref(b, id), NetworkOf(e, b, id), false, -1), OwnTriedSlot(e, b, id);
    assert c.triedT == b.triedT && OwnTriedSlot(e, c, id) == s;
    if s in c.triedT {
      IntoTaken(e, c, id, s);
    } else {
      IntoEmpty(e, c, id, s);
    }
  }

  // ---- statistics ----

  /** Two entries that differ in nothing but times, services and attempts. */
  predicate OnlyStats(i: AddrInfo, i': AddrInfo) {
    i' == i.(time := i'.time, services := i'.services, lastTry := i'.lastTry, lastCountAttempt := i'.lastCountAttempt,
             lastSuccess := i'.lastSuccess, attempts := i'.attempts)
  }

  function Touch(b: Book, id: Id, i': AddrInfo): Book { b.(info := b.info[id := i']) }

  lemma TouchKeeps(e: Env, b: Book, id: Id, i': AddrInfo, limbo: set<Id>, u: set<Id>)
    requires Almost(e, b, limbo, u) && id in b.info && OnlyStats(b.info[id], i')
    requires i'.lastTry >= 0 && i'.lastSuccess >= 0 && (i'.inTried ==> i'.lastSuccess > 0)
    ensures Almost(e, Touch(b, id, i'), limbo, u)
  {
    hide TablesOk; hide AddressesOk; hide OrderOk; hide TalliesOk;
    TouchTables(e, b, id, i', limbo);
    TouchOrder(e, b, id, i');
    SameTallies(e, b, Touch(b, id, i'), u);
  }

  lemma TouchTables(e: Env, b: Book, id: Id, i': AddrInfo, limbo: set<Id>)
    requires TablesOk(e, b, limbo) && id in b.info && OnlyStats(b.info[id], i')
    ensures TablesOk(e, Touch(b, id, i'), limbo)
  {
    var b' := Touch(b, id, i');
    forall s | s in b'.newT ensures NewEntryOk(e, b', s) { assert NewEntryOk(e, b, s); }
    forall s | s in b'.triedT ensures TriedEntryOk(e, b', s) { assert TriedEntryOk(e, b, s); }
    forall j | j in b'.info ensures EntryOk(e, b', j, limbo) { assert EntryOk(e, b, j, limbo); }
  }

  lemma TouchOrder(e: Env, b: Book, id: Id, i': AddrInfo)
    requires AddressesOk(e, b) && OrderOk(b) && id in b.info && OnlyStats(b.info[id], i')
    ensures AddressesOk(e, Touch(b, id, i')) && OrderOk(Touch(b, id, i'))
  {
    var b' := Touch(b, id, i');
    forall j | j in b'.info ensures IdOk(e, b', j) && PlaceOk(b', j) { assert IdOk(e, b, j) && PlaceOk(b, j); }
    forall s | s in b'.addr ensures ServiceOk(b', s) { assert ServiceOk(b, s); }
    forall p | 0 <= p < |b'.random| ensures SpotOk(b', p) { assert SpotOk(b, p); }
  }

  // ---- the public operations ----

  const HOUR := 3600
  const DAY := 24 * 3600

  predicate Known(b: Book, s: Service) { s in b.addr && b.addr[s] in b.info }

  /** What a repeated announcement does to the entry itself. */
  function Refreshed(i: AddrInfo, a: Address, penalty: int, now: int): AddrInfo {
    var interval := if now - a.time < DAY then HOUR else DAY;
    i.(time := if i.time < a.time - interval - penalty then Max(0, a.time - penalty) else i.time,
       services := i.services + a.services)
  }

  /** Lists an entry under the slot that a source selects, if that slot is free or its holder gives
      way; an entry that then is nowhere goes. */
  function Listed(e: Env, b: Book, id: Id, source: NetAddr, now: int): (bool, Book)
    requires id in b.info
  {
    var s := NewSlot(e, b.key, b.info[id].service, source);
    if s in b.newT && b.newT[s] == id then (false, b)
    else if s !in b.newT || GivesWay(b, s, id, now) then
      var c := ClearNew(e, b, s);
      (true, if id in c.info then Ref(c, s, id) else c)
    else (false, if b.info[id].refCount == 0 && CanDrop(b, id) then Deleted(e, b, id) else b)
  }

  predicate GivesWay(b: Book, s: Slot, id: Id, now: int)
    requires s in b.newT && id in b.info
  {
    && b.newT[s] in b.info
    && (IsTerrible(b.info[b.newT[s]], now) || (b.info[b.newT[s]].refCount > 1 && b.info[id].refCount == 0))
  }

  /** A new entry with its announced time reduced by the penalty. */
  function Entered(e: Env, b: Book, a: Address, source: NetAddr, penalty: int): Book {
    var c := Created(e, b, a, source);
    Touch(c, NextId(b), c.info[NextId(b)].(time := Max(0, a.time - penalty)))
  }

  /** One announced address. `lucky` is the outcome of the random test against repetition. */
  function AddSingle(e: Env, b: Book, a: Address, source: NetAddr, penalty: int, now: int, lucky: bool): (bool, Book) {
    if !e.Routable(a.service.ip) then (false, b)
    else
      var p := if a.service.ip == source then 0 else penalty;
      if Known(b, a.service) then AddedKnown(e, b, b.addr[a.service], a, source, p, now, lucky)
      else Listed(e, Entered(e, b, a, source, p), NextId(b), source, now)
  }

  /** A repeated announcement. */
  function AddedKnown(e: Env, b: Book, id: Id, a: Address, source: NetAddr, penalty: int, now: int, lucky: bool)
      : (bool, Book)
    requires id in b.info
  {
    var i := Refreshed(b.info[id], a, penalty, now);
    var c := Touch(b, id, i);
    if a.time <= i.time || i.inTried || i.refCount == NEW_BUCKETS_PER_ADDRESS || (i.refCount > 0 && !lucky)
    then (false, c)
    else Listed(e, c, id, source, now)
  }

  /** Many announced addresses, one after the other, each at a time of its own and with an outcome of
      the random test of its own: how many were added, and the book. */
  function AddAll(e: Env, b: Book, addrs: seq<Address>, source: NetAddr, penalty: int, nows: seq<int>, lucky: seq<bool>)
      : (nat, Book)
    requires |nows| == |lucky| == |addrs|
    decreases |addrs|
  {
    if addrs == [] then (0, b)
    else
      var n := |addrs| - 1;
      var r := AddAll(e, b, addrs[..n], source, penalty, nows[..n], lucky[..n]);
      var one := AddSingle(e, r.1, addrs[n], source, penalty, nows[n], lucky[n]);
      (r.0 + if one.0 then 1 else 0, one.1)
  }

  lemma AddAllOneMore(e: Env, b: Book, addrs: seq<Address>, n: nat, source: NetAddr, penalty: int,
                      nows: seq<int>, lucky: seq<bool>)
    requires |nows| == |lucky| == |addrs| && n < |addrs|
    ensures var r := AddAll(e, b, addrs[..n], source, penalty, nows[..n], lucky[..n]);
            var one := AddSingle(e, r.1, addrs[n], source, penalty, nows[n], lucky[n]);
            AddAll(e, b, addrs[..n + 1], source, penalty, nows[..n + 1], lucky[..n + 1])
              == (r.0 + if one.0 then 1 else 0, one.1)
  {
    assert addrs[..n + 1][..n] == addrs[..n] && nows[..n + 1][..n] == nows[..n] && lucky[..n + 1][..n] == lucky[..n];
  }

  lemma ListedKeeps(e: Env, b: Book, id: Id, source: NetAddr, now: int, limbo: set<Id>)
    requires Almost(e, b, limbo, {}) && id in b.info && !b.info[id].inTried
    requires limbo == (if b.info[id].refCount == 0 then {id} else {})
    requires b.info[id].refCount < NEW_BUCKETS_PER_ADDRESS
    ensures Almost(e, Listed(e, b, id, source, now).1, {}, {})
  {
    var s := NewSlot(e, b.key, b.info[id].service, source);
    assert EntryOk(e, b, id, limbo);
    assert s in b.newT && b.newT[s] == id ==> s in SlotsOf(b.newT, id);
    assert s in b.newT ==> NewEntryOk(e, b, s);
    hide TablesOk; hide AddressesOk; hide OrderOk; hide TalliesOk;
    if s in b.newT && b.newT[s] == id {
    } else if s !in b.newT || GivesWay(b, s, id, now) {
      IntoCleared(e, b, s, id, limbo);
      assert limbo - {id} == {};
    } else if b.info[id].refCount == 0 {
      DeletedKeeps(e, b, id, limbo, {});
      assert limbo - {id} == {};
    }
  }

  /** Clearing a slot for an entry and putting it there. */
  lemma IntoCleared(e: Env, b: Book, s: Slot, id: Id, limbo: set<Id>)
    requires Almost(e, b, limbo, {}) && id in b.info && !b.info[id].inTried
             && b.info[id].refCount < NEW_BUCKETS_PER_ADDRESS
    requires s.bucket < NEW_BUCKET_COUNT && s.pos == Position(e, b.key, true, s.bucket, b.info[id].service)
    requires s in b.newT ==> b.newT[s] in b.info && b.newT[s] != id
    ensures id in ClearNew(e, b, s).info && Almost(e, Ref(ClearNew(e, b, s), s, id), limbo - {id}, {})
  {
    hide TablesOk; hide AddressesOk; hide OrderOk; hide TalliesOk;
    ClearNewKeeps(e, b, s, limbo, {});
    ClearNewFrame(e, b, s);
    hide ClearNew;
    RefKeeps(e, ClearNew(e, b, s), s, id, limbo, {});
  }

  lemma ListedFrame(e: Env, b: Book, id: Id, source: NetAddr, now: int)
    requires id in b.info && forall t | t in b.newT :: b.newT[t] in b.info
    ensures OnlyLists(b, Listed(e, b, id, source, now).1)
  {
    var s := NewSlot(e, b.key, b.info[id].service, source);
    if s in b.newT && b.newT[s] == id {
    } else if s !in b.newT || GivesWay(b, s, id, now) {
      ClearNewFrame(e, b, s);
    } else if b.info[id].refCount == 0 && CanDrop(b, id) {
      DeletedFrame(e, b, id);
    }
  }

  /** What listing an entry leaves alone. */
  ghost predicate OnlyLists(b: Book, c: Book) {
    && c.triedT == b.triedT && c.key == b.key && c.collisions == b.collisions
    && c.idCount == b.idCount && c.lastGood == b.lastGood && SameServices(b, c)
  }

  // ---- how a book may develop ----

  /** Over time: ids are never reused or redirected, and a taken tried slot is never empty again. */
  ghost predicate Evolves(b: Book, c: Book) {
    && c.key == b.key && b.idCount <= c.idCount && b.triedT.Keys <= c.triedT.Keys
    && forall j | j in c.info && j.n < b.idCount :: j in b.info && c.info[j].service == b.info[j].service
  }

  lemma EvolvesOn(b: Book, c: Book, d: Book)
    requires Evolves(b, c) && Evolves(c, d)
    ensures Evolves(b, d)
  {
  }

  /** Pending collisions stay collisions. */
  lemma CollisionsFollow(e: Env, b: Book, c: Book)
    requires CollisionsOk(e, b) && AddressesOk(e, b) && Evolves(b, c) && c.collisions <= b.collisions
    ensures CollisionsOk(e, c)
  {
  }

  /** The invariant is kept and the book only develops. */
  ghost predicate Keeps(e: Env, b: Book, c: Book) {
    Consistent(e, c) && Evolves(b, c)
  }

  lemma AllListed(e: Env, b: Book, limbo: set<Id>)
    requires TablesOk(e, b, limbo)
    ensures forall t | t in b.newT :: b.newT[t] in b.info
  {
    forall t | t in b.newT ensures b.newT[t] in b.info { assert NewEntryOk(e, b, t); }
  }

  lemma AddKnown(e: Env, b: Book, a: Address, source: NetAddr, penalty: int, now: int, lucky: bool)
    requires Consistent(e, b) && Known(b, a.service)
    ensures Keeps(e, b, AddSingle(e, b, a, source, penalty, now, lucky).1)
  {
    if e.Routable(a.service.ip) {
      AddedKnownKeeps(e, b, b.addr[a.service], a, source, if a.service.ip == source then 0 else penalty, now, lucky);
    } else {
      CollisionsFollow(e, b, b);
    }
  }

  lemma AddedKnownKeeps(e: Env, b: Book, id: Id, a: Address, source: NetAddr, penalty: int, now: int, lucky: bool)
    requires Consistent(e, b) && id in b.info
    ensures Keeps(e, b, AddedKnown(e, b, id, a, source, penalty, now, lucky).1)
  {
    assert EntryOk(e, b, id, {});
    hide TablesOk; hide AddressesOk; hide OrderOk; hide TalliesOk;
    var i := Refreshed(b.info[id], a, penalty, now);
    var c := Touch(b, id, i);
    TouchConsistent(e, b, id, i);
    var d := AddedKnown(e, b, id, a, source, penalty, now, lucky).1;
    if d != c {
      AllListed(e, c, {});
      ListedKeeps(e, c, id, source, now, {});
      ListedFrame(e, c, id, source, now);
      CollisionsFollow(e, b, d);
    }
  }

  lemma CreatedFirst(e: Env, b: Book, a: Address, source: NetAddr)
    requires Almost(e, b, {}, {}) && a.service !in b.addr && e.Routable(a.service.ip)
    ensures Almost(e, Created(e, b, a, source), {NextId(b)}, {})
    ensures NextId(b) in Created(e, b, a, source).info
    ensures Created(e, b, a, source).info[NextId(b)] == Fresh(b, a, source)
  {
    CreatedKeeps(e, b, a, source, {}, {});
    Only(NextId(b));
  }

  lemma EnteredKeeps(e: Env, b: Book, a: Address, source: NetAddr, penalty: int)
    requires Almost(e, b, {}, {}) && a.service !in b.addr && e.Routable(a.service.ip)
    ensures Almost(e, Entered(e, b, a, source, penalty), {NextId(b)}, {})
  {
    hide TablesOk; hide AddressesOk; hide OrderOk; hide TalliesOk;
    var c, time := Created(e, b, a, source), Max(0, a.time - penalty);
    assert Entered(e, b, a, source, penalty) == Touch(c, NextId(b), c.info[NextId(b)].(time := time));
    CreatedFirst(e, b, a, source);
    hide Created;
    TouchTime(e, c, NextId(b), time, {NextId(b)}, {});
  }

  lemma TouchTime(e: Env, b: Book, id: Id, time: int, limbo: set<Id>, u: set<Id>)
    requires Almost(e, b, limbo, u) && id in b.info
    ensures Almost(e, Touch(b, id, b.info[id].(time := time)), limbo, u)
  {
    TouchKeeps(e, b, id, b.info[id].(time := time), limbo, u);
  }

  lemma EnteredFrame(e: Env, b: Book, a: Address, source: NetAddr, penalty: int)
    ensures var c := Entered(e, b, a, source, penalty);
            && Evolves(b, c) && c.collisions == b.collisions && c.triedT == b.triedT
            && NextId(b) in c.info && !c.info[NextId(b)].inTried && c.info[NextId(b)].refCount == 0
            && c.newT == b.newT
  {
  }

  lemma AddUnknown(e: Env, b: Book, a: Address, source: NetAddr, penalty: int, now: int, lucky: bool)
    requires Consistent(e, b) && !Known(b, a.service) && e.Routable(a.service.ip)
    ensures Keeps(e, b, AddSingle(e, b, a, source, penalty, now, lucky).1)
  {
    var p := if a.service.ip == source then 0 else penalty;
    assert a.service in b.addr ==> ServiceOk(b, a.service);
    EnteredKeeps(e, b, a, source, p);
    EnteredFrame(e, b, a, source, p);
    var c, id := Entered(e, b, a, source, p), NextId(b);
    AllListed(e, c, {id});
    ListedKeeps(e, c, id, source, now, {id});
    ListedFrame(e, c, id, source, now);
    CollisionsFollow(e, b, Listed(e, c, id, source, now).1);
  }

  /** Announcing an address keeps the book consistent. */
  lemma AddSingleKeeps(e: Env, b: Book, a: Address, source: NetAddr, penalty: int, now: int, lucky: bool)
    requires Consistent(e, b)
    ensures Keeps(e, b, AddSingle(e, b, a, source, penalty, now, lucky).1)
  {
    if e.Routable(a.service.ip) {
      if Known(b, a.service) {
        AddKnown(e, b, a, source, penalty, now, lucky);
      } else {
        AddUnknown(e, b, a, source, penalty, now, lucky);
      }
    }
  }

  /** A successful connection. `test` asks not to evict another entry before it has been tried. */
  ghost function Good(e: Env, b: Book, s: Service, test: bool, time: int): (bool, Book) {
    var b := b.(lastGood := time);
    if !Known(b, s) then (false, b)
    else
      var id := b.addr[s];
      var c := Touch(b, id, b.info[id].(lastSuccess := time, lastTry := time, attempts := 0));
      GoodEntry(e, c, id, test)
  }

  /** A book in which nothing has changed but what is remembered beside the entries. */
  ghost predicate SameEntries(b: Book, c: Book) {
    c == b.(collisions := c.collisions, lastGood := c.lastGood)
  }

  lemma SameEntriesTables(e: Env, b: Book, c: Book)
    requires TablesOk(e, b, {}) && SameEntries(b, c)
    ensures TablesOk(e, c, {})
  {
    forall s | s in c.newT ensures NewEntryOk(e, c, s) { assert NewEntryOk(e, b, s); }
    forall s | s in c.triedT ensures TriedEntryOk(e, c, s) { assert TriedEntryOk(e, b, s); }
    forall j | j in c.info ensures EntryOk(e, c, j, {}) { assert EntryOk(e, b, j, {}); }
  }

  lemma SameEntriesOrder(e: Env, b: Book, c: Book)
    requires AddressesOk(e, b) && OrderOk(b) && SameEntries(b, c) && forall id | id in c.collisions :: id.n < c.idCount
    ensures AddressesOk(e, c) && OrderOk(c)
  {
    forall j | j in c.info ensures IdOk(e, c, j) && PlaceOk(c, j) { assert IdOk(e, b, j) && PlaceOk(b, j); }
    forall s | s in c.addr ensures ServiceOk(c, s) { assert ServiceOk(b, s); }
    forall p | 0 <= p < |c.random| ensures SpotOk(c, p) { assert SpotOk(b, p); }
  }

  lemma SameEntriesKeep(e: Env, b: Book, c: Book)
    requires Consistent(e, b) && SameEntries(b, c) && CollisionsOk(e, c)
             && forall id | id in c.collisions :: id.n < c.idCount
    ensures Consistent(e, c)
  {
    hide TablesOk; hide AddressesOk; hide OrderOk; hide TalliesOk;
    SameEntriesTables(e, b, c);
    SameEntriesOrder(e, b, c);
    SameTallies(e, b, c, {});
  }

  lemma SameEntriesEvolve(b: Book, c: Book)
    requires SameEntries(b, c)
    ensures Evolves(b, c)
  {
  }

  lemma LastGoodKeeps(e: Env, b: Book, time: int)
    requires Consistent(e, b)
    ensures Consistent(e, b.(lastGood := time))
  {
    SameEntriesKeep(e, b, b.(lastGood := time));
  }

  lemma InRange(e: Env, b: Book, id: Id)
    requires AddressesOk(e, b) && id in b.info
    ensures forall j | j in b.collisions + {id} :: j.n < b.idCount
  {
    assert IdOk(e, b, id);
  }

  lemma CollidesKeeps(e: Env, b: Book, id: Id)
    requires Consistent(e, b) && id in b.info && OwnTriedSlot(e, b, id) in b.triedT
    ensures Keeps(e, b, b.(collisions := b.collisions + {id}))
  {
    InRange(e, b, id);
    hide TablesOk; hide AddressesOk; hide OrderOk; hide TalliesOk;
    var c := b.(collisions := b.collisions + {id});
    SameEntriesKeep(e, b, c);
    SameEntriesEvolve(b, c);
  }

  lemma GoodMoves(e: Env, b: Book, id: Id)
    requires Consistent(e, b) && id in b.info && !b.info[id].inTried && b.info[id].lastSuccess > 0
    ensures Keeps(e, b, MakeTried(e, b, id)) && MakeTried(e, b, id).collisions == b.collisions
  {
    MakeTriedKeeps(e, b, id);
    CollisionsFollow(e, b, MakeTried(e, b, id));
  }

  lemma TouchConsistent(e: Env, b: Book, id: Id, i': AddrInfo)
    requires Consistent(e, b) && id in b.info && OnlyStats(b.info[id], i')
    requires i'.lastTry >= 0 && i'.lastSuccess >= 0 && (i'.inTried ==> i'.lastSuccess > 0)
    ensures Keeps(e, b, Touch(b, id, i'))
  {
    TouchKeeps(e, b, id, i', {}, {});
    CollisionsFollow(e, b, Touch(b, id, i'));
  }

  function Collided(b: Book, id: Id): Book {
    if |b.collisions| < SET_TRIED_COLLISION_SIZE then b.(collisions := b.collisions + {id}) else b
  }

  /** What follows once the entry of a known address has been brought up to date. */
  ghost function GoodEntry(e: Env, c: Book, id: Id, test: bool): (bool, Book)
    requires id in c.info
  {
    if c.info[id].inTried || c.info[id].refCount <= 0 then (false, c)
    else if test && OwnTriedSlot(e, c, id) in c.triedT then (false, Collided(c, id))
    else (true, MakeTried(e, c, id))
  }

  lemma GoodEntryKeeps(e: Env, c: Book, id: Id, test: bool)
    requires Consistent(e, c) && id in c.info && c.info[id].lastSuccess > 0
    ensures Keeps(e, c, GoodEntry(e, c, id, test).1)
    ensures !test ==> GoodEntry(e, c, id, test).1.collisions == c.collisions
  {
    hide Consistent; hide MakeTried;
    if c.info[id].inTried || c.info[id].refCount <= 0 {
    } else if test && OwnTriedSlot(e, c, id) in c.triedT {
      CollidesKeeps(e, c, id);
    } else {
      GoodMoves(e, c, id);
    }
  }

  lemma GoodKeeps(e: Env, b: Book, s: Service, test: bool, time: int)
    requires Consistent(e, b) && time > 0
    ensures Keeps(e, b, Good(e, b, s, test, time).1)
    ensures !test ==> Good(e, b, s, test, time).1.collisions == b.collisions
  {
    LastGoodKeeps(e, b, time);
    var a := b.(lastGood := time);
    if Known(b, s) {
      var id := a.addr[s];
      var c := Touch(a, id, a.info[id].(lastSuccess := time, lastTry := time, attempts := 0));
      TouchConsistent(e, a, id, c.info[id]);
      GoodEntryKeeps(e, c, id, test);
      EvolvesOn(b, c, GoodEntry(e, c, id, test).1);
    }
  }

  function Attempted(i: AddrInfo, countFailure: bool, lastGood: int, time: int): AddrInfo {
    if countFailure && i.lastCountAttempt < lastGood
    then i.(lastTry := time, lastCountAttempt := time, attempts := i.attempts + 1)
    else i.(lastTry := time)
  }

  function Attempt(b: Book, s: Service, countFailure: bool, time: int): Book {
    if !Known(b, s) then b
    else Touch(b, b.addr[s], Attempted(b.info[b.addr[s]], countFailure, b.lastGood, time))
  }

  function Connected(b: Book, s: Service, time: int): Book {
    if Known(b, s) && time - b.info[b.addr[s]].time > 20 * 60
    then Touch(b, b.addr[s], b.info[b.addr[s]].(time := time)) else b
  }

  function SetServices(b: Book, s: Service, services: set<nat>): Book {
    if Known(b, s) then Touch(b, b.addr[s], b.info[b.addr[s]].(services := services)) else b
  }

  lemma AttemptKeeps(e: Env, b: Book, s: Service, countFailure: bool, time: int)
    requires Consistent(e, b) && time >= 0
    ensures Keeps(e, b, Attempt(b, s, countFailure, time))
  {
    hide TablesOk; hide AddressesOk; hide OrderOk; hide TalliesOk;
    if Known(b, s) {
      var c, id := Attempt(b, s, countFailure, time), b.addr[s];
      assert c == Touch(b, id, c.info[id]) && OnlyStats(b.info[id], c.info[id]);
      TouchConsistent(e, b, id, c.info[id]);
    }
  }

  lemma ConnectedKeeps(e: Env, b: Book, s: Service, time: int)
    requires Consistent(e, b)
    ensures Keeps(e, b, Connected(b, s, time))
  {
    hide TablesOk; hide AddressesOk; hide OrderOk; hide TalliesOk;
    if Known(b, s) {
      TouchConsistent(e, b, b.addr[s], b.info[b.addr[s]].(time := time));
    }
  }

  lemma SetServicesKeeps(e: Env, b: Book, s: Service, services: set<nat>)
    requires Consistent(e, b)
    ensures Keeps(e, b, SetServices(b, s, services))
  {
    hide TablesOk; hide AddressesOk; hide OrderOk; hide TalliesOk;
    if Known(b, s) {
      TouchConsistent(e, b, b.addr[s], b.info[b.addr[s]].(services := services));
    }
  }

  // ---- pending collisions ----

  /** What becomes of one pending collision: the book, and whether the collision is settled. */
  ghost function ResolveOne(e: Env, b: Book, id: Id, now: int): (Book, bool) {
    if id !in b.info || !e.valid(b.info[id].service.ip) then (b, true)
    else
      var s := OwnTriedSlot(e, b, id);
      if s !in b.triedT || b.triedT[s] !in b.info then (Good(e, b, b.info[id].service, false, now).1, true)
      else
        var other := b.info[b.triedT[s]];
        if now - other.lastSuccess < REPLACEMENT then (b, true)
        else if now - other.lastTry < REPLACEMENT then
          if now - other.lastTry > 60 then (Good(e, b, b.info[id].service, false, now).1, true) else (b, false)
        else if now - b.info[id].lastSuccess > TEST_WINDOW then (Good(e, b, b.info[id].service, false, now).1, true)
        else (b, false)
  }

  function Settled(b: Book, id: Id, settled: bool): Book {
    if settled then b.(collisions := b.collisions - {id}) else b
  }

  lemma SettledKeeps(e: Env, b: Book, id: Id, settled: bool)
    requires Consistent(e, b)
    ensures Keeps(e, b, Settled(b, id, settled))
  {
    SameEntriesKeep(e, b, Settled(b, id, settled));
    SameEntriesEvolve(b, Settled(b, id, settled));
  }

  lemma ResolveOneKeeps(e: Env, b: Book, id: Id, now: int)
    requires Consistent(e, b) && now > 0
    ensures Keeps(e, b, ResolveOne(e, b, id, now).0)
  {
    hide Consistent; hide Good;
    if id in b.info {
      var c := Good(e, b, b.info[id].service, false, now).1;
      assert ResolveOne(e, b, id, now).0 == b || ResolveOne(e, b, id, now).0 == c;
      GoodKeeps(e, b, b.info[id].service, false, now);
    }
  }

  /** Works off the given collisions from the smallest id on. */
  ghost function Resolve(e: Env, b: Book, todo: set<Id>, now: int): Book
    decreases |todo|
  {
    if todo == {} then b
    else
      var id := Least(todo);
      var r := ResolveOne(e, b, id, now);
      Resolve(e, Settled(r.0, id, r.1), todo - {id}, now)
  }

  ghost function Least(s: set<Id>): (m: Id)
    requires s != {}
    ensures m in s && forall x | x in s :: m.n <= x.n
    decreases |s|
  {
    var x :| x in s;
    if s == {x} then x
    else
      var m := Least(s - {x});
      assert forall y | y in s :: y == x || y in s - {x};
      if m.n < x.n then m else x
  }

  lemma ResolveFirst(e: Env, b: Book, todo: set<Id>, now: int, id: Id)
    requires id in todo && forall x | x in todo :: id.n <= x.n
    ensures var r := ResolveOne(e, b, id, now);
            Resolve(e, b, todo, now) == Resolve(e, Settled(r.0, id, r.1), todo - {id}, now)
  {
    assert id == Least(todo);
  }

  lemma {:induction false} ResolveKeeps(e: Env, b: Book, todo: set<Id>, now: int)
    requires Consistent(e, b) && now > 0
    ensures Keeps(e, b, Resolve(e, b, todo, now))
    decreases |todo|
  {
    if todo != {} {
      var id := Least(todo);
      var r := ResolveOne(e, b, id, now);
      ResolveOneKeeps(e, b, id, now);
      SettledKeeps(e, r.0, id, r.1);
      EvolvesOn(b, r.0, Settled(r.0, id, r.1));
      ResolveKeeps(e, Settled(r.0, id, r.1), todo - {id}, now);
      EvolvesOn(b, Settled(r.0, id, r.1), Resolve(e, b, todo, now));
    }
  }

  /** The entry that a pending collision collides with, if the collision is still one. */
  datatype Selected = Nothing | Entry(info: AddrInfo)

  predicate Selectable(e: Env, b: Book, id: Id) {
    id in b.info ==> OwnTriedSlot(e, b, id) in b.triedT && b.triedT[OwnTriedSlot(e, b, id)] in b.info
  }

  /** A pending collision always has an entry to collide with: the slot is never empty. */
  lemma CollisionHasOpponent(e: Env, b: Book, id: Id)
    requires Consistent(e, b) && id in b.collisions
    ensures Selectable(e, b, id)
    ensures id in b.info ==> b.info[b.triedT[OwnTriedSlot(e, b, id)]].inTried
  {
    if id in b.info {
      assert TriedEntryOk(e, b, OwnTriedSlot(e, b, id));
    }
  }

  function SelectCollision(e: Env, b: Book, id: Id): (Selected, Book)
    requires Selectable(e, b, id)
  {
    if id !in b.info then (Nothing, b.(collisions := b.collisions - {id}))
    else (Entry(b.info[b.triedT[OwnTriedSlot(e, b, id)]]), b)
  }

  // ---- handing out addresses ----

  function AddressOf(i: AddrInfo): Address { Address(i.service, i.time, i.services) }

  /** An entry that passes the filter. */
  predicate Eligible(e: Env, i: AddrInfo, network: Option<nat>, filtered: bool, now: int) {
    && (network.Some? ==> e.netClass(i.service.ip) == network.value)
    && (filtered ==> !IsTerrible(i, now))
  }

  /** How many addresses may be handed out; zero asks for no limit. */
  function Limit(known: nat, maxAddresses: nat, maxPct: nat): nat {
    var n := if maxPct == 0 then known else maxPct * known / 100;
    if maxAddresses == 0 || n <= maxAddresses then n else maxAddresses
  }

  /** An address that may be handed out: that of an entry, and past the filter. */
  ghost predicate HandedOut(e: Env, b: Book, a: Address, network: Option<nat>, filtered: bool, now: int) {
    && Known(b, a.service) && a == AddressOf(b.info[b.addr[a.service]])
    && Eligible(e, b.info[b.addr[a.service]], network, filtered, now)
  }

  /** Of the first n entries in the random order exactly those that pass the filter are in r, once. */
  ghost predicate Passed(e: Env, b: Book, r: seq<Address>, n: int, network: Option<nat>, filtered: bool, now: int) {
    && (forall a | a in r :: HandedOut(e, b, a, network, filtered, now) && b.info[b.addr[a.service]].randomPos < n)
    && (forall i, j | 0 <= i < j < |r| :: r[i].service != r[j].service)
    && (forall id | id in b.info && b.info[id].randomPos < n ::
          Eligible(e, b.info[id], network, filtered, now) ==> AddressOf(b.info[id]) in r)
  }

  /** Only places from n on change, so that what has been handed out stays right. */
  lemma PassedAfterSwap(e: Env, b: Book, r: seq<Address>, n: nat, at: nat, network: Option<nat>, filtered: bool,
                        now: int)
    requires OrderOk(b) && n <= at < |b.random| && Passed(e, b, r, n, network, filtered, now)
    ensures b.random[n] in b.info && b.random[at] in b.info
    ensures Passed(e, Swapped(b, n, at), r, n, network, filtered, now)
  {
    assert SpotOk(b, n) && SpotOk(b, at);
    SwapReorders(b, n, at);
    SwapFrom(b, n, at);
    hide OrderOk; hide Swapped; hide Eligible;
    var c := Swapped(b, n, at);
    forall a | a in r
      ensures HandedOut(e, c, a, network, filtered, now) && c.info[c.addr[a.service]].randomPos < n
    {
      assert HandedOut(e, b, a, network, filtered, now);
      SameEligible(e, b.info[b.addr[a.service]], c.info[c.addr[a.service]], network, filtered, now);
    }
    forall id | id in c.info && c.info[id].randomPos < n
      ensures Eligible(e, c.info[id], network, filtered, now) ==> AddressOf(c.info[id]) in r
    {
      SameEligible(e, b.info[id], c.info[id], network, filtered, now);
    }
  }

  /** Neither the filter nor the address depends on the place. */
  lemma SameEligible(e: Env, i: AddrInfo, j: AddrInfo, network: Option<nat>, filtered: bool, now: int)
    requires j == i.(randomPos := j.randomPos)
    ensures Eligible(e, i, network, filtered, now) == Eligible(e, j, network, filtered, now)
            && AddressOf(i) == AddressOf(j)
  {
  }

  /** No place before n changes. */
  lemma SwapFrom(b: Book, n: nat, at: nat)
    requires n <= at < |b.random| && b.random[n] in b.info && b.random[at] in b.info
    requires b.info[b.random[n]].randomPos == n && b.info[b.random[at]].randomPos == at
    ensures Swapped(b, n, at).addr == b.addr
    ensures forall id | id in b.info ::
              id in Swapped(b, n, at).info && (b.info[id].randomPos < n <==> Swapped(b, n, at).info[id].randomPos < n)
  {
  }

  lemma PassedNext(e: Env, b: Book, r: seq<Address>, n: nat, network: Option<nat>, filtered: bool, now: int)
    requires OrderOk(b) && AddressesOk(e, b) && n < |b.random| && Passed(e, b, r, n, network, filtered, now)
    ensures b.random[n] in b.info
    ensures var i := b.info[b.random[n]];
            Passed(e, b, if Eligible(e, i, network, filtered, now) then r + [AddressOf(i)] else r, n + 1,
                   network, filtered, now)
  {
    var x := b.random[n];
    assert SpotOk(b, n) && IdOk(e, b, x);
    forall id | id in b.info && b.info[id].randomPos < n + 1
      ensures b.info[id].randomPos < n || id == x
    {
      assert PlaceOk(b, id);
    }
    forall a | a in r ensures a.service != b.info[x].service { assert HandedOut(e, b, a, network, filtered, now); }
  }

  lemma PassedOneMore(e: Env, b: Book, r: seq<Address>, n: nat, at: nat, network: Option<nat>, filtered: bool, now: int)
    requires Consistent(e, b) && n <= at < |b.random| && Passed(e, b, r, n, network, filtered, now)
    ensures b.random[n] in b.info && b.random[at] in b.info
    ensures var c := Swapped(b, n, at);
            && Consistent(e, c) && Reordered(b, c) && |c.random| == |b.random| && c.random[n] in c.info
            && var i := c.info[c.random[n]];
               Passed(e, c, if Eligible(e, i, network, filtered, now) then r + [AddressOf(i)] else r, n + 1,
                      network, filtered, now)
  {
    hide Passed; hide Swapped; hide TablesOk; hide AddressesOk; hide OrderOk; hide TalliesOk; hide CollisionsOk;
    SwapConsistent(e, b, n, at);
    SwapKeepsOrder(b, n, at);
    PassedAfterSwap(e, b, r, n, at, network, filtered, now);
    PassedNext(e, Swapped(b, n, at), r, n, network, filtered, now);
  }

  lemma PassedNone(e: Env, b: Book, network: Option<nat>, filtered: bool, now: int)
    requires OrderOk(b)
    ensures Passed(e, b, [], 0, network, filtered, now)
  {
    forall id | id in b.info ensures b.info[id].randomPos >= 0 { assert PlaceOk(b, id); }
  }

  lemma PassedGives(e: Env, b: Book, r: seq<Address>, n: int, network: Option<nat>, filtered: bool, now: int)
    requires Passed(e, b, r, n, network, filtered, now)
    ensures forall a | a in r :: HandedOut(e, b, a, network, filtered, now)
    ensures forall i, j | 0 <= i < j < |r| :: r[i].service != r[j].service
  {
  }

  lemma PassedAll(e: Env, b: Book, r: seq<Address>, network: Option<nat>, filtered: bool, now: int)
    requires OrderOk(b) && Passed(e, b, r, |b.random|, network, filtered, now)
    ensures forall id | id in b.info && Eligible(e, b.info[id], network, filtered, now) :: AddressOf(b.info[id]) in r
  {
    forall id | id in b.info ensures b.info[id].randomPos < |b.random| { assert PlaceOk(b, id); }
  }

  // ---- runs ----

  datatype Op =
    | Add(a: Address, source: NetAddr, penalty: int, now: int, lucky: bool)
    | MarkGood(s: Service, time: int)
    | MarkAttempt(s: Service, countFailure: bool, time: int)
    | MarkConnected(s: Service, time: int)
    | MarkServices(s: Service, services: set<nat>)
    | ResolveCollisions(now: int)
    | SelectTriedCollision(pick: Id)
    | Swap(p: nat, q: nat)   // the one effect that handing out addresses has

  /** What callers promise: positive times. */
  predicate Legal(op: Op) {
    match op
    case MarkGood(_, time) => time > 0
    case MarkAttempt(_, _, time) => time >= 0
    case ResolveCollisions(now) => now > 0
    case _ => true
  }

  ghost function Do(e: Env, b: Book, op: Op): Book {
    match op
    case Add(a, source, penalty, now, lucky) => AddSingle(e, b, a, source, penalty, now, lucky).1
    case MarkGood(s, time) => Good(e, b, s, true, time).1
    case MarkAttempt(s, countFailure, time) => Attempt(b, s, countFailure, time)
    case MarkConnected(s, time) => Connected(b, s, time)
    case MarkServices(s, services) => SetServices(b, s, services)
    case ResolveCollisions(now) => Resolve(e, b, b.collisions, now)
    case SelectTriedCollision(pick) =>
      if pick in b.collisions && Selectable(e, b, pick) then SelectCollision(e, b, pick).1 else b
    case Swap(p, q) =>
      if p < |b.random| && q < |b.random| && b.random[p] in b.info && b.random[q] in b.info then Swapped(b, p, q) else b
  }

  lemma SwapConsistent(e: Env, b: Book, p: nat, q: nat)
    requires Consistent(e, b) && p < |b.random| && q < |b.random|
    ensures b.random[p] in b.info && b.random[q] in b.info
    ensures Keeps(e, b, Swapped(b, p, q))
  {
    SwapKeepsOrder(b, p, q);
    ReorderedKeeps(e, b, Swapped(b, p, q), {}, {});
    CollisionsFollow(e, b, Swapped(b, p, q));
  }

  lemma DoKeeps(e: Env, b: Book, op: Op)
    requires Consistent(e, b) && Legal(op)
    ensures Keeps(e, b, Do(e, b, op))
  {
    hide Consistent; hide Evolves; hide AddSingle; hide Good; hide Resolve; hide Swapped;
    match op
    case Add(a, source, penalty, now, lucky) => AddSingleKeeps(e, b, a, source, penalty, now, lucky);
    case MarkGood(s, time) => GoodKeeps(e, b, s, true, time);
    case MarkAttempt(s, countFailure, time) => AttemptKeeps(e, b, s, countFailure, time);
    case MarkConnected(s, time) => ConnectedKeeps(e, b, s, time);
    case MarkServices(s, services) => SetServicesKeeps(e, b, s, services);
    case ResolveCollisions(now) => ResolveKeeps(e, b, b.collisions, now);
    case SelectTriedCollision(pick) =>
      assert Do(e, b, op) == b || Do(e, b, op) == Settled(b, pick, true);
      SettledKeeps(e, b, pick, true);
      SettledKeeps(e, b, pick, false);
    case Swap(p, q) =>
      if p < |b.random| && q < |b.random| {
        SwapConsistent(e, b, p, q);
        assert Do(e, b, op) == Swapped(b, p, q);
      } else {
        assert Do(e, b, op) == b;
        SettledKeeps(e, b, NextId(b), false);
      }
  }

  ghost function Run(e: Env, b: Book, ops: seq<Op>): Book
    decreases |ops|
  {
    if ops == [] then b else Run(e, Do(e, b, ops[0]), ops[1..])
  }

  /** Every run keeps the book consistent; over it ids are never redirected and a tried slot, once
      taken, is never empty again. */
  lemma {:induction false} RunKeeps(e: Env, b: Book, ops: seq<Op>)
    requires Consistent(e, b) && forall k | 0 <= k < |ops| :: Legal(ops[k])
    ensures Keeps(e, b, Run(e, b, ops))
    decreases |ops|
  {
    if ops != [] {
      var c := Do(e, b, ops[0]);
      DoKeeps(e, b, ops[0]);
      RunKeeps(e, c, ops[1..]);
      EvolvesOn(b, c, Run(e, b, ops));
    }
  }

  function Empty(key: nat): Book {
    Book(key, 0, map[], map[], [], map[], map[], 0, 0, map[], {}, 1)
  }

  lemma EmptyConsistent(e: Env, key: nat)
    requires key != 0
    ensures Consistent(e, Empty(key))
  {
    var b := Empty(key);
    forall k ensures Kept(b, k) == |Ids(e, b.info, k) - {}| {
      assert Ids(e, b.info, k) == {};
    }
  }

  /** From the start, over any run: the book is consistent, and every pending collision whose entry
      still exists has a tried entry to be compared with. */
  lemma AnyRunIsConsistent(e: Env, key: nat, ops: seq<Op>)
    requires key != 0 && forall k | 0 <= k < |ops| :: Legal(ops[k])
    ensures var b := Run(e, Empty(key), ops);
            Consistent(e, b) && forall id | id in b.collisions :: Selectable(e, b, id)
  {
    EmptyConsistent(e, key);
    RunKeeps(e, Empty(key), ops);
    var b := Run(e, Empty(key), ops);
    forall id | id in b.collisions ensures Selectable(e, b, id) { CollisionHasOpponent(e, b, id); }
  }
}
