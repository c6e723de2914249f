/** What becomes of the entries themselves: which announcements and connections change a table, what
    they change, and that no operation on one address ever costs more than one entry. */
module AddrFlow {
  import opened AddrBook
  import Ops = AddrOps

  /** The entries that are gone. */
  ghost function Lost(b: Book, c: Book): set<Id> { b.info.Keys - c.info.Keys }

  /** The entry in a slot, if any. */
  function Holder(t: map<Slot, Id>, s: Slot): set<Id> { if s in t then {t[s]} else {} }

  /** Only the holder of a slot can be gone, and only if that was its last slot. */
  ghost predicate LostAt(b: Book, c: Book, s: Slot) {
    Lost(b, c) <= Holder(b.newT, s) && forall x | x in Lost(b, c) :: b.info[x].refCount == 1
  }

  /** The entry has the slot, one slot more than before, and at most the former holder is gone. */
  ghost predicate ListedAt(b: Book, c: Book, id: Id, s: Slot) {
    && c.newT == b.newT[s := id] && LostAt(b, c, s)
    && id in b.info && id in c.info && c.info[id].refCount == b.info[id].refCount + 1 && !c.info[id].inTried
    && c.info[id].service == b.info[id].service
  }

  // ---- one slot ----

  lemma ClearedLoses(e: Env, b: Book, s: Slot)
    requires s in b.newT ==> b.newT[s] in b.info
    ensures LostAt(b, Ops.ClearNew(e, b, s), s)
  {
    Ops.ClearNewFrame(e, b, s);
  }

  /** Clearing a slot and putting an entry there. */
  lemma PutInto(e: Env, b: Book, id: Id, s: Slot)
    requires id in b.info && !b.info[id].inTried && (s in b.newT ==> b.newT[s] in b.info && b.newT[s] != id)
    ensures var c := Ops.ClearNew(e, b, s);
            id in c.info && ListedAt(b, Ref(c, s, id), id, s)
  {
    ClearedLoses(e, b, s);
    Ops.ClearNewFrame(e, b, s);
    Ops.Overwrite(b.newT, s, id);
    hide Ops.ClearNew;
  }

  // ---- announcements ----

  /** The slot can be had: it is not the entry's already, and it is free or its holder gives way. */
  predicate CanList(e: Env, b: Book, id: Id, source: NetAddr, now: int)
    requires id in b.info
  {
    var s := NewSlot(e, b.key, b.info[id].service, source);
    s in b.newT ==> b.newT[s] != id && Ops.GivesWay(b, s, id, now)
  }

  /** What listing an entry comes to. */
  ghost predicate ListedOrNot(b: Book, added: bool, c: Book, id: Id, s: Slot, limbo: set<Id>) {
    if added then ListedAt(b, c, id, s) else c.newT == b.newT && c.info.Keys == b.info.Keys - limbo
  }

  lemma ListedOutcome(e: Env, b: Book, id: Id, source: NetAddr, now: int, limbo: set<Id>)
    requires Almost(e, b, limbo, {}) && id in b.info && !b.info[id].inTried
    requires limbo == (if b.info[id].refCount == 0 then {id} else {})
    ensures var r := Ops.Listed(e, b, id, source, now);
            && (r.0 <==> CanList(e, b, id, source, now))
            && ListedOrNot(b, r.0, r.1, id, NewSlot(e, b.key, b.info[id].service, source), limbo)
  {
    var s := NewSlot(e, b.key, b.info[id].service, source);
    hide AddressesOk; hide OrderOk; hide TalliesOk; hide IsTerrible; hide ListedAt; hide Ops.ClearNew;
    Listable(e, b, id, s, limbo);
    if CanList(e, b, id, source, now) {
      PutInto(e, b, id, s);
    } else if id in limbo {
      DeletedKeys(e, b, id);
    }
  }

  lemma Listable(e: Env, b: Book, id: Id, s: Slot, limbo: set<Id>)
    requires TablesOk(e, b, limbo) && OrderOk(b) && id in b.info && limbo <= {id}
    ensures id in limbo ==> CanDrop(b, id) && b.info[id].refCount == 0 && (s in b.newT ==> b.newT[s] != id)
    ensures s in b.newT ==> b.newT[s] in b.info
  {
    assert EntryOk(e, b, id, limbo);
    assert s in b.newT ==> NewEntryOk(e, b, s);
    assert s in b.newT && b.newT[s] == id ==> s in SlotsOf(b.newT, id);
    if id in limbo { DroppedOrder(b, id); }
  }

  lemma DeletedKeys(e: Env, b: Book, id: Id)
    requires CanDrop(b, id)
    ensures Deleted(e, b, id).info.Keys == b.info.Keys - {id} && Deleted(e, b, id).newT == b.newT
  {
  }

  /** Neither statistics nor the place in the order matter to where an entry is listed. */
  lemma ListedBefore(b: Book, b': Book, c: Book, id: Id, s: Slot)
    requires ListedAt(b', c, id, s) && b'.newT == b.newT && id in b.info && b'.info[id].refCount == b.info[id].refCount
    requires b'.info[id].service == b.info[id].service
    requires b'.info.Keys == b.info.Keys && forall x | x in b.info && x != id :: b'.info[x] == b.info[x]
    ensures ListedAt(b, c, id, s)
  {
  }

  /** Bringing an entry up to date before it is listed makes no difference to where it is listed. */
  lemma TouchedOutcome(e: Env, b: Book, id: Id, i: AddrInfo, source: NetAddr, now: int)
    requires Almost(e, Ops.Touch(b, id, i), {}, {}) && id in b.info && Ops.OnlyStats(b.info[id], i)
    requires !i.inTried && i.refCount > 0
    ensures var r := Ops.Listed(e, Ops.Touch(b, id, i), id, source, now);
            && (r.0 <==> CanList(e, b, id, source, now))
            && ListedOrNot(b, r.0, r.1, id, NewSlot(e, b.key, b.info[id].service, source), {})
  {
    hide Almost; hide ListedAt; hide Ops.Listed; hide IsTerrible; hide NewSlot;
    var c := Ops.Touch(b, id, i);
    ListedOutcome(e, c, id, source, now, {});
    var r := Ops.Listed(e, c, id, source, now);
    if r.0 { ListedBefore(b, c, r.1, id, NewSlot(e, b.key, b.info[id].service, source)); }
  }

  /** The announcement is newer than the entry once that has been brought up to date. An entry that is
      behind takes over the announced time less the penalty, so that without a penalty nothing is left. */
  predicate Newer(i: AddrInfo, a: Address, penalty: int, now: int) {
    var interval := if now - a.time < Ops.DAY then Ops.HOUR else Ops.DAY;
    if i.time < a.time - interval - penalty then penalty > 0 && a.time > 0 else i.time < a.time
  }

  /** A repeated announcement counts: it is newer, and brings an entry that is not tried and not in
      eight slots already another one. */
  predicate CountsAgain(e: Env, b: Book, id: Id, a: Address, source: NetAddr, penalty: int, now: int, lucky: bool)
    requires id in b.info
  {
    && Newer(b.info[id], a, penalty, now) && !b.info[id].inTried
    && b.info[id].refCount < NEW_BUCKETS_PER_ADDRESS && lucky && CanList(e, b, id, source, now)
  }

  /** A repeated announcement costs no entry unless it brings another slot. */
  lemma RepeatedOutcome(e: Env, b: Book, id: Id, a: Address, source: NetAddr, penalty: int, now: int, lucky: bool)
    requires Consistent(e, b) && id in b.info
    ensures var r := Ops.AddedKnown(e, b, id, a, source, penalty, now, lucky);
            && (r.0 <==> CountsAgain(e, b, id, a, source, penalty, now, lucky))
            && ListedOrNot(b, r.0, r.1, id, NewSlot(e, b.key, b.info[id].service, source), {})
  {
    hide Almost; hide CollisionsOk; hide NewSlot; hide Ops.Listed; hide ListedAt; hide Ops.OnlyStats; hide CanList;
    Refreshing(e, b, id, a, penalty, now);
    hide Newer;
    var i := Ops.Refreshed(b.info[id], a, penalty, now);
    hide Ops.Refreshed;
    if !(a.time <= i.time || i.inTried || i.refCount == NEW_BUCKETS_PER_ADDRESS || (i.refCount > 0 && !lucky)) {
      TouchedOutcome(e, b, id, i, source, now);
    }
  }

  lemma Refreshing(e: Env, b: Book, id: Id, a: Address, penalty: int, now: int)
    requires Consistent(e, b) && id in b.info
    ensures var i := Ops.Refreshed(b.info[id], a, penalty, now);
            && Almost(e, Ops.Touch(b, id, i), {}, {}) && Ops.OnlyStats(b.info[id], i)
            && i.inTried == b.info[id].inTried && i.refCount == b.info[id].refCount <= NEW_BUCKETS_PER_ADDRESS
            && (!i.inTried ==> i.refCount > 0) && (a.time > i.time <==> Newer(b.info[id], a, penalty, now))
  {
    hide TablesOk; hide AddressesOk; hide OrderOk; hide TalliesOk; hide CollisionsOk; hide Newer; hide Ops.Refreshed;
    var i := Ops.Refreshed(b.info[id], a, penalty, now);
    RefreshedEntry(b.info[id], a, penalty, now);
    Referenced(e, b, id);
    Ops.TouchConsistent(e, b, id, i);
  }

  lemma RefreshedEntry(i: AddrInfo, a: Address, penalty: int, now: int)
    ensures var j := Ops.Refreshed(i, a, penalty, now);
            && j == i.(time := j.time, services := j.services) && Ops.OnlyStats(i, j)
            && (a.time > j.time <==> Newer(i, a, penalty, now))
  {
  }

  lemma Referenced(e: Env, b: Book, id: Id)
    requires TablesOk(e, b, {}) && id in b.info
    ensures b.info[id].refCount <= NEW_BUCKETS_PER_ADDRESS && (!b.info[id].inTried ==> b.info[id].refCount > 0)
  {
    assert EntryOk(e, b, id, {});
  }

  /** The announcement of an unknown address counts: the slot that its source selects is free, or held
      by an entry that is terrible or has other slots. */
  predicate CountsFirst(e: Env, b: Book, a: Address, source: NetAddr, now: int) {
    var s := NewSlot(e, b.key, a.service, source);
    s in b.newT ==>
      b.newT[s] in b.info && (IsTerrible(b.info[b.newT[s]], now) || b.info[b.newT[s]].refCount > 1)
  }

  /** A new entry is listed once, or it is as if it had never been there. */
  ghost predicate NewOrNot(b: Book, added: bool, c: Book, a: Address, id: Id, s: Slot) {
    if added then c.newT == b.newT[s := id] && LostAt(b, c, s) && id in c.info && c.info[id].refCount == 1
                    && !c.info[id].inTried && c.info[id].service == a.service
    else c.newT == b.newT && c.info.Keys == b.info.Keys
  }

  lemma NewFrom(b: Book, b': Book, added: bool, c: Book, a: Address, id: Id, s: Slot)
    requires ListedOrNot(b', added, c, id, s, {id}) && b'.newT == b.newT && id !in b.info
    requires b'.info.Keys == b.info.Keys + {id} && b'.info[id].refCount == 0
    requires b'.info[id].service == a.service
    requires forall x | x in b.info :: b'.info[x] == b.info[x]
    ensures NewOrNot(b, added, c, a, id, s)
  {
  }

  lemma EnteredEntry(e: Env, b: Book, a: Address, source: NetAddr, penalty: int)
    requires AddressesOk(e, b)
    ensures var c, id := Ops.Entered(e, b, a, source, penalty), NextId(b);
            && c.newT == b.newT && c.key == b.key && id !in b.info && c.info.Keys == b.info.Keys + {id}
            && c.info[id].service == a.service && c.info[id].refCount == 0 && !c.info[id].inTried
            && forall x | x in b.info :: c.info[x] == b.info[x]
  {
    assert NextId(b) in b.info ==> IdOk(e, b, NextId(b));
  }

  lemma FirstOutcome(e: Env, b: Book, a: Address, source: NetAddr, penalty: int, now: int)
    requires Consistent(e, b) && a.service !in b.addr && e.Routable(a.service.ip)
    ensures var r := Ops.Listed(e, Ops.Entered(e, b, a, source, penalty), NextId(b), source, now);
            && (r.0 <==> CountsFirst(e, b, a, source, now))
            && NewOrNot(b, r.0, r.1, a, NextId(b), NewSlot(e, b.key, a.service, source))
  {
    hide TablesOk; hide AddressesOk; hide OrderOk; hide TalliesOk; hide CollisionsOk; hide Ops.Listed; hide NewSlot;
    hide ListedOrNot; hide NewOrNot; hide CanList; hide CountsFirst;
    var c, id := Ops.Entered(e, b, a, source, penalty), NextId(b);
    Ops.EnteredKeeps(e, b, a, source, penalty);
    EnteredEntry(e, b, a, source, penalty);
    hide Ops.Entered; hide Created;
    ListedOutcome(e, c, id, source, now, {id});
    var r := Ops.Listed(e, c, id, source, now);
    NewFrom(b, c, r.0, r.1, a, id, NewSlot(e, b.key, a.service, source));
    Ops.AllListed(e, b, {});
    FirstCanList(e, b, c, a, id, source, now);
  }

  lemma FirstCanList(e: Env, b: Book, c: Book, a: Address, id: Id, source: NetAddr, now: int)
    requires c.newT == b.newT && c.key == b.key && id !in b.info && id in c.info && c.info[id].refCount == 0
    requires c.info[id].service == a.service && forall x | x in b.info :: x in c.info && c.info[x] == b.info[x]
    requires forall t | t in b.newT :: b.newT[t] in b.info
    ensures CanList(e, c, id, source, now) <==> CountsFirst(e, b, a, source, now)
  {
    hide IsTerrible; hide NewSlot;
  }

  /** The address now has an entry that is listed in the slot that the source selects. */
  ghost predicate TakenOver(e: Env, b: Book, c: Book, a: Address, source: NetAddr) {
    && Ops.Known(c, a.service) && !c.info[c.addr[a.service]].inTried
    && var s := NewSlot(e, b.key, a.service, source);
       c.newT == b.newT[s := c.addr[a.service]] && LostAt(b, c, s)
  }

  lemma TakesOver(e: Env, b: Book, c: Book, a: Address, source: NetAddr, id: Id)
    requires AddressesOk(e, c) && id in c.info && c.info[id].service == a.service && !c.info[id].inTried
    requires var s := NewSlot(e, b.key, a.service, source); c.newT == b.newT[s := id] && LostAt(b, c, s)
    ensures TakenOver(e, b, c, a, source)
  {
    assert IdOk(e, c, id);
  }

  lemma RepeatedTakesOver(e: Env, b: Book, id: Id, a: Address, source: NetAddr, penalty: int, now: int, lucky: bool)
    requires Consistent(e, b) && id in b.info && b.info[id].service == a.service
    ensures var r := Ops.AddedKnown(e, b, id, a, source, penalty, now, lucky);
            && (r.0 <==> CountsAgain(e, b, id, a, source, penalty, now, lucky))
            && if r.0 then TakenOver(e, b, r.1, a, source) else r.1.newT == b.newT && r.1.info.Keys == b.info.Keys
  {
    hide CountsAgain; hide Consistent; hide LostAt; hide NewSlot; hide TakenOver; hide Ops.AddedKnown;
    hide Ops.Evolves; hide AddressesOk;
    Ops.AddedKnownKeeps(e, b, id, a, source, penalty, now, lucky);
    RepeatedOutcome(e, b, id, a, source, penalty, now, lucky);
    var r := Ops.AddedKnown(e, b, id, a, source, penalty, now, lucky);
    ConsistentAddresses(e, r.1);
    if r.0 { TakesOver(e, b, r.1, a, source, id); }
  }

  lemma ConsistentAddresses(e: Env, b: Book)
    ensures Consistent(e, b) ==> AddressesOk(e, b)
  {
  }

  /** The announcement counts. */
  predicate Announces(e: Env, b: Book, a: Address, source: NetAddr, penalty: int, now: int, lucky: bool) {
    var p := if a.service.ip == source then 0 else penalty;
    && e.Routable(a.service.ip)
    && if Ops.Known(b, a.service) then CountsAgain(e, b, b.addr[a.service], a, source, p, now, lucky)
       else CountsFirst(e, b, a, source, now)
  }

  /** An announcement that counts gives the address the slot that its source selects and costs
      at most the entry that had it; any other leaves the new table and the entries as they are. */
  lemma AddOutcome(e: Env, b: Book, a: Address, source: NetAddr, penalty: int, now: int, lucky: bool)
    requires Consistent(e, b)
    ensures var r := Ops.AddSingle(e, b, a, source, penalty, now, lucky);
            && (r.0 <==> Announces(e, b, a, source, penalty, now, lucky))
            && if r.0 then TakenOver(e, b, r.1, a, source) else r.1.newT == b.newT && r.1.info.Keys == b.info.Keys
  {
    assert a.service in b.addr ==> ServiceOk(b, a.service);
    hide CountsAgain; hide CountsFirst;
    hide Almost; hide CollisionsOk; hide Ops.Listed; hide NewSlot; hide Ops.AddedKnown; hide Ops.Entered;
    hide TakenOver;
    var p := if a.service.ip == source then 0 else penalty;
    if e.Routable(a.service.ip) {
      if Ops.Known(b, a.service) {
        RepeatedTakesOver(e, b, b.addr[a.service], a, source, p, now, lucky);
      } else {
        FirstTakesOver(e, b, a, source, penalty, p, now, lucky);
      }
    }
  }

  lemma FirstTakesOver(e: Env, b: Book, a: Address, source: NetAddr, penalty: int, p: int, now: int, lucky: bool)
    requires Consistent(e, b) && a.service !in b.addr && e.Routable(a.service.ip)
    requires p == if a.service.ip == source then 0 else penalty
    ensures var r := Ops.Listed(e, Ops.Entered(e, b, a, source, p), NextId(b), source, now);
            && (r.0 <==> CountsFirst(e, b, a, source, now))
            && if r.0 then TakenOver(e, b, r.1, a, source) else r.1.newT == b.newT && r.1.info.Keys == b.info.Keys
  {
    hide CountsFirst;
    hide TablesOk; hide AddressesOk; hide OrderOk; hide TalliesOk; hide CollisionsOk; hide LostAt; hide NewSlot;
    hide TakenOver;
    hide Ops.Listed; hide Ops.Entered; hide Ops.AddedKnown;
    EnteredEntry(e, b, a, source, p);
    Ops.AddUnknown(e, b, a, source, penalty, now, lucky);
    FirstOutcome(e, b, a, source, p, now);
    var r := Ops.Listed(e, Ops.Entered(e, b, a, source, p), NextId(b), source, now);
    assert r == Ops.AddSingle(e, b, a, source, penalty, now, lucky);
    if r.0 { TakesOver(e, b, r.1, a, source, NextId(b)); }
  }

  // ---- successful connections ----

  /** An entry that leaves the tried table is listed in its own new slot. */
  lemma EvictedOutcome(e: Env, b: Book, s: Slot, limbo: set<Id>)
    requires TablesOk(e, b, limbo) && s in b.triedT
    ensures var id := b.triedT[s];
            && id in b.info && b.info[id].refCount == 0
            && ListedAt(b, Ops.Evicted(e, b, s), id, Ops.OwnNewSlot(e, b, id))
  {
    var id := b.triedT[s];
    assert TriedEntryOk(e, b, s) && EntryOk(e, b, id, limbo);
    var w, c := Ops.OwnNewSlot(e, b, id), Untried(e, b, s);
    assert w in b.newT ==> NewEntryOk(e, b, w) && b.newT[w] != id;
    Ops.UntriedFrame(e, b, s);
    hide Untried; hide TablesOk;
    PutInto(e, c, id, w);
    Evicting(e, b, c, Ops.ClearNew(e, c, w), id, w, s);
  }

  lemma Evicting(e: Env, b: Book, c: Book, d: Book, id: Id, w: Slot, s: Slot)
    requires s in b.triedT && id == b.triedT[s] && id in b.info && c == Untried(e, b, s)
             && w == Ops.OwnNewSlot(e, b, id)
    requires id in c.info && d == Ops.ClearNew(e, c, w) && id in d.info && ListedAt(c, Ref(d, w, id), id, w)
    requires b.newT == c.newT && c.info == b.info[id := b.info[id].(inTried := false)]
    requires w in b.newT ==> b.newT[w] != id
    ensures ListedAt(b, Ops.Evicted(e, b, s), id, w)
  {
    hide Untried; hide Ops.ClearNew;
    var f, g := Ops.Evicted(e, b, s), Ref(d, w, id);
    assert f.newT == g.newT && f.info == g.info && c.info.Keys == b.info.Keys;
    assert Lost(b, f) == Lost(c, g);
  }

  /** The new table without an entry. */
  ghost function Unlisted(b: Book, id: Id): map<Slot, Id> { b.newT - SlotsOf(b.newT, id) }

  /** The entry has left the new table for its tried slot, and whatever was there has gone back to
      the new slot of its own source. */
  ghost predicate Moved(e: Env, b: Book, c: Book, id: Id)
    requires id in b.info
  {
    var s := Ops.OwnTriedSlot(e, b, id);
    && c.triedT == b.triedT[s := id] && id in c.info && c.info[id].inTried
    && if s in b.triedT then
         b.triedT[s] in b.info && MovedBack(b, c, id, b.triedT[s], Ops.OwnNewSlot(e, b, b.triedT[s]))
       else c.newT == Unlisted(b, id) && c.info.Keys == b.info.Keys
  }

  /** At most one entry is gone: the one in the slot that entry x went back to, if that was its only one. */
  ghost predicate MovedBack(b: Book, c: Book, id: Id, x: Id, w: Slot) {
    && x in c.info && !c.info[x].inTried && c.info[x].refCount == 1 && c.newT == Unlisted(b, id)[w := x]
    && Lost(b, c) <= Holder(b.newT, w) - {id} && forall y | y in Lost(b, c) :: b.info[y].refCount == 1
  }

  lemma MoveBack(b: Book, b1: Book, d: Book, c: Book, id: Id, x: Id, w: Slot)
    requires id in b.info && b1.newT == Unlisted(b, id) && b1.info == b.info[id := b.info[id].(refCount := 0)]
    requires ListedAt(b1, d, x, w) && x in b.info && b.info[x].refCount == 0 && x != id && id in d.info
    requires c.newT == d.newT && c.info == d.info[id := d.info[id].(inTried := true)]
    ensures MovedBack(b, c, id, x, w)
  {
    assert b1.info.Keys == b.info.Keys && c.info.Keys == d.info.Keys;
    assert Lost(b, c) == Lost(b1, d);
  }

  ghost function Leaving(e: Env, b: Book, id: Id): Book
    requires id in b.info
  {
    Bump(AllUnref(b, id), NetworkOf(e, b, id), false, -1)
  }

  lemma Leaves(e: Env, b: Book, id: Id)
    requires Almost(e, b, {}, {}) && id in b.info && !b.info[id].inTried
    ensures var b1, s := Leaving(e, b, id), Ops.OwnTriedSlot(e, b, id);
            && Almost(e, b1, {id}, {id}) && b1.triedT == b.triedT && b1.newT == Unlisted(b, id) && b1.key == b.key
            && b1.info == b.info[id := b.info[id].(refCount := 0)] && s == Ops.OwnTriedSlot(e, b1, id)
            && (s in b.triedT ==> b.triedT[s] in b.info && b.triedT[s] != id)
  {
    hide TablesOk; hide AddressesOk; hide OrderOk; hide TalliesOk; hide TriedSlot;
    Ops.OutOfNew(e, b, id);
    TriedByOther(e, b, id, Ops.OwnTriedSlot(e, b, id));
  }

  lemma TriedByOther(e: Env, b: Book, id: Id, s: Slot)
    requires TablesOk(e, b, {}) && id in b.info && !b.info[id].inTried
    ensures s in b.triedT ==> b.triedT[s] in b.info && b.triedT[s] != id
  {
    assert s in b.triedT ==> TriedEntryOk(e, b, s);
  }

  lemma MoveTaken(e: Env, b: Book, b1: Book, id: Id, s: Slot)
    requires id in b.info && b1 == Leaving(e, b, id) && Almost(e, b1, {id}, {id}) && b.info[id].lastSuccess > 0
    requires b1.newT == Unlisted(b, id) && b1.info == b.info[id := b.info[id].(refCount := 0)] && b1.triedT == b.triedT
    requires s == Ops.OwnTriedSlot(e, b1, id) && s in b1.triedT && b1.triedT[s] in b.info && b1.triedT[s] != id
    ensures var x := b1.triedT[s];
            && id in Ops.Evicted(e, b1, s).info
            && MovedBack(b, Tried(e, Ops.Evicted(e, b1, s), s, id), id, x, Ops.OwnNewSlot(e, b1, x))
  {
    hide TablesOk; hide AddressesOk; hide OrderOk; hide TalliesOk; hide Ops.Evicted; hide Unlisted; hide MovedBack;
    hide Leaving;
    hide ListedAt; hide NewSlot;
    var x := b1.triedT[s];
    Ops.IntoTaken(e, b1, id, s);
    EvictedOutcome(e, b1, s, {id});
    var d := Ops.Evicted(e, b1, s);
    MoveBack(b, b1, d, Tried(e, d, s, id), id, x, Ops.OwnNewSlot(e, b1, x));
  }

  lemma MoveOutcome(e: Env, b: Book, id: Id)
    requires Almost(e, b, {}, {}) && id in b.info && !b.info[id].inTried && b.info[id].lastSuccess > 0
    ensures Moved(e, b, Ops.MakeTried(e, b, id), id)
  {
    hide Almost; hide Ops.Evicted; hide Unlisted; hide MovedBack; hide Bump; hide AllUnref; hide NewSlot;
    hide TriedSlot;
    Leaves(e, b, id);
    Ops.MakeTriedKeeps(e, b, id);
    var s, b1, c := Ops.OwnTriedSlot(e, b, id), Leaving(e, b, id), Ops.MakeTried(e, b, id);
    if s in b.triedT {
      MoveTaken(e, b, b1, id, s);
      InSlot(e, Ops.Evicted(e, b1, s), s, id);
    } else {
      InSlot(e, b1, s, id);
    }
  }

  lemma InSlot(e: Env, d: Book, s: Slot, id: Id)
    requires id in d.info
    ensures var c := Tried(e, d, s, id); c.newT == d.newT && c.info == d.info[id := d.info[id].(inTried := true)]
  {
  }

  /** What a connection comes to, for an entry that is up to date. */
  ghost predicate MovedOrNot(e: Env, b: Book, moved: bool, c: Book, id: Id, test: bool)
    requires id in b.info
  {
    && (moved <==> !b.info[id].inTried && (test ==> Ops.OwnTriedSlot(e, b, id) !in b.triedT))
    && (moved ==> Moved(e, b, c, id) && c.collisions == b.collisions)
    && (!moved ==> c.newT == b.newT && c.triedT == b.triedT && c.info.Keys == b.info.Keys)
    && (!moved ==> c.collisions == if b.info[id].inTried || |b.collisions| >= SET_TRIED_COLLISION_SIZE then b.collisions
                                   else b.collisions + {id})
  }

  lemma NewIsListed(e: Env, b: Book, id: Id)
    requires Almost(e, b, {}, {}) && id in b.info
    ensures b.info[id].inTried <==> b.info[id].refCount <= 0
  {
    assert EntryOk(e, b, id, {});
  }

  lemma EntryOutcome(e: Env, b: Book, id: Id, test: bool)
    requires Almost(e, b, {}, {}) && id in b.info && b.info[id].lastSuccess > 0
    ensures var r := Ops.GoodEntry(e, b, id, test); MovedOrNot(e, b, r.0, r.1, id, test)
  {
    hide Almost; hide Ops.MakeTried; hide Moved; hide TriedSlot; hide Ops.SameServices;
    NewIsListed(e, b, id);
    if !b.info[id].inTried && (test ==> Ops.OwnTriedSlot(e, b, id) !in b.triedT) {
      MoveOutcome(e, b, id);
      Ops.MakeTriedKeeps(e, b, id);
    }
  }

  /** Only the statistics of an entry and the time of the last success are different. */
  ghost predicate UpToDate(b: Book, c: Book, id: Id) {
    && id in b.info && id in c.info && c == b.(lastGood := c.lastGood, info := b.info[id := c.info[id]])
    && Ops.OnlyStats(b.info[id], c.info[id])
  }

  lemma Updated(e: Env, b: Book, id: Id, time: int)
    requires Consistent(e, b) && time > 0 && id in b.info
    ensures var c := Ops.Touch(b.(lastGood := time), id,
                               b.info[id].(lastSuccess := time, lastTry := time, attempts := 0));
            Almost(e, c, {}, {}) && UpToDate(b, c, id)
  {
    hide TablesOk; hide AddressesOk; hide OrderOk; hide TalliesOk; hide CollisionsOk;
    Ops.LastGoodKeeps(e, b, time);
    var a := b.(lastGood := time);
    Ops.TouchConsistent(e, a, id, a.info[id].(lastSuccess := time, lastTry := time, attempts := 0));
  }

  lemma NotTried(e: Env, b: Book, id: Id)
    requires TablesOk(e, b, {}) && id in b.info && !b.info[id].inTried
    ensures forall s | s in b.triedT :: b.triedT[s] in b.info && b.triedT[s] != id
  {
    forall s | s in b.triedT ensures b.triedT[s] in b.info && b.triedT[s] != id { TriedByOther(e, b, id, s); }
  }

  /** The statistics of an entry do not matter to where it is moved. */
  lemma MovedSame(e: Env, b: Book, b': Book, c: Book, id: Id)
    requires UpToDate(b, b', id) && Moved(e, b', c, id)
    requires forall s | s in b.triedT :: b.triedT[s] in b.info && b.triedT[s] != id
    ensures Moved(e, b, c, id)
  {
    hide NewSlot; hide TriedSlot; hide MovedBack;
    var s := Ops.OwnTriedSlot(e, b, id);
    assert b'.info.Keys == b.info.Keys && s == Ops.OwnTriedSlot(e, b', id) && Unlisted(b, id) == Unlisted(b', id);
    if s in b.triedT { MovedBackSame(b, b', c, id, b.triedT[s], Ops.OwnNewSlot(e, b, b.triedT[s])); }
  }

  lemma MovedBackSame(b: Book, b': Book, c: Book, id: Id, x: Id, w: Slot)
    requires UpToDate(b, b', id)
    ensures MovedBack(b', c, id, x, w) ==> MovedBack(b, c, id, x, w)
  {
    assert b'.info.Keys == b.info.Keys && Unlisted(b, id) == Unlisted(b', id) && Lost(b, c) == Lost(b', c);
  }

  lemma OutcomeSame(e: Env, b: Book, b': Book, moved: bool, c: Book, id: Id, test: bool)
    requires TablesOk(e, b, {}) && UpToDate(b, b', id) && MovedOrNot(e, b', moved, c, id, test)
    ensures MovedOrNot(e, b, moved, c, id, test)
  {
    hide TablesOk; hide TriedSlot; hide Moved;
    if moved {
      NotTried(e, b, id);
      MovedSame(e, b, b', c, id);
    }
  }

  /** A connection moves an entry exactly if the address is known, its entry is not tried yet, and
      its tried slot is free or need not be spared; the entry is then tried, and at most one other
      is gone. Otherwise both tables and all entries stay, but for a collision that is noted. */
  lemma GoodOutcome(e: Env, b: Book, s: Service, test: bool, time: int)
    requires Consistent(e, b) && time > 0
    ensures var r := Ops.Good(e, b, s, test, time);
            if Ops.Known(b, s) then MovedOrNot(e, b, r.0, r.1, b.addr[s], test)
            else !r.0 && r.1 == b.(lastGood := time)
  {
    hide TablesOk; hide AddressesOk; hide OrderOk; hide TalliesOk; hide CollisionsOk; hide MovedOrNot;
    hide Ops.GoodEntry;
    if Ops.Known(b, s) {
      var id := b.addr[s];
      Updated(e, b, id, time);
      var c := Ops.Touch(b.(lastGood := time), id, b.info[id].(lastSuccess := time, lastTry := time, attempts := 0));
      EntryOutcome(e, c, id, test);
      var r := Ops.GoodEntry(e, c, id, test);
      OutcomeSame(e, b, c, r.0, r.1, id, test);
    }
  }
}
