/** What becomes of pending collisions, and of the tried entries that they are about. */
module AddrResolve {
  import opened AddrBook
  import Ops = AddrOps
  import Flow = AddrFlow

  // ---- what a connection leaves alone ----

  /** An entry that is tried and not the one that has to go is left as it is. */
  lemma MakeTriedSpares(e: Env, b: Book, id: Id, x: Id)
    requires Almost(e, b, {}, {}) && id in b.info && !b.info[id].inTried && b.info[id].lastSuccess > 0
    requires x in b.info && b.info[x].inTried
    requires var s := Ops.OwnTriedSlot(e, b, id); s in b.triedT ==> b.triedT[s] != x
    ensures var c := Ops.MakeTried(e, b, id);
            x in c.info && c.info[x] == b.info[x].(randomPos := c.info[x].randomPos)
  {
    hide Almost; hide Ops.Evicted; hide Bump; hide AllUnref; hide TriedSlot; hide Flow.Unlisted; hide Tried;
    hide Ops.SameServices; hide NewSlot; hide Ops.MovedTo;
    TriedNotListed(e, b, id, x);
    Flow.Leaves(e, b, id);
    var s, b1, c := Ops.OwnTriedSlot(e, b, id), Flow.Leaving(e, b, id), Ops.MakeTried(e, b, id);
    if s in b.triedT {
      Ops.IntoTaken(e, b1, id, s);
      Ops.EvictedFrame(e, b1, s, x);
      Flow.InSlot(e, Ops.Evicted(e, b1, s), s, id);
    } else {
      Flow.InSlot(e, b1, s, id);
    }
  }

  /** A tried entry is in no slot of the new table. */
  lemma TriedNotListed(e: Env, b: Book, id: Id, x: Id)
    requires Almost(e, b, {}, {}) && x in b.info && b.info[x].inTried && id in b.info
    ensures forall t | t in Flow.Unlisted(b, id) ::
              Flow.Unlisted(b, id)[t] in b.info && Flow.Unlisted(b, id)[t] != x
  {
    forall t | t in Flow.Unlisted(b, id)
      ensures Flow.Unlisted(b, id)[t] in b.info && Flow.Unlisted(b, id)[t] != x
    {
      assert NewEntryOk(e, b, t);
    }
  }

  /** The holder of a tried slot has succeeded within four hours. */
  predicate Healthy(b: Book, s: Slot, now: int) {
    s in b.triedT && b.triedT[s] in b.info && now - b.info[b.triedT[s]].lastSuccess < 4 * 3600
  }

  /** The slot has the holder it had, and that is still healthy. */
  predicate Spared(b: Book, c: Book, s: Slot, now: int) {
    Healthy(b, s, now) ==> Healthy(c, s, now) && c.triedT[s] == b.triedT[s]
  }

  lemma EntrySpares(e: Env, b: Book, id: Id, s: Slot, now: int)
    requires Almost(e, b, {}, {}) && id in b.info && b.info[id].lastSuccess > 0
    requires Ops.OwnTriedSlot(e, b, id) != s
    ensures Spared(b, Ops.GoodEntry(e, b, id, false).1, s, now)
  {
    hide Almost; hide Ops.MakeTried; hide TriedSlot; hide Ops.SameServices;
    if Healthy(b, s, now) && !b.info[id].inTried && b.info[id].refCount > 0 {
      InOneSlot(e, b, s, Ops.OwnTriedSlot(e, b, id));
      MakeTriedSpares(e, b, id, b.triedT[s]);
      Ops.MakeTriedKeeps(e, b, id);
    }
  }

  /** No entry is in two tried slots. */
  lemma InOneSlot(e: Env, b: Book, s: Slot, t: Slot)
    requires Almost(e, b, {}, {}) && s in b.triedT && s != t
    ensures b.triedT[s] in b.info && b.info[b.triedT[s]].inTried
    ensures t in b.triedT ==> b.triedT[t] != b.triedT[s]
  {
    assert TriedEntryOk(e, b, s) && (t in b.triedT ==> TriedEntryOk(e, b, t));
  }

  lemma TouchSpares(b: Book, c: Book, id: Id, s: Slot, now: int)
    requires Flow.UpToDate(b, c, id) && c.info[id].lastSuccess == now
    ensures Spared(b, c, s, now)
  {
  }

  /** A connection that may evict spares every healthy entry in another slot than the one it needs. */
  lemma GoodSpares(e: Env, b: Book, id: Id, s: Slot, now: int)
    requires Consistent(e, b) && now > 0 && id in b.info && Ops.OwnTriedSlot(e, b, id) != s
    ensures Spared(b, Ops.Good(e, b, b.info[id].service, false, now).1, s, now)
  {
    assert IdOk(e, b, id);
    hide TablesOk; hide AddressesOk; hide OrderOk; hide TalliesOk; hide CollisionsOk; hide TriedSlot;
    hide Ops.GoodEntry; hide Healthy; hide Ops.OnlyStats;
    Flow.Updated(e, b, id, now);
    var c := Ops.Touch(b.(lastGood := now), id, b.info[id].(lastSuccess := now, lastTry := now, attempts := 0));
    TouchSpares(b, c, id, s, now);
    EntrySpares(e, c, id, s, now);
  }

  // ---- one pending collision ----

  /** The collision is void: the entry is gone or its address invalid. */
  predicate Void(e: Env, b: Book, id: Id) { id !in b.info || !e.valid(b.info[id].service.ip) }

  /** The slot that the entry needs is free. */
  predicate Free(e: Env, b: Book, id: Id)
    requires id in b.info
  {
    Ops.OwnTriedSlot(e, b, id) !in b.triedT
  }

  /** The entry in the slot that is needed. */
  function Opponent(e: Env, b: Book, id: Id): AddrInfo
    requires id in b.info && !Free(e, b, id) && b.triedT[Ops.OwnTriedSlot(e, b, id)] in b.info
  {
    b.info[b.triedT[Ops.OwnTriedSlot(e, b, id)]]
  }

  lemma OpponentThere(e: Env, b: Book, id: Id)
    requires TablesOk(e, b, {}) && id in b.info
    ensures !Free(e, b, id) ==> b.triedT[Ops.OwnTriedSlot(e, b, id)] in b.info
  {
    assert !Free(e, b, id) ==> TriedEntryOk(e, b, Ops.OwnTriedSlot(e, b, id));
  }

  datatype Fate = Moves | Forgotten | Waits

  /** When a pending entry gets its slot, when it is only forgotten, and when it has to wait: a holder
      with a success within four hours is safe; one that was tried since without success has a minute;
      one that was not tried has until forty minutes after the success of the entry that waits. */
  ghost function FateOf(e: Env, b: Book, id: Id, now: int): Fate
    requires TablesOk(e, b, {})
  {
    if Void(e, b, id) then Forgotten
    else if Free(e, b, id) then Moves
    else
      OpponentThere(e, b, id);
      var o := Opponent(e, b, id);
      if now - o.lastSuccess < 4 * 3600 then Forgotten
      else if now - o.lastTry < 4 * 3600 then if now - o.lastTry > 60 then Moves else Waits
      else if now - b.info[id].lastSuccess > 40 * 60 then Moves
      else Waits
  }

  /** The book after a decision about one pending collision. */
  ghost predicate Decided(e: Env, b: Book, c: Book, id: Id, now: int)
    requires TablesOk(e, b, {})
  {
    && (id in c.collisions <==> id in b.collisions && FateOf(e, b, id, now) == Waits)
    && c.collisions - {id} == b.collisions - {id}
    && (id in b.info ==> (Flow.Moved(e, b, c, id) <==> FateOf(e, b, id, now) == Moves && !b.info[id].inTried))
    && (FateOf(e, b, id, now) != Moves ==> c == b.(collisions := c.collisions))
    && (id in b.info && b.info[id].inTried ==> c.newT == b.newT && c.triedT == b.triedT)
  }

  /** The book after a collision has been decided. */
  ghost function Decide(e: Env, b: Book, id: Id, now: int): Book {
    var r := Ops.ResolveOne(e, b, id, now);
    Ops.Settled(r.0, id, r.1)
  }

  /** Nothing has moved if no table has changed. */
  lemma NotMoved(e: Env, b: Book, c: Book, id: Id)
    requires TablesOk(e, b, {}) && id in b.info && c.triedT == b.triedT && c.newT == b.newT
    requires id in c.info && c.info[id].inTried == b.info[id].inTried
    ensures !Flow.Moved(e, b, c, id)
  {
    assert EntryOk(e, b, id, {});
    var s := Ops.OwnTriedSlot(e, b, id);
    assert b.info[id].inTried ==> s in b.triedT && b.triedT[s] == id;
  }

  lemma GoodDecides(e: Env, b: Book, id: Id, now: int)
    requires Consistent(e, b) && now > 0 && id in b.info
    ensures var c := Ops.Good(e, b, b.info[id].service, false, now).1;
            && c.collisions == b.collisions
            && (Flow.Moved(e, b, c, id) <==> !b.info[id].inTried)
            && (b.info[id].inTried ==> c.newT == b.newT && c.triedT == b.triedT)
  {
    assert IdOk(e, b, id);
    hide TablesOk; hide AddressesOk; hide OrderOk; hide TalliesOk; hide CollisionsOk; hide Flow.Moved;
    var s, c := b.info[id].service, Ops.Good(e, b, b.info[id].service, false, now).1;
    Flow.GoodOutcome(e, b, s, false, now);
    Ops.GoodKeeps(e, b, s, false, now);
    if b.info[id].inTried {
      TriedStays(e, b, id, s, now);
      NotMoved(e, b, c, id);
    }
  }

  lemma TriedStays(e: Env, b: Book, id: Id, s: Service, now: int)
    requires id in b.info && b.info[id].inTried && Ops.Known(b, s) && b.addr[s] == id
    ensures var c := Ops.Good(e, b, s, false, now).1; id in c.info && c.info[id].inTried
  {
  }

  lemma MovedSettled(e: Env, b: Book, c: Book, id: Id, x: Id)
    requires id in b.info
    ensures Flow.Moved(e, b, c.(collisions := c.collisions - {x}), id) <==> Flow.Moved(e, b, c, id)
  {
    var d := c.(collisions := c.collisions - {x});
    assert Flow.Lost(b, d) == Flow.Lost(b, c);
  }

  /** The decision about one pending collision, from the book before it: exactly when the entry gets
      its slot, when the collision is only forgotten, and when it stays. */
  lemma ResolveOutcome(e: Env, b: Book, id: Id, now: int)
    requires Consistent(e, b) && now > 0
    ensures Decided(e, b, Decide(e, b, id, now), id, now)
  {
    hide TablesOk; hide AddressesOk; hide OrderOk; hide TalliesOk; hide CollisionsOk; hide Flow.Moved; hide TriedSlot;
    hide Ops.Good;
    if id in b.info {
      OpponentThere(e, b, id);
      var c := Ops.Good(e, b, b.info[id].service, false, now).1;
      GoodDecides(e, b, id, now);
      MovedSettled(e, b, c, id, id);
      MovedSettled(e, b, b, id, id);
      NotMoved(e, b, b, id);
    }
  }

  lemma SettledUnlessWaits(e: Env, b: Book, id: Id, now: int)
    requires Consistent(e, b)
    ensures Ops.ResolveOne(e, b, id, now).1 <==> FateOf(e, b, id, now) != Waits
  {
    hide TablesOk; hide AddressesOk; hide OrderOk; hide TalliesOk; hide CollisionsOk; hide TriedSlot; hide Ops.Good;
    if id in b.info {
      OpponentThere(e, b, id);
    }
  }

  // ---- all of them ----

  lemma DecideSpares(e: Env, b: Book, id: Id, s: Slot, now: int)
    requires Consistent(e, b) && now > 0
    ensures Spared(b, Decide(e, b, id, now), s, now)
  {
    hide Consistent; hide TriedSlot; hide Ops.Good;
    if id in b.info && Ops.OwnTriedSlot(e, b, id) != s {
      GoodSpares(e, b, id, s, now);
    }
  }

  lemma DecideKeeps(e: Env, b: Book, id: Id, now: int)
    requires Consistent(e, b) && now > 0
    ensures Ops.Keeps(e, b, Decide(e, b, id, now)) && Decide(e, b, id, now).collisions <= b.collisions
    ensures id !in b.info ==> id !in Decide(e, b, id, now).collisions
  {
    hide Consistent; hide Ops.Good; hide Ops.Evolves; hide Decided;
    var r := Ops.ResolveOne(e, b, id, now);
    Ops.ResolveOneKeeps(e, b, id, now);
    Ops.SettledKeeps(e, r.0, id, r.1);
    Ops.EvolvesOn(b, r.0, Decide(e, b, id, now));
    if id in b.info {
      Ops.GoodKeeps(e, b, b.info[id].service, false, now);
    }
  }

  /** However many collisions are decided, whoever holds a tried slot and has succeeded within four
      hours still holds it. */
  lemma {:induction false} ResolveSpares(e: Env, b: Book, todo: set<Id>, s: Slot, now: int)
    requires Consistent(e, b) && now > 0
    ensures Spared(b, Ops.Resolve(e, b, todo, now), s, now)
    decreases |todo|
  {
    hide Consistent; hide Ops.ResolveOne; hide Ops.Evolves; hide Healthy;
    if todo != {} {
      var id := Ops.Least(todo);
      DecideSpares(e, b, id, s, now);
      DecideKeeps(e, b, id, now);
      ResolveSpares(e, Decide(e, b, id, now), todo - {id}, s, now);
    }
  }

  /** No collision is added, and none is kept about an entry that is gone. */
  lemma {:induction false} ResolveShrinks(e: Env, b: Book, todo: set<Id>, now: int, x: Id)
    requires Consistent(e, b) && now > 0
    ensures Ops.Resolve(e, b, todo, now).collisions <= b.collisions
    ensures x in todo && x !in b.info && x.n < b.idCount ==> x !in Ops.Resolve(e, b, todo, now).collisions
    decreases |todo|
  {
    hide Consistent; hide Ops.ResolveOne;
    if todo != {} {
      var id := Ops.Least(todo);
      DecideKeeps(e, b, id, now);
      ResolveShrinks(e, Decide(e, b, id, now), todo - {id}, now, x);
    }
  }

  lemma ResolveAll(e: Env, b: Book, now: int)
    requires Consistent(e, b) && now > 0
    ensures var c := Ops.Resolve(e, b, b.collisions, now);
            && (forall s :: Spared(b, c, s, now)) && c.collisions <= b.collisions
            && forall id | id in b.collisions && id !in b.info :: id !in c.collisions
  {
    Numbered(e, b);
    hide Consistent; hide Spared; hide Ops.Resolve;
    forall s ensures Spared(b, Ops.Resolve(e, b, b.collisions, now), s, now) {
      ResolveSpares(e, b, b.collisions, s, now);
    }
    ResolveShrinks(e, b, b.collisions, now, NextId(b));
    forall id | id in b.collisions && id !in b.info ensures id !in Ops.Resolve(e, b, b.collisions, now).collisions {
      ResolveShrinks(e, b, b.collisions, now, id);
    }
  }

  lemma Numbered(e: Env, b: Book)
    requires Consistent(e, b)
    ensures forall id | id in b.collisions :: id.n < b.idCount
  {
  }
}
