/** The address manager as the object that it is: maps, counters and two fixed arrays of buckets,
    updated in place. Every method is proved to do to the book what AddrOps says. */
module AddrMan {
  import opened Numbers
  import opened Wrappers
  import opened AddrBook
  import Ops = AddrOps
  import Resolve = AddrResolve

  const EMPTY := Id(-1)

  class AddrManImpl {
    const e: Env
    const vvTried: array2<Id>
    const vvNew: array2<Id>
    var nKey: nat
    var nIdCount: int
    var mapInfo: map<Id, AddrInfo>
    var mapAddr: map<Service, Id>
    var vRandom: seq<Id>
    var nTried: int
    var nNew: int
    var lastGood: int
    var triedCollisions: set<Id>
    var networkCounts: map<nat, Tally>
    ghost var newT: map<Slot, Id>
    ghost var triedT: map<Slot, Id>

    ghost function B(): Book
      reads this
    {
      Book(nKey, nIdCount, mapInfo, mapAddr, vRandom, newT, triedT, nNew, nTried, networkCounts,
           triedCollisions, lastGood)
    }

    /** The array of buckets holds what the table says. */
    static ghost predicate Mirrors(a: array2<Id>, t: map<Slot, Id>, buckets: nat)
      reads a
    {
      && a.Length0 == buckets && a.Length1 == BUCKET_SIZE
      && (forall s | s in t :: s.bucket < buckets && s.pos < BUCKET_SIZE && t[s] != EMPTY)
      && (forall b, p | 0 <= b < buckets && 0 <= p < BUCKET_SIZE ::
            a[b, p] == if Slot(b, p) in t then t[Slot(b, p)] else EMPTY)
    }

    ghost predicate Rep()
      reads this, vvNew, vvTried
    {
      vvNew != vvTried && Mirrors(vvNew, newT, NEW_BUCKET_COUNT) && Mirrors(vvTried, triedT, TRIED_BUCKET_COUNT)
    }

    ghost predicate Valid()
      reads this, vvNew, vvTried
    {
      Rep() && Consistent(e, B())
    }

    constructor (e: Env, key: nat)
      requires key != 0
      ensures Valid() && this.e == e && B() == Ops.Empty(key) && fresh(vvNew) && fresh(vvTried)
    {
      this.e, nKey, nIdCount := e, key, 0;
      mapInfo, mapAddr, vRandom := map[], map[], [];
      nTried, nNew, lastGood, triedCollisions, networkCounts := 0, 0, 1, {}, map[];
      vvNew := new Id[NEW_BUCKET_COUNT, BUCKET_SIZE]((_, _) => EMPTY);
      vvTried := new Id[TRIED_BUCKET_COUNT, BUCKET_SIZE]((_, _) => EMPTY);
      newT, triedT := map[], map[];
      new;
      Ops.EmptyConsistent(e, key);
    }

    // ---- single slots ----

    method SetNew(bucket: nat, pos: nat, id: Id)
      requires Rep() && bucket < NEW_BUCKET_COUNT && pos < BUCKET_SIZE
      modifies this`newT, vvNew
      ensures Rep()
      ensures newT == if id == EMPTY then old(newT) - {Slot(bucket, pos)} else old(newT)[Slot(bucket, pos) := id]
    {
      vvNew[bucket, pos] := id;
      newT := if id == EMPTY then newT - {Slot(bucket, pos)} else newT[Slot(bucket, pos) := id];
    }

    method SetTried(bucket: nat, pos: nat, id: Id)
      requires Rep() && bucket < TRIED_BUCKET_COUNT && pos < BUCKET_SIZE
      modifies this`triedT, vvTried
      ensures Rep()
      ensures triedT == if id == EMPTY then old(triedT) - {Slot(bucket, pos)} else old(triedT)[Slot(bucket, pos) := id]
    {
      vvTried[bucket, pos] := id;
      triedT := if id == EMPTY then triedT - {Slot(bucket, pos)} else triedT[Slot(bucket, pos) := id];
    }

    method CountNew(network: nat, d: int)
      modifies this`networkCounts
      ensures networkCounts == Bumped(old(networkCounts), network, false, d)
    {
      var t := if network in networkCounts then networkCounts[network] else Tally(0, 0);
      networkCounts := networkCounts[network := t.(nNew := t.nNew + d)];
    }

    method CountTried(network: nat, d: int)
      modifies this`networkCounts
      ensures networkCounts == Bumped(old(networkCounts), network, true, d)
    {
      var t := if network in networkCounts then networkCounts[network] else Tally(0, 0);
      networkCounts := networkCounts[network := t.(nTried := t.nTried + d)];
    }

    // ---- entries ----

    method Find(addr: Service) returns (found: bool, id: Id)
      ensures found <==> Ops.Known(B(), addr)
      ensures found ==> id == mapAddr[addr]
    {
      found, id := false, EMPTY;
      if addr in mapAddr {
        id := mapAddr[addr];
        found := id in mapInfo;
      }
    }

    method Create(addr: Address, source: NetAddr) returns (id: Id)
      modifies this`nIdCount, this`mapInfo, this`mapAddr, this`vRandom, this`nNew, this`networkCounts
      ensures B() == Created(e, old(B()), addr, source) && id == NextId(old(B()))
    {
      hide Bumped;
      hide Mirrors;
      id := Id(nIdCount);
      nIdCount := nIdCount + 1;
      mapInfo := mapInfo[id := AddrInfo(addr.service, addr.time, addr.services, source, 0, 0, 0, 0, 0, false, -1)];
      mapAddr := mapAddr[addr.service := id];
      mapInfo := mapInfo[id := mapInfo[id].(randomPos := |vRandom|)];
      vRandom := vRandom + [id];
      nNew := nNew + 1;
      ghost var b := old(B());
      assert mapInfo == b.info[id := Fresh(b, addr, source)];
      assert B() == b.(idCount := b.idCount + 1, info := mapInfo, addr := mapAddr, random := vRandom,
                       nNew := b.nNew + 1);
      CountNew(e.network(addr.service.ip), 1);
    }

    method SwapRandom(p: nat, q: nat)
      requires p < |vRandom| && q < |vRandom| && vRandom[p] in mapInfo && vRandom[q] in mapInfo
      modifies this`mapInfo, this`vRandom
      ensures B() == Swapped(old(B()), p, q)
    {
      if p == q {
        return;
      }
      var id1, id2 := vRandom[p], vRandom[q];
      mapInfo := mapInfo[id1 := mapInfo[id1].(randomPos := q)];
      mapInfo := mapInfo[id2 := mapInfo[id2].(randomPos := p)];
      vRandom := vRandom[p := id2];
      vRandom := vRandom[q := id1];
    }

    method Delete(id: Id)
      requires CanDrop(B(), id) && vRandom[mapInfo[id].randomPos] == id
      requires !mapInfo[id].inTried && mapInfo[id].refCount == 0
      modifies this`mapInfo, this`mapAddr, this`vRandom, this`nNew, this`networkCounts
      ensures B() == Deleted(e, old(B()), id)
    {
      hide Bumped;
      var info := mapInfo[id];
      SwapRandom(info.randomPos, |vRandom| - 1);
      SwapThenDrop(old(B()), id);
      CountNew(e.network(info.service.ip), -1);
      vRandom := vRandom[..|vRandom| - 1];
      mapAddr := mapAddr - {info.service};
      mapInfo := mapInfo - {id};
      nNew := nNew - 1;
    }

    // ---- the tables ----

    /** Empties one position that holds an entry, and counts it off. */
    method Unlist(bucket: nat, pos: nat)
      requires Rep() && bucket < NEW_BUCKET_COUNT && pos < BUCKET_SIZE
      requires Slot(bucket, pos) in newT && newT[Slot(bucket, pos)] in mapInfo
      modifies this`mapInfo, this`newT, vvNew
      ensures Rep() && B() == Unref(old(B()), Slot(bucket, pos))
    {
      var id := vvNew[bucket, pos];
      mapInfo := mapInfo[id := mapInfo[id].(refCount := mapInfo[id].refCount - 1)];
      SetNew(bucket, pos, EMPTY);
    }

    /** Clears a position of the new table. */
    method ClearNew(bucket: nat, pos: nat, ghost limbo: set<Id>, ghost u: set<Id>)
      requires Rep() && Almost(e, B(), limbo, u) && bucket < NEW_BUCKET_COUNT && pos < BUCKET_SIZE
      modifies this`mapInfo, this`mapAddr, this`vRandom, this`nNew, this`networkCounts, this`newT, vvNew
      ensures Rep() && B() == Ops.ClearNew(e, old(B()), Slot(bucket, pos))
    {
      hide TablesOk; hide AddressesOk; hide OrderOk; hide TalliesOk; hide Deleted;
      var id := vvNew[bucket, pos];
      if id != EMPTY {
        ReadyToClear(e, B(), Slot(bucket, pos), limbo, u);
        Unlist(bucket, pos);
        if mapInfo[id].refCount == 0 {
          Delete(id);
        }
      }
    }

    method RemoveFromBucket(ghost b: Book, id: Id, ghost start: nat, ghost n: nat, bucket: nat) returns (found: bool)
      requires Rep() && TablesOk(e, b, {}) && start < NEW_BUCKET_COUNT && n < NEW_BUCKET_COUNT
      requires IsWithout(b, B(), id, start, n) && bucket == (start + n) % NEW_BUCKET_COUNT && id != EMPTY
      modifies this`mapInfo, this`newT, vvNew
      ensures Rep() && IsWithout(b, B(), id, start, n + 1)
    {
      var pos := Position(e, nKey, true, bucket, mapInfo[id].service);
      RemoveOne(e, b, B(), id, start, n, Slot(bucket, pos));
      found := vvNew[bucket, pos] == id;
      if found {
        Unlist(bucket, pos);
      }
    }

    /** Takes an entry out of every bucket of the new table, starting from the one that its first
        source selects and stopping as soon as its count is used up. */
    method RemoveFromNew(id: Id)
      requires Rep() && Almost(e, B(), {}, {}) && id in mapInfo && !mapInfo[id].inTried
      modifies this`mapInfo, this`newT, vvNew
      ensures Rep() && B() == AllUnref(old(B()), id)
    {
      ghost var b := B();
      hide TablesOk; hide AddressesOk; hide OrderOk; hide TalliesOk; hide AllUnref; hide Mirrors; hide SlotsOf;
      KnownId(e, b, id);
      var start := NewBucket(e, nKey, mapInfo[id].service, mapInfo[id].source);
      NoneVisited(e, b, id, start);
      var n := 0;
      while n < NEW_BUCKET_COUNT
        invariant 0 <= n <= NEW_BUCKET_COUNT && Rep() && IsWithout(b, B(), id, start, n)
      {
        var found := RemoveFromBucket(b, id, start, n, (start + n) % NEW_BUCKET_COUNT);
        n := n + 1;
        if found && mapInfo[id].refCount == 0 {
          break;
        }
      }
      NoneLeft(e, b, B(), id, start, n);
    }

    /** Takes the entry out of a tried position; for the moment it is nowhere. */
    method Untry(bucket: nat, pos: nat)
      requires Rep() && bucket < TRIED_BUCKET_COUNT && pos < BUCKET_SIZE
      requires Slot(bucket, pos) in triedT && triedT[Slot(bucket, pos)] in mapInfo
      modifies this`mapInfo, this`nTried, this`networkCounts, this`triedT, vvTried
      ensures Rep() && B() == Untried(e, old(B()), Slot(bucket, pos))
    {
      hide Bumped;
      var id := vvTried[bucket, pos];
      mapInfo := mapInfo[id := mapInfo[id].(inTried := false)];
      hide Mirrors;
      SetTried(bucket, pos, EMPTY);
      nTried := nTried - 1;
      ghost var b := old(B());
      assert B() == b.(info := mapInfo, triedT := triedT, nTried := b.nTried - 1);
      CountTried(e.network(mapInfo[id].service.ip), -1);
    }

    /** Enters an entry that is not counted into an empty new position. */
    method Reenter(bucket: nat, pos: nat, id: Id)
      requires Rep() && bucket < NEW_BUCKET_COUNT && pos < BUCKET_SIZE
      requires id in mapInfo && id != EMPTY && mapInfo[id].refCount == 0
      modifies this`mapInfo, this`nNew, this`networkCounts, this`newT, vvNew
      ensures Rep() && B() == Ref(Bump(old(B()), NetworkOf(e, old(B()), id), false, 1), Slot(bucket, pos), id)
    {
      hide Bumped; hide Mirrors;
      mapInfo := mapInfo[id := mapInfo[id].(refCount := 1)];
      SetNew(bucket, pos, id);
      nNew := nNew + 1;
      ghost var b := old(B());
      assert B() == b.(info := mapInfo, newT := newT, nNew := b.nNew + 1);
      CountNew(e.network(mapInfo[id].service.ip), 1);
    }

    /** Moves the entry of a tried position back to the new table, deleting whatever is there. */
    method Evict(bucket: nat, pos: nat, ghost limbo: set<Id>, ghost u: set<Id>)
      requires Rep() && Almost(e, B(), limbo, u) && bucket < TRIED_BUCKET_COUNT && pos < BUCKET_SIZE
      requires Slot(bucket, pos) in triedT && triedT[Slot(bucket, pos)] in mapInfo
      modifies this`mapInfo, this`mapAddr, this`vRandom, this`nNew, this`nTried, this`networkCounts
      modifies this`newT, this`triedT, vvNew, vvTried
      ensures Rep() && B() == Ops.Evicted(e, old(B()), Slot(bucket, pos))
    {
      var id := vvTried[bucket, pos];
      EvictReady(e, B(), Slot(bucket, pos), limbo, u);
      Untry(bucket, pos);
      var newBucket := NewBucket(e, nKey, mapInfo[id].service, mapInfo[id].source);
      var newPos := Position(e, nKey, true, newBucket, mapInfo[id].service);
      ClearNew(newBucket, newPos, limbo + {id}, u + {id});
      Reenter(newBucket, newPos, id);
    }

    method EnterTried(bucket: nat, pos: nat, id: Id)
      requires Rep() && bucket < TRIED_BUCKET_COUNT && pos < BUCKET_SIZE && id in mapInfo && id != EMPTY
      modifies this`mapInfo, this`nTried, this`networkCounts, this`triedT, vvTried
      ensures Rep() && B() == Tried(e, old(B()), Slot(bucket, pos), id)
    {
      hide Bumped;
      SetTried(bucket, pos, id);
      hide Mirrors;
      nTried := nTried + 1;
      mapInfo := mapInfo[id := mapInfo[id].(inTried := true)];
      CountTried(e.network(mapInfo[id].service.ip), 1);
    }

    /** Moves an entry from the new table to the tried one. */
    method MakeTried(id: Id)
      requires Rep() && Almost(e, B(), {}, {}) && id in mapInfo && !mapInfo[id].inTried && mapInfo[id].lastSuccess > 0
      modifies this`mapInfo, this`mapAddr, this`vRandom, this`nNew, this`nTried, this`networkCounts
      modifies this`newT, this`triedT, vvNew, vvTried
      ensures Rep() && B() == Ops.MakeTried(e, old(B()), id)
    {
      hide TablesOk; hide AddressesOk; hide OrderOk; hide TalliesOk; hide TimesOk; hide Ops.Evicted;
      MoveReady(e, B(), id);
      var service := mapInfo[id].service;
      var bucket := e.triedHash(nKey, service) % TRIED_BUCKET_COUNT;
      var pos := Position(e, nKey, false, bucket, service);
      RemoveFromNew(id);
      UncountNew(e.network(service.ip));
      if vvTried[bucket, pos] != EMPTY {
        Evict(bucket, pos, {id}, {id});
      }
      EnterTried(bucket, pos, id);
    }

    method UncountNew(network: nat)
      modifies this`nNew, this`networkCounts
      ensures B() == Bump(old(B()), network, false, -1)
    {
      hide Bumped;
      nNew := nNew - 1;
      CountNew(network, -1);
    }

    // ---- the public operations ----

    method Update(id: Id, info: AddrInfo)
      modifies this`mapInfo
      ensures B() == Ops.Touch(old(B()), id, info)
    {
      mapInfo := mapInfo[id := info];
    }

    /** Takes over an announced address. `lucky` stands for the random test against repetition. */
    method AddSingle(addr: Address, source: NetAddr, penalty: int, now: int, lucky: bool) returns (added: bool)
      requires Valid()
      modifies this, vvNew
      ensures Valid() && (added, B()) == Ops.AddSingle(e, old(B()), addr, source, penalty, now, lucky)
    {
      Ops.AddSingleKeeps(e, B(), addr, source, penalty, now, lucky);
      if !e.Routable(addr.service.ip) {
        return false;
      }
      var found, id := Find(addr.service);
      var p := if addr.service.ip == source then 0 else penalty;
      if found {
        added := AddKnown(id, addr, source, p, now, lucky);
      } else {
        added := AddNew(addr, source, p, now);
      }
    }

    method AddKnown(id: Id, addr: Address, source: NetAddr, penalty: int, now: int, lucky: bool) returns (added: bool)
      requires Valid() && Ops.Known(B(), addr.service) && id == mapAddr[addr.service]
      modifies this`mapInfo, this`mapAddr, this`vRandom, this`nNew, this`networkCounts, this`newT, vvNew
      ensures Rep() && (added, B()) == Ops.AddedKnown(e, old(B()), id, addr, source, penalty, now, lucky)
    {
      hide TablesOk; hide AddressesOk; hide OrderOk; hide TalliesOk; hide Mirrors; hide Ops.Listed; hide Ops.Refreshed;
      RefreshReady(e, B(), addr, penalty, now);
      Refresh(id, addr, penalty, now);
      var info := mapInfo[id];
      if addr.time <= info.time || info.inTried || info.refCount == NEW_BUCKETS_PER_ADDRESS
         || (info.refCount > 0 && !lucky)
      {
        return false;
      }
      added := List(id, source, now, {});
    }

    method AddNew(addr: Address, source: NetAddr, penalty: int, now: int) returns (added: bool)
      requires Valid() && !Ops.Known(B(), addr.service) && e.Routable(addr.service.ip)
      modifies this`nIdCount, this`mapInfo, this`mapAddr, this`vRandom, this`nNew, this`networkCounts, this`newT, vvNew
      ensures Rep()
      ensures (added, B())
           == Ops.Listed(e, Ops.Entered(e, old(B()), addr, source, penalty), NextId(old(B())), source, now)
    {
      EnterReady(e, B(), addr, source, penalty);
      var id := Enter(addr, source, penalty);
      added := List(id, source, now, {id});
    }

    method Enter(addr: Address, source: NetAddr, penalty: int) returns (id: Id)
      modifies this`nIdCount, this`mapInfo, this`mapAddr, this`vRandom, this`nNew, this`networkCounts
      ensures B() == Ops.Entered(e, old(B()), addr, source, penalty) && id == NextId(old(B()))
    {
      id := Create(addr, source);
      mapInfo := mapInfo[id := mapInfo[id].(time := Max(0, addr.time - penalty))];
    }

    /** Brings the entry of a repeated announcement up to date. */
    method Refresh(id: Id, addr: Address, penalty: int, now: int)
      requires id in mapInfo
      modifies this`mapInfo
      ensures B() == Ops.Touch(old(B()), id, Ops.Refreshed(old(mapInfo)[id], addr, penalty, now))
    {
      var interval := if now - addr.time < Ops.DAY then Ops.HOUR else Ops.DAY;
      var info := mapInfo[id];
      var time := if info.time < addr.time - interval - penalty then Max(0, addr.time - penalty) else info.time;
      mapInfo := mapInfo[id := info.(time := time, services := info.services + addr.services)];
    }

    method Enlist(bucket: nat, pos: nat, id: Id)
      requires Rep() && bucket < NEW_BUCKET_COUNT && pos < BUCKET_SIZE && id in mapInfo && id != EMPTY
      modifies this`mapInfo, this`newT, vvNew
      ensures Rep() && B() == Ref(old(B()), Slot(bucket, pos), id)
    {
      mapInfo := mapInfo[id := mapInfo[id].(refCount := mapInfo[id].refCount + 1)];
      SetNew(bucket, pos, id);
    }

    /** Lists an entry under the position that a source selects, if that position can be had. */
    method List(id: Id, source: NetAddr, now: int, ghost limbo: set<Id>) returns (insert: bool)
      requires Rep() && Almost(e, B(), limbo, {}) && id in mapInfo && !mapInfo[id].inTried
      requires limbo == (if mapInfo[id].refCount == 0 then {id} else {})
      requires mapInfo[id].refCount < NEW_BUCKETS_PER_ADDRESS
      modifies this`mapInfo, this`mapAddr, this`vRandom, this`nNew, this`networkCounts, this`newT, vvNew
      ensures Rep() && (insert, B()) == Ops.Listed(e, old(B()), id, source, now)
    {
      hide TablesOk; hide AddressesOk; hide OrderOk; hide TalliesOk; hide TimesOk; hide Ops.ClearNew;
      var bucket := NewBucket(e, nKey, mapInfo[id].service, source);
      var pos := Position(e, nKey, true, bucket, mapInfo[id].service);
      ListReady(e, B(), id, source, now, limbo);
      insert := MayInsert(bucket, pos, id, now);
      if vvNew[bucket, pos] != id {
        if insert {
          ClearNew(bucket, pos, limbo, {});
          Enlist(bucket, pos, id);
        } else if mapInfo[id].refCount == 0 {
          Delete(id);
        }
      }
    }

    /** Whether a position is free, or is held by another entry that must give way. */
    method MayInsert(bucket: nat, pos: nat, id: Id, now: int) returns (insert: bool)
      requires Rep() && bucket < NEW_BUCKET_COUNT && pos < BUCKET_SIZE && id in mapInfo
      requires Slot(bucket, pos) in newT ==> newT[Slot(bucket, pos)] in mapInfo
      ensures insert <==> (Slot(bucket, pos) in newT ==>
                             newT[Slot(bucket, pos)] != id && Ops.GivesWay(B(), Slot(bucket, pos), id, now))
    {
      insert := vvNew[bucket, pos] == EMPTY;
      if vvNew[bucket, pos] != id && !insert {
        var existing := mapInfo[vvNew[bucket, pos]];
        if IsTerrible(existing, now) || (existing.refCount > 1 && mapInfo[id].refCount == 0) {
          insert := true;
        }
      }
    }

    /** Takes over announced addresses one after the other. */
    method Add(addrs: seq<Address>, source: NetAddr, penalty: int, nows: seq<int>, lucky: seq<bool>) returns (any: bool)
      requires Valid() && |nows| == |lucky| == |addrs|
      modifies this, vvNew
      ensures Valid() && B() == Ops.AddAll(e, old(B()), addrs, source, penalty, nows, lucky).1
      ensures any <==> Ops.AddAll(e, old(B()), addrs, source, penalty, nows, lucky).0 > 0
    {
      hide Consistent; hide Mirrors; hide Ops.AddSingle;
      var added, n := 0, 0;
      while n < |addrs|
        invariant 0 <= n <= |addrs| && Valid()
        invariant B() == Ops.AddAll(e, old(B()), addrs[..n], source, penalty, nows[..n], lucky[..n]).1
        invariant added == Ops.AddAll(e, old(B()), addrs[..n], source, penalty, nows[..n], lucky[..n]).0
      {
        Ops.AddAllOneMore(e, old(B()), addrs, n, source, penalty, nows, lucky);
        var one := AddSingle(addrs[n], source, penalty, nows[n], lucky[n]);
        added := added + if one then 1 else 0;
        n := n + 1;
      }
      assert addrs[..n] == addrs && nows[..n] == nows && lucky[..n] == lucky;
      any := added > 0;
    }

    /** A successful connection. */
    method Good(addr: Service, test: bool, time: int) returns (moved: bool)
      requires Valid() && time > 0
      modifies this, vvNew, vvTried
      ensures Valid() && (moved, B()) == Ops.Good(e, old(B()), addr, test, time)
    {
      hide Consistent; hide Mirrors; hide Ops.GoodEntry;
      Ops.GoodKeeps(e, B(), addr, test, time);
      ghost var b := B();
      lastGood := time;
      var found, id := Find(addr);
      if !found {
        return false;
      }
      moved := GoodKnown(b, addr, id, test, time);
    }

    method GoodKnown(ghost b: Book, addr: Service, id: Id, test: bool, time: int) returns (moved: bool)
      requires Rep() && Consistent(e, b) && time > 0 && Ops.Known(b, addr) && id == b.addr[addr]
      requires B() == b.(lastGood := time)
      modifies this`mapInfo, this`mapAddr, this`vRandom, this`nNew, this`nTried, this`networkCounts
      modifies this`triedCollisions, this`newT, this`triedT, vvNew, vvTried
      ensures Rep() && (moved, B()) == Ops.Good(e, b, addr, test, time)
    {
      hide Almost; hide Mirrors; hide Ops.GoodEntry; hide Ops.Good;
      GoodReady(e, b, addr, test, time);
      NoteGood(id, time);
      moved := MoveUnlessTaken(id, test);
    }

    method NoteGood(id: Id, time: int)
      requires id in mapInfo
      modifies this`mapInfo
      ensures B() == Ops.Touch(old(B()), id, old(mapInfo)[id].(lastSuccess := time, lastTry := time, attempts := 0))
    {
      mapInfo := mapInfo[id := mapInfo[id].(lastSuccess := time, lastTry := time, attempts := 0)];
    }

    /** Moves an entry of the new table to the tried one, or notes the collision. */
    method MoveUnlessTaken(id: Id, test: bool) returns (moved: bool)
      requires Rep() && Almost(e, B(), {}, {}) && id in mapInfo && mapInfo[id].lastSuccess > 0
      modifies this`mapInfo, this`mapAddr, this`vRandom, this`nNew, this`nTried, this`networkCounts
      modifies this`triedCollisions, this`newT, this`triedT, vvNew, vvTried
      ensures Rep() && (moved, B()) == Ops.GoodEntry(e, old(B()), id, test)
    {
      hide Almost; hide Mirrors; hide Ops.MakeTried;
      if mapInfo[id].inTried || mapInfo[id].refCount <= 0 {
        return false;
      }
      var taken := Taken(id);
      if test && taken {
        Collide(id);
        return false;
      }
      MakeTried(id);
      return true;
    }

    /** Notes a collision, as long as there are not too many. */
    method Collide(id: Id)
      modifies this`triedCollisions
      ensures B() == Ops.Collided(old(B()), id)
    {
      if |triedCollisions| < SET_TRIED_COLLISION_SIZE {
        triedCollisions := triedCollisions + {id};
      }
    }

    /** Whether the tried position of an entry is taken. */
    method Taken(id: Id) returns (taken: bool)
      requires Rep() && id in mapInfo
      ensures taken <==> Ops.OwnTriedSlot(e, B(), id) in triedT
    {
      var bucket := e.triedHash(nKey, mapInfo[id].service) % TRIED_BUCKET_COUNT;
      var pos := Position(e, nKey, false, bucket, mapInfo[id].service);
      taken := vvTried[bucket, pos] != EMPTY;
    }

    method Attempt(addr: Service, countFailure: bool, time: int)
      requires Valid() && time >= 0
      modifies this`mapInfo
      ensures Valid() && B() == Ops.Attempt(old(B()), addr, countFailure, time)
    {
      hide Consistent; hide Mirrors;
      Ops.AttemptKeeps(e, B(), addr, countFailure, time);
      var found, id := Find(addr);
      if found {
        NoteAttempt(id, countFailure, time);
      }
    }

    method NoteAttempt(id: Id, countFailure: bool, time: int)
      requires id in mapInfo
      modifies this`mapInfo
      ensures B() == Ops.Touch(old(B()), id, Ops.Attempted(old(mapInfo)[id], countFailure, lastGood, time))
    {
      var info := mapInfo[id].(lastTry := time);
      if countFailure && info.lastCountAttempt < lastGood {
        info := info.(lastCountAttempt := time, attempts := info.attempts + 1);
      }
      mapInfo := mapInfo[id := info];
    }

    method Connected(addr: Service, time: int)
      requires Valid()
      modifies this`mapInfo
      ensures Valid() && B() == Ops.Connected(old(B()), addr, time)
    {
      hide Consistent; hide Mirrors;
      Ops.ConnectedKeeps(e, B(), addr, time);
      var found, id := Find(addr);
      if found && time - mapInfo[id].time > 20 * 60 {
        Update(id, mapInfo[id].(time := time));
      }
    }

    method SetServices(addr: Service, services: set<nat>)
      requires Valid()
      modifies this`mapInfo
      ensures Valid() && B() == Ops.SetServices(old(B()), addr, services)
    {
      hide Consistent; hide Mirrors;
      Ops.SetServicesKeeps(e, B(), addr, services);
      var found, id := Find(addr);
      if found {
        Update(id, mapInfo[id].(services := services));
      }
    }

    /** Decides about one pending collision. */
    method ResolveOne(id: Id, now: int) returns (settled: bool)
      requires Valid() && now > 0
      modifies this, vvNew, vvTried
      ensures Valid() && (B(), settled) == Ops.ResolveOne(e, old(B()), id, now)
      ensures Resolve.Decided(e, old(B()), Ops.Settled(B(), id, settled), id, now)
      ensures settled <==> Resolve.FateOf(e, old(B()), id, now) != Resolve.Waits
    {
      Resolve.ResolveOutcome(e, B(), id, now);
      Resolve.SettledUnlessWaits(e, B(), id, now);
      hide Resolve.Decided; hide Resolve.FateOf;
      hide AddressesOk; hide OrderOk; hide TalliesOk; hide Ops.Good;
      if id !in mapInfo || !e.valid(mapInfo[id].service.ip) {
        return true;
      }
      var service := mapInfo[id].service;
      var bucket := e.triedHash(nKey, service) % TRIED_BUCKET_COUNT;
      var pos := Position(e, nKey, false, bucket, service);
      if vvTried[bucket, pos] == EMPTY {
        var _ := Good(service, false, now);
        return true;
      }
      assert TriedEntryOk(e, B(), Slot(bucket, pos));
      var other := mapInfo[vvTried[bucket, pos]];
      if now - other.lastSuccess < REPLACEMENT {
        return true;
      } else if now - other.lastTry < REPLACEMENT {
        if now - other.lastTry > 60 {
          var _ := Good(service, false, now);
          return true;
        }
      } else if now - mapInfo[id].lastSuccess > TEST_WINDOW {
        var _ := Good(service, false, now);
        return true;
      }
      return false;
    }

    /** Decides about all pending collisions, in ascending order of the ids. */
    method ResolveCollisions(now: int)
      requires Valid() && now > 0
      modifies this, vvNew, vvTried
      ensures Valid() && B() == Ops.Resolve(e, old(B()), old(triedCollisions), now)
      ensures forall s :: Resolve.Spared(old(B()), B(), s, now)
      ensures triedCollisions <= old(triedCollisions)
      ensures forall id | id in old(triedCollisions) && id !in old(mapInfo) :: id !in triedCollisions
    {
      Resolve.ResolveAll(e, B(), now);
      hide Resolve.Spared;
      var todo := triedCollisions;
      while todo != {}
        invariant Valid() && Ops.Resolve(e, B(), todo, now) == Ops.Resolve(e, old(B()), old(triedCollisions), now)
        decreases |todo|
      {
        ghost var least := Ops.Least(todo);
        var id :| id in todo && forall x | x in todo :: id.n <= x.n;
        Ops.ResolveFirst(e, B(), todo, now, id);
        Settle(id, now);
        todo := todo - {id};
      }
    }

    method Settle(id: Id, now: int)
      requires Valid() && now > 0
      modifies this, vvNew, vvTried
      ensures Valid()
      ensures B() == Ops.Settled(Ops.ResolveOne(e, old(B()), id, now).0, id, Ops.ResolveOne(e, old(B()), id, now).1)
      ensures Resolve.Decided(e, old(B()), B(), id, now)
    {
      var settled := ResolveOne(id, now);
      Ops.SettledKeeps(e, B(), id, settled);
      if settled {
        triedCollisions := triedCollisions - {id};
      }
    }

    /** The tried entry that a pending collision, chosen by chance, is about. */
    method SelectTriedCollision(pick: Id) returns (r: Ops.Selected)
      requires Valid() && (triedCollisions == {} || pick in triedCollisions)
      modifies this`triedCollisions
      ensures Valid()
      ensures if old(triedCollisions) == {} then r == Ops.Nothing && B() == old(B())
              else Ops.Selectable(e, old(B()), pick) && (r, B()) == Ops.SelectCollision(e, old(B()), pick)
    {
      if triedCollisions == {} {
        return Ops.Nothing;
      }
      Ops.CollisionHasOpponent(e, B(), pick);
      Ops.SettledKeeps(e, B(), pick, true);
      if pick !in mapInfo {
        triedCollisions := triedCollisions - {pick};
        return Ops.Nothing;
      }
      var service := mapInfo[pick].service;
      var bucket := e.triedHash(nKey, service) % TRIED_BUCKET_COUNT;
      var pos := Position(e, nKey, false, bucket, service);
      r := Ops.Entry(mapInfo[vvTried[bucket, pos]]);
    }

    /** Hands out addresses in random order: all that pass the filter, or as many as asked for. */
    method GetAddr(maxAddresses: nat, maxPct: nat, network: Option<nat>, filtered: bool, now: int)
        returns (r: seq<Address>)
      requires Valid()
      modifies this`mapInfo, this`vRandom
      ensures Valid() && Reordered(old(B()), B())
      ensures |r| <= Ops.Limit(|vRandom|, maxAddresses, maxPct)
      ensures forall a | a in r :: Ops.HandedOut(e, B(), a, network, filtered, now)
      ensures forall i, j | 0 <= i < j < |r| :: r[i].service != r[j].service
      ensures |r| < Ops.Limit(|vRandom|, maxAddresses, maxPct) ==>
                forall id | id in mapInfo && Ops.Eligible(e, mapInfo[id], network, filtered, now) ::
                  Ops.AddressOf(mapInfo[id]) in r
    {
      hide TablesOk; hide AddressesOk; hide TalliesOk; hide Mirrors; hide Ops.Eligible; hide Ops.Passed;
      var limit := |vRandom|;
      if maxPct != 0 {
        limit := maxPct * limit / 100;
      }
      if maxAddresses != 0 && maxAddresses < limit {
        limit := maxAddresses;
      }
      r := [];
      var n := 0;
      Ops.PassedNone(e, B(), network, filtered, now);
      while n < |vRandom| && |r| < limit
        invariant 0 <= n <= |vRandom| && |vRandom| == |old(vRandom)| && |r| <= limit
        invariant Valid() && Reordered(old(B()), B()) && Ops.Passed(e, B(), r, n, network, filtered, now)
      {
        r := Visit(r, n, network, filtered, now);
        n := n + 1;
      }
      Ops.PassedGives(e, B(), r, n, network, filtered, now);
      if n == |vRandom| {
        Ops.PassedAll(e, B(), r, network, filtered, now);
      }
    }

    /** Moves a random entry to place n, and hands it out if it passes the filter. */
    method Visit(r: seq<Address>, n: nat, network: Option<nat>, filtered: bool, now: int) returns (r': seq<Address>)
      requires Valid() && n < |vRandom| && Ops.Passed(e, B(), r, n, network, filtered, now)
      modifies this`mapInfo, this`vRandom
      ensures Valid() && Reordered(old(B()), B()) && |vRandom| == |old(vRandom)| && |r'| <= |r| + 1
      ensures Ops.Passed(e, B(), r', n + 1, network, filtered, now)
    {
      var at :| n <= at < |vRandom|;
      Ops.PassedOneMore(e, B(), r, n, at, network, filtered, now);
      SwapRandom(n, at);
      var info := mapInfo[vRandom[n]];
      if (network.Some? && e.netClass(info.service.ip) != network.value) || (IsTerrible(info, now) && filtered) {
        return r;
      }
      return r + [Address(info.service, info.time, info.services)];
    }
  }

  lemma KnownId(e: Env, b: Book, id: Id)
    requires AddressesOk(e, b) && id in b.info
    ensures id != EMPTY
  {
    assert IdOk(e, b, id);
  }

  /** How far a bucket lies from the starting one, going round. */
  function Distance(bucket: int, start: int): int {
    if bucket >= start then bucket - start else bucket - start + NEW_BUCKET_COUNT
  }

  /** Book c is b with an entry taken out of the first n buckets on the way round. */
  ghost predicate IsWithout(b: Book, c: Book, id: Id, start: int, n: int) {
    && id in b.info && id in c.info
    && c == b.(newT := c.newT, info := c.info)
    && c.info[id] == b.info[id].(refCount := |SlotsOf(c.newT, id)|)
    && c.info[id := b.info[id]] == b.info
    && (forall s | s in c.newT :: s in b.newT && c.newT[s] == b.newT[s])
    && (forall s | s in b.newT :: s in c.newT <==> !(b.newT[s] == id && Distance(s.bucket, start) < n))
  }

  /** The only place that an entry can have in the next bucket on the way round. */
  lemma OnlyPlace(e: Env, b: Book, id: Id, start: nat, n: nat, slot: Slot)
    requires TablesOk(e, b, {}) && start < NEW_BUCKET_COUNT && n < NEW_BUCKET_COUNT && id in b.info
    requires slot.bucket == (start + n) % NEW_BUCKET_COUNT
    requires slot.pos == Position(e, b.key, true, slot.bucket, b.info[id].service)
    ensures slot.bucket < NEW_BUCKET_COUNT && Distance(slot.bucket, start) == n
    ensures forall s | s in b.newT && b.newT[s] == id :: Distance(s.bucket, start) == n ==> s == slot
  {
    assert slot.bucket == if start + n < NEW_BUCKET_COUNT then start + n else start + n - NEW_BUCKET_COUNT;
    forall s | s in b.newT && b.newT[s] == id
      ensures Distance(s.bucket, start) == n ==> s == slot
    {
      assert NewEntryOk(e, b, s);
    }
  }

  /** Looking at the next bucket, and emptying the position there that holds the entry. */
  lemma RemoveOne(e: Env, b: Book, c: Book, id: Id, start: nat, n: nat, slot: Slot)
    requires TablesOk(e, b, {}) && start < NEW_BUCKET_COUNT && n < NEW_BUCKET_COUNT
    requires IsWithout(b, c, id, start, n) && slot.bucket == (start + n) % NEW_BUCKET_COUNT
    requires slot.pos == Position(e, b.key, true, slot.bucket, b.info[id].service)
    ensures if slot in c.newT && c.newT[slot] == id then IsWithout(b, Unref(c, slot), id, start, n + 1)
            else IsWithout(b, c, id, start, n + 1)
  {
    OnlyPlace(e, b, id, start, n, slot);
    hide TablesOk; hide Position;
    if slot in c.newT && c.newT[slot] == id {
      RemoveFound(b, c, id, start, n, slot);
    }
  }

  lemma RemoveFound(b: Book, c: Book, id: Id, start: nat, n: nat, slot: Slot)
    requires IsWithout(b, c, id, start, n) && slot in c.newT && c.newT[slot] == id && Distance(slot.bucket, start) == n
    requires forall s | s in b.newT && b.newT[s] == id :: Distance(s.bucket, start) == n ==> s == slot
    ensures IsWithout(b, Unref(c, slot), id, start, n + 1)
  {
    SlotsWithout(c.newT, slot, id);
    hide SlotsOf; hide Distance;
    Overwritten(c.info, id, Unref(c, slot).info[id], b.info[id]);
  }

  lemma Overwritten(m: map<Id, AddrInfo>, id: Id, x: AddrInfo, y: AddrInfo)
    ensures m[id := x][id := y] == m[id := y]
  {
  }

  lemma NoneVisited(e: Env, b: Book, id: Id, start: nat)
    requires TablesOk(e, b, {}) && id in b.info && start < NEW_BUCKET_COUNT
    ensures IsWithout(b, b, id, start, 0)
  {
    assert EntryOk(e, b, id, {});
    forall s | s in b.newT ensures s.bucket < NEW_BUCKET_COUNT { assert NewEntryOk(e, b, s); }
  }

  /** What clearing a position needs to know. */
  lemma ReadyToClear(e: Env, b: Book, s: Slot, limbo: set<Id>, u: set<Id>)
    requires Almost(e, b, limbo, u) && s in b.newT
    ensures b.newT[s] in b.info
    ensures var c, id := Unref(b, s), b.newT[s];
            c.info[id].refCount == 0 ==>
              CanDrop(c, id) && c.random[c.info[id].randomPos] == id && !c.info[id].inTried
  {
    UnrefKeeps(e, b, s, limbo, u);
    var c, id := Unref(b, s), b.newT[s];
    assert NewEntryOk(e, b, s);
    if c.info[id].refCount == 0 {
      DeletedKeeps(e, c, id, limbo + {id}, u);
      assert PlaceOk(c, id);
    }
  }

  /** After a whole round, or once the count is used up, nothing is left to take out. */
  lemma NoneLeft(e: Env, b: Book, c: Book, id: Id, start: nat, n: nat)
    requires TablesOk(e, b, {}) && IsWithout(b, c, id, start, n) && start < NEW_BUCKET_COUNT
    requires n == NEW_BUCKET_COUNT || c.info[id].refCount == 0
    ensures c == AllUnref(b, id)
  {
    hide Position; hide TriedEntryOk;
    forall s | s in c.newT
      ensures c.newT[s] != id
    {
      assert NewEntryOk(e, b, s);
      assert c.newT[s] == id ==> s in SlotsOf(c.newT, id);
    }
    assert SlotsOf(c.newT, id) == {};
    assert c.newT == b.newT - SlotsOf(b.newT, id);
    assert c.info == b.info[id := c.info[id]];
  }

  /** What moving a tried entry back to the new table needs to know. */
  lemma EvictReady(e: Env, b: Book, s: Slot, limbo: set<Id>, u: set<Id>)
    requires Almost(e, b, limbo, u) && s in b.triedT && b.triedT[s] in b.info
    ensures var c, id := Untried(e, b, s), b.triedT[s];
            var d := Ops.ClearNew(e, c, Ops.OwnNewSlot(e, b, id));
            && Almost(e, c, limbo + {id}, u + {id})
            && id in d.info && d.info[id].refCount == 0 && id.n >= 0
  {
    var id, c := b.triedT[s], Untried(e, b, s);
    assert IdOk(e, b, id);
    hide Almost;
    UntriedKeeps(e, b, s, limbo, u);
    Ops.UntriedFrame(e, b, s);
    hide Untried;
    EvictCleared(e, c, id, limbo + {id}, u + {id});
  }

  lemma EvictCleared(e: Env, c: Book, id: Id, limbo: set<Id>, u: set<Id>)
    requires Almost(e, c, limbo, u) && id in limbo && id in u && id in c.info
    ensures var d := Ops.ClearNew(e, c, Ops.OwnNewSlot(e, c, id)); id in d.info && d.info[id].refCount == 0
  {
    hide TablesOk; hide AddressesOk; hide OrderOk; hide TalliesOk;
    Ops.NotListed(e, c, id, limbo);
    InLimbo(e, c, id, limbo);
    Ops.ClearNewFrame(e, c, Ops.OwnNewSlot(e, c, id));
  }

  /** What moving an entry to the tried table needs to know. */
  lemma MoveReady(e: Env, b: Book, id: Id)
    requires Almost(e, b, {}, {}) && id in b.info && !b.info[id].inTried && b.info[id].lastSuccess > 0
    ensures var c, s := Bump(AllUnref(b, id), NetworkOf(e, b, id), false, -1), Ops.OwnTriedSlot(e, b, id);
            && Almost(e, c, {id}, {id}) && id.n >= 0
            && (s in c.triedT ==> c.triedT[s] in c.info && id in Ops.Evicted(e, c, s).info)
            && Ops.MakeTried(e, b, id) == Tried(e, if s in c.triedT then Ops.Evicted(e, c, s) else c, s, id)
  {
    assert IdOk(e, b, id);
    Ops.OutOfNew(e, b, id);
    var c, s := Bump(AllUnref(b, id), NetworkOf(e, b, id), false, -1), Ops.OwnTriedSlot(e, b, id);
    if s in c.triedT {
      Ops.IntoTaken(e, c, id, s);
    }
  }

  lemma GoodReady(e: Env, b: Book, s: Service, test: bool, time: int)
    requires Consistent(e, b) && time > 0 && Ops.Known(b, s)
    ensures var c, id := b.(lastGood := time), b.addr[s];
            var d := Ops.Touch(c, id, c.info[id].(lastSuccess := time, lastTry := time, attempts := 0));
            Almost(e, d, {}, {}) && Ops.Good(e, b, s, test, time) == Ops.GoodEntry(e, d, id, test)
  {
    Ops.LastGoodKeeps(e, b, time);
    var c, id := b.(lastGood := time), b.addr[s];
    Ops.TouchConsistent(e, c, id, c.info[id].(lastSuccess := time, lastTry := time, attempts := 0));
  }

  lemma RefreshReady(e: Env, b: Book, a: Address, penalty: int, now: int)
    requires Consistent(e, b) && Ops.Known(b, a.service)
    ensures var id := b.addr[a.service];
            var c := Ops.Touch(b, id, Ops.Refreshed(b.info[id], a, penalty, now));
            && Almost(e, c, {}, {})
            && (!c.info[id].inTried ==> 1 <= c.info[id].refCount <= NEW_BUCKETS_PER_ADDRESS)
  {
    var id := b.addr[a.service];
    assert EntryOk(e, b, id, {});
    Ops.TouchKeeps(e, b, id, Ops.Refreshed(b.info[id], a, penalty, now), {}, {});
  }

  lemma EnterReady(e: Env, b: Book, a: Address, source: NetAddr, penalty: int)
    requires Consistent(e, b) && !Ops.Known(b, a.service) && e.Routable(a.service.ip)
    ensures Almost(e, Ops.Entered(e, b, a, source, penalty), {NextId(b)}, {})
  {
    assert a.service in b.addr ==> ServiceOk(b, a.service);
    Ops.EnteredKeeps(e, b, a, source, penalty);
  }

  /** What listing an entry needs to know, and what it comes to. */
  lemma ListReady(e: Env, b: Book, id: Id, source: NetAddr, now: int, limbo: set<Id>)
    requires Almost(e, b, limbo, {}) && id in b.info && !b.info[id].inTried
    requires limbo == (if b.info[id].refCount == 0 then {id} else {})
    ensures var s := NewSlot(e, b.key, b.info[id].service, source);
            && id.n >= 0 && (s in b.newT ==> b.newT[s] in b.info)
            && (b.info[id].refCount == 0 ==> CanDrop(b, id) && b.random[b.info[id].randomPos] == id)
            && (s !in b.newT || b.newT[s] != id ==> id in Ops.ClearNew(e, b, s).info)
            && Ops.Listed(e, b, id, source, now) ==
                 (if s in b.newT && b.newT[s] == id then (false, b)
                  else if s !in b.newT || Ops.GivesWay(b, s, id, now) then (true, Ref(Ops.ClearNew(e, b, s), s, id))
                  else (false, if b.info[id].refCount == 0 then Deleted(e, b, id) else b))
  {
    var s := NewSlot(e, b.key, b.info[id].service, source);
    assert IdOk(e, b, id) && PlaceOk(b, id);
    if s in b.newT { assert NewEntryOk(e, b, s); }
    Ops.ClearNewFrame(e, b, s);
    if b.info[id].refCount == 0 {
      DeletedKeeps(e, b, id, limbo, {});
    }
  }

  /** Swapping an entry to the end and cutting it off is dropping it. */
  lemma SwapThenDrop(b: Book, id: Id)
    requires CanDrop(b, id) && b.random[b.info[id].randomPos] == id
    ensures var c := Swapped(b, b.info[id].randomPos, |b.random| - 1);
            && |c.random| == |b.random|
            && c.random[..|b.random| - 1] == Dropped(b, id).random
            && c.info - {id} == Dropped(b, id).info
            && c == b.(info := c.info, random := c.random)
  {
  }
}
