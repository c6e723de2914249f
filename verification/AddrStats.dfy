/** What the address manager remembers about its entries beside where they are: times, attempts and
    services, and what follows for entries that are given up. */
module AddrStats {
  import opened AddrBook
  import Ops = AddrOps
  import Flow = AddrFlow

  // ---- attempts ----

  /** A failed or successful attempt to connect, as it is reported. */
  datatype Try = Try(countFailure: bool, time: int)

  function AttemptedAll(i: AddrInfo, tries: seq<Try>, lastGood: int): AddrInfo
    decreases |tries|
  {
    if tries == [] then i
    else
      var last := tries[|tries| - 1];
      Ops.Attempted(AttemptedAll(i, tries[..|tries| - 1], lastGood), last.countFailure, lastGood, last.time)
  }

  /** Some of the attempts are to count. */
  predicate AnyCounts(tries: seq<Try>) { exists k | 0 <= k < |tries| :: tries[k].countFailure }

  lemma AnyCountsLast(tries: seq<Try>)
    requires tries != []
    ensures AnyCounts(tries) <==> AnyCounts(tries[..|tries| - 1]) || tries[|tries| - 1].countFailure
  {
    var n := |tries| - 1;
    assert forall k | 0 <= k < n :: tries[..n][k] == tries[k];
    if AnyCounts(tries[..n]) {
      var k :| 0 <= k < n && tries[..n][k].countFailure;
      assert tries[k].countFailure;
    }
  }

  /** However many attempts there are on an entry while no connection succeeds anywhere, at most one
      failure is counted, and one is exactly if one is to count and none was since the last success. */
  lemma {:induction false} FailuresCountOnce(i: AddrInfo, tries: seq<Try>, lastGood: int)
    requires forall k | 0 <= k < |tries| :: tries[k].time >= lastGood
    ensures var j := AttemptedAll(i, tries, lastGood);
            && j.attempts == i.attempts + (if i.lastCountAttempt < lastGood && AnyCounts(tries) then 1 else 0)
            && (j.lastCountAttempt < lastGood <==> i.lastCountAttempt < lastGood && !AnyCounts(tries))
            && (tries != [] ==> j.lastTry == tries[|tries| - 1].time)
            && j == i.(lastTry := j.lastTry, lastCountAttempt := j.lastCountAttempt, attempts := j.attempts)
    decreases |tries|
  {
    if tries != [] {
      var n := |tries| - 1;
      assert forall k | 0 <= k < n :: tries[..n][k] == tries[k];
      FailuresCountOnce(i, tries[..n], lastGood);
      AnyCountsLast(tries);
    }
  }

  // ---- connections ----

  /** An entry that goes to the tried table keeps all that is remembered about it. */
  lemma MakeTriedOwn(e: Env, b: Book, id: Id)
    requires Almost(e, b, {}, {}) && id in b.info && !b.info[id].inTried && b.info[id].lastSuccess > 0
    ensures var c := Ops.MakeTried(e, b, id);
            && id in c.info
            && c.info[id] == b.info[id].(refCount := 0, inTried := true, randomPos := c.info[id].randomPos)
  {
    hide Almost; hide Ops.Evicted; hide Bump; hide AllUnref; hide TriedSlot; hide Flow.Unlisted; hide Tried;
    hide Ops.SameServices; hide NewSlot; hide Ops.MovedTo;
    Flow.Leaves(e, b, id);
    var s, b1, c := Ops.OwnTriedSlot(e, b, id), Flow.Leaving(e, b, id), Ops.MakeTried(e, b, id);
    if s in b.triedT {
      InNoSlot(e, b1, id);
      Ops.IntoTaken(e, b1, id, s);
      Ops.EvictedFrame(e, b1, s, id);
      Flow.InSlot(e, Ops.Evicted(e, b1, s), s, id);
    } else {
      Flow.InSlot(e, b1, s, id);
    }
  }

  lemma InNoSlot(e: Env, b: Book, id: Id)
    requires Almost(e, b, {id}, {id})
    ensures forall t | t in b.newT :: b.newT[t] in b.info && b.newT[t] != id
  {
    Ops.NotListed(e, b, id, {id});
  }

  /** What is remembered about an entry after a success: the time of it, and no failure. */
  predicate JustSucceeded(i: AddrInfo, j: AddrInfo, time: int) {
    && j.lastSuccess == time && j.lastTry == time && j.attempts == 0
    && j == i.(lastSuccess := time, lastTry := time, attempts := 0, refCount := j.refCount, inTried := j.inTried,
               randomPos := j.randomPos)
  }

  /** A success is remembered, whether or not the entry is moved, and the entry is not given up
      within the next minute. */
  lemma GoodIsRemembered(e: Env, b: Book, s: Service, test: bool, time: int, now: int)
    requires Consistent(e, b) && time > 0 && Ops.Known(b, s)
    ensures var c, id := Ops.Good(e, b, s, test, time).1, b.addr[s];
            && c.lastGood == time && id in c.info && JustSucceeded(b.info[id], c.info[id], time)
            && (now - time <= 60 ==> !IsTerrible(c.info[id], now))
  {
    hide TablesOk; hide AddressesOk; hide OrderOk; hide TalliesOk; hide CollisionsOk; hide Ops.MakeTried;
    hide TriedSlot;
    var id := b.addr[s];
    Flow.Updated(e, b, id, time);
    var a := Ops.Touch(b.(lastGood := time), id, b.info[id].(lastSuccess := time, lastTry := time, attempts := 0));
    if !a.info[id].inTried {
      MakeTriedOwn(e, a, id);
      Ops.MakeTriedKeeps(e, a, id);
    }
  }

  /** Of a connection that goes on, the time is remembered to twenty minutes, and never set back. */
  lemma ConnectedIsRemembered(b: Book, s: Service, time: int)
    requires Ops.Known(b, s)
    ensures var c, id := Ops.Connected(b, s, time), b.addr[s];
            && c == b.(info := b.info[id := c.info[id]]) && c.info[id] == b.info[id].(time := c.info[id].time)
            && time - c.info[id].time <= 20 * 60 && b.info[id].time <= c.info[id].time
            && (c.info[id].time != b.info[id].time ==> c.info[id].time == time)
  {
    assert b.info[b.addr[s] := b.info[b.addr[s]]] == b.info;
  }

  /** The services that are set are those that are read back, and nothing else changes. */
  lemma ServicesAreRemembered(b: Book, s: Service, services: set<nat>)
    requires Ops.Known(b, s)
    ensures var c, id := Ops.SetServices(b, s, services), b.addr[s];
            && Ops.Known(c, s) && c.info[id].services == services
            && Ops.SetServices(c, s, b.info[id].services) == b
  {
    var id := b.addr[s];
    assert b.info[id := b.info[id].(services := services)][id := b.info[id]] == b.info;
  }

  // ---- announcements ----

  /** A new entry is about the announced address and services, as of the announced time less the
      penalty, and it has never been tried. */
  lemma FirstAnnouncement(e: Env, b: Book, a: Address, source: NetAddr, penalty: int)
    ensures var i := Ops.Entered(e, b, a, source, penalty).info[NextId(b)];
            && i.service == a.service && i.services == a.services && i.source == source
            && (i.time == a.time - penalty || (i.time == 0 && a.time < penalty))
            && i.lastTry == 0 && i.lastSuccess == 0 && i.lastCountAttempt == 0 && i.attempts == 0
  {
  }

  /** An entry that is listed in one more slot keeps all that is remembered about it. */
  lemma ListedOwn(e: Env, b: Book, id: Id, source: NetAddr, now: int)
    requires id in b.info && forall t | t in b.newT :: b.newT[t] in b.info
    requires Ops.Listed(e, b, id, source, now).0
    ensures var c := Ops.Listed(e, b, id, source, now).1;
            && id in c.info
            && c.info[id] == b.info[id].(refCount := c.info[id].refCount, randomPos := c.info[id].randomPos)
  {
    var s := NewSlot(e, b.key, b.info[id].service, source);
    Ops.ClearNewFrame(e, b, s);
    hide Ops.ClearNew; hide NewSlot; hide Ops.GivesWay;
  }

  /** The penalty is taken off the time of a new entry unless the address announces itself. */
  lemma PenaltyIsTaken(e: Env, b: Book, a: Address, source: NetAddr, penalty: int, now: int, lucky: bool)
    requires Consistent(e, b) && !Ops.Known(b, a.service) && Ops.AddSingle(e, b, a, source, penalty, now, lucky).0
    ensures var c := Ops.AddSingle(e, b, a, source, penalty, now, lucky).1;
            var p := if a.service.ip == source then 0 else penalty;
            && NextId(b) in c.info && c.info[NextId(b)].service == a.service && c.info[NextId(b)].services == a.services
            && (c.info[NextId(b)].time == a.time - p || (c.info[NextId(b)].time == 0 && a.time < p))
  {
    var p := if a.service.ip == source then 0 else penalty;
    FirstAnnouncement(e, b, a, source, p);
    Ops.EnteredFrame(e, b, a, source, p);
    Entering(e, b, a, source, p);
    hide Consistent; hide Ops.Entered; hide Ops.Listed;
    ListedOwn(e, Ops.Entered(e, b, a, source, p), NextId(b), source, now);
  }

  lemma Entering(e: Env, b: Book, a: Address, source: NetAddr, penalty: int)
    requires Consistent(e, b)
    ensures var c := Ops.Entered(e, b, a, source, penalty); forall t | t in c.newT :: c.newT[t] in c.info
  {
    Ops.AllListed(e, b, {});
    Flow.EnteredEntry(e, b, a, source, penalty);
    hide Ops.Entered; hide Consistent;
  }

  /** A repeated announcement loses no service and adds those announced; it moves the time of the
      entry, if at all, to the announced time less the penalty, and back never, unless that is zero. */
  lemma RepeatedAnnouncement(i: AddrInfo, a: Address, penalty: int, now: int)
    ensures var j := Ops.Refreshed(i, a, penalty, now);
            && (forall f :: f in j.services <==> f in i.services || f in a.services)
            && (j.time == i.time || i.time < j.time == a.time - penalty || (j.time == 0 && a.time < penalty))
            && (now - a.time < 24 * 3600 ==> j.time >= a.time - penalty - 3600)
            && j.time >= a.time - penalty - 24 * 3600
  {
  }

  // ---- giving up ----

  /** An entry with a plausible time that is not being tried is given up exactly for its failures:
      three without any success, or ten without one for a week. So nothing with a success within a
      week is given up, and nothing with less than three failures. */
  lemma GivenUpForFailures(i: AddrInfo, now: int)
    requires now - 30 * 24 * 3600 <= i.time <= now + 600
    ensures IsTerrible(i, now) ==> i.attempts >= 3 && now - i.lastTry > 60
    ensures i.lastSuccess > 0 && now - i.lastSuccess <= 7 * 24 * 3600 ==> !IsTerrible(i, now)
    ensures i.lastSuccess == 0 && now - i.lastTry > 60 ==> (IsTerrible(i, now) <==> i.attempts >= 3)
    ensures i.lastSuccess > 0 && now - i.lastTry > 60 && now - i.lastSuccess > 7 * 24 * 3600 ==>
              (IsTerrible(i, now) <==> i.attempts >= 10)
  {
  }

  /** An entry with an implausible time is given up unless it has been tried within a minute. */
  lemma GivenUpForTime(i: AddrInfo, now: int)
    requires i.time > now + 600 || now - i.time > 30 * 24 * 3600
    ensures IsTerrible(i, now) <==> now - i.lastTry > 60
  {
  }

  // ---- handing out ----

  /** The limit is the largest number within the percentage and the maximum, as far as they are given. */
  lemma LimitIsLargest(known: nat, maxAddresses: nat, maxPct: nat, n: nat)
    ensures n <= Ops.Limit(known, maxAddresses, maxPct) <==>
              && (if maxPct == 0 then n <= known else 100 * n <= maxPct * known)
              && (maxAddresses != 0 ==> n <= maxAddresses)
  {
  }
}
