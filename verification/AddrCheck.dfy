/** The address manager's check of itself: what it establishes, and what it cannot see. */
module AddrCheck {
  import opened AddrBook
  import opened AddrMan

  // ---- what is checked ----

  ghost predicate EntryChecked(b: Book, id: Id)
    requires id in b.info
  {
    var i := b.info[id];
    && (if i.inTried then i.lastSuccess != 0 && i.refCount == 0 else 1 <= i.refCount <= NEW_BUCKETS_PER_ADDRESS)
    && i.service in b.addr && b.addr[i.service] == id && PlaceOk(b, id) && i.lastTry >= 0 && i.lastSuccess >= 0
  }

  ghost predicate EntriesChecked(e: Env, b: Book) {
    && |b.random| == b.nTried + b.nNew && (forall id | id in b.info :: EntryChecked(b, id))
    && |Ids(e, b.info, All(true))| == b.nTried && |Ids(e, b.info, All(false))| == b.nNew
  }

  ghost function Networks(e: Env, info: map<Id, AddrInfo>): set<nat> {
    set id | id in info :: e.network(info[id].service.ip)
  }

  ghost predicate NetworkExact(e: Env, b: Book, n: nat) {
    Kept(b, On(n, false)) == |Ids(e, b.info, On(n, false))| && Kept(b, On(n, true)) == |Ids(e, b.info, On(n, true))|
  }

  ghost predicate NetworksChecked(e: Env, b: Book) {
    |b.counts| >= |Networks(e, b.info)| && forall n | n in b.counts :: NetworkExact(e, b, n)
  }

  /** What an outcome without error means. */
  ghost predicate Checked(e: Env, b: Book) {
    EntriesChecked(e, b) && TablesOk(e, b, {}) && b.key != 0 && NetworksChecked(e, b)
  }

  // ---- the check ----

  method CheckEntry(m: AddrManImpl, id: Id) returns (code: int)
    requires id in m.mapInfo
    ensures code == 0 <==> EntryChecked(m.B(), id)
  {
    var info := m.mapInfo[id];
    if info.inTried {
      if info.lastSuccess == 0 { return -1; }
      if info.refCount != 0 { return -2; }
    } else {
      if info.refCount < 0 || info.refCount > NEW_BUCKETS_PER_ADDRESS { return -3; }
      if info.refCount == 0 { return -4; }
    }
    if info.service !in m.mapAddr || m.mapAddr[info.service] != id { return -5; }
    if info.randomPos < 0 || info.randomPos >= |m.vRandom| || m.vRandom[info.randomPos] != id { return -14; }
    if info.lastTry < 0 { return -6; }
    if info.lastSuccess < 0 { return -8; }
    return 0;
  }

  function Of(local: map<nat, Tally>, n: nat): Tally { if n in local then local[n] else Tally(0, 0) }

  /** What has been collected about all entries but those still to do. */
  ghost predicate Collected(e: Env, info: map<Id, AddrInfo>, todo: set<Id>, tried: set<Id>, new_: map<Id, int>) {
    && (forall id :: id in tried <==> id in info && id !in todo && info[id].inTried)
    && (forall id :: id in new_ <==> id in info && id !in todo && !info[id].inTried)
    && (forall id | id in new_ :: id in info && new_[id] == info[id].refCount)
  }

  ghost predicate TalliedLocally(e: Env, info: map<Id, AddrInfo>, todo: set<Id>, local: map<nat, Tally>) {
    && (forall n :: Of(local, n).nNew == |Ids(e, info, On(n, false)) - todo|)
    && (forall n :: Of(local, n).nTried == |Ids(e, info, On(n, true)) - todo|)
    && (forall n :: n in local <==> exists id :: id in info && id !in todo && e.network(info[id].service.ip) == n)
  }

  lemma CountOne(e: Env, info: map<Id, AddrInfo>, todo: set<Id>, local: map<nat, Tally>, id: Id)
    requires TalliedLocally(e, info, todo, local) && id in todo && id in info
    ensures TalliedLocally(e, info, todo - {id}, Bumped(local, e.network(info[id].service.ip), info[id].inTried, 1))
  {
    var local' := Bumped(local, e.network(info[id].service.ip), info[id].inTried, 1);
    forall n
      ensures Of(local', n).nNew == |Ids(e, info, On(n, false)) - (todo - {id})|
      ensures Of(local', n).nTried == |Ids(e, info, On(n, true)) - (todo - {id})|
    {
      CountChange(e, info, info, todo, todo - {id}, id, On(n, false));
      CountChange(e, info, info, todo, todo - {id}, id, On(n, true));
    }
    forall n
      ensures n in local' <==> exists j :: j in info && j !in todo - {id} && e.network(info[j].service.ip) == n
    {
      if n == e.network(info[id].service.ip) {
        assert id in info && id !in todo - {id};
      } else if n in local {
        var j :| j in info && j !in todo && e.network(info[j].service.ip) == n;
        assert j !in todo - {id};
      }
    }
  }

  lemma CollectOne(e: Env, info: map<Id, AddrInfo>, todo: set<Id>, tried: set<Id>, new_: map<Id, int>, id: Id)
    requires Collected(e, info, todo, tried, new_) && id in info
    ensures if info[id].inTried then Collected(e, info, todo - {id}, tried + {id}, new_)
            else Collected(e, info, todo - {id}, tried, new_[id := info[id].refCount])
  {
  }

  method CheckEntries(m: AddrManImpl) returns (code: int, tried: set<Id>, new_: map<Id, int>, local: map<nat, Tally>)
    ensures code == 0 <==> forall id | id in m.mapInfo :: EntryChecked(m.B(), id)
    ensures code == 0 ==> Collected(m.e, m.mapInfo, {}, tried, new_) && TalliedLocally(m.e, m.mapInfo, {}, local)
  {
    tried, new_, local := {}, map[], map[];
    var todo := m.mapInfo.Keys;
    assert forall k :: Ids(m.e, m.mapInfo, k) - todo == {};
    while todo != {}
      invariant todo <= m.mapInfo.Keys
      invariant forall id | id in m.mapInfo && id !in todo :: EntryChecked(m.B(), id)
      invariant Collected(m.e, m.mapInfo, todo, tried, new_) && TalliedLocally(m.e, m.mapInfo, todo, local)
      decreases |todo|
    {
      var id :| id in todo;
      code := CheckEntry(m, id);
      if code != 0 {
        return;
      }
      CountOne(m.e, m.mapInfo, todo, local, id);
      CollectOne(m.e, m.mapInfo, todo, tried, new_, id);
      var info := m.mapInfo[id];
      if info.inTried {
        tried := tried + {id};
      } else {
        new_ := new_[id := info.refCount];
      }
      local := Bumped(local, m.e.network(info.service.ip), info.inTried, 1);
      todo := todo - {id};
    }
    code := 0;
  }

  // ---- the tables ----

  /** The slots that a walk over the buckets has passed when it comes to position i of bucket n. */
  predicate Before(s: Slot, n: int, i: int) { s.bucket < n || (s.bucket == n && s.pos < i) }

  /** The walk has passed the tried slot of an id and found the id in it. */
  ghost predicate Met(e: Env, b: Book, id: Id, n: int, i: int)
    requires id in b.info
  {
    var s := TriedSlot(e, b.key, b.info[id].service);
    s in b.triedT && Before(s, n, i) && b.triedT[s] == id
  }

  /** The tried slots passed so far are right, and rest are the tried ids not met yet. */
  ghost predicate TriedSoFar(e: Env, b: Book, n: int, i: int, rest: set<Id>) {
    && (forall s | s in b.triedT && Before(s, n, i) :: TriedEntryOk(e, b, s))
    && (forall id :: id in rest <==> id in b.info && b.info[id].inTried && !Met(e, b, id, n, i))
  }

  method CheckTriedSlot(m: AddrManImpl, n: nat, i: nat, rest: set<Id>) returns (code: int, rest': set<Id>)
    requires m.Rep() && n < TRIED_BUCKET_COUNT && i < BUCKET_SIZE && TriedSoFar(m.e, m.B(), n, i, rest)
    ensures code == 0 ==> TriedSoFar(m.e, m.B(), n, i + 1, rest')
    ensures code != 0 ==> !TablesOk(m.e, m.B(), {})
  {
    rest' := rest;
    var id := m.vvTried[n, i];
    if id == EMPTY { return 0, rest; }
    ghost var s := Slot(n, i);
    assert s in m.triedT;
    if id !in rest { return -11, rest; }
    if id !in m.mapInfo || m.e.triedHash(m.nKey, m.mapInfo[id].service) % TRIED_BUCKET_COUNT != n { return -17, rest; }
    if Position(m.e, m.nKey, false, n, m.mapInfo[id].service) != i { return -18, rest; }
    return 0, rest - {id};
  }

  method CheckTriedTable(m: AddrManImpl, tried: set<Id>) returns (code: int, rest: set<Id>)
    requires m.Rep() && forall id :: id in tried <==> id in m.mapInfo && m.mapInfo[id].inTried
    ensures code == 0 ==> TriedSoFar(m.e, m.B(), TRIED_BUCKET_COUNT, 0, rest)
    ensures code != 0 ==> !TablesOk(m.e, m.B(), {})
  {
    rest := tried;
    for n := 0 to TRIED_BUCKET_COUNT
      invariant TriedSoFar(m.e, m.B(), n, 0, rest)
    {
      for i := 0 to BUCKET_SIZE
        invariant TriedSoFar(m.e, m.B(), n, i, rest)
      {
        code, rest := CheckTriedSlot(m, n, i, rest);
        if code != 0 { return; }
      }
      assert forall s | s in m.triedT :: Before(s, n, BUCKET_SIZE) <==> Before(s, n + 1, 0);
    }
    code := 0;
  }

  /** The part of a table that a walk has passed. */
  ghost function Walked(t: map<Slot, Id>, n: int, i: int): map<Slot, Id> {
    map s | s in t && Before(s, n, i) :: t[s]
  }

  lemma WalkOn(t: map<Slot, Id>, n: nat, i: nat)
    ensures Walked(t, n, i + 1)
         == if Slot(n, i) in t then Walked(t, n, i)[Slot(n, i) := t[Slot(n, i)]] else Walked(t, n, i)
  {
    forall s | s in t ensures Before(s, n, i + 1) <==> Before(s, n, i) || s == Slot(n, i) {}
  }

  lemma SubsetSize<T>(a: set<T>, b: set<T>)
    requires a <= b
    ensures |a| <= |b|
    decreases b
  {
    if a != b {
      var x :| x in b && x !in a;
      SubsetSize(a, b - {x});
    }
  }

  function Left(rest: map<Id, int>, id: Id): int { if id in rest then rest[id] else 0 }

  /** The new slots passed so far are right, and rest says how many more each id must still have. */
  ghost predicate NewSoFar(e: Env, b: Book, n: int, i: int, rest: map<Id, int>) {
    && (forall s | s in b.newT && Before(s, n, i) :: NewEntryOk(e, b, s))
    && (forall id | id in rest :: id in b.info && !b.info[id].inTried && rest[id] > 0)
    && (forall id | id in b.info && !b.info[id].inTried ::
          Left(rest, id) == b.info[id].refCount - |SlotsOf(Walked(b.newT, n, i), id)|)
  }

  /** An id that is met more often than its count says is one too many. */
  lemma TooOften(e: Env, b: Book, n: nat, i: nat, rest: map<Id, int>)
    requires NewSoFar(e, b, n, i, rest) && Slot(n, i) in b.newT && b.newT[Slot(n, i)] !in rest
    ensures !TablesOk(e, b, {})
  {
    var s := Slot(n, i);
    var id := b.newT[s];
    if id in b.info && !b.info[id].inTried {
      WalkOn(b.newT, n, i);
      SlotsWith(Walked(b.newT, n, i), s, id, id);
      SubsetSize(SlotsOf(Walked(b.newT, n, i + 1), id), SlotsOf(b.newT, id));
      assert !EntryOk(e, b, id, {});
    } else {
      assert !NewEntryOk(e, b, s);
    }
  }

  lemma MetOnce(e: Env, b: Book, n: nat, i: nat, rest: map<Id, int>)
    requires NewSoFar(e, b, n, i, rest) && Slot(n, i) in b.newT && NewEntryOk(e, b, Slot(n, i))
             && b.newT[Slot(n, i)] in rest
    ensures var id := b.newT[Slot(n, i)];
            NewSoFar(e, b, n, i + 1, if rest[id] == 1 then rest - {id} else rest[id := rest[id] - 1])
  {
    hide NewEntryOk;
    var s := Slot(n, i);
    var id := b.newT[s];
    WalkOn(b.newT, n, i);
    hide Walked; hide SlotsOf;
    var rest' := if rest[id] == 1 then rest - {id} else rest[id := rest[id] - 1];
    forall t | t in b.newT && Before(t, n, i + 1) ensures NewEntryOk(e, b, t) { assert Before(t, n, i) || t == s; }
    forall j | j in b.info && !b.info[j].inTried
      ensures Left(rest', j) == b.info[j].refCount - |SlotsOf(Walked(b.newT, n, i + 1), j)|
    {
      SlotsWith(Walked(b.newT, n, i), s, id, j);
    }
  }

  lemma MetNone(e: Env, b: Book, n: nat, i: nat, rest: map<Id, int>)
    requires NewSoFar(e, b, n, i, rest) && Slot(n, i) !in b.newT
    ensures NewSoFar(e, b, n, i + 1, rest)
  {
    WalkOn(b.newT, n, i);
    forall t | t in b.newT && Before(t, n, i + 1) ensures NewEntryOk(e, b, t) {
      assert Before(t, n, i) || t == Slot(n, i);
    }
  }

  method CheckNewSlot(m: AddrManImpl, n: nat, i: nat, rest: map<Id, int>) returns (code: int, rest': map<Id, int>)
    requires m.Rep() && n < NEW_BUCKET_COUNT && i < BUCKET_SIZE && NewSoFar(m.e, m.B(), n, i, rest)
    ensures code == 0 ==> NewSoFar(m.e, m.B(), n, i + 1, rest')
    ensures code != 0 ==> !TablesOk(m.e, m.B(), {})
  {
    ghost var s := Slot(n, i);
    var id := m.vvNew[n, i];
    if id == EMPTY {
      MetNone(m.e, m.B(), n, i, rest);
      return 0, rest;
    }
    assert s in m.newT && m.newT[s] == id;
    if id !in rest {
      TooOften(m.e, m.B(), n, i, rest);
      return -12, rest;
    }
    if id !in m.mapInfo || Position(m.e, m.nKey, true, n, m.mapInfo[id].service) != i {
      assert !NewEntryOk(m.e, m.B(), s);
      return -19, rest;
    }
    MetOnce(m.e, m.B(), n, i, rest);
    return 0, if rest[id] == 1 then rest - {id} else rest[id := rest[id] - 1];
  }

  lemma NextBucket(e: Env, b: Book, n: nat, rest: map<Id, int>)
    requires NewSoFar(e, b, n, BUCKET_SIZE, rest) && forall s | s in b.newT :: s.pos < BUCKET_SIZE
    ensures NewSoFar(e, b, n + 1, 0, rest)
  {
    assert forall s | s in b.newT :: Before(s, n, BUCKET_SIZE) <==> Before(s, n + 1, 0);
    assert Walked(b.newT, n, BUCKET_SIZE) == Walked(b.newT, n + 1, 0);
  }

  lemma NothingWalked(e: Env, b: Book, new_: map<Id, int>)
    requires forall id :: id in new_ <==> id in b.info && !b.info[id].inTried
    requires forall id | id in new_ :: new_[id] == b.info[id].refCount && new_[id] > 0
    ensures NewSoFar(e, b, 0, 0, new_)
  {
    assert Walked(b.newT, 0, 0) == map[];
    forall id ensures SlotsOf(map[], id) == {} {}
  }

  method CheckNewBucket(m: AddrManImpl, n: nat, start: map<Id, int>) returns (code: int, rest: map<Id, int>)
    requires m.Rep() && n < NEW_BUCKET_COUNT && NewSoFar(m.e, m.B(), n, 0, start)
    ensures code == 0 ==> NewSoFar(m.e, m.B(), n + 1, 0, rest)
    ensures code != 0 ==> !TablesOk(m.e, m.B(), {})
  {
    rest := start;
    for i := 0 to BUCKET_SIZE
      invariant NewSoFar(m.e, m.B(), n, i, rest)
    {
      code, rest := CheckNewSlot(m, n, i, rest);
      if code != 0 { return; }
    }
    NextBucket(m.e, m.B(), n, rest);
    code := 0;
  }

  method CheckNewTable(m: AddrManImpl, new_: map<Id, int>) returns (code: int, rest: map<Id, int>)
    requires m.Rep() && NewSoFar(m.e, m.B(), 0, 0, new_)
    ensures code == 0 ==> NewSoFar(m.e, m.B(), NEW_BUCKET_COUNT, 0, rest)
    ensures code != 0 ==> !TablesOk(m.e, m.B(), {})
  {
    rest := new_;
    for n := 0 to NEW_BUCKET_COUNT
      invariant NewSoFar(m.e, m.B(), n, 0, rest)
    {
      code, rest := CheckNewBucket(m, n, rest);
      if code != 0 { return; }
    }
    code := 0;
  }

  /** Once both walks are over, nothing is left exactly if the tables are right. */
  lemma NothingLeft(e: Env, b: Book, restT: set<Id>, restN: map<Id, int>)
    requires TriedSoFar(e, b, TRIED_BUCKET_COUNT, 0, restT) && NewSoFar(e, b, NEW_BUCKET_COUNT, 0, restN)
    requires forall id | id in b.info :: EntryChecked(b, id)
    requires forall s | s in b.newT :: s.bucket < NEW_BUCKET_COUNT
    requires forall s | s in b.triedT :: s.bucket < TRIED_BUCKET_COUNT
    ensures restT == {} && restN == map[] <==> TablesOk(e, b, {})
  {
    hide Position; hide TriedSlot; hide PlaceOk;
    assert Walked(b.newT, NEW_BUCKET_COUNT, 0) == b.newT;
    forall s | s in b.newT ensures NewEntryOk(e, b, s) { assert Before(s, NEW_BUCKET_COUNT, 0); }
    forall s | s in b.triedT ensures TriedEntryOk(e, b, s) { assert Before(s, TRIED_BUCKET_COUNT, 0); }
    forall id | id in b.info && b.info[id].inTried ensures SlotsOf(b.newT, id) == {} {
      forall s | s in b.newT ensures b.newT[s] != id { assert NewEntryOk(e, b, s); }
    }
    if restT == {} && restN == map[] {
      forall id | id in b.info ensures EntryOk(e, b, id, {}) {
        assert EntryChecked(b, id);
        if b.info[id].inTried { assert Met(e, b, id, TRIED_BUCKET_COUNT, 0); }
      }
    } else if restT != {} {
      var id :| id in restT;
      assert !EntryOk(e, b, id, {});
    } else {
      var id :| id in restN;
      assert !EntryOk(e, b, id, {});
    }
  }

  method CheckTables(m: AddrManImpl, tried: set<Id>, new_: map<Id, int>) returns (code: int)
    requires m.Rep() && forall id | id in m.mapInfo :: EntryChecked(m.B(), id)
    requires Collected(m.e, m.mapInfo, {}, tried, new_)
    ensures code == 0 <==> TablesOk(m.e, m.B(), {})
  {
    forall id | id in new_ ensures new_[id] > 0 { assert EntryChecked(m.B(), id); }
    var restT, restN;
    code, restT := CheckTriedTable(m, tried);
    if code != 0 { return; }
    NothingWalked(m.e, m.B(), new_);
    code, restN := CheckNewTable(m, new_);
    if code != 0 { return; }
    NothingLeft(m.e, m.B(), restT, restN);
    if restT != {} { return -13; }
    if restN != map[] { return -15; }
  }

  method CheckNetworks(m: AddrManImpl, local: map<nat, Tally>) returns (code: int)
    requires TalliedLocally(m.e, m.mapInfo, {}, local)
    ensures code == 0 <==> NetworksChecked(m.e, m.B())
  {
    LocalNetworks(m.e, m.mapInfo, local);
    if |m.networkCounts| < |local| { return -20; }
    var todo := m.networkCounts.Keys;
    while todo != {}
      invariant todo <= m.networkCounts.Keys
      invariant forall n | n in m.networkCounts && n !in todo :: NetworkExact(m.e, m.B(), n)
      decreases |todo|
    {
      var n :| n in todo;
      LocalExact(m.e, m.B(), local, n);
      if Of(local, n) != m.networkCounts[n] {
        return -21;
      }
      todo := todo - {n};
    }
    return 0;
  }

  lemma LocalNetworks(e: Env, info: map<Id, AddrInfo>, local: map<nat, Tally>)
    requires TalliedLocally(e, info, {}, local)
    ensures local.Keys == Networks(e, info)
  {
    forall n ensures n in local.Keys <==> n in Networks(e, info) {
      if n in local {
        var id :| id in info && e.network(info[id].service.ip) == n;
      }
    }
  }

  lemma LocalExact(e: Env, b: Book, local: map<nat, Tally>, n: nat)
    requires TalliedLocally(e, b.info, {}, local) && n in b.counts
    ensures NetworkExact(e, b, n) <==> Of(local, n) == b.counts[n]
  {
    assert Ids(e, b.info, On(n, false)) - {} == Ids(e, b.info, On(n, false));
    assert Ids(e, b.info, On(n, true)) - {} == Ids(e, b.info, On(n, true));
  }

  /** The check finds no error exactly if what it looks at is in order. */
  method CheckAddrman(m: AddrManImpl) returns (code: int)
    requires m.Rep()
    ensures code == 0 <==> Checked(m.e, m.B())
  {
    if |m.vRandom| != m.nTried + m.nNew { return -7; }
    var tried, new_, local;
    code, tried, new_, local := CheckEntries(m);
    if code != 0 { return; }
    assert tried == Ids(m.e, m.mapInfo, All(true)) && new_.Keys == Ids(m.e, m.mapInfo, All(false));
    if |tried| != m.nTried { return -9; }
    if |new_| != m.nNew { return -10; }
    code := CheckTables(m, tried, new_);
    if code != 0 { return; }
    if m.nKey == 0 { return -16; }
    code := CheckNetworks(m, local);
  }

  // ---- what the check is worth ----

  /** What the check does not look at. */
  ghost predicate Unseen(e: Env, b: Book) {
    && b.idCount >= 0 && (forall id | id in b.info :: 0 <= id.n < b.idCount && e.Routable(b.info[id].service.ip))
    && (forall id | id in b.collisions :: id.n < b.idCount) && CollisionsOk(e, b)
    && (forall s | s in b.addr :: ServiceOk(b, s))
    && (forall id | id in b.info :: e.network(b.info[id].service.ip) in b.counts)
  }

  ghost function Elements<T>(s: seq<T>): set<T> { set x | x in s }

  ghost predicate Distinct<T>(s: seq<T>) { forall p, q | 0 <= p < q < |s| :: s[p] != s[q] }

  /** A sequence has as many elements as places exactly if no element is there twice. */
  lemma {:induction false} ElementsSize<T>(s: seq<T>)
    ensures |Elements(s)| <= |s| && (|Elements(s)| == |s| <==> Distinct(s))
    decreases |s|
  {
    if s == [] {
      assert Elements(s) == {};
    } else {
      var n := |s| - 1;
      var rest, x := s[..n], s[n];
      ElementsSize(rest);
      assert s == rest + [x];
      assert Elements(s) == Elements(rest) + {x};
      if x in rest {
        var p :| 0 <= p < n && s[p] == x;
        assert Elements(s) == Elements(rest);
      }
    }
  }

  /** As many places as entries: every place is taken by the entry that knows it. */
  lemma OrderChecked(e: Env, b: Book)
    requires EntriesChecked(e, b)
    ensures OrderOk(b)
  {
    forall id | id in b.info ensures PlaceOk(b, id) { assert EntryChecked(b, id); }
    TwoKinds(e, b.info);
    ListsAll(b);
    hide EntriesChecked; hide Distinct; hide Elements;
    forall p | 0 <= p < |b.random| ensures SpotOk(b, p) {
      OnlyOnce(b, p);
    }
  }

  /** Every entry is counted as one of two kinds. */
  lemma TwoKinds(e: Env, info: map<Id, AddrInfo>)
    ensures |info.Keys| == |Ids(e, info, All(true))| + |Ids(e, info, All(false))|
  {
    var t, n := Ids(e, info, All(true)), Ids(e, info, All(false));
    assert t !! n;
    assert info.Keys == t + n;
  }

  lemma ListsAll(b: Book)
    requires |b.random| == |b.info.Keys| && forall id | id in b.info :: PlaceOk(b, id)
    ensures Elements(b.random) == b.info.Keys && Distinct(b.random)
  {
    forall id | id in b.info.Keys ensures id in Elements(b.random) { assert PlaceOk(b, id); }
    ElementsSize(b.random);
    SameSize(b.info.Keys, Elements(b.random));
  }

  lemma OnlyOnce(b: Book, p: nat)
    requires Elements(b.random) == b.info.Keys && Distinct(b.random) && p < |b.random|
    requires forall id | id in b.info :: PlaceOk(b, id)
    ensures SpotOk(b, p)
  {
    assert b.random[p] in Elements(b.random);
    assert PlaceOk(b, b.random[p]);
  }

  lemma SameSize<T>(a: set<T>, b: set<T>)
    requires a <= b && |b| <= |a|
    ensures a == b
  {
    if a != b {
      var x :| x in b && x !in a;
      SubsetSize(a, b - {x});
    }
  }

  lemma TalliesChecked(e: Env, b: Book)
    requires EntriesChecked(e, b) && NetworksChecked(e, b)
    requires forall id | id in b.info :: e.network(b.info[id].service.ip) in b.counts
    ensures TalliesOk(e, b, {})
  {
    forall k ensures Kept(b, k) == |Ids(e, b.info, k) - {}| {
      NothingOff(Ids(e, b.info, k));
      match k
      case All(tried) =>
      case On(n, tried) => NetworkTally(e, b, n, tried);
    }
  }

  lemma NothingOff<T>(s: set<T>)
    ensures s - {} == s
  {
  }

  lemma NetworkTally(e: Env, b: Book, n: nat, tried: bool)
    requires NetworksChecked(e, b) && forall id | id in b.info :: e.network(b.info[id].service.ip) in b.counts
    ensures Kept(b, On(n, tried)) == |Ids(e, b.info, On(n, tried))|
  {
    if n in b.counts {
      assert NetworkExact(e, b, n);
    } else {
      assert Ids(e, b.info, On(n, tried)) == {};
    }
  }

  /** Counts without error and nothing wrong out of sight: together that is the whole invariant. */
  lemma CheckedAndUnseen(e: Env, b: Book)
    requires Checked(e, b) && Unseen(e, b)
    ensures Consistent(e, b)
  {
    OrderChecked(e, b);
    TalliesChecked(e, b);
    forall id | id in b.info
      ensures IdOk(e, b, id) && b.info[id].lastTry >= 0 && b.info[id].lastSuccess >= 0
      ensures b.info[id].inTried ==> b.info[id].lastSuccess > 0
    {
      assert EntryChecked(b, id);
    }
  }

  lemma ManyNetworks(e: Env, b: Book)
    requires forall id | id in b.info :: e.network(b.info[id].service.ip) in b.counts
    ensures |Networks(e, b.info)| <= |b.counts|
  {
    SubsetSize(Networks(e, b.info), b.counts.Keys);
  }

  lemma AllCounted(e: Env, b: Book)
    requires TalliesOk(e, b, {})
    ensures forall n :: NetworkExact(e, b, n)
    ensures forall id | id in b.info :: e.network(b.info[id].service.ip) in b.counts
    ensures |Ids(e, b.info, All(true))| == b.nTried && |Ids(e, b.info, All(false))| == b.nNew
  {
    assert forall k :: Ids(e, b.info, k) - {} == Ids(e, b.info, k);
    assert Kept(b, All(true)) == b.nTried && Kept(b, All(false)) == b.nNew;
    forall n ensures NetworkExact(e, b, n) {
      assert Kept(b, On(n, false)) == |Ids(e, b.info, On(n, false))|
             && Kept(b, On(n, true)) == |Ids(e, b.info, On(n, true))|;
    }
    forall id | id in b.info ensures e.network(b.info[id].service.ip) in b.counts {
      var n := e.network(b.info[id].service.ip);
      assert id in Ids(e, b.info, On(n, b.info[id].inTried));
      assert NetworkExact(e, b, n);
    }
  }

  /** The random order lists every entry once. */
  lemma OrderSize(e: Env, b: Book)
    requires OrderOk(b)
    ensures |b.random| == |Ids(e, b.info, All(true))| + |Ids(e, b.info, All(false))|
  {
    TwoKinds(e, b.info);
    forall p, q | 0 <= p < q < |b.random| ensures b.random[p] != b.random[q] { assert SpotOk(b, p) && SpotOk(b, q); }
    ElementsSize(b.random);
    AllListedOnce(b);
  }

  lemma AllListedOnce(b: Book)
    requires OrderOk(b)
    ensures Elements(b.random) == b.info.Keys
  {
    forall id ensures id in Elements(b.random) <==> id in b.info.Keys {
      if id in b.info { assert PlaceOk(b, id); }
      if id in b.random {
        var p :| 0 <= p < |b.random| && b.random[p] == id;
        assert SpotOk(b, p);
      }
    }
  }

  lemma ConsistentIsChecked(e: Env, b: Book)
    requires Consistent(e, b)
    ensures Checked(e, b) && Unseen(e, b)
  {
    AllCounted(e, b);
    OrderSize(e, b);
    ManyNetworks(e, b);
    forall id | id in b.info
      ensures EntryChecked(b, id) && 0 <= id.n < b.idCount && e.Routable(b.info[id].service.ip)
    {
      assert EntryOk(e, b, id, {}) && IdOk(e, b, id) && PlaceOk(b, id);
    }
  }

  /** The invariant is exactly what the check establishes together with what it does not look at. */
  lemma InvariantIsCheckedAndUnseen(e: Env, b: Book)
    ensures Consistent(e, b) <==> Checked(e, b) && Unseen(e, b)
  {
    if Consistent(e, b) { ConsistentIsChecked(e, b); }
    if Checked(e, b) && Unseen(e, b) { CheckedAndUnseen(e, b); }
  }

  /** The tables do not depend on the addresses and the counts. */
  lemma TablesSame(e: Env, b: Book, c: Book)
    requires TablesOk(e, b, {}) && c == b.(addr := c.addr, counts := c.counts)
    ensures TablesOk(e, c, {})
  {
    forall t | t in c.newT ensures NewEntryOk(e, c, t) { assert NewEntryOk(e, b, t); }
    forall t | t in c.triedT ensures TriedEntryOk(e, c, t) { assert TriedEntryOk(e, b, t); }
    forall j | j in c.info ensures EntryOk(e, c, j, {}) { assert EntryOk(e, b, j, {}); }
  }

  lemma EntriesSame(e: Env, b: Book, c: Book)
    requires EntriesChecked(e, b) && c == b.(addr := c.addr, counts := c.counts)
    requires forall s | s in b.addr :: s in c.addr && c.addr[s] == b.addr[s]
    ensures EntriesChecked(e, c)
  {
    forall j | j in c.info ensures EntryChecked(c, j) { assert EntryChecked(b, j); }
  }

  lemma NetworksSame(e: Env, b: Book, c: Book)
    requires NetworksChecked(e, b) && c == b.(addr := c.addr, counts := c.counts)
    requires forall n | n in c.counts :: n in b.counts && c.counts[n] == b.counts[n]
    requires |c.counts| >= |Networks(e, b.info)|
    ensures NetworksChecked(e, c)
  {
    forall n | n in c.counts ensures NetworkExact(e, c, n) { assert NetworkExact(e, b, n); }
  }

  /** An address that leads to no entry goes unnoticed. */
  lemma StaleAddressUnseen(e: Env, b: Book, s: Service, id: Id)
    requires Consistent(e, b) && s !in b.addr
    ensures Checked(e, b.(addr := b.addr[s := id])) && !Consistent(e, b.(addr := b.addr[s := id]))
  {
    hide TablesOk; hide AddressesOk; hide OrderOk; hide TalliesOk; hide CollisionsOk; hide EntriesChecked; hide Unseen;
    ConsistentIsChecked(e, b);
    var c := b.(addr := b.addr[s := id]);
    NotServiceOk(e, b, s, id);
    TablesSame(e, b, c);
    EntriesSame(e, b, c);
    NetworksSame(e, b, c);
  }

  lemma NotServiceOk(e: Env, b: Book, s: Service, id: Id)
    requires AddressesOk(e, b) && s !in b.addr
    ensures !AddressesOk(e, b.(addr := b.addr[s := id]))
  {
    assert id in b.info ==> IdOk(e, b, id);
    assert !ServiceOk(b.(addr := b.addr[s := id]), s);
  }

  lemma OneLess(e: Env, b: Book, lost: nat, idle: nat)
    requires Networks(e, b.info) <= b.counts.Keys && lost in Networks(e, b.info) && idle in b.counts
    requires idle !in Networks(e, b.info)
    ensures |b.counts - {lost}| >= |Networks(e, b.info)|
  {
    assert (b.counts - {lost}).Keys == b.counts.Keys - {lost};
    assert |(b.counts - {lost}).Keys| == |b.counts.Keys| - 1;
    SubsetSize(Networks(e, b.info), b.counts.Keys - {idle});
  }

  /** The count of a network can be lost unnoticed as long as there is one of a network without entries. */
  lemma LostCountUnseen(e: Env, b: Book, lost: nat, idle: nat)
    requires Consistent(e, b) && lost in Networks(e, b.info) && idle in b.counts && idle !in Networks(e, b.info)
    ensures Checked(e, b.(counts := b.counts - {lost})) && !Consistent(e, b.(counts := b.counts - {lost}))
  {
    ConsistentIsChecked(e, b);
    var c := b.(counts := b.counts - {lost});
    hide Consistent; hide TablesOk; hide EntriesChecked;
    OneLess(e, b, lost, idle);
    TablesSame(e, b, c);
    EntriesSame(e, b, c);
    NetworksSame(e, b, c);
    NotUnseen(e, c, lost);
  }

  lemma NotUnseen(e: Env, c: Book, lost: nat)
    requires lost in Networks(e, c.info) && lost !in c.counts
    ensures !Consistent(e, c)
  {
    var id :| id in c.info && e.network(c.info[id].service.ip) == lost;
    if Consistent(e, c) { AllCounted(e, c); }
  }
}
