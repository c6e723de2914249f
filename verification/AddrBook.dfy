/** The address manager as a value: entries, the two bucket tables, and everything that is kept
    redundantly about them; what it means that all of it agrees; and the single changes out of
    which every operation is made. */
module AddrBook {

  // ---- addresses and the functions of the network layer ----

  type NetAddr = nat

  datatype Service = Service(ip: NetAddr, port: nat)

  /** An address as it is announced. */
  datatype Address = Address(service: Service, time: int, services: set<nat>)

  /** Hashes keyed by the secret key, the network of an address, and which addresses are usable. */
  datatype Env = Env(
    triedHash: (nat, Service) -> nat,
    newHash: (nat, NetAddr, NetAddr) -> nat,
    positionHash: (nat, bool, nat, Service) -> nat,
    network: NetAddr -> nat, netClass: NetAddr -> nat,
    valid: NetAddr -> bool, public: NetAddr -> bool)
  {
    predicate Routable(a: NetAddr) { valid(a) && public(a) }
  }

  const TRIED_BUCKET_COUNT: nat := 256
  const NEW_BUCKET_COUNT: nat := 1024
  const BUCKET_SIZE: nat := 64
  const NEW_BUCKETS_PER_ADDRESS := 8
  const HORIZON := 30 * 24 * 3600
  const RETRIES := 3
  const MAX_FAILURES := 10
  const MIN_FAIL := 7 * 24 * 3600
  const REPLACEMENT := 4 * 3600
  const SET_TRIED_COLLISION_SIZE := 10
  const TEST_WINDOW := 40 * 60

  /** The number of an entry. */
  datatype Id = Id(n: int)

  datatype AddrInfo = AddrInfo(
    service: Service, time: int, services: set<nat>, source: NetAddr,
    lastTry: int, lastCountAttempt: int, lastSuccess: int, attempts: int,
    refCount: int, inTried: bool, randomPos: int)

  predicate IsTerrible(info: AddrInfo, now: int) {
    if now - info.lastTry <= 60 then false
    else
      || info.time > now + 600
      || now - info.time > HORIZON
      || (info.lastSuccess == 0 && info.attempts >= RETRIES)
      || (now - info.lastSuccess > MIN_FAIL && info.attempts >= MAX_FAILURES)
  }

  // ---- slots ----

  datatype Slot = Slot(bucket: nat, pos: nat)

  function NewBucket(e: Env, key: nat, s: Service, source: NetAddr): nat {
    e.newHash(key, s.ip, source) % NEW_BUCKET_COUNT
  }

  function Position(e: Env, key: nat, isNew: bool, bucket: nat, s: Service): nat {
    e.positionHash(key, isNew, bucket, s) % BUCKET_SIZE
  }

  function NewSlot(e: Env, key: nat, s: Service, source: NetAddr): Slot {
    var b := NewBucket(e, key, s, source);
    Slot(b, Position(e, key, true, b, s))
  }

  function TriedSlot(e: Env, key: nat, s: Service): Slot {
    var b := e.triedHash(key, s) % TRIED_BUCKET_COUNT;
    Slot(b, Position(e, key, false, b, s))
  }

  // ---- the book ----

  datatype Tally = Tally(nNew: int, nTried: int)

  /** The whole state. The tables map an occupied slot to the id in it. */
  datatype Book = Book(
    key: nat, idCount: int,
    info: map<Id, AddrInfo>, addr: map<Service, Id>, random: seq<Id>,
    newT: map<Slot, Id>, triedT: map<Slot, Id>,
    nNew: int, nTried: int, counts: map<nat, Tally>,
    collisions: set<Id>, lastGood: int)

  /** The id that the next new entry gets. */
  function NextId(b: Book): Id { Id(b.idCount) }

  ghost function SlotsOf(t: map<Slot, Id>, id: Id): set<Slot> {
    set s | s in t && t[s] == id
  }

  /** A count that the book keeps: over all networks or over one, new or tried entries. */
  datatype Kind = All(tried: bool) | On(network: nat, tried: bool)

  predicate Counts(e: Env, k: Kind, i: AddrInfo) {
    i.inTried == k.tried && (k.On? ==> e.network(i.service.ip) == k.network)
  }

  ghost function Ids(e: Env, info: map<Id, AddrInfo>, k: Kind): set<Id> {
    set id | id in info && Counts(e, k, info[id])
  }

  function Kept(b: Book, k: Kind): int {
    match k
    case All(tried) => if tried then b.nTried else b.nNew
    case On(n, tried) => if n !in b.counts then 0 else if tried then b.counts[n].nTried else b.counts[n].nNew
  }

  // ---- consistency ----

  /** The tables and the entries agree. Ids in limbo are in no table. */
  ghost predicate TablesOk(e: Env, b: Book, limbo: set<Id>) {
    && (forall s | s in b.newT :: NewEntryOk(e, b, s))
    && (forall s | s in b.triedT :: TriedEntryOk(e, b, s))
    && (forall id | id in b.info :: EntryOk(e, b, id, limbo))
    && limbo <= b.info.Keys
  }

  ghost predicate NewEntryOk(e: Env, b: Book, s: Slot)
    requires s in b.newT
  {
    var id := b.newT[s];
    && id in b.info && !b.info[id].inTried
    && s.bucket < NEW_BUCKET_COUNT && s.pos == Position(e, b.key, true, s.bucket, b.info[id].service)
  }

  ghost predicate TriedEntryOk(e: Env, b: Book, s: Slot)
    requires s in b.triedT
  {
    var id := b.triedT[s];
    id in b.info && b.info[id].inTried && s == TriedSlot(e, b.key, b.info[id].service)
  }

  ghost predicate EntryOk(e: Env, b: Book, id: Id, limbo: set<Id>)
    requires id in b.info
  {
    var i := b.info[id];
    && i.refCount == |SlotsOf(b.newT, id)|
    && (if i.inTried then
          && i.refCount == 0 && id !in limbo
          && TriedSlot(e, b.key, i.service) in b.triedT && b.triedT[TriedSlot(e, b.key, i.service)] == id
        else if id in limbo then i.refCount == 0
        else 1 <= i.refCount <= NEW_BUCKETS_PER_ADDRESS)
  }

  /** Addresses and ids map to each other one to one, and ids are never reused. */
  ghost predicate AddressesOk(e: Env, b: Book) {
    && b.idCount >= 0
    && (forall id | id in b.info :: IdOk(e, b, id))
    && (forall s | s in b.addr :: ServiceOk(b, s))
    && (forall id | id in b.collisions :: id.n < b.idCount)
  }

  ghost predicate IdOk(e: Env, b: Book, id: Id)
    requires id in b.info
  {
    var s := b.info[id].service;
    0 <= id.n < b.idCount && e.Routable(s.ip) && s in b.addr && b.addr[s] == id
  }

  ghost predicate ServiceOk(b: Book, s: Service)
    requires s in b.addr
  {
    b.addr[s] in b.info && b.info[b.addr[s]].service == s
  }

  /** The random order lists every id once, and every entry knows its place in it. */
  ghost predicate OrderOk(b: Book) {
    && (forall id | id in b.info :: PlaceOk(b, id))
    && (forall p | 0 <= p < |b.random| :: SpotOk(b, p))
  }

  ghost predicate PlaceOk(b: Book, id: Id)
    requires id in b.info
  {
    0 <= b.info[id].randomPos < |b.random| && b.random[b.info[id].randomPos] == id
  }

  ghost predicate SpotOk(b: Book, p: nat)
    requires p < |b.random|
  {
    b.random[p] in b.info && b.info[b.random[p]].randomPos == p
  }

  /** All counts are exact, but for the ids that are not counted for the moment. */
  ghost predicate TalliesOk(e: Env, b: Book, uncounted: set<Id>) {
    forall k :: Kept(b, k) == |Ids(e, b.info, k) - uncounted|
  }

  ghost predicate TimesOk(b: Book) {
    && b.key != 0
    && forall id | id in b.info ::
         b.info[id].lastTry >= 0 && b.info[id].lastSuccess >= 0 && (b.info[id].inTried ==> b.info[id].lastSuccess > 0)
  }

  /** An id that waits for a tried slot waits for one that is taken. */
  ghost predicate CollisionsOk(e: Env, b: Book) {
    forall id | id in b.collisions && id in b.info :: TriedSlot(e, b.key, b.info[id].service) in b.triedT
  }

  /** Everything agrees, but for the ids in limbo and, of those, the ones not counted. */
  ghost predicate Almost(e: Env, b: Book, limbo: set<Id>, uncounted: set<Id>) {
    && TablesOk(e, b, limbo) && AddressesOk(e, b) && OrderOk(b) && TalliesOk(e, b, uncounted)
    && TimesOk(b) && uncounted <= limbo
  }

  /** The invariant of the address manager between operations. */
  ghost predicate Consistent(e: Env, b: Book) {
    Almost(e, b, {}, {}) && CollisionsOk(e, b)
  }

  // ---- counting ----

  /** The book counts id under kind k. */
  ghost predicate Counted(e: Env, info: map<Id, AddrInfo>, uncounted: set<Id>, k: Kind, id: Id) {
    id in info && Counts(e, k, info[id]) && id !in uncounted
  }

  function One(b: bool): int { if b then 1 else 0 }

  /** When only one entry changes, every count changes by whether that entry is counted. */
  lemma CountChange(e: Env, info: map<Id, AddrInfo>, info': map<Id, AddrInfo>, u: set<Id>, u': set<Id>, id: Id, k: Kind)
    requires forall j | j != id ::
               (j in info <==> j in info') && (j in info ==> Counts(e, k, info[j]) == Counts(e, k, info'[j]))
    requires forall j | j != id :: j in u <==> j in u'
    ensures |Ids(e, info', k) - u'| - One(Counted(e, info', u', k, id))
         == |Ids(e, info, k) - u| - One(Counted(e, info, u, k, id))
  {
    var c, c' := Ids(e, info, k) - u, Ids(e, info', k) - u';
    assert id in c <==> Counted(e, info, u, k, id);
    assert id in c' <==> Counted(e, info', u', k, id);
    forall j | j != id ensures j in c <==> j in c' {}
    OneApart(c, c', id);
  }

  /** Sets that differ at most in one element differ in size by whether they have it. */
  lemma OneApart<T>(c: set<T>, c': set<T>, x: T)
    requires forall j | j != x :: j in c <==> j in c'
    ensures |c'| - One(x in c') == |c| - One(x in c)
  {
    assert c - {x} == c' - {x};
    Without(c, x);
    Without(c', x);
  }

  lemma Without<T>(c: set<T>, x: T)
    ensures |c - {x}| == |c| - One(x in c)
  {
    if x !in c {
      assert c - {x} == c;
    }
  }

  function Bumped(counts: map<nat, Tally>, n: nat, tried: bool, d: int): map<nat, Tally> {
    var t := if n in counts then counts[n] else Tally(0, 0);
    counts[n := if tried then t.(nTried := t.nTried + d) else t.(nNew := t.nNew + d)]
  }

  function Bump(b: Book, n: nat, tried: bool, d: int): Book {
    if tried then b.(nTried := b.nTried + d, counts := Bumped(b.counts, n, tried, d))
    else b.(nNew := b.nNew + d, counts := Bumped(b.counts, n, tried, d))
  }

  lemma BumpKeeps(b: Book, n: nat, tried: bool, d: int, k: Kind)
    ensures Kept(Bump(b, n, tried, d), k)
         == Kept(b, k) + (if k.tried == tried && (k.On? ==> k.network == n) then d else 0)
  {
  }

  /** A change of one entry together with the matching change of the counts keeps them exact. */
  lemma TalliesFollow(e: Env, b: Book, b': Book, u: set<Id>, u': set<Id>, id: Id)
    requires TalliesOk(e, b, u)
    requires forall j | j != id :: (j in b.info <==> j in b'.info) && (j in b.info ==> SameCount(b.info[j], b'.info[j]))
    requires forall j | j != id :: j in u <==> j in u'
    requires forall k ::
               Kept(b', k) - One(Counted(e, b'.info, u', k, id)) == Kept(b, k) - One(Counted(e, b.info, u, k, id))
    ensures TalliesOk(e, b', u')
  {
    forall k
      ensures Kept(b', k) == |Ids(e, b'.info, k) - u'|
    {
      hide Kept; hide Ids; hide Counted;
      CountChange(e, b.info, b'.info, u, u', id, k);
    }
  }

  /** Two entries that no count tells apart. */
  predicate SameCount(i: AddrInfo, j: AddrInfo) {
    i.inTried == j.inTried && i.service == j.service
  }

  // ---- the random order ----

  /** Swaps two places of the random order. */
  function Swapped(b: Book, p: nat, q: nat): Book
    requires p < |b.random| && q < |b.random| && b.random[p] in b.info && b.random[q] in b.info
  {
    if p == q then b
    else
      var i, j := b.random[p], b.random[q];
      b.(info := b.info[i := b.info[i].(randomPos := q)][j := b.info[j].(randomPos := p)],
         random := b.random[p := j][q := i])
  }

  /** The same book but for the random order: same entries, placed elsewhere. */
  ghost predicate Reordered(b: Book, b': Book) {
    && b' == b.(info := b'.info, random := b'.random)
    && b'.info.Keys == b.info.Keys
    && forall id | id in b.info :: b'.info[id] == b.info[id].(randomPos := b'.info[id].randomPos)
  }

  lemma SwapKeepsOrder(b: Book, p: nat, q: nat)
    requires OrderOk(b) && p < |b.random| && q < |b.random|
    ensures b.random[p] in b.info && b.random[q] in b.info
    ensures OrderOk(Swapped(b, p, q)) && Reordered(b, Swapped(b, p, q))
    ensures Swapped(b, p, q).random == b.random[p := b.random[q]][q := b.random[p]]
  {
    assert SpotOk(b, p) && SpotOk(b, q);
    hide Swapped; hide Reordered;
    SwapPlaces(b, p, q);
    SwapSpots(b, p, q);
    SwapReorders(b, p, q);
  }

  lemma SwapReorders(b: Book, p: nat, q: nat)
    requires p < |b.random| && q < |b.random| && b.random[p] in b.info && b.random[q] in b.info
    requires b.info[b.random[p]].randomPos == p && b.info[b.random[q]].randomPos == q
    ensures Reordered(b, Swapped(b, p, q))
    ensures Swapped(b, p, q).random == b.random[p := b.random[q]][q := b.random[p]]
  {
  }

  lemma SwapPlaces(b: Book, p: nat, q: nat)
    requires OrderOk(b) && p < |b.random| && q < |b.random| && b.random[p] in b.info && b.random[q] in b.info
    ensures forall id | id in Swapped(b, p, q).info :: PlaceOk(Swapped(b, p, q), id)
  {
    assert SpotOk(b, p) && SpotOk(b, q);
    forall id | id in Swapped(b, p, q).info ensures PlaceOk(Swapped(b, p, q), id) { assert PlaceOk(b, id); }
  }

  lemma SwapSpots(b: Book, p: nat, q: nat)
    requires OrderOk(b) && p < |b.random| && q < |b.random| && b.random[p] in b.info && b.random[q] in b.info
    ensures forall r | 0 <= r < |Swapped(b, p, q).random| :: SpotOk(Swapped(b, p, q), r)
  {
    forall r | 0 <= r < |b.random| ensures SpotOk(Swapped(b, p, q), r) {
      assert SpotOk(b, r) && SpotOk(b, p) && SpotOk(b, q);
    }
  }

  /** Nothing but the order depends on the order. */
  lemma ReorderedKeeps(e: Env, b: Book, b': Book, limbo: set<Id>, uncounted: set<Id>)
    requires Almost(e, b, limbo, uncounted) && Reordered(b, b') && OrderOk(b')
    ensures Almost(e, b', limbo, uncounted)
  {
    hide TablesOk; hide AddressesOk; hide OrderOk; hide TalliesOk;
    ReorderedTables(e, b, b', limbo);
    ReorderedAddresses(e, b, b');
    SameTallies(e, b, b', uncounted);
  }

  lemma ReorderedTables(e: Env, b: Book, b': Book, limbo: set<Id>)
    requires TablesOk(e, b, limbo) && Reordered(b, b')
    ensures TablesOk(e, b', limbo)
  {
    forall s | s in b'.newT ensures NewEntryOk(e, b', s) { assert NewEntryOk(e, b, s); }
    forall s | s in b'.triedT ensures TriedEntryOk(e, b', s) { assert TriedEntryOk(e, b, s); }
    forall id | id in b'.info ensures EntryOk(e, b', id, limbo) { assert EntryOk(e, b, id, limbo); }
  }

  lemma ReorderedAddresses(e: Env, b: Book, b': Book)
    requires AddressesOk(e, b) && Reordered(b, b')
    ensures AddressesOk(e, b')
  {
    forall id | id in b'.info ensures IdOk(e, b', id) { assert IdOk(e, b, id); }
    forall s | s in b'.addr ensures ServiceOk(b', s) { assert ServiceOk(b, s); }
  }

  // ---- entries come and go ----

  function Fresh(b: Book, a: Address, source: NetAddr): AddrInfo {
    AddrInfo(a.service, a.time, a.services, source, 0, 0, 0, 0, 0, false, |b.random|)
  }

  /** A new entry, which no table holds yet. */
  function Created(e: Env, b: Book, a: Address, source: NetAddr): Book {
    Bump(b.(idCount := b.idCount + 1,
            info := b.info[NextId(b) := Fresh(b, a, source)],
            addr := b.addr[a.service := NextId(b)],
            random := b.random + [NextId(b)]),
         e.network(a.service.ip), false, 1)
  }

  lemma CreatedTallies(e: Env, b: Book, a: Address, source: NetAddr, u: set<Id>)
    requires TalliesOk(e, b, u) && NextId(b) !in b.info && NextId(b) !in u
    ensures TalliesOk(e, Created(e, b, a, source), u)
  {
    var b' := Created(e, b, a, source);
    forall k
      ensures Kept(b', k) - One(Counted(e, b'.info, u, k, NextId(b)))
           == Kept(b, k) - One(Counted(e, b.info, u, k, NextId(b)))
    {
      BumpKeeps(b.(idCount := b'.idCount, info := b'.info, addr := b'.addr, random := b'.random),
                e.network(a.service.ip), false, 1, k);
    }
    TalliesFollow(e, b, b', u, u, NextId(b));
  }

  lemma CreatedTables(e: Env, b: Book, a: Address, source: NetAddr, limbo: set<Id>)
    requires TablesOk(e, b, limbo) && NextId(b) !in b.info
    ensures TablesOk(e, Created(e, b, a, source), limbo + {NextId(b)})
  {
    var b', limbo' := Created(e, b, a, source), limbo + {NextId(b)};
    forall s | s in b'.newT ensures NewEntryOk(e, b', s) { assert NewEntryOk(e, b, s); }
    forall s | s in b'.triedT ensures TriedEntryOk(e, b', s) { assert TriedEntryOk(e, b, s); }
    forall id | id in b'.info
      ensures EntryOk(e, b', id, limbo')
    {
      if id == NextId(b) {
        assert SlotsOf(b.newT, id) == {} by {
          forall s | s in b.newT ensures b.newT[s] != id { assert NewEntryOk(e, b, s); }
        }
      } else {
        assert EntryOk(e, b, id, limbo);
      }
    }
  }

  lemma CreatedKeeps(e: Env, b: Book, a: Address, source: NetAddr, limbo: set<Id>, u: set<Id>)
    requires Almost(e, b, limbo, u) && a.service !in b.addr && e.Routable(a.service.ip)
    ensures Almost(e, Created(e, b, a, source), limbo + {NextId(b)}, u)
  {
    assert NextId(b) in b.info ==> IdOk(e, b, NextId(b));
    hide TablesOk; hide AddressesOk; hide OrderOk; hide TalliesOk;
    CreatedTallies(e, b, a, source, u);
    CreatedTables(e, b, a, source, limbo);
    CreatedOrder(e, b, a, source);
  }

  lemma CreatedOrder(e: Env, b: Book, a: Address, source: NetAddr)
    requires AddressesOk(e, b) && OrderOk(b) && a.service !in b.addr && e.Routable(a.service.ip)
    ensures AddressesOk(e, Created(e, b, a, source)) && OrderOk(Created(e, b, a, source))
  {
    var b' := Created(e, b, a, source);
    forall id | id in b'.info
      ensures IdOk(e, b', id) && PlaceOk(b', id)
    {
      assert id != NextId(b) ==> IdOk(e, b, id) && PlaceOk(b, id);
    }
    forall s | s in b'.addr
      ensures ServiceOk(b', s)
    {
      assert s != a.service ==> ServiceOk(b, s);
      if s != a.service { assert IdOk(e, b, b.addr[s]); }
    }
    forall p | 0 <= p < |b'.random|
      ensures SpotOk(b', p)
    {
      assert p < |b.random| ==> SpotOk(b, p);
      if p < |b.random| { assert IdOk(e, b, b.random[p]); }
    }
  }

  predicate CanDrop(b: Book, id: Id) {
    && id in b.info && 0 <= b.info[id].randomPos < |b.random| && b.random[|b.random| - 1] in b.info
  }

  /** The book without one entry, whose place in the order the last one takes, before the counts
      are adjusted. */
  function Dropped(b: Book, id: Id): Book
    requires CanDrop(b, id)
  {
    var pos, last := b.info[id].randomPos, b.random[|b.random| - 1];
    b.(random := b.random[pos := last][..|b.random| - 1],
       addr := b.addr - {b.info[id].service},
       info := b.info[last := b.info[last].(randomPos := pos)] - {id})
  }

  /** An entry that no table holds goes. */
  function Deleted(e: Env, b: Book, id: Id): Book
    requires CanDrop(b, id)
  {
    Bump(Dropped(b, id), e.network(b.info[id].service.ip), false, -1)
  }

  lemma DroppedOrder(b: Book, id: Id)
    requires OrderOk(b) && id in b.info
    ensures CanDrop(b, id) && OrderOk(Dropped(b, id))
  {
    assert PlaceOk(b, id) && SpotOk(b, |b.random| - 1);
    var b' := Dropped(b, id);
    forall j | j in b'.info
      ensures PlaceOk(b', j)
    {
      assert PlaceOk(b, j);
    }
    forall p | 0 <= p < |b'.random|
      ensures SpotOk(b', p)
    {
      assert SpotOk(b, p);
    }
  }

  lemma DroppedAddresses(e: Env, b: Book, id: Id)
    requires AddressesOk(e, b) && CanDrop(b, id)
    ensures AddressesOk(e, Dropped(b, id))
  {
    var b' := Dropped(b, id);
    assert IdOk(e, b, id);
    forall j | j in b'.info ensures IdOk(e, b', j) { assert IdOk(e, b, j); }
    forall s | s in b'.addr ensures ServiceOk(b', s) { assert ServiceOk(b, s); }
  }

  lemma DroppedTables(e: Env, b: Book, id: Id, limbo: set<Id>)
    requires TablesOk(e, b, limbo) && id in limbo && CanDrop(b, id)
    ensures TablesOk(e, Dropped(b, id), limbo - {id})
  {
    var b' := Dropped(b, id);
    assert EntryOk(e, b, id, limbo);
    forall s | s in b'.newT
      ensures NewEntryOk(e, b', s)
    {
      assert NewEntryOk(e, b, s);
      assert b.newT[s] == id ==> s in SlotsOf(b.newT, id);
    }
    forall s | s in b'.triedT ensures TriedEntryOk(e, b', s) { assert TriedEntryOk(e, b, s); }
    forall j | j in b'.info ensures EntryOk(e, b', j, limbo - {id}) { assert EntryOk(e, b, j, limbo); }
  }

  lemma BumpedTables(e: Env, b: Book, limbo: set<Id>, n: nat, tried: bool, d: int)
    requires TablesOk(e, b, limbo) && AddressesOk(e, b) && OrderOk(b) && TimesOk(b)
    ensures var b' := Bump(b, n, tried, d);
            TablesOk(e, b', limbo) && AddressesOk(e, b') && OrderOk(b') && TimesOk(b')
  {
    var b' := Bump(b, n, tried, d);
    forall s | s in b'.newT ensures NewEntryOk(e, b', s) { assert NewEntryOk(e, b, s); }
    forall s | s in b'.triedT ensures TriedEntryOk(e, b', s) { assert TriedEntryOk(e, b, s); }
    forall id | id in b'.info
      ensures EntryOk(e, b', id, limbo) && IdOk(e, b', id) && PlaceOk(b', id)
    {
      assert EntryOk(e, b, id, limbo) && IdOk(e, b, id) && PlaceOk(b, id);
    }
    forall s | s in b'.addr ensures ServiceOk(b', s) { assert ServiceOk(b, s); }
    forall p | 0 <= p < |b'.random| ensures SpotOk(b', p) { assert SpotOk(b, p); }
  }

  lemma DroppedTallies(e: Env, b: Book, id: Id, u: set<Id>)
    requires TalliesOk(e, b, u) && CanDrop(b, id) && !b.info[id].inTried && id !in u
    ensures TalliesOk(e, Deleted(e, b, id), u)
  {
    var n := e.network(b.info[id].service.ip);
    var b' := Deleted(e, b, id);
    forall k
      ensures Kept(b', k) - One(Counted(e, b'.info, u, k, id)) == Kept(b, k) - One(Counted(e, b.info, u, k, id))
    {
      BumpKeeps(Dropped(b, id), n, false, -1, k);
    }
    TalliesFollow(e, b, b', u, u, id);
  }

  lemma InLimbo(e: Env, b: Book, id: Id, limbo: set<Id>)
    requires TablesOk(e, b, limbo) && id in limbo
    ensures id in b.info && !b.info[id].inTried && b.info[id].refCount == 0
  {
    assert EntryOk(e, b, id, limbo);
  }

  lemma DeletedKeeps(e: Env, b: Book, id: Id, limbo: set<Id>, u: set<Id>)
    requires Almost(e, b, limbo, u) && id in limbo && id !in u
    ensures CanDrop(b, id) && Almost(e, Deleted(e, b, id), limbo - {id}, u)
  {
    hide TablesOk; hide AddressesOk; hide OrderOk; hide TalliesOk;
    InLimbo(e, b, id, limbo);
    DroppedOrder(b, id);
    DroppedAddresses(e, b, id);
    DroppedTables(e, b, id, limbo);
    DroppedTallies(e, b, id, u);
    BumpedTables(e, Dropped(b, id), limbo - {id}, e.network(b.info[id].service.ip), false, -1);
  }

  // ---- entries move between the tables ----

  /** Addresses, order and times do not depend on how often or where an entry is listed. */
  ghost predicate SameShape(b: Book, b': Book) {
    && b'.key == b.key && b'.idCount == b.idCount && b'.addr == b.addr && b'.random == b.random
    && b'.collisions == b.collisions && b'.info.Keys == b.info.Keys
    && forall id | id in b.info ::
         b'.info[id] == b.info[id].(refCount := b'.info[id].refCount, inTried := b'.info[id].inTried)
  }

  lemma ShapeKept(e: Env, b: Book, b': Book)
    requires AddressesOk(e, b) && OrderOk(b) && SameShape(b, b')
    ensures AddressesOk(e, b') && OrderOk(b')
  {
    forall id | id in b'.info ensures IdOk(e, b', id) && PlaceOk(b', id) { assert IdOk(e, b, id) && PlaceOk(b, id); }
    forall s | s in b'.addr ensures ServiceOk(b', s) { assert ServiceOk(b, s); }
    forall p | 0 <= p < |b'.random| ensures SpotOk(b', p) { assert SpotOk(b, p); }
  }

  /** One slot of the new table is emptied. */
  function Unref(b: Book, s: Slot): Book
    requires s in b.newT && b.newT[s] in b.info
  {
    var id := b.newT[s];
    b.(newT := b.newT - {s}, info := b.info[id := b.info[id].(refCount := b.info[id].refCount - 1)])
  }

  function LimboAfter(b: Book, s: Slot, limbo: set<Id>): set<Id>
    requires s in b.newT && b.newT[s] in b.info
  {
    if b.info[b.newT[s]].refCount == 1 then limbo + {b.newT[s]} else limbo
  }

  lemma SlotsWithout(t: map<Slot, Id>, s: Slot, id: Id)
    requires s in t
    ensures SlotsOf(t - {s}, id) == SlotsOf(t, id) - {s}
    ensures |SlotsOf(t - {s}, id)| == |SlotsOf(t, id)| - One(t[s] == id)
  {
    assert SlotsOf(t - {s}, id) == SlotsOf(t, id) - {s};
    Without(SlotsOf(t, id), s);
    assert s in SlotsOf(t, id) <==> t[s] == id;
  }

  lemma UnrefTables(e: Env, b: Book, s: Slot, limbo: set<Id>)
    requires TablesOk(e, b, limbo) && s in b.newT
    ensures b.newT[s] in b.info && b.newT[s] !in limbo
    ensures TablesOk(e, Unref(b, s), LimboAfter(b, s, limbo))
  {
    var id := b.newT[s];
    assert NewEntryOk(e, b, s) && EntryOk(e, b, id, limbo);
    assert s in SlotsOf(b.newT, id);
    var b', limbo' := Unref(b, s), LimboAfter(b, s, limbo);
    forall t | t in b'.newT ensures NewEntryOk(e, b', t) { assert NewEntryOk(e, b, t); }
    forall t | t in b'.triedT ensures TriedEntryOk(e, b', t) { assert TriedEntryOk(e, b, t); }
    forall j | j in b'.info
      ensures EntryOk(e, b', j, limbo')
    {
      assert EntryOk(e, b, j, limbo);
      SlotsWithout(b.newT, s, j);
    }
  }

  lemma SameTallies(e: Env, b: Book, b': Book, u: set<Id>)
    requires TalliesOk(e, b, u) && b'.nNew == b.nNew && b'.nTried == b.nTried && b'.counts == b.counts
    requires b'.info.Keys == b.info.Keys && forall j | j in b.info :: SameCount(b.info[j], b'.info[j])
    ensures TalliesOk(e, b', u)
  {
    forall k
      ensures Kept(b', k) == |Ids(e, b'.info, k) - u|
    {
      SameIds(e, b.info, b'.info, k);
    }
  }

  lemma SameIds(e: Env, info: map<Id, AddrInfo>, info': map<Id, AddrInfo>, k: Kind)
    requires info'.Keys == info.Keys && forall j | j in info :: SameCount(info[j], info'[j])
    ensures Ids(e, info', k) == Ids(e, info, k)
  {
    forall j ensures j in Ids(e, info', k) <==> j in Ids(e, info, k) {
      assert j in info' <==> j in info.Keys;
    }
  }

  lemma UnrefKeeps(e: Env, b: Book, s: Slot, limbo: set<Id>, u: set<Id>)
    requires Almost(e, b, limbo, u) && s in b.newT
    ensures b.newT[s] in b.info && b.newT[s] !in limbo
    ensures Almost(e, Unref(b, s), LimboAfter(b, s, limbo), u)
  {
    hide TablesOk; hide AddressesOk; hide OrderOk; hide TalliesOk;
    UnrefTables(e, b, s, limbo);
    ShapeKept(e, b, Unref(b, s));
    SameTallies(e, b, Unref(b, s), u);
  }

  /** An entry is put into a free slot of the new table. */
  function Ref(b: Book, s: Slot, id: Id): Book
    requires id in b.info
  {
    b.(newT := b.newT[s := id], info := b.info[id := b.info[id].(refCount := b.info[id].refCount + 1)])
  }

  lemma SlotsWith(t: map<Slot, Id>, s: Slot, x: Id, id: Id)
    requires s !in t
    ensures |SlotsOf(t[s := x], id)| == |SlotsOf(t, id)| + One(x == id)
  {
    assert t[s := x] - {s} == t;
    SlotsWithout(t[s := x], s, id);
  }

  /** Entry id may go into slot s of the new table. */
  ghost predicate Fits(e: Env, b: Book, s: Slot, id: Id) {
    && s !in b.newT && id in b.info && !b.info[id].inTried
    && s.bucket < NEW_BUCKET_COUNT && s.pos == Position(e, b.key, true, s.bucket, b.info[id].service)
    && b.info[id].refCount < NEW_BUCKETS_PER_ADDRESS
  }

  lemma RefTables(e: Env, b: Book, s: Slot, id: Id, limbo: set<Id>)
    requires TablesOk(e, b, limbo) && Fits(e, b, s, id)
    ensures TablesOk(e, Ref(b, s, id), limbo - {id})
  {
    var b' := Ref(b, s, id);
    forall t | t in b'.newT ensures NewEntryOk(e, b', t) { assert t != s ==> NewEntryOk(e, b, t); }
    forall t | t in b'.triedT ensures TriedEntryOk(e, b', t) { assert TriedEntryOk(e, b, t); }
    forall j | j in b'.info
      ensures EntryOk(e, b', j, limbo - {id})
    {
      assert EntryOk(e, b, j, limbo);
      SlotsWith(b.newT, s, id, j);
    }
  }

  lemma RefKeeps(e: Env, b: Book, s: Slot, id: Id, limbo: set<Id>, u: set<Id>)
    requires Almost(e, b, limbo, u) && Fits(e, b, s, id) && id !in u
    ensures Almost(e, Ref(b, s, id), limbo - {id}, u)
  {
    hide TablesOk; hide AddressesOk; hide OrderOk; hide TalliesOk;
    RefTables(e, b, s, id, limbo);
    ShapeKept(e, b, Ref(b, s, id));
    SameTallies(e, b, Ref(b, s, id), u);
  }

  /** An entry leaves every slot of the new table. */
  ghost function AllUnref(b: Book, id: Id): Book
    requires id in b.info
  {
    b.(newT := b.newT - SlotsOf(b.newT, id), info := b.info[id := b.info[id].(refCount := 0)])
  }

  lemma AllUnrefTables(e: Env, b: Book, id: Id, limbo: set<Id>)
    requires TablesOk(e, b, limbo) && id in b.info && !b.info[id].inTried
    ensures TablesOk(e, AllUnref(b, id), limbo + {id})
  {
    var b', limbo' := AllUnref(b, id), limbo + {id};
    forall t | t in b'.newT ensures NewEntryOk(e, b', t) { assert NewEntryOk(e, b, t); }
    forall t | t in b'.triedT ensures TriedEntryOk(e, b', t) { assert TriedEntryOk(e, b, t); }
    forall j | j in b'.info
      ensures EntryOk(e, b', j, limbo')
    {
      assert EntryOk(e, b, j, limbo);
      assert SlotsOf(b'.newT, j) == if j == id then {} else SlotsOf(b.newT, j);
    }
  }

  lemma AllUnrefKeeps(e: Env, b: Book, id: Id, limbo: set<Id>, u: set<Id>)
    requires Almost(e, b, limbo, u) && id in b.info && !b.info[id].inTried
    ensures Almost(e, AllUnref(b, id), limbo + {id}, u)
  {
    hide TablesOk; hide AddressesOk; hide OrderOk; hide TalliesOk;
    AllUnrefTables(e, b, id, limbo);
    ShapeKept(e, b, AllUnref(b, id));
    SameTallies(e, b, AllUnref(b, id), u);
  }

  function NetworkOf(e: Env, b: Book, id: Id): nat
    requires id in b.info
  {
    e.network(b.info[id].service.ip)
  }

  /** An entry in limbo stops being counted as new, or is counted again. */
  lemma RecountKeeps(e: Env, b: Book, id: Id, limbo: set<Id>, u: set<Id>)
    requires Almost(e, b, limbo, u) && id in limbo
    ensures id in b.info
    ensures id !in u ==> Almost(e, Bump(b, NetworkOf(e, b, id), false, -1), limbo, u + {id})
    ensures id in u ==> Almost(e, Bump(b, NetworkOf(e, b, id), false, 1), limbo, u - {id})
  {
    var n, d := NetworkOf(e, b, id), if id in u then 1 else -1;
    var u' := if id in u then u - {id} else u + {id};
    var b' := Bump(b, n, false, d);
    hide TablesOk; hide AddressesOk; hide OrderOk; hide TalliesOk;
    InLimbo(e, b, id, limbo);
    forall k
      ensures Kept(b', k) - One(Counted(e, b'.info, u', k, id)) == Kept(b, k) - One(Counted(e, b.info, u, k, id))
    {
      BumpKeeps(b, n, false, d, k);
    }
    TalliesFollow(e, b, b', u, u', id);
    BumpedTables(e, b, limbo, n, false, d);
  }

  /** The entry in a tried slot leaves it. */
  function Untried(e: Env, b: Book, s: Slot): Book
    requires s in b.triedT && b.triedT[s] in b.info
  {
    var id := b.triedT[s];
    Bump(b.(triedT := b.triedT - {s}, info := b.info[id := b.info[id].(inTried := false)]),
         NetworkOf(e, b, id), true, -1)
  }

  lemma UntriedTables(e: Env, b: Book, s: Slot, limbo: set<Id>)
    requires TablesOk(e, b, limbo) && s in b.triedT
    ensures b.triedT[s] in b.info && b.triedT[s] !in limbo && b.info[b.triedT[s]].inTried
    ensures TablesOk(e, Untried(e, b, s), limbo + {b.triedT[s]})
  {
    var id := b.triedT[s];
    assert TriedEntryOk(e, b, s) && EntryOk(e, b, id, limbo);
    var b', limbo' := Untried(e, b, s), limbo + {id};
    forall t | t in b'.newT ensures NewEntryOk(e, b', t) { assert NewEntryOk(e, b, t); }
    forall t | t in b'.triedT ensures TriedEntryOk(e, b', t) { assert TriedEntryOk(e, b, t); }
    forall j | j in b'.info ensures EntryOk(e, b', j, limbo') { assert EntryOk(e, b, j, limbo); }
  }

  lemma UntriedTallies(e: Env, b: Book, s: Slot, u: set<Id>)
    requires TalliesOk(e, b, u) && s in b.triedT && b.triedT[s] in b.info && b.info[b.triedT[s]].inTried
             && b.triedT[s] !in u
    ensures TalliesOk(e, Untried(e, b, s), u + {b.triedT[s]})
  {
    var id := b.triedT[s];
    var b', u' := Untried(e, b, s), u + {id};
    forall k
      ensures Kept(b', k) - One(Counted(e, b'.info, u', k, id)) == Kept(b, k) - One(Counted(e, b.info, u, k, id))
    {
      BumpKeeps(b.(triedT := b'.triedT, info := b'.info), NetworkOf(e, b, id), true, -1, k);
    }
    TalliesFollow(e, b, b', u, u', id);
  }

  lemma UntriedKeeps(e: Env, b: Book, s: Slot, limbo: set<Id>, u: set<Id>)
    requires Almost(e, b, limbo, u) && s in b.triedT
    ensures b.triedT[s] in b.info && b.triedT[s] !in limbo && b.info[b.triedT[s]].inTried
    ensures Almost(e, Untried(e, b, s), limbo + {b.triedT[s]}, u + {b.triedT[s]})
  {
    hide TablesOk; hide AddressesOk; hide OrderOk; hide TalliesOk;
    UntriedTables(e, b, s, limbo);
    UntriedTallies(e, b, s, u);
    ShapeKept(e, b, Untried(e, b, s));
  }

  /** An entry that no table holds is put into its tried slot. */
  function Tried(e: Env, b: Book, s: Slot, id: Id): Book
    requires id in b.info
  {
    Bump(b.(triedT := b.triedT[s := id], info := b.info[id := b.info[id].(inTried := true)]),
         NetworkOf(e, b, id), true, 1)
  }

  lemma TriedTables(e: Env, b: Book, s: Slot, id: Id, limbo: set<Id>)
    requires TablesOk(e, b, limbo) && id in limbo && s !in b.triedT && s == TriedSlot(e, b.key, b.info[id].service)
    ensures TablesOk(e, Tried(e, b, s, id), limbo - {id})
  {
    assert EntryOk(e, b, id, limbo);
    var b' := Tried(e, b, s, id);
    forall t | t in b'.newT
      ensures NewEntryOk(e, b', t)
    {
      assert NewEntryOk(e, b, t);
      assert b.newT[t] == id ==> t in SlotsOf(b.newT, id);
    }
    forall t | t in b'.triedT ensures TriedEntryOk(e, b', t) { assert t != s ==> TriedEntryOk(e, b, t); }
    forall j | j in b'.info ensures EntryOk(e, b', j, limbo - {id}) { assert EntryOk(e, b, j, limbo); }
  }

  lemma TriedTallies(e: Env, b: Book, s: Slot, id: Id, u: set<Id>)
    requires TalliesOk(e, b, u) && id in b.info && !b.info[id].inTried && id in u
    ensures TalliesOk(e, Tried(e, b, s, id), u - {id})
  {
    var b', u' := Tried(e, b, s, id), u - {id};
    forall k
      ensures Kept(b', k) - One(Counted(e, b'.info, u', k, id)) == Kept(b, k) - One(Counted(e, b.info, u, k, id))
    {
      BumpKeeps(b.(triedT := b'.triedT, info := b'.info), NetworkOf(e, b, id), true, 1, k);
    }
    TalliesFollow(e, b, b', u, u', id);
  }

  lemma TriedKeeps(e: Env, b: Book, s: Slot, id: Id, limbo: set<Id>, u: set<Id>)
    requires Almost(e, b, limbo, u) && id in limbo && id in u
    requires s !in b.triedT && s == TriedSlot(e, b.key, b.info[id].service) && b.info[id].lastSuccess > 0
    ensures Almost(e, Tried(e, b, s, id), limbo - {id}, u - {id})
  {
    hide TablesOk; hide AddressesOk; hide OrderOk; hide TalliesOk;
    InLimbo(e, b, id, limbo);
    TriedTables(e, b, s, id, limbo);
    TriedTallies(e, b, s, id, u);
    ShapeKept(e, b, Tried(e, b, s, id));
  }
}
