/** What a cuckoo cache holds, as a value: which slots are taken, which elements are kept, and how
    many kept entries belong to the current epoch. */
module CuckooSpec {
  import opened Numbers

  const WAYS := 8
  const WORD := 0x1_0000_0000

  /** Maps a 32-bit hash onto [0, n) by multiplication. */
  function FastRange32(x: nat, n: nat): (r: nat)
    requires x < WORD && 0 < n
    ensures r < n
  {
    DivBelow(x, WORD, n);
    x * n / WORD
  }

  lemma Product(x: nat, word: nat, n: nat)
    requires x < word && 0 < n
    ensures x * n < word * n
  {
    assert (word - x) * n == word * n - x * n;
  }

  lemma QuotientBelow(a: nat, d: nat, n: nat)
    requires d > 0 && a < d * n
    ensures a / d < n
  {
    var q := a / d;
    assert d * q <= a;
    assert n <= q ==> d * n <= d * q;
  }

  lemma DivBelow(x: nat, word: nat, n: nat)
    requires x < word && 0 < n
    ensures x * n / word < n
  {
    Product(x, word, n);
    QuotientBelow(x * n, word, n);
  }

  /** The eight slots of an element in a table of a given size, and the default element. */
  datatype Hasher<!E> = Hasher(loc: (E, nat) -> nat, size: nat, empty: E)

  ghost predicate InRange<E(!new)>(hs: Hasher<E>) {
    forall e, k | 0 <= k < WAYS :: hs.loc(e, k) < hs.size
  }

  /** The slots that the eight 32-bit hashes of an element select. */
  function SlotsByHash<E>(h: (E, nat) -> nat, size: nat, empty: E): Hasher<E>
    requires 0 < size
  {
    Hasher((e, k) => FastRange32(h(e, k) % WORD, size), size, empty)
  }

  lemma SlotsInRange<E(!new)>(h: (E, nat) -> nat, size: nat, empty: E)
    requires 0 < size
    ensures InRange(SlotsByHash(h, size, empty))
  {
    var hs := SlotsByHash(h, size, empty);
    forall e, k | 0 <= k < WAYS
      ensures hs.loc(e, k) < hs.size
    {
      assert hs.loc(e, k) == FastRange32(h(e, k) % WORD, size);
    }
  }

  /** Slot i is one of the eight slots of e. */
  predicate IsSlot<E>(hs: Hasher<E>, e: E, i: nat) {
    exists k | 0 <= k < WAYS :: hs.loc(e, k) == i
  }

  /** The table, and for every slot whether its element may be discarded and whether it is recent. */
  datatype Slots<E> = Slots(table: seq<E>, free: seq<bool>, epoch: seq<bool>) {
    predicate Sized() { |table| == |free| == |epoch| && |table| > 0 }
  }

  ghost function Kept<E>(s: Slots<E>): set<E>
    requires s.Sized()
  {
    set i | 0 <= i < |s.table| && !s.free[i] :: s.table[i]
  }

  /** The kept elements of the current epoch. */
  ghost function KeptRecent<E>(s: Slots<E>): set<E>
    requires s.Sized()
  {
    set i | 0 <= i < |s.table| && !s.free[i] && s.epoch[i] :: s.table[i]
  }

  ghost function Only<E>(e: E, there: bool): set<E> { if there then {e} else {} }

  /** Kept elements, and all non-default ones, sit at one of their own slots, the latter in one only. */
  ghost predicate Placed<E(!new)>(hs: Hasher<E>, s: Slots<E>)
    requires s.Sized()
  {
    && (forall i | 0 <= i < |s.table| :: !s.free[i] || s.table[i] != hs.empty ==> IsSlot(hs, s.table[i], i))
    && (forall i, j | 0 <= i < j < |s.table| :: s.table[i] == s.table[j] ==> s.table[i] == hs.empty)
  }

  /** The number of kept entries of the current epoch among the first n slots. */
  function Recent(free: seq<bool>, epoch: seq<bool>, n: nat): nat
    requires n <= |free| == |epoch|
  {
    if n == 0 then 0 else Recent(free, epoch, n - 1) + (if epoch[n - 1] && !free[n - 1] then 1 else 0)
  }

  function Count(b: bool): nat { if b then 1 else 0 }

  lemma {:induction false} RecentUpdate(free: seq<bool>, epoch: seq<bool>, i: nat, f: bool, e: bool, n: nat)
    requires n <= |free| == |epoch| && i < |free|
    ensures Recent(free[i := f], epoch[i := e], n)
         == Recent(free, epoch, n) + (if i < n then Count(e && !f) - Count(epoch[i] && !free[i]) else 0)
    decreases n
  {
    if n > 0 {
      RecentUpdate(free, epoch, i, f, e, n - 1);
    }
  }

  function CountOf<E>(s: Slots<E>): nat
    requires s.Sized()
  {
    Recent(s.free, s.epoch, |s.free|)
  }

  // ---- ageing ----

  /** The current epoch becomes the old one, and the old one may be discarded. */
  function Aged<E>(s: Slots<E>): Slots<E>
    requires s.Sized()
  {
    Slots(s.table,
          seq(|s.free|, i requires 0 <= i < |s.free| => s.free[i] || !s.epoch[i]),
          seq(|s.epoch|, _ => false))
  }

  /** Ageing discards exactly the kept elements that were not recent, and makes the rest old. */
  lemma AgedKeeps<E>(s: Slots<E>)
    requires s.Sized()
    ensures Aged(s).Sized() && Kept(Aged(s)) == KeptRecent(s) && KeptRecent(Aged(s)) == {}
  {
    var a := Aged(s);
    forall x | x in KeptRecent(s)
      ensures x in Kept(a)
    {
      var i :| 0 <= i < |s.table| && !s.free[i] && s.epoch[i] && s.table[i] == x;
      assert a.table[i] == x && !a.free[i];
    }
  }

  lemma {:induction false} NoneRecent(free: seq<bool>, epoch: seq<bool>, n: nat)
    requires n <= |free| == |epoch| && forall i | 0 <= i < n :: !epoch[i]
    ensures Recent(free, epoch, n) == 0
    decreases n
  {
    if n > 0 {
      NoneRecent(free, epoch, n - 1);
    }
  }

  /** What the check before an insertion does to the slots and to the counter. */
  function EpochChecked<E>(s: Slots<E>, counter: nat, epochSize: nat): (Slots<E>, nat)
    requires s.Sized()
  {
    if counter != 0 then (s, counter - 1)
    else if CountOf(s) >= epochSize then (Aged(s), epochSize)
    else (s, Max(1, Max(epochSize / 16, epochSize - CountOf(s))))
  }

  /** The bound that the cheap counter is there to enforce. */
  predicate EpochBound<E>(s: Slots<E>, counter: nat, epochSize: nat)
    requires s.Sized()
  {
    CountOf(s) + counter <= epochSize + Max(1, epochSize / 16)
  }

  /** The check leaves room for one more recent entry. */
  lemma {:induction false} EpochCheckLeavesRoom<E>(s: Slots<E>, counter: nat, epochSize: nat)
    requires s.Sized() && EpochBound(s, counter, epochSize)
    ensures var (s', counter') := EpochChecked(s, counter, epochSize);
            s'.Sized() && CountOf(s') + 1 + counter' <= epochSize + Max(1, epochSize / 16)
  {
    if counter == 0 && CountOf(s) >= epochSize {
      NoneRecent(Aged(s).free, Aged(s).epoch, |s.free|);
    }
  }

  /** Whether an insertion with this counter ages the entries: it looks, and finds a full epoch. */
  predicate Ages<E>(s: Slots<E>, counter: nat, epochSize: nat)
    requires s.Sized()
  {
    counter == 0 && CountOf(s) >= epochSize
  }

  /** The check loses a kept element only if it looks and finds a full epoch, and then exactly
      those that are not recent. It does not look again for a sixteenth of an epoch. */
  lemma EpochCheckKeeps<E>(s: Slots<E>, counter: nat, epochSize: nat)
    requires s.Sized() && epochSize >= 1
    ensures var (s', counter') := EpochChecked(s, counter, epochSize);
            && s'.Sized() && Kept(s') == (if Ages(s, counter, epochSize) then KeptRecent(s) else Kept(s))
            && KeptRecent(s') == (if Ages(s, counter, epochSize) then {} else KeptRecent(s))
            && (if counter == 0 then counter' >= Max(1, epochSize / 16) else counter' == counter - 1)
  {
    AgedKeeps(s);
  }

  // ---- putting an element into a slot ----

  function Put<E>(s: Slots<E>, i: nat, e: E, recent: bool): (s': Slots<E>)
    requires s.Sized() && i < |s.table|
    ensures s'.Sized()
  {
    Slots(s.table[i := e], s.free[i := false], s.epoch[i := recent])
  }

  /** The recent elements before and after an element goes into a slot. */
  lemma PutRecent<E>(s: Slots<E>, i: nat, e: E, recent: bool)
    requires s.Sized() && i < |s.table|
    ensures KeptRecent(Put(s, i, e, recent)) + Only(s.table[i], s.epoch[i] && !s.free[i])
         == KeptRecent(s) + Only(e, recent)
  {
    var s' := Put(s, i, e, recent);
    assert recent ==> s'.table[i] in KeptRecent(s');
    assert s.epoch[i] && !s.free[i] ==> s.table[i] in KeptRecent(s);
    forall x | x in KeptRecent(s)
      ensures x in KeptRecent(s') + Only(s.table[i], s.epoch[i] && !s.free[i])
    {
      var j :| 0 <= j < |s.table| && !s.free[j] && s.epoch[j] && s.table[j] == x;
      assert j != i ==> s'.table[j] == x && !s'.free[j] && s'.epoch[j];
    }
    forall x | x in KeptRecent(s')
      ensures x in KeptRecent(s) + Only(e, recent)
    {
      var j :| 0 <= j < |s'.table| && !s'.free[j] && s'.epoch[j] && s'.table[j] == x;
      assert j != i ==> s.table[j] == x && !s.free[j] && s.epoch[j];
    }
  }

  /** Putting an element over a slot that may be discarded keeps all kept elements and adds it. */
  lemma PutOnFree<E>(s: Slots<E>, i: nat, e: E, recent: bool)
    requires s.Sized() && i < |s.table| && s.free[i]
    ensures Kept(Put(s, i, e, recent)) == Kept(s) + {e}
    ensures CountOf(Put(s, i, e, recent)) == CountOf(s) + Count(recent)
    ensures KeptRecent(Put(s, i, e, recent)) == KeptRecent(s) + Only(e, recent)
  {
    var s' := Put(s, i, e, recent);
    PutRecent(s, i, e, recent);
    RecentUpdate(s.free, s.epoch, i, false, recent, |s.free|);
    assert s'.table[i] in Kept(s');
    forall x | x in Kept(s)
      ensures x in Kept(s')
    {
      var j :| 0 <= j < |s.table| && !s.free[j] && s.table[j] == x;
      assert s'.table[j] == x && !s'.free[j];
    }
  }

  /** Swapping the element in hand with a kept one conserves kept elements and hand together, and
      recent entries together. */
  lemma SwapOnKept<E>(s: Slots<E>, i: nat, e: E, recent: bool)
    requires s.Sized() && i < |s.table| && !s.free[i]
    ensures Kept(Put(s, i, e, recent)) + {s.table[i]} == Kept(s) + {e}
    ensures CountOf(Put(s, i, e, recent)) + Count(s.epoch[i]) == CountOf(s) + Count(recent)
    ensures KeptRecent(Put(s, i, e, recent)) + Only(s.table[i], s.epoch[i]) == KeptRecent(s) + Only(e, recent)
  {
    var s' := Put(s, i, e, recent);
    PutRecent(s, i, e, recent);
    RecentUpdate(s.free, s.epoch, i, false, recent, |s.free|);
    assert s'.table[i] in Kept(s') && s.table[i] in Kept(s);
    forall x | x in Kept(s)
      ensures x in Kept(s') || x == s.table[i]
    {
      var j :| 0 <= j < |s.table| && !s.free[j] && s.table[j] == x;
      assert j != i ==> s'.table[j] == x && !s'.free[j];
    }
    forall x | x in Kept(s')
      ensures x in Kept(s) || x == e
    {
      var j :| 0 <= j < |s'.table| && !s'.free[j] && s'.table[j] == x;
      assert j != i ==> s.table[j] == x && !s.free[j];
    }
  }

  /** Keeping the element that is already in slot i. */
  lemma KeepInPlace<E>(s: Slots<E>, i: nat)
    requires s.Sized() && i < |s.table|
    ensures Kept(Put(s, i, s.table[i], true)) == Kept(s) + {s.table[i]}
    ensures CountOf(Put(s, i, s.table[i], true)) <= CountOf(s) + 1
    ensures KeptRecent(Put(s, i, s.table[i], true)) == KeptRecent(s) + {s.table[i]}
  {
    var s' := Put(s, i, s.table[i], true);
    PutRecent(s, i, s.table[i], true);
    assert s'.table[i] in KeptRecent(s');
    RecentUpdate(s.free, s.epoch, i, false, true, |s.free|);
    assert s'.table == s.table;
    assert s'.table[i] in Kept(s');
    forall x | x in Kept(s)
      ensures x in Kept(s')
    {
      var j :| 0 <= j < |s.table| && !s.free[j] && s.table[j] == x;
      assert s'.table[j] == x && !s'.free[j];
    }
  }

  // ---- places ----

  /** The element in hand is nowhere in the table (the default element may be anywhere). */
  ghost predicate InHand<E>(hs: Hasher<E>, s: Slots<E>, e: E) {
    e != hs.empty ==> e !in s.table
  }

  lemma PutKeepsPlaced<E(!new)>(hs: Hasher<E>, s: Slots<E>, i: nat, e: E, recent: bool)
    requires s.Sized() && i < |s.table| && Placed(hs, s) && InHand(hs, s, e) && IsSlot(hs, e, i)
    ensures Placed(hs, Put(s, i, e, recent))
    ensures InHand(hs, Put(s, i, e, recent), s.table[i])
  {
  }

  /** Some slot of the element may be discarded. */
  ghost predicate HasRoom<E>(hs: Hasher<E>, s: Slots<E>, e: E) {
    exists k | 0 <= k < WAYS :: hs.loc(e, k) < |s.free| && s.free[hs.loc(e, k)]
  }

  /** An element that is at none of its own slots is nowhere. */
  lemma AbsentFromSlots<E(!new)>(hs: Hasher<E>, s: Slots<E>, e: E)
    requires s.Sized() && Placed(hs, s)
    requires forall k | 0 <= k < WAYS :: hs.loc(e, k) < |s.table| && s.table[hs.loc(e, k)] != e
    ensures InHand(hs, s, e)
  {
    forall i | 0 <= i < |s.table| ensures e != hs.empty ==> s.table[i] != e {
      assert s.table[i] == e && e != hs.empty ==> IsSlot(hs, e, i);
    }
  }

  lemma FlagsKeepPlaced<E(!new)>(hs: Hasher<E>, s: Slots<E>, t: Slots<E>)
    requires s.Sized() && t.Sized() && s.table == t.table && Placed(hs, s)
    requires forall i | 0 <= i < |s.table| :: !t.free[i] ==> !s.free[i] || IsSlot(hs, s.table[i], i)
    ensures Placed(hs, t)
  {
  }

  // ---- the epoch size ----

  /** 45 * size / 100 in 32-bit arithmetic, at least 1. */
  function EpochSizeOf(size: nat): nat { Max(1, 45 * size % WORD / 100) }

  /** The epoch is 45% of the table, rounded down, exactly if that is at least one slot and the
      product fits 32 bits. */
  lemma EpochSizeExact(size: nat)
    requires 2 <= size < WORD
    ensures EpochSizeOf(size) == 45 * size / 100 <==> 3 <= size <= 95443717
  {
  }
}
