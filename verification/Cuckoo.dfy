/** The cuckoo cache: an open table with eight slots per element, a bit-packed set of slots that may
    be discarded, and two generations of entries. */
module Cuckoo {
  import opened Numbers
  import opened CuckooSpec

  /** 1 << k. */
  function Mask(k: nat): bv8
    requires k < 8
  {
    if k == 0 then 0x01 else if k == 1 then 0x02 else if k == 2 then 0x04 else if k == 3 then 0x08
    else if k == 4 then 0x10 else if k == 5 then 0x20 else if k == 6 then 0x40 else 0x80
  }

  predicate BitAt(m: bv8, k: nat)
    requires k < 8
  {
    (Mask(k) & m) != 0
  }

  lemma SetOneBit(m: bv8, j: nat, k: nat)
    requires j < 8 && k < 8
    ensures BitAt(m | Mask(j), k) <==> j == k || BitAt(m, k)
    ensures BitAt(0xFF, k)
  {
    if j == 0 {} else if j == 1 {} else if j == 2 {} else if j == 3 {}
    else if j == 4 {} else if j == 5 {} else if j == 6 {} else {}
    if k == 0 {} else if k == 1 {} else if k == 2 {} else if k == 3 {}
    else if k == 4 {} else if k == 5 {} else if k == 6 {} else {}
  }

  lemma ClearOneBit(m: bv8, j: nat, k: nat)
    requires j < 8 && k < 8
    ensures BitAt(m & !Mask(j), k) <==> j != k && BitAt(m, k)
  {
    var a, b := Mask(j), Mask(k);
    assert b & (m & !a) == (b & !a) & m;
    if j == k {
      assert b & !b == 0;
    } else {
      MasksDisjoint(j, k);
    }
  }

  lemma MasksDisjoint(j: nat, k: nat)
    requires j < 8 && k < 8 && j != k
    ensures Mask(k) & !Mask(j) == Mask(k)
  {
  }

  /** One bit per slot, packed eight to a byte; a set bit marks the slot as discardable. */
  class BitPackedFlags {
    const mem: array<bv8>
    ghost var bits: seq<bool>

    ghost predicate Valid()
      reads this, mem
    {
      && |bits| <= 8 * mem.Length
      && forall i | 0 <= i < |bits| :: BitOk(i)
    }

    ghost predicate BitOk(i: nat)
      requires i < |bits| <= 8 * mem.Length
      reads this, mem
    {
      bits[i] <==> BitAt(mem[i / 8], i % 8)
    }

    constructor (size: nat)
      ensures Valid() && fresh(mem) && |bits| == size && forall i | 0 <= i < size :: bits[i]
    {
      mem := new bv8[(size + 7) / 8](_ => 0xFF);
      bits := seq(size, _ => true);
      new;
      forall i | 0 <= i < size
        ensures BitOk(i)
      {
        SetOneBit(0, 0, i % 8);
      }
    }

    method BitSet(s: nat)
      requires Valid() && s < |bits|
      modifies this`bits, mem
      ensures Valid() && bits == old(bits)[s := true]
    {
      mem[s / 8] := mem[s / 8] | Mask(s % 8);
      bits := bits[s := true];
      forall i | 0 <= i < |bits|
        ensures BitOk(i)
      {
        assert old(BitOk(i));
        if i / 8 == s / 8 {
          SetOneBit(old(mem[s / 8]), s % 8, i % 8);
        }
      }
    }

    method BitUnset(s: nat)
      requires Valid() && s < |bits|
      modifies this`bits, mem
      ensures Valid() && bits == old(bits)[s := false]
    {
      mem[s / 8] := mem[s / 8] & !Mask(s % 8);
      bits := bits[s := false];
      forall i | 0 <= i < |bits|
        ensures BitOk(i)
      {
        assert old(BitOk(i));
        if i / 8 == s / 8 {
          ClearOneBit(old(mem[s / 8]), s % 8, i % 8);
        }
      }
    }

    method BitIsSet(s: nat) returns (b: bool)
      requires Valid() && s < |bits|
      ensures b == bits[s]
    {
      assert BitOk(s);
      b := (Mask(s % 8) & mem[s / 8]) != 0;
    }
  }

  class Cache<E(==, !new)> {
    const hasher: Hasher<E>
    const size: nat
    const collectionFlags: BitPackedFlags
    const epochSize: nat
    const depthLimit: nat
    var table: seq<E>
    var epochFlags: seq<bool>
    var epochHeuristicCounter: nat
    ghost var inserted: set<E>

    ghost function Now(): Slots<E>
      reads this, collectionFlags
    {
      Slots(table, collectionFlags.bits, epochFlags)
    }

    ghost predicate Shape()
      reads this, collectionFlags, collectionFlags.mem
    {
      && 2 <= size == hasher.size && InRange(hasher) && 1 <= depthLimit && 1 <= epochSize && collectionFlags.Valid()
      && |table| == |collectionFlags.bits| == |epochFlags| == size
    }

    /** Everything in the table is the default element or was inserted; elements are in their
        places; and the epoch is within its bound. */
    ghost predicate Valid()
      reads this, collectionFlags, collectionFlags.mem
    {
      && Shape() && Placed(hasher, Now())
      && EpochBound(Now(), epochHeuristicCounter, epochSize)
      && FromInserted(table)
    }

    ghost predicate FromInserted(t: seq<E>)
      reads this
    {
      forall i | 0 <= i < |t| :: t[i] == hasher.empty || t[i] in inserted
    }

    /** Creates the cache and sets it up for newSize elements, at least two. The depth limit is the
        rounded base-2 logarithm of the size, of which only that it is at least 1 matters here. */
    constructor (h: (E, nat) -> nat, empty: E, newSize: nat, depthLimit: nat)
      requires newSize < WORD && 1 <= depthLimit
      ensures Valid() && fresh(collectionFlags) && fresh(collectionFlags.mem)
      ensures hasher == SlotsByHash(h, Max(2, newSize), empty)
      ensures size == Max(2, newSize) && epochSize == EpochSizeOf(size) && inserted == {} && Kept(Now()) == {}
    {
      hasher, this.depthLimit := SlotsByHash(h, Max(2, newSize), empty), depthLimit;
      size := Max(2, newSize);
      collectionFlags := new BitPackedFlags(Max(2, newSize));
      table := seq(Max(2, newSize), _ => empty);
      epochFlags := seq(Max(2, newSize), _ => false);
      epochSize := EpochSizeOf(Max(2, newSize));
      epochHeuristicCounter := EpochSizeOf(Max(2, newSize));
      inserted := {};
      new;
      SlotsInRange(h, size, empty);
      NoneRecent(collectionFlags.bits, epochFlags, size);
    }

    method AllowErase(n: nat)
      requires Shape() && n < size
      modifies collectionFlags`bits, collectionFlags.mem
      ensures Shape() && collectionFlags.bits == old(collectionFlags.bits)[n := true]
    {
      collectionFlags.BitSet(n);
    }

    method PleaseKeep(n: nat)
      requires Shape() && n < size
      modifies collectionFlags`bits, collectionFlags.mem
      ensures Shape() && collectionFlags.bits == old(collectionFlags.bits)[n := false]
    {
      collectionFlags.BitUnset(n);
    }

    method EpochCheck()
      requires Shape()
      modifies this`epochFlags, this`epochHeuristicCounter, collectionFlags`bits, collectionFlags.mem
      ensures Shape()
              && (Now(), epochHeuristicCounter) == EpochChecked(old(Now()), old(epochHeuristicCounter), epochSize)
      ensures if old(Ages(Now(), epochHeuristicCounter, epochSize))
              then Kept(Now()) == old(KeptRecent(Now())) && KeptRecent(Now()) == {}
              else Kept(Now()) == old(Kept(Now())) && KeptRecent(Now()) == old(KeptRecent(Now()))
      ensures if old(epochHeuristicCounter) == 0 then epochHeuristicCounter >= Max(1, epochSize / 16)
              else epochHeuristicCounter == old(epochHeuristicCounter) - 1
    {
      EpochCheckKeeps(Now(), epochHeuristicCounter, epochSize);
      hide Kept; hide KeptRecent;
      if epochHeuristicCounter != 0 {
        epochHeuristicCounter := epochHeuristicCounter - 1;
        return;
      }
      var unused := 0;
      for i := 0 to size
        invariant Shape() && Now() == old(Now())
        invariant unused == Recent(collectionFlags.bits, epochFlags, i)
      {
        var discardable := collectionFlags.BitIsSet(i);
        if epochFlags[i] && !discardable {
          unused := unused + 1;
        }
      }
      if unused >= epochSize {
        Age();
        epochHeuristicCounter := epochSize;
      } else {
        epochHeuristicCounter := Max(1, Max(epochSize / 16, epochSize - unused));
      }
    }

    method Age()
      requires Shape()
      modifies this`epochFlags, collectionFlags`bits, collectionFlags.mem
      ensures Shape() && Now() == Aged(old(Now()))
    {
      ghost var was := Now();
      for i := 0 to size
        invariant Shape()
        invariant forall j | i <= j < size :: epochFlags[j] == was.epoch[j] && collectionFlags.bits[j] == was.free[j]
        invariant forall j | 0 <= j < i :: !epochFlags[j] && collectionFlags.bits[j] == (was.free[j] || !was.epoch[j])
      {
        if epochFlags[i] {
          epochFlags := epochFlags[i := false];
        } else {
          AllowErase(i);
        }
      }
    }

    method ComputeHashes(e: E) returns (locs: seq<nat>)
      requires Shape()
      ensures |locs| == WAYS && forall k | 0 <= k < WAYS :: locs[k] == hasher.loc(e, k)
    {
      locs := [];
      for k := 0 to WAYS
        invariant |locs| == k && forall j | 0 <= j < k :: locs[j] == hasher.loc(e, j)
      {
        locs := locs + [hasher.loc(e, k)];
      }
    }

    /** The first of the slots that holds e, or WAYS. */
    method FindElement(e: E, locs: seq<nat>) returns (k: nat)
      requires Shape() && |locs| == WAYS && forall j | 0 <= j < WAYS :: locs[j] < size
      ensures k <= WAYS && (k < WAYS ==> table[locs[k]] == e)
      ensures forall j | 0 <= j < k :: table[locs[j]] != e
    {
      k := 0;
      while k < WAYS && table[locs[k]] != e
        invariant k <= WAYS && forall j | 0 <= j < k :: table[locs[j]] != e
      {
        k := k + 1;
      }
    }

    /** The first of the slots that may be discarded, or WAYS. */
    method FindOpen(locs: seq<nat>) returns (k: nat)
      requires Shape() && |locs| == WAYS && forall j | 0 <= j < WAYS :: locs[j] < size
      ensures k <= WAYS && (k < WAYS ==> collectionFlags.bits[locs[k]])
      ensures forall j | 0 <= j < k :: !collectionFlags.bits[locs[j]]
    {
      k := 0;
      while k < WAYS
        invariant k <= WAYS && forall j | 0 <= j < k :: !collectionFlags.bits[locs[j]]
      {
        var open := collectionFlags.BitIsSet(locs[k]);
        if open {
          return;
        }
        k := k + 1;
      }
    }

    /** The slot to evict from: the one after the slot used last, wrapping around. A slot that is
        not among the eight counts as found at position 8, so the walk starts at position 1. */
    method NextSlot(locs: seq<nat>, lastLoc: nat) returns (k: nat)
      requires |locs| == WAYS
      ensures k < WAYS
      ensures lastLoc in locs ==> k > 0 ==> locs[k - 1] == lastLoc
      ensures lastLoc in locs && k == 0 ==> locs[WAYS - 1] == lastLoc
      ensures lastLoc !in locs ==> k == 1
    {
      var find := 0;
      while find < WAYS && locs[find] != lastLoc
        invariant find <= WAYS && forall j | 0 <= j < find :: locs[j] != lastLoc
      {
        find := find + 1;
      }
      k := (1 + find) % WAYS;
    }

    /** Puts an element into a slot. */
    method Store(i: nat, e: E, recent: bool)
      requires Shape() && i < size
      modifies this`table, this`epochFlags, collectionFlags`bits, collectionFlags.mem
      ensures Shape() && Now() == Put(old(Now()), i, e, recent)
    {
      table := table[i := e];
      PleaseKeep(i);
      epochFlags := epochFlags[i := recent];
    }

    /** Swaps the element in hand with the kept one of a slot. */
    method Swap(i: nat, e: E, recent: bool) returns (evicted: E, epoch: bool)
      requires Shape() && i < size && !collectionFlags.bits[i]
      requires Placed(hasher, Now()) && InHand(hasher, Now(), e) && IsSlot(hasher, e, i)
      modifies this`table, this`epochFlags
      ensures Shape() && Placed(hasher, Now()) && InHand(hasher, Now(), evicted)
      ensures Kept(Now()) + {evicted} == old(Kept(Now())) + {e}
      ensures CountOf(Now()) + Count(epoch) == old(CountOf(Now())) + Count(recent)
      ensures KeptRecent(Now()) + Only(evicted, epoch) == old(KeptRecent(Now())) + Only(e, recent)
      ensures evicted == old(table)[i] && table == old(table)[i := e]
    {
      ghost var was := Now();
      SwapOnKept(was, i, e, recent);
      PutKeepsPlaced(hasher, was, i, e, recent);
      evicted, epoch := table[i], epochFlags[i];
      table := table[i := e];
      epochFlags := epochFlags[i := recent];
      assert Now() == Put(was, i, e, recent);
    }

    /** Puts the element in hand over a slot that may be discarded. */
    method Fill(i: nat, e: E, recent: bool)
      requires Shape() && i < size && collectionFlags.bits[i]
      requires Placed(hasher, Now()) && InHand(hasher, Now(), e) && IsSlot(hasher, e, i)
      modifies this`table, this`epochFlags, collectionFlags`bits, collectionFlags.mem
      ensures Shape() && Placed(hasher, Now())
      ensures Kept(Now()) == old(Kept(Now())) + {e}
      ensures CountOf(Now()) == old(CountOf(Now())) + Count(recent)
      ensures KeptRecent(Now()) == old(KeptRecent(Now())) + Only(e, recent)
      ensures table == old(table)[i := e]
    {
      PutOnFree(Now(), i, e, recent);
      PutKeepsPlaced(hasher, Now(), i, e, recent);
      Store(i, e, recent);
    }

    /** Marks an element that is already in its place as wanted and recent. */
    method Renew(i: nat, e: E)
      requires Shape() && i < size && Placed(hasher, Now()) && table[i] == e && IsSlot(hasher, e, i)
      modifies this`table, this`epochFlags, collectionFlags`bits, collectionFlags.mem
      ensures Shape() && Placed(hasher, Now()) && table == old(table)
      ensures Kept(Now()) == old(Kept(Now())) + {e} && CountOf(Now()) <= old(CountOf(Now())) + 1
      ensures KeptRecent(Now()) == old(KeptRecent(Now())) + {e}
    {
      ghost var was := Now();
      KeepInPlace(was, i);
      Store(i, e, true);
      assert table == old(table);
      FlagsKeepPlaced(hasher, was, Now());
    }

    /** The state of the eviction chain: what was kept at its start and the element to insert are
        what is kept now and the element in hand. */
    ghost predicate Chain(start: Slots<E>, element: E, hand: E, recent: bool)
      reads this, collectionFlags, collectionFlags.mem
    {
      && Shape() && start.Sized() && Placed(hasher, Now()) && InHand(hasher, Now(), hand)
      && Kept(Now()) + {hand} == Kept(start) + {element}
      && KeptRecent(Now()) + Only(hand, recent) == KeptRecent(start) + {element}
      && CountOf(Now()) + Count(recent) <= CountOf(start) + 1
      && FromInserted(table) && (hand == hasher.empty || hand in inserted)
    }

    /** One round of the chain: the element in hand goes to a discardable slot if there is one, and
        else takes the place of another element. */
    method Round(ghost start: Slots<E>, ghost element: E, hand: E, recent: bool, lastLoc: nat)
      returns (done: bool, hand': E, recent': bool, lastLoc': nat)
      requires Chain(start, element, hand, recent)
      modifies this`table, this`epochFlags, collectionFlags`bits, collectionFlags.mem
      ensures done <==> old(HasRoom(hasher, Now(), hand))
      ensures !done ==> Chain(start, element, hand', recent')
      ensures done ==> Shape() && Placed(hasher, Now()) && FromInserted(table)
      ensures done ==> Kept(Now()) == Kept(start) + {element} && CountOf(Now()) <= CountOf(start) + 1
      ensures done ==> KeptRecent(Now()) == KeptRecent(start) + {element}
    {
      hide Kept; hide KeptRecent; hide Placed; hide CountOf; hide InHand;
      var locs := ComputeHashes(hand);
      var open := FindOpen(locs);
      hand', recent', lastLoc' := hand, recent, lastLoc;
      done := open < WAYS;
      if done {
        assert IsSlot(hasher, hand, locs[open]);
        Fill(locs[open], hand, recent);
      } else {
        var k := NextSlot(locs, lastLoc);
        lastLoc' := locs[k];
        assert IsSlot(hasher, hand, lastLoc');
        hand', recent' := Swap(lastLoc', hand, recent);
      }
    }

    /** The eviction chain for an element that is not in the table. */
    method Place(element: E) returns (ghost dropped: set<E>)
      requires Shape() && Placed(hasher, Now()) && InHand(hasher, Now(), element)
      requires FromInserted(table) && element in inserted
      modifies this`table, this`epochFlags, collectionFlags`bits, collectionFlags.mem
      ensures Shape() && Placed(hasher, Now()) && FromInserted(table)
      ensures Kept(Now()) + dropped == old(Kept(Now())) + {element} && |dropped| <= 1
      ensures KeptRecent(Now()) <= old(KeptRecent(Now())) + {element} <= KeptRecent(Now()) + dropped
      ensures CountOf(Now()) <= old(CountOf(Now())) + 1
      ensures old(HasRoom(hasher, Now(), element)) ==> dropped == {}
    {
      hide Kept; hide KeptRecent; hide Placed; hide CountOf; hide InHand; hide IsSlot;
      ghost var start := Now();
      var hand, recent := element, true;
      var lastLoc: nat := WORD - 1;
      for depth := 0 to depthLimit
        invariant Chain(start, element, hand, recent)
        invariant if depth == 0 then hand == element && Now() == start else !HasRoom(hasher, start, element)
      {
        var done;
        done, hand, recent, lastLoc := Round(start, element, hand, recent, lastLoc);
        if done {
          return {};
        }
      }
      dropped := {hand};
    }

    /** The insertion itself, once the epochs have been checked. */
    method InsertAged(element: E) returns (ghost dropped: set<E>)
      requires Shape() && Placed(hasher, Now()) && FromInserted(table) && element in inserted
      modifies this`table, this`epochFlags, collectionFlags`bits, collectionFlags.mem
      ensures Shape() && Placed(hasher, Now()) && FromInserted(table)
      ensures Kept(Now()) + dropped == old(Kept(Now())) + {element} && |dropped| <= 1
      ensures KeptRecent(Now()) <= old(KeptRecent(Now())) + {element} <= KeptRecent(Now()) + dropped
      ensures CountOf(Now()) <= old(CountOf(Now())) + 1
      ensures old(HasRoom(hasher, Now(), element)) || (element != hasher.empty && element in old(table)) ==>
                dropped == {}
    {
      var locs := ComputeHashes(element);
      var found := FindElement(element, locs);
      if found < WAYS {
        assert IsSlot(hasher, element, locs[found]);
        Renew(locs[found], element);
        dropped := {};
      } else {
        AbsentFromSlots(hasher, Now(), element);
        dropped := Place(element);
      }
    }

    /** Inserts an element. What is kept afterwards is what was kept and the element, minus at most
        one element, and minus none if the element was there or had a slot to go to. Only if the
        counter had run out and a whole epoch of entries was recent, the kept elements that were not
        recent go as well, and the others are recent no more. The element is recent then, and the
        bound on the epoch holds again. */
    method Insert(element: E) returns (ghost dropped: set<E>)
      requires Valid()
      modifies this, collectionFlags`bits, collectionFlags.mem
      ensures Valid() && inserted == old(inserted) + {element} && |dropped| <= 1
      ensures if old(epochHeuristicCounter == 0 && CountOf(Now()) >= epochSize)
              then
                && Kept(Now()) + dropped == old(KeptRecent(Now())) + {element}
                && KeptRecent(Now()) <= {element} <= KeptRecent(Now()) + dropped
              else
                && Kept(Now()) + dropped == old(Kept(Now())) + {element}
                && KeptRecent(Now()) <= old(KeptRecent(Now())) + {element} <= KeptRecent(Now()) + dropped
      ensures if old(epochHeuristicCounter) == 0 then epochHeuristicCounter >= Max(1, epochSize / 16)
              else epochHeuristicCounter == old(epochHeuristicCounter) - 1
      ensures var (aged, counter) := EpochChecked(old(Now()), old(epochHeuristicCounter), epochSize);
              && epochHeuristicCounter == counter
              && (HasRoom(hasher, aged, element) || (element != hasher.empty && element in aged.table) ==>
                    dropped == {})
    {
      EpochCheckLeavesRoom(Now(), epochHeuristicCounter, epochSize);
      hide Kept; hide KeptRecent; hide Placed; hide EpochChecked; hide CountOf;
      ghost var before := Now();
      EpochCheck();
      AgedPlaced(hasher, before, Now());
      inserted := inserted + {element};
      dropped := InsertAged(element);
    }

    /** Whether the element is in the table. For any element but the default one this says whether
        it was inserted and has not been overwritten since. */
    method Contains(e: E, erase: bool) returns (found: bool)
      requires Valid()
      modifies collectionFlags`bits, collectionFlags.mem
      ensures Valid() && (!erase ==> Now() == old(Now()))
      ensures e != hasher.empty ==> (found <==> e in table)
      ensures e != hasher.empty && found ==> e in inserted
      ensures erase && found && e != hasher.empty ==> Kept(Now()) == old(Kept(Now())) - {e}
      ensures !found ==> Now() == old(Now())
    {
      var locs := ComputeHashes(e);
      var k := FindElement(e, locs);
      found := k < WAYS;
      if found {
        if erase {
          ghost var was := Now();
          AllowErase(locs[k]);
          EraseEffect(hasher, was, locs[k]);
        }
      } else {
        AbsentFromSlots(hasher, Now(), e);
      }
    }
  }

  lemma AgedPlaced<E(!new)>(hs: Hasher<E>, before: Slots<E>, aged: Slots<E>)
    requires before.Sized() && Placed(hs, before) && aged.table == before.table && aged.Sized()
    requires aged == before || aged == Aged(before)
    ensures Placed(hs, aged)
  {
    FlagsKeepPlaced(hs, before, aged);
  }

  /** Allowing the erasure of one slot removes from what is kept exactly a non-default element. */
  lemma EraseEffect<E(!new)>(hs: Hasher<E>, s: Slots<E>, i: nat)
    requires s.Sized() && Placed(hs, s) && i < |s.table|
    ensures var t := s.(free := s.free[i := true]);
            && Placed(hs, t) && CountOf(t) <= CountOf(s)
            && (s.table[i] != hs.empty ==> Kept(t) == Kept(s) - {s.table[i]})
  {
    var t := s.(free := s.free[i := true]);
    FlagsKeepPlaced(hs, s, t);
    RecentUpdate(s.free, s.epoch, i, true, s.epoch[i], |s.free|);
    assert s.epoch[i := s.epoch[i]] == s.epoch;
    forall x | x in Kept(s) && x != s.table[i]
      ensures x in Kept(t)
    {
      var j :| 0 <= j < |s.table| && !s.free[j] && s.table[j] == x;
      assert t.table[j] == x && !t.free[j];
    }
  }
}
