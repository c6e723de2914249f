/** What becomes of one message of a headers download, from what the download has seen so far:
    exactly when the message is accepted, what it releases, and when the download goes on. */
module HeadersSyncOutcome {
  import opened HeadersSyncSpec
  import opened Seqs

  // ---- the first phase ----

  /** All that the first phase asks of the headers it has seen. */
  ghost predicate Admissible(p: Params, seen: seq<Header>) {
    Permitted(p, seen) && |CommitBits(p, seen)| <= p.maxCommitments
  }

  lemma {:induction false} AdmissiblePrefix(p: Params, all: seq<Header>, n: nat)
    requires Admissible(p, all) && n <= |all|
    ensures Admissible(p, all[..n])
  {
    CommitPrefix(p, all, n);
    hide CommitBits;
    forall i | 0 <= i < n
      ensures p.permitted(Before(p, all[..n], i).bits, all[..n][i].bits)
    {
      assert Before(p, all[..n], i) == Before(p, all, i) && all[..n][i] == all[i];
    }
  }

  /** One header: it obeys the difficulty rule, and its commitment bit, if any, finds room. */
  lemma {:induction false} PresyncTests(p: Params, s: Sync, h: Header, height: nat)
    requires s.phase == PRESYNC && height == s.height + 1 && |s.commitments| <= p.maxCommitments
    ensures Presync(p, s, h).0 <==>
              p.permitted(s.last.bits, h.bits) && |s.commitments + CommitBit(p, height, h)| <= p.maxCommitments
  {
  }

  lemma {:induction false} PresyncAccepts(p: Params, s: Sync, seen: seq<Header>, h: Header)
    requires Presynced(p, s, seen)
    ensures Presync(p, s, h).0 <==> Admissible(p, seen + [h])
  {
    hide CommitBits; hide CommitBit; hide Permitted; hide Work; hide Presync;
    PresyncTests(p, s, h, p.startHeight + |seen| + 1);
    CommitAppend(p, seen, h);
    PermittedAppend(p, seen, h);
  }

  lemma {:induction false} PresyncAllAccepts(p: Params, s: Sync, seen: seq<Header>, hs: seq<Header>)
    requires Presynced(p, s, seen)
    ensures PresyncAll(p, s, hs).0 <==> Admissible(p, seen + hs)
    decreases |hs|
  {
    if hs == [] {
      assert seen + hs == seen;
    } else {
      var more := seen + [hs[0]];
      Shift(seen, hs);
      PresyncAccepts(p, s, seen, hs[0]);
      if Presync(p, s, hs[0]).0 {
        PresyncKeeps(p, s, seen, hs[0]);
        PresyncAllAccepts(p, Presync(p, s, hs[0]).1, more, hs[1..]);
      } else {
        assert (seen + hs)[..|more|] == more;
        if Admissible(p, seen + hs) {
          AdmissiblePrefix(p, seen + hs, |more|);
        }
      }
    }
  }

  /** A message of the first phase fails exactly if its first header does not continue the last
      one seen, some header breaks the difficulty rule, or there are too many commitment heights. */
  lemma {:induction false} PresyncMessageAccepts(p: Params, s: Sync, t: History, m: Message)
    requires SyncInv(p, s, t) && s.phase == PRESYNC && m.headers != []
    ensures Process(p, s, m.headers, m.full).0.success <==>
              m.headers[0].prev == p.hash(Tip(p, t.presync)) && Admissible(p, t.presync + m.headers)
  {
    PresyncAllAccepts(p, s, t.presync, m.headers);
    hide Admissible; hide Permitted; hide CommitBits; hide Work;
  }

  // ---- the second phase ----

  /** As long as the work target is not reached, the commitment bits are those of the first phase. */
  ghost predicate Repeats(p: Params, presync: seq<Header>, all: seq<Header>) {
    forall n | 0 <= n <= |all| :: WorkReached(p, all[..n]) || CommitBits(p, all[..n]) <= CommitBits(p, presync)
  }

  lemma {:induction false} RepeatsPrefix(p: Params, presync: seq<Header>, all: seq<Header>, n: nat)
    requires Repeats(p, presync, all) && n <= |all|
    ensures Repeats(p, presync, all[..n])
  {
    hide WorkReached; hide CommitBits;
    forall k | 0 <= k <= n
      ensures WorkReached(p, all[..n][..k]) || CommitBits(p, all[..n][..k]) <= CommitBits(p, presync)
    {
      assert all[..n][..k] == all[..k];
    }
  }

  lemma {:induction false} RepeatsAppend(p: Params, presync: seq<Header>, all: seq<Header>, h: Header)
    requires Repeats(p, presync, all)
    ensures Repeats(p, presync, all + [h]) <==>
              WorkReached(p, all + [h]) || CommitBits(p, all + [h]) <= CommitBits(p, presync)
  {
    hide WorkReached; hide CommitBits;
    var more := all + [h];
    assert more[..|more|] == more;
    forall k | 0 <= k <= |all|
      ensures WorkReached(p, more[..k]) || CommitBits(p, more[..k]) <= CommitBits(p, presync)
    {
      assert more[..k] == all[..k];
    }
  }

  /** Prefixes of a sequence of bits, one bit on. */
  lemma {:induction false} NextBits(seen: seq<bool>, rest: seq<bool>, bits: seq<bool>, all: seq<bool>)
    requires seen + rest == all
    ensures seen + bits <= all <==> bits <= rest
  {
    assert rest == all[|seen|..];
    if seen + bits <= all {
      assert bits == (seen + bits)[|seen|..];
      assert forall i | 0 <= i < |bits| :: bits[i] == all[|seen| + i] == rest[i];
    }
    if bits <= rest {
      assert forall i | 0 <= i < |seen + bits| :: (seen + bits)[i] == all[i];
    }
  }

  /** One header: it connects, obeys the difficulty rule, and shows the bit that is due, if any. */
  lemma {:induction false} RedownloadTests(p: Params, s: Sync, h: Header, height: nat)
    requires s.phase == REDOWNLOAD && height == s.bufferLastHeight + 1
    ensures Redownload(p, s, h).0 <==>
              && h.prev == s.bufferLastHash && p.permitted(LastBits(p, s), h.bits)
              && (s.processAll || s.redownloadWork + p.proof(h.bits) >= p.minimumWork
                  || CommitBit(p, height, h) <= s.commitments)
  {
  }

  lemma {:induction false} WorkMonotone(p: Params, all: seq<Header>, h: Header)
    requires WorkReached(p, all)
    ensures WorkReached(p, all + [h])
  {
    WorkAppend(p, all, h);
  }

  lemma {:induction false} RedownloadAccepts(p: Params, s: Sync, presync: seq<Header>, accepted: seq<Header>,
                                             released: nat, h: Header)
    requires Window(p, s, presync, accepted, released) && (s.buffer == [] ==> accepted == [])
    requires Repeats(p, presync, accepted)
    ensures Redownload(p, s, h).0 <==> Chain(p, accepted + [h]) && Repeats(p, presync, accepted + [h])
  {
    hide Chain; hide Repeats; hide CommitBits; hide Work; hide Redownload; hide LastBits; hide CommitBit; hide Tip;
    LastBitsOfWindow(p, s, accepted, released);
    ChainAppend(p, accepted, h);
    RepeatsAppend(p, presync, accepted, h);
    RedownloadTests(p, s, h, p.startHeight + |accepted| + 1);
    WorkAppend(p, accepted, h);
    CommitAppend(p, accepted, h);
    if s.processAll {
      WorkMonotone(p, accepted, h);
    } else {
      NextBits(CommitBits(p, accepted), s.commitments, CommitBit(p, p.startHeight + |accepted| + 1, h),
               CommitBits(p, presync));
    }
  }

  lemma {:induction false} RedownloadAllAccepts(p: Params, s: Sync, presync: seq<Header>, accepted: seq<Header>,
                                                released: nat, hs: seq<Header>)
    requires Window(p, s, presync, accepted, released) && (s.buffer == [] ==> accepted == [])
    requires Repeats(p, presync, accepted)
    ensures RedownloadAll(p, s, hs).0 <==> Chain(p, accepted + hs) && Repeats(p, presync, accepted + hs)
    decreases |hs|
  {
    hide Window; hide Chain; hide Repeats; hide Redownload;
    if hs == [] {
      assert accepted + hs == accepted;
      assert Chain(p, accepted) by { WindowChain(p, s, presync, accepted, released); }
    } else {
      var more := accepted + [hs[0]];
      Shift(accepted, hs);
      RedownloadAccepts(p, s, presync, accepted, released, hs[0]);
      if Redownload(p, s, hs[0]).0 {
        RedownloadKeepsWindow(p, s, presync, accepted, released, hs[0]);
        RedownloadAllAccepts(p, Redownload(p, s, hs[0]).1, presync, more, released, hs[1..]);
      } else {
        assert (accepted + hs)[..|more|] == more;
        if Chain(p, accepted + hs) && Repeats(p, presync, accepted + hs) {
          ChainPrefix(p, accepted + hs, |more|);
          RepeatsPrefix(p, presync, accepted + hs, |more|);
        }
      }
    }
  }

  lemma {:induction false} WindowChain(p: Params, s: Sync, presync: seq<Header>, accepted: seq<Header>, released: nat)
    requires Window(p, s, presync, accepted, released)
    ensures Chain(p, accepted)
  {
  }

  lemma {:induction false} WindowRepeats(p: Params, s: Sync, presync: seq<Header>, accepted: seq<Header>, released: nat)
    requires Window(p, s, presync, accepted, released) && !s.processAll
    ensures Repeats(p, presync, accepted)
  {
    forall n | 0 <= n <= |accepted|
      ensures CommitBits(p, accepted[..n]) <= CommitBits(p, presync)
    {
      CommitPrefix(p, accepted, n);
    }
  }

  /** A message of the second phase is accepted exactly if it continues the accepted chain, within
      the difficulty rule, and repeats the commitment bits of the first phase up to the point where
      the work target is reached. */
  lemma {:induction false} RedownloadMessageAccepts(p: Params, s: Sync, t: History, m: Message)
    requires SyncInv(p, s, t) && s.phase == REDOWNLOAD && m.headers != []
    ensures Process(p, s, m.headers, m.full).0.success <==>
              Chain(p, t.accepted + m.headers) && Repeats(p, t.presync, t.accepted + m.headers)
  {
    WindowRepeats(p, s, t.presync, t.accepted, |t.released|);
    RedownloadAllAccepts(p, s, t.presync, t.accepted, |t.released|, m.headers);
    hide Window; hide Chain; hide Repeats; hide RedownloadAll; hide Pop; hide Guarded;
  }

  // ---- after a message ----

  /** Nothing comes of a message that is not accepted, and the download is over. */
  lemma FailureEnds(p: Params, s: Sync, m: Message)
    requires !Process(p, s, m.headers, m.full).0.success && m.headers != []
    ensures Process(p, s, m.headers, m.full).0 == Result([], false, false)
    ensures Process(p, s, m.headers, m.full).1.phase == FINAL
  {
  }

  /** An accepted message of the first phase: nothing is handed out; more is requested, and the
      download goes on, exactly if the message was full or the work target has been reached, and
      the second phase begins exactly in the latter case. */
  lemma {:induction false} PresyncOutcome(p: Params, s: Sync, t: History, m: Message)
    requires SyncInv(p, s, t) && s.phase == PRESYNC && Process(p, s, m.headers, m.full).0.success
    ensures var r, target := Process(p, s, m.headers, m.full),
                             p.startWork + Work(p, t.presync + m.headers) >= p.minimumWork;
            && r.0.headers == [] && (r.0.requestMore <==> m.full || target)
            && r.1.phase == (if target then REDOWNLOAD else if m.full then PRESYNC else FINAL)
  {
    PresyncAllKeeps(p, s, t.presync, m.headers);
    hide Permitted; hide CommitBits; hide Work; hide Presync; hide PresyncAll;
  }

  /** An accepted message of the second phase: with the work target reached, everything accepted
      has been handed out and the download is over. Otherwise all but the last
      REDOWNLOAD_BUFFER_SIZE accepted headers have been handed out, and more is requested, and the
      download goes on, exactly if the message was full. */
  lemma {:induction false} RedownloadOutcome(p: Params, s: Sync, t: History, m: Message)
    requires SyncInv(p, s, t) && s.phase == REDOWNLOAD && Process(p, s, m.headers, m.full).0.success
    ensures var r, all := Process(p, s, m.headers, m.full), t.accepted + m.headers;
            var released := t.released + r.0.headers;
            && (r.0.requestMore <==> m.full && !WorkReached(p, all))
            && r.1.phase == (if m.full && !WorkReached(p, all) then REDOWNLOAD else FINAL)
            && released <= all
            && |released| == (if WorkReached(p, all) then |all|
                              else if |all| > |t.released| + REDOWNLOAD_BUFFER_SIZE then |all| - REDOWNLOAD_BUFFER_SIZE
                              else |t.released|)
  {
    var r, all := RedownloadAll(p, s, m.headers), t.accepted + m.headers;
    RedownloadAllKeepsWindow(p, s, t.presync, t.accepted, |t.released|, m.headers);
    PopReleases(p, r.1, all, |t.released|);
    SliceJoin(all, |t.released|, ReleaseTarget(r.1, |all|, |t.released|));
    hide Chain; hide CommitBits; hide Work; hide RedownloadAll; hide Pop; hide Guarded;
    assert t.released == all[..|t.released|] by { ReleasedFirst(p, t, m.headers); }
  }

  lemma {:induction false} ReleasedFirst(p: Params, t: History, hs: seq<Header>)
    requires Guarded(p, t)
    ensures |t.released| <= |t.accepted + hs| && t.released == (t.accepted + hs)[..|t.released|]
  {
  }

  /** After an accepted message the download is over exactly if everything was handed out with the
      work target reached, or the message was not full and did not just reach the target in the
      first phase. In exactly the other cases more is requested. */
  lemma {:induction false} MessageOutcome(p: Params, s: Sync, t: History, m: Message)
    requires SyncInv(p, s, t) && Process(p, s, m.headers, m.full).0.success
    ensures var r, t' := Process(p, s, m.headers, m.full), Recorded(p, s, t, m);
            && (r.1.phase == FINAL <==>
                  || (WorkReached(p, t'.accepted) && t'.released == t'.accepted)
                  || (!m.full && !(s.phase == PRESYNC && r.1.phase == REDOWNLOAD)))
            && (r.0.requestMore <==> r.1.phase != FINAL)
  {
    if s.phase == PRESYNC {
      PresyncOutcome(p, s, t, m);
    } else {
      RedownloadOutcome(p, s, t, m);
    }
    hide Guarded; hide Presynced; hide Window; hide Work; hide Process;
    assert s.phase == PRESYNC ==> Recorded(p, s, t, m).accepted == [];
  }
}
