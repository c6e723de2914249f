/** The two-phase headers download as pure transitions, and what whole downloads guarantee. */
module HeadersSyncSpec {
  import opened Seqs

  type Hash = nat

  datatype Header = Header(height: int, version: int, mix: Hash, prev: Hash, merkle: Hash,
                           time: nat, bits: nat, nonce: nat)

  /** A header as it is buffered: without the hash of its predecessor. */
  datatype Compressed = Compressed(height: int, version: int, mix: Hash, merkle: Hash,
                                   time: nat, bits: nat, nonce: nat)
  {
    function GetFullHeader(prev: Hash): Header {
      Header(height, version, mix, prev, merkle, time, bits, nonce)
    }
  }

  function Compress(h: Header): Compressed {
    Compressed(h.height, h.version, h.mix, h.merkle, h.time, h.bits, h.nonce)
  }

  const HEADER_COMMITMENT_PERIOD := 606
  const REDOWNLOAD_BUFFER_SIZE := 14441

  /** What is fixed for one download: the block hash, the salted commitment bit, the difficulty
      rule, the work of a header, the block the download starts from, and the limits. */
  datatype Params = Params(
    hash: Header -> Hash, commit: Hash -> bool, permitted: (nat, nat) -> bool, proof: nat -> nat,
    start: Header, startHeight: nat, startWork: nat,
    minimumWork: nat, offset: nat, maxCommitments: nat)

  datatype Phase = PRESYNC | REDOWNLOAD | FINAL

  datatype Sync = Sync(
    phase: Phase,
    work: nat, commitments: seq<bool>, last: Header, height: int,
    buffer: seq<Compressed>, bufferLastHeight: int, bufferLastHash: Hash, bufferFirstPrev: Hash,
    redownloadWork: nat, processAll: bool)

  const NULL_HASH: Hash := 0
  const NULL_HEADER := Header(0, 0, NULL_HASH, NULL_HASH, NULL_HASH, 0, 0, 0)

  function Initial(p: Params): Sync {
    Sync(PRESYNC, p.startWork, [], p.start, p.startHeight, [], 0, NULL_HASH, NULL_HASH, 0, false)
  }

  function Finalized(s: Sync): Sync {
    s.(phase := FINAL, commitments := [], last := NULL_HEADER, buffer := [],
       bufferLastHash := NULL_HASH, bufferFirstPrev := NULL_HASH, processAll := false, height := 0)
  }

  // ---- one header ----

  predicate IsCommitHeight(p: Params, height: int) { height % HEADER_COMMITMENT_PERIOD == p.offset }

  /** A header received in the first phase: whether it is accepted, and the state it leaves. */
  function Presync(p: Params, s: Sync, h: Header): (bool, Sync) {
    if s.phase != PRESYNC || !p.permitted(s.last.bits, h.bits) then (false, s)
    else
      var c := if IsCommitHeight(p, s.height + 1) then s.commitments + [p.commit(p.hash(h))] else s.commitments;
      if IsCommitHeight(p, s.height + 1) && |c| > p.maxCommitments then (false, s.(commitments := c))
      else (true, s.(commitments := c, work := s.work + p.proof(h.bits), last := h, height := s.height + 1))
  }

  function PresyncAll(p: Params, s: Sync, hs: seq<Header>): (bool, Sync)
    decreases |hs|
  {
    if hs == [] then (true, s)
    else
      var r := Presync(p, s, hs[0]);
      if !r.0 then r else PresyncAll(p, r.1, hs[1..])
  }

  function Transition(p: Params, s: Sync): Sync {
    if s.work < p.minimumWork then s
    else s.(phase := REDOWNLOAD, buffer := [], bufferLastHeight := p.startHeight,
            bufferFirstPrev := p.hash(p.start), bufferLastHash := p.hash(p.start),
            redownloadWork := p.startWork)
  }

  /** A batch received in the first phase. */
  function StoreCommitments(p: Params, s: Sync, hs: seq<Header>): (bool, Sync) {
    if hs == [] then (true, s)
    else if s.phase != PRESYNC || hs[0].prev != p.hash(s.last) then (false, s)
    else
      var r := PresyncAll(p, s, hs);
      if !r.0 then r else (true, Transition(p, r.1))
  }

  /** The difficulty that the next redownloaded header is compared with. */
  function LastBits(p: Params, s: Sync): nat {
    if s.buffer != [] then s.buffer[|s.buffer| - 1].bits else p.start.bits
  }

  /** A header received in the second phase. */
  function Redownload(p: Params, s: Sync, h: Header): (bool, Sync) {
    if s.phase != REDOWNLOAD || h.prev != s.bufferLastHash || !p.permitted(LastBits(p, s), h.bits) then (false, s)
    else
      var w := s.redownloadWork + p.proof(h.bits);
      var s1 := s.(redownloadWork := w, processAll := s.processAll || w >= p.minimumWork);
      var s2 := s1.(buffer := s.buffer + [Compress(h)], bufferLastHeight := s.bufferLastHeight + 1,
                    bufferLastHash := p.hash(h));
      if s1.processAll || !IsCommitHeight(p, s.bufferLastHeight + 1) then (true, s2)
      else if s.commitments == [] then (false, s1)
      else if p.commit(p.hash(h)) != s.commitments[0] then (false, s1.(commitments := s.commitments[1..]))
      else (true, s2.(commitments := s.commitments[1..]))
  }

  function RedownloadAll(p: Params, s: Sync, hs: seq<Header>): (bool, Sync)
    decreases |hs|
  {
    if hs == [] then (true, s)
    else
      var r := Redownload(p, s, hs[0]);
      if !r.0 then r else RedownloadAll(p, r.1, hs[1..])
  }

  /** The headers that leave the buffer, rebuilt, and the state that remains. */
  function Pop(p: Params, s: Sync): (seq<Header>, Sync)
    decreases |s.buffer|
  {
    if s.phase == REDOWNLOAD && (|s.buffer| > REDOWNLOAD_BUFFER_SIZE || (|s.buffer| > 0 && s.processAll)) then
      var h := s.buffer[0].GetFullHeader(s.bufferFirstPrev);
      var r := Pop(p, s.(buffer := s.buffer[1..], bufferFirstPrev := p.hash(h)));
      ([h] + r.0, r.1)
    else ([], s)
  }

  // ---- one message ----

  datatype Result = Result(headers: seq<Header>, success: bool, requestMore: bool)

  function Process(p: Params, s: Sync, hs: seq<Header>, full: bool): (Result, Sync) {
    if hs == [] || s.phase == FINAL then (Result([], false, false), s)
    else
      var r := if s.phase == PRESYNC then ProcessPresync(p, s, hs, full) else ProcessRedownload(p, s, hs, full);
      (r.0, if r.0.success && r.0.requestMore then r.1 else Finalized(r.1))
  }

  function ProcessPresync(p: Params, s: Sync, hs: seq<Header>, full: bool): (Result, Sync) {
    var r := StoreCommitments(p, s, hs);
    (Result([], r.0, r.0 && (full || r.1.phase == REDOWNLOAD)), r.1)
  }

  function ProcessRedownload(p: Params, s: Sync, hs: seq<Header>, full: bool): (Result, Sync) {
    var r := RedownloadAll(p, s, hs);
    if !r.0 then (Result([], false, false), r.1)
    else
      var q := Pop(p, r.1);
      (Result(q.0, true, !(q.1.buffer == [] && q.1.processAll) && full), q.1)
  }

  lemma {:induction false} PresyncAllPhase(p: Params, s: Sync, hs: seq<Header>)
    ensures PresyncAll(p, s, hs).1.phase == s.phase
    decreases |hs|
  {
    if hs != [] && Presync(p, s, hs[0]).0 {
      PresyncAllPhase(p, Presync(p, s, hs[0]).1, hs[1..]);
    }
  }

  lemma {:induction false} RedownloadAllPhase(p: Params, s: Sync, hs: seq<Header>)
    ensures RedownloadAll(p, s, hs).1.phase == s.phase
    decreases |hs|
  {
    if hs != [] && Redownload(p, s, hs[0]).0 {
      RedownloadAllPhase(p, Redownload(p, s, hs[0]).1, hs[1..]);
    }
  }

  lemma {:induction false} PopPhase(p: Params, s: Sync)
    ensures Pop(p, s).1.phase == s.phase
    decreases |s.buffer|
  {
    if s.phase == REDOWNLOAD && (|s.buffer| > REDOWNLOAD_BUFFER_SIZE || (|s.buffer| > 0 && s.processAll)) {
      var h := s.buffer[0].GetFullHeader(s.bufferFirstPrev);
      PopPhase(p, s.(buffer := s.buffer[1..], bufferFirstPrev := p.hash(h)));
    }
  }

  /** More is requested exactly as long as the download goes on, and what the first phase leads to
      depends on the work seen and on whether the message was full. */
  lemma {:induction false} ProcessPhase(p: Params, s: Sync, hs: seq<Header>, full: bool)
    ensures var r := Process(p, s, hs, full);
            && (hs != [] && s.phase != FINAL ==> (r.0.requestMore <==> r.1.phase != FINAL))
            && (r.0.success && s.phase == PRESYNC ==>
                  r.1.phase == if r.1.work >= p.minimumWork then REDOWNLOAD else if full then PRESYNC else FINAL)
  {
    PresyncAllPhase(p, s, hs);
    RedownloadAllPhase(p, s, hs);
    PopPhase(p, RedownloadAll(p, s, hs).1);
    hide PresyncAll; hide RedownloadAll; hide Pop;
  }

  // ---- chains of headers, their work and their commitment bits ----

  /** The header before position i of a sequence that continues the starting block. */
  function Before(p: Params, hs: seq<Header>, i: nat): Header
    requires i <= |hs|
  {
    if i == 0 then p.start else hs[i - 1]
  }

  function Tip(p: Params, hs: seq<Header>): Header { Before(p, hs, |hs|) }

  predicate Follows(p: Params, a: Header, b: Header) {
    b.prev == p.hash(a) && p.permitted(a.bits, b.bits)
  }

  /** Hash-linked from the starting block, and every step within the difficulty rule. */
  predicate Chain(p: Params, hs: seq<Header>) {
    forall i | 0 <= i < |hs| :: Follows(p, Before(p, hs, i), hs[i])
  }

  lemma {:induction false} ChainAppend(p: Params, hs: seq<Header>, h: Header)
    requires Chain(p, hs)
    ensures Chain(p, hs + [h]) <==> Follows(p, Tip(p, hs), h)
  {
    var all := hs + [h];
    assert Before(p, all, |hs|) == Tip(p, hs);
    forall i | 0 <= i < |hs|
      ensures Follows(p, Before(p, all, i), all[i])
    {
      assert Before(p, all, i) == Before(p, hs, i);
    }
    assert Follows(p, Before(p, all, |hs|), all[|hs|]) <==> Follows(p, Tip(p, hs), h);
  }

  /** Every step within the difficulty rule. */
  predicate Permitted(p: Params, hs: seq<Header>) {
    forall i | 0 <= i < |hs| :: p.permitted(Before(p, hs, i).bits, hs[i].bits)
  }

  lemma {:induction false} PermittedAppend(p: Params, hs: seq<Header>, h: Header)
    requires Permitted(p, hs)
    ensures Permitted(p, hs + [h]) <==> p.permitted(Tip(p, hs).bits, h.bits)
  {
    var all := hs + [h];
    assert Before(p, all, |hs|) == Tip(p, hs) && all[|hs|] == h;
    forall i | 0 <= i < |hs|
      ensures p.permitted(Before(p, all, i).bits, all[i].bits)
    {
      assert Before(p, all, i) == Before(p, hs, i) && all[i] == hs[i];
    }
  }

  function Work(p: Params, hs: seq<Header>): nat {
    if hs == [] then 0 else Work(p, hs[..|hs| - 1]) + p.proof(hs[|hs| - 1].bits)
  }

  lemma {:induction false} WorkAppend(p: Params, hs: seq<Header>, h: Header)
    ensures Work(p, hs + [h]) == Work(p, hs) + p.proof(h.bits)
  {
    assert (hs + [h])[..|hs|] == hs;
  }

  predicate WorkReached(p: Params, hs: seq<Header>) {
    hs != [] && p.startWork + Work(p, hs) >= p.minimumWork
  }

  /** The commitment bits of the headers that continue the starting block. */
  function CommitBits(p: Params, hs: seq<Header>): seq<bool> {
    if hs == [] then []
    else CommitBits(p, hs[..|hs| - 1]) + CommitBit(p, p.startHeight + |hs|, hs[|hs| - 1])
  }

  function CommitBit(p: Params, height: nat, h: Header): seq<bool> {
    if IsCommitHeight(p, height) then [p.commit(p.hash(h))] else []
  }

  lemma {:induction false} CommitAppend(p: Params, hs: seq<Header>, h: Header)
    ensures CommitBits(p, hs + [h]) == CommitBits(p, hs) + CommitBit(p, p.startHeight + |hs| + 1, h)
  {
    assert (hs + [h])[..|hs|] == hs;
  }

  lemma {:induction false} CommitPrefix(p: Params, hs: seq<Header>, n: nat)
    requires n <= |hs|
    ensures CommitBits(p, hs[..n]) <= CommitBits(p, hs)
    decreases |hs|
  {
    if n < |hs| {
      CommitPrefix(p, hs[..|hs| - 1], n);
      assert hs[..|hs| - 1][..n] == hs[..n];
    } else {
      assert hs[..n] == hs;
    }
  }

  // ---- the second phase keeps a window on the accepted headers ----

  /** The buffer is the part of `accepted` from `released` on, without the previous hashes. */
  ghost predicate Buffered(p: Params, s: Sync, accepted: seq<Header>, released: nat) {
    && released <= |accepted|
    && |s.buffer| == |accepted| - released
    && (forall i | 0 <= i < |s.buffer| :: s.buffer[i] == Compress(accepted[released + i]))
    && s.bufferFirstPrev == p.hash(Before(p, accepted, released))
    && s.bufferLastHash == p.hash(Tip(p, accepted))
    && s.bufferLastHeight == p.startHeight + |accepted|
  }

  ghost predicate Measured(p: Params, s: Sync, accepted: seq<Header>) {
    && s.redownloadWork == p.startWork + Work(p, accepted)
    && (s.processAll <==> WorkReached(p, accepted))
  }

  /** Up to the work target, the bits seen again and those still expected are those of the first phase. */
  ghost predicate Committed(p: Params, s: Sync, presync: seq<Header>, accepted: seq<Header>) {
    !s.processAll ==> CommitBits(p, accepted) + s.commitments == CommitBits(p, presync)
  }

  /** In the second phase: `accepted` were taken in so far, the first `released` of them handed out,
      and `presync` is what the first phase saw. */
  ghost predicate Window(p: Params, s: Sync, presync: seq<Header>, accepted: seq<Header>, released: nat) {
    && s.phase == REDOWNLOAD && Chain(p, accepted)
    && Buffered(p, s, accepted, released) && Measured(p, s, accepted) && Committed(p, s, presync, accepted)
  }

  lemma {:induction false} RedownloadMeasures(p: Params, s: Sync, accepted: seq<Header>, h: Header)
    requires Measured(p, s, accepted) && Redownload(p, s, h).0
    ensures Measured(p, Redownload(p, s, h).1, accepted + [h])
  {
    WorkAppend(p, accepted, h);
  }

  lemma {:induction false} RedownloadCommits(p: Params, s: Sync, presync: seq<Header>, accepted: seq<Header>, h: Header)
    requires Committed(p, s, presync, accepted) && s.bufferLastHeight == p.startHeight + |accepted|
    requires Redownload(p, s, h).0
    ensures Committed(p, Redownload(p, s, h).1, presync, accepted + [h])
  {
    var s' := Redownload(p, s, h).1;
    if !s'.processAll {
      CommitAppend(p, accepted, h);
      var seen, bit := CommitBits(p, accepted), CommitBit(p, p.startHeight + |accepted| + 1, h);
      assert s.commitments == bit + s'.commitments;
      Assoc(seen, bit, s'.commitments);
    }
  }

  lemma {:induction false} RedownloadBuffers(p: Params, s: Sync, accepted: seq<Header>, released: nat, h: Header)
    requires Buffered(p, s, accepted, released) && Redownload(p, s, h).0
    ensures Buffered(p, Redownload(p, s, h).1, accepted + [h], released)
    ensures Redownload(p, s, h).1.buffer != [] && Redownload(p, s, h).1.phase == REDOWNLOAD
  {
    var all := accepted + [h];
    assert Tip(p, all) == h;
    assert Before(p, all, released) == Before(p, accepted, released);
  }

  lemma {:induction false} LastBitsOfWindow(p: Params, s: Sync, accepted: seq<Header>, released: nat)
    requires Buffered(p, s, accepted, released) && (s.buffer == [] ==> accepted == [])
    ensures LastBits(p, s) == Tip(p, accepted).bits
  {
    if s.buffer != [] {
      assert s.buffer[|s.buffer| - 1] == Compress(accepted[released + |s.buffer| - 1]);
    }
  }

  lemma {:induction false} RedownloadKeepsWindow(p: Params, s: Sync, presync: seq<Header>, accepted: seq<Header>,
                                                 released: nat, h: Header)
    requires Window(p, s, presync, accepted, released) && (s.buffer == [] ==> accepted == [])
    requires Redownload(p, s, h).0
    ensures Window(p, Redownload(p, s, h).1, presync, accepted + [h], released)
    ensures Redownload(p, s, h).1.buffer != []
  {
    LastBitsOfWindow(p, s, accepted, released);
    ChainAppend(p, accepted, h);
    RedownloadMeasures(p, s, accepted, h);
    RedownloadCommits(p, s, presync, accepted, h);
    RedownloadBuffers(p, s, accepted, released, h);
  }

  lemma {:induction false} RedownloadAllKeepsWindow(p: Params, s: Sync, presync: seq<Header>, accepted: seq<Header>,
                                                    released: nat, hs: seq<Header>)
    requires Window(p, s, presync, accepted, released) && (s.buffer == [] ==> accepted == [])
    requires RedownloadAll(p, s, hs).0
    ensures Window(p, RedownloadAll(p, s, hs).1, presync, accepted + hs, released)
    ensures hs != [] || s.buffer != [] ==> RedownloadAll(p, s, hs).1.buffer != []
    decreases |hs|
  {
    if hs == [] {
      assert accepted + hs == accepted;
    } else {
      var s', more := Redownload(p, s, hs[0]).1, accepted + [hs[0]];
      RedownloadKeepsWindow(p, s, presync, accepted, released, hs[0]);
      RedownloadAllKeepsWindow(p, s', presync, more, released, hs[1..]);
      Shift(accepted, hs);
    }
  }

  /** How many accepted headers have been handed out after a release. */
  function ReleaseTarget(s: Sync, accepted: nat, released: nat): nat {
    if s.processAll then accepted
    else if accepted > released + REDOWNLOAD_BUFFER_SIZE then accepted - REDOWNLOAD_BUFFER_SIZE
    else released
  }

  lemma {:induction false} PopOne(p: Params, s: Sync, accepted: seq<Header>, released: nat)
    requires Buffered(p, s, accepted, released) && Chain(p, accepted) && s.buffer != []
    ensures s.buffer[0].GetFullHeader(s.bufferFirstPrev) == accepted[released]
    ensures Buffered(p, s.(buffer := s.buffer[1..], bufferFirstPrev := p.hash(accepted[released])),
                     accepted, released + 1)
  {
    assert Follows(p, Before(p, accepted, released), accepted[released]);
    assert s.buffer[0] == Compress(accepted[released]);
  }

  /** What a release hands out is exactly the next piece of the accepted chain, previous hashes
      and all, and nothing but the buffer changes. */
  lemma {:induction false} PopReleases(p: Params, s: Sync, accepted: seq<Header>, released: nat)
    requires s.phase == REDOWNLOAD && Buffered(p, s, accepted, released) && Chain(p, accepted)
    ensures var target, s' := ReleaseTarget(s, |accepted|, released), Pop(p, s).1;
            && released <= target <= |accepted|
            && Pop(p, s).0 == accepted[released..target]
            && Buffered(p, s', accepted, target)
            && s' == s.(buffer := s'.buffer, bufferFirstPrev := s'.bufferFirstPrev)
    decreases |accepted| - released
  {
    var target := ReleaseTarget(s, |accepted|, released);
    if |s.buffer| > REDOWNLOAD_BUFFER_SIZE || (|s.buffer| > 0 && s.processAll) {
      PopOne(p, s, accepted, released);
      var s1 := s.(buffer := s.buffer[1..], bufferFirstPrev := p.hash(accepted[released]));
      PopReleases(p, s1, accepted, released + 1);
      assert ReleaseTarget(s1, |accepted|, released + 1) == target;
      SliceFirst(accepted, released, target);
    } else {
      assert accepted[released..target] == [];
    }
  }

  // ---- whole downloads ----

  datatype Message = Message(headers: seq<Header>, full: bool)

  /** What happened in a download, phase by phase: the headers the first phase saw, those the
      second accepted, and those handed out; and where in the first phase the messages started. */
  datatype History = History(presync: seq<Header>, accepted: seq<Header>, released: seq<Header>, starts: set<nat>)

  const NO_HISTORY := History([], [], [], {})

  /** The first header of every message continues the header before it. */
  predicate Connected(p: Params, hs: seq<Header>, starts: set<nat>) {
    forall k | k in starts :: k < |hs| && hs[k].prev == p.hash(Before(p, hs, k))
  }

  /** The first phase saw only steps within the difficulty rule, in messages that connect, and no
      more commitment heights than allowed. */
  ghost predicate Vetted(p: Params, t: History) {
    && Permitted(p, t.presync) && Connected(p, t.presync, t.starts)
    && |CommitBits(p, t.presync)| <= p.maxCommitments
  }

  /** The headers handed out start the accepted chain, and they either carry enough work or lie at
      least REDOWNLOAD_BUFFER_SIZE accepted headers deep, with every commitment bit as in the first
      phase. */
  ghost predicate Backed(p: Params, t: History) {
    && Chain(p, t.accepted) && t.released <= t.accepted
    && (t.released == [] || WorkReached(p, t.accepted)
        || (&& |t.released| + REDOWNLOAD_BUFFER_SIZE <= |t.accepted|
            && CommitBits(p, t.accepted) <= CommitBits(p, t.presync)))
  }

  /** What holds of the history of a download at any time, however it ends. */
  ghost predicate Guarded(p: Params, t: History) { Vetted(p, t) && Backed(p, t) }

  ghost predicate Presynced(p: Params, s: Sync, seen: seq<Header>) {
    && s.phase == PRESYNC && s.buffer == [] && !s.processAll
    && s.last == Tip(p, seen) && s.height == p.startHeight + |seen|
    && s.work == p.startWork + Work(p, seen) && s.commitments == CommitBits(p, seen)
    && Permitted(p, seen) && |s.commitments| <= p.maxCommitments
  }

  ghost predicate SyncInv(p: Params, s: Sync, t: History) {
    && Guarded(p, t) && |s.commitments| <= p.maxCommitments
    && match s.phase
       case PRESYNC => Presynced(p, s, t.presync) && t.accepted == [] && t.released == []
       case REDOWNLOAD =>
         && Window(p, s, t.presync, t.accepted, |t.released|)
         && !s.processAll && (s.buffer == [] ==> t.accepted == [])
       case FINAL => true
  }

  function Recorded(p: Params, s: Sync, t: History, m: Message): History {
    if m.headers == [] || s.phase == FINAL || !Process(p, s, m.headers, m.full).0.success then t
    else if s.phase == PRESYNC then t.(presync := t.presync + m.headers, starts := t.starts + {|t.presync|})
    else t.(accepted := t.accepted + m.headers, released := t.released + Process(p, s, m.headers, m.full).0.headers)
  }

  lemma {:induction false} PresyncKeeps(p: Params, s: Sync, seen: seq<Header>, h: Header)
    requires Presynced(p, s, seen) && Presync(p, s, h).0
    ensures Presynced(p, Presync(p, s, h).1, seen + [h])
  {
    WorkAppend(p, seen, h);
    CommitAppend(p, seen, h);
    PermittedAppend(p, seen, h);
    hide Work; hide CommitBits; hide Permitted;
  }

  lemma {:induction false} PresyncAllKeeps(p: Params, s: Sync, seen: seq<Header>, hs: seq<Header>)
    requires Presynced(p, s, seen) && PresyncAll(p, s, hs).0
    ensures Presynced(p, PresyncAll(p, s, hs).1, seen + hs)
    decreases |hs|
  {
    if hs == [] {
      assert seen + hs == seen;
    } else {
      PresyncKeeps(p, s, seen, hs[0]);
      PresyncAllKeeps(p, Presync(p, s, hs[0]).1, seen + [hs[0]], hs[1..]);
      Shift(seen, hs);
    }
  }

  lemma {:induction false} TransitionKeeps(p: Params, s: Sync, seen: seq<Header>)
    requires Presynced(p, s, seen)
    ensures s.work < p.minimumWork ==> Presynced(p, Transition(p, s), seen)
    ensures s.work >= p.minimumWork ==> Window(p, Transition(p, s), seen, [], 0) && !Transition(p, s).processAll
  {
  }

  lemma {:induction false} ConnectedAppend(p: Params, seen: seq<Header>, starts: set<nat>, hs: seq<Header>)
    requires Connected(p, seen, starts) && hs != []
    ensures Connected(p, seen + hs, starts + {|seen|}) <==> hs[0].prev == p.hash(Tip(p, seen))
  {
    var all := seen + hs;
    assert Before(p, all, |seen|) == Tip(p, seen) && all[|seen|] == hs[0];
    assert |seen| in starts + {|seen|};
    forall k | k in starts
      ensures k < |all| && all[k].prev == p.hash(Before(p, all, k))
    {
      assert Before(p, all, k) == Before(p, seen, k) && all[k] == seen[k];
    }
  }

  lemma {:induction false} PresyncMessage(p: Params, s: Sync, t: History, m: Message)
    requires SyncInv(p, s, t) && s.phase == PRESYNC && m.headers != []
    ensures SyncInv(p, Process(p, s, m.headers, m.full).1, Recorded(p, s, t, m))
  {
    if StoreCommitments(p, s, m.headers).0 {
      PresyncAllKeeps(p, s, t.presync, m.headers);
      ConnectedAppend(p, t.presync, t.starts, m.headers);
      TransitionKeeps(p, PresyncAll(p, s, m.headers).1, t.presync + m.headers);
    }
  }

  lemma {:induction false} ReleaseKeeps(p: Params, s: Sync, t: History, accepted: seq<Header>)
    requires Window(p, s, t.presync, accepted, |t.released|) && t.released <= accepted
    requires t.released == [] || |t.released| + REDOWNLOAD_BUFFER_SIZE <= |accepted|
    ensures var s', t' := Pop(p, s).1, t.(accepted := accepted, released := t.released + Pop(p, s).0);
            && Window(p, s', t.presync, accepted, |t'.released|)
            && s'.processAll == s.processAll && (s'.processAll ==> s'.buffer == [])
            && Backed(p, t')
            && (s.buffer != [] && !s.processAll ==> s'.buffer != [])
  {
    hide CommitBits; hide Chain; hide Work; hide Pop;
    PopReleases(p, s, accepted, |t.released|);
    var target := ReleaseTarget(s, |accepted|, |t.released|);
    assert t.released == accepted[..|t.released|];
    SliceJoin(accepted, |t.released|, target);
  }

  lemma {:induction false} RedownloadMessage(p: Params, s: Sync, t: History, m: Message)
    requires SyncInv(p, s, t) && s.phase == REDOWNLOAD && m.headers != []
    ensures SyncInv(p, Process(p, s, m.headers, m.full).1, Recorded(p, s, t, m))
  {
    var r := RedownloadAll(p, s, m.headers);
    if r.0 {
      RedownloadAllKeepsWindow(p, s, t.presync, t.accepted, |t.released|, m.headers);
      ReleaseKeeps(p, r.1, t, t.accepted + m.headers);
    }
  }

  lemma {:induction false} MessageKeepsInv(p: Params, s: Sync, t: History, m: Message)
    requires SyncInv(p, s, t)
    ensures SyncInv(p, Process(p, s, m.headers, m.full).1, Recorded(p, s, t, m))
  {
    if m.headers != [] {
      match s.phase
      case PRESYNC => PresyncMessage(p, s, t, m);
      case REDOWNLOAD => RedownloadMessage(p, s, t, m);
      case FINAL =>
    }
  }

  /** A download: its messages in order. */
  function StateAfter(p: Params, s: Sync, ms: seq<Message>): Sync
    decreases |ms|
  {
    if ms == [] then s else StateAfter(p, Process(p, s, ms[0].headers, ms[0].full).1, ms[1..])
  }

  /** Everything that a download hands out, in order. */
  function Output(p: Params, s: Sync, ms: seq<Message>): seq<Header>
    decreases |ms|
  {
    if ms == [] then []
    else
      var r := Process(p, s, ms[0].headers, ms[0].full);
      r.0.headers + Output(p, r.1, ms[1..])
  }

  function HistoryAfter(p: Params, s: Sync, t: History, ms: seq<Message>): History
    decreases |ms|
  {
    if ms == [] then t
    else HistoryAfter(p, Process(p, s, ms[0].headers, ms[0].full).1, Recorded(p, s, t, ms[0]), ms[1..])
  }

  lemma {:induction false} FailureReleasesNothing(p: Params, s: Sync, t: History, m: Message)
    ensures Recorded(p, s, t, m).released == t.released + Process(p, s, m.headers, m.full).0.headers
  {
    assert t.released + [] == t.released;
  }

  lemma {:induction false} DownloadInv(p: Params, s: Sync, t: History, ms: seq<Message>)
    requires SyncInv(p, s, t)
    ensures SyncInv(p, StateAfter(p, s, ms), HistoryAfter(p, s, t, ms))
    decreases |ms|
  {
    if ms != [] {
      var s', t' := Process(p, s, ms[0].headers, ms[0].full).1, Recorded(p, s, t, ms[0]);
      MessageKeepsInv(p, s, t, ms[0]);
      DownloadInv(p, s', t', ms[1..]);
    }
  }

  lemma {:induction false} DownloadOutput(p: Params, s: Sync, t: History, ms: seq<Message>)
    ensures HistoryAfter(p, s, t, ms).released == t.released + Output(p, s, ms)
    decreases |ms|
  {
    if ms != [] {
      var r, t' := Process(p, s, ms[0].headers, ms[0].full), Recorded(p, s, t, ms[0]);
      var now, later := r.0.headers, Output(p, r.1, ms[1..]);
      FailureReleasesNothing(p, s, t, ms[0]);
      DownloadOutput(p, r.1, t', ms[1..]);
      Assoc(t.released, now, later);
    }
  }

  /** Whatever a peer sends, in whatever messages: the headers handed out form a chain from the
      starting block, are exactly the first headers that the second phase accepted, and are backed
      by enough work, or by REDOWNLOAD_BUFFER_SIZE accepted headers above them whose commitment
      bits are those of the first phase. */
  lemma {:induction false} DownloadIsSafe(p: Params, ms: seq<Message>)
    ensures var t := HistoryAfter(p, Initial(p), NO_HISTORY, ms);
            && Guarded(p, t) && t.released == Output(p, Initial(p), ms)
            && Chain(p, Output(p, Initial(p), ms))
  {
    var t0 := NO_HISTORY;
    DownloadInv(p, Initial(p), t0, ms);
    DownloadOutput(p, Initial(p), t0, ms);
    var t := HistoryAfter(p, Initial(p), t0, ms);
    assert [] + Output(p, Initial(p), ms) == Output(p, Initial(p), ms);
    ChainPrefix(p, t.accepted, |t.released|);
    assert t.released == t.accepted[..|t.released|];
  }

  lemma {:induction false} ChainPrefix(p: Params, hs: seq<Header>, n: nat)
    requires Chain(p, hs) && n <= |hs|
    ensures Chain(p, hs[..n])
  {
    forall i | 0 <= i < n
      ensures Follows(p, Before(p, hs[..n], i), hs[..n][i])
    {
      assert Before(p, hs[..n], i) == Before(p, hs, i);
    }
  }

  // ---- a peer that serves the same chain twice ----

  function Flat(ms: seq<Message>): seq<Header> {
    if ms == [] then [] else ms[0].headers + Flat(ms[1..])
  }

  predicate FullMessages(ms: seq<Message>) {
    forall i | 0 <= i < |ms| :: ms[i].headers != [] && ms[i].full
  }

  /** Counting on from `seen`, the work target is reached by the last message and not before. */
  predicate ReachesAtEnd(p: Params, seen: seq<Header>, ms: seq<Message>)
    decreases |ms|
  {
    && ms != []
    && var now := seen + ms[0].headers;
       if |ms| == 1 then p.startWork + Work(p, now) >= p.minimumWork
       else p.startWork + Work(p, now) < p.minimumWork && ReachesAtEnd(p, now, ms[1..])
  }

  predicate AllSucceed(p: Params, s: Sync, ms: seq<Message>)
    decreases |ms|
  {
    ms != [] ==>
      && Process(p, s, ms[0].headers, ms[0].full).0.success
      && AllSucceed(p, Process(p, s, ms[0].headers, ms[0].full).1, ms[1..])
  }

  lemma {:induction false} ChainStep(p: Params, all: seq<Header>, seen: seq<Header>, h: Header)
    requires Chain(p, all) && seen + [h] <= all
    ensures Follows(p, Tip(p, seen), h)
  {
    assert all[|seen|] == h && Before(p, all, |seen|) == Tip(p, seen);
  }

  lemma {:induction false} CommitExtension(p: Params, all: seq<Header>, seen: seq<Header>, h: Header)
    requires seen + [h] <= all
    ensures CommitBits(p, seen + [h]) <= CommitBits(p, all)
  {
    CommitPrefix(p, all, |seen| + 1);
    assert all[..|seen| + 1] == seen + [h];
  }

  lemma {:induction false} CommitRoom(p: Params, all: seq<Header>, seen: seq<Header>, h: Header)
    requires seen + [h] <= all
    ensures IsCommitHeight(p, p.startHeight + |seen| + 1) ==> |CommitBits(p, seen)| + 1 <= |CommitBits(p, all)|
  {
    CommitAppend(p, seen, h);
    CommitExtension(p, all, seen, h);
  }

  lemma {:induction false} HonestPresyncHeader(p: Params, s: Sync, all: seq<Header>, seen: seq<Header>, h: Header)
    requires Presynced(p, s, seen) && Chain(p, all) && seen + [h] <= all
    requires |CommitBits(p, all)| <= p.maxCommitments
    ensures Presync(p, s, h).0
  {
    hide CommitBits; hide Chain; hide Work; hide Permitted;
    ChainStep(p, all, seen, h);
    CommitRoom(p, all, seen, h);
  }

  lemma {:induction false} HonestPresyncAll(p: Params, s: Sync, all: seq<Header>, seen: seq<Header>, hs: seq<Header>)
    requires Presynced(p, s, seen) && Chain(p, all) && seen + hs <= all
    requires |CommitBits(p, all)| <= p.maxCommitments
    ensures PresyncAll(p, s, hs).0
    decreases |hs|
  {
    if hs != [] {
      Shift(seen, hs);
      HonestPresyncHeader(p, s, all, seen, hs[0]);
      PresyncKeeps(p, s, seen, hs[0]);
      HonestPresyncAll(p, Presync(p, s, hs[0]).1, all, seen + [hs[0]], hs[1..]);
    }
  }

  lemma {:induction false} HonestPresyncMessage(p: Params, s: Sync, all: seq<Header>, seen: seq<Header>,
                                                hs: seq<Header>)
    requires Presynced(p, s, seen) && Chain(p, all) && seen + hs <= all && hs != []
    requires |CommitBits(p, all)| <= p.maxCommitments
    ensures var r := Process(p, s, hs, true);
            && r.0 == Result([], true, true)
            && (if p.startWork + Work(p, seen + hs) < p.minimumWork then Presynced(p, r.1, seen + hs)
                else Window(p, r.1, seen + hs, [], 0) && !r.1.processAll)
  {
    assert seen + [hs[0]] <= all;
    ChainStep(p, all, seen, hs[0]);
    HonestPresyncAll(p, s, all, seen, hs);
    PresyncAllKeeps(p, s, seen, hs);
    TransitionKeeps(p, PresyncAll(p, s, hs).1, seen + hs);
  }

  lemma {:induction false} FlatStep(seen: seq<Header>, ms: seq<Message>)
    requires ms != [] && FullMessages(ms)
    ensures seen + ms[0].headers + Flat(ms[1..]) == seen + Flat(ms)
    ensures FullMessages(ms[1..]) && ms[0].headers != [] && ms[0].full
  {
    forall i | 0 <= i < |ms[1..]|
      ensures ms[1..][i].headers != [] && ms[1..][i].full
    {
      assert ms[1..][i] == ms[i + 1];
    }
  }

  lemma {:induction false} HonestPresync(p: Params, s: Sync, all: seq<Header>, seen: seq<Header>, ms: seq<Message>)
    requires Presynced(p, s, seen) && Chain(p, all) && |CommitBits(p, all)| <= p.maxCommitments
    requires FullMessages(ms) && seen + Flat(ms) == all && ReachesAtEnd(p, seen, ms)
    ensures AllSucceed(p, s, ms) && Output(p, s, ms) == []
    ensures Window(p, StateAfter(p, s, ms), all, [], 0) && !StateAfter(p, s, ms).processAll
    decreases |ms|
  {
    var hs := ms[0].headers;
    FlatStep(seen, ms);
    HonestPresyncMessage(p, s, all, seen, hs);
    var s' := Process(p, s, hs, ms[0].full).1;
    if |ms| > 1 {
      HonestPresync(p, s', all, seen + hs, ms[1..]);
    } else {
      assert Flat(ms[1..]) == [] && seen + hs == all;
    }
  }

  lemma {:induction false} HonestCommitment(p: Params, s: Sync, all: seq<Header>, accepted: seq<Header>, h: Header)
    requires Committed(p, s, all, accepted) && !s.processAll
    requires IsCommitHeight(p, p.startHeight + |accepted| + 1) && accepted + [h] <= all
    ensures s.commitments != [] && s.commitments[0] == p.commit(p.hash(h))
  {
    CommitAppend(p, accepted, h);
    CommitExtension(p, all, accepted, h);
    HonestBit(CommitBits(p, accepted), s.commitments, p.commit(p.hash(h)), CommitBits(p, all));
  }

  /** A header that the first phase saw passes every check of the second. */
  lemma {:induction false} HonestRedownloadHeader(p: Params, s: Sync, all: seq<Header>, accepted: seq<Header>,
                                                  released: nat, h: Header)
    requires Window(p, s, all, accepted, released) && (s.buffer == [] ==> accepted == [])
    requires Chain(p, all) && accepted + [h] <= all
    ensures Redownload(p, s, h).0
  {
    hide CommitBits; hide Chain; hide Work; hide Redownload; hide LastBits;
    HonestConnects(p, s, all, accepted, released, h);
    var height := p.startHeight + |accepted| + 1;
    assert s.bufferLastHeight + 1 == height;
    if !s.processAll && IsCommitHeight(p, height) {
      HonestCommitment(p, s, all, accepted, h);
    }
    Accepts(p, s, h, height);
  }

  lemma {:induction false} Accepts(p: Params, s: Sync, h: Header, height: int)
    requires s.phase == REDOWNLOAD && h.prev == s.bufferLastHash && p.permitted(LastBits(p, s), h.bits)
    requires height == s.bufferLastHeight + 1
    requires !s.processAll && IsCommitHeight(p, height) ==>
               s.commitments != [] && s.commitments[0] == p.commit(p.hash(h))
    ensures Redownload(p, s, h).0
  {
  }

  lemma {:induction false} HonestConnects(p: Params, s: Sync, all: seq<Header>, accepted: seq<Header>, released: nat,
                                          h: Header)
    requires Buffered(p, s, accepted, released) && (s.buffer == [] ==> accepted == [])
    requires Chain(p, all) && accepted + [h] <= all
    ensures h.prev == s.bufferLastHash && p.permitted(LastBits(p, s), h.bits)
  {
    ChainStep(p, all, accepted, h);
    LastBitsOfWindow(p, s, accepted, released);
  }

  lemma {:induction false} HonestBit(seen: seq<bool>, rest: seq<bool>, bit: bool, all: seq<bool>)
    requires seen + rest == all && seen + [bit] <= all
    ensures rest != [] && rest[0] == bit
  {
    assert all[|seen|] == bit;
  }

  lemma {:induction false} HonestRedownloadAll(p: Params, s: Sync, all: seq<Header>, accepted: seq<Header>,
                                               released: nat, hs: seq<Header>)
    requires Window(p, s, all, accepted, released) && (s.buffer == [] ==> accepted == [])
    requires Chain(p, all) && accepted + hs <= all
    ensures RedownloadAll(p, s, hs).0
    decreases |hs|
  {
    if hs != [] {
      Shift(accepted, hs);
      HonestRedownloadHeader(p, s, all, accepted, released, hs[0]);
      RedownloadKeepsWindow(p, s, all, accepted, released, hs[0]);
      HonestRedownloadAll(p, Redownload(p, s, hs[0]).1, all, accepted + [hs[0]], released, hs[1..]);
    }
  }

  /** Between messages of the second phase, with a peer that repeats what the first phase saw. */
  ghost predicate Midway(p: Params, s: Sync, t: History) {
    && Window(p, s, t.presync, t.accepted, |t.released|) && !s.processAll
    && (s.buffer == [] ==> t.accepted == [])
    && Chain(p, t.presync) && t.accepted <= t.presync && t.released <= t.accepted
    && (t.released == [] || |t.released| + REDOWNLOAD_BUFFER_SIZE <= |t.accepted|)
  }

  /** One full message of the same chain in the second phase: it is accepted, and either the work
      target is not reached and the window moves on, or everything received is handed out. */
  lemma {:induction false} HonestMessage(p: Params, s: Sync, t: History, hs: seq<Header>)
    requires Midway(p, s, t) && hs != [] && t.accepted + hs <= t.presync
    ensures var r, now := Process(p, s, hs, true), t.accepted + hs;
            && r.0.success
            && (if p.startWork + Work(p, now) >= p.minimumWork
                then r.1.phase == FINAL && t.released + r.0.headers == now
                else Midway(p, r.1, t.(accepted := now, released := t.released + r.0.headers)))
  {
    hide Chain; hide Committed; hide Redownload; hide RedownloadAll; hide Pop; hide Work;
    HonestRedownloadAll(p, s, t.presync, t.accepted, |t.released|, hs);
    RedownloadAllKeepsWindow(p, s, t.presync, t.accepted, |t.released|, hs);
    ReleaseKeeps(p, RedownloadAll(p, s, hs).1, t, t.accepted + hs);
  }

  lemma {:induction false} Unroll(p: Params, s: Sync, ms: seq<Message>)
    requires ms != []
    ensures var r := Process(p, s, ms[0].headers, ms[0].full);
            && (AllSucceed(p, s, ms) <==> r.0.success && AllSucceed(p, r.1, ms[1..]))
            && StateAfter(p, s, ms) == StateAfter(p, r.1, ms[1..])
            && Output(p, s, ms) == r.0.headers + Output(p, r.1, ms[1..])
  {
  }

  lemma {:induction false} HonestLast(p: Params, s: Sync, t: History, m: Message)
    requires Midway(p, s, t) && m.headers != [] && m.full && t.accepted + m.headers <= t.presync
    requires p.startWork + Work(p, t.accepted + m.headers) >= p.minimumWork
    ensures AllSucceed(p, s, [m]) && StateAfter(p, s, [m]).phase == FINAL
    ensures t.released + Output(p, s, [m]) == t.accepted + m.headers
  {
    HonestMessage(p, s, t, m.headers);
    hide Midway; hide Process; hide Work;
    var r := Process(p, s, m.headers, true);
    assert [m][1..] == [];
    assert Output(p, r.1, []) == [] && r.0.headers + [] == r.0.headers;
  }

  lemma {:induction false} HonestRedownload(p: Params, s: Sync, t: History, ms: seq<Message>)
    requires Midway(p, s, t) && FullMessages(ms)
    requires t.accepted + Flat(ms) <= t.presync && ReachesAtEnd(p, t.accepted, ms)
    ensures AllSucceed(p, s, ms) && StateAfter(p, s, ms).phase == FINAL
    ensures t.released + Output(p, s, ms) == t.accepted + Flat(ms)
    decreases |ms|
  {
    hide Midway; hide Process; hide Work;
    var hs, rest := ms[0].headers, ms[1..];
    FlatStep(t.accepted, ms);
    if rest == [] {
      assert ms == [ms[0]] && Flat(ms) == hs;
      HonestLast(p, s, t, ms[0]);
    } else {
      HonestMessage(p, s, t, hs);
      var r := Process(p, s, hs, ms[0].full);
      HonestRedownload(p, r.1, t.(accepted := t.accepted + hs, released := t.released + r.0.headers), rest);
      Unroll(p, s, ms);
      Assoc(t.released, r.0.headers, Output(p, r.1, rest));
    }
  }

  /** A peer that serves a valid chain in full messages until the work target is reached, and then
      serves it again, in full messages split in whatever way, until the target is reached again:
      no check ever fails, the download ends, and it has handed out every header of the second
      pass. */
  lemma {:induction false} HonestDownload(p: Params, first: seq<Message>, second: seq<Message>)
    requires FullMessages(first) && FullMessages(second)
    requires Chain(p, Flat(first)) && |CommitBits(p, Flat(first))| <= p.maxCommitments
    requires ReachesAtEnd(p, [], first)
    requires Flat(second) <= Flat(first) && ReachesAtEnd(p, [], second)
    ensures var s := StateAfter(p, Initial(p), first);
            && AllSucceed(p, Initial(p), first) && Output(p, Initial(p), first) == [] && s.phase == REDOWNLOAD
            && AllSucceed(p, s, second) && Output(p, s, second) == Flat(second)
            && StateAfter(p, s, second).phase == FINAL
  {
    var all := Flat(first);
    HonestStart(p, first);
    HonestPresync(p, Initial(p), all, [], first);
    HonestSecond(p, StateAfter(p, Initial(p), first), all, second);
  }

  lemma {:induction false} HonestStart(p: Params, first: seq<Message>)
    ensures Presynced(p, Initial(p), []) && [] + Flat(first) == Flat(first)
  {
  }

  lemma {:induction false} HonestSecond(p: Params, s: Sync, all: seq<Header>, second: seq<Message>)
    requires Window(p, s, all, [], 0) && !s.processAll && Chain(p, all) && FullMessages(second)
    requires Flat(second) <= all && ReachesAtEnd(p, [], second)
    ensures AllSucceed(p, s, second) && Output(p, s, second) == Flat(second) && StateAfter(p, s, second).phase == FINAL
  {
    assert [] + Flat(second) == Flat(second) && [] + Output(p, s, second) == Output(p, s, second);
    hide Window; hide Process;
    HonestRedownload(p, s, History(all, [], [], {}), second);
  }
}
