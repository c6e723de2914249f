/** The headers download as the object that it is: state updated header by header in loops, each
    method computing exactly the transition of HeadersSyncSpec. */
module HeadersSync {
  import opened HeadersSyncSpec
  import opened Seqs

  class HeadersSyncState {
    const p: Params
    var downloadState: Phase
    var currentChainWork: nat
    var headerCommitments: seq<bool>
    var lastHeaderReceived: Header
    var currentHeight: int
    var redownloadedHeaders: seq<Compressed>
    var redownloadBufferLastHeight: int
    var redownloadBufferLastHash: Hash
    var redownloadBufferFirstPrevHash: Hash
    var redownloadChainWork: nat
    var processAllRemainingHeaders: bool

    ghost function Snapshot(): Sync
      reads this
    {
      Sync(downloadState, currentChainWork, headerCommitments, lastHeaderReceived, currentHeight,
           redownloadedHeaders, redownloadBufferLastHeight, redownloadBufferLastHash,
           redownloadBufferFirstPrevHash, redownloadChainWork, processAllRemainingHeaders)
    }

    constructor (p: Params)
      ensures this.p == p && Snapshot() == Initial(p)
    {
      this.p := p;
      downloadState, currentChainWork, headerCommitments := PRESYNC, p.startWork, [];
      lastHeaderReceived, currentHeight := p.start, p.startHeight;
      redownloadedHeaders, redownloadBufferLastHeight := [], 0;
      redownloadBufferLastHash, redownloadBufferFirstPrevHash := NULL_HASH, NULL_HASH;
      redownloadChainWork, processAllRemainingHeaders := 0, false;
    }

    method Finalize()
      modifies this
      ensures Snapshot() == Finalized(old(Snapshot()))
    {
      headerCommitments := [];
      lastHeaderReceived := NULL_HEADER;
      redownloadedHeaders := [];
      redownloadBufferLastHash := NULL_HASH;
      redownloadBufferFirstPrevHash := NULL_HASH;
      processAllRemainingHeaders := false;
      currentHeight := 0;
      downloadState := FINAL;
    }

    method ProcessNextHeaders(received: seq<Header>, fullHeadersMessage: bool) returns (r: Result)
      modifies this
      ensures (r, Snapshot()) == Process(p, old(Snapshot()), received, fullHeadersMessage)
      ensures received != [] && old(downloadState) != FINAL ==> (r.requestMore <==> downloadState != FINAL)
      ensures r.success && old(downloadState) == PRESYNC ==>
                downloadState == if currentChainWork >= p.minimumWork then REDOWNLOAD
                                 else if fullHeadersMessage then PRESYNC else FINAL
    {
      ProcessPhase(p, Snapshot(), received, fullHeadersMessage);
      r := Result([], false, false);
      if received == [] || downloadState == FINAL {
        return;
      }
      if downloadState == PRESYNC {
        var ok := ValidateAndStoreHeadersCommitments(received);
        r := r.(success := ok);
        if ok && (fullHeadersMessage || downloadState == REDOWNLOAD) {
          r := r.(requestMore := true);
        }
      } else {
        var ok := true;
        for i := 0 to |received|
          invariant ok && RedownloadAll(p, Snapshot(), received[i..]) == RedownloadAll(p, old(Snapshot()), received)
        {
          ok := ValidateAndStoreRedownloadedHeader(received[i]);
          assert received[i..][1..] == received[i + 1..];
          if !ok {
            break;
          }
        }
        r := r.(success := ok);
        if ok {
          var headers := PopHeadersReadyForAcceptance();
          r := r.(headers := headers);
          if redownloadedHeaders == [] && processAllRemainingHeaders {
          } else if fullHeadersMessage {
            r := r.(requestMore := true);
          }
        }
      }
      if !(r.success && r.requestMore) {
        Finalize();
      }
    }

    method ValidateAndStoreHeadersCommitments(headers: seq<Header>) returns (ok: bool)
      modifies this
      ensures (ok, Snapshot()) == StoreCommitments(p, old(Snapshot()), headers)
    {
      if |headers| == 0 {
        return true;
      }
      if downloadState != PRESYNC || headers[0].prev != p.hash(lastHeaderReceived) {
        return false;
      }
      for i := 0 to |headers|
        invariant PresyncAll(p, Snapshot(), headers[i..]) == PresyncAll(p, old(Snapshot()), headers)
      {
        ok := ValidateAndProcessSingleHeader(headers[i]);
        assert headers[i..][1..] == headers[i + 1..];
        if !ok {
          return;
        }
      }
      if currentChainWork >= p.minimumWork {
        redownloadedHeaders := [];
        redownloadBufferLastHeight := p.startHeight;
        redownloadBufferFirstPrevHash := p.hash(p.start);
        redownloadBufferLastHash := p.hash(p.start);
        redownloadChainWork := p.startWork;
        downloadState := REDOWNLOAD;
      }
      return true;
    }

    method ValidateAndProcessSingleHeader(current: Header) returns (ok: bool)
      modifies this
      ensures (ok, Snapshot()) == Presync(p, old(Snapshot()), current)
      ensures ok <==> && old(downloadState) == PRESYNC && p.permitted(old(lastHeaderReceived.bits), current.bits)
                      && (IsCommitHeight(p, old(currentHeight) + 1) ==> |headerCommitments| <= p.maxCommitments)
    {
      if downloadState != PRESYNC {
        return false;
      }
      var nextHeight := currentHeight + 1;
      if !p.permitted(lastHeaderReceived.bits, current.bits) {
        return false;
      }
      if nextHeight % HEADER_COMMITMENT_PERIOD == p.offset {
        headerCommitments := headerCommitments + [p.commit(p.hash(current))];
        if |headerCommitments| > p.maxCommitments {
          return false;
        }
      }
      currentChainWork := currentChainWork + p.proof(current.bits);
      lastHeaderReceived := current;
      currentHeight := nextHeight;
      return true;
    }

    method ValidateAndStoreRedownloadedHeader(header: Header) returns (ok: bool)
      modifies this
      ensures (ok, Snapshot()) == Redownload(p, old(Snapshot()), header)
    {
      if downloadState != REDOWNLOAD {
        return false;
      }
      var nextHeight := redownloadBufferLastHeight + 1;
      if header.prev != redownloadBufferLastHash {
        return false;
      }
      var previousBits := p.start.bits;
      if redownloadedHeaders != [] {
        previousBits := redownloadedHeaders[|redownloadedHeaders| - 1].bits;
      }
      if !p.permitted(previousBits, header.bits) {
        return false;
      }
      redownloadChainWork := redownloadChainWork + p.proof(header.bits);
      if redownloadChainWork >= p.minimumWork {
        processAllRemainingHeaders := true;
      }
      if !processAllRemainingHeaders && nextHeight % HEADER_COMMITMENT_PERIOD == p.offset {
        if |headerCommitments| == 0 {
          return false;
        }
        var commitment := p.commit(p.hash(header));
        var expected := headerCommitments[0];
        headerCommitments := headerCommitments[1..];
        if commitment != expected {
          return false;
        }
      }
      redownloadedHeaders := redownloadedHeaders + [Compress(header)];
      redownloadBufferLastHeight := nextHeight;
      redownloadBufferLastHash := p.hash(header);
      return true;
    }

    method PopHeadersReadyForAcceptance() returns (ret: seq<Header>)
      modifies this
      ensures (ret, Snapshot()) == Pop(p, old(Snapshot()))
    {
      ret := [];
      if downloadState != REDOWNLOAD {
        return;
      }
      while |redownloadedHeaders| > REDOWNLOAD_BUFFER_SIZE || (|redownloadedHeaders| > 0 && processAllRemainingHeaders)
        invariant downloadState == REDOWNLOAD
        invariant ret + Pop(p, Snapshot()).0 == Pop(p, old(Snapshot())).0
        invariant Pop(p, Snapshot()).1 == Pop(p, old(Snapshot())).1
        decreases |redownloadedHeaders|
      {
        ghost var popped := ret;
        var h := redownloadedHeaders[0].GetFullHeader(redownloadBufferFirstPrevHash);
        ret := ret + [h];
        redownloadedHeaders := redownloadedHeaders[1..];
        redownloadBufferFirstPrevHash := p.hash(h);
        Assoc(popped, [h], Pop(p, Snapshot()).0);
      }
      assert ret + [] == ret;
    }
  }
}
