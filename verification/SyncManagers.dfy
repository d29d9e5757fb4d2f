/** Fetching, validating and posting chunks of blocks. */
module SyncManagers {
  import opened Types
  import opened SyncPlans
  import opened SyncChains
  import opened SyncAccounts

  /** What validation finds: nothing wrong, the heights to fetch again, or a height without a block. */
  datatype Verdict = Good | Invalid(heights: seq<nat>) | NoBlock(height: nat)

  datatype Outcome =
    | Retry(heights: seq<nat>)
    | StateRejected(height: nat)
    | Advanced
    | Finished
    | CheckpointMismatch

  ghost predicate Filled(r: Requesters, cur: nat, size: nat) {
    forall h: nat :: cur <= h < cur + size ==> h in r && r[h].Some?
  }

  ghost function Blocks(r: Requesters, cur: nat, size: nat): (bs: seq<Block>)
    requires Filled(r, cur, size)
    ensures |bs| == size && forall i :: 0 <= i < size ==> bs[i] == r[cur + i].value
  {
    seq(size, i requires 0 <= i < size => assert cur <= cur + i < cur + size; r[cur + i].value)
  }

  /** Every block follows the one before it and, if bodies are validated, matches its header. */
  ghost predicate ValidChunk(root: Body -> Hash, bs: seq<Block>, digest: Hash, full: bool) {
    Linked(bs, digest) && (full ==> BodiesOk(root, bs))
  }

  /** Without body validation a chunk with a chain header over other transactions passes and is
      confirmed, though it is not the chain's block. Only full validation refuses it. */
  lemma TamperedBodyPasses(root: Body -> Hash, chain: Chain, h: nat, txs: Body)
    requires ChainOk(root, chain) && h >= 1 && txs != chain(h).txs
    ensures var b := Block(chain(h).header, txs);
            var digest := chain(h - 1).header.hash;
            && Authentic(chain, b) && b.header.hash == chain(b.header.height).header.hash
            && ValidChunk(root, [b], digest, false) && !ValidChunk(root, [b], digest, true)
            && HeadersOf(chain, h, [b]) && !PartOf(chain, h, [b])
  {
    var b := Block(chain(h).header, txs);
    assert Authentic(chain, chain(h)) && BodyOk(root, chain(h));
    assert chain(h - 1 + 1).header.parent == chain(h - 1).header.hash;
    assert [b][0] == b && !BodyOk(root, b);
  }

  /** Walk the chunk and report the first block that does not fit, with the one before it when it is
      unclear which of the two is wrong. */
  method ValidateChunk(root: Body -> Hash, r: Requesters, cur: nat, size: nat, digest: Hash, full: bool)
    returns (v: Verdict)
    ensures v.NoBlock? ==> cur <= v.height < cur + size && (v.height !in r || r[v.height].None?)
    ensures Filled(r, cur, size) ==> !v.NoBlock? && (v.Good? <==> ValidChunk(root, Blocks(r, cur, size), digest, full))
    ensures v.Good? ==> Filled(r, cur, size)
    ensures v.Invalid? ==> forall i :: 0 <= i < |v.heights| ==> v.heights[i] in r
    ensures v.Invalid? ==> var n := |v.heights|;
            1 <= n <= 2 && cur <= v.heights[n - 1] < cur + size && (n == 2 ==> v.heights[0] + 1 == v.heights[1])
    ensures v.Invalid? && Filled(r, cur, size) ==>
            FirstMisfit(root, Blocks(r, cur, size), digest, full, v.heights[|v.heights| - 1] - cur)
  {
    hide Blocks, Linked, ValidChunk, FirstMisfit;
    var parentHash := digest;
    for i := cur to cur + size
      invariant forall h: nat :: cur <= h < i ==> h in r && r[h].Some?
      invariant parentHash == if i == cur then digest else r[i - 1].value.header.hash
      invariant i > cur ==> r[cur].value.header.parent == digest
      invariant forall h: nat :: cur < h < i ==> r[h].value.header.parent == r[h - 1].value.header.hash
      invariant full ==> forall h: nat :: cur <= h < i ==> BodyOk(root, r[h].value)
    {
      if i !in r || r[i].None? {
        return NoBlock(i);
      }
      var cd := r[i].value;
      if Filled(r, cur, size) && (cd.header.parent != parentHash || (full && !BodyOk(root, cd))) {
        MisfitAt(root, r, cur, size, digest, full, i);
      }
      if cd.header.parent != parentHash {
        if i > 0 && i - 1 in r {
          return Invalid([i - 1, i]);
        }
        return Invalid([i]);
      }
      if full && !BodyOk(root, cd) {
        return Invalid([i]);
      }
      parentHash := cd.header.hash;
    }
    AllFit(root, r, cur, size, digest, full);
    return Good;
  }

  /** The blocks before k fit, the one at k does not. */
  ghost predicate FirstMisfit(root: Body -> Hash, bs: seq<Block>, digest: Hash, full: bool, k: int) {
    0 <= k < |bs| && ValidChunk(root, bs[..k], digest, full) && !ValidChunk(root, bs[..k + 1], digest, full)
  }

  lemma MisfitAt(root: Body -> Hash, r: Requesters, cur: nat, size: nat, digest: Hash, full: bool, i: nat)
    requires cur <= i < cur + size && Filled(r, cur, size)
    requires i > cur ==> r[cur].value.header.parent == digest
    requires forall h: nat :: cur < h < i ==> r[h].value.header.parent == r[h - 1].value.header.hash
    requires full ==> forall h: nat :: cur <= h < i ==> BodyOk(root, r[h].value)
    requires r[i].value.header.parent != (if i == cur then digest else r[i - 1].value.header.hash)
             || (full && !BodyOk(root, r[i].value))
    ensures FirstMisfit(root, Blocks(r, cur, size), digest, full, i - cur)
            && !ValidChunk(root, Blocks(r, cur, size), digest, full)
  {
    hide ValidChunk, Blocks;
    var bs, k := Blocks(r, cur, size), i - cur;
    AllFit(root, r, cur, k, digest, full);
    assert bs[..k] == Blocks(r, cur, k);
    assert bs[k] == r[i].value && (k > 0 ==> bs[k - 1] == r[i - 1].value);
    Misfit(root, bs, digest, full, k);
    assert bs[..k + 1][k] == bs[k] && (k > 0 ==> bs[..k + 1][k - 1] == bs[k - 1]);
    Misfit(root, bs[..k + 1], digest, full, k);
  }

  lemma Misfit(root: Body -> Hash, bs: seq<Block>, digest: Hash, full: bool, k: nat)
    requires k < |bs|
    requires bs[k].header.parent != (if k == 0 then digest else bs[k - 1].header.hash) || (full && !BodyOk(root, bs[k]))
    ensures !ValidChunk(root, bs, digest, full)
  {
  }

  lemma AllFit(root: Body -> Hash, r: Requesters, cur: nat, size: nat, digest: Hash, full: bool)
    requires Filled(r, cur, size)
    requires size > 0 ==> r[cur].value.header.parent == digest
    requires forall h: nat :: cur < h < cur + size ==> r[h].value.header.parent == r[h - 1].value.header.hash
    requires full ==> forall h: nat :: cur <= h < cur + size ==> BodyOk(root, r[h].value)
    ensures ValidChunk(root, Blocks(r, cur, size), digest, full)
  {
    var bs := Blocks(r, cur, size);
    forall i | 0 < i < |bs| ensures bs[i].header.parent == bs[i - 1].header.hash {
      var h: nat := cur + i;
      assert bs[i] == r[h].value && bs[i - 1] == r[h - 1].value;
    }
  }

  /** Copy the received blocks into the chunk's cache, in whatever order the requesters come. */
  method Collect(r: Requesters, cur: nat, size: nat) returns (cache: seq<Block>)
    requires Window(r, cur, size) && Filled(r, cur, size)
    ensures cache == Blocks(r, cur, size)
  {
    var slots: seq<Option<Block>> := seq(size, _ => None);
    var todo := r.Keys;
    while todo != {}
      invariant |slots| == size && todo <= r.Keys
      invariant forall i :: 0 <= i < size && cur + i !in todo ==> slots[i] == r[cur + i]
      decreases |todo|
    {
      var h :| h in todo;
      slots := slots[h - cur := r[h]];
      todo := todo - {h};
    }
    cache := seq(size, i requires 0 <= i < size => slots[i].value);
  }

  /** Release the requester of every block, by the height in its header. Releasing one that does not
      exist panics, so all goes well exactly when every block names a requester and no two the same. */
  method ReleaseAll(r: Requesters, cache: seq<Block>) returns (r': Requesters, ok: bool)
    ensures ok <==> Releasable(r, cache)
    ensures ok ==> forall h :: h in r' <==> h in r && !Claimed(cache, h)
  {
    r' := r;
    for i := 0 to |cache|
      invariant Releasable(r, cache[..i]) && forall h :: h in r' <==> h in r && !Claimed(cache[..i], h)
    {
      ClaimedNext(r, cache, i);
      if cache[i].header.height !in r' {
        return r', false;
      }
      r' := r' - {cache[i].header.height};
    }
    assert cache[..|cache|] == cache;
    ok := true;
  }

  /** Some block's header has the height. */
  ghost predicate Claimed(cache: seq<Block>, h: nat) {
    exists i :: 0 <= i < |cache| && cache[i].header.height == h
  }

  ghost predicate Releasable(r: Requesters, cache: seq<Block>) {
    && (forall i :: 0 <= i < |cache| ==> cache[i].header.height in r)
    && (forall i, j :: 0 <= i < j < |cache| ==> cache[i].header.height != cache[j].header.height)
  }

  lemma ClaimedNext(r: Requesters, cache: seq<Block>, i: nat)
    requires i < |cache| && Releasable(r, cache[..i])
    ensures var h := cache[i].header.height;
            && (Releasable(r, cache[..i + 1]) <==> h in r && !Claimed(cache[..i], h))
            && (!Releasable(r, cache[..i + 1]) ==> !Releasable(r, cache))
    ensures forall h :: Claimed(cache[..i + 1], h) <==> Claimed(cache[..i], h) || h == cache[i].header.height
  {
    var front, next := cache[..i], cache[..i + 1];
    assert next == front + [cache[i]];
    forall h ensures Claimed(next, h) <==> Claimed(front, h) || h == cache[i].header.height {
      if Claimed(front, h) {
        var j :| 0 <= j < i && front[j].header.height == h;
        assert next[j].header.height == h;
      }
      assert next[i] == cache[i];
      if j :| 0 <= j < i + 1 && next[j].header.height == h && h != cache[i].header.height {
        assert front[j].header.height == h;
      }
    }
    if Claimed(front, cache[i].header.height) {
      var j :| 0 <= j < i && front[j].header.height == cache[i].header.height;
      assert next[j].header.height == next[i].header.height;
    }
  }

  /** Collect the blocks and release their requesters. No release panics. */
  method TakeBlocks(r: Requesters, cur: nat, size: nat) returns (cache: seq<Block>, rest: Requesters)
    requires Window(r, cur, size) && Filled(r, cur, size)
    requires forall i :: 0 <= i < size ==> Blocks(r, cur, size)[i].header.height == cur + i
    ensures cache == Blocks(r, cur, size) && rest == map[]
  {
    hide Window, Filled;
    cache := Collect(r, cur, size);
    AllReleased(r, cache, cur);
    var ok;
    rest, ok := ReleaseAll(r, cache);
    if !ok {
      assert false;
    }
  }

  lemma AllReleased(r: Requesters, cache: seq<Block>, cur: nat)
    requires Window(r, cur, |cache|) && forall i :: 0 <= i < |cache| ==> cache[i].header.height == cur + i
    ensures Releasable(r, cache) && forall h :: h in r ==> Claimed(cache, h)
  {
    forall h | h in r ensures Claimed(cache, h) {
      assert cache[h - cur].header.height == h;
    }
  }

  /** A checkpoint of the chunk's last height names the chunk's last block. */
  predicate Matches(checkpoint: Option<Checkpoint>, last: Block) {
    checkpoint.Some? ==> checkpoint.value.digest == last.header.hash
  }

  /** Compare a chunk's checkpoint with the block at its height. The index is never out of range. */
  method VerifyChunkCheckpoint(chunk: Chunk, cache: seq<Block>) returns (ok: bool)
    requires |cache| == chunk.size >= 1 && (chunk.checkpoint.Some? ==> chunk.checkpoint.value.height == chunk.Last())
    ensures ok == Matches(chunk.checkpoint, cache[|cache| - 1])
  {
    if chunk.checkpoint.None? {
      return true;
    }
    var idx := chunk.checkpoint.value.height - chunk.start;
    if idx < 0 || idx > |cache| - 1 {
      assert false;
    }
    return chunk.checkpoint.value.digest == cache[idx].header.hash;
  }

  datatype Status = Running | Done | Failed

  ghost predicate Genuine(root: Body -> Hash, chain: Chain, start: nat, bs: seq<Block>, full: bool) {
    && HeadersOf(chain, start, bs) && (PartOf(chain, start, bs) <==> BodiesOk(root, bs))
    && (full ==> PartOf(chain, start, bs))
  }

  lemma DeliveryExtends(root: Body -> Hash, chain: Chain, start: nat, posted: seq<Block>, bs: seq<Block>, full: bool)
    requires ChainOk(root, chain) && HeadersOf(chain, start, posted) && HeadersOf(chain, start + |posted|, bs)
    requires full ==> BodiesOk(root, posted) && BodiesOk(root, bs)
    ensures HeadersOf(chain, start, posted + bs) && (full ==> BodiesOk(root, posted + bs))
    ensures Genuine(root, chain, start, posted + bs, full)
  {
    hide ChainOk, HeadersOf, PartOf, BodiesOk;
    HeadersExtend(chain, start, posted, bs);
    BodiesExtend(root, posted, bs);
    BodiesDecide(root, chain, start, posted + bs);
  }

  class SyncManager {
    const maxChunkSize: nat
    const fullValidate: bool
    /** The Merkle root of a block's transactions. */
    const txsRoot: Body -> Hash
    const startHeight: nat
    const targetHeight: nat
    const quorumCheckpoint: Checkpoint
    ghost const chain: Chain
    var curHeight: nat
    var epochChanges: seq<Checkpoint>
    /** Hash of the last block that was checked. */
    var latestDigest: Hash
    var chunk: Chunk
    var requesters: Requesters
    var requesterLen: nat
    var recvBlockSize: int
    /** Heights of the invalid-block events not handled yet. */
    var events: multiset<nat>
    var status: Status
    /** Everything handed to the executor. */
    ghost var posted: seq<Block>

    /** What was posted has the chain's headers from the start height up to the current one, and with
        validation bodies that match. */
    ghost predicate Posted()
      reads this
    {
      && 1 <= startHeight && startHeight + |posted| == curHeight
      && HeadersOf(chain, startHeight, posted) && (fullValidate ==> BodiesOk(txsRoot, posted))
      && latestDigest == chain(curHeight - 1).header.hash
    }

    /** What the running chunk waits for. */
    ghost function Awaited(): Books
      reads this
    {
      Books(requesters, recvBlockSize, events)
    }

    ghost predicate Planned()
      reads this`curHeight, this`epochChanges, this`chunk
    {
      && Sane(curHeight, targetHeight, maxChunkSize, epochChanges, quorumCheckpoint)
      && chunk == InitChunk(curHeight, targetHeight, maxChunkSize, epochChanges, quorumCheckpoint)
    }

    /** The posted headers are the chain's. The posted blocks are the chain's exactly when every body
        matches its header, so always with full validation. */
    ghost predicate Delivered()
      reads this
    {
      Genuine(txsRoot, chain, startHeight, posted, fullValidate)
    }

    lemma PostedSoFar()
      requires Posted()
      ensures 1 <= startHeight && startHeight + |posted| == curHeight && HeadersOf(chain, startHeight, posted)
      ensures (fullValidate ==> BodiesOk(txsRoot, posted)) && latestDigest == chain(curHeight - 1).header.hash
    {
    }

    lemma PostedAgain()
      requires 1 <= startHeight && startHeight + |posted| == curHeight && HeadersOf(chain, startHeight, posted)
      requires (fullValidate ==> BodiesOk(txsRoot, posted)) && latestDigest == chain(curHeight - 1).header.hash
      ensures Posted()
    {
    }

    lemma PlannedChunk()
      requires Planned()
      ensures chunk.start == curHeight && chunk.Last() <= targetHeight
      ensures chunk.checkpoint.Some? ==> chunk.checkpoint.value.height == chunk.Last()
      ensures chunk.Last() < targetHeight ==>
                Sane(curHeight + chunk.size, targetHeight, maxChunkSize, Tail(epochChanges), quorumCheckpoint)
    {
      ChunkFits(curHeight, targetHeight, maxChunkSize, epochChanges, quorumCheckpoint);
      ChunkStart(curHeight, targetHeight, maxChunkSize, epochChanges, quorumCheckpoint);
    }

    ghost predicate Valid()
      reads this
    {
      && status.Running? && ChainOk(txsRoot, chain) && Posted() && Planned() && chunk.size >= 1
      && Balanced(requesters, curHeight, requesterLen, chunk.size, recvBlockSize, events)
      && (forall h :: h in requesters && requesters[h].Some? ==> Authentic(chain, requesters[h].value))
    }

    constructor (maxChunkSize: nat, fullValidate: bool, txsRoot: Body -> Hash, ghost chain: Chain,
                 latestBlockHash: Hash,
                 curHeight: nat, targetHeight: nat, quorumCheckpoint: Checkpoint, epochChanges: seq<Checkpoint>)
      requires Sane(curHeight, targetHeight, maxChunkSize, epochChanges, quorumCheckpoint)
      requires ChainOk(txsRoot, chain) && curHeight >= 1 && latestBlockHash == chain(curHeight - 1).header.hash
      ensures Valid() && posted == [] && startHeight == curHeight == this.curHeight && this.targetHeight == targetHeight
      ensures this.chain == chain && this.txsRoot == txsRoot && this.fullValidate == fullValidate
      ensures chunk == InitChunk(curHeight, targetHeight, maxChunkSize, epochChanges, quorumCheckpoint)
      ensures latestDigest == latestBlockHash && requesterLen == 0 && Awaited() == Books(map[], 0, multiset{})
    {
      this.maxChunkSize, this.fullValidate, this.txsRoot, this.chain := maxChunkSize, fullValidate, txsRoot, chain;
      this.startHeight, this.curHeight, this.targetHeight := curHeight, curHeight, targetHeight;
      this.quorumCheckpoint, this.epochChanges := quorumCheckpoint, epochChanges;
      latestDigest := latestBlockHash;
      chunk := InitChunk(curHeight, targetHeight, maxChunkSize, epochChanges, quorumCheckpoint);
      requesters, requesterLen, recvBlockSize, events, status, posted := map[], 0, 0, multiset{}, Running, [];
      new;
      ChunkFits(curHeight, targetHeight, maxChunkSize, epochChanges, quorumCheckpoint);
      EmptyIsBalanced(curHeight, chunk.size);
    }

    /** The requester of the next height, while the chunk lacks some. */
    method MakeRequester()
      requires Valid() && requesterLen < chunk.size
      modifies this`requesters, this`requesterLen
      ensures Valid() && requesterLen == old(requesterLen) + 1
      ensures requesters == old(requesters)[curHeight + old(requesterLen) := None]
    {
      hide Balanced, ChainOk, Authentic, InitChunk, Sane;
      MakeKeepsBalance(requesters, curHeight, requesterLen, chunk.size, recvBlockSize, events);
      requesters := requesters[curHeight + requesterLen := None];
      requesterLen := requesterLen + 1;
    }

    /** Data arrives for a height. It counts if its requester waits for it. The chunk signal is given
        only when every height of the chunk has its block and no invalid block is pending. */
    method AddCommitData(height: nat, data: Block) returns (signal: bool)
      modifies this`requesters, this`recvBlockSize
      ensures Awaited() == old(Awaited()).Arrive(height, data)
      ensures signal <==> SignalsAt(old(Awaited()), chunk.size, Arrival(height, data))
      ensures old(Valid()) && Authentic(chain, data) ==> Valid()
      ensures old(Valid()) ==> (signal <==>
              requesters != old(requesters) && Filled(requesters, curHeight, chunk.size) && events == multiset{})
      ensures old(Valid()) && signal ==> recvBlockSize == chunk.size
    {
      hide Balanced, ChainOk, Authentic, InitChunk, Sane;
      if height !in requesters || requesters[height].Some? {
        return false;
      }
      if Valid() {
        ArriveKeepsBalance(requesters, curHeight, requesterLen, chunk.size, recvBlockSize, events, height, data);
        FullIffCounted(requesters[height := Some(data)], curHeight, requesterLen, chunk.size, recvBlockSize + 1,
            events);
      }
      requesters := requesters[height := Some(data)];
      recvBlockSize := recvBlockSize + 1;
      signal := recvBlockSize >= chunk.size;
    }

    /** Handle an invalid-block event: drop the block and ask again. In step the requester is there;
        otherwise the event is only logged. */
    method HandleInvalidBlock(height: nat)
      requires height in events
      modifies this`requesters, this`events
      ensures Awaited() == old(Awaited()).Handle(height)
      ensures old(Valid()) ==> Valid() && height in requesters && requesters == old(requesters)[height := None]
    {
      hide Balanced, ChainOk, Authentic, InitChunk, Sane;
      if Valid() {
        HandleKeepsBalance(requesters, curHeight, requesterLen, chunk.size, recvBlockSize, events, height);
      }
      events := events - multiset{height};
      if height !in requesters {
        return;
      }
      requesters := requesters[height := None];
    }

    /** Count the heights as not received and post an event for each. */
    method ReportInvalid(heights: seq<nat>)
      requires Valid() && 1 <= |heights| <= 2 && events == multiset{}
      requires forall i :: 0 <= i < |heights| ==> heights[i] in Holding(requesters)
      requires |heights| == 2 ==> heights[0] != heights[1]
      modifies this`recvBlockSize, this`events
      ensures Valid() && events == multiset(heights)
    {
      hide Holding, ChainOk, Authentic, InitChunk, Sane, Window;
      ReportKeepsBalanceIff(requesters, curHeight, requesterLen, chunk.size, recvBlockSize, events, heights[0]);
      recvBlockSize, events := recvBlockSize - 1, events + multiset{heights[0]};
      if |heights| == 2 {
        ReportKeepsBalanceIff(requesters, curHeight, requesterLen, chunk.size, recvBlockSize, events, heights[1]);
        recvBlockSize, events := recvBlockSize - 1, events + multiset{heights[1]};
        assert heights == [heights[0]] + [heights[1]];
      } else {
        assert heights == [heights[0]];
      }
    }

    /** The quorum rejected the last block: report the height its header claims. */
    method ReportLast(height: nat)
      requires Valid() && events == multiset{} && requesterLen == chunk.size
               && Filled(requesters, curHeight, chunk.size)
      modifies this`recvBlockSize, this`events
      ensures Awaited() == old(Awaited()).Report(height)
      ensures Valid() <==> curHeight <= height < curHeight + chunk.size
      ensures Hangs(Awaited(), chunk.size) <==> !(curHeight <= height < curHeight + chunk.size)
    {
      hide Balanced, ChainOk, Authentic, InitChunk, Sane, Filled, Hangs;
      FullBooks(requesters, curHeight, chunk.size, recvBlockSize, events);
      HangsIff(Awaited(), curHeight, chunk.size, height);
      ReportKeepsBalanceIff(requesters, curHeight, requesterLen, chunk.size, recvBlockSize, events, height);
      HeldHeight(requesters, curHeight, chunk.size, recvBlockSize, events, height);
      recvBlockSize, events := recvBlockSize - 1, events + multiset{height};
    }

    /** Go on to the next chunk. */
    method UpdateStatus()
      requires Posted() && ChainOk(txsRoot, chain) && status.Running? && requesters == map[] && requesterLen == 0
               && events == multiset{}
      requires Sane(curHeight, targetHeight, maxChunkSize, Tail(epochChanges), quorumCheckpoint)
      modifies this`epochChanges, this`chunk, this`recvBlockSize
      ensures Valid() && epochChanges == Tail(old(epochChanges))
    {
      if |epochChanges| != 0 {
        epochChanges := epochChanges[1..];
      }
      chunk := InitChunk(curHeight, targetHeight, maxChunkSize, epochChanges, quorumCheckpoint);
      recvBlockSize := 0;
      ChunkFits(curHeight, targetHeight, maxChunkSize, epochChanges, quorumCheckpoint);
      EmptyIsBalanced(curHeight, chunk.size);
    }

    /** Post a valid chunk whose last block is confirmed. */
    method PostChunk(ghost bs: seq<Block>) returns (out: Outcome)
      requires Valid() && requesterLen == chunk.size && events == multiset{}
               && Filled(requesters, curHeight, chunk.size)
      requires bs == Blocks(requesters, curHeight, chunk.size) && HeadersOf(chain, curHeight, bs)
      requires fullValidate ==> BodiesOk(txsRoot, bs)
      modifies this
      ensures out.CheckpointMismatch? || out.Advanced? || out.Finished?
      ensures out.CheckpointMismatch? <==> !Matches(old(chunk.checkpoint), bs[|bs| - 1])
      ensures out.CheckpointMismatch? ==> status.Failed? && posted == old(posted)
      ensures out.Advanced? || out.Finished? ==> posted == old(posted) + bs && Delivered()
      ensures out.Advanced? ==> Valid() && curHeight == old(curHeight) + old(chunk.size)
      ensures out.Advanced? ==> epochChanges == Tail(old(epochChanges))
      ensures out.Finished? ==> status.Done? && |posted| == targetHeight + 1 - startHeight
      ensures out.Finished? || out.Advanced? ==> (out.Finished? <==> old(curHeight + chunk.size) == targetHeight + 1)
    {
      hide ChainOk, Authentic, InitChunk, Sane, Balanced, HeadersOf, PartOf, BodiesOk, Filled, Window, Tail, Blocks,
          Matches;
      hide Genuine, SyncManager.Posted, SyncManager.Planned;
      BalancedWindow(requesters, curHeight, requesterLen, chunk.size, recvBlockSize, events);
      HeaderHeights(txsRoot, chain, curHeight, bs);
      PostedSoFar();
      DeliveryExtends(txsRoot, chain, startHeight, posted, bs, fullValidate);
      PlannedChunk();
      var size := chunk.size;
      var cache, rest := TakeBlocks(requesters, curHeight, size);
      latestDigest, requesters, requesterLen := cache[|cache| - 1].header.hash, rest, 0;
      var matches := VerifyChunkCheckpoint(chunk, cache);
      if !matches {
        status := Failed;
        return CheckpointMismatch;
      }
      out := HandOver(cache);
    }

    /** Hand the blocks to the executor, and stop at the target or go on to the next chunk. */
    method HandOver(cache: seq<Block>) returns (out: Outcome)
      requires status.Running? && ChainOk(txsRoot, chain) && Planned() && |cache| == chunk.size
      requires 1 <= startHeight && startHeight + |posted| == curHeight && HeadersOf(chain, startHeight, posted + cache)
      requires fullValidate ==> BodiesOk(txsRoot, posted + cache)
      requires latestDigest == chain(curHeight + chunk.size - 1).header.hash
      requires requesters == map[] && requesterLen == 0 && events == multiset{}
      modifies this`posted, this`status, this`curHeight, this`epochChanges, this`chunk, this`recvBlockSize
      ensures posted == old(posted) + cache && out ==
              if old(curHeight + chunk.size) == targetHeight + 1 then Finished else Advanced
      ensures out.Advanced? ==>
              Valid() && curHeight == old(curHeight) + old(chunk.size)
              && epochChanges == Tail(old(epochChanges))
      ensures out.Finished? ==> status.Done? && |posted| == targetHeight + 1 - startHeight
    {
      hide ChainOk, InitChunk, Sane, HeadersOf, BodiesOk, Tail, SyncManager.Posted, SyncManager.Planned,
          SyncManager.Valid;
      PlannedChunk();
      posted := posted + cache;
      if curHeight + chunk.size - 1 == targetHeight {
        status := Done;
        return Finished;
      }
      curHeight := curHeight + chunk.size;
      PostedAgain();
      UpdateStatus();
      return Advanced;
    }

    /** Process a full chunk. stateOk is the quorum's answer about its last block, true to the chain.
        Invalid blocks are fetched again; a valid and confirmed chunk is posted, has the headers of the
        next part of the chain, and agrees with the checkpoint it carries. What was posted is the chain
        itself exactly if every body matches, so always with full validation. Nothing panics. When the
        quorum rejects the last block, the bookkeeping stays balanced exactly if the height in that
        block's header is one of the chunk's, and otherwise the sync hangs. */
    method ProcessChunkTask(stateOk: bool, ghost bs: seq<Block>) returns (out: Outcome)
      requires Valid() && recvBlockSize >= chunk.size
      requires Filled(requesters, curHeight, chunk.size) ==> bs == Blocks(requesters, curHeight, chunk.size)
      requires stateOk ==> bs != [] && bs[|bs| - 1].header.hash == chain(bs[|bs| - 1].header.height).header.hash
      modifies this
      ensures |bs| == old(chunk.size) >= 1
      ensures out.Retry? <==> !ValidChunk(txsRoot, bs, old(latestDigest), fullValidate)
      ensures out.Retry? ==>
              Valid() && events == multiset(out.heights) && posted == old(posted)
              && curHeight == old(curHeight)
      ensures out.StateRejected? ==> !stateOk && out.height == bs[|bs| - 1].header.height && posted == old(posted)
      ensures out.StateRejected? ==> (Valid() <==> curHeight <= out.height < curHeight + chunk.size)
      ensures out.StateRejected? ==> (Hangs(Awaited(), chunk.size) <==>
              !(curHeight <= out.height < curHeight + chunk.size))
      ensures out.CheckpointMismatch? ==> status.Failed? && posted == old(posted)
      ensures out.Advanced? || out.Finished? ==> stateOk && Matches(old(chunk.checkpoint), bs[|bs| - 1])
      ensures out.Advanced? || out.Finished? ==> posted == old(posted) + bs && Delivered()
      ensures out.Advanced? ==> Valid() && curHeight == old(curHeight) + old(chunk.size)
      ensures out.CheckpointMismatch? ==> !Matches(old(chunk.checkpoint), bs[|bs| - 1])
      ensures out.Finished? ==> status.Done? && |posted| == targetHeight + 1 - startHeight
      ensures out.Finished? || out.Advanced? ==> (out.Finished? <==> old(curHeight + chunk.size) == targetHeight + 1)
    {
      SignalMeansFull(requesters, curHeight, requesterLen, chunk.size, recvBlockSize, events);
      hide Balanced, ChainOk, Authentic, InitChunk, Sane, ValidChunk, HeadersOf, PartOf, BodiesOk, Filled, Matches,
          Blocks, FirstMisfit, Window;
      hide SyncManager.Planned, SyncManager.Posted, SyncManager.Delivered, Hangs;
      PostedSoFar();
      var verdict := ValidateChunk(txsRoot, requesters, curHeight, chunk.size, latestDigest, fullValidate);
      if verdict.Invalid? {
        HeldHeights(requesters, curHeight, requesterLen, chunk.size, recvBlockSize, events, verdict.heights);
        ReportInvalid(verdict.heights);
        return Retry(verdict.heights);
      }
      var last := LastBlock(requesters, curHeight, chunk.size);
      if !stateOk {
        ReportLast(last.header.height);
        return StateRejected(last.header.height);
      }
      IsNextPart(txsRoot, chain, requesters, curHeight, chunk.size, latestDigest, fullValidate);
      out := PostChunk(bs);
    }
  }

  /** Ask for one block, without body validation, and receive it. */
  method FetchOne(root: Body -> Hash, chain: Chain, h: nat, digest: Hash, data: Block) returns (sm: SyncManager)
    requires ChainOk(root, chain) && 1 <= h < MAX_UINT64 && Authentic(chain, data) && digest == chain(h - 1).header.hash
    ensures fresh(sm) && sm.Valid() && sm.requesters == map[h := Some(data)] && sm.recvBlockSize == 1 && sm.posted == []
    ensures sm.curHeight == sm.targetHeight == h && sm.latestDigest == digest && !sm.fullValidate
    ensures sm.chain == chain && sm.txsRoot == root && sm.chunk == Chunk(h, 1, Some(Checkpoint(h, data.header.hash)))
  {
    hide ChainOk, Authentic, Hangs, InitChunk, Sane, Filled, Blocks, SyncManager.Valid;
    OneBlock(h, data);
    sm := new SyncManager(1, false, root, chain, digest, h, h, Checkpoint(h, data.header.hash), []);
    sm.MakeRequester();
    var signal := sm.AddCommitData(h, data);
    assert map[h := None][h := Some(data)] == map[h := Some(data)];
  }

  /** A whole sync of one block without body validation: the chain's header is posted over whatever
      transactions came with it. */
  method PostsTamperedBody(root: Body -> Hash, chain: Chain, h: nat, txs: Body) returns (sm: SyncManager)
    requires ChainOk(root, chain) && 1 <= h < MAX_UINT64 && txs != chain(h).txs
    ensures sm.status.Done? && sm.posted == [Block(chain(h).header, txs)] && !PartOf(chain, h, sm.posted)
  {
    hide ChainOk, Authentic, ValidChunk, HeadersOf, PartOf, Hangs, Filled, Blocks, SyncManager.Valid,
        SyncManager.Delivered;
    var data := Block(chain(h).header, txs);
    TamperedBodyPasses(root, chain, h, txs);
    HeaderHeights(root, chain, h, [data]);
    OneBlock(h, data);
    sm := FetchOne(root, chain, h, chain(h - 1).header.hash, data);
    var out := sm.ProcessChunkTask(true, [data]);
    assert [] + [data] == [data];
  }

  lemma OneBlock(h: nat, data: Block)
    requires h < MAX_UINT64
    ensures var end := Checkpoint(h, data.header.hash);
            Sane(h, h, 1, [], end) && InitChunk(h, h, 1, [], end) == Chunk(h, 1, Some(end))
    ensures var r: Requesters := map[h := Some(data)];
            Filled(r, h, 1) && Blocks(r, h, 1) == [data]
  {
  }

  lemma BalancedWindow(r: Requesters, cur: nat, len: nat, size: nat, recv: int, events: multiset<nat>)
    requires Balanced(r, cur, len, size, recv, events)
    ensures Window(r, cur, len)
  {
  }

  method LastBlock(r: Requesters, cur: nat, size: nat) returns (last: Block)
    requires Filled(r, cur, size) && size >= 1
    ensures last == Blocks(r, cur, size)[size - 1]
  {
    var h: nat := cur + size - 1;
    last := r[h].value;
  }

  lemma HeldHeights(r: Requesters, cur: nat, len: nat, size: nat, recv: int, events: multiset<nat>, heights: seq<nat>)
    requires Balanced(r, cur, len, size, recv, events) && len == size && Filled(r, cur, size)
    requires forall i :: 0 <= i < |heights| ==> heights[i] in r
    ensures forall i :: 0 <= i < |heights| ==> heights[i] in Holding(r)
  {
  }

  /** The blocks of a valid and confirmed chunk have the chain's headers at their heights. */
  lemma IsNextPart(root: Body -> Hash, chain: Chain, r: Requesters, cur: nat, size: nat, digest: Hash, full: bool)
    requires ChainOk(root, chain) && cur >= 1 && size >= 1 && Filled(r, cur, size)
             && digest == chain(cur - 1).header.hash
    requires forall h :: h in r && r[h].Some? ==> Authentic(chain, r[h].value)
    requires ValidChunk(root, Blocks(r, cur, size), digest, full)
    requires var last := Blocks(r, cur, size)[size - 1].header; last.hash == chain(last.height).header.hash
    ensures HeadersOf(chain, cur, Blocks(r, cur, size)) && (full ==> BodiesOk(root, Blocks(r, cur, size)))
  {
    hide Linked, Authentic, HeadersOf;
    var bs := Blocks(r, cur, size);
    forall i | 0 <= i < size ensures Authentic(chain, bs[i]) {
      assert cur + i in r;
    }
    ConfirmedIsChain(root, chain, bs, cur);
  }

  /** In balance, a chunk is counted in full exactly when it is full and no event is pending. */
  lemma FullIffCounted(r: Requesters, cur: nat, len: nat, size: nat, recv: int, events: multiset<nat>)
    requires Balanced(r, cur, len, size, recv, events)
    ensures recv >= size <==> Filled(r, cur, size) && events == multiset{}
    ensures recv >= size ==> recv == size
  {
    if recv >= size {
      SignalMeansFull(r, cur, len, size, recv, events);
    } else if Filled(r, cur, size) && events == multiset{} {
      FullMeansSignal(r, cur, len, size, recv);
    }
  }

  lemma FullBooks(r: Requesters, cur: nat, size: nat, recv: int, events: multiset<nat>)
    requires Balanced(r, cur, size, size, recv, events) && Filled(r, cur, size) && events == multiset{}
    ensures Full(Books(r, recv, events), cur, size)
  {
    FullIffCounted(r, cur, size, size, recv, events);
  }

  lemma HeldHeight(r: Requesters, cur: nat, size: nat, recv: int, events: multiset<nat>, h: nat)
    requires Balanced(r, cur, size, size, recv, events) && Filled(r, cur, size)
    ensures h in Holding(r) <==> cur <= h < cur + size
  {
  }
}
