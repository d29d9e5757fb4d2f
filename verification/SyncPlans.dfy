/** How block sync cuts the heights to fetch into chunks. */
module SyncPlans {
  import opened Types

  datatype Checkpoint = Checkpoint(height: nat, digest: Hash)

  datatype Chunk = Chunk(start: nat, size: nat, checkpoint: Option<Checkpoint>) {
    function Last(): int {
      start + size - 1
    }
  }

  /** Epoch checkpoints left to pass: increasing and none behind. */
  ghost predicate EpochsAhead(cur: nat, epochs: seq<Checkpoint>) {
    && (forall i :: 0 <= i < |epochs| ==> cur <= epochs[i].height)
    && (forall i, j :: 0 <= i < j < |epochs| ==> epochs[i].height < epochs[j].height)
  }

  /** The number of heights from a to b, in unsigned 64-bit arithmetic. */
  function Span(a: int, b: int): int {
    (b - a + 1) % (MAX_UINT64 + 1)
  }

  lemma SpanIsExact(a: int, b: int)
    requires 0 <= b - a < MAX_UINT64
    ensures Span(a, b) == b - a + 1
  {
  }

  /** The next chunk: no longer than the limit, not past the target, not past the next epoch change.
      The next checkpoint is attached when the chunk reaches it. */
  function InitChunk(cur: nat, target: nat, maxSize: nat, epochs: seq<Checkpoint>, quorum: Checkpoint): Chunk {
    var all := Span(cur, target);
    var capped := if all > maxSize then maxSize else all;
    var epochSize := if epochs == [] then capped else Span(cur, epochs[0].height);
    var size := if epochSize < capped then epochSize else capped;
    var next := if epochs == [] then quorum else epochs[0];
    Chunk(cur, size, if cur + size - 1 >= next.height then Some(next) else None)
  }

  function Tail<T>(s: seq<T>): seq<T> {
    if s == [] then [] else s[1..]
  }

  /** What sync is started with. */
  ghost predicate Sane(cur: nat, target: nat, maxSize: nat, epochs: seq<Checkpoint>, quorum: Checkpoint) {
    && cur <= target <= MAX_UINT64 - 1 && maxSize >= 1 && target <= quorum.height
    && EpochsAhead(cur, epochs) && forall i :: 0 <= i < |epochs| ==> epochs[i].height < MAX_UINT64
  }

  /** With nothing behind, the unsigned arithmetic is exact. */
  lemma ChunkIsExact(cur: nat, target: nat, maxSize: nat, epochs: seq<Checkpoint>, quorum: Checkpoint)
    requires Sane(cur, target, maxSize, epochs, quorum)
    ensures var c := InitChunk(cur, target, maxSize, epochs, quorum);
            var next := if epochs == [] then quorum else epochs[0];
            var capped := if target - cur + 1 > maxSize then maxSize else target - cur + 1;
            && c.start == cur
            && c.size == (if epochs != [] && epochs[0].height - cur + 1 < capped then epochs[0].height - cur + 1
                else capped)
            && c.checkpoint == if c.Last() >= next.height then Some(next) else None
  {
    hide Span;
    SpanIsExact(cur, target);
    if epochs != [] {
      SpanIsExact(cur, epochs[0].height);
    }
  }

  /** A chunk is not empty and within its bounds; a checkpoint it carries is its own last height;
      and what follows is again sane. */
  lemma ChunkFits(cur: nat, target: nat, maxSize: nat, epochs: seq<Checkpoint>, quorum: Checkpoint)
    requires Sane(cur, target, maxSize, epochs, quorum)
    ensures var c := InitChunk(cur, target, maxSize, epochs, quorum);
            && 1 <= c.size <= maxSize && c.Last() <= target
            && (c.checkpoint.Some? ==> c.checkpoint.value.height == c.Last())
            && (c.Last() < target ==> Sane(cur + c.size, target, maxSize, Tail(epochs), quorum))
  {
    hide InitChunk;
    ChunkIsExact(cur, target, maxSize, epochs, quorum);
  }

  lemma ChunkStart(cur: nat, target: nat, maxSize: nat, epochs: seq<Checkpoint>, quorum: Checkpoint)
    ensures InitChunk(cur, target, maxSize, epochs, quorum).start == cur
  {
  }

  /** All chunks of a sync. Every chunk uses up one epoch change, reached or not. */
  ghost function Plan(cur: nat, target: nat, maxSize: nat, epochs: seq<Checkpoint>, quorum: Checkpoint): seq<Chunk>
    requires Sane(cur, target, maxSize, epochs, quorum)
    decreases target - cur
  {
    var c := InitChunk(cur, target, maxSize, epochs, quorum);
    ChunkFits(cur, target, maxSize, epochs, quorum);
    if c.Last() == target then [c] else [c] + Plan(cur + c.size, target, maxSize, Tail(epochs), quorum)
  }

  lemma PlanCons(cur: nat, target: nat, maxSize: nat, epochs: seq<Checkpoint>, quorum: Checkpoint)
    requires Sane(cur, target, maxSize, epochs, quorum) && epochs != []
    requires InitChunk(cur, target, maxSize, epochs, quorum).Last() < target
    ensures var c := InitChunk(cur, target, maxSize, epochs, quorum);
            c.size >= 1 && Sane(cur + c.size, target, maxSize, epochs[1..], quorum)
            && Plan(cur, target, maxSize, epochs, quorum) ==
                [c] + Plan(cur + c.size, target, maxSize, epochs[1..], quorum)
  {
    hide InitChunk;
    ChunkFits(cur, target, maxSize, epochs, quorum);
  }

  /** The chunks cover the heights from cur to target once and in order, none is empty or too long,
      and a checkpoint is that of its chunk's last height. */
  ghost predicate Tiles(plan: seq<Chunk>, cur: nat, target: nat, maxSize: nat) {
    && plan != [] && plan[0].start == cur && plan[|plan| - 1].Last() == target
    && (forall i :: 0 <= i < |plan| ==> 1 <= plan[i].size <= maxSize)
    && (forall i :: 0 < i < |plan| ==> plan[i].start == plan[i - 1].Last() + 1)
    && (forall i :: 0 <= i < |plan| && plan[i].checkpoint.Some? ==> plan[i].checkpoint.value.height == plan[i].Last())
  }

  lemma TilesCons(c: Chunk, rest: seq<Chunk>, target: nat, maxSize: nat)
    requires 1 <= c.size <= maxSize && (c.checkpoint.Some? ==> c.checkpoint.value.height == c.Last())
    requires if rest == [] then c.Last() == target else Tiles(rest, c.Last() + 1, target, maxSize)
    ensures Tiles([c] + rest, c.start, target, maxSize)
  {
    var plan := [c] + rest;
    assert forall i :: 0 < i < |plan| ==> plan[i] == rest[i - 1];
  }

  lemma {:induction false} PlanTiles(cur: nat, target: nat, maxSize: nat, epochs: seq<Checkpoint>, quorum: Checkpoint)
    requires Sane(cur, target, maxSize, epochs, quorum)
    ensures Tiles(Plan(cur, target, maxSize, epochs, quorum), cur, target, maxSize)
    decreases target - cur
  {
    hide InitChunk, Sane, Tiles;
    var c := InitChunk(cur, target, maxSize, epochs, quorum);
    ChunkFits(cur, target, maxSize, epochs, quorum);
    ChunkStart(cur, target, maxSize, epochs, quorum);
    if c.Last() == target {
      TilesCons(c, [], target, maxSize);
      assert [c] + [] == [c];
    } else {
      PlanTiles(cur + c.size, target, maxSize, Tail(epochs), quorum);
      TilesCons(c, Plan(cur + c.size, target, maxSize, Tail(epochs), quorum), target, maxSize);
    }
  }

  /** Every epoch change below the target is at most a chunk behind the one before it, the first one
      at most a chunk from the start. */
  ghost predicate ShortEpochs(cur: nat, target: nat, maxSize: nat, epochs: seq<Checkpoint>) {
    forall i :: 0 <= i < |epochs| && epochs[i].height < target ==> EpochSize(cur, epochs, i) <= maxSize
  }

  /** The number of heights up to an epoch change since the one before it. */
  function EpochSize(cur: nat, epochs: seq<Checkpoint>, i: nat): int
    requires i < |epochs|
  {
    epochs[i].height - if i == 0 then cur - 1 else epochs[i - 1].height
  }

  /** Some chunk carries the checkpoint. */
  ghost predicate Checked(plan: seq<Chunk>, e: Checkpoint) {
    exists i :: 0 <= i < |plan| && plan[i].checkpoint == Some(e)
  }

  ghost predicate AllChecked(plan: seq<Chunk>, target: nat, epochs: seq<Checkpoint>) {
    forall i :: 0 <= i < |epochs| && epochs[i].height < target ==> Checked(plan, epochs[i])
  }

  lemma CheckedCons(c: Chunk, rest: seq<Chunk>, e: Checkpoint)
    ensures Checked([c] + rest, e) <==> c.checkpoint == Some(e) || Checked(rest, e)
  {
    var plan := [c] + rest;
    if c.checkpoint == Some(e) {
      assert plan[0].checkpoint == Some(e);
    }
    if Checked(rest, e) {
      var i :| 0 <= i < |rest| && rest[i].checkpoint == Some(e);
      assert plan[i + 1].checkpoint == Some(e);
    }
    if Checked(plan, e) && c.checkpoint != Some(e) {
      var i :| 0 <= i < |plan| && plan[i].checkpoint == Some(e);
      assert rest[i - 1].checkpoint == Some(e);
    }
  }

  /** The first chunk carries the next epoch's checkpoint exactly when that epoch is short enough,
      and then the following chunk starts right behind it. */
  lemma FirstEpoch(cur: nat, target: nat, maxSize: nat, epochs: seq<Checkpoint>, quorum: Checkpoint)
    requires Sane(cur, target, maxSize, epochs, quorum) && epochs != [] && epochs[0].height <= target
    ensures var c := InitChunk(cur, target, maxSize, epochs, quorum);
            && (c.checkpoint == Some(epochs[0]) <==> epochs[0].height + 1 - cur <= maxSize)
            && (c.checkpoint == Some(epochs[0]) ==> c.Last() == epochs[0].height)
            && (c.checkpoint.None? || c.checkpoint == Some(epochs[0]))
            && c.Last() <= epochs[0].height
  {
    hide InitChunk;
    ChunkIsExact(cur, target, maxSize, epochs, quorum);
  }

  /** A chunk carries the checkpoint of one of the epochs still ahead, or the final one. */
  lemma {:induction false} CheckedIsAhead(cur: nat, target: nat, maxSize: nat, epochs: seq<Checkpoint>,
                                          quorum: Checkpoint, e: Checkpoint)
    requires Sane(cur, target, maxSize, epochs, quorum) && Checked(Plan(cur, target, maxSize, epochs, quorum), e)
    ensures e in epochs || e == quorum
    decreases target - cur
  {
    hide Sane, InitChunk, Checked;
    var c := InitChunk(cur, target, maxSize, epochs, quorum);
    ChunkFits(cur, target, maxSize, epochs, quorum);
    ChunkIsExact(cur, target, maxSize, epochs, quorum);
    var rest := if c.Last() == target then [] else Plan(cur + c.size, target, maxSize, Tail(epochs), quorum);
    assert Plan(cur, target, maxSize, epochs, quorum) == [c] + rest;
    CheckedCons(c, rest, e);
    if c.checkpoint != Some(e) {
      NothingChecked(e);
      CheckedIsAhead(cur + c.size, target, maxSize, Tail(epochs), quorum, e);
    }
  }

  lemma NothingChecked(e: Checkpoint)
    ensures !Checked([], e)
  {
  }

  lemma ShortTail(cur: nat, target: nat, maxSize: nat, epochs: seq<Checkpoint>)
    requires epochs != [] && epochs[0].height < target
    ensures ShortEpochs(cur, target, maxSize, epochs) <==>
            epochs[0].height + 1 - cur <= maxSize && ShortEpochs(epochs[0].height + 1, target, maxSize, epochs[1..])
  {
    var rest, next := epochs[1..], epochs[0].height + 1;
    forall i | 0 < i < |epochs|
      ensures EpochSize(cur, epochs, i) == EpochSize(next, rest, i - 1)
              && epochs[i] == rest[i - 1]
    {
    }
    if ShortEpochs(cur, target, maxSize, epochs) {
      assert EpochSize(cur, epochs, 0) <= maxSize;
      forall i | 0 <= i < |rest| && rest[i].height < target ensures EpochSize(next, rest, i) <= maxSize {
        assert EpochSize(cur, epochs, i + 1) == EpochSize(next, rest, i);
      }
    }
  }

  lemma CheckedTail(c: Chunk, rest: seq<Chunk>, target: nat, epochs: seq<Checkpoint>)
    requires epochs != [] && c.checkpoint == Some(epochs[0])
             && forall i :: 0 < i < |epochs| ==> epochs[0].height < epochs[i].height
    ensures AllChecked([c] + rest, target, epochs) <==> AllChecked(rest, target, epochs[1..])
  {
    hide Checked;
    var plan := [c] + rest;
    CheckedCons(c, rest, epochs[0]);
    forall i | 0 < i < |epochs| ensures Checked(plan, epochs[i]) <==> Checked(rest, epochs[i]) {
      CheckedCons(c, rest, epochs[i]);
    }
    if AllChecked(plan, target, epochs) {
      forall i | 0 <= i < |epochs[1..]| && epochs[1..][i].height < target ensures Checked(rest, epochs[1..][i]) {
        assert Checked(plan, epochs[i + 1]);
      }
    }
    if AllChecked(rest, target, epochs[1..]) {
      forall i | 0 <= i < |epochs| && epochs[i].height < target ensures Checked(plan, epochs[i]) {
        if i > 0 { assert Checked(rest, epochs[1..][i - 1]); }
      }
    }
  }

  /** An epoch change that the first chunk does not carry is not checked later. */
  lemma MissedStaysMissed(cur: nat, target: nat, maxSize: nat, epochs: seq<Checkpoint>, quorum: Checkpoint)
    requires Sane(cur, target, maxSize, epochs, quorum) && epochs != [] && epochs[0].height < target
    requires InitChunk(cur, target, maxSize, epochs, quorum).checkpoint != Some(epochs[0])
    ensures !AllChecked(Plan(cur, target, maxSize, epochs, quorum), target, epochs)
  {
    hide InitChunk, Checked;
    var c := InitChunk(cur, target, maxSize, epochs, quorum);
    ChunkFits(cur, target, maxSize, epochs, quorum);
    FirstEpoch(cur, target, maxSize, epochs, quorum);
    var rest := Plan(cur + c.size, target, maxSize, epochs[1..], quorum);
    assert Plan(cur, target, maxSize, epochs, quorum) == [c] + rest;
    CheckedCons(c, rest, epochs[0]);
    if Checked(rest, epochs[0]) {
      CheckedIsAhead(cur + c.size, target, maxSize, epochs[1..], quorum, epochs[0]);
    }
  }

  lemma NoneBelow(plan: seq<Chunk>, cur: nat, target: nat, maxSize: nat, epochs: seq<Checkpoint>)
    requires EpochsAhead(cur, epochs) && (epochs == [] || epochs[0].height >= target)
    ensures AllChecked(plan, target, epochs) && ShortEpochs(cur, target, maxSize, epochs)
  {
    assert forall i :: 0 < i < |epochs| ==> epochs[0].height < epochs[i].height;
  }

  /** Exactly when every epoch change below the target is checked: when no two of them, nor the start
      and the first, are more than a chunk apart. An epoch change that its chunk does not reach is
      dropped, and no later chunk checks it. */
  lemma {:induction false} EpochsCheckedIff(cur: nat, target: nat, maxSize: nat, epochs: seq<Checkpoint>,
                                            quorum: Checkpoint)
    requires Sane(cur, target, maxSize, epochs, quorum)
    ensures AllChecked(Plan(cur, target, maxSize, epochs, quorum), target, epochs) <==>
            ShortEpochs(cur, target, maxSize, epochs)
    decreases target - cur
  {
    hide InitChunk, AllChecked, ShortEpochs, Plan;
    if epochs == [] || epochs[0].height >= target {
      NoneBelow(Plan(cur, target, maxSize, epochs, quorum), cur, target, maxSize, epochs);
    } else {
      var c := InitChunk(cur, target, maxSize, epochs, quorum);
      FirstEpoch(cur, target, maxSize, epochs, quorum);
      ChunkStart(cur, target, maxSize, epochs, quorum);
      ShortTail(cur, target, maxSize, epochs);
      if c.checkpoint != Some(epochs[0]) {
        MissedStaysMissed(cur, target, maxSize, epochs, quorum);
      } else {
        PlanCons(cur, target, maxSize, epochs, quorum);
        EpochsCheckedIff(cur + c.size, target, maxSize, epochs[1..], quorum);
        CheckedTail(c, Plan(cur + c.size, target, maxSize, epochs[1..], quorum), target, epochs);
      }
    }
  }

  /** The failing case: an epoch change 150 blocks ahead with chunks of 100. */
  lemma LongEpochIsNotChecked(e: Checkpoint, quorum: Checkpoint)
    requires e.height == 150 && quorum.height >= 200
    ensures Sane(1, 200, 100, [e], quorum) && !AllChecked(Plan(1, 200, 100, [e], quorum), 200, [e])
  {
    EpochsCheckedIff(1, 200, 100, [e], quorum);
    assert EpochSize(1, [e], 0) == 150;
  }
}
