/** The prune cache and the pruner that flushes its oldest diffs, on their shared state. */
module Pruner {
  import opened Types
  import opened PruneCaches

  /** The diffs recorded by the journals of [lo, end); missing journals are skipped. */
  function Replay(journals: map<nat, StateDelta>, lo: nat, end: nat): seq<Diff> {
    if end <= lo then []
    else Replay(journals, lo, end - 1) + if end - 1 in journals then [DiffOf(end - 1, journals[end - 1])] else []
  }

  lemma {:induction false} ReplayHeights(journals: map<nat, StateDelta>, lo: nat, end: nat)
    ensures forall i :: 0 <= i < |Replay(journals, lo, end)| ==> lo <= Replay(journals, lo, end)[i].height < end
    ensures Ascending(Replay(journals, lo, end))
  {
    if end > lo {
      ReplayHeights(journals, lo, end - 1);
      if end - 1 in journals { DiffOfHeight(end - 1, journals[end - 1]); }
    }
  }

  lemma {:induction false} ReplaySplit(journals: map<nat, StateDelta>, lo: nat, mid: nat, end: nat)
    requires lo <= mid <= end
    ensures Replay(journals, lo, end) == Replay(journals, lo, mid) + Replay(journals, mid, end)
  {
    if end > mid { ReplaySplit(journals, lo, mid, end - 1); }
  }

  lemma {:induction false} ReplayFrame(journals: map<nat, StateDelta>, others: map<nat, StateDelta>, lo: nat, end: nat)
    requires forall h: nat :: lo <= h < end ==> Get(journals, h) == Get(others, h)
    ensures Replay(journals, lo, end) == Replay(others, lo, end)
  {
    if end > lo {
      ReplayFrame(journals, others, lo, end - 1);
      var h: nat := end - 1;
      assert Get(journals, h) == Get(others, h);
    }
  }

  /** Cutting ascending diffs at a height is cutting their journals at that height. */
  lemma ReplayCut(journals: map<nat, StateDelta>, lo: nat, end: nat, n: nat, to: nat)
    requires 0 < n <= |Replay(journals, lo, end)| && to == Replay(journals, lo, end)[n - 1].height
    ensures lo <= to < end
    ensures Replay(journals, lo, end)[..n] == Replay(journals, lo, to + 1)
    ensures Replay(journals, lo, end)[n..] == Replay(journals, to + 1, end)
  {
    var all := Replay(journals, lo, end);
    ReplayHeights(journals, lo, end);
    ReplaySplit(journals, lo, to + 1, end);
    ReplayHeights(journals, lo, to + 1);
    ReplayHeights(journals, to + 1, end);
    var xs, ys := Replay(journals, lo, to + 1), Replay(journals, to + 1, end);
    forall i | 0 <= i < |xs| ensures all[i].height <= to {
      assert all[i] == xs[i];
    }
    forall i | |xs| <= i < |all| ensures all[i].height > to {
      assert all[i] == ys[i - |xs|];
    }
    assert n < |all| ==> to < all[n].height;
  }

  class States {
    var diffs: seq<Diff>
    var allKeyMap: set<NodeKey>

    /** The filter lets through at least the keys of all diffs. */
    ghost predicate Filtered()
      reads this
    {
      forall i :: 0 <= i < |diffs| ==> diffs[i].Keys() <= allKeyMap
    }

    constructor ()
      ensures diffs == [] && Filtered()
    {
      diffs, allKeyMap := [], {};
    }

    /** The filter lets no key through that no diff knows. */
    ghost predicate Tight()
      reads this
    {
      forall k :: k in allKeyMap ==> exists j :: 0 <= j < |diffs| && k in diffs[j].Keys()
    }

    method RebuildAllKeyMap()
      modifies this`allKeyMap
      ensures Filtered() && Tight()
    {
      hide Diff.Keys;
      allKeyMap := {};
      for i := 0 to |diffs|
        invariant forall j :: 0 <= j < i ==> diffs[j].Keys() <= allKeyMap
        invariant forall k :: k in allKeyMap ==> exists j :: 0 <= j < i && k in diffs[j].Keys()
      {
        ghost var before := allKeyMap;
        allKeyMap := allKeyMap + diffs[i].Keys();
        forall k | k in allKeyMap ensures exists j :: 0 <= j < i + 1 && k in diffs[j].Keys() {
          if k in before {
            var j :| 0 <= j < i && k in diffs[j].Keys();
          } else {
            assert k in diffs[i].Keys();
          }
        }
      }
    }

    /** Newest-first search behind the key filter. */
    method Get(version: nat, key: NodeKey) returns (r: Option<Option<Node>>)
      requires Filtered()
      ensures r == Scan(diffs, version, key)
    {
      if |diffs| == 0 {
        return None;
      }
      if key !in allKeyMap {
        ScanUnknown(diffs, version, key);
        return None;
      }
      var i := |diffs|;
      assert diffs[..i] == diffs;
      while i > 0
        invariant 0 <= i <= |diffs|
        invariant Scan(diffs[..i], version, key) == Scan(diffs, version, key)
      {
        i := i - 1;
        assert diffs[..i + 1][..i] == diffs[..i];
        if diffs[i].height <= version {
          if key in diffs[i].accountDiff {
            return Some(diffs[i].accountDiff[key]);
          }
          if key in diffs[i].storageDiff {
            return Some(diffs[i].storageDiff[key]);
          }
        }
      }
      return None;
    }
  }

  class LedgerStore {
    var nodes: map<NodeKey, Node>
    var journals: map<nat, StateDelta>
    var minHeight: Option<nat>
    var maxHeight: Option<nat>

    constructor ()
      ensures nodes == map[] && journals == map[] && minHeight.None? && maxHeight.None?
    {
      nodes, journals, minHeight, maxHeight := map[], map[], None, None;
    }
  }

  /** The diffs in memory are the replay of the stored journals, version-stamped, in front of older nodes. */
  ghost predicate Consistent(diffs: seq<Diff>, nodes: map<NodeKey, Node>, journals: map<nat, StateDelta>,
                             min: Option<nat>, max: Option<nat>) {
    && Stamped(diffs) && Older(nodes, diffs)
    && min.GetOr(0) <= max.GetOr(0)
    && diffs == Replay(journals, min.GetOr(0), max.GetOr(0) + 1)
    && (max.None? ==> journals == map[])
  }

  datatype Outcome = Done | RollbackToHigherNumber | RollbackTooMuch

  class PruneCache {
    const states: States
    const store: LedgerStore

    ghost predicate Valid()
      reads this, states, store
    {
      states.Filtered() && Consistent(states.diffs, store.nodes, store.journals, store.minHeight, store.maxHeight)
    }

    constructor ()
      ensures Valid() && fresh(states) && fresh(store)
    {
      states := new States();
      store := new LedgerStore();
    }

    /** Build the diff of a delta and append it. */
    method AddNewDiff(height: nat, delta: StateDelta)
      requires states.Filtered()
      modifies states
      ensures states.Filtered() && states.diffs == old(states.diffs) + [DiffOf(height, delta)]
      ensures var d := states.diffs[|old(states.diffs)|];
              d.height == height && HalfHolds(d.accountDiff, delta, true) && HalfHolds(d.storageDiff, delta, false)
    {
      var d := Diff(height, map[], map[]);
      for i := 0 to |delta|
        invariant d == DiffOf(height, delta[..i])
        invariant states.diffs == old(states.diffs) && states.Filtered() && d.Keys() <= states.allKeyMap
      {
        d := d.Add(delta[i]);
        states.allKeyMap := states.allKeyMap + delta[i].pruneSet + delta[i].dirtySet.Keys;
        assert delta[..i + 1][..i] == delta[..i];
      }
      assert delta[..|delta|] == delta;
      states.diffs := states.diffs + [d];
      DiffOfHeight(height, delta);
      DiffHolds(height, delta);
    }

    /** Take over a block. A search at its height then finds for every key what the block's last journal
        about it says, and otherwise what it found before. */
    method Update(height: nat, delta: StateDelta)
      requires Valid() && StampedDelta(height, delta)
      requires store.maxHeight.Some? ==> height == store.maxHeight.value + 1
      requires forall k :: k in store.nodes ==> k.version < height
      modifies states, store
      ensures Valid() && store.maxHeight == Some(height)
      ensures states.diffs == old(states.diffs) + [DiffOf(height, delta)] && store.nodes == old(store.nodes)
      ensures Absorbed(old(states.diffs), states.diffs, height, delta)
      ensures store.minHeight == (if height == 0 then Some(0) else old(store.minHeight))
      ensures store.journals == old(store.journals)[height := delta]
    {
      hide Older, Replay, DiffOf, HalfHolds, StampedDelta, StampedDiff, Absorbed;
      StampedDeltaIsDiff(height, delta);
      UpdateKeepsConsistent(states.diffs, store.nodes, store.journals, store.minHeight, store.maxHeight, height, delta);
      store.journals, store.maxHeight := store.journals[height := delta], Some(height);
      if height == 0 {
        store.minHeight := Some(0);
      }
      AddNewDiff(height, delta);
      ghost var diffs := old(states.diffs);
      ghost var d := states.diffs[|diffs|];
      assert states.diffs == diffs + [d];
      AppendedIsAbsorbed(diffs, d, delta);
    }

    method Get(version: nat, key: NodeKey) returns (r: Option<Option<Node>>)
      requires Valid()
      ensures r == Scan(states.diffs, version, key)
    {
      r := states.Get(version, key);
    }

    /** Rebuild the diffs up to the given height from the journals and, if asked, forget the rest. */
    method Rollback(height: nat, persist: bool) returns (r: Outcome)
      requires Valid()
      modifies states, store
      ensures states.Filtered()
      ensures r == if old(store.maxHeight.GetOr(0)) < height then RollbackToHigherNumber
                   else if old(store.minHeight.GetOr(0)) > height then RollbackTooMuch else Done
      ensures !r.Done? ==> Valid() && states.diffs == old(states.diffs)
      ensures r.Done? ==> forall v: nat, k :: v <= height ==> Scan(states.diffs, v, k) == Scan(old(states.diffs), v, k)
      ensures r.Done? ==> states.diffs <= old(states.diffs)
      ensures r.Done? ==> forall i :: 0 <= i < |states.diffs| ==> states.diffs[i].height <= height
      ensures r.Done? && persist ==> Valid() && store.maxHeight == Some(height)
      ensures r.Done? && persist ==>
                store.journals == map h | h in old(store.journals) && !(height < h <= old(store.maxHeight.GetOr(0)))
                                      :: old(store.journals)[h]
      ensures store.nodes == old(store.nodes)
      ensures !persist ==> unchanged(store)
    {
      hide Scan, Older, Stamped, DiffOf;
      var minHeight, maxHeight := store.minHeight.GetOr(0), store.maxHeight.GetOr(0);
      if maxHeight < height {
        return RollbackToHigherNumber;
      }
      if minHeight > height {
        return RollbackTooMuch;
      }
      states.diffs, states.allKeyMap := [], {};
      var i := minHeight;
      while i <= height
        invariant minHeight <= i <= height + 1
        invariant states.Filtered() && states.diffs == Replay(store.journals, minHeight, i)
        invariant unchanged(store)
      {
        if i in store.journals {
          AddNewDiff(i, store.journals[i]);
        }
        i := i + 1;
      }
      RollbackReads(store.journals, minHeight, height, maxHeight, states.diffs, old(states.diffs));
      if persist {
        var kept := store.journals;
        var j := height + 1;
        while j <= maxHeight
          invariant height + 1 <= j <= maxHeight + 1
          invariant kept == map h | h in store.journals && !(height < h < j) :: store.journals[h]
        {
          kept := kept - {j};
          j := j + 1;
        }
        RollbackKeepsConsistent(old(states.diffs), store.nodes, store.journals, store.minHeight, store.maxHeight,
            height, kept);
        store.journals, store.maxHeight := kept, Some(height);
      }
      states.RebuildAllKeyMap();
      return Done;
    }
  }

  lemma StampedSnoc(diffs: seq<Diff>, d: Diff)
    requires Stamped(diffs) && StampedDiff(d) && forall i :: 0 <= i < |diffs| ==> diffs[i].height < d.height
    ensures Stamped(diffs + [d])
  {
    forall i | 0 <= i < |diffs| + 1 ensures StampedDiff((diffs + [d])[i]) {
      if i < |diffs| { assert StampedDiff(diffs[i]); }
    }
  }

  lemma ReplaySnoc(diffs: seq<Diff>, journals: map<nat, StateDelta>, lo: nat, max: Option<nat>, height: nat,
                   delta: StateDelta)
    requires lo <= height && diffs == Replay(journals, lo, max.GetOr(0) + 1)
    requires if max.Some? then height == max.value + 1 else journals == map[]
    ensures Replay(journals[height := delta], lo, height + 1) == diffs + [DiffOf(height, delta)]
    ensures forall i :: 0 <= i < |diffs| ==> diffs[i].height < height
  {
    ReplayFrame(journals, journals[height := delta], lo, height);
    if max.Some? {
      ReplayHeights(journals, lo, height);
    } else {
      EmptyReplay(lo, 1);
      EmptyReplay(lo, height);
    }
  }

  lemma UpdateKeepsConsistent(diffs: seq<Diff>, nodes: map<NodeKey, Node>, journals: map<nat, StateDelta>,
                              min: Option<nat>, max: Option<nat>, height: nat, delta: StateDelta)
    requires Consistent(diffs, nodes, journals, min, max) && StampedDiff(DiffOf(height, delta))
    requires max.Some? ==> height == max.value + 1
    requires min.GetOr(0) <= height
    requires forall k :: k in nodes ==> k.version < height
    ensures Consistent(diffs + [DiffOf(height, delta)], nodes, journals[height := delta],
                       if height == 0 then Some(0) else min, Some(height))
  {
    var d := DiffOf(height, delta);
    DiffOfHeight(height, delta);
    ReplaySnoc(diffs, journals, min.GetOr(0), max, height, delta);
    StampedSnoc(diffs, d);
    assert Older(nodes, diffs + [d]);
  }

  lemma EmptyReplay(lo: nat, end: nat)
    ensures Replay(map[], lo, end) == []
  {
  }

  /** The replay up to a height answers every version up to that height as before. */
  lemma RollbackReads(journals: map<nat, StateDelta>, lo: nat, height: nat, max: nat, xs: seq<Diff>, all: seq<Diff>)
    requires lo <= height <= max
    requires xs == Replay(journals, lo, height + 1) && all == Replay(journals, lo, max + 1)
    ensures xs <= all
    ensures forall v: nat, k :: v <= height ==> Scan(xs, v, k) == Scan(all, v, k)
    ensures forall i :: 0 <= i < |xs| ==> xs[i].height <= height
  {
    var ys := Replay(journals, height + 1, max + 1);
    ReplaySplit(journals, lo, height + 1, max + 1);
    ReplayHeights(journals, lo, height + 1);
    ReplayHeights(journals, height + 1, max + 1);
    forall v: nat, k | v <= height ensures Scan(xs, v, k) == Scan(all, v, k) {
      ScanConcat(xs, ys, v, k);
      ScanAbove(ys, v, k);
    }
  }

  lemma RollbackKeepsConsistent(diffs: seq<Diff>, nodes: map<NodeKey, Node>, journals: map<nat, StateDelta>,
                                min: Option<nat>, max: Option<nat>, height: nat, kept: map<nat, StateDelta>)
    requires Consistent(diffs, nodes, journals, min, max) && min.GetOr(0) <= height <= max.GetOr(0)
    requires forall h: nat :: h <= height ==> Get(kept, h) == Get(journals, h)
    ensures Consistent(Replay(journals, min.GetOr(0), height + 1), nodes, kept, min, Some(height))
  {
    var lo := min.GetOr(0);
    ReplayFrame(journals, kept, lo, height + 1);
    RollbackReads(journals, lo, height, max.GetOr(0), Replay(journals, lo, height + 1), diffs);
  }

  ghost predicate PartlyFlushed(cur: map<NodeKey, Node>, nodes: map<NodeKey, Node>, w: map<NodeKey, Node>,
                                p: set<NodeKey>,
                                writesLeft: set<NodeKey>, prunesLeft: set<NodeKey>) {
    forall k :: Get(cur, k) == if k in w && k !in p && k !in writesLeft then Some(w[k])
                               else if k in p && k !in w && k !in prunesLeft then None else Get(nodes, k)
  }

  lemma PartlyFlushedAll(cur: map<NodeKey, Node>, nodes: map<NodeKey, Node>, w: map<NodeKey, Node>, p: set<NodeKey>)
    requires PartlyFlushed(cur, nodes, w, p, {}, {})
    ensures cur == Flushed(nodes, w, p)
  {
    SameMap(cur, Flushed(nodes, w, p));
  }

  lemma NothingFlushed(nodes: map<NodeKey, Node>, w: map<NodeKey, Node>, p: set<NodeKey>)
    ensures PartlyFlushed(nodes, nodes, w, p, w.Keys, p)
  {
  }

  lemma FlushOneWrite(cur: map<NodeKey, Node>, nodes: map<NodeKey, Node>, w: map<NodeKey, Node>, p: set<NodeKey>,
                      todo: set<NodeKey>, k: NodeKey)
    requires k in todo && todo <= w.Keys && PartlyFlushed(cur, nodes, w, p, todo, p)
    ensures PartlyFlushed(if k in p then cur else cur[k := w[k]], nodes, w, p, todo - {k}, p)
  {
  }

  lemma FlushOnePrune(cur: map<NodeKey, Node>, nodes: map<NodeKey, Node>, w: map<NodeKey, Node>, p: set<NodeKey>,
                      todo: set<NodeKey>, k: NodeKey)
    requires k in todo && todo <= p && PartlyFlushed(cur, nodes, w, p, {}, todo)
    ensures PartlyFlushed(if k in w then cur else cur - {k}, nodes, w, p, {}, todo - {k})
  {
  }

  /** Put what was only written and delete what was only pruned, in the store and in the trie cache. */
  method FlushInto(nodes: map<NodeKey, Node>, cache: map<NodeKey, Node>, w: map<NodeKey, Node>, p: set<NodeKey>)
    returns (nodes': map<NodeKey, Node>, cache': map<NodeKey, Node>)
    ensures nodes' == Flushed(nodes, w, p) && cache' == Flushed(cache, w, p)
  {
    hide PartlyFlushed, Flushed;
    nodes', cache' := nodes, cache;
    var todo := w.Keys;
    NothingFlushed(nodes, w, p);
    NothingFlushed(cache, w, p);
    while todo != {}
      invariant todo <= w.Keys
      invariant PartlyFlushed(nodes', nodes, w, p, todo, p) && PartlyFlushed(cache', cache, w, p, todo, p)
      decreases |todo|
    {
      var k :| k in todo;
      FlushOneWrite(nodes', nodes, w, p, todo, k);
      FlushOneWrite(cache', cache, w, p, todo, k);
      todo := todo - {k};
      if k !in p {
        nodes', cache' := nodes'[k := w[k]], cache'[k := w[k]];
      }
    }
    todo := p;
    while todo != {}
      invariant todo <= p
      invariant PartlyFlushed(nodes', nodes, w, p, {}, todo) && PartlyFlushed(cache', cache, w, p, {}, todo)
      decreases |todo|
    {
      var k :| k in todo;
      FlushOnePrune(nodes', nodes, w, p, todo, k);
      FlushOnePrune(cache', cache, w, p, todo, k);
      todo := todo - {k};
      if k !in w {
        nodes', cache' := nodes' - {k}, cache' - {k};
      }
    }
    PartlyFlushedAll(nodes', nodes, w, p);
    PartlyFlushedAll(cache', cache, w, p);
  }

  /** After flushing diffs the store holds no node newer than the last of them. */
  lemma FlushedIsOlder(diffs: seq<Diff>, nodes: map<NodeKey, Node>, k: NodeKey)
    requires Stamped(diffs) && Older(nodes, diffs) && diffs != []
    requires k in Flushed(nodes, Writes(diffs), Prunes(diffs))
    ensures k.version <= diffs[|diffs| - 1].height
  {
    assert Get(Flushed(nodes, Writes(diffs), Prunes(diffs)), k).Some?;
    if k in Writes(diffs) {
      var i := WritesAreStamped(diffs, k);
    } else {
      assert k in nodes && k.version < diffs[0].height;
    }
  }

  lemma StampedCut(diffs: seq<Diff>, n: nat)
    requires Stamped(diffs) && n <= |diffs|
    ensures Stamped(diffs[..n]) && Stamped(diffs[n..])
  {
    forall i | 0 <= i < |diffs| - n ensures StampedDiff(diffs[n..][i]) {
      assert diffs[n..][i] == diffs[n + i];
    }
  }

  lemma FlushedIsOlderThanRest(diffs: seq<Diff>, nodes: map<NodeKey, Node>, n: nat)
    requires Stamped(diffs) && Older(nodes, diffs) && 0 < n <= |diffs|
    ensures Older(Flushed(nodes, Writes(diffs[..n]), Prunes(diffs[..n])), diffs[n..])
  {
    StampedCut(diffs, n);
    var nodes' := Flushed(nodes, Writes(diffs[..n]), Prunes(diffs[..n]));
    forall k, i | k in nodes' && 0 <= i < |diffs[n..]| ensures k.version < diffs[n..][i].height {
      FlushedIsOlder(diffs[..n], nodes, k);
      assert diffs[n..][i] == diffs[n + i];
    }
  }

  /** Flushing and dropping the first n diffs, with their journals, leaves a consistent cache. */
  lemma FlushKeepsConsistent(diffs: seq<Diff>, nodes: map<NodeKey, Node>, journals: map<nat, StateDelta>,
                             min: Option<nat>, max: Option<nat>, n: nat, kept: map<nat, StateDelta>)
    requires Consistent(diffs, nodes, journals, min, max) && 0 < n < |diffs|
    requires forall h: nat :: h > diffs[n - 1].height ==> Get(kept, h) == Get(journals, h)
    ensures Consistent(diffs[n..], Flushed(nodes, Writes(diffs[..n]), Prunes(diffs[..n])), kept,
            Some(diffs[n - 1].height + 1), max)
  {
    hide Replay, Stamped, Older, Flushed, Writes, Prunes;
    var to := diffs[n - 1].height;
    var lo, end := min.GetOr(0), max.GetOr(0) + 1;
    ReplayCut(journals, lo, end, n, to);
    ReplayFrame(journals, kept, to + 1, end);
    ReplayHeights(journals, lo, end);
    StampedCut(diffs, n);
    FlushedIsOlderThanRest(diffs, nodes, n);
  }

  /** The journals of the first n diffs and of no later one. */
  ghost predicate Stale(heights: set<nat>, diffs: seq<Diff>, n: nat) {
    && (forall i :: 0 <= i < n <= |diffs| ==> diffs[i].height in heights)
    && (forall h, i :: h in heights && n <= i < |diffs| ==> h < diffs[i].height)
    && (forall h :: h in heights ==> n > 0 && n <= |diffs| && h <= diffs[n - 1].height)
  }

  lemma StaleNext(heights: set<nat>, diffs: seq<Diff>, n: nat)
    requires Ascending(diffs) && n < |diffs| && Stale(heights, diffs, n)
    ensures Stale(heights + {diffs[n].height}, diffs, n + 1)
  {
  }

  lemma MergeNext(diffs: seq<Diff>, i: nat)
    requires i < |diffs|
    ensures Writes(diffs[..i + 1]) ==
            Writes(diffs[..i]) + WritesOf(diffs[i].accountDiff) + WritesOf(diffs[i].storageDiff)
    ensures Prunes(diffs[..i + 1]) ==
            Prunes(diffs[..i]) + PrunesOf(diffs[i].accountDiff) + PrunesOf(diffs[i].storageDiff)
  {
    assert diffs[..i + 1][..i] == diffs[..i];
  }

  /** Merge the diffs of [from, upto) into sets that hold the merge of those before. */
  method MergeRange(diffs: seq<Diff>, from: nat, upto: nat, w: map<NodeKey, Node>, p: set<NodeKey>, stale: set<nat>)
    returns (w': map<NodeKey, Node>, p': set<NodeKey>, stale': set<nat>)
    requires Ascending(diffs) && from <= upto <= |diffs|
    requires w == Writes(diffs[..from]) && p == Prunes(diffs[..from]) && Stale(stale, diffs, from)
    ensures w' == Writes(diffs[..upto]) && p' == Prunes(diffs[..upto]) && Stale(stale', diffs, upto)
  {
    hide Stale, Writes, Prunes, WritesOf, PrunesOf;
    w', p', stale' := w, p, stale;
    for i := from to upto
      invariant w' == Writes(diffs[..i]) && p' == Prunes(diffs[..i]) && Stale(stale', diffs, i)
    {
      MergeNext(diffs, i);
      w' := w' + WritesOf(diffs[i].accountDiff) + WritesOf(diffs[i].storageDiff);
      p' := p' + PrunesOf(diffs[i].accountDiff) + PrunesOf(diffs[i].storageDiff);
      StaleNext(stale', diffs, i);
      stale' := stale' + {diffs[i].height};
    }
  }

  lemma NothingMerged(diffs: seq<Diff>)
    ensures Writes(diffs[..0]) == map[] && Prunes(diffs[..0]) == {} && Stale({}, diffs, 0)
  {
  }

  class Prunner {
    const cache: PruneCache
    var trieCache: map<NodeKey, Node>
    var pendingFlushBlockNum: nat
    var writeSet: map<NodeKey, Node>
    var pruneSet: set<NodeKey>
    /** Journal deletions waiting in the batch. */
    var staleJournals: set<nat>

    ghost predicate Valid()
      reads this, cache, cache.states, cache.store
    {
      var diffs := cache.states.diffs;
      && cache.Valid()
      && pendingFlushBlockNum <= |diffs|
      && writeSet == Writes(diffs[..pendingFlushBlockNum])
      && pruneSet == Prunes(diffs[..pendingFlushBlockNum])
      && Stale(staleJournals, diffs, pendingFlushBlockNum)
      && Coherent(trieCache, cache.store.nodes)
    }

    constructor (cache: PruneCache)
      requires cache.Valid()
      ensures Valid() && this.cache == cache && pendingFlushBlockNum == 0
    {
      this.cache := cache;
      trieCache, pendingFlushBlockNum, writeSet, pruneSet, staleJournals := map[], 0, map[], {}, {};
    }

    /** Merge the diffs that became stale since the last round into the pending sets. */
    method Merge(upto: nat)
      requires Valid() && pendingFlushBlockNum <= upto <= |cache.states.diffs|
      modifies this
      ensures Valid() && pendingFlushBlockNum == upto && trieCache == old(trieCache)
    {
      hide Older, Replay, StampedDiff, Writes, Prunes;
      writeSet, pruneSet, staleJournals := MergeRange(cache.states.diffs, pendingFlushBlockNum, upto, writeSet,
          pruneSet, staleJournals);
      pendingFlushBlockNum := upto;
    }

    /** Write the pending sets to the store and drop the flushed diffs. No read at a version at or
        above the last flushed height changes. */
    method Flush()
      requires Valid() && 0 < pendingFlushBlockNum < |cache.states.diffs|
      modifies this, cache.states, cache.store
      ensures Valid() && pendingFlushBlockNum == 0
      ensures cache.states.diffs == old(cache.states.diffs)[old(pendingFlushBlockNum)..]
      ensures cache.store.maxHeight == old(cache.store.maxHeight)
      ensures forall v: nat, k :: old(cache.states.diffs)[old(pendingFlushBlockNum) - 1].height <= v ==>
              ReadNode(cache.states.diffs, trieCache, cache.store.nodes, v, k) ==
              ReadNode(old(cache.states.diffs), old(trieCache), old(cache.store.nodes), v, k)
    {
      hide Older, Replay, StampedDiff, Writes, Prunes, Scan, States.Tight;
      ghost var n, diffs, nodes, store := pendingFlushBlockNum, cache.states.diffs, cache.store.nodes, cache.store;
      ghost var to := diffs[n - 1].height;
      var last := cache.states.diffs[pendingFlushBlockNum - 1].height;
      FlushReads(diffs, n, trieCache, nodes);
      FlushKeepsConsistent(diffs, nodes, store.journals, store.minHeight, store.maxHeight, n,
          store.journals - staleJournals);
      var nodes', trieCache' := FlushInto(cache.store.nodes, trieCache, writeSet, pruneSet);
      FlushKeepsCoherent(trieCache, nodes, writeSet, pruneSet);
      trieCache := trieCache';
      cache.store.nodes := nodes';
      cache.store.journals := cache.store.journals - staleJournals;
      cache.store.minHeight := Some(last + 1);
      cache.states.diffs := cache.states.diffs[pendingFlushBlockNum..];
      cache.states.RebuildAllKeyMap();
      NothingMerged(cache.states.diffs);
      pendingFlushBlockNum, writeSet, pruneSet, staleJournals := 0, map[], {}, {};
    }

    /** One round of the pruner. Flushing happens when it is due and enough diffs are kept back. */
    method Tick(reserve: nat, due: bool) returns (flushed: Option<nat>)
      requires Valid() && reserve >= 2
      modifies this, cache.states, cache.store
      ensures Valid() && cache.store.maxHeight == old(cache.store.maxHeight)
      ensures flushed.None? ==>
              cache.states.diffs == old(cache.states.diffs)
              && cache.store.nodes == old(cache.store.nodes) && trieCache == old(trieCache)
      ensures var size, pending := |old(cache.states.diffs)|, old(pendingFlushBlockNum);
              && (flushed.Some? <==> due && size > reserve && pending <= size - reserve)
              && (flushed.Some? ==> flushed.value == old(cache.states.diffs)[size - reserve - 1].height)
              && (flushed.None? ==>
                    pendingFlushBlockNum == if size > reserve
                        && pending < size - reserve then size - reserve else pending)
      ensures flushed.Some? ==> |cache.states.diffs| == reserve && pendingFlushBlockNum == 0
      ensures flushed.Some? ==> forall v: nat, k :: flushed.value <= v ==>
                ReadNode(cache.states.diffs, trieCache, cache.store.nodes, v, k) ==
                ReadNode(old(cache.states.diffs), old(trieCache), old(cache.store.nodes), v, k)
    {
      hide ReadNode, Consistent, Stale, Writes, Prunes, Coherent;
      var size := |cache.states.diffs|;
      if size <= reserve || pendingFlushBlockNum > size - reserve {
        return None;
      }
      Merge(size - reserve);
      if !due {
        return None;
      }
      flushed := Some(cache.states.diffs[pendingFlushBlockNum - 1].height);
      Flush();
    }
  }

  lemma FlushReads(diffs: seq<Diff>, n: nat, cache: map<NodeKey, Node>, nodes: map<NodeKey, Node>)
    requires Stamped(diffs) && Older(nodes, diffs) && Coherent(cache, nodes) && 0 < n <= |diffs|
    ensures var w, p, to := Writes(diffs[..n]), Prunes(diffs[..n]), diffs[n - 1].height;
            forall v: nat, k :: to <= v ==>
              ReadNode(diffs[n..], Flushed(cache, w, p), Flushed(nodes, w, p), v, k) ==
                  ReadNode(diffs, cache, nodes, v, k)
  {
    var to := diffs[n - 1].height;
    assert diffs[..n] + diffs[n..] == diffs;
    StampedIsSplit(diffs[..n]);
    StampedIsSettled(diffs[..n], to, nodes);
    DropIsInvisibleIff(diffs[..n], diffs[n..], to, cache, nodes);
  }
}
