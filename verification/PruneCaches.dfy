/** Trie nodes of recent blocks, kept in memory as one diff per block in front of a store. */
module PruneCaches {
  import opened Types

  /** Node keys carry the height that wrote the node; the two kinds of trie do not share keys. */
  datatype NodeKey =
    | AccountNode(version: nat, path: Bytes)
    | StorageNode(address: Address, version: nat, path: Bytes)

  type Node = Bytes

  /** What a diff says about a key: a new node, or (None) that it is pruned. */
  type NodeMap = map<NodeKey, Option<Node>>

  datatype TrieJournal = TrieJournal(isAccount: bool, pruneSet: set<NodeKey>, dirtySet: map<NodeKey, Node>)
  type StateDelta = seq<TrieJournal>

  datatype Diff = Diff(height: nat, accountDiff: NodeMap, storageDiff: NodeMap) {

    function Lookup(k: NodeKey): Option<Option<Node>> {
      if k in accountDiff then Some(accountDiff[k]) else Get(storageDiff, k)
    }

    function Keys(): set<NodeKey> {
      accountDiff.Keys + storageDiff.Keys
    }

    function Add(j: TrieJournal): Diff {
      if j.isAccount then this.(accountDiff := Recorded(accountDiff, j))
      else this.(storageDiff := Recorded(storageDiff, j))
    }
  }

  /** Dirty nodes are recorded after, and so override, pruned ones. */
  function Recorded(m: NodeMap, j: TrieJournal): NodeMap {
    m + (map k | k in j.pruneSet :: None) + (map k | k in j.dirtySet :: Some(j.dirtySet[k]))
  }

  function DiffOf(height: nat, delta: StateDelta): Diff {
    if delta == [] then Diff(height, map[], map[])
    else DiffOf(height, delta[..|delta| - 1]).Add(delta[|delta| - 1])
  }

  lemma DiffOfHeight(height: nat, delta: StateDelta)
    ensures DiffOf(height, delta).height == height
  {
  }

  // ---------------------------------------------------------------- what a diff holds

  predicate Touches(j: TrieJournal, k: NodeKey) {
    k in j.pruneSet || k in j.dirtySet
  }

  /** Journal i is the last one of its trie that mentions the key. */
  ghost predicate LastTouch(delta: StateDelta, isAccount: bool, k: NodeKey, i: int) {
    && 0 <= i < |delta| && delta[i].isAccount == isAccount && Touches(delta[i], k)
    && forall j :: i < j < |delta| && delta[j].isAccount == isAccount ==> !Touches(delta[j], k)
  }

  ghost predicate Untouched(delta: StateDelta, isAccount: bool, k: NodeKey) {
    forall i :: 0 <= i < |delta| && delta[i].isAccount == isAccount ==> !Touches(delta[i], k)
  }

  /** One half of a diff says of every key what the last journal of that trie says: the node it writes,
      else that it is pruned; and it knows no other key. */
  ghost predicate HalfHolds(m: NodeMap, delta: StateDelta, isAccount: bool) {
    && (forall k, i :: LastTouch(delta, isAccount, k, i) ==> Get(m, k) == Some(Get(delta[i].dirtySet, k)))
    && (forall k :: Untouched(delta, isAccount, k) ==> k !in m)
  }

  lemma LastTouchFront(delta: StateDelta, isAccount: bool, k: NodeKey, i: int)
    requires delta != [] && !(delta[|delta| - 1].isAccount == isAccount && Touches(delta[|delta| - 1], k))
    requires LastTouch(delta, isAccount, k, i)
    ensures LastTouch(delta[..|delta| - 1], isAccount, k, i)
  {
  }

  lemma {:induction false} DiffHolds(height: nat, delta: StateDelta)
    ensures HalfHolds(DiffOf(height, delta).accountDiff, delta, true)
    ensures HalfHolds(DiffOf(height, delta).storageDiff, delta, false)
    decreases |delta|
  {
    if delta != [] {
      DiffHolds(height, delta[..|delta| - 1]);
      var d := DiffOf(height, delta[..|delta| - 1]);
      HalfNext(d.accountDiff, delta, true);
      HalfNext(d.storageDiff, delta, false);
    }
  }

  lemma HalfNext(m: NodeMap, delta: StateDelta, isAccount: bool)
    requires delta != [] && HalfHolds(m, delta[..|delta| - 1], isAccount)
    ensures var j := delta[|delta| - 1];
            HalfHolds(if j.isAccount == isAccount then Recorded(m, j) else m, delta, isAccount)
  {
    hide Recorded;
    var n := |delta| - 1;
    var j := delta[n];
    var m' := if j.isAccount == isAccount then Recorded(m, j) else m;
    forall k ensures Get(Recorded(m, j), k) == if Touches(j, k) then Some(Get(j.dirtySet, k)) else Get(m, k) {
      RecordedAt(m, j, k);
    }
    forall k, i | LastTouch(delta, isAccount, k, i) ensures Get(m', k) == Some(Get(delta[i].dirtySet, k)) {
      if i < n {
        LastTouchFront(delta, isAccount, k, i);
      }
    }
    forall k | Untouched(delta, isAccount, k) ensures k !in m' {
      assert Untouched(delta[..n], isAccount, k);
    }
  }

  lemma RecordedAt(m: NodeMap, j: TrieJournal, k: NodeKey)
    ensures Get(Recorded(m, j), k) == if Touches(j, k) then Some(Get(j.dirtySet, k)) else Get(m, k)
  {
  }

  /** The plain newest-first search: the latest diff not above the version that knows the key. */
  function Scan(diffs: seq<Diff>, version: nat, k: NodeKey): Option<Option<Node>> {
    if diffs == [] then None
    else
      var last := diffs[|diffs| - 1];
      if last.height <= version && last.Lookup(k).Some? then last.Lookup(k)
      else Scan(diffs[..|diffs| - 1], version, k)
  }

  /** Reading a node: diffs first, then the trie cache, then the store. */
  function ReadNode(diffs: seq<Diff>, cache: map<NodeKey, Node>, nodes: map<NodeKey, Node>, version: nat,
                    k: NodeKey): Option<Node> {
    match Scan(diffs, version, k)
    case Some(v) => v
    case None => if k in cache then Some(cache[k]) else Get(nodes, k)
  }

  ghost predicate Ascending(diffs: seq<Diff>) {
    forall i, j :: 0 <= i < j < |diffs| ==> diffs[i].height < diffs[j].height
  }

  lemma {:induction false} ScanConcat(xs: seq<Diff>, ys: seq<Diff>, version: nat, k: NodeKey)
    ensures Scan(xs + ys, version, k) ==
            if Scan(ys, version, k).Some? then Scan(ys, version, k) else Scan(xs, version, k)
  {
    if ys == [] {
      assert xs + ys == xs;
    } else {
      var n := |ys| - 1;
      assert (xs + ys)[..|xs| + n] == xs + ys[..n];
      ScanConcat(xs, ys[..n], version, k);
    }
  }

  lemma {:induction false} ScanAbove(diffs: seq<Diff>, version: nat, k: NodeKey)
    requires forall i :: 0 <= i < |diffs| ==> diffs[i].height > version
    ensures Scan(diffs, version, k).None?
  {
    if diffs != [] {
      ScanAbove(diffs[..|diffs| - 1], version, k);
    }
  }

  lemma {:induction false} ScanUnknown(diffs: seq<Diff>, version: nat, k: NodeKey)
    requires forall i :: 0 <= i < |diffs| ==> k !in diffs[i].Keys()
    ensures Scan(diffs, version, k).None?
  {
    if diffs != [] {
      ScanUnknown(diffs[..|diffs| - 1], version, k);
    }
  }

  // ---------------------------------------------------------------- merging diffs

  /** The writes of a run of diffs, later ones winning, and the keys it prunes. */
  function Writes(diffs: seq<Diff>): map<NodeKey, Node> {
    if diffs == [] then map[]
    else
      var d := diffs[|diffs| - 1];
      Writes(diffs[..|diffs| - 1]) + WritesOf(d.accountDiff) + WritesOf(d.storageDiff)
  }

  function WritesOf(m: NodeMap): map<NodeKey, Node> {
    map k | k in m && m[k].Some? :: m[k].value
  }

  function Prunes(diffs: seq<Diff>): set<NodeKey> {
    if diffs == [] then {}
    else
      var d := diffs[|diffs| - 1];
      Prunes(diffs[..|diffs| - 1]) + PrunesOf(d.accountDiff) + PrunesOf(d.storageDiff)
  }

  function PrunesOf(m: NodeMap): set<NodeKey> {
    set k | k in m && m[k].None?
  }

  /** What a flush does to the store: keys both written and pruned are left as they are. */
  function Flushed(nodes: map<NodeKey, Node>, w: map<NodeKey, Node>, p: set<NodeKey>): (r: map<NodeKey, Node>)
    ensures forall k :: Get(r, k) == if k in w && k !in p then Some(w[k])
                                     else if k in p && k !in w then None else Get(nodes, k)
  {
    nodes - (p - w.Keys) + map k | k in w && k !in p :: w[k]
  }

  /** No key is in both halves of a diff. */
  ghost predicate Split(diffs: seq<Diff>) {
    forall i :: 0 <= i < |diffs| ==> diffs[i].accountDiff.Keys !! diffs[i].storageDiff.Keys
  }

  /** A search through the whole run finds a key exactly when it was written or pruned, and its last
      change is a write of the merged value unless it is a prune. */
  lemma {:induction false} ScanIsMerge(diffs: seq<Diff>, version: nat, k: NodeKey)
    requires Split(diffs) && forall i :: 0 <= i < |diffs| ==> diffs[i].height <= version
    ensures Scan(diffs, version, k).Some? <==> k in Writes(diffs) || k in Prunes(diffs)
    ensures k in Writes(diffs) && k !in Prunes(diffs) ==> Scan(diffs, version, k) == Some(Some(Writes(diffs)[k]))
    ensures k in Prunes(diffs) && k !in Writes(diffs) ==> Scan(diffs, version, k) == Some(None)
  {
    if diffs != [] {
      var n := |diffs| - 1;
      ScanIsMerge(diffs[..n], version, k);
    }
  }

  /** The store already holds what the flush leaves out. */
  ghost predicate Settled(diffs: seq<Diff>, to: nat, nodes: map<NodeKey, Node>) {
    forall k :: k in Writes(diffs) && k in Prunes(diffs) ==> Scan(diffs, to, k) == Some(Get(nodes, k))
  }

  /** The cache holds only what the store holds. */
  ghost predicate Coherent(cache: map<NodeKey, Node>, nodes: map<NodeKey, Node>) {
    forall k :: k in cache ==> Get(nodes, k) == Some(cache[k])
  }

  lemma FlushKeepsCoherent(cache: map<NodeKey, Node>, nodes: map<NodeKey, Node>, w: map<NodeKey, Node>, p: set<NodeKey>)
    requires Coherent(cache, nodes)
    ensures Coherent(Flushed(cache, w, p), Flushed(nodes, w, p))
  {
    forall k | k in Flushed(cache, w, p) ensures Get(Flushed(nodes, w, p), k) == Some(Flushed(cache, w, p)[k]) {
      assert Get(Flushed(cache, w, p), k) == Some(Flushed(cache, w, p)[k]);
    }
  }

  /** While the diffs are still there, neither updating the trie cache nor committing the batch
      changes any read at a version not below the last flushed height. */
  lemma FlushIsInvisible(old': seq<Diff>, keep: seq<Diff>, to: nat, cache: map<NodeKey, Node>,
                         nodes: map<NodeKey, Node>, version: nat, k: NodeKey)
    requires Split(old') && to <= version && forall i :: 0 <= i < |old'| ==> old'[i].height <= to
    ensures var w, p := Writes(old'), Prunes(old');
            && ReadNode(old' + keep, Flushed(cache, w, p), nodes, version, k) ==
                ReadNode(old' + keep, cache, nodes, version, k)
            && ReadNode(old' + keep, Flushed(cache, w, p), Flushed(nodes, w, p), version, k) ==
                ReadNode(old' + keep, cache, nodes, version, k)
  {
    var w, p := Writes(old'), Prunes(old');
    ScanConcat(old', keep, version, k);
    ScanIsMerge(old', version, k);
    assert Get(Flushed(cache, w, p), k) ==
           if k in w && k !in p then Some(w[k]) else if k in p && k !in w then None else Get(cache, k);
  }

  lemma {:induction false} ScanSaturates(diffs: seq<Diff>, to: nat, version: nat, k: NodeKey)
    requires to <= version && forall i :: 0 <= i < |diffs| ==> diffs[i].height <= to
    ensures Scan(diffs, version, k) == Scan(diffs, to, k)
  {
    if diffs != [] { ScanSaturates(diffs[..|diffs| - 1], to, version, k); }
  }

  /** Dropping the flushed diffs changes no such read exactly when the store already holds what the
      flush left out, that is the last change of every key both written and pruned. */
  lemma DropIsInvisibleIff(old': seq<Diff>, keep: seq<Diff>, to: nat, cache: map<NodeKey, Node>,
                           nodes: map<NodeKey, Node>)
    requires Split(old') && Coherent(cache, nodes)
    requires forall i :: 0 <= i < |old'| ==> old'[i].height <= to
    requires forall i :: 0 <= i < |keep| ==> keep[i].height > to
    ensures var w, p := Writes(old'), Prunes(old');
            (forall version: nat, k :: to <= version ==>
               ReadNode(keep, Flushed(cache, w, p), Flushed(nodes, w, p), version, k) ==
                   ReadNode(old' + keep, cache, nodes, version, k))
            <==> Settled(old', to, nodes)
  {
    var w, p := Writes(old'), Prunes(old');
    var cache', nodes' := Flushed(cache, w, p), Flushed(nodes, w, p);
    FlushKeepsCoherent(cache, nodes, w, p);
    forall version: nat, k | to <= version && (k in w && k in p ==> Scan(old', to, k) == Some(Get(nodes, k)))
      ensures ReadNode(keep, cache', nodes', version, k) == ReadNode(old' + keep, cache, nodes, version, k)
    {
      ScanConcat(old', keep, version, k);
      ScanIsMerge(old', version, k);
      ScanSaturates(old', to, version, k);
    }
    forall k | k in w && k in p
      ensures ReadNode(keep, cache', nodes', to, k) == Get(nodes, k)
      ensures Some(ReadNode(old' + keep, cache, nodes, to, k)) == Scan(old', to, k)
    {
      ScanConcat(old', keep, to, k);
      ScanIsMerge(old', to, k);
      ScanAbove(keep, to, k);
    }
    if forall version: nat, k :: to <= version ==>
        ReadNode(keep, cache', nodes', version, k) == ReadNode(old' + keep, cache, nodes, version, k) {
      forall k | k in w && k in p ensures Scan(old', to, k) == Some(Get(nodes, k)) {
        assert ReadNode(keep, cache', nodes', to, k) == ReadNode(old' + keep, cache, nodes, to, k);
      }
    }
  }

  /** The failing case: a key without a version stamp is written, then pruned, and its old value comes
      back when the diffs are dropped. */
  lemma UnstampedComesBack(k: NodeKey, stored: Node, written: Node)
    ensures var diffs := [Diff(1, map[k := Some(written)], map[]), Diff(2, map[k := None], map[])];
            var nodes := map[k := stored];
            && ReadNode(diffs, map[], nodes, 2, k) == None
            && ReadNode([], map[], Flushed(nodes, Writes(diffs), Prunes(diffs)), 2, k) == Some(stored)
  {
    var first, second := Diff(1, map[k := Some(written)], map[]), Diff(2, map[k := None], map[]);
    var diffs := [first, second];
    assert diffs[..1] == [first] && [first][..0] == [];
    assert k in Writes([first]) && k in Writes(diffs) && k in Prunes(diffs);
  }

  /** A read below the flushed heights can change: a node that a later block pruned is gone. */
  lemma FlushShowsBelow(k: NodeKey, stored: Node)
    ensures var diffs := [Diff(2, map[k := None], map[])];
            var nodes := map[k := stored];
            && ReadNode(diffs, map[], nodes, 1, k) == Some(stored)
            && ReadNode(diffs, map[], Flushed(nodes, Writes(diffs), Prunes(diffs)), 1, k) == None
  {
    var diffs := [Diff(2, map[k := None], map[])];
    assert diffs[..0] == [];
    ScanAbove(diffs, 1, k);
    assert k !in Writes(diffs) && k in Prunes(diffs);
  }

  // ---------------------------------------------------------------- version stamps

  ghost predicate StampedEntry(height: nat, k: NodeKey, v: Option<Node>) {
    if v.Some? then k.version == height else k.version < height
  }

  /** A block writes nodes of its own version and prunes older ones, each in the half of its trie. */
  ghost predicate StampedDiff(d: Diff) {
    && (forall k :: k in d.accountDiff ==> k.AccountNode? && StampedEntry(d.height, k, d.accountDiff[k]))
    && (forall k :: k in d.storageDiff ==> k.StorageNode? && StampedEntry(d.height, k, d.storageDiff[k]))
  }

  /** Journals of the account trie mention account nodes, the others storage nodes; what is written last
      has the height as its version, what is pruned last an older one. */
  ghost predicate StampedDelta(height: nat, delta: StateDelta) {
    && (forall i, k :: 0 <= i < |delta| && Touches(delta[i], k) ==> (k.AccountNode? <==> delta[i].isAccount))
    && (forall k, i :: LastTouch(delta, true, k, i) || LastTouch(delta, false, k, i) ==>
                       StampedEntry(height, k, Get(delta[i].dirtySet, k)))
  }

  /** A key that some journal of the trie mentions has a last one that does. */
  lemma {:induction false} HasLastTouch(delta: StateDelta, isAccount: bool, k: NodeKey) returns (i: int)
    requires !Untouched(delta, isAccount, k)
    ensures LastTouch(delta, isAccount, k, i)
    decreases |delta|
  {
    var n := |delta| - 1;
    if delta[n].isAccount == isAccount && Touches(delta[n], k) {
      i := n;
    } else {
      i := HasLastTouch(delta[..n], isAccount, k);
    }
  }

  lemma StampedDeltaIsDiff(height: nat, delta: StateDelta)
    requires StampedDelta(height, delta)
    ensures StampedDiff(DiffOf(height, delta))
  {
    hide DiffOf, LastTouch;
    var d := DiffOf(height, delta);
    DiffOfHeight(height, delta);
    DiffHolds(height, delta);
    forall k | k in d.accountDiff ensures k.AccountNode? && StampedEntry(height, k, d.accountDiff[k]) {
      var i := HasLastTouch(delta, true, k);
      TouchedAt(delta, true, k, i);
    }
    forall k | k in d.storageDiff ensures k.StorageNode? && StampedEntry(height, k, d.storageDiff[k]) {
      var i := HasLastTouch(delta, false, k);
      TouchedAt(delta, false, k, i);
    }
  }

  lemma TouchedAt(delta: StateDelta, isAccount: bool, k: NodeKey, i: int)
    requires LastTouch(delta, isAccount, k, i)
    ensures 0 <= i < |delta| && delta[i].isAccount == isAccount && Touches(delta[i], k)
  {
  }

  /** A search at the block's height answers for every key what the block's last journal about it says, and
      otherwise what it answered before. Older versions are not affected. */
  ghost predicate Absorbed(was: seq<Diff>, now: seq<Diff>, height: nat, delta: StateDelta) {
    && (forall k: NodeKey, i :: LastTouch(delta, k.AccountNode?, k, i) ==>
                                Scan(now, height, k) == Some(Get(delta[i].dirtySet, k)))
    && (forall k :: Untouched(delta, true, k) && Untouched(delta, false, k) ==>
                    Scan(now, height, k) == Scan(was, height, k))
    && (forall v: nat, k :: v < height ==> Scan(now, v, k) == Scan(was, v, k))
  }

  lemma AppendedIsAbsorbed(diffs: seq<Diff>, d: Diff, delta: StateDelta)
    requires HalfHolds(d.accountDiff, delta, true) && HalfHolds(d.storageDiff, delta, false)
             && StampedDelta(d.height, delta)
    ensures Absorbed(diffs, diffs + [d], d.height, delta)
  {
    assert (diffs + [d])[..|diffs|] == diffs;
    forall k: NodeKey, i | LastTouch(delta, k.AccountNode?, k, i)
      ensures Scan(diffs + [d], d.height, k) == Some(Get(delta[i].dirtySet, k))
    {
      assert Untouched(delta, !k.AccountNode?, k);
    }
  }

  ghost predicate Stamped(diffs: seq<Diff>) {
    Ascending(diffs) && forall i :: 0 <= i < |diffs| ==> StampedDiff(diffs[i])
  }

  /** The store holds only nodes written before the diffs. */
  ghost predicate Older(nodes: map<NodeKey, Node>, diffs: seq<Diff>) {
    forall k, i :: k in nodes && 0 <= i < |diffs| ==> k.version < diffs[i].height
  }

  lemma StampedIsSplit(diffs: seq<Diff>)
    requires Stamped(diffs)
    ensures Split(diffs)
  {
    forall i | 0 <= i < |diffs| ensures diffs[i].accountDiff.Keys !! diffs[i].storageDiff.Keys {
      assert StampedDiff(diffs[i]);
      forall k | k in diffs[i].accountDiff ensures k !in diffs[i].storageDiff {
      }
    }
  }

  lemma {:induction false} WritesAreStamped(diffs: seq<Diff>, k: NodeKey) returns (i: nat)
    requires Stamped(diffs) && k in Writes(diffs)
    ensures i < |diffs| && diffs[i].height == k.version
  {
    var n := |diffs| - 1;
    assert StampedDiff(diffs[n]);
    if k in Writes(diffs[..n]) {
      i := WritesAreStamped(diffs[..n], k);
    } else {
      i := n;
    }
  }

  lemma {:induction false} PrunesAreStamped(diffs: seq<Diff>, k: NodeKey) returns (i: nat)
    requires Stamped(diffs) && k in Prunes(diffs)
    ensures i < |diffs| && k.version < diffs[i].height
  {
    var n := |diffs| - 1;
    assert StampedDiff(diffs[n]);
    if k in Prunes(diffs[..n]) {
      i := PrunesAreStamped(diffs[..n], k);
    } else {
      i := n;
    }
  }

  /** A pruned key stays pruned: no later diff writes it again. */
  lemma {:induction false} PruneIsLast(diffs: seq<Diff>, to: nat, k: NodeKey)
    requires Stamped(diffs) && k in Prunes(diffs) && forall i :: 0 <= i < |diffs| ==> diffs[i].height <= to
    ensures Scan(diffs, to, k) == Some(None)
  {
    var n := |diffs| - 1;
    assert StampedDiff(diffs[n]);
    if diffs[n].Lookup(k).Some? {
      var i := PrunesAreStamped(diffs, k);
      assert diffs[n].Lookup(k) == Some(None);
    } else {
      assert k in Prunes(diffs[..n]);
      PruneIsLast(diffs[..n], to, k);
    }
  }

  /** With version-stamped keys the flush leaves out only keys that come and go within it. */
  lemma StampedIsSettled(diffs: seq<Diff>, to: nat, nodes: map<NodeKey, Node>)
    requires Stamped(diffs) && Older(nodes, diffs) && forall i :: 0 <= i < |diffs| ==> diffs[i].height <= to
    ensures Settled(diffs, to, nodes)
  {
    forall k | k in Writes(diffs) && k in Prunes(diffs) ensures Scan(diffs, to, k) == Some(Get(nodes, k)) {
      PruneIsLast(diffs, to, k);
      var i := WritesAreStamped(diffs, k);
    }
  }
}
