/** Persisting blocks and rolling the chain back. */
module ChainLedgers {
  import opened Types
  import opened CachedStorages

  datatype Tx = Tx(hash: Hash, data: Bytes)

  /** A block with its number, its hash and its transactions; the rest is opaque. */
  datatype Block = Block(number: nat, hash: Hash, txs: seq<Tx>, extra: Bytes, receipts: Bytes)

  function HashesOf(txs: seq<Tx>): seq<Hash> {
    seq(|txs|, i requires 0 <= i < |txs| => txs[i].hash)
  }

  // ---------------------------------------------------------------- what a block writes

  function TxPut(b: Block, i: nat): Op
    requires i < |b.txs|
  {
    Put(TransactionMeta(b.txs[i].hash), TxMeta(b.number, b.hash, i))
  }

  function BlockPuts(b: Block): seq<Op> {
    seq(|b.txs|, i requires 0 <= i < |b.txs| => TxPut(b, i))
    + [Put(BlockTxSet(b.number), TxHashes(HashesOf(b.txs))), Put(BlockHash(b.hash), Height(b.number))]
  }

  function BlockDeletes(b: Block): seq<Op> {
    [Delete(BlockTxSet(b.number)), Delete(BlockHash(b.hash))]
    + seq(|b.txs|, i requires 0 <= i < |b.txs| => Delete(TransactionMeta(b.txs[i].hash)))
  }

  ghost function KeysOf(b: Block): set<Key> {
    {BlockTxSet(b.number), BlockHash(b.hash)} + set t | t in b.txs :: TransactionMeta(t.hash)
  }

  ghost function KeysOfAll(bs: seq<Block>): set<Key> {
    if bs == [] then {} else KeysOfAll(bs[..|bs| - 1]) + KeysOf(bs[|bs| - 1])
  }

  /** The index entries of a chain, block after block. */
  ghost function Index(chain: seq<Block>): Store {
    if chain == [] then map[] else AppliedAll(Index(chain[..|chain| - 1]), BlockPuts(chain[|chain| - 1]))
  }

  ghost function OpKeys(ops: seq<Op>): set<Key> {
    set op | op in ops :: op.key
  }

  lemma {:induction false} OnlyOpKeys(s: Store, ops: seq<Op>, k: Key)
    ensures k !in OpKeys(ops) ==> Get(AppliedAll(s, ops), k) == Get(s, k)
    ensures k in OpKeys(ops) && (forall op :: op in ops ==> op.Put? && !op.val.Nothing?) ==> k in AppliedAll(s, ops)
    ensures k in OpKeys(ops) && (forall op :: op in ops ==> op.Delete?) ==> k !in AppliedAll(s, ops)
    decreases |ops|
  {
    if ops != [] {
      var n := |ops| - 1;
      OnlyOpKeys(s, ops[..n], k);
      assert ops == ops[..n] + [ops[n]] && ops[n] in ops;
      assert OpKeys(ops) == OpKeys(ops[..n]) + {ops[n].key};
    }
  }

  lemma PutKeys(b: Block)
    ensures OpKeys(BlockPuts(b)) == KeysOf(b) && forall op :: op in BlockPuts(b) ==> op.Put? && !op.val.Nothing?
  {
    var ops := BlockPuts(b);
    forall k | k in KeysOf(b) ensures k in OpKeys(ops) {
      if k.TransactionMeta? {
        var i :| 0 <= i < |b.txs| && TransactionMeta(b.txs[i].hash) == k;
        assert ops[i] == TxPut(b, i);
      } else {
        assert ops[|b.txs|] == Put(BlockTxSet(b.number), TxHashes(HashesOf(b.txs)));
        assert ops[|b.txs| + 1] == Put(BlockHash(b.hash), Height(b.number));
      }
    }
  }

  lemma DeleteKeys(b: Block)
    ensures OpKeys(BlockDeletes(b)) == KeysOf(b) && forall op :: op in BlockDeletes(b) ==> op.Delete?
  {
    var ops := BlockDeletes(b);
    forall k | k in KeysOf(b) ensures k in OpKeys(ops) {
      if k.TransactionMeta? {
        var i :| 0 <= i < |b.txs| && TransactionMeta(b.txs[i].hash) == k;
        assert ops[i + 2] == Delete(TransactionMeta(b.txs[i].hash));
      } else {
        assert ops[0] == Delete(BlockTxSet(b.number)) && ops[1] == Delete(BlockHash(b.hash));
      }
    }
  }

  /** Deleting what a block wrote deletes exactly its keys. */
  lemma DeletesAreKeys(s: Store, b: Block)
    ensures AppliedAll(s, BlockDeletes(b)) == s - KeysOf(b)
  {
    hide BlockDeletes, KeysOf, OpKeys, AppliedAll;
    DeleteKeys(b);
    var r := s - KeysOf(b);
    forall k ensures Get(AppliedAll(s, BlockDeletes(b)), k) == Get(r, k) {
      OnlyOpKeys(s, BlockDeletes(b), k);
    }
    SameMap(AppliedAll(s, BlockDeletes(b)), r);
  }

  /** The index of a longer chain differs from that of its start on the later blocks' keys only. */
  lemma {:induction false} IndexFrame(chain: seq<Block>, n: nat, k: Key)
    requires n <= |chain|
    ensures k !in KeysOfAll(chain[n..]) ==> Get(Index(chain), k) == Get(Index(chain[..n]), k)
    decreases |chain|
  {
    hide BlockPuts, KeysOf, AppliedAll, OpKeys;
    if n == |chain| {
      assert chain[..n] == chain;
    } else {
      var m := |chain| - 1;
      var front, last := chain[..m], chain[m];
      IndexFrame(front, n, k);
      assert chain[n..][..m - n] == front[n..] && chain[n..][m - n] == last && front[..n] == chain[..n];
      PutKeys(last);
      OnlyOpKeys(Index(front), BlockPuts(last), k);
    }
  }

  lemma {:induction false} IndexKeys(chain: seq<Block>, k: Key)
    ensures k in Index(chain) <==> k in KeysOfAll(chain)
    decreases |chain|
  {
    if chain != [] {
      var m := |chain| - 1;
      IndexKeys(chain[..m], k);
      PutKeys(chain[m]);
      OnlyOpKeys(Index(chain[..m]), BlockPuts(chain[m]), k);
      assert Get(Index(chain), k).Some? <==> k in Index(chain);
      assert Get(Index(chain[..m]), k).Some? <==> k in Index(chain[..m]);
    }
  }

  /** Exactly when removing the later blocks' keys leaves the index as it was at the earlier head:
      when no later block shares a block or transaction hash with an earlier one. */
  lemma RollbackRestoresIndexIff(chain: seq<Block>, n: nat)
    requires n <= |chain|
    ensures Index(chain) - KeysOfAll(chain[n..]) == Index(chain[..n]) <==>
            KeysOfAll(chain[..n]) !! KeysOfAll(chain[n..])
  {
    hide Index, KeysOfAll;
    var kept, gone := Index(chain[..n]), KeysOfAll(chain[n..]);
    var back := Index(chain) - gone;
    forall k ensures Get(back, k) == if k in gone then None else Get(kept, k) {
      IndexFrame(chain, n, k);
    }
    forall k ensures k in kept <==> k in KeysOfAll(chain[..n]) {
      IndexKeys(chain[..n], k);
    }
    if KeysOfAll(chain[..n]) !! gone {
      forall k ensures Get(back, k) == Get(kept, k) {
        assert Get(kept, k).Some? <==> k in kept;
      }
      SameMap(back, kept);
    } else {
      var k :| k in KeysOfAll(chain[..n]) && k in gone;
      assert k in kept && k !in back;
    }
  }

  /** The failing case: a transaction that is in two blocks is lost with the second one. */
  lemma RepeatedTxIsLost()
    ensures var chain := [Block(0, "a", [Tx("t", "")], "", ""), Block(1, "b", [Tx("t", "")], "", "")];
            Index(chain) - KeysOfAll(chain[1..]) != Index(chain[..1])
  {
    var chain := [Block(0, "a", [Tx("t", "")], "", ""), Block(1, "b", [Tx("t", "")], "", "")];
    RollbackRestoresIndexIff(chain, 1);
    KeysOfAllCons(chain[0], []);
    KeysOfAllCons(chain[1], []);
    assert chain[..1] == [chain[0]] + [] && chain[1..] == [chain[1]] + [];
    assert Tx("t", "") in chain[0].txs && Tx("t", "") in chain[1].txs;
    assert TransactionMeta("t") in KeysOfAll(chain[..1]) && TransactionMeta("t") in KeysOfAll(chain[1..]);
  }

  // ---------------------------------------------------------------- what the index answers

  /** The blocks carry their positions as numbers. */
  ghost predicate Numbered(chain: seq<Block>) {
    forall i :: 0 <= i < |chain| ==> chain[i].number == i
  }

  /** The index has a transaction exactly when some block of the chain does, and a block hash exactly
      when it is some block's. */
  lemma {:induction false} KeysMean(chain: seq<Block>, h: Hash)
    ensures TransactionMeta(h) in KeysOfAll(chain) <==>
            exists i, t :: 0 <= i < |chain| && t in chain[i].txs && t.hash == h
    ensures BlockHash(h) in KeysOfAll(chain) <==> exists i :: 0 <= i < |chain| && chain[i].hash == h
    decreases |chain|
  {
    if chain != [] {
      var m := |chain| - 1;
      var front := chain[..m];
      KeysMean(front, h);
      if TransactionMeta(h) in KeysOfAll(front) {
        var i, t :| 0 <= i < m && t in front[i].txs && t.hash == h;
        assert t in chain[i].txs;
      }
      if TransactionMeta(h) in KeysOf(chain[m]) {
        var t :| t in chain[m].txs && t.hash == h;
      }
      if i, t :| 0 <= i < |chain| && t in chain[i].txs && t.hash == h {
        assert i < m ==> t in front[i].txs;
      }
      if i :| 0 <= i < m && chain[i].hash == h {
        assert front[i].hash == h;
      }
      if BlockHash(h) in KeysOfAll(front) {
        var i :| 0 <= i < m && front[i].hash == h;
        assert chain[i].hash == h;
      }
    }
  }

  /** An index entry about a chain is true of it. */
  ghost predicate IsTrueOf(chain: seq<Block>, k: Key, v: Val) {
    match k
    case TransactionMeta(t) =>
      v.TxMeta? && v.blockHeight < |chain| && chain[v.blockHeight].hash == v.blockHash
      && v.index < |chain[v.blockHeight].txs| && chain[v.blockHeight].txs[v.index].hash == t
    case BlockTxSet(h) =>
      h < |chain| && v.TxHashes? && |v.hashes| == |chain[h].txs|
      && forall i :: 0 <= i < |v.hashes| ==> v.hashes[i] == chain[h].txs[i].hash
    case BlockHash(h) => v.Height? && v.height < |chain| && chain[v.height].hash == h
    case ChainMetaKey => false
  }

  lemma {:induction false} PutsAreTrue(s: Store, chain: seq<Block>, b: Block, ops: seq<Op>, k: Key)
    requires Numbered(chain) && chain != [] && b == chain[|chain| - 1]
    requires forall op :: op in ops ==> op.Put? && IsTrueOf(chain, op.key, op.val)
    requires k in s ==> IsTrueOf(chain, k, s[k])
    ensures k in AppliedAll(s, ops) ==> IsTrueOf(chain, k, AppliedAll(s, ops)[k])
    decreases |ops|
  {
    if ops != [] {
      var n := |ops| - 1;
      assert ops == ops[..n] + [ops[n]] && ops[n] in ops;
      PutsAreTrue(s, chain, b, ops[..n], k);
    }
  }

  /** Every answer of the index is true: a transaction is where its entry says, a block hash belongs
      to the block at its height. Together with IndexKeys: a hash without an entry is not in the chain. */
  lemma {:induction false} IndexIsTrue(chain: seq<Block>, k: Key)
    requires Numbered(chain) && k in Index(chain)
    ensures IsTrueOf(chain, k, Index(chain)[k])
    decreases |chain|
  {
    var m := |chain| - 1;
    var front, b := chain[..m], chain[m];
    if k in Index(front) {
      IndexIsTrue(front, k);
    }
    forall op | op in BlockPuts(b) ensures op.Put? && IsTrueOf(chain, op.key, op.val) {
    }
    PutsAreTrue(Index(front), chain, b, BlockPuts(b), k);
  }

  // ---------------------------------------------------------------- the ledger

  /** Four caches by height that may forget anything. */
  datatype Caches = Caches(txs: map<nat, seq<Tx>>, receipts: map<nat, Bytes>, headers: map<nat, (nat, Hash)>,
      extras: map<nat, Bytes>) {
    ghost predicate Ok(bf: seq<Block>) {
      && (forall h :: h in txs ==> h < |bf| && txs[h] == bf[h].txs)
      && (forall h :: h in receipts ==> h < |bf| && receipts[h] == bf[h].receipts)
      && (forall h :: h in headers ==> h < |bf| && headers[h] == (bf[h].number, bf[h].hash))
      && (forall h :: h in extras ==> h < |bf| && extras[h] == bf[h].extra)
    }

    ghost predicate Holds(h: nat, b: Block) {
      h in receipts && h in headers && h in extras && (h in txs <==> b.txs != [])
    }

    function Add(h: nat, b: Block): Caches {
      Caches(if |b.txs| > 0 then txs[h := b.txs] else txs,
             receipts[h := b.receipts], headers[h := (b.number, b.hash)], extras[h := b.extra])
    }

    function Remove(h: nat): Caches {
      Caches(txs - {h}, receipts - {h}, headers - {h}, extras - {h})
    }

    function Forget(t: set<nat>, r: set<nat>, h: set<nat>, e: set<nat>): Caches {
      Caches(txs - t, receipts - r, headers - h, extras - e)
    }
  }

  const NO_CACHES := Caches(map[], map[], map[], map[])

  ghost function StoreOf(bf: seq<Block>): Store {
    if bf == [] then map[] else Index(bf)[ChainMetaKey := ChainMeta(|bf| - 1, bf[|bf| - 1].hash)]
  }

  datatype Outcome = Done | NotFound | RollbackToHigherNumber

  /** The store holds the index of the chain, whatever its head entry. */
  ghost predicate Indexed(s: Store, chain: seq<Block>) {
    forall k :: k != ChainMetaKey ==> Get(s, k) == Get(Index(chain), k)
  }

  lemma {:induction false} AppliedAgree(s: Store, t: Store, ops: seq<Op>, k: Key)
    requires Get(s, k) == Get(t, k)
    ensures Get(AppliedAll(s, ops), k) == Get(AppliedAll(t, ops), k)
    decreases |ops|
  {
    if ops != [] { AppliedAgree(s, t, ops[..|ops| - 1], k); }
  }

  lemma {:induction false} AppliedConcat(s: Store, x: seq<Op>, y: seq<Op>)
    ensures AppliedAll(s, x + y) == AppliedAll(AppliedAll(s, x), y)
    decreases |y|
  {
    if y == [] {
      assert x + y == x;
    } else {
      var n := |y| - 1;
      AppliedConcat(s, x, y[..n]);
      assert (x + y)[..|x + y| - 1] == x + y[..n] && (x + y)[|x + y| - 1] == y[n];
    }
  }

  lemma IndexedNext(s: Store, chain: seq<Block>, b: Block)
    requires Indexed(s, chain)
    ensures Indexed(AppliedAll(s, BlockPuts(b)), chain + [b])
  {
    hide BlockPuts, AppliedAll;
    var s' := AppliedAll(s, BlockPuts(b));
    forall k | k != ChainMetaKey ensures Get(s', k) == Get(Index(chain + [b]), k) {
      AppliedAgree(s, Index(chain), BlockPuts(b), k);
      assert (chain + [b])[..|chain|] == chain;
    }
  }

  lemma {:induction false} NoHeadKey(bs: seq<Block>)
    ensures ChainMetaKey !in KeysOfAll(bs)
    decreases |bs|
  {
    if bs != [] { NoHeadKey(bs[..|bs| - 1]); }
  }

  lemma HeadCompletes(s: Store, bf: seq<Block>)
    requires Indexed(s, bf) && bf != []
    ensures s[ChainMetaKey := ChainMeta(|bf| - 1, bf[|bf| - 1].hash)] == StoreOf(bf)
  {
    var s', t := s[ChainMetaKey := ChainMeta(|bf| - 1, bf[|bf| - 1].hash)], StoreOf(bf);
    forall k ensures Get(s', k) == Get(t, k) {
      if k != ChainMetaKey { assert Get(s, k) == Get(Index(bf), k); }
    }
    SameMap(s', t);
  }

  lemma StoreIsIndexed(bf: seq<Block>)
    ensures Indexed(StoreOf(bf), bf)
  {
  }

  method WriteAll(batch: BatchWrapper, ops: seq<Op>)
    requires batch.Valid()
    modifies batch
    ensures batch.Valid() && batch.ops == old(batch.ops) + ops
  {
    hide Summarises;
    for i := 0 to |ops|
      invariant batch.Valid() && batch.ops == old(batch.ops) + ops[..i]
    {
      batch.Write(ops[i]);
      assert ops[..i + 1] == ops[..i] + [ops[i]];
    }
    assert ops[..|ops|] == ops;
  }

  /** Write the index entries of the blocks into a fresh batch. */
  method PrepareBatch(kv: CachedStorage, blocks: seq<Block>, ghost chain: seq<Block>) returns (batch: BatchWrapper)
    requires Indexed(kv.store, chain)
    ensures fresh(batch) && batch.storage == kv && batch.Valid()
            && Indexed(AppliedAll(kv.store, batch.ops), chain + blocks)
  {
    hide Index, BlockPuts, Summarises, AppliedAll, Indexed;
    batch := new BatchWrapper(kv);
    AppliedNothing(kv.store);
    assert chain + blocks[..0] == chain;
    for i := 0 to |blocks|
      invariant batch.Valid() && Indexed(AppliedAll(kv.store, batch.ops), chain + blocks[..i])
    {
      IndexedNext(AppliedAll(kv.store, batch.ops), chain + blocks[..i], blocks[i]);
      AppliedConcat(kv.store, batch.ops, BlockPuts(blocks[i]));
      assert chain + blocks[..i] + [blocks[i]] == chain + blocks[..i + 1];
      WriteAll(batch, BlockPuts(blocks[i]));
    }
    assert blocks[..|blocks|] == blocks;
  }

  lemma NumberedMore(bf: seq<Block>, blocks: seq<Block>)
    requires Numbered(bf) && forall i :: 0 <= i < |blocks| ==> blocks[i].number == |bf| + i
    ensures Numbered(bf + blocks)
  {
  }

  lemma CachesAdd(c: Caches, bf: seq<Block>, h: nat)
    requires c.Ok(bf) && h < |bf|
    ensures c.Add(h, bf[h]).Ok(bf)
  {
  }

  lemma CachesHoldAdded(c: Caches, bf: seq<Block>, h: nat)
    requires h < |bf|
    ensures h !in c.txs ==> c.Add(h, bf[h]).Holds(h, bf[h])
    ensures forall i: nat :: i != h && i < |bf| && c.Holds(i, bf[i]) ==> c.Add(h, bf[h]).Holds(i, bf[i])
    ensures forall i: nat :: i != h && i !in c.txs ==> i !in c.Add(h, bf[h]).txs
  {
  }

  lemma CachesLack(c: Caches, bf: seq<Block>)
    requires c.Ok(bf)
    ensures forall h: nat :: h >= |bf| ==> h !in c.txs
  {
  }

  lemma CachesShrink(c: Caches, bf: seq<Block>)
    requires c.Ok(bf) && bf != []
    ensures c.Remove(|bf| - 1).Ok(bf[..|bf| - 1])
  {
  }

  lemma CachesGrow(c: Caches, bf: seq<Block>, more: seq<Block>)
    requires c.Ok(bf)
    ensures c.Ok(bf + more)
  {
  }

  class ChainLedger {
    const kv: CachedStorage
    /** The block file, by height. */
    var bf: seq<Block>
    var caches: Caches
    var chainMeta: Option<(nat, Hash)>

    ghost predicate HeadOk()
      reads this
    {
      chainMeta == if bf == [] then None else Some((|bf| - 1, bf[|bf| - 1].hash))
    }

    ghost predicate Valid()
      reads this, kv
    {
      kv.Valid() && Numbered(bf) && caches.Ok(bf) && HeadOk() && kv.store == StoreOf(bf)
    }

    constructor ()
      ensures Valid() && bf == [] && fresh(kv)
    {
      kv := new CachedStorage();
      bf, caches, chainMeta := [], NO_CACHES, None;
    }

    /** The caches forget some entries. */
    method Evict(keys: set<Key>, t: set<nat>, r: set<nat>, h: set<nat>, e: set<nat>)
      requires Valid()
      modifies this`caches, kv
      ensures Valid() && bf == old(bf)
      ensures caches.txs == old(caches.txs) - t && caches.receipts == old(caches.receipts) - r
      ensures caches.headers == old(caches.headers) - h && caches.extras == old(caches.extras) - e
    {
      kv.Evict(keys);
      caches := caches.Forget(t, r, h, e);
    }

    /** A block read through the caches; receipts are read apart from it. */
    method GetBlock(height: nat) returns (r: Option<Block>)
      requires caches.Ok(bf)
      modifies this`caches
      ensures caches.Ok(bf)
      ensures chainMeta.None? || height > chainMeta.value.0 || height >= |bf| ==> r.None?
      ensures chainMeta.Some? && height <= chainMeta.value.0 && height < |bf| ==> r == Some(bf[height].(receipts := ""))
    {
      if chainMeta.None? || height > chainMeta.value.0 {
        return None;
      }
      if height !in caches.headers {
        if height >= |bf| {
          return None;
        }
        caches := caches.(headers := caches.headers[height := (bf[height].number, bf[height].hash)]);
      }
      if height !in caches.txs {
        caches := caches.(txs := caches.txs[height := bf[height].txs]);
      }
      if height !in caches.extras {
        caches := caches.(extras := caches.extras[height := bf[height].extra]);
      }
      var header := caches.headers[height];
      return Some(Block(header.0, header.1, caches.txs[height], caches.extras[height], ""));
    }

    method GetTransactionMeta(hash: Hash) returns (r: Option<Val>)
      requires Valid()
      modifies kv`cache
      ensures Valid() && r == Get(Index(bf), TransactionMeta(hash))
      ensures r.Some? <==> exists i, t :: 0 <= i < |bf| && t in bf[i].txs && t.hash == hash
      ensures r.Some? ==>
                && r.value.TxMeta? && r.value.blockHeight < |bf| && bf[r.value.blockHeight].hash == r.value.blockHash
                && r.value.index < |bf[r.value.blockHeight].txs|
                && bf[r.value.blockHeight].txs[r.value.index].hash == hash
    {
      hide Index, KeysOfAll;
      KeysMean(bf, hash);
      IndexKeys(bf, TransactionMeta(hash));
      if TransactionMeta(hash) in Index(bf) {
        IndexIsTrue(bf, TransactionMeta(hash));
      }
      StoreIsIndexed(bf);
      r := kv.Read(TransactionMeta(hash));
    }

    method GetBlockNumberByHash(hash: Hash) returns (r: Option<Val>)
      requires Valid()
      modifies kv`cache
      ensures Valid() && r == Get(Index(bf), BlockHash(hash))
      ensures r.Some? <==> exists i :: 0 <= i < |bf| && bf[i].hash == hash
      ensures r.Some? ==> r.value.Height? && r.value.height < |bf| && bf[r.value.height].hash == hash
    {
      hide Index, KeysOfAll;
      KeysMean(bf, hash);
      IndexKeys(bf, BlockHash(hash));
      if BlockHash(hash) in Index(bf) {
        IndexIsTrue(bf, BlockHash(hash));
      }
      StoreIsIndexed(bf);
      r := kv.Read(BlockHash(hash));
    }

    /** A transaction by hash, from its block in the cache or the block file. It is found exactly when
        the chain has it, and has the hash asked for. */
    method GetTransaction(hash: Hash) returns (r: Option<Tx>)
      requires Valid()
      modifies kv`cache
      ensures Valid()
      ensures r.Some? <==> exists i, t :: 0 <= i < |bf| && t in bf[i].txs && t.hash == hash
      ensures r.Some? ==> r.value.hash == hash && exists i :: 0 <= i < |bf| && r.value in bf[i].txs
    {
      hide Index, StoreOf, Coherent, KeysOfAll;
      KeysMean(bf, hash);
      IndexKeys(bf, TransactionMeta(hash));
      StoreIsIndexed(bf);
      var meta := kv.Read(TransactionMeta(hash));
      assert meta == Get(Index(bf), TransactionMeta(hash));
      if meta.None? {
        return None;
      }
      IndexIsTrue(bf, TransactionMeta(hash));
      var m := meta.value;
      var txs := if m.blockHeight in caches.txs then caches.txs[m.blockHeight] else bf[m.blockHeight].txs;
      assert txs[m.index] in bf[m.blockHeight].txs;
      return Some(txs[m.index]);
    }

    /** Persist consecutive blocks. */
    method BatchPersist(blocks: seq<Block>)
      requires Valid() && blocks != [] && forall i :: 0 <= i < |blocks| ==> blocks[i].number == |bf| + i
      modifies this, kv
      ensures Valid() && bf == old(bf) + blocks && CachesHold(|old(bf)|)
    {
      hide Index, BlockPuts, Summarises, Coherent, AppliedAll, Indexed, StoreOf, Numbered, Caches.Ok;
      ghost var s0 := kv.store;
      StoreIsIndexed(bf);
      NumberedMore(bf, blocks);
      var batch := PrepareBatch(kv, blocks, bf);
      var last := blocks[|blocks| - 1];
      HeadCompletes(AppliedAll(s0, batch.ops), bf + blocks);
      HeadPut(s0, batch.ops, ChainMeta(last.number, last.hash));
      batch.Write(Put(ChainMetaKey, ChainMeta(last.number, last.hash)));
      batch.Commit();
      bf := bf + blocks;
      chainMeta := Some((last.number, last.hash));
      assert kv.store == StoreOf(bf) && HeadOk();
      CacheBlocks(old(bf), blocks);
    }

    /** The blocks from the given height on are cached, transactions only of blocks that have some. */
    ghost predicate CachesHold(from: nat)
      reads this
    {
      forall h :: from <= h < |bf| ==> caches.Holds(h, bf[h])
    }

    method CacheBlocks(ghost was: seq<Block>, blocks: seq<Block>)
      requires bf == was + blocks && Numbered(bf) && caches.Ok(was)
      modifies this`caches
      ensures caches.Ok(bf) && CachesHold(|was|)
    {
      hide Caches.Ok, Caches.Add, Caches.Holds;
      CachesGrow(caches, was, blocks);
      CachesLack(caches, was);
      for i := 0 to |blocks|
        invariant caches.Ok(bf) && forall h: nat :: h >= |was| + i ==> h !in caches.txs
        invariant forall h: nat :: |was| <= h < |was| + i ==> caches.Holds(h, bf[h])
      {
        assert blocks[i] == bf[|was| + i];
        CachesAdd(caches, bf, |was| + i);
        CachesHoldAdded(caches, bf, |was| + i);
        caches := caches.Add(blocks[i].number, blocks[i]);
      }
    }

    /** Take the last block off: truncate the block file, queue the deletion of its entries and drop it
        from the caches. */
    method RemoveChainDataOnBlock(batch: BatchWrapper)
      requires caches.Ok(bf) && bf != [] && chainMeta.Some? && |bf| - 1 <= chainMeta.value.0 && batch.Valid()
      modifies this`bf, this`caches, batch
      ensures bf == old(bf)[..|old(bf)| - 1] && caches.Ok(bf) && batch.Valid()
      ensures batch.ops == old(batch.ops) + BlockDeletes(old(bf)[|old(bf)| - 1])
    {
      hide Summarises, Caches.Ok, Caches.Remove, BlockDeletes;
      var height := |bf| - 1;
      var block := GetBlock(height);
      DeletesIgnoreReceipts(bf[height]);
      CachesShrink(caches, bf);
      bf := bf[..height];
      WriteAll(batch, BlockDeletes(block.value));
      caches := caches.Remove(height);
    }

    /** Roll back to a height. The batch may be committed after any block. All lookups answer as they
        did at that head exactly when the removed blocks share no hash with the remaining ones. */
    method RollbackBlockChain(height: nat, commitAfter: nat -> bool) returns (r: Outcome)
      requires Valid()
      modifies this, kv
      ensures r.Done? || r.RollbackToHigherNumber?
      ensures r.RollbackToHigherNumber? <==> (if old(bf) == [] then 0 else |old(bf)| - 1) < height
      ensures !r.Done? || height + 1 >= |old(bf)| ==> Valid() && bf == old(bf)
      ensures r.Done? && height + 1 < |old(bf)| ==>
                bf == old(bf)[..height + 1] && (Valid() <==>
                    KeysOfAll(old(bf)[..height + 1]) !! KeysOfAll(old(bf)[height + 1..]))
    {
      hide Summarises, Coherent, AppliedAll, BlockDeletes, KeysOfAll, StoreOf, Caches.Ok, Numbered;
      var head := if chainMeta.Some? then chainMeta.value.0 else 0;
      if head < height {
        return RollbackToHigherNumber;
      }
      if head == height || chainMeta.None? {
        return Done;
      }
      ghost var bf0, s0 := bf, kv.store;
      var batch := new BatchWrapper(kv);
      var i := head;
      AppliedNothing(s0);
      NothingRemoved(s0, bf0);
      while i > height
        invariant height <= i <= head == |bf0| - 1 && bf == bf0[..i + 1] && caches.Ok(bf) && chainMeta == old(chainMeta)
        invariant fresh(batch) && batch.storage == kv && batch.Valid() && kv.Valid()
        invariant AppliedAll(kv.store, batch.ops) == s0 - KeysOfAll(bf0[i + 1..])
      {
        RemoveOne(kv.store, batch.ops, s0, bf0, i);
        RemoveChainDataOnBlock(batch);
        if commitAfter(i) {
          batch.Commit();
          batch.Reset();
          AppliedNothing(kv.store);
        }
        i := i - 1;
      }
      var block := GetBlock(height);
      var meta := ChainMeta(block.value.number, block.value.hash);
      HeadPut(kv.store, batch.ops, meta);
      batch.Write(Put(ChainMetaKey, meta));
      batch.Commit();
      chainMeta := Some((block.value.number, block.value.hash));
      RolledBackStore(s0, bf0, height + 1);
      NumberedPrefix(bf0, height + 1);
      return Done;
    }
  }

  lemma DeletesIgnoreReceipts(b: Block)
    ensures BlockDeletes(b.(receipts := "")) == BlockDeletes(b)
  {
  }

  lemma NumberedPrefix(bf: seq<Block>, n: nat)
    requires Numbered(bf) && 0 < n <= |bf|
    ensures Numbered(bf[..n]) && bf[n - 1].number == n - 1
  {
  }

  lemma NothingRemoved(s: Store, bf: seq<Block>)
    ensures s - KeysOfAll(bf[|bf|..]) == s
  {
  }

  lemma {:induction false} KeysOfAllCons(b: Block, bs: seq<Block>)
    ensures KeysOfAll([b] + bs) == KeysOf(b) + KeysOfAll(bs)
    decreases |bs|
  {
    if bs == [] {
      assert [b] + bs == [b] && [b][..0] == [];
    } else {
      var n := |bs| - 1;
      KeysOfAllCons(b, bs[..n]);
      assert ([b] + bs)[..n + 1] == [b] + bs[..n] && ([b] + bs)[n + 1] == bs[n];
    }
  }

  lemma RemoveOne(s: Store, ops: seq<Op>, s0: Store, bf: seq<Block>, i: nat)
    requires i < |bf| && AppliedAll(s, ops) == s0 - KeysOfAll(bf[i + 1..])
    ensures AppliedAll(s, ops + BlockDeletes(bf[i])) == s0 - KeysOfAll(bf[i..])
  {
    hide AppliedAll, BlockDeletes, KeysOf, KeysOfAll;
    AppliedConcat(s, ops, BlockDeletes(bf[i]));
    DeletesAreKeys(AppliedAll(s, ops), bf[i]);
    KeysOfAllCons(bf[i], bf[i + 1..]);
    assert [bf[i]] + bf[i + 1..] == bf[i..];
  }

  /** The store after a rollback is that of the shorter chain exactly when no hash is shared. */
  lemma RolledBackStore(s0: Store, bf: seq<Block>, n: nat)
    requires s0 == StoreOf(bf) && 0 < n < |bf|
    ensures (s0 - KeysOfAll(bf[n..]))[ChainMetaKey := ChainMeta(n - 1, bf[n - 1].hash)] == StoreOf(bf[..n])
            <==> KeysOfAll(bf[..n]) !! KeysOfAll(bf[n..])
  {
    hide Index, KeysOfAll;
    RollbackRestoresIndexIff(bf, n);
    NoHeadKey(bf[n..]);
    NoHeadKey(bf[..n]);
    NoHeadKey(bf);
    IndexKeys(bf[..n], ChainMetaKey);
    IndexKeys(bf, ChainMetaKey);
    var gone, meta := KeysOfAll(bf[n..]), ChainMeta(n - 1, bf[n - 1].hash);
    var back, kept := Index(bf) - gone, Index(bf[..n]);
    assert (s0 - gone)[ChainMetaKey := meta] == back[ChainMetaKey := meta];
    assert StoreOf(bf[..n]) == kept[ChainMetaKey := meta];
    assert back[ChainMetaKey := meta] - {ChainMetaKey} == back && kept[ChainMetaKey := meta] - {ChainMetaKey} == kept;
  }

  lemma AppliedNothing(s: Store)
    ensures AppliedAll(s, []) == s
  {
  }

  lemma HeadPut(s: Store, ops: seq<Op>, v: Val)
    requires v.ChainMeta?
    ensures AppliedAll(s, ops + [Put(ChainMetaKey, v)]) == AppliedAll(s, ops)[ChainMetaKey := v]
  {
    AppliedSnoc(s, ops, Put(ChainMetaKey, v));
  }
}
