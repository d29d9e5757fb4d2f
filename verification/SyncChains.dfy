/** Why a chunk whose last block is confirmed holds exactly the headers of the chain, and its blocks
    exactly when the bodies match. */
module SyncChains {
  import opened Types

  /** The transactions of a block. */
  type Body = seq<Hash>

  /** What a header says, and its hash. */
  datatype Header = Header(height: nat, parent: Hash, txRoot: Hash, hash: Hash)

  /** A fetched block. Its hash is that of its header. */
  datatype Block = Block(header: Header, txs: Body)

  /** The blocks the network agreed on, by height. */
  type Chain = nat -> Block

  /** The root of the transactions, and what the header says about it, agree. */
  predicate BodyOk(root: Body -> Hash, b: Block) {
    root(b.txs) == b.header.txRoot
  }

  ghost predicate BodiesOk(root: Body -> Hash, bs: seq<Block>) {
    forall i :: 0 <= i < |bs| ==> BodyOk(root, bs[i])
  }

  /** No other header has the hash of a header of the chain, nor the hash genesis names as parent. The
      transactions may be any. */
  ghost predicate Authentic(chain: Chain, b: Block) {
    && b.header.hash != chain(0).header.parent
    && forall h: nat :: b.header.hash == chain(h).header.hash ==> b.header == chain(h).header
  }

  /** Headers are linked by their hashes, and no other transactions have the root of a chain block's. */
  ghost predicate ChainOk(root: Body -> Hash, chain: Chain) {
    && (forall h: nat :: && chain(h).header.height == h && chain(h + 1).header.parent == chain(h).header.hash
                         && Authentic(chain, chain(h)) && BodyOk(root, chain(h)))
    && (forall h: nat, txs :: root(txs) == root(chain(h).txs) ==> txs == chain(h).txs)
  }

  /** Each block names the one before it as parent, the first one the given digest. */
  ghost predicate Linked(bs: seq<Block>, digest: Hash) {
    && (bs != [] ==> bs[0].header.parent == digest)
    && (forall i :: 0 < i < |bs| ==> bs[i].header.parent == bs[i - 1].header.hash)
  }

  /** These blocks have the chain's headers from the given height on. */
  ghost predicate HeadersOf(chain: Chain, start: nat, bs: seq<Block>) {
    forall i :: 0 <= i < |bs| ==> bs[i].header == chain(start + i).header
  }

  /** These are the chain's blocks from the given height on. */
  ghost predicate PartOf(chain: Chain, start: nat, bs: seq<Block>) {
    forall i :: 0 <= i < |bs| ==> bs[i] == chain(start + i)
  }

  lemma {:induction false} WalkBack(root: Body -> Hash, chain: Chain, bs: seq<Block>, digest: Hash, top: nat, k: nat)
    requires ChainOk(root, chain) && Linked(bs, digest) && k < |bs| && bs[|bs| - 1].header == chain(top).header
    requires forall i :: 0 <= i < |bs| ==> Authentic(chain, bs[i])
    ensures top >= |bs| - 1 - k && bs[k].header == chain(top - (|bs| - 1 - k)).header
    decreases |bs| - k
  {
    if k < |bs| - 1 {
      WalkBack(root, chain, bs, digest, top, k + 1);
      var m := top - (|bs| - 2 - k);
      assert bs[k + 1].header.parent == bs[k].header.hash;
      assert Authentic(chain, bs[k]);
      assert m > 0 ==> chain(m - 1 + 1).header.parent == chain(m - 1).header.hash;
    }
  }

  /** Linked blocks that start behind a known block and end in a confirmed one have the chain's own
      headers, whatever heights they claim. */
  lemma ConfirmedIsChain(root: Body -> Hash, chain: Chain, bs: seq<Block>, start: nat)
    requires ChainOk(root, chain) && start >= 1 && bs != [] && Linked(bs, chain(start - 1).header.hash)
    requires forall i :: 0 <= i < |bs| ==> Authentic(chain, bs[i])
    requires var last := bs[|bs| - 1].header; last.hash == chain(last.height).header.hash
    ensures HeadersOf(chain, start, bs)
  {
    var top := bs[|bs| - 1].header.height;
    assert Authentic(chain, bs[|bs| - 1]);
    forall k | 0 <= k < |bs| ensures top >= |bs| - 1 - k && bs[k].header == chain(top - (|bs| - 1 - k)).header {
      WalkBack(root, chain, bs, chain(start - 1).header.hash, top, k);
    }
    WalkBack(root, chain, bs, chain(start - 1).header.hash, top, 0);
    var m := top - (|bs| - 1);
    assert bs[0].header == chain(m).header && chain(m).header.parent == chain(start - 1).header.hash;
    assert Authentic(chain, chain(start - 1));
    assert m > 0 ==> chain(m - 1 + 1).header.parent == chain(m - 1).header.hash;
    assert m == start;
  }

  /** Blocks with the chain's headers are the chain's exactly when every body matches its header. */
  lemma BodiesDecide(root: Body -> Hash, chain: Chain, start: nat, bs: seq<Block>)
    requires ChainOk(root, chain) && HeadersOf(chain, start, bs)
    ensures PartOf(chain, start, bs) <==> BodiesOk(root, bs)
  {
    forall i | 0 <= i < |bs| ensures bs[i] == chain(start + i) <==> BodyOk(root, bs[i]) {
      var h: nat := start + i;
      assert BodyOk(root, chain(h)) && bs[i].header == chain(h).header;
    }
    if BodiesOk(root, bs) {
      forall i | 0 <= i < |bs| ensures bs[i] == chain(start + i) {
        assert BodyOk(root, bs[i]);
      }
    }
  }

  lemma HeadersExtend(chain: Chain, start: nat, bs: seq<Block>, next: seq<Block>)
    requires HeadersOf(chain, start, bs) && HeadersOf(chain, start + |bs|, next)
    ensures HeadersOf(chain, start, bs + next)
  {
  }

  lemma BodiesExtend(root: Body -> Hash, bs: seq<Block>, next: seq<Block>)
    ensures BodiesOk(root, bs + next) <==> BodiesOk(root, bs) && BodiesOk(root, next)
  {
    var all := bs + next;
    if BodiesOk(root, all) {
      forall i | 0 <= i < |next| ensures BodyOk(root, next[i]) {
        assert all[|bs| + i] == next[i];
      }
      forall i | 0 <= i < |bs| ensures BodyOk(root, bs[i]) {
        assert all[i] == bs[i];
      }
    }
  }

  lemma HeaderHeights(root: Body -> Hash, chain: Chain, start: nat, bs: seq<Block>)
    requires ChainOk(root, chain) && HeadersOf(chain, start, bs)
    ensures forall i :: 0 <= i < |bs| ==> bs[i].header.height == start + i
    ensures bs != [] ==> bs[|bs| - 1].header.hash == chain(start + |bs| - 1).header.hash
  {
  }

  /** There are such chains: hashes that grow by a letter per block, transactions that are their own root. */
  lemma ChainsExist() returns (root: Body -> Hash, chain: Chain)
    ensures ChainOk(root, chain) && forall txs :: BodyOk(root, Block(chain(1).header, txs)) <==> txs == chain(1).txs
  {
    chain := (h: nat) => Block(Header(h, Letters(h), "root", Letters(h + 1)), ["tx"]);
    root := (txs: Body) => if txs == ["tx"] then "root" else "";
    forall h: nat, g: nat ensures |Letters(h)| == h && (Letters(h) == Letters(g) <==> h == g) {
      LettersLength(h);
      LettersLength(g);
    }
  }

  function Letters(n: nat): Hash {
    if n == 0 then "" else Letters(n - 1) + "a"
  }

  lemma {:induction false} LettersLength(n: nat)
    ensures |Letters(n)| == n
  {
    if n > 0 {
      LettersLength(n - 1);
    }
  }
}
