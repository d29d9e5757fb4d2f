/** The file of local transactions: records behind an eight-byte little-endian length. */
module TxRecords {
  import opened Types

  type Byte = x: int | 0 <= x < 256

  const PREFIX_LENGTH := 8
  const BATCH_SIZE := 1000

  function Pow256(k: nat): nat {
    if k == 0 then 1 else 256 * Pow256(k - 1)
  }

  /** The prefix holds any length of 64 bits. */
  lemma PrefixHolds64Bits()
    ensures Pow256(PREFIX_LENGTH) == MAX_UINT64 + 1
  {
    assert Pow256(4) == 256 * 256 * 256 * 256;
    assert Pow256(6) == 256 * 256 * Pow256(4);
  }

  function PutUint(n: nat, width: nat): (r: seq<Byte>)
    ensures |r| == width
  {
    if width == 0 then [] else [n % 256] + PutUint(n / 256, width - 1)
  }

  function Uint(bs: seq<Byte>): nat {
    if bs == [] then 0 else bs[0] + 256 * Uint(bs[1..])
  }

  lemma {:induction false} UintOfPut(n: nat, width: nat)
    requires n < Pow256(width)
    ensures Uint(PutUint(n, width)) == n
  {
    if width > 0 {
      UintOfPut(n / 256, width - 1);
      assert PutUint(n, width)[1..] == PutUint(n / 256, width - 1);
    }
  }

  function Frame(r: seq<Byte>): seq<Byte> {
    PutUint(|r|, PREFIX_LENGTH) + r
  }

  function Encode(rs: seq<seq<Byte>>): seq<Byte> {
    if rs == [] then [] else Frame(rs[0]) + Encode(rs[1..])
  }

  /** The records a reader gets: as long as a prefix and the bytes it announces are there. */
  function Parse(bs: seq<Byte>): seq<seq<Byte>>
    decreases |bs|
  {
    if |bs| < PREFIX_LENGTH then []
    else
      var n := Uint(bs[..PREFIX_LENGTH]);
      if |bs| - PREFIX_LENGTH < n then []
      else [bs[PREFIX_LENGTH..PREFIX_LENGTH + n]] + Parse(bs[PREFIX_LENGTH + n..])
  }

  /** Every record is short enough for its length to fit the prefix. */
  ghost predicate Fit(rs: seq<seq<Byte>>) {
    forall i :: 0 <= i < |rs| ==> |rs[i]| < Pow256(PREFIX_LENGTH)
  }

  /** How many frames are complete within the first n bytes. */
  ghost function Complete(rs: seq<seq<Byte>>, n: nat): (k: nat)
    ensures k <= |rs|
  {
    if rs == [] || n < |Frame(rs[0])| then 0 else 1 + Complete(rs[1..], n - |Frame(rs[0])|)
  }

  /** Complete is the number of records whose whole encoding is there. */
  lemma {:induction false} CompleteMeans(rs: seq<seq<Byte>>, n: nat, k: nat)
    requires k <= |rs|
    ensures k <= Complete(rs, n) <==> |Encode(rs[..k])| <= n
    decreases |rs|
  {
    if k > 0 {
      assert rs[..k][1..] == rs[1..][..k - 1];
      if n >= |Frame(rs[0])| {
        CompleteMeans(rs[1..], n - |Frame(rs[0])|, k - 1);
      }
    }
  }

  lemma ParseFrame(r: seq<Byte>, rest: seq<Byte>)
    requires |r| < Pow256(PREFIX_LENGTH)
    ensures Parse(Frame(r) + rest) == [r] + Parse(rest)
  {
    var bs := Frame(r) + rest;
    UintOfPut(|r|, PREFIX_LENGTH);
    assert bs[..PREFIX_LENGTH] == PutUint(|r|, PREFIX_LENGTH);
    assert bs[PREFIX_LENGTH..PREFIX_LENGTH + |r|] == r && bs[PREFIX_LENGTH + |r|..] == rest;
  }

  lemma ParseCutFrame(r: seq<Byte>, bs: seq<Byte>)
    requires |r| < Pow256(PREFIX_LENGTH) && bs < Frame(r)
    ensures Parse(bs) == []
  {
    if |bs| >= PREFIX_LENGTH {
      UintOfPut(|r|, PREFIX_LENGTH);
      assert bs[..PREFIX_LENGTH] == Frame(r)[..PREFIX_LENGTH] == PutUint(|r|, PREFIX_LENGTH);
    }
  }

  /** A file cut anywhere, say by a crash, gives back exactly the records it holds completely. */
  lemma {:induction false} CutFileParses(rs: seq<seq<Byte>>, n: nat)
    requires Fit(rs) && n <= |Encode(rs)|
    ensures Parse(Encode(rs)[..n]) == rs[..Complete(rs, n)]
    decreases |rs|
  {
    if rs == [] {
      assert Parse([]) == [];
    } else {
      var f, rest := Frame(rs[0]), Encode(rs[1..]);
      if n < |f| {
        assert (f + rest)[..n] == f[..n];
        ParseCutFrame(rs[0], f[..n]);
      } else {
        assert (f + rest)[..n] == f + rest[..n - |f|];
        ParseFrame(rs[0], rest[..n - |f|]);
        CutFileParses(rs[1..], n - |f|);
        assert [rs[0]] + rs[1..][..Complete(rs[1..], n - |f|)] == rs[..Complete(rs, n)];
      }
    }
  }

  /** An uncut file gives back everything. */
  lemma FileParses(rs: seq<seq<Byte>>)
    requires Fit(rs)
    ensures Parse(Encode(rs)) == rs
  {
    CutFileParses(rs, |Encode(rs)|);
    CompleteMeans(rs, |Encode(rs)|, |rs|);
    assert rs[..|rs|] == rs && Encode(rs)[..|Encode(rs)|] == Encode(rs);
  }

  lemma {:induction false} EncodeConcat(rs: seq<seq<Byte>>, more: seq<seq<Byte>>)
    ensures Encode(rs + more) == Encode(rs) + Encode(more)
    decreases |rs|
  {
    if rs == [] {
      assert rs + more == more;
    } else {
      EncodeConcat(rs[1..], more);
      assert (rs + more)[0] == rs[0] && (rs + more)[1..] == rs[1..] + more;
    }
  }

  lemma EmptyFile()
    ensures Encode([]) == []
  {
  }

  lemma EncodeSnoc(rs: seq<seq<Byte>>, r: seq<Byte>)
    ensures Encode(rs + [r]) == Encode(rs) + Frame(r)
  {
    EncodeConcat(rs, [r]);
    assert Encode([r]) == Frame(r) + Encode([]) == Frame(r);
  }

  // ---------------------------------------------------------------- reading and writing

  /** One step of a reader at a position: the record there, and where to go on. */
  method ReadRecord(file: seq<Byte>, pos: nat) returns (r: Option<seq<Byte>>, next: nat)
    requires pos + PREFIX_LENGTH <= |file|
    ensures pos < next <= |file|
    ensures Parse(file[pos..]) == (if r.Some? then [r.value] else []) + Parse(file[next..])
  {
    var bs := file[pos..];
    var n := Uint(bs[..PREFIX_LENGTH]);
    if |bs| - PREFIX_LENGTH < n {
      r, next := None, |file|;
      assert Parse(file[next..]) == [];
    } else {
      r, next := Some(bs[PREFIX_LENGTH..PREFIX_LENGTH + n]), pos + PREFIX_LENGTH + n;
      assert file[next..] == bs[PREFIX_LENGTH + n..];
    }
  }

  method GetAllTxRecords(file: seq<Byte>) returns (res: seq<seq<Byte>>)
    ensures res == Parse(file)
  {
    res := [];
    var pos := 0;
    assert file[0..] == file;
    while |file| - pos >= PREFIX_LENGTH
      invariant 0 <= pos <= |file| && Parse(file) == res + Parse(file[pos..])
      decreases |file| - pos
    {
      var r;
      r, pos := ReadRecord(file, pos);
      if r.Some? {
        res := res + [r.value];
      }
    }
  }

  function Decoded<T>(rs: seq<seq<Byte>>, unmarshal: seq<Byte> -> Option<T>): seq<T> {
    if rs == [] then []
    else
      var front, t := Decoded(rs[..|rs| - 1], unmarshal), unmarshal(rs[|rs| - 1]);
      if t.Some? then front + [t.value] else front
  }

  function Flatten<T>(batches: seq<seq<T>>): seq<T> {
    if batches == [] then [] else Flatten(batches[..|batches| - 1]) + batches[|batches| - 1]
  }

  lemma DecodedSnoc<T>(rs: seq<seq<Byte>>, r: seq<Byte>, unmarshal: seq<Byte> -> Option<T>)
    ensures Decoded(rs + [r], unmarshal) == Decoded(rs, unmarshal) + if unmarshal(r).Some? then [unmarshal(r).value]
            else []
  {
    assert (rs + [r])[..|rs|] == rs;
  }

  lemma NothingYet<T>(unmarshal: seq<Byte> -> Option<T>)
    ensures Flatten<T>([]) == [] == Decoded([], unmarshal)
  {
  }

  lemma ShortTail(bs: seq<Byte>)
    requires |bs| < PREFIX_LENGTH
    ensures Parse(bs) == []
  {
  }

  lemma FlattenSnoc<T>(batches: seq<seq<T>>, batch: seq<T>)
    ensures Flatten(batches + [batch]) == Flatten(batches) + batch
  {
    assert (batches + [batch])[..|batches|] == batches;
  }

  /** Load a file in batches. Together they are the decodable records of the file, in order; every
      batch but the last is full and none is empty. */
  method Load<T>(file: seq<Byte>, unmarshal: seq<Byte> -> Option<T>) returns (batches: seq<seq<T>>)
    ensures Flatten(batches) == Decoded(Parse(file), unmarshal)
    ensures forall i :: 0 <= i < |batches| ==>
            0 < |batches[i]| <= BATCH_SIZE && (i < |batches| - 1 ==> |batches[i]| == BATCH_SIZE)
  {
    hide Parse, Decoded, Flatten;
    batches := [];
    var batch: seq<T>, pos := [], 0;
    NothingYet(unmarshal);
    ghost var res: seq<seq<Byte>> := [];
    assert file[0..] == file;
    while |file| - pos >= PREFIX_LENGTH
      invariant 0 <= pos <= |file| && Parse(file) == res + Parse(file[pos..])
      invariant Flatten(batches) + batch == Decoded(res, unmarshal)
      invariant |batch| < BATCH_SIZE && forall i :: 0 <= i < |batches| ==> |batches[i]| == BATCH_SIZE
      decreases |file| - pos
    {
      var r;
      r, pos := ReadRecord(file, pos);
      if r.None? {
        continue;
      }
      DecodedSnoc(res, r.value, unmarshal);
      res := res + [r.value];
      var tx := unmarshal(r.value);
      if tx.None? {
        continue;
      }
      batch := batch + [tx.value];
      if |batch| >= BATCH_SIZE {
        FlattenSnoc(batches, batch);
        batches, batch := batches + [batch], [];
      }
    }
    ShortTail(file[pos..]);
    assert res == Parse(file);
    if |batch| > 0 {
      FlattenSnoc(batches, batch);
      batches := batches + [batch];
    }
  }

  /** A pooled transaction as rotation sees it: whether it is local, and its bytes if they marshal. */
  datatype PoolItem = PoolItem(local: bool, marshaled: Option<seq<Byte>>)

  function LocalRecords(items: seq<PoolItem>): seq<seq<Byte>> {
    if items == [] then []
    else
      var front, t := LocalRecords(items[..|items| - 1]), items[|items| - 1];
      if t.local && t.marshaled.Some? then front + [t.marshaled.value] else front
  }

  /** The records are the bytes of the items at these positions, which rise and are those of exactly the
      local items that marshal. */
  ghost predicate Picked(items: seq<PoolItem>, at: seq<int>, rs: seq<seq<Byte>>) {
    && |rs| == |at| && (forall i, j :: 0 <= i < j < |at| ==> at[i] < at[j])
    && (forall i :: 0 <= i < |at| ==>
        0 <= at[i] < |items| && items[at[i]].local
        && items[at[i]].marshaled == Some(rs[i]))
    && (forall k :: 0 <= k < |items| && items[k].local && items[k].marshaled.Some? ==> k in at)
  }

  lemma {:induction false} LocalRecordsArePicked(items: seq<PoolItem>) returns (at: seq<int>)
    ensures Picked(items, at, LocalRecords(items))
    decreases |items|
  {
    if items == [] {
      at := [];
    } else {
      var n := |items| - 1;
      at := LocalRecordsArePicked(items[..n]);
      var t, rs := items[n], LocalRecords(items[..n]);
      if t.local && t.marshaled.Some? {
        PickOne(items, at, rs);
        at := at + [n];
      } else {
        PickNone(items, at, rs);
      }
    }
  }

  lemma PickOne(items: seq<PoolItem>, at: seq<int>, rs: seq<seq<Byte>>)
    requires items != [] && Picked(items[..|items| - 1], at, rs)
    requires var t := items[|items| - 1]; t.local && t.marshaled.Some?
    ensures Picked(items, at + [|items| - 1], rs + [items[|items| - 1].marshaled.value])
  {
    var n := |items| - 1;
    var at', rs' := at + [n], rs + [items[n].marshaled.value];
    forall i | 0 <= i < |at'|
      ensures 0 <= at'[i] < |items| && items[at'[i]].local && items[at'[i]].marshaled == Some(rs'[i])
    {
      if i < |at| {
        assert items[..n][at[i]] == items[at[i]];
      }
    }
    forall k | 0 <= k < |items| && items[k].local && items[k].marshaled.Some? ensures k in at' {
      if k < n {
        assert items[..n][k] == items[k] && k in at;
      } else {
        assert at'[|at|] == n;
      }
    }
  }

  lemma PickNone(items: seq<PoolItem>, at: seq<int>, rs: seq<seq<Byte>>)
    requires items != [] && Picked(items[..|items| - 1], at, rs)
    requires var t := items[|items| - 1]; !(t.local && t.marshaled.Some?)
    ensures Picked(items, at, rs)
  {
    var n := |items| - 1;
    forall i | 0 <= i < |at|
      ensures 0 <= at[i] < |items| && items[at[i]].local && items[at[i]].marshaled == Some(rs[i])
    {
      assert items[..n][at[i]] == items[at[i]];
    }
    forall k | 0 <= k < |items| && items[k].local && items[k].marshaled.Some? ensures k in at {
      assert items[..n][k] == items[k];
    }
  }

  /** Rewrite the file from the pool, in write batches. Reading it back gives the bytes of exactly the
      local items that marshal, once each and in the order they were visited. */
  method Rotate(items: seq<PoolItem>, accounts: nat) returns (file: seq<Byte>, ghost at: seq<int>)
    ensures file == Encode(LocalRecords(items))
    ensures (forall i :: 0 <= i < |items| && items[i].marshaled.Some? ==>
               |items[i].marshaled.value| < Pow256(PREFIX_LENGTH)) ==> Picked(items, at, Parse(file))
  {
    hide Encode, PutUint;
    file := [];
    var batch: seq<Byte>, batchCount, record := [], 0, 0;
    EmptyFile();
    for i := 0 to |items|
      invariant file + batch == Encode(LocalRecords(items[..i]))
    {
      assert items[..i + 1][..i] == items[..i];
      if !items[i].local || items[i].marshaled.None? {
        continue;
      }
      var b := items[i].marshaled.value;
      EncodeSnoc(LocalRecords(items[..i]), b);
      batch := batch + PutUint(|b|, PREFIX_LENGTH);
      batch := batch + b;
      batchCount, record := batchCount + 1, record + 1;
      if batchCount >= BATCH_SIZE || record == accounts {
        file := file + batch;
        batch, batchCount := [], 0;
      }
    }
    assert items[..|items|] == items;
    if |batch| > 0 {
      file := file + batch;
    }
    at := LocalRecordsArePicked(items);
    if Fit(LocalRecords(items)) {
      FileParses(LocalRecords(items));
    }
  }

  /** The open record file. */
  class Records {
    /** What the file holds; none while no file is open. */
    var writer: Option<seq<Byte>>

    constructor ()
      ensures writer.None?
    {
      writer := None;
    }

    /** Append a record. ok is false when no file is open. */
    method Insert(b: seq<Byte>) returns (ok: bool)
      modifies this
      ensures ok == old(writer).Some?
      ensures !ok ==> writer == old(writer)
      ensures ok ==> writer.Some? && forall rs :: old(writer).value == Encode(rs) ==> writer.value == Encode(rs + [b])
    {
      if writer.None? {
        return false;
      }
      ghost var was := writer.value;
      writer := Some(writer.value + PutUint(|b|, PREFIX_LENGTH));
      writer := Some(writer.value + b);
      forall rs | was == Encode(rs) ensures writer.value == Encode(rs + [b]) {
        EncodeSnoc(rs, b);
      }
      return true;
    }
  }
}
