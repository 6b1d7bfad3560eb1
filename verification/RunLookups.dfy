/** What the lookups of the index answer in every state of every run. */
module RunLookups {
  import opened Words
  import opened IndexKeys
  import opened Events
  import opened Blocks
  import opened TxResultCodec
  import opened KVIndex
  import opened IndexAgreement
  import opened IndexedChain
  import opened IndexerRuns

  /** In every state of every run the lookups locate every message of every indexed block that
      is well-formed with distinct hashes, at its place in the plain scan. */
  lemma LookupsInRuns(chain: Chain, run: seq<State>, actions: seq<Action>, k: nat, h: int, i: nat)
    requires ValidChain(chain) && IsRun(chain, run, actions) && k < |run|
    requires h in run[k].done && InChain(chain, h)
    requires var b := chain[h - 1];
             && WellFormed(b.block, b.results) && DistinctAt(b.block, Positions(b.block, b.results, 0))
             && i < |Positions(b.block, b.results, 0)|
    ensures chain[h - 1].block.height == h
    ensures Located(run[k].db, chain[h - 1].block, chain[h - 1].results, i)
  {
    hide Rows, Batch, WellFormed, DistinctAt, Positions, Located, IsRun, Inv;
    RunInv(chain, run, actions, k);
    InvIndex(chain, run[k]);
    assert FullyIndexed(chain, run[k].db, h) && Indexable(chain, h) && FitsAt(chain, h);
    LookupInIndex(run[k].db, chain[h - 1].block, chain[h - 1].results, i);
  }

  /* ----- exactly what is found ----- */

  /** Some indexed block has a row with this hash. */
  ghost predicate KnownHash(chain: Chain, done: set<int>, hash: Hash) {
    exists h, i :: h in done && 0 <= i < |RowsAt(chain, h)| && RowsAt(chain, h)[i].hash == hash
  }

  ghost predicate IsRowOf(chain: Chain, done: set<int>, row: Row) {
    exists h, i :: h in done && 0 <= i < |RowsAt(chain, h)| && RowsAt(chain, h)[i] == row
  }

  lemma KeyOfHash(chain: Chain, db: Db, done: set<int>, hash: Hash) returns (h: int)
    requires ValidChain(chain) && IsIndex(chain, db, done) && TxHashKey(hash) in db
    ensures h in done && TxHashKey(hash) in BatchAt(chain, h)
    ensures db[TxHashKey(hash)] == BatchAt(chain, h)[TxHashKey(hash)]
  {
    hide RowsAt, BatchAt, TxHashKey, ValidChain;
    h :| h in done && TxHashKey(hash) in BatchAt(chain, h);
  }

  /** Lookup by hash in an index: found exactly when an indexed block has a row with the hash, and
      then with the record of such a row; never taken for corrupt. */
  lemma HashLookupExactly(chain: Chain, db: Db, done: set<int>, hash: Hash)
    requires ValidChain(chain) && IsIndex(chain, db, done)
    ensures match GetByTxHash(db, hash)
            case Found(record) => IsRowOf(chain, done, Row(hash, record))
            case NotFound => !KnownHash(chain, done, hash)
            case Corrupt => false
  {
    hide RowsAt, ValidChain, TxHashKey, Batch, Marshal, FitsAt, IsIndex;
    if TxHashKey(hash) in db {
      var h := KeyOfHash(chain, db, done, hash);
      var rows := RowsAt(chain, h);
      var i := BatchValue(rows, hash);
      ChainFits(chain, h, h);
      RowAt(chain, h, i);
      RoundTrip(rows[i].record);
      MarshalEmpty(rows[i].record);
      assert rows[i] == Row(hash, rows[i].record);
    } else if KnownHash(chain, done, hash) {
      var h, i :| h in done && 0 <= i < |RowsAt(chain, h)| && RowsAt(chain, h)[i].hash == hash;
      BatchHasKeys(RowsAt(chain, h), i);
      HoldsBlock(chain, db, done, h, TxHashKey(hash));
    }
  }

  lemma HoldsBlock(chain: Chain, db: Db, done: set<int>, h: int, k: Key)
    requires IsIndex(chain, db, done) && h in done && k in BatchAt(chain, h)
    ensures k in db && db[k] == BatchAt(chain, h)[k]
  {
    hide BatchAt;
  }

  lemma KeysApart(height: int64, i: int32, j: int32)
    ensures TxIndexKey(height, i) == TxIndexKey(height, j) ==> i == j
  {
    hide TxIndexKey;
    if TxIndexKey(height, i) == TxIndexKey(height, j) {
      TxIndexKeyInjective(height, i, height, j);
    }
  }

  lemma {:induction false} IndexValue(rows: seq<Row>, height: int64, i: nat)
    requires i < |rows| <= TWO31
    requires forall j :: 0 <= j < |rows| ==> rows[j].record.height == height && rows[j].record.ethTxIndex == j
    ensures TxIndexKey(height, i) in Batch(rows) && Batch(rows)[TxIndexKey(height, i)] == rows[i].hash
  {
    hide TxHashKey, TxIndexKey, Marshal;
    var n := |rows| - 1;
    if i < n {
      IndexValue(rows[..n], height, i);
      KeyRanges(rows[n].hash, height, i);
      KeysApart(height, i, n);
      assert |rows[..n]| == n && rows[..n][i] == rows[i];
    }
  }

  lemma NoKeyOutside(chain: Chain, db: Db, done: set<int>, h: int64, i: int32)
    requires ValidChain(chain) && IsIndex(chain, db, done)
    requires h !in done || i < 0 || i >= |RowsAt(chain, h)|
    ensures TxIndexKey(h, i) !in db
  {
    hide RowsAt, BatchAt, ValidChain, TxIndexKey, TxHashKey, FullyIndexed, FitsAt;
    var key := TxIndexKey(h, i);
    if key in db {
      var g :| g in done && key in BatchAt(chain, g);
      ChainFits(chain, g, g);
      var j := KeyOfBlock(chain, g, key);
      KeyRanges(RowsAt(chain, g)[j].hash, h, i);
      TxIndexKeyInjective(h, i, g, j);
    }
  }

  lemma RowsCountUp(chain: Chain, h: int)
    requires ValidChain(chain) && RowsAt(chain, h) != []
    ensures 1 <= h < TWO63 && |RowsAt(chain, h)| <= TWO31
    ensures forall j :: 0 <= j < |RowsAt(chain, h)| ==>
              RowsAt(chain, h)[j].record.height == h && RowsAt(chain, h)[j].record.ethTxIndex == j
  {
    hide RowsAt, ValidChain;
    ChainFits(chain, h, h);
    RowAt(chain, h, 0);
    assert InChain(chain, h) by { RowsMeanIndexable(chain, h); }
    forall j | 0 <= j < |RowsAt(chain, h)|
      ensures RowsAt(chain, h)[j].record.height == h && RowsAt(chain, h)[j].record.ethTxIndex == j
    {
      RowAt(chain, h, j);
    }
  }

  /** Lookup by index: nothing outside the rows of the indexed blocks; inside, the record found by
      the hash of the row. */
  lemma IndexLookupExactly(chain: Chain, db: Db, done: set<int>, h: int64, i: int32)
    requires ValidChain(chain) && IsIndex(chain, db, done)
    ensures var found := GetByBlockAndIndex(db, h, i);
            if h in done && 0 <= i < |RowsAt(chain, h)| then
              found.Found? && found == GetByTxHash(db, RowsAt(chain, h)[i].hash)
            else found == NotFound
  {
    hide RowsAt, ValidChain, TxHashKey, TxIndexKey, Batch, FitsAt, IsIndex, GetByTxHash;
    if h in done && 0 <= i < |RowsAt(chain, h)| {
      RowsCountUp(chain, h);
      IndexValue(RowsAt(chain, h), h, i);
      HoldsBlock(chain, db, done, h, TxIndexKey(h, i));
      SameHash(RowsAt(chain, h)[i].hash);
      HashLookupExactly(chain, db, done, RowsAt(chain, h)[i].hash);
    } else {
      NoKeyOutside(chain, db, done, h, i);
    }
  }

  lemma SameHash(hash: Hash)
    ensures BytesToHash(hash) == hash
  {
    assert Zeros(0) + hash == hash;
  }

  /** In every state of every run: a hash is found exactly when a row of an indexed block has it. */
  lemma HashLookupsInRuns(chain: Chain, run: seq<State>, actions: seq<Action>, k: nat, hash: Hash)
    requires ValidChain(chain) && IsRun(chain, run, actions) && k < |run|
    ensures match GetByTxHash(run[k].db, hash)
            case Found(record) => IsRowOf(chain, run[k].done, Row(hash, record))
            case NotFound => !KnownHash(chain, run[k].done, hash)
            case Corrupt => false
  {
    hide IsRun, Inv, IsIndex, ValidChain, GetByTxHash, Handled, IsRowOf, KnownHash;
    RunInv(chain, run, actions, k);
    InvIndex(chain, run[k]);
    HashLookupExactly(chain, run[k].db, run[k].done, hash);
  }

  /** In every state of every run: an index is found exactly when an indexed block has that row. */
  lemma IndexLookupsInRuns(chain: Chain, run: seq<State>, actions: seq<Action>, k: nat, h: int64, i: int32)
    requires ValidChain(chain) && IsRun(chain, run, actions) && k < |run|
    ensures var found := GetByBlockAndIndex(run[k].db, h, i);
            if h in run[k].done && 0 <= i < |RowsAt(chain, h)| then
              found.Found? && found == GetByTxHash(run[k].db, RowsAt(chain, h)[i].hash)
            else found == NotFound
  {
    hide IsRun, Inv, IsIndex, ValidChain, GetByTxHash, GetByBlockAndIndex, Handled, RowsAt;
    RunInv(chain, run, actions, k);
    InvIndex(chain, run[k]);
    IndexLookupExactly(chain, run[k].db, run[k].done, h, i);
  }

  /** A hash after one more block: found with a record of one of its rows if it has one, and
      otherwise as before. */
  lemma HashAfterIndexing(db: Db, rows: seq<Row>, hash: Hash)
    requires forall i :: 0 <= i < |rows| ==> rows[i].record.height >= 1
    ensures var found := GetByTxHash(db + Batch(rows), hash);
            if exists i :: 0 <= i < |rows| && rows[i].hash == hash then
              found.Found? && Row(hash, found.record) in rows
            else found == GetByTxHash(db, hash)
  {
    hide TxHashKey, Batch, Marshal;
    if i :| 0 <= i < |rows| && rows[i].hash == hash {
      BatchHasKeys(rows, i);
      var j := BatchValue(rows, hash);
      RoundTrip(rows[j].record);
      MarshalEmpty(rows[j].record);
      assert rows[j] == Row(hash, rows[j].record);
    } else if TxHashKey(hash) in Batch(rows) {
      var j := BatchValue(rows, hash);
    }
  }
}
