/**
 The database as an index of a chain: which heights it covers, what its first and last
 block say, and why indexing a height again changes nothing.
 */
module IndexedChain {
  import opened Words
  import opened IndexKeys
  import opened Events
  import opened Options
  import opened Blocks
  import opened TxResultCodec
  import opened KVIndex
  import opened IndexAgreement

  datatype BlockData = BlockData(block: Block, results: seq<Response>)

  /** Block `h` is at index `h - 1`; a chain as long as any run will see. */
  type Chain = seq<BlockData>

  predicate InChain(chain: Chain, h: int) {
    1 <= h <= |chain|
  }

  /** The rows of block `h`, if there is one and indexing it gets to its end. */
  function RowsAt(chain: Chain, h: int): seq<Row> {
    if !InChain(chain, h) then []
    else
      var r := Rows(chain[h - 1].block, chain[h - 1].results);
      if r.Ok? then r.value else []
  }

  /** Block `h`, if there is one, states its height and fits the index. */
  predicate FitsAt(chain: Chain, h: int) {
    InChain(chain, h) ==>
      && chain[h - 1].block.height == h
      && |RowsAt(chain, h)| <= TWO31
  }

  ghost predicate SharesHash(a: seq<Row>, b: seq<Row>) {
    exists i, j :: 0 <= i < |a| && 0 <= j < |b| && a[i].hash == b[j].hash
  }

  /** Heights count up from one, and no two blocks index the same tx hash. */
  ghost predicate ValidChain(chain: Chain) {
    && |chain| < TWO63
    && (forall h :: FitsAt(chain, h))
    && (forall g, h :: g != h ==> !SharesHash(RowsAt(chain, g), RowsAt(chain, h)))
  }

  function BatchAt(chain: Chain, h: int): Db {
    Batch(RowsAt(chain, h))
  }

  /** Every entry of block `h` is in the database, with the right value. */
  ghost predicate FullyIndexed(chain: Chain, db: Db, h: int) {
    forall k :: k in BatchAt(chain, h) ==> k in db && db[k] == BatchAt(chain, h)[k]
  }

  /** The database holds the entries of the blocks in `done` and nothing else. */
  ghost predicate IsIndex(chain: Chain, db: Db, done: set<int>) {
    && (forall h :: h in done ==> FullyIndexed(chain, db, h))
    && (forall k :: k in db ==> exists h :: h in done && k in BatchAt(chain, h))
  }

  /* ----- the rows of a block ----- */

  /** Rows carry the height of their block and count up. */
  ghost predicate Counted(rows: seq<Row>, height: int64, n: nat) {
    forall i :: 0 <= i < |rows| ==>
      rows[i].record.height == height && rows[i].record.ethTxIndex == WrapInt32(n + i)
  }

  lemma {:induction false} MsgRowsCounted(
    height: int64, t: nat, msgs: seq<Msg>, response: Response, parsed: Parsed, m: nat, n: nat, gas: uint64)
    requires m <= |msgs| && MsgRows(height, t, msgs, response, parsed, m, n, gas).Ok?
    ensures Counted(MsgRows(height, t, msgs, response, parsed, m, n, gas).value, height, n)
    decreases |msgs| - m
  {
    hide GetTxByMsgIndex, WrapInt32;
    if m < |msgs| {
      var o := MsgOutcome(msgs[m], response, parsed, m);
      if o.None? {
        MsgRowsCounted(height, t, msgs, response, parsed, m + 1, n, gas);
      } else {
        var gas' := AddUint64(gas, o.value.0);
        MsgRowsCounted(height, t, msgs, response, parsed, m + 1, n + 1, gas');
        var row := MsgRows(height, t, msgs, response, parsed, m, n, gas).value[0];
        CountedConcat([row], MsgRows(height, t, msgs, response, parsed, m + 1, n + 1, gas').value, height, n);
      }
    }
  }

  lemma CountedConcat(a: seq<Row>, b: seq<Row>, height: int64, n: nat)
    requires Counted(a, height, n) && Counted(b, height, n + |a|)
    ensures Counted(a + b, height, n)
  {
    hide WrapInt32;
    forall i | 0 <= i < |a + b|
      ensures (a + b)[i].record.height == height && (a + b)[i].record.ethTxIndex == WrapInt32(n + i)
    {
      if i >= |a| {
        assert b[i - |a|].record.ethTxIndex == WrapInt32(n + |a| + (i - |a|));
      }
    }
  }

  lemma {:induction false} BlockRowsCounted(block: Block, results: seq<Response>, t: nat, n: nat)
    requires t <= |block.txs| && BlockRows(block, results, t, n).Ok?
    ensures Counted(BlockRows(block, results, t, n).value, block.height, n)
    decreases |block.txs| - t
  {
    hide MsgRows, ParseTxResult, Counts, IsEthTx, Counted;
    if t == |block.txs| {
      NothingCounted(block.height, n);
    } else {
      var rows := TxRows(block, results, t, n).value;
      if rows == [] {
        NothingCounted(block.height, n);
      } else {
        var parsed := ParseTxResult(results[t], Some(block.txs[t].value.msgs)).value;
        MsgRowsCounted(block.height, t, block.txs[t].value.msgs, results[t], parsed, 0, n, 0);
      }
      BlockRowsCounted(block, results, t + 1, n + |rows|);
      CountedConcat(rows, BlockRows(block, results, t + 1, n + |rows|).value, block.height, n);
    }
  }

  lemma NothingCounted(height: int64, n: nat)
    ensures Counted([], height, n)
  {
  }

  /** Row `i` of block `h` has index key `(h, i)`. */
  lemma RowAt(chain: Chain, h: int, i: nat)
    requires |chain| < TWO63 && FitsAt(chain, h) && i < |RowsAt(chain, h)|
    ensures 1 <= h < TWO63 && i < TWO31
    ensures RowsAt(chain, h)[i].record.height == h && RowsAt(chain, h)[i].record.ethTxIndex == i
  {
    hide BlockRows;
    BlockRowsCounted(chain[h - 1].block, chain[h - 1].results, 0, 0);
  }

  lemma {:induction false} BatchHasKeys(rows: seq<Row>, i: nat)
    requires i < |rows|
    ensures TxHashKey(rows[i].hash) in Batch(rows)
    ensures TxIndexKey(rows[i].record.height, rows[i].record.ethTxIndex) in Batch(rows)
  {
    hide TxHashKey, TxIndexKey, Marshal;
    var n := |rows| - 1;
    if i < n {
      BatchHasKeys(rows[..n], i);
      assert rows[..n][i] == rows[i];
    }
  }

  /** A key of block `h` is the hash key of one of its rows or one of its index keys. */
  lemma KeyOfBlock(chain: Chain, h: int, k: Key) returns (i: nat)
    requires |chain| < TWO63 && FitsAt(chain, h) && k in BatchAt(chain, h)
    ensures 1 <= h < TWO63 && i < |RowsAt(chain, h)| && i < TWO31
    ensures k == TxHashKey(RowsAt(chain, h)[i].hash) || k == TxIndexKey(h, i)
  {
    hide RowsAt, TxHashKey, TxIndexKey, Batch, FitsAt;
    var rows := RowsAt(chain, h);
    BatchKeys(rows, k);
    i :| 0 <= i < |rows| &&
      (k == TxHashKey(rows[i].hash) || k == TxIndexKey(rows[i].record.height, rows[i].record.ethTxIndex));
    RowAt(chain, h, i);
  }

  lemma TxHashKeyInjective(a: Hash, b: Hash)
    ensures TxHashKey(a) == TxHashKey(b) ==> a == b
  {
    assert TxHashKey(a)[1..] == a && TxHashKey(b)[1..] == b;
  }

  /** Two blocks that share no tx hash write different keys. */
  lemma PairDisjoint(chain: Chain, g: int, h: int, k: Key)
    requires |chain| < TWO63 && FitsAt(chain, g) && FitsAt(chain, h) && g != h
    requires !SharesHash(RowsAt(chain, g), RowsAt(chain, h)) && k in BatchAt(chain, g)
    ensures k !in BatchAt(chain, h)
  {
    hide RowsAt, TxIndexKey, TxHashKey, Batch, FitsAt;
    if k in BatchAt(chain, h) {
      var i := KeyOfBlock(chain, g, k);
      var j := KeyOfBlock(chain, h, k);
      var a, b := RowsAt(chain, g)[i].hash, RowsAt(chain, h)[j].hash;
      KeyRanges(a, h, j);
      KeyRanges(b, g, i);
      TxHashKeyInjective(a, b);
      TxIndexKeyInjective(g, i, h, j);
    }
  }

  lemma ChainFits(chain: Chain, g: int, h: int)
    requires ValidChain(chain)
    ensures |chain| < TWO63 && FitsAt(chain, g)
    ensures g != h ==> !SharesHash(RowsAt(chain, g), RowsAt(chain, h))
  {
    hide RowsAt, FitsAt, SharesHash;
  }

  lemma BlocksDisjoint(chain: Chain, g: int, h: int, k: Key)
    requires ValidChain(chain) && g != h && k in BatchAt(chain, g)
    ensures k !in BatchAt(chain, h)
  {
    hide *;
    ChainFits(chain, g, h);
    ChainFits(chain, h, g);
    PairDisjoint(chain, g, h, k);
  }

  /* ----- indexing one more block ----- */

  lemma IndexOneMore(chain: Chain, db: Db, done: set<int>, h: int)
    requires ValidChain(chain) && IsIndex(chain, db, done)
    ensures IsIndex(chain, db + BatchAt(chain, h), done + {h})
  {
    hide RowsAt, Batch, ValidChain;
    var db' := db + BatchAt(chain, h);
    forall g | g in done + {h} ensures FullyIndexed(chain, db', g) {
      if g != h {
        forall k | k in BatchAt(chain, g) ensures k in db' && db'[k] == BatchAt(chain, g)[k] {
          BlocksDisjoint(chain, g, h, k);
        }
      }
    }
  }

  /** Indexing a height again leaves the database as it is. */
  lemma IndexAgain(chain: Chain, db: Db, h: int)
    requires FullyIndexed(chain, db, h)
    ensures db + BatchAt(chain, h) == db
  {
    hide RowsAt, Batch;
  }

  /** A block with rows that was never indexed is not in the database. */
  lemma NotIndexed(chain: Chain, db: Db, done: set<int>, h: int)
    requires ValidChain(chain) && IsIndex(chain, db, done)
    requires h !in done && RowsAt(chain, h) != []
    ensures !FullyIndexed(chain, db, h)
  {
    hide RowsAt, Batch, ValidChain, TxHashKey, TxIndexKey;
    BatchHasKeys(RowsAt(chain, h), 0);
    var k := TxHashKey(RowsAt(chain, h)[0].hash);
    if k in db {
      var g :| g in done && k in BatchAt(chain, g);
      BlocksDisjoint(chain, g, h, k);
    }
  }

  lemma EmptyBlockIndexed(chain: Chain, db: Db, h: int)
    requires RowsAt(chain, h) == []
    ensures FullyIndexed(chain, db, h)
  {
    hide RowsAt;
  }

  /** The value of a hash key in a batch is the record of one of the rows with that hash. */
  lemma {:induction false} BatchValue(rows: seq<Row>, hash: Hash) returns (i: nat)
    requires TxHashKey(hash) in Batch(rows)
    ensures i < |rows| && rows[i].hash == hash && Batch(rows)[TxHashKey(hash)] == Marshal(rows[i].record)
  {
    hide TxHashKey, TxIndexKey, Marshal;
    var n := |rows| - 1;
    KeyRanges(hash, rows[n].record.height, rows[n].record.ethTxIndex);
    TxHashKeyInjective(hash, rows[n].hash);
    if rows[n].hash == hash {
      i := n;
    } else {
      i := BatchValue(rows[..n], hash);
    }
  }

  /** A shared hash would have to lead to records of two heights. */
  lemma SharedKeyDiffers(chain: Chain, db: Db, g: int, h: int)
    requires |chain| < TWO63 && FitsAt(chain, g) && FitsAt(chain, h) && g != h
    requires SharesHash(RowsAt(chain, g), RowsAt(chain, h))
    ensures !(FullyIndexed(chain, db, g) && FullyIndexed(chain, db, h))
  {
    hide RowsAt, FitsAt, Batch, TxHashKey, TxIndexKey, Marshal;
    var a, b := RowsAt(chain, g), RowsAt(chain, h);
    var i, j :| 0 <= i < |a| && 0 <= j < |b| && a[i].hash == b[j].hash;
    BatchHasKeys(a, i);
    BatchHasKeys(b, j);
    var x := BatchValue(a, a[i].hash);
    var y := BatchValue(b, a[i].hash);
    RowAt(chain, g, x);
    RowAt(chain, h, y);
    if Marshal(a[x].record) == Marshal(b[y].record) {
      MarshalInjective(a[x].record, b[y].record);
    }
    assert BatchAt(chain, g)[TxHashKey(a[i].hash)] != BatchAt(chain, h)[TxHashKey(a[i].hash)];
  }

  /** Distinct hashes are needed: a database can hold two blocks in full exactly when they
      share no tx hash, because a hash leads to one record and a record to one height. */
  lemma SharedHashExcludes(chain: Chain, g: int, h: int)
    requires |chain| < TWO63 && FitsAt(chain, g) && FitsAt(chain, h) && g != h
    ensures (exists db: Db :: FullyIndexed(chain, db, g) && FullyIndexed(chain, db, h))
            <==> !SharesHash(RowsAt(chain, g), RowsAt(chain, h))
  {
    hide RowsAt, FitsAt, Batch, SharesHash;
    if SharesHash(RowsAt(chain, g), RowsAt(chain, h)) {
      forall db: Db ensures !(FullyIndexed(chain, db, g) && FullyIndexed(chain, db, h)) {
        SharedKeyDiffers(chain, db, g, h);
      }
    } else {
      var db := BatchAt(chain, g) + BatchAt(chain, h);
      forall k | k in BatchAt(chain, g) ensures k in db && db[k] == BatchAt(chain, g)[k] {
        PairDisjoint(chain, g, h, k);
      }
      assert FullyIndexed(chain, db, g) && FullyIndexed(chain, db, h);
    }
  }

  /* ----- first and last block ----- */

  lemma IndexWellKeyed(chain: Chain, db: Db, done: set<int>)
    requires ValidChain(chain) && IsIndex(chain, db, done)
    ensures WellKeyed(db)
  {
    hide RowsAt, TxHashKey, TxIndexKey, ValidChain, Batch, IsIndexerKey, FullyIndexed, FitsAt;
    forall k | k in db ensures IsIndexerKey(k) {
      var h :| h in done && k in BatchAt(chain, h);
      ChainFits(chain, h, h);
      var i := KeyOfBlock(chain, h, k);
      IndexerKeys(RowsAt(chain, h)[i].hash, h, i);
    }
  }

  /** The heights with index entries are the indexed blocks that have rows. */
  lemma HeightOfIndex(chain: Chain, db: Db, done: set<int>, h: int64)
    requires ValidChain(chain) && IsIndex(chain, db, done)
    ensures HasHeight(db, h) <==> h in done && RowsAt(chain, h) != []
  {
    hide RowsAt, TxIndexKey, TxHashKey, Batch, ValidChain, FitsAt;
    if HasHeight(db, h) {
      var i: int32 :| i >= 0 && TxIndexKey(h, i) in db;
      var k := TxIndexKey(h, i);
      var g :| g in done && k in BatchAt(chain, g);
      ChainFits(chain, g, g);
      var j := KeyOfBlock(chain, g, k);
      KeyRanges(RowsAt(chain, g)[j].hash, h, i);
      TxIndexKeyInjective(h, i, g, j);
    }
    if h in done && RowsAt(chain, h) != [] {
      BatchHasKeys(RowsAt(chain, h), 0);
      ChainFits(chain, h, h);
      RowAt(chain, h, 0);
      assert TxIndexKey(h, 0) in BatchAt(chain, h);
    }
  }

  /** An indexed height whose block has rows. */
  predicate Visible(chain: Chain, done: set<int>, h: int) {
    h in done && RowsAt(chain, h) != []
  }

  lemma VisibleRange(chain: Chain, done: set<int>, h: int)
    requires ValidChain(chain) && Visible(chain, done, h)
    ensures 1 <= h <= |chain| < TWO63
  {
  }

  /** What the indexer reports as its last block. */
  lemma LastOfIndex(chain: Chain, db: Db, done: set<int>)
    requires ValidChain(chain) && IsIndex(chain, db, done)
    ensures LoadLastBlock(db).Height?
    ensures var last := LoadLastBlock(db).number;
            if last == -1 then forall h :: !Visible(chain, done, h)
            else Visible(chain, done, last) && forall h :: Visible(chain, done, h) ==> h <= last
  {
    hide RowsAt, LoadLastBlock, ValidChain, HasHeight, IsIndex, WellKeyed;
    IndexWellKeyed(chain, db, done);
    LastBlockIsMaximum(db);
    var last := LoadLastBlock(db).number;
    forall h | Visible(chain, done, h) ensures 0 <= h < TWO63 && HasHeight(db, h) {
      VisibleRange(chain, done, h);
      HeightOfIndex(chain, db, done, h);
    }
    HeightOfIndex(chain, db, done, last);
  }

  /** What the indexer reports as its first block. */
  lemma FirstOfIndex(chain: Chain, db: Db, done: set<int>)
    requires ValidChain(chain) && IsIndex(chain, db, done)
    ensures LoadFirstBlock(db).Height?
    ensures var first := LoadFirstBlock(db).number;
            if first == -1 then forall h :: !Visible(chain, done, h)
            else Visible(chain, done, first) && forall h :: Visible(chain, done, h) ==> first <= h
  {
    hide RowsAt, LoadFirstBlock, ValidChain, HasHeight, IsIndex, WellKeyed;
    IndexWellKeyed(chain, db, done);
    FirstBlockIsMinimum(db);
    var first := LoadFirstBlock(db).number;
    forall h | Visible(chain, done, h) ensures 0 <= h < TWO63 && HasHeight(db, h) {
      VisibleRange(chain, done, h);
      HeightOfIndex(chain, db, done, h);
    }
    HeightOfIndex(chain, db, done, first);
  }
}
