/**
 The index agrees with the slower ways to answer the same questions: the plain scan of
 the block, and re-parsing the events found by the Tendermint indexer.
 */
module IndexAgreement {
  import opened Words
  import opened IndexKeys
  import opened Events
  import opened Options
  import opened EventFormats
  import opened EventLookups
  import opened Blocks
  import opened TxResultCodec
  import opened KVIndex

  /* ----- blocks the chain produces ----- */

  function ParsedAt(block: Block, results: seq<Response>, t: nat): Outcome<Parsed>
    requires t < |block.txs| <= |results| && block.txs[t].Some?
  {
    ParseTxResult(results[t], Some(block.txs[t].value.msgs))
  }

  predicate AllEthereum(msgs: seq<Msg>) {
    forall m :: 0 <= m < |msgs| ==> msgs[m].EthereumTx?
  }

  predicate NoneEthereum(msgs: seq<Msg>) {
    forall m :: 0 <= m < |msgs| ==> !msgs[m].EthereumTx?
  }

  /** Ethereum messages sit only in Ethereum transactions, those hold nothing else, and
      the events of a delivered one parse to an entry for every message. */
  predicate InOrder(block: Block, results: seq<Response>, t: nat)
    requires t < |block.txs| <= |results|
  {
    Counts(results[t]) && block.txs[t].Some? ==>
      var msgs := block.txs[t].value.msgs;
      if IsEthTx(block.txs[t].value) then
        && AllEthereum(msgs) && |msgs| <= TWO32
        && ParsedAt(block, results, t).Ok?
        && (results[t].code == 0 ==> |ParsedAt(block, results, t).value.txs| >= |msgs|)
      else NoneEthereum(msgs)
  }

  /** A block whose numbers fit the record's fields and whose transactions are in order. */
  predicate WellFormed(block: Block, results: seq<Response>) {
    && |block.txs| <= |results| && |block.txs| <= TWO32
    && (forall t :: 0 <= t < |block.txs| ==> InOrder(block, results, t))
    && |Positions(block, results, 0)| <= TWO31
  }

  /* ----- rows follow the scan ----- */

  /** Row number `k` of the block is the one of the message at `p`. */
  ghost predicate RowFits(block: Block, results: seq<Response>, p: Position, k: nat, row: Row) {
    && |block.txs| <= |results| && HoldsEthereum(block, p)
    && row.hash == MsgAt(block, p).hash
    && row.record.height == block.height
    && row.record.txIndex == p.tx && row.record.msgIndex == p.msg
    && row.record.ethTxIndex == k
    && ParsedAt(block, results, p.tx).Ok?
    && var txs := ParsedAt(block, results, p.tx).value.txs;
       p.msg < |txs| ==>
         && row.record.gasUsed == txs[p.msg].gasUsed
         && row.record.failed == txs[p.msg].failed
         && row.record.cumulativeGasUsed == GasOfFirst(txs, p.msg + 1)
  }

  ghost predicate RowsFit(block: Block, results: seq<Response>, ps: seq<Position>, n: nat, rows: seq<Row>) {
    && |rows| == |ps|
    && forall i :: 0 <= i < |ps| ==> RowFits(block, results, ps[i], n + i, rows[i])
  }

  /** Over the block gas limit, the parser reports what the ante handler charged. */
  lemma ParsedPrices(block: Block, results: seq<Response>, t: nat)
    requires t < |block.txs| <= |results| && block.txs[t].Some? && ParsedAt(block, results, t).Ok?
    ensures var txs, msgs := ParsedAt(block, results, t).value.txs, block.txs[t].value.msgs;
            results[t].code != 0 ==>
              && |txs| <= |msgs|
              && forall k :: 0 <= k < |txs| ==>
                   msgs[k].EthereumTx? && txs[k].failed && txs[k].gasUsed == msgs[k].gas
  {
    hide ScanEvents, ChargeLimit;
    var scan := ScanEvents(START, results[t].events);
    ChargeLimitMeaning(GasFromResult(scan.value.parsed.txs, results[t]), block.txs[t].value.msgs, 0);
  }

  /** The row of message `m`, once the messages before it account for `gas`. */
  lemma RowOfMsg(block: Block, results: seq<Response>, t: nat, m: nat, n: nat, gas: uint64)
    requires t < |block.txs| <= |results| && t < TWO32 && block.txs[t].Some?
    requires m < |block.txs[t].value.msgs| <= TWO32
    requires AllEthereum(block.txs[t].value.msgs) && ParsedAt(block, results, t).Ok?
    requires var txs := ParsedAt(block, results, t).value.txs;
             && (results[t].code == 0 ==> |txs| >= |block.txs[t].value.msgs|)
             && (m <= |txs| ==> gas == GasOfFirst(txs, m))
    requires n < TWO31
    ensures var msg, p := block.txs[t].value.msgs[m], ParsedAt(block, results, t).value;
            var o := MsgOutcome(msg, results[t], p, m);
            && o.Some?
            && var gas' := AddUint64(gas, o.value.0);
               && (m + 1 <= |p.txs| ==> gas' == GasOfFirst(p.txs, m + 1))
               && var record := TxResult(block.height, t % TWO32, m % TWO32, WrapInt32(n), o.value.1, o.value.0, gas');
                  RowFits(block, results, Position(t, m), n, Row(msg.hash, record))
  {
    hide ParsedAt;
    ParsedPrices(block, results, t);
  }

  lemma {:induction false} MsgRowsFollow(
    block: Block, results: seq<Response>, t: nat, m: nat, n: nat, gas: uint64)
    requires t < |block.txs| <= |results| && t < TWO32 && block.txs[t].Some?
    requires m <= |block.txs[t].value.msgs| <= TWO32
    requires AllEthereum(block.txs[t].value.msgs) && ParsedAt(block, results, t).Ok?
    requires var txs := ParsedAt(block, results, t).value.txs;
             && (results[t].code == 0 ==> |txs| >= |block.txs[t].value.msgs|)
             && (m <= |txs| ==> gas == GasOfFirst(txs, m))
    requires n + |block.txs[t].value.msgs| - m <= TWO31
    ensures var msgs := block.txs[t].value.msgs;
            var r := MsgRows(block.height, t, msgs, results[t], ParsedAt(block, results, t).value, m, n, gas);
            r.Ok? && RowsFit(block, results, MsgPositions(msgs, t, m), n, r.value)
    decreases |block.txs[t].value.msgs| - m
  {
    hide ParsedAt, RowFits, MsgOutcome, GasOfFirst, WrapInt32;
    var msgs, p := block.txs[t].value.msgs, ParsedAt(block, results, t).value;
    if m < |msgs| {
      RowOfMsg(block, results, t, m, n, gas);
      var o := MsgOutcome(msgs[m], results[t], p, m);
      var gas' := AddUint64(gas, o.value.0);
      MsgRowsFollow(block, results, t, m + 1, n + 1, gas');
      var more := MsgRows(block.height, t, msgs, results[t], p, m + 1, n + 1, gas').value;
      var row := Row(msgs[m].hash, TxResult(block.height, t % TWO32, m % TWO32, WrapInt32(n), o.value.1, o.value.0, gas'));
      RowsFitConcat(block, results, [Position(t, m)], MsgPositions(msgs, t, m + 1), n, [row], more);
    }
  }

  lemma RowsFitConcat(
    block: Block, results: seq<Response>, p1: seq<Position>, p2: seq<Position>, n: nat, r1: seq<Row>, r2: seq<Row>)
    requires RowsFit(block, results, p1, n, r1) && RowsFit(block, results, p2, n + |p1|, r2)
    ensures RowsFit(block, results, p1 + p2, n, r1 + r2)
  {
    hide RowFits;
    forall i | 0 <= i < |p1 + p2| ensures RowFits(block, results, (p1 + p2)[i], n + i, (r1 + r2)[i]) {
      if i >= |p1| {
        assert RowFits(block, results, p2[i - |p1|], n + |p1| + (i - |p1|), r2[i - |p1|]);
      }
    }
  }

  lemma {:induction false} AllPositions(msgs: seq<Msg>, t: nat, m: nat)
    requires m <= |msgs|
    ensures AllEthereum(msgs) ==> |MsgPositions(msgs, t, m)| == |msgs| - m
    ensures NoneEthereum(msgs) ==> MsgPositions(msgs, t, m) == []
    decreases |msgs| - m
  {
    if m < |msgs| {
      AllPositions(msgs, t, m + 1);
    }
  }

  lemma TxRowsFollow(block: Block, results: seq<Response>, t: nat, n: nat)
    requires t < |block.txs| <= |results| && t < TWO32 && InOrder(block, results, t)
    requires n + |TxPositions(block, results, t)| <= TWO31
    ensures var r := TxRows(block, results, t, n);
            r.Ok? && RowsFit(block, results, TxPositions(block, results, t), n, r.value)
  {
    hide RowFits, IsEthTx, Counts, ParseTxResult;
    if Counts(results[t]) && block.txs[t].Some? {
      var tx := block.txs[t].value;
      AllPositions(tx.msgs, t, 0);
      if IsEthTx(tx) {
        MsgRowsFollow(block, results, t, 0, n, 0);
      }
    }
  }

  lemma {:induction false} BlockRowsFollow(block: Block, results: seq<Response>, t: nat, n: nat)
    requires t <= |block.txs| <= |results| && |block.txs| <= TWO32
    requires forall u :: 0 <= u < |block.txs| ==> InOrder(block, results, u)
    requires n + |Positions(block, results, t)| <= TWO31
    ensures var r := BlockRows(block, results, t, n);
            r.Ok? && RowsFit(block, results, Positions(block, results, t), n, r.value)
    decreases |block.txs| - t
  {
    hide RowFits, InOrder, TxRows, TxPositions;
    if t < |block.txs| {
      TxRowsFollow(block, results, t, n);
      var rows := TxRows(block, results, t, n).value;
      BlockRowsFollow(block, results, t + 1, n + |rows|);
      RowsFitConcat(block, results, TxPositions(block, results, t), Positions(block, results, t + 1), n,
                    rows, BlockRows(block, results, t + 1, n + |rows|).value);
    }
  }

  /** Indexing a well-formed block writes one row per message of the plain scan, in the
      order of the scan. */
  lemma RowsFollowScan(block: Block, results: seq<Response>)
    requires WellFormed(block, results)
    ensures Rows(block, results).Ok?
    ensures RowsFit(block, results, Positions(block, results, 0), 0, Rows(block, results).value)
  {
    hide RowsFit, BlockRows, InOrder, Positions;
    BlockRowsFollow(block, results, 0, 0);
  }

  /* ----- what the lookups find afterwards ----- */

  ghost predicate DistinctRows(rows: seq<Row>) {
    forall i, j :: 0 <= i < j < |rows| ==>
      && rows[i].hash != rows[j].hash
      && rows[i].record.ethTxIndex != rows[j].record.ethTxIndex
  }

  /** Both entries of every row are in the batch. */
  ghost predicate Holds(db: Db, row: Row) {
    && TxHashKey(row.hash) in db && db[TxHashKey(row.hash)] == Marshal(row.record)
    && var key := TxIndexKey(row.record.height, row.record.ethTxIndex);
       key in db && db[key] == row.hash
  }

  lemma SaveHolds(db: Db, row: Row)
    ensures Holds(Save(db, row), row)
  {
    hide Marshal, TxHashKey, TxIndexKey;
    KeyRanges(row.hash, row.record.height, row.record.ethTxIndex);
  }

  lemma SaveKeeps(db: Db, row: Row, other: Row)
    requires Holds(db, other) && other.hash != row.hash
    requires other.record.height != row.record.height || other.record.ethTxIndex != row.record.ethTxIndex
    ensures Holds(Save(db, row), other)
  {
    hide Marshal, TxIndexKey;
    KeyRanges(row.hash, other.record.height, other.record.ethTxIndex);
    KeyRanges(other.hash, row.record.height, row.record.ethTxIndex);
    assert TxHashKey(row.hash)[1..] == row.hash && TxHashKey(other.hash)[1..] == other.hash;
    if TxIndexKey(other.record.height, other.record.ethTxIndex) == TxIndexKey(row.record.height, row.record.ethTxIndex) {
      TxIndexKeyInjective(other.record.height, other.record.ethTxIndex, row.record.height, row.record.ethTxIndex);
    }
  }

  lemma {:induction false} BatchHolds(rows: seq<Row>)
    requires DistinctRows(rows)
    ensures forall i :: 0 <= i < |rows| ==> Holds(Batch(rows), rows[i])
  {
    hide Holds, Save;
    if rows != [] {
      var n := |rows| - 1;
      var init := rows[..n];
      BatchHolds(init);
      SaveHolds(Batch(init), rows[n]);
      forall i | 0 <= i < n ensures Holds(Batch(rows), rows[i]) {
        assert init[i] == rows[i];
        SaveKeeps(Batch(init), rows[n], rows[i]);
      }
    }
  }

  /** Nothing else is in the batch. */
  lemma {:induction false} BatchKeys(rows: seq<Row>, k: Key)
    requires k in Batch(rows)
    ensures exists i :: 0 <= i < |rows| &&
              (k == TxHashKey(rows[i].hash) || k == TxIndexKey(rows[i].record.height, rows[i].record.ethTxIndex))
  {
    hide TxHashKey, TxIndexKey, Marshal;
    var n := |rows| - 1;
    if k != TxHashKey(rows[n].hash) && k != TxIndexKey(rows[n].record.height, rows[n].record.ethTxIndex) {
      BatchKeys(rows[..n], k);
      var i :| 0 <= i < n &&
        (k == TxHashKey(rows[..n][i].hash) || k == TxIndexKey(rows[..n][i].record.height, rows[..n][i].record.ethTxIndex));
      assert rows[..n][i] == rows[i];
    }
  }

  /** A stored record is found again, except the all-zero record: its encoding is empty,
      which the lookup takes for an absent entry. */
  lemma StoredIsFound(db: Db, row: Row)
    requires Holds(db, row)
    ensures var expected := if row.record == ZERO then NotFound else Found(row.record);
            && GetByTxHash(db, row.hash) == expected
            && GetByBlockAndIndex(db, row.record.height, row.record.ethTxIndex) == expected
  {
    hide Marshal, Unmarshal, TxHashKey, TxIndexKey;
    MarshalEmpty(row.record);
    RoundTrip(row.record);
    assert BytesToHash(row.hash) == Zeros(0) + row.hash == row.hash;
  }

  ghost predicate DistinctAt(block: Block, ps: seq<Position>) {
    forall i, j :: 0 <= i < j < |ps| ==>
      HoldsEthereum(block, ps[i]) && HoldsEthereum(block, ps[j]) &&
      MsgAt(block, ps[i]).hash != MsgAt(block, ps[j]).hash
  }

  /** Lookup by index and by hash both lead to the message at place `i` of the plain scan. */
  ghost predicate Located(db: Db, block: Block, results: seq<Response>, i: nat) {
    && |block.txs| <= |results| && i < |Positions(block, results, 0)| && i < TWO31
    && var p := Positions(block, results, 0)[i];
       var found := GetByBlockAndIndex(db, block.height, i);
       && HoldsEthereum(block, p)
       && GetByTxHash(db, MsgAt(block, p).hash) == found
       && found.Found?
       && RowFits(block, results, p, i, Row(MsgAt(block, p).hash, found.record))
  }

  /** A database that holds the batch of a well-formed block with distinct hashes locates
      every message of its scan. */
  lemma LookupInIndex(db: Db, block: Block, results: seq<Response>, i: nat)
    requires WellFormed(block, results) && block.height >= 1
    requires DistinctAt(block, Positions(block, results, 0))
    requires i < |Positions(block, results, 0)|
    requires Rows(block, results).Ok?
    requires var batch := Batch(Rows(block, results).value);
             forall k :: k in batch ==> k in db && db[k] == batch[k]
    ensures Located(db, block, results, i)
  {
    hide Rows, Positions, InOrder, ParsedAt;
    var ps := Positions(block, results, 0);
    RowsFollowScan(block, results);
    var rows := Rows(block, results).value;
    RowsAreDistinct(block, results, ps, rows);
    BatchHolds(rows);
    assert RowFits(block, results, ps[i], i, rows[i]);
    assert Holds(db, rows[i]);
    StoredIsFound(db, rows[i]);
  }

  /** So does any database into which the block was just indexed. */
  lemma LookupAfterIndexing(db: Db, block: Block, results: seq<Response>, i: nat)
    requires WellFormed(block, results) && block.height >= 1
    requires DistinctAt(block, Positions(block, results, 0))
    requires i < |Positions(block, results, 0)|
    ensures Rows(block, results).Ok?
    ensures Located(db + Batch(Rows(block, results).value), block, results, i)
  {
    hide Rows, Positions, WellFormed, Located;
    RowsFollowScan(block, results);
    LookupInIndex(db + Batch(Rows(block, results).value), block, results, i);
  }

  lemma RowsAreDistinct(block: Block, results: seq<Response>, ps: seq<Position>, rows: seq<Row>)
    requires RowsFit(block, results, ps, 0, rows) && DistinctAt(block, ps)
    ensures DistinctRows(rows)
  {
    hide ParsedAt;
    forall i, j | 0 <= i < j < |rows|
      ensures rows[i].hash != rows[j].hash && rows[i].record.ethTxIndex != rows[j].record.ethTxIndex
    {
      assert RowFits(block, results, ps[i], 0 + i, rows[i]) && RowFits(block, results, ps[j], 0 + j, rows[j]);
    }
  }

  /** Past the end of the scan nothing is found, unless the database already held it. */
  lemma NothingPastTheEnd(db: Db, block: Block, results: seq<Response>, i: int32)
    requires WellFormed(block, results)
    requires TxIndexKey(block.height, i) !in db
    requires i < 0 || i >= |Positions(block, results, 0)|
    ensures Rows(block, results).Ok?
    ensures GetByBlockAndIndex(db + Batch(Rows(block, results).value), block.height, i) == NotFound
  {
    hide Rows, Positions, InOrder, ParsedAt, TxIndexKey, TxHashKey;
    var ps := Positions(block, results, 0);
    RowsFollowScan(block, results);
    var rows := Rows(block, results).value;
    var k := TxIndexKey(block.height, i);
    if k in Batch(rows) {
      BatchKeys(rows, k);
      var j :| 0 <= j < |rows| &&
        (k == TxHashKey(rows[j].hash) || k == TxIndexKey(rows[j].record.height, rows[j].record.ethTxIndex));
      assert RowFits(block, results, ps[j], 0 + j, rows[j]);
      KeyRanges(rows[j].hash, block.height, i);
      TxIndexKeyInjective(block.height, i, rows[j].record.height, rows[j].record.ethTxIndex);
    }
  }

  /* ----- the fallback to the Tendermint indexer ----- */

  /** A hit of the Tendermint indexer: a transaction with its place and result. */
  datatype ResultTx = ResultTx(height: int64, index: uint32, response: Response, decoded: Option<Tx>)

  datatype Query = ByHash(hash: Hash) | ByTxIndex(index: int)

  datatype Answer = Answer(record: TxResult) | NoAnswer | Crash

  function Select(p: Parsed, q: Query): Option<ParsedTx> {
    match q
    case ByHash(hash) => GetTxByHash(p, hash)
    case ByTxIndex(index) => GetTxByTxIndex(p, index)
  }

  function ParseTxIndexerResult(hit: ResultTx, msgs: Option<seq<Msg>>, q: Query): Answer {
    match ParseTxResult(hit.response, msgs)
    case Error => NoAnswer
    case Panic => Crash
    case Ok(p) =>
      match Select(p, q)
      case None => NoAnswer
      case Some(tx) =>
        if tx.msgIndex >= |p.txs| then Crash
        else
          Answer(TxResult(hit.height, hit.index, tx.msgIndex % TWO32, tx.ethTxIndex, tx.failed, tx.gasUsed,
                          GasOfFirst(p.txs, tx.msgIndex + 1)))
  }

  /** Only the first hit is looked at; its transaction is decoded only when it exceeded the
      block gas limit. */
  function QueryTendermint(hits: seq<ResultTx>, q: Query): Answer {
    if hits == [] || !Counts(hits[0].response) then NoAnswer
    else if hits[0].response.code == 0 then ParseTxIndexerResult(hits[0], None, q)
    else if hits[0].decoded.None? then NoAnswer
    else ParseTxIndexerResult(hits[0], Some(hits[0].decoded.value.msgs), q)
  }

  /** Position of the first message with that hash, from `i` on. */
  function FirstWithHash(msgs: seq<Msg>, hash: Hash, i: nat): Option<nat>
    requires i <= |msgs|
    decreases |msgs| - i
  {
    if i == |msgs| then None
    else if msgs[i].EthereumTx? && msgs[i].hash == hash then Some(i)
    else FirstWithHash(msgs, hash, i + 1)
  }

  /** A record without an index gets the position of its hash in the scan of the block. */
  function Resolve(record: TxResult, scan: seq<Msg>, hash: Hash): Answer {
    if record.ethTxIndex != -1 then Answer(record)
    else
      match FirstWithHash(scan, hash, 0)
      case None => NoAnswer
      case Some(i) => if i >= TWO31 then NoAnswer else Answer(record.(ethTxIndex := i))
  }

  method ResolveIndex(record: TxResult, scan: seq<Msg>, hash: Hash) returns (a: Answer)
    ensures a == Resolve(record, scan, hash)
  {
    var res := record;
    if record.ethTxIndex == -1 {
      var i := 0;
      while i < |scan|
        invariant 0 <= i <= |scan| && res == record
        invariant FirstWithHash(scan, hash, 0) == FirstWithHash(scan, hash, i)
      {
        if scan[i].EthereumTx? && scan[i].hash == hash {
          if i >= TWO31 {
            return NoAnswer;
          }
          res := res.(ethTxIndex := i);
          break;
        }
        i := i + 1;
      }
    }
    if res.ethTxIndex == -1 {
      return NoAnswer;
    }
    return Answer(res);
  }

  ghost predicate IsFirst(scan: seq<Msg>, hash: Hash, i: nat) {
    && i < |scan| && scan[i].EthereumTx? && scan[i].hash == hash
    && forall j :: 0 <= j < i ==> !scan[j].EthereumTx? || scan[j].hash != hash
  }

  lemma {:induction false} FirstExactly(scan: seq<Msg>, hash: Hash, from: nat)
    requires from <= |scan| && forall j :: 0 <= j < from ==> !scan[j].EthereumTx? || scan[j].hash != hash
    ensures match FirstWithHash(scan, hash, from)
            case None => forall i :: 0 <= i < |scan| ==> !IsFirst(scan, hash, i)
            case Some(i) => IsFirst(scan, hash, i)
    decreases |scan| - from
  {
    if from < |scan| && !(scan[from].EthereumTx? && scan[from].hash == hash) {
      FirstExactly(scan, hash, from + 1);
    }
  }

  /** A record keeps its index; without one it gets the first place of its hash in the scan, if
      there is one that fits the field, and otherwise there is no answer. */
  lemma ResolveExactly(record: TxResult, scan: seq<Msg>, hash: Hash)
    ensures record.ethTxIndex != -1 ==> Resolve(record, scan, hash) == Answer(record)
    ensures record.ethTxIndex == -1 ==>
              match Resolve(record, scan, hash)
              case Answer(r) =>
                0 <= r.ethTxIndex && IsFirst(scan, hash, r.ethTxIndex) && r == record.(ethTxIndex := r.ethTxIndex)
              case NoAnswer => forall i :: 0 <= i < |scan| && i < TWO31 ==> !IsFirst(scan, hash, i)
              case Crash => false
  {
    hide FirstWithHash;
    FirstExactly(scan, hash, 0);
  }

  /** When the fallback has no answer: no hit, a hit that does not count, one over the block gas
      limit that does not decode, events that do not parse, or nothing selected. */
  lemma FallbackNothing(hits: seq<ResultTx>, q: Query)
    ensures QueryTendermint(hits, q).NoAnswer? <==>
            || hits == []
            || !Counts(hits[0].response)
            || (hits[0].response.code != 0 && hits[0].decoded.None?)
            || var msgs := if hits[0].response.code == 0 then None else Some(hits[0].decoded.value.msgs);
               var p := ParseTxResult(hits[0].response, msgs);
               p.Error? || (p.Ok? && Select(p.value, q).None?)
  {
    hide Counts, ParseTxResult, Select;
  }

  /** The messages only matter to the parser over the block gas limit. */
  lemma ParseWithoutMsgs(result: Response, msgs: seq<Msg>)
    requires result.code == 0
    ensures ParseTxResult(result, None) == ParseTxResult(result, Some(msgs))
  {
    hide ScanEvents;
  }

  function HitAt(block: Block, results: seq<Response>, t: nat): ResultTx
    requires t < |block.txs| <= |results| && t < TWO32
  {
    ResultTx(block.height, t, results[t], block.txs[t])
  }

  lemma QueryIsParsedAt(block: Block, results: seq<Response>, t: nat, rest: seq<ResultTx>, q: Query)
    requires t < |block.txs| <= |results| && t < TWO32
    requires Counts(results[t]) && block.txs[t].Some?
    ensures QueryTendermint([HitAt(block, results, t)] + rest, q) ==
            ParseTxIndexerResult(HitAt(block, results, t), Some(block.txs[t].value.msgs), q)
  {
    hide Counts, ParseTxResult, Select;
    if results[t].code == 0 {
      ParseWithoutMsgs(results[t], block.txs[t].value.msgs);
    }
  }

  /** The event of the message at `p`, number `i` of the scan, tells its hash and, if it
      tells an index, the right one; and the hashes in the events of its transaction identify
      the txs. */
  ghost predicate Reported(block: Block, results: seq<Response>, p: Position, i: nat) {
    && |block.txs| <= |results| && HoldsEthereum(block, p)
    && ParsedAt(block, results, p.tx).Ok?
    && var txs := ParsedAt(block, results, p.tx).value.txs;
       && p.msg < |txs|
       && HashesIdentify(results[p.tx].events, txs)
       && txs[p.msg].hash == MsgAt(block, p).hash
       && (txs[p.msg].ethTxIndex == -1 || txs[p.msg].ethTxIndex == i)
  }

  lemma {:induction false} FirstIsAt(scan: seq<Msg>, hash: Hash, i: nat, k: nat)
    requires i <= k < |scan| && scan[k].EthereumTx? && scan[k].hash == hash
    requires forall j :: 0 <= j < k ==> !scan[j].EthereumTx? || scan[j].hash != hash
    ensures FirstWithHash(scan, hash, i) == Some(k)
    decreases k - i
  {
    if i < k {
      FirstIsAt(scan, hash, i + 1, k);
    }
  }

  /** No earlier message of the scan carries the same transaction. */
  ghost predicate FirstOfItsHash(block: Block, ps: seq<Position>, i: nat)
    requires i < |ps|
  {
    && HoldsEthereum(block, ps[i])
    && MsgAt(block, ps[i]).hash == MsgAt(block, ps[i]).txHash
    && forall j :: 0 <= j < i ==>
         HoldsEthereum(block, ps[j]) && MsgAt(block, ps[j]).txHash != MsgAt(block, ps[i]).txHash
  }

  /** The record the fallback returns for the message at `p` before its index is settled. */
  lemma FallbackRecord(block: Block, results: seq<Response>, p: Position, i: nat, rest: seq<ResultTx>, row: Row)
    requires |block.txs| <= |results| && |block.txs| <= TWO32 && HoldsEthereum(block, p)
    requires Counts(results[p.tx]) && p.msg < TWO32 && i < TWO31
    requires Reported(block, results, p, i) && RowFits(block, results, p, i, row)
    ensures var a := QueryTendermint([HitAt(block, results, p.tx)] + rest, ByHash(row.hash));
            && a.Answer?
            && (a.record == row.record || a.record == row.record.(ethTxIndex := -1))
  {
    hide Counts, ParseTxResult, Finish, FoundByOwnHash, GetTxByHash, IsFormat1, AnnouncedFirst, Announced;
    var parsed := ParsedAt(block, results, p.tx).value;
    QueryIsParsedAt(block, results, p.tx, rest, ByHash(row.hash));
    ParseNumbered(results[p.tx], Some(block.txs[p.tx].value.msgs));
    FoundByHash(results[p.tx], Some(block.txs[p.tx].value.msgs));
    FoundAt(parsed, p.msg);
  }

  lemma FoundAt(p: Parsed, i: nat)
    requires FoundByOwnHash(p) && i < |p.txs|
    ensures GetTxByHash(p, p.txs[i].hash) == Some(p.txs[i])
  {
  }

  /** Index and fallback return the same record, field by field, for every message with a
      parsed event in a well-formed block. */
  lemma FallbackAgrees(
    db: Db, block: Block, results: seq<Response>, i: nat, rest: seq<ResultTx>, scan: seq<Msg>)
    requires WellFormed(block, results) && block.height >= 1
    requires i < |Positions(block, results, 0)| && DistinctAt(block, Positions(block, results, 0))
    requires FirstOfItsHash(block, Positions(block, results, 0), i)
    requires Reported(block, results, Positions(block, results, 0)[i], i)
    requires Scanned(block, Positions(block, results, 0), scan)
    ensures Rows(block, results).Ok?
    ensures var p := Positions(block, results, 0)[i];
            var hash := MsgAt(block, p).hash;
            var a := QueryTendermint([HitAt(block, results, p.tx)] + rest, ByHash(hash));
            && a.Answer?
            && Found(a.record.(ethTxIndex := i))
               == GetByTxHash(db + Batch(Rows(block, results).value), hash)
            && Resolve(a.record, scan, hash) == Answer(a.record.(ethTxIndex := i))
  {
    hide Rows, Positions, InOrder, ParsedAt, Counts, GetByTxHash, GetByBlockAndIndex, QueryTendermint, Reported;
    var p := Positions(block, results, 0)[i];
    LookupAfterIndexing(db, block, results, i);
    PositionsExactly(block, results, 0);
    assert Qualifies(block, results, Positions(block, results, 0)[i]);
    var hash := MsgAt(block, p).hash;
    var db' := db + Batch(Rows(block, results).value);
    var row := Row(hash, GetByTxHash(db', hash).record);
    FallbackRecord(block, results, p, i, rest, row);
    FirstIsAt(scan, hash, 0, i);
  }

  /** Lookup by index: the fallback takes the index of the first event of the transaction
      as a starting point, and finds message `m` for index `i` exactly when that event
      says `i - m`. */
  lemma SelectByTxIndex(p: Parsed, i: int, m: nat)
    requires Numbered(p) && m < |p.txs|
    ensures Select(p, ByTxIndex(i)) == Some(p.txs[m]) <==> p.txs[0].ethTxIndex == i - m
    ensures Select(p, ByTxIndex(i)).None? <==> i < p.txs[0].ethTxIndex || i >= p.txs[0].ethTxIndex + |p.txs|
  {
    hide GasOfFirst;
    if 0 <= i - p.txs[0].ethTxIndex < |p.txs| {
      assert p.txs[i - p.txs[0].ethTxIndex].msgIndex == i - p.txs[0].ethTxIndex;
      assert p.txs[m].msgIndex == m;
    }
  }

  /** The events of the transaction of the message at `p` state the index `i` for it, and for
      their first tx the index `p.msg` before. */
  predicate StatesIndex(txs: seq<ParsedTx>, p: Position, i: nat) {
    p.msg < |txs| && txs[0].ethTxIndex == i - p.msg && txs[p.msg].ethTxIndex == i
  }

  /** Lookup by index: index and fallback return the same record exactly when the events state
      the right indices. */
  lemma FallbackByIndexAgrees(db: Db, block: Block, results: seq<Response>, i: nat, rest: seq<ResultTx>)
    requires WellFormed(block, results) && block.height >= 1
    requires i < |Positions(block, results, 0)| && DistinctAt(block, Positions(block, results, 0))
    ensures Rows(block, results).Ok?
    ensures var p := Positions(block, results, 0)[i];
            && HoldsEthereum(block, p) && ParsedAt(block, results, p.tx).Ok?
            && var a := QueryTendermint([HitAt(block, results, p.tx)] + rest, ByTxIndex(i));
               var db' := db + Batch(Rows(block, results).value);
               (a.Answer? && GetByBlockAndIndex(db', block.height, i) == Found(a.record)) <==>
               StatesIndex(ParsedAt(block, results, p.tx).value.txs, p, i)
  {
    hide Rows, Positions, InOrder, Counts, GetByTxHash, GetByBlockAndIndex, ParseTxResult, QueryTendermint;
    var p := Positions(block, results, 0)[i];
    LookupAfterIndexing(db, block, results, i);
    PositionsExactly(block, results, 0);
    assert Qualifies(block, results, Positions(block, results, 0)[i]);
    QueryIsParsedAt(block, results, p.tx, rest, ByTxIndex(i));
    ParseNumbered(results[p.tx], Some(block.txs[p.tx].value.msgs));
    var record := GetByBlockAndIndex(db + Batch(Rows(block, results).value), block.height, i).record;
    AnswerByIndex(HitAt(block, results, p.tx), Some(block.txs[p.tx].value.msgs), p, i, record);
  }

  /** What the fallback makes of a hit, compared with a record of the index. */
  lemma AnswerByIndex(hit: ResultTx, msgs: Option<seq<Msg>>, p: Position, i: nat, record: TxResult)
    requires ParseTxResult(hit.response, msgs).Ok? && i < TWO31 && p.msg < TWO32
    requires Numbered(ParseTxResult(hit.response, msgs).value)
    requires record.height == hit.height && record.txIndex == hit.index
    requires record.msgIndex == p.msg && record.ethTxIndex == i
    requires var txs := ParseTxResult(hit.response, msgs).value.txs;
             p.msg < |txs| ==>
               && record.gasUsed == txs[p.msg].gasUsed && record.failed == txs[p.msg].failed
               && record.cumulativeGasUsed == GasOfFirst(txs, p.msg + 1)
    ensures ParseTxIndexerResult(hit, msgs, ByTxIndex(i)) == Answer(record) <==>
            StatesIndex(ParseTxResult(hit.response, msgs).value.txs, p, i)
  {
    hide ParseTxResult, GasOfFirst;
  }
}
