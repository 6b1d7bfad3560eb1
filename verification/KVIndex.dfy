/** The key-value index: what indexing a block writes and what the lookups find. */
module KVIndex {
  import opened Words
  import opened IndexKeys
  import opened Events
  import opened Options
  import opened Blocks
  import opened TxResultCodec
  import Varint

  /** One index entry: the record of an Ethereum tx and its hash. */
  datatype Row = Row(hash: Hash, record: TxResult)

  function WrapInt32(n: nat): int32 {
    ToInt32(n % TWO32)
  }

  /* ----- what indexing a block writes ----- */

  /** Gas and failure of message `m`, or nothing when no event tells. */
  function MsgOutcome(msg: Msg, response: Response, parsed: Parsed, m: nat): Option<(uint64, bool)>
    requires msg.EthereumTx?
  {
    if response.code != 0 then Some((msg.gas, true))
    else
      match GetTxByMsgIndex(parsed, m)
      case None => None
      case Some(tx) => Some((tx.gasUsed, tx.failed))
  }

  /** Rows in front of the outcome of what follows. */
  function Prepend(rows: seq<Row>, r: Outcome<seq<Row>>): (o: Outcome<seq<Row>>)
    ensures o.Ok? == r.Ok? && o.Panic? == r.Panic?
  {
    match r
    case Error => Error
    case Panic => Panic
    case Ok(more) => Ok(rows + more)
  }

  lemma PrependConcat(a: seq<Row>, b: seq<Row>, r: Outcome<seq<Row>>)
    ensures Prepend(a + b, r) == Prepend(a, Prepend(b, r))
    ensures Prepend([], r) == r
  {
    if r.Ok? {
      assert a + b + r.value == a + (b + r.value);
      assert [] + r.value == r.value;
    }
  }

  /** Rows of the messages of transaction `t` from index `m` on, when `n` rows of the block
      and `gas` of the transaction precede them. */
  function MsgRows(
    height: int64, t: nat, msgs: seq<Msg>, response: Response, parsed: Parsed,
    m: nat, n: nat, gas: uint64): Outcome<seq<Row>>
    requires m <= |msgs|
    decreases |msgs| - m
  {
    if m == |msgs| then Ok([])
    else if !msgs[m].EthereumTx? then Panic
    else
      match MsgOutcome(msgs[m], response, parsed, m)
      case None => MsgRows(height, t, msgs, response, parsed, m + 1, n, gas)
      case Some(o) =>
        var gas' := AddUint64(gas, o.0);
        var record := TxResult(height, t % TWO32, m % TWO32, WrapInt32(n), o.1, o.0, gas');
        Prepend([Row(msgs[m].hash, record)], MsgRows(height, t, msgs, response, parsed, m + 1, n + 1, gas'))
  }

  /** A transaction that does not count, does not decode, is no Ethereum transaction or
      has unreadable events is passed over; one without a result is a panic. */
  function TxRows(block: Block, results: seq<Response>, t: nat, n: nat): Outcome<seq<Row>>
    requires t < |block.txs|
  {
    if t >= |results| then Panic
    else if !Counts(results[t]) || block.txs[t].None? || !IsEthTx(block.txs[t].value) then Ok([])
    else
      match ParseTxResult(results[t], Some(block.txs[t].value.msgs))
      case Error => Ok([])
      case Panic => Panic
      case Ok(parsed) => MsgRows(block.height, t, block.txs[t].value.msgs, results[t], parsed, 0, n, 0)
  }

  function BlockRows(block: Block, results: seq<Response>, t: nat, n: nat): Outcome<seq<Row>>
    requires t <= |block.txs|
    decreases |block.txs| - t
  {
    if t == |block.txs| then Ok([])
    else
      match TxRows(block, results, t, n)
      case Error => Error
      case Panic => Panic
      case Ok(rows) => Prepend(rows, BlockRows(block, results, t + 1, n + |rows|))
  }

  /** The rows of a whole block. */
  function Rows(block: Block, results: seq<Response>): Outcome<seq<Row>> {
    BlockRows(block, results, 0, 0)
  }

  function Save(batch: Db, row: Row): Db {
    batch[TxHashKey(row.hash) := Marshal(row.record)]
         [TxIndexKey(row.record.height, row.record.ethTxIndex) := row.hash]
  }

  /** The writes of a list of rows, later ones winning. */
  function Batch(rows: seq<Row>): Db {
    if rows == [] then map[] else Save(Batch(rows[..|rows| - 1]), rows[|rows| - 1])
  }

  /* ----- lookups ----- */

  datatype Lookup = Found(record: TxResult) | NotFound | Corrupt

  function GetByTxHash(db: Db, hash: Hash): Lookup {
    if TxHashKey(hash) !in db || db[TxHashKey(hash)] == [] then NotFound
    else
      match Unmarshal(db[TxHashKey(hash)])
      case Err(_) => Corrupt
      case Ok(record) => Found(record)
  }

  function GetByBlockAndIndex(db: Db, blockNumber: int64, txIndex: int32): Lookup {
    var key := TxIndexKey(blockNumber, txIndex);
    if key !in db || db[key] == [] then NotFound else GetByTxHash(db, BytesToHash(db[key]))
  }

  /* ----- the indexer as the source runs it ----- */

  class KVIndexer {
    var db: Db

    constructor (db: Db)
      ensures this.db == db
    {
      this.db := db;
    }

    /** Indexes a block.  The batch reaches the database as a whole or, when the database
        refuses it, not at all; a panic leaves the database alone. */
    method IndexBlock(block: Block, results: seq<Response>, writeFails: bool) returns (r: Outcome<()>)
      modifies this
      ensures r.Panic? <==> Rows(block, results).Panic?
      ensures r.Ok? <==> Rows(block, results).Ok? && !writeFails
      ensures db == if r.Ok? then old(db) + Batch(Rows(block, results).value) else old(db)
    {
      hide Counts, IsEthTx, ParseTxResult, MsgRows, Save, Prepend;
      var batch: Db := map[];
      ghost var rows: seq<Row> := [];
      var n := 0;
      var t := 0;
      NoError(block, results, 0, 0);
      PrependConcat([], [], BlockRows(block, results, 0, 0));
      while t < |block.txs|
        invariant 0 <= t <= |block.txs|
        invariant n == |rows| && batch == Batch(rows)
        invariant Rows(block, results) == Prepend(rows, BlockRows(block, results, t, n))
        invariant db == old(db)
      {
        ghost var now := TxRows(block, results, t, n);
        if now.Ok? {
          PrependConcat(rows, now.value, BlockRows(block, results, t + 1, n + |now.value|));
        }
        if t >= |results| {
          return Panic;
        }
        if Counts(results[t]) && block.txs[t].Some? && IsEthTx(block.txs[t].value) {
          var parsed := Parse(results[t], Some(block.txs[t].value.msgs));
          if parsed.Panic? {
            return Panic;
          }
          if parsed.Ok? {
            var ok;
            ok, batch, n := IndexMsgs(block, results[t], t, parsed.value, batch, n, rows);
            if !ok {
              return Panic;
            }
            rows := rows + now.value;
          }
        }
        assert now.Ok?;
        t := t + 1;
      }
      AllRows(rows);
      if writeFails {
        return Error;
      }
      db := db + batch;
      return Ok(());
    }

    /** The loop over the messages of one transaction. */
    method IndexMsgs(
      block: Block, response: Response, t: nat, parsed: Parsed, before: Db, count: nat, ghost rows: seq<Row>)
      returns (ok: bool, batch: Db, n: nat)
      requires t < |block.txs| && block.txs[t].Some?
      requires before == Batch(rows) && count == |rows|
      ensures var r := MsgRows(block.height, t, block.txs[t].value.msgs, response, parsed, 0, count, 0);
              && ok == r.Ok?
              && (ok ==> batch == Batch(rows + r.value) && n == count + |r.value|)
    {
      hide GetTxByMsgIndex, TxHashKey, TxIndexKey, Marshal, Prepend;
      var msgs := block.txs[t].value.msgs;
      batch, n := before, count;
      ghost var more: seq<Row> := [];
      var gas: uint64 := 0;
      var m := 0;
      assert rows + [] == rows;
      PrependConcat([], [], MsgRows(block.height, t, msgs, response, parsed, 0, count, 0));
      MsgRowsNoError(block.height, t, msgs, response, parsed, 0, count, 0);
      while m < |msgs|
        invariant 0 <= m <= |msgs|
        invariant n == count + |more| && batch == Batch(rows + more)
        invariant MsgRows(block.height, t, msgs, response, parsed, 0, count, 0)
                  == Prepend(more, MsgRows(block.height, t, msgs, response, parsed, m, n, gas))
      {
        if !msgs[m].EthereumTx? {
          return false, batch, n;
        }
        var outcome := MsgOutcome(msgs[m], response, parsed, m);
        if outcome.Some? {
          gas := AddUint64(gas, outcome.value.0);
          var record := TxResult(block.height, t % TWO32, m % TWO32, WrapInt32(n),
                                 outcome.value.1, outcome.value.0, gas);
          var row := Row(msgs[m].hash, record);
          batch := Save(batch, row);
          BatchSnoc(rows, more, row);
          PrependConcat(more, [row], MsgRows(block.height, t, msgs, response, parsed, m + 1, n + 1, gas));
          more := more + [row];
          n := n + 1;
        }
        m := m + 1;
      }
      AllRows(more);
      ok := true;
    }
  }

  lemma AllRows(rows: seq<Row>)
    ensures Prepend(rows, Ok([])) == Ok(rows)
  {
    assert rows + [] == rows;
  }

  lemma BatchSnoc(rows: seq<Row>, more: seq<Row>, row: Row)
    ensures Batch(rows + (more + [row])) == Save(Batch(rows + more), row)
  {
    hide Save;
    var all := rows + (more + [row]);
    assert all[..|all| - 1] == rows + more;
  }

  lemma {:induction false} MsgRowsNoError(
    height: int64, t: nat, msgs: seq<Msg>, response: Response, parsed: Parsed, m: nat, n: nat, gas: uint64)
    requires m <= |msgs|
    ensures !MsgRows(height, t, msgs, response, parsed, m, n, gas).Error?
    decreases |msgs| - m
  {
    hide GetTxByMsgIndex;
    if m < |msgs| && msgs[m].EthereumTx? {
      var o := MsgOutcome(msgs[m], response, parsed, m);
      if o.None? {
        MsgRowsNoError(height, t, msgs, response, parsed, m + 1, n, gas);
      } else {
        MsgRowsNoError(height, t, msgs, response, parsed, m + 1, n + 1, AddUint64(gas, o.value.0));
      }
    }
  }

  /** Indexing a block fails only by panicking or on the write. */
  lemma {:induction false} NoError(block: Block, results: seq<Response>, t: nat, n: nat)
    requires t <= |block.txs|
    ensures !BlockRows(block, results, t, n).Error?
    decreases |block.txs| - t
  {
    hide Counts, IsEthTx, ParseTxResult, MsgRows;
    if t < |block.txs| {
      if t < |results| && block.txs[t].Some? {
        var parsed := ParseTxResult(results[t], Some(block.txs[t].value.msgs));
        if parsed.Ok? {
          MsgRowsNoError(block.height, t, block.txs[t].value.msgs, results[t], parsed.value, 0, n, 0);
        }
      }
      if TxRows(block, results, t, n).Ok? {
        NoError(block, results, t + 1, n + |TxRows(block, results, t, n).value|);
      }
    }
  }
}
