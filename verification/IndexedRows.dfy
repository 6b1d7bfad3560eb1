/** Which rows indexing writes and when it panics, for every block with every results. */
module IndexedRows {
  import opened Words
  import opened IndexKeys
  import opened Events
  import opened Options
  import opened Blocks
  import opened TxResultCodec
  import opened KVIndex
  import opened IndexAgreement

  /* ----- the messages that get a row ----- */

  /** An Ethereum transaction that counts. */
  predicate IsIndexed(block: Block, results: seq<Response>, t: nat) {
    && t < |block.txs| && t < |results| && Counts(results[t]) && block.txs[t].Some?
    && block.txs[t].value.extensionOptions == Some(["/ethermint.evm.v1.ExtensionOptionsEthereumTx"])
  }

  /** What the events of such a transaction parse to. */
  function EventsOf(block: Block, results: seq<Response>, t: nat): Outcome<Parsed>
    requires IsIndexed(block, results, t)
  {
    ParseTxResult(results[t], Some(block.txs[t].value.msgs))
  }

  /** How many messages get a row: those with a parsed event, or all of them over the block gas
      limit. */
  function Limit(msgs: seq<Msg>, response: Response, txs: seq<ParsedTx>): nat {
    if response.code != 0 || |txs| > |msgs| then |msgs| else |txs|
  }

  function RowCount(block: Block, results: seq<Response>, t: nat): nat {
    if !IsIndexed(block, results, t) || !EventsOf(block, results, t).Ok? then 0
    else
      Limit(block.txs[t].value.msgs, results[t], EventsOf(block, results, t).value.txs)
  }

  /** What message `m` of an indexed transaction cost and whether it failed. */
  function Cost(msg: Msg, response: Response, txs: seq<ParsedTx>, m: nat): (uint64, bool)
    requires msg.EthereumTx? && (response.code == 0 ==> m < |txs|)
  {
    if response.code != 0 then (msg.gas, true) else (txs[m].gasUsed, txs[m].failed)
  }

  predicate Priced(msgs: seq<Msg>, response: Response, txs: seq<ParsedTx>, n: nat) {
    && n <= |msgs| && (response.code == 0 ==> n <= |txs|)
    && forall k :: 0 <= k < n ==> msgs[k].EthereumTx?
  }

  /** Cost of the first `n` messages, in 64-bit words. */
  function CostOfFirst(msgs: seq<Msg>, response: Response, txs: seq<ParsedTx>, n: nat): uint64
    requires Priced(msgs, response, txs, n)
  {
    if n == 0 then 0
    else AddUint64(CostOfFirst(msgs, response, txs, n - 1), Cost(msgs[n - 1], response, txs, n - 1).0)
  }

  /** Row number `k` is the row of message `m` of transaction `t`. */
  ghost predicate IsRowOfMsg(
    height: int64, t: nat, msgs: seq<Msg>, response: Response, txs: seq<ParsedTx>, m: nat, k: nat, row: Row)
  {
    && m < |msgs| && Priced(msgs, response, txs, m + 1)
    && row.hash == msgs[m].hash
    && row.record.height == height && row.record.txIndex == t % TWO32 && row.record.msgIndex == m % TWO32
    && row.record.ethTxIndex == WrapInt32(k)
    && row.record.gasUsed == Cost(msgs[m], response, txs, m).0
    && row.record.failed == Cost(msgs[m], response, txs, m).1
    && row.record.cumulativeGasUsed == CostOfFirst(msgs, response, txs, m + 1)
  }

  /* ----- one transaction ----- */

  lemma {:induction false} MsgRowsExactly(
    height: int64, t: nat, msgs: seq<Msg>, response: Response, parsed: Parsed, m: nat, n: nat, gas: uint64)
    requires m <= |msgs| && forall k :: 0 <= k < m ==> msgs[k].EthereumTx?
    requires var end := Limit(msgs, response, parsed.txs);
             var priced := if m < end then m else end;
             Priced(msgs, response, parsed.txs, priced) && gas == CostOfFirst(msgs, response, parsed.txs, priced)
    ensures var r, end := MsgRows(height, t, msgs, response, parsed, m, n, gas), Limit(msgs, response, parsed.txs);
            && (r.Ok? <==> forall k :: m <= k < |msgs| ==> msgs[k].EthereumTx?)
            && (r.Ok? ==>
                  && |r.value| == (if m < end then end - m else 0)
                  && forall j :: 0 <= j < |r.value| ==>
                       IsRowOfMsg(height, t, msgs, response, parsed.txs, m + j, n + j, r.value[j]))
    decreases |msgs| - m
  {
    hide WrapInt32, IsRowOfMsg;
    if m < |msgs| && msgs[m].EthereumTx? {
      var o := MsgOutcome(msgs[m], response, parsed, m);
      if o.None? {
        MsgRowsExactly(height, t, msgs, response, parsed, m + 1, n, gas);
      } else {
        var gas' := AddUint64(gas, o.value.0);
        MsgRowsExactly(height, t, msgs, response, parsed, m + 1, n + 1, gas');
        var row := Row(msgs[m].hash, TxResult(height, t % TWO32, m % TWO32, WrapInt32(n), o.value.1, o.value.0, gas'));
        RowOfFirst(height, t, msgs, response, parsed, m, n, row);
        var rest := MsgRows(height, t, msgs, response, parsed, m + 1, n + 1, gas');
        if rest.Ok? {
          RowsShift(height, t, msgs, response, parsed.txs, m, n, row, rest.value);
        }
      }
    }
  }

  lemma RowOfFirst(
    height: int64, t: nat, msgs: seq<Msg>, response: Response, parsed: Parsed, m: nat, n: nat, row: Row)
    requires m < |msgs| && Priced(msgs, response, parsed.txs, m + 1) && MsgOutcome(msgs[m], response, parsed, m).Some?
    requires var o := MsgOutcome(msgs[m], response, parsed, m).value;
             row == Row(msgs[m].hash, TxResult(height, t % TWO32, m % TWO32, WrapInt32(n), o.1, o.0,
                        AddUint64(CostOfFirst(msgs, response, parsed.txs, m), o.0)))
    ensures IsRowOfMsg(height, t, msgs, response, parsed.txs, m, n, row)
  {
    hide WrapInt32;
  }

  lemma RowsShift(
    height: int64, t: nat, msgs: seq<Msg>, response: Response, txs: seq<ParsedTx>, m: nat, n: nat, row: Row, rest: seq<Row>)
    requires IsRowOfMsg(height, t, msgs, response, txs, m, n, row)
    requires forall j :: 0 <= j < |rest| ==> IsRowOfMsg(height, t, msgs, response, txs, m + 1 + j, n + 1 + j, rest[j])
    ensures forall j :: 0 <= j < |[row] + rest| ==>
              IsRowOfMsg(height, t, msgs, response, txs, m + j, n + j, ([row] + rest)[j])
  {
    hide IsRowOfMsg;
    forall j | 0 <= j < |[row] + rest| ensures IsRowOfMsg(height, t, msgs, response, txs, m + j, n + j, ([row] + rest)[j]) {
      if j > 0 {
        assert IsRowOfMsg(height, t, msgs, response, txs, m + 1 + (j - 1), n + 1 + (j - 1), rest[j - 1]);
      }
    }
  }

  /** Row number `k` of the block is the row of the message at `p`. */
  ghost predicate IsRowAt(block: Block, results: seq<Response>, p: Position, k: nat, row: Row) {
    && IsIndexed(block, results, p.tx) && EventsOf(block, results, p.tx).Ok?
    && IsRowOfMsg(block.height, p.tx, block.txs[p.tx].value.msgs, results[p.tx],
                  EventsOf(block, results, p.tx).value.txs, p.msg, k, row)
  }

  /** Transaction `t` has no result, or is indexed although its events make the parser panic or
      it holds a message that is no Ethereum message. */
  ghost predicate CrashesAt(block: Block, results: seq<Response>, t: nat) {
    || |results| <= t < |block.txs|
    || (&& IsIndexed(block, results, t)
        && (|| EventsOf(block, results, t).Panic?
            || (EventsOf(block, results, t).Ok? && !AllEthereum(block.txs[t].value.msgs))))
  }

  lemma TxRowsExactly(block: Block, results: seq<Response>, t: nat, n: nat)
    requires t < |block.txs|
    ensures var r := TxRows(block, results, t, n);
            && !r.Error? && (r.Panic? <==> CrashesAt(block, results, t))
            && (r.Ok? ==>
                  && |r.value| == RowCount(block, results, t)
                  && forall j :: 0 <= j < |r.value| ==> IsRowAt(block, results, Position(t, j), n + j, r.value[j]))
  {
    hide Counts, ParseTxResult, MsgRows, IsRowOfMsg;
    if IsIndexed(block, results, t) && EventsOf(block, results, t).Ok? {
      var msgs, parsed := block.txs[t].value.msgs, EventsOf(block, results, t).value;
      NoCost(msgs, results[t], parsed.txs);
      MsgRowsExactly(block.height, t, msgs, results[t], parsed, 0, n, 0);
      MsgRowsNoError(block.height, t, msgs, results[t], parsed, 0, n, 0);
      if TxRows(block, results, t, n).Ok? {
        var rows := TxRows(block, results, t, n).value;
        forall j | 0 <= j < |rows| ensures IsRowAt(block, results, Position(t, j), n + j, rows[j]) {
          assert IsRowOfMsg(block.height, t, msgs, results[t], parsed.txs, 0 + j, n + j, rows[j]);
        }
      }
    }
  }

  lemma NoCost(msgs: seq<Msg>, response: Response, txs: seq<ParsedTx>)
    ensures Priced(msgs, response, txs, 0) && CostOfFirst(msgs, response, txs, 0) == 0
  {
  }

  /* ----- the whole block ----- */

  ghost predicate RowsAtPlaces(block: Block, results: seq<Response>, ps: seq<Position>, n: nat, rows: seq<Row>) {
    |rows| == |ps| && forall i :: 0 <= i < |ps| ==> IsRowAt(block, results, ps[i], n + i, rows[i])
  }

  lemma RowsAtPlacesConcat(
    block: Block, results: seq<Response>, p: seq<Position>, q: seq<Position>, n: nat, a: seq<Row>, b: seq<Row>)
    requires RowsAtPlaces(block, results, p, n, a) && RowsAtPlaces(block, results, q, n + |p|, b)
    ensures RowsAtPlaces(block, results, p + q, n, a + b)
  {
    hide IsRowAt;
    forall i | 0 <= i < |p + q| ensures IsRowAt(block, results, (p + q)[i], n + i, (a + b)[i]) {
      if i >= |p| {
        assert IsRowAt(block, results, q[i - |p|], n + |p| + (i - |p|), b[i - |p|]);
      }
    }
  }

  lemma {:induction false} PlacesOfTx(t: nat, c: nat) returns (ps: seq<Position>)
    ensures |ps| == c && (forall j :: 0 <= j < c ==> ps[j] == Position(t, j))
    ensures Ascending(ps) && forall p :: p in ps <==> p.tx == t && p.msg < c
  {
    if c == 0 {
      ps := [];
    } else {
      var init := PlacesOfTx(t, c - 1);
      AscendingConcat(init, [Position(t, c - 1)]);
      ps := init + [Position(t, c - 1)];
    }
  }

  lemma {:induction false} BlockRowsExactly(block: Block, results: seq<Response>, t: nat, n: nat)
    returns (ps: seq<Position>)
    requires t <= |block.txs| && BlockRows(block, results, t, n).Ok?
    ensures forall p :: p in ps <==> t <= p.tx && p.msg < RowCount(block, results, p.tx)
    ensures Ascending(ps) && RowsAtPlaces(block, results, ps, n, BlockRows(block, results, t, n).value)
    decreases |block.txs| - t
  {
    hide TxRows, RowCount, IsRowAt, Ascending;
    if t == |block.txs| {
      ps := [];
      NoRows(block, results, t);
    } else {
      TxRowsExactly(block, results, t, n);
      var rows := TxRows(block, results, t, n).value;
      var here := PlacesOfTx(t, |rows|);
      var rest := BlockRowsExactly(block, results, t + 1, n + |rows|);
      AscendingConcat(here, rest);
      RowsAtPlacesConcat(block, results, here, rest, n, rows, BlockRows(block, results, t + 1, n + |rows|).value);
      ps := here + rest;
    }
  }

  lemma NoRows(block: Block, results: seq<Response>, t: nat)
    requires t >= |block.txs|
    ensures Ascending([]) && forall u: nat :: u >= t ==> RowCount(block, results, u) == 0
  {
  }

  /** Indexing any block that does not panic writes one row for each message of an Ethereum
      transaction that counts and whose events parse, as far as the events or the gas limit tell
      its cost, in the order of the block, and no other. */
  lemma RowsExactly(block: Block, results: seq<Response>) returns (ps: seq<Position>)
    requires Rows(block, results).Ok?
    ensures forall p :: p in ps <==> p.msg < RowCount(block, results, p.tx)
    ensures Ascending(ps) && RowsAtPlaces(block, results, ps, 0, Rows(block, results).value)
  {
    hide BlockRows, RowCount, RowsAtPlaces, Ascending;
    ps := BlockRowsExactly(block, results, 0, 0);
  }

  lemma {:induction false} BlockPanics(block: Block, results: seq<Response>, t: nat, n: nat)
    requires t <= |block.txs|
    ensures BlockRows(block, results, t, n).Panic? <==> exists u :: t <= u < |block.txs| && CrashesAt(block, results, u)
    decreases |block.txs| - t
  {
    hide TxRows, RowCount, IsRowAt, CrashesAt;
    if t < |block.txs| {
      TxRowsExactly(block, results, t, n);
      if !CrashesAt(block, results, t) {
        BlockPanics(block, results, t + 1, n + |TxRows(block, results, t, n).value|);
      }
    }
  }

  /** Indexing panics exactly when some transaction makes it. */
  lemma PanicsExactly(block: Block, results: seq<Response>)
    ensures Rows(block, results).Panic? <==> exists t :: 0 <= t < |block.txs| && CrashesAt(block, results, t)
    ensures !Rows(block, results).Error?
  {
    hide BlockRows, CrashesAt;
    BlockPanics(block, results, 0, 0);
    NoError(block, results, 0, 0);
  }
}
