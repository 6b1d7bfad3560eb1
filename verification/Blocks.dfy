/** Blocks with their results, and the plain scan for Ethereum messages. */
module Blocks {
  import opened Words
  import opened IndexKeys
  import opened Events
  import opened Options

  /** A decoded transaction; `extensionOptions` is absent when the type has none. */
  datatype Tx = Tx(extensionOptions: Option<seq<string>>, msgs: seq<Msg>)

  /** Each raw transaction stands for what the decoder makes of it. */
  datatype Block = Block(height: int64, txs: seq<Option<Tx>>)

  predicate Contains(s: string, sub: string) {
    |s| >= |sub| && (s[..|sub|] == sub || (s != [] && Contains(s[1..], sub)))
  }

  /** Delivered, or refused only because the block gas limit was exceeded. */
  predicate Counts(r: Response) {
    r.code == 0 || Contains(r.log, "out of gas in location: block gas meter; gasWanted:")
  }

  predicate IsEthTx(tx: Tx) {
    tx.extensionOptions == Some(["/ethermint.evm.v1.ExtensionOptionsEthereumTx"])
  }

  /** A text contains another exactly when it stands somewhere in it. */
  lemma {:induction false} ContainsExactly(s: string, sub: string)
    ensures Contains(s, sub) <==> exists a, b :: s == a + sub + b
  {
    if Contains(s, sub) {
      var a, b := FindsIn(s, sub);
    } else if a, b :| s == a + sub + b {
      ContainsMiddle(a, sub, b);
    }
  }

  lemma {:induction false} FindsIn(s: string, sub: string) returns (a: string, b: string)
    requires Contains(s, sub)
    ensures s == a + sub + b
  {
    if s[..|sub|] == sub {
      a, b := "", s[|sub|..];
    } else {
      a, b := FindsIn(s[1..], sub);
      a := [s[0]] + a;
      assert s == [s[0]] + s[1..];
    }
  }

  lemma {:induction false} ContainsMiddle(a: string, sub: string, b: string)
    ensures Contains(a + sub + b, sub)
    decreases |a|
  {
    var s := a + sub + b;
    if a == "" {
      assert s[..|sub|] == sub;
    } else {
      assert s[1..] == a[1..] + sub + b;
      ContainsMiddle(a[1..], sub, b);
    }
  }

  /** Which results count, spelled out. */
  lemma CountsExactly(r: Response)
    ensures Counts(r) <==>
            || r.code == 0
            || exists a, b :: r.log == a + "out of gas in location: block gas meter; gasWanted:" + b
  {
    hide Contains;
    ContainsExactly(r.log, "out of gas in location: block gas meter; gasWanted:");
  }

  /** Where a message sits: transaction in the block, message in the transaction. */
  datatype Position = Position(tx: nat, msg: nat)

  /** Positions of the Ethereum messages among `msgs` from index `m` on. */
  function MsgPositions(msgs: seq<Msg>, t: nat, m: nat): seq<Position>
    requires m <= |msgs|
    decreases |msgs| - m
  {
    if m == |msgs| then []
    else (if msgs[m].EthereumTx? then [Position(t, m)] else []) + MsgPositions(msgs, t, m + 1)
  }

  function TxPositions(block: Block, results: seq<Response>, t: nat): seq<Position>
    requires t < |block.txs| <= |results|
  {
    if Counts(results[t]) && block.txs[t].Some? then MsgPositions(block.txs[t].value.msgs, t, 0) else []
  }

  /** Positions of all Ethereum messages of a block that count, from transaction `t` on. */
  function Positions(block: Block, results: seq<Response>, t: nat): seq<Position>
    requires t <= |block.txs| <= |results|
    decreases |block.txs| - t
  {
    if t == |block.txs| then []
    else TxPositions(block, results, t) + Positions(block, results, t + 1)
  }

  /** A position holds an Ethereum message of the block. */
  predicate HoldsEthereum(block: Block, p: Position) {
    && p.tx < |block.txs| && block.txs[p.tx].Some?
    && p.msg < |block.txs[p.tx].value.msgs|
    && block.txs[p.tx].value.msgs[p.msg].EthereumTx?
  }

  function MsgAt(block: Block, p: Position): Msg
    requires HoldsEthereum(block, p)
  {
    block.txs[p.tx].value.msgs[p.msg]
  }

  /** An Ethereum message in a transaction that counts. */
  predicate Qualifies(block: Block, results: seq<Response>, p: Position)
    requires |block.txs| <= |results|
  {
    HoldsEthereum(block, p) && Counts(results[p.tx])
  }

  predicate Before(p: Position, q: Position) {
    p.tx < q.tx || (p.tx == q.tx && p.msg < q.msg)
  }

  predicate Ascending(ps: seq<Position>) {
    forall i, j :: 0 <= i < j < |ps| ==> Before(ps[i], ps[j])
  }

  lemma {:induction false} MsgPositionsExactly(msgs: seq<Msg>, t: nat, m: nat)
    requires m <= |msgs|
    ensures forall p :: p in MsgPositions(msgs, t, m) <==>
              p.tx == t && m <= p.msg < |msgs| && msgs[p.msg].EthereumTx?
    ensures Ascending(MsgPositions(msgs, t, m))
    decreases |msgs| - m
  {
    if m < |msgs| {
      MsgPositionsExactly(msgs, t, m + 1);
      var first := if msgs[m].EthereumTx? then [Position(t, m)] else [];
      AscendingConcat(first, MsgPositions(msgs, t, m + 1));
    }
  }

  lemma AscendingConcat(a: seq<Position>, b: seq<Position>)
    requires Ascending(a) && Ascending(b)
    requires forall p, q :: p in a && q in b ==> Before(p, q)
    ensures Ascending(a + b)
  {
    hide Before;
    forall i, j | 0 <= i < j < |a + b| ensures Before((a + b)[i], (a + b)[j]) {
      if i < |a| <= j {
        assert a[i] in a && b[j - |a|] in b;
      }
    }
  }

  /** An ascending list is determined by its elements. */
  lemma {:induction false} AscendingUnique(a: seq<Position>, b: seq<Position>)
    requires Ascending(a) && Ascending(b) && forall p :: p in a <==> p in b
    ensures a == b
    decreases |a|
  {
    assert b != [] ==> b[0] in b;
    if a != [] {
      assert a[0] in b && b != [];
      assert b[0] in a;
      assert a[0] == b[0] by {
        var i :| 0 <= i < |b| && b[i] == a[0];
        var j :| 0 <= j < |a| && a[j] == b[0];
      }
      AscendingTail(a);
      AscendingTail(b);
      AscendingUnique(a[1..], b[1..]);
    }
  }

  lemma AscendingTail(a: seq<Position>)
    requires Ascending(a) && a != []
    ensures Ascending(a[1..]) && forall p :: p in a[1..] <==> p in a && p != a[0]
  {
    forall p ensures p in a[1..] <==> p in a && p != a[0] {
      if p in a && p != a[0] {
        var i :| 0 <= i < |a| && a[i] == p;
        assert a[1..][i - 1] == p;
      }
      if p in a[1..] {
        var i :| 0 <= i < |a[1..]| && a[1..][i] == p;
        assert Before(a[0], a[i + 1]);
      }
    }
  }

  lemma TxPositionsExactly(block: Block, results: seq<Response>, t: nat)
    requires t < |block.txs| <= |results|
    ensures forall p :: p in TxPositions(block, results, t) <==> p.tx == t && Qualifies(block, results, p)
    ensures Ascending(TxPositions(block, results, t))
  {
    hide Counts, MsgPositions;
    if block.txs[t].Some? {
      MsgPositionsExactly(block.txs[t].value.msgs, t, 0);
    }
  }

  /** The positions are exactly those of the Ethereum messages in transactions that count,
      each once, in ascending order. */
  lemma {:induction false} PositionsExactly(block: Block, results: seq<Response>, t: nat)
    requires t <= |block.txs| <= |results|
    ensures forall p :: p in Positions(block, results, t) <==> t <= p.tx && Qualifies(block, results, p)
    ensures Ascending(Positions(block, results, t))
    decreases |block.txs| - t
  {
    hide Counts, TxPositions, Ascending;
    if t < |block.txs| {
      TxPositionsExactly(block, results, t);
      PositionsExactly(block, results, t + 1);
      AscendingConcat(TxPositions(block, results, t), Positions(block, results, t + 1));
    } else {
      NoPositions(block, results, t);
    }
  }

  lemma NoPositions(block: Block, results: seq<Response>, t: nat)
    requires t == |block.txs| <= |results|
    ensures Positions(block, results, t) == [] && Ascending([])
    ensures forall p: Position :: t <= p.tx ==> !Qualifies(block, results, p)
  {
  }

  ghost predicate Scanned(block: Block, done: seq<Position>, msgs: seq<Msg>) {
    && |done| == |msgs|
    && forall i :: 0 <= i < |done| ==>
         && HoldsEthereum(block, done[i])
         && msgs[i] == MsgAt(block, done[i]).(hash := MsgAt(block, done[i]).txHash)
  }

  /** The inner loop: the messages of one transaction. */
  method ScanMsgs(block: Block, t: nat, before: seq<Msg>, ghost done: seq<Position>) returns (msgs: seq<Msg>)
    requires t < |block.txs| && block.txs[t].Some? && Scanned(block, done, before)
    ensures Scanned(block, done + MsgPositions(block.txs[t].value.msgs, t, 0), msgs)
  {
    msgs := before;
    var all := block.txs[t].value.msgs;
    ghost var now := done;
    var m := 0;
    while m < |all|
      invariant 0 <= m <= |all|
      invariant now + MsgPositions(all, t, m) == done + MsgPositions(all, t, 0)
      invariant Scanned(block, now, msgs)
    {
      if all[m].EthereumTx? {
        msgs := msgs + [all[m].(hash := all[m].txHash)];
        now := now + [Position(t, m)];
      }
      m := m + 1;
    }
    assert now + [] == now;
  }

  /** The source's nested loops: every Ethereum message that counts, its hash replaced by
      the hash of the transaction it carries. */
  method EthMsgsFromBlock(block: Block, results: seq<Response>) returns (msgs: seq<Msg>)
    requires |block.txs| <= |results|
    ensures Scanned(block, Positions(block, results, 0), msgs)
  {
    hide Counts, MsgPositions, Scanned;
    msgs := [];
    ghost var done: seq<Position> := [];
    var t := 0;
    NothingScanned(block);
    while t < |block.txs|
      invariant 0 <= t <= |block.txs|
      invariant done + Positions(block, results, t) == Positions(block, results, 0)
      invariant Scanned(block, done, msgs)
    {
      if Counts(results[t]) && block.txs[t].Some? {
        msgs := ScanMsgs(block, t, msgs, done);
      }
      assert done + [] == done;
      done := done + TxPositions(block, results, t);
      t := t + 1;
    }
    assert done + [] == done;
  }

  lemma NothingScanned(block: Block)
    ensures Scanned(block, [], [])
  {
  }
}
