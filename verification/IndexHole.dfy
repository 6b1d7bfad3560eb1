/** A run that leaves a hole in the index, from an empty database on, over three blocks that
    every node could see. */
module IndexHole {
  import opened Words
  import opened IndexKeys
  import opened Events
  import opened Options
  import opened Blocks
  import opened TxResultCodec
  import opened KVIndex
  import opened IndexedChain
  import opened IndexerRuns
  import opened OfflineIndexing

  /* ----- three blocks with one transaction each ----- */

  const ETHEREUM_OPTION := "/ethermint.evm.v1.ExtensionOptionsEthereumTx"
  const OVER_THE_LIMIT := "out of gas in location: block gas meter; gasWanted:"

  function ExampleHash(h: byte): Hash {
    Zeros(31) + [h]
  }

  /** A transaction over the block gas limit, as old nodes delivered it: without events. */
  function ExampleBlock(h: byte): BlockData {
    BlockData(Block(h, [Some(Tx(Some([ETHEREUM_OPTION]), [EthereumTx(ExampleHash(h), ExampleHash(h), 21000)]))]),
              [Response(11, OVER_THE_LIMIT, 0, [])])
  }

  const EXAMPLE: Chain := [ExampleBlock(1), ExampleBlock(2), ExampleBlock(3)]

  lemma ExampleCounts()
    ensures Counts(Response(11, OVER_THE_LIMIT, 0, []))
  {
    assert OVER_THE_LIMIT[..|OVER_THE_LIMIT|] == OVER_THE_LIMIT;
  }

  lemma ExampleMsgRows(h: byte)
    ensures var msgs, response := [EthereumTx(ExampleHash(h), ExampleHash(h), 21000)], Response(11, OVER_THE_LIMIT, 0, []);
            MsgRows(h, 0, msgs, response, EMPTY, 0, 0, 0) ==
            Ok([Row(ExampleHash(h), TxResult(h, 0, 0, 0, true, 21000, 21000))])
  {
    hide ExampleHash;
    var msgs, response := [EthereumTx(ExampleHash(h), ExampleHash(h), 21000)], Response(11, OVER_THE_LIMIT, 0, []);
    var row := Row(ExampleHash(h), TxResult(h, 0, 0, 0, true, 21000, 21000));
    assert MsgRows(h, 0, msgs, response, EMPTY, 1, 1, 21000) == Ok([]);
    assert [row] + [] == [row];
  }

  lemma ExampleRows(h: byte)
    ensures Rows(ExampleBlock(h).block, ExampleBlock(h).results) ==
            Ok([Row(ExampleHash(h), TxResult(h, 0, 0, 0, true, 21000, 21000))])
  {
    hide Counts, MsgRows, ExampleHash;
    var b := ExampleBlock(h);
    ExampleCounts();
    ExampleMsgRows(h);
    assert ParseTxResult(b.results[0], Some(b.block.txs[0].value.msgs)) == Ok(EMPTY);
    var rows := [Row(ExampleHash(h), TxResult(h, 0, 0, 0, true, 21000, 21000))];
    assert TxRows(b.block, b.results, 0, 0) == Ok(rows);
    assert rows + [] == rows;
    assert BlockRows(b.block, b.results, 1, 1) == Ok([]);
  }

  lemma ExampleRowsAt(h: int)
    ensures if 1 <= h <= 3
            then Indexable(EXAMPLE, h)
                 && RowsAt(EXAMPLE, h) == [Row(ExampleHash(h), TxResult(h, 0, 0, 0, true, 21000, 21000))]
            else RowsAt(EXAMPLE, h) == []
  {
    hide Rows, ExampleHash;
    if 1 <= h <= 3 {
      ExampleRows(h);
      assert EXAMPLE[h - 1] == ExampleBlock(h);
    }
  }

  lemma ExampleValid()
    ensures ValidChain(EXAMPLE)
  {
    hide RowsAt, Indexable;
    forall h ensures FitsAt(EXAMPLE, h) {
      ExampleRowsAt(h);
    }
    forall g, h | g != h ensures !SharesHash(RowsAt(EXAMPLE, g), RowsAt(EXAMPLE, h)) {
      ExampleRowsAt(g);
      ExampleRowsAt(h);
      if 1 <= g <= 3 && 1 <= h <= 3 {
        assert ExampleHash(g)[31] == g && ExampleHash(h)[31] == h;
      }
    }
  }

  /* ----- the run ----- */

  /** A state of a run from an empty database on. */
  ghost predicate Reachable(chain: Chain, s: State) {
    Inv(chain, s) && exists s0 :: Init(s0) && Reaches(chain, s0, s)
  }

  lemma ReachableOn(chain: Chain, s: State, a: Action, s': State)
    requires ValidChain(chain) && Reachable(chain, s) && Next(chain, s, a, s')
    ensures Reachable(chain, s')
  {
    hide Next, Init, Inv, ValidChain, Reaches;
    var s0 :| Init(s0) && Reaches(chain, s0, s);
    StepInv(chain, s, a, s');
    ReachesOn(chain, s0, s, a, s');
  }

  /** The forward command indexes block 1 and is stopped. */
  lemma IndexFirst(chain: Chain) returns (s: State)
    requires ValidChain(chain) && |chain| >= 3 && Indexable(chain, 1)
    ensures Reachable(chain, s) && s == State(3, map[] + BatchAt(chain, 1), Stopped, {1}, {})
  {
    hide Inv, ValidChain, Reaches, Indexable, BatchAt, LoadLastBlock;
    var s0 := State(3, map[], Stopped, {}, {});
    InitInv(chain, s0);
    ReachesItself(chain, s0);
    NothingIndexed();
    var s1 := s0.(process := Forward(1));
    StartsForward(chain, s0, 1);
    ReachableOn(chain, s0, StartForward, s1);
    var s2 := s1.(process := Forward(2), db := s1.db + BatchAt(chain, 1), done := s1.done + {1});
    StepsForward(chain, s1, s2);
    ReachableOn(chain, s1, ForwardStep, s2);
    s := s2.(process := Stopped);
    Crashes(chain, s2);
    ReachableOn(chain, s2, Crash, s);
    assert {} + {1} == {1};
  }

  lemma NothingIndexed()
    ensures LoadLastBlock(map[]) == Height(-1)
  {
    assert KeysIn(map[], INDEX_START, INDEX_END) == {};
  }

  /** The service starts behind block 1 and gets ready to index block 2. */
  lemma ServeSecond(chain: Chain, s: State) returns (s': State)
    requires ValidChain(chain) && Reachable(chain, s) && RowsAt(chain, 1) != []
    requires s.height == 3 && s.process.Stopped? && s.done == {1}
    ensures Reachable(chain, s') && s'.done == s.done
    ensures s'.process.Serving? && s'.process.service.loop == Index(2) && s'.process.service.latest == 3
  {
    hide Inv, ValidChain, Reaches, Indexable, BatchAt, LoadLastBlock, RowsAt;
    InvIndex(chain, s);
    LastOfIndex(chain, s.db, s.done);
    assert Visible(chain, s.done, 1);
    assert LoadLastBlock(s.db) == Height(1);
    var v := Service(3, -1, false, Receive, Boot, 3, s.done, -1, []);
    var s1 := WithService(s, v);
    ReachableOn(chain, s, StartService(3), s1);
    var v2 := v.(last := 1, start := 1, loop := Check);
    var s2 := WithService(s1, v2);
    ReachableOn(chain, s1, LoopStep, s2);
    var s3 := WithService(s2, v2.(loop := Bound(2)));
    ReachableOn(chain, s2, LoopStep, s3);
    var s4 := WithService(s3, v2.(loop := Fetch(2)));
    ReachableOn(chain, s3, LoopStep, s4);
    s' := WithService(s4, v2.(loop := Index(2)));
    ReachableOn(chain, s4, LoopStep, s');
  }

  /** On every chain that begins with three blocks with entries some run leaves a hole. */
  lemma SomeRunLeavesHole(chain: Chain) returns (end: State)
    requires ValidChain(chain) && |chain| >= 3 && Indexable(chain, 1) && Indexable(chain, 3)
    requires RowsAt(chain, 1) != [] && RowsAt(chain, 2) != [] && RowsAt(chain, 3) != []
    ensures Reachable(chain, end) && !NoHoles(chain, end.db)
  {
    hide Inv, ValidChain, Reaches, Indexable, BatchAt, RowsAt, Next, NoHoles;
    var s := IndexFirst(chain);
    var t := ServeSecond(chain, s);
    assert Visible(chain, t.done, 1);
    var s1, s2, s3, s4 := FailureLeavesHole(chain, t, 1);
    ReachableOn(chain, t, IndexFails, s1);
    ReachableOn(chain, s1, LoopStep, s2);
    ReachableOn(chain, s2, LoopStep, s3);
    ReachableOn(chain, s3, LoopStep, s4);
    end := s4;
  }

  /** The index is not always without holes: a run over the example chain. */
  lemma HoleInExample() returns (end: State)
    ensures Reachable(EXAMPLE, end) && !NoHoles(EXAMPLE, end.db)
  {
    hide ValidChain, Indexable, RowsAt, Reachable, NoHoles;
    ExampleValid();
    ExampleRowsAt(1);
    ExampleRowsAt(2);
    ExampleRowsAt(3);
    end := SomeRunLeavesHole(EXAMPLE);
  }
}
