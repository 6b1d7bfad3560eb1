/**
 The offline commands that index historical blocks, as loops over the indexer.  Each run
 of a command is a run of the state machine, whether it finishes or stops at an error.
 */
module OfflineIndexing {
  import opened Words
  import opened IndexKeys
  import opened Events
  import opened KVIndex
  import opened IndexedChain
  import opened IndexerRuns

  /** The block and state stores: some blocks of the chain, with their results. */
  type Store = map<int, BlockData>

  ghost predicate StoreOf(chain: Chain, store: Store) {
    forall h :: h in store ==> InChain(chain, h) && store[h] == chain[h - 1]
  }

  /** A path of the state machine. */
  ghost predicate IsPath(chain: Chain, run: seq<State>, actions: seq<Action>) {
    && |run| == |actions| + 1
    && forall i :: 0 <= i < |actions| ==> Next(chain, run[i], actions[i], run[i + 1])
  }

  /** The state machine gets from `s` to `s'`. */
  ghost predicate Reaches(chain: Chain, s: State, s': State) {
    exists run, actions :: IsPath(chain, run, actions) && run[0] == s && run[|run| - 1] == s'
  }

  lemma ReachesOn(chain: Chain, s: State, s': State, a: Action, s'': State)
    requires Reaches(chain, s, s') && Next(chain, s', a, s'')
    ensures Reaches(chain, s, s'')
  {
    hide Next;
    var run, actions :| IsPath(chain, run, actions) && run[0] == s && run[|run| - 1] == s';
    var r, b := run + [s''], actions + [a];
    forall i | 0 <= i < |b| ensures Next(chain, r[i], b[i], r[i + 1]) {
      if i < |actions| {
        assert Next(chain, run[i], actions[i], run[i + 1]);
      }
    }
    assert IsPath(chain, r, b);
  }

  lemma ReachesItself(chain: Chain, s: State)
    ensures Reaches(chain, s, s)
  {
    hide Next;
    assert IsPath(chain, [s], []);
  }

  /** The heights in `[lo, hi)` were indexed on top of those in `s`; the node and the failures
      of the service are as they were. */
  ghost predicate Grown(s: State, s': State, lo: int, hi: int) {
    && s'.height == s.height && s'.failed == s.failed
    && forall h :: h in s'.done <==> h in s.done || lo <= h < hi
  }

  /** The block is in the store, its indexing gets to the write, and the write goes through. */
  ghost predicate CanIndex(chain: Chain, store: Store, refuses: set<int>, h: int) {
    h in store && Indexable(chain, h) && h !in refuses
  }

  /** One height: load, index.  Fails exactly when the block is not in the store, the indexer
      panics or the database refuses the batch; the database is then as before. */
  method IndexHeight(indexer: KVIndexer, ghost chain: Chain, store: Store, refuses: set<int>, h: int)
    returns (ok: bool)
    requires ValidChain(chain) && StoreOf(chain, store)
    modifies indexer
    ensures ok <==> CanIndex(chain, store, refuses, h)
    ensures ok ==> Indexable(chain, h)
    ensures indexer.db == if ok then old(indexer.db) + BatchAt(chain, h) else old(indexer.db)
  {
    hide Rows, Batch;
    if h !in store {
      return false;
    }
    assert FitsAt(chain, h);
    var r := indexer.IndexBlock(store[h].block, store[h].results, h in refuses);
    ok := r.Ok?;
  }

  /** The backward command: from below the first indexed block, or below the newest block of
      an empty index, down to block 1.  Every outcome is a run of the state machine that has
      indexed the blocks from `stop` up to the starting point; it gets to its end exactly when
      all of them can be indexed, and otherwise stops at one that cannot. */
  method IndexBackward(
    indexer: KVIndexer, ghost chain: Chain, store: Store, height: nat, refuses: set<int>, ghost s: State)
    returns (ok: bool, ghost stop: int, ghost end: State)
    requires ValidChain(chain) && StoreOf(chain, store)
    requires Inv(chain, s) && s.process.Stopped? && s.height == height && s.db == indexer.db
    modifies indexer
    ensures Reaches(chain, s, end) && end.db == indexer.db && end.process.Stopped?
    ensures LoadFirstBlock(old(indexer.db)).Height?
    ensures var first := LoadFirstBlock(old(indexer.db)).number;
            && Grown(s, end, stop, if first == -1 then height else first)
            && (ok <==> forall h :: 1 <= h < (if first == -1 then height else first) ==>
                          CanIndex(chain, store, refuses, h))
    ensures if ok then stop == 1 else stop > 1 && !CanIndex(chain, store, refuses, stop - 1)
  {
    hide Next, BatchAt, LoadFirstBlock, RowsAt, Reaches, ValidChain, StoreOf, Inv, Indexable, CanIndex;
    InvIndex(chain, s);
    FirstOfIndex(chain, s.db, s.done);
    var first: int := LoadFirstBlock(indexer.db).number;
    if first == -1 {
      first := height;
    }
    var i := first - 1;
    end := s.(process := Backward(i));
    ReachesItself(chain, s);
    StartsBackward(chain, s, i);
    ReachesOn(chain, s, s, StartBackward, end);
    while i > 0
      invariant i == first - 1 || 0 <= i < first
      invariant end.process == Backward(i) && end.db == indexer.db && Grown(s, end, i + 1, first)
      invariant forall h :: i < h < first ==> CanIndex(chain, store, refuses, h)
      invariant Reaches(chain, s, end)
      decreases i
    {
      var stepped := IndexHeight(indexer, chain, store, refuses, i);
      if !stepped {
        Crashes(chain, end);
        ReachesOn(chain, s, end, Crash, end.(process := Stopped));
        end := end.(process := Stopped);
        return false, i + 1, end;
      }
      ghost var next := end.(process := Backward(i - 1), db := indexer.db, done := end.done + {i});
      StepsBackward(chain, end, next);
      ReachesOn(chain, s, end, BackwardStep, next);
      end := next;
      i := i - 1;
    }
    StopsBackward(chain, end);
    ReachesOn(chain, s, end, BackwardStep, end.(process := Stopped));
    end := end.(process := Stopped);
    ok, stop := true, 1;
  }

  /** The forward command: from behind the last indexed block, or from block 1 for an empty
      index, to the newest block, exactly when all of them can be indexed. */
  method IndexForward(
    indexer: KVIndexer, ghost chain: Chain, store: Store, height: nat, refuses: set<int>, ghost s: State)
    returns (ok: bool, ghost stop: int, ghost end: State)
    requires ValidChain(chain) && StoreOf(chain, store)
    requires Inv(chain, s) && s.process.Stopped? && s.height == height && s.db == indexer.db
    modifies indexer
    ensures Reaches(chain, s, end) && end.db == indexer.db && end.process.Stopped?
    ensures LoadLastBlock(old(indexer.db)).Height?
    ensures var last: int := LoadLastBlock(old(indexer.db)).number;
            && Grown(s, end, if last == -1 then 1 else last + 1, stop)
            && (ok <==> forall h :: (if last == -1 then 1 else last + 1) <= h <= height ==>
                          CanIndex(chain, store, refuses, h))
    ensures if ok then stop == height + 1 else stop <= height && !CanIndex(chain, store, refuses, stop)
  {
    hide Next, BatchAt, LoadLastBlock, RowsAt, Reaches, ValidChain, StoreOf, Inv, Indexable, CanIndex;
    InvIndex(chain, s);
    LastOfIndex(chain, s.db, s.done);
    var latest: int := LoadLastBlock(indexer.db).number;
    if latest == -1 {
      latest := 0;
    }
    var i := latest + 1;
    end := s.(process := Forward(i));
    ReachesItself(chain, s);
    StartsForward(chain, s, i);
    ReachesOn(chain, s, s, StartForward, end);
    while i <= height
      invariant i == latest + 1 || latest + 1 < i <= height + 1
      invariant end.process == Forward(i) && end.db == indexer.db && Grown(s, end, latest + 1, i)
      invariant forall h :: latest < h < i ==> CanIndex(chain, store, refuses, h)
      invariant Reaches(chain, s, end)
      decreases height - i
    {
      var stepped := IndexHeight(indexer, chain, store, refuses, i);
      if !stepped {
        Crashes(chain, end);
        ReachesOn(chain, s, end, Crash, end.(process := Stopped));
        end := end.(process := Stopped);
        return false, i, end;
      }
      ghost var next := end.(process := Forward(i + 1), db := indexer.db, done := end.done + {i});
      StepsForward(chain, end, next);
      ReachesOn(chain, s, end, ForwardStep, next);
      end := next;
      i := i + 1;
    }
    StopsForward(chain, end);
    ReachesOn(chain, s, end, ForwardStep, end.(process := Stopped));
    end := end.(process := Stopped);
    ok, stop := true, height + 1;
  }

  /* ----- the steps of the state machine these loops take ----- */

  lemma Crashes(chain: Chain, s: State)
    ensures Next(chain, s, Crash, s.(process := Stopped))
  {
  }

  lemma StartsBackward(chain: Chain, s: State, i: int)
    requires s.process.Stopped? && LoadFirstBlock(s.db).Height?
    requires var first := LoadFirstBlock(s.db).number; i == (if first == -1 then s.height else first) - 1
    ensures Next(chain, s, StartBackward, s.(process := Backward(i)))
  {
    hide LoadFirstBlock;
  }

  lemma StepsBackward(chain: Chain, s: State, s': State)
    requires s.process.Backward? && s.process.next > 0 && Indexable(chain, s.process.next)
    requires s' == s.(process := Backward(s.process.next - 1), db := s.db + BatchAt(chain, s.process.next),
                      done := s.done + {s.process.next})
    ensures Next(chain, s, BackwardStep, s')
  {
    hide Indexable, BatchAt;
  }

  lemma StopsBackward(chain: Chain, s: State)
    requires s.process.Backward? && s.process.next <= 0
    ensures Next(chain, s, BackwardStep, s.(process := Stopped))
  {
  }

  lemma StartsForward(chain: Chain, s: State, i: int)
    requires s.process.Stopped? && LoadLastBlock(s.db).Height?
    requires var last := LoadLastBlock(s.db).number; i == (if last == -1 then 0 else last) + 1
    ensures Next(chain, s, StartForward, s.(process := Forward(i)))
  {
    hide LoadLastBlock;
  }

  lemma StepsForward(chain: Chain, s: State, s': State)
    requires s.process.Forward? && s.process.next <= s.height && Indexable(chain, s.process.next)
    requires s' == s.(process := Forward(s.process.next + 1), db := s.db + BatchAt(chain, s.process.next),
                      done := s.done + {s.process.next})
    ensures Next(chain, s, ForwardStep, s')
  {
    hide Indexable, BatchAt;
  }

  lemma StopsForward(chain: Chain, s: State)
    requires s.process.Forward? && s.process.next > s.height
    ensures Next(chain, s, ForwardStep, s.(process := Stopped))
  {
  }
}
