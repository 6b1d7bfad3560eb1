/**
 The processes that drive the index, as a state machine: the indexing service with its
 header goroutine, the offline backward and forward commands, crashes and restarts.
 */
module IndexerRuns {
  import opened Words
  import opened IndexKeys
  import opened KVIndex
  import opened IndexedChain

  /* ----- states ----- */

  /** The header goroutine waits for a header, or is about to signal. */
  datatype HeaderPc = Receive | Notify

  /** Where the indexing loop is. */
  datatype LoopPc =
    | Boot
    | StartAtLatest
    | Check
    | Waiting
    | Bound(i: int)
    | Fetch(i: int)
    | Index(i: int)

  /** Shared variables and program counters of the running service.  The rest is a record: the
      latest block and the indexed heights when it was started, the block it began behind, and
      the heights passed to the indexer. */
  datatype Service = Service(
    latest: int, last: int, signal: bool, header: HeaderPc, loop: LoopPc,
    initial: int, base: set<int>, start: int, calls: seq<int>)

  datatype Process =
    | Stopped
    | Serving(service: Service)
    | Backward(next: int)
    | Forward(next: int)

  /** `done` and `failed` record the heights indexed, and those the service failed to index
      and went on from. */
  datatype State = State(height: nat, db: Db, process: Process, done: set<int>, failed: set<int>)

  ghost predicate Init(s: State) {
    s.db == map[] && s.process == Stopped && s.done == {} && s.failed == {}
  }

  /* ----- steps ----- */

  datatype Action =
    | NewBlock
    | Crash
    | StartService(latest: int)
    | HeaderArrives(h: int)
    | SignalNewBlock
    | LoopStep
    | Timeout
    | FetchFails
    | IndexFails
    | StartBackward
    | BackwardStep
    | StartForward
    | ForwardStep

  /** Indexing block `h` goes through. */
  predicate Indexable(chain: Chain, h: int) {
    InChain(chain, h) && Rows(chain[h - 1].block, chain[h - 1].results).Ok?
  }

  function WithService(s: State, service: Service): State {
    s.(process := Serving(service))
  }

  /** One turn of the indexing loop that does not fail; a waiting loop needs a signal.
      Fetching block results for a height returns that height. */
  ghost predicate LoopNext(chain: Chain, s: State, v: Service, s': State) {
    match v.loop
    case Boot =>
      var last := LoadLastBlock(s.db);
      && last.Height?
      && s' == WithService(s, v.(last := last.number,
                                 start := last.number,
                                 loop := if last.number == -1 then StartAtLatest else Check))
    case StartAtLatest => s' == WithService(s, v.(last := v.latest, start := v.latest, loop := Check))
    case Check => s' == WithService(s, v.(loop := if v.latest <= v.last then Waiting else Bound(v.last + 1)))
    case Waiting => v.signal && s' == WithService(s, v.(signal := false, loop := Check))
    case Bound(i) => s' == WithService(s, v.(loop := if i <= v.latest then Fetch(i) else Check))
    case Fetch(i) => s' == WithService(s, v.(loop := Index(i)))
    case Index(i) =>
      && Indexable(chain, i)
      && s' == WithService(s, v.(last := i, loop := Bound(i + 1), calls := v.calls + [i]))
               .(db := s.db + BatchAt(chain, i), done := s.done + {i})
  }

  ghost predicate Next(chain: Chain, s: State, a: Action, s': State) {
    match a
    case NewBlock => s.height < |chain| && s' == s.(height := s.height + 1)
    case Crash => s' == s.(process := Stopped)
    case StartService(latest) =>
      && s.process.Stopped? && latest <= s.height
      && s' == WithService(s, Service(latest, -1, false, Receive, Boot, latest, s.done, -1, []))
    case HeaderArrives(h) =>
      && s.process.Serving? && s.process.service.header == Receive && h <= s.height
      && var v := s.process.service;
         s' == if h > v.latest then WithService(s, v.(latest := h, header := Notify)) else s
    case SignalNewBlock =>
      && s.process.Serving? && s.process.service.header == Notify
      && s' == WithService(s, s.process.service.(signal := true, header := Receive))
    case LoopStep => s.process.Serving? && LoopNext(chain, s, s.process.service, s')
    case Timeout =>
      && s.process.Serving? && s.process.service.loop == Waiting
      && s' == WithService(s, s.process.service.(loop := Check))
    case FetchFails =>
      && s.process.Serving? && s.process.service.loop.Fetch?
      && s' == WithService(s, s.process.service.(loop := Check))
    case IndexFails =>
      && s.process.Serving? && s.process.service.loop.Index? && Indexable(chain, s.process.service.loop.i)
      && var v := s.process.service;
         s' == WithService(s, v.(last := v.loop.i, loop := Bound(v.loop.i + 1), calls := v.calls + [v.loop.i]))
               .(failed := s.failed + {v.loop.i})
    case StartBackward =>
      && s.process.Stopped? && LoadFirstBlock(s.db).Height?
      && var first := LoadFirstBlock(s.db).number;
         s' == s.(process := Backward((if first == -1 then s.height else first) - 1))
    case BackwardStep =>
      && s.process.Backward?
      && var i := s.process.next;
         if i > 0 then
           Indexable(chain, i) &&
           s' == s.(process := Backward(i - 1), db := s.db + BatchAt(chain, i), done := s.done + {i})
         else s' == s.(process := Stopped)
    case StartForward =>
      && s.process.Stopped? && LoadLastBlock(s.db).Height?
      && var last := LoadLastBlock(s.db).number;
         s' == s.(process := Forward((if last == -1 then 0 else last) + 1))
    case ForwardStep =>
      && s.process.Forward?
      && var i := s.process.next;
         if i <= s.height then
           Indexable(chain, i) &&
           s' == s.(process := Forward(i + 1), db := s.db + BatchAt(chain, i), done := s.done + {i})
         else s' == s.(process := Stopped)
  }

  /** A run: states from an empty database on, each following from the one before. */
  ghost predicate IsRun(chain: Chain, run: seq<State>, actions: seq<Action>) {
    && |run| == |actions| + 1 && Init(run[0]) && run[0].height <= |chain|
    && forall i :: 0 <= i < |actions| ==> Next(chain, run[i], actions[i], run[i + 1])
  }

  /* ----- the invariant ----- */

  /** Everything indexed lies in `[lo, hi)`, and there every height was indexed or passed over
      after a failure. */
  ghost predicate Covers(chain: Chain, s: State, lo: int, hi: int) {
    && lo <= hi <= s.height + 1
    && (forall h :: Visible(chain, s.done, h) ==> lo <= h < hi)
    && (forall h :: lo <= h < hi ==> h in s.done || h in s.failed)
  }

  ghost predicate CoversSome(chain: Chain, s: State) {
    exists lo, hi :: Covers(chain, s, lo, hi)
  }

  ghost predicate CoversTo(chain: Chain, s: State, hi: int) {
    exists lo :: Covers(chain, s, lo, hi)
  }

  ghost predicate CoversFrom(chain: Chain, s: State, lo: int) {
    exists hi :: Covers(chain, s, lo, hi)
  }

  ghost predicate NothingVisible(chain: Chain, s: State) {
    forall h :: !Visible(chain, s.done, h)
  }

  /** Heights go to the indexer one by one, in order, starting behind `start`. */
  predicate InOrderCalls(v: Service) {
    && |v.calls| == v.last - v.start
    && forall k :: 0 <= k < |v.calls| ==> v.calls[k] == v.start + 1 + k
  }

  /** The service begins behind the last block of the index it found; if that had none, behind
      a block that was the latest when it looked. */
  ghost predicate BeginsRight(chain: Chain, v: Service) {
    if forall h :: !Visible(chain, v.base, h) then v.initial <= v.start <= v.latest
    else Visible(chain, v.base, v.start) && forall h :: Visible(chain, v.base, h) ==> h <= v.start
  }

  /** Indexed are the heights from before, and of those since `start` all but failed ones. */
  ghost predicate AddsInOrder(s: State, v: Service) {
    && v.base <= s.done
    && (forall h :: h in s.done && h !in v.base ==> v.start < h <= v.last)
    && (forall h :: v.start < h <= v.last ==> h in s.done || h in s.failed)
  }

  ghost predicate ServiceInv(chain: Chain, s: State, v: Service) {
    && v.initial <= v.latest <= s.height
    && (if v.loop.Boot? || v.loop.StartAtLatest? then s.done == v.base
        else BeginsRight(chain, v) && AddsInOrder(s, v))
    && match v.loop
       case Boot => CoversSome(chain, s) && v.calls == []
       case StartAtLatest => NothingVisible(chain, s) && v.calls == []
       case Check => CoversTo(chain, s, v.last + 1) && InOrderCalls(v)
       case Waiting => CoversTo(chain, s, v.last + 1) && InOrderCalls(v)
       case Bound(i) => CoversTo(chain, s, v.last + 1) && InOrderCalls(v) && i == v.last + 1
       case Fetch(i) => CoversTo(chain, s, v.last + 1) && InOrderCalls(v) && i == v.last + 1 <= v.latest
       case Index(i) => CoversTo(chain, s, v.last + 1) && InOrderCalls(v) && i == v.last + 1 <= v.latest
  }

  /** A wake-up cannot get lost: if the loop waits although there is a block to index, a
      signal is in the channel or about to be sent. */
  predicate NoLostWakeUp(v: Service) {
    v.loop == Waiting && v.latest > v.last ==> v.signal || v.header == Notify
  }

  /** Only blocks whose indexing gets to the write were indexed or passed over. */
  ghost predicate Handled(chain: Chain, s: State) {
    forall h :: h in s.done || h in s.failed ==> Indexable(chain, h)
  }

  ghost predicate Inv(chain: Chain, s: State) {
    && s.height <= |chain|
    && IsIndex(chain, s.db, s.done) && Handled(chain, s)
    && match s.process
       case Stopped => CoversSome(chain, s)
       case Serving(v) => ServiceInv(chain, s, v) && NoLostWakeUp(v)
       case Backward(i) => CoversFrom(chain, s, i + 1)
       case Forward(i) => CoversTo(chain, s, i)
  }

  lemma InitInv(chain: Chain, s: State)
    requires Init(s) && s.height <= |chain|
    ensures Inv(chain, s)
  {
    hide BatchAt, RowsAt;
    assert Covers(chain, s, 0, 0);
  }

  /** Only height, done and failed matter to coverage, and a longer chain does not hurt. */
  lemma CoversMonotone(chain: Chain, s: State, s': State, lo: int, hi: int)
    requires Covers(chain, s, lo, hi)
    requires s'.done == s.done && s'.failed >= s.failed && s'.height >= s.height
    ensures Covers(chain, s', lo, hi)
  {
    hide RowsAt;
  }

  lemma KeepsCoverage(chain: Chain, s: State, s': State)
    requires s'.done == s.done && s'.failed >= s.failed && s'.height >= s.height
    ensures CoversSome(chain, s) ==> CoversSome(chain, s')
    ensures forall x :: CoversTo(chain, s, x) ==> CoversTo(chain, s', x)
    ensures forall x :: CoversFrom(chain, s, x) ==> CoversFrom(chain, s', x)
  {
    hide Covers;
    forall lo, hi | Covers(chain, s, lo, hi) ensures Covers(chain, s', lo, hi) {
      CoversMonotone(chain, s, s', lo, hi);
    }
  }

  /** Indexing the next height upwards, or going on after a failure there. */
  lemma CoversUp(chain: Chain, s: State, s': State, i: int)
    requires CoversTo(chain, s, i) && i <= s.height && s'.height == s.height
    requires (s'.done == s.done + {i} && s'.failed == s.failed)
             || (s'.done == s.done && s'.failed == s.failed + {i})
    ensures CoversTo(chain, s', i + 1)
  {
    hide RowsAt;
    var lo :| Covers(chain, s, lo, i);
    forall h | Visible(chain, s'.done, h) ensures lo <= h < i + 1 {
      assert h == i || Visible(chain, s.done, h);
    }
    assert Covers(chain, s', lo, i + 1);
  }

  lemma CoversDown(chain: Chain, s: State, s': State, i: int)
    requires CoversFrom(chain, s, i + 1) && s'.height == s.height
    requires s'.done == s.done + {i} && s'.failed == s.failed
    ensures CoversFrom(chain, s', i)
  {
    hide RowsAt;
    var hi :| Covers(chain, s, i + 1, hi);
    forall h | Visible(chain, s'.done, h) ensures i <= h < hi {
      assert h == i || Visible(chain, s.done, h);
    }
    assert Covers(chain, s', i, hi);
  }

  /** A restart begins behind the last block with entries; what was indexed above that had
      none and is indexed again. */
  lemma CoversToLast(chain: Chain, s: State)
    requires ValidChain(chain) && IsIndex(chain, s.db, s.done) && CoversSome(chain, s)
    ensures LoadLastBlock(s.db).Height?
    ensures var last := LoadLastBlock(s.db).number;
            if last == -1 then NothingVisible(chain, s) else CoversTo(chain, s, last + 1)
  {
    hide RowsAt, LoadLastBlock, IsIndex, ValidChain;
    LastOfIndex(chain, s.db, s.done);
    var last: int := LoadLastBlock(s.db).number;
    if last != -1 {
      var lo, hi :| Covers(chain, s, lo, hi);
      hide Visible;
      assert Covers(chain, s, lo, last + 1);
    }
  }

  lemma CoversFromFirst(chain: Chain, s: State)
    requires ValidChain(chain) && IsIndex(chain, s.db, s.done) && CoversSome(chain, s)
    ensures LoadFirstBlock(s.db).Height?
    ensures var first := LoadFirstBlock(s.db).number;
            if first == -1 then NothingVisible(chain, s) else CoversFrom(chain, s, first)
  {
    hide RowsAt, LoadFirstBlock, IsIndex, ValidChain;
    FirstOfIndex(chain, s.db, s.done);
    var first: int := LoadFirstBlock(s.db).number;
    if first != -1 {
      var lo, hi :| Covers(chain, s, lo, hi);
      hide Visible;
      assert Covers(chain, s, first, hi);
    }
  }

  /** With nothing visible, indexing may start anywhere. */
  lemma CoversNothing(chain: Chain, s: State, h: int)
    requires NothingVisible(chain, s) && h <= s.height + 1
    ensures CoversTo(chain, s, h) && CoversFrom(chain, s, h)
  {
    hide RowsAt, Visible;
    assert Covers(chain, s, h, h);
  }

  lemma CoversWeaken(chain: Chain, s: State, x: int)
    ensures CoversTo(chain, s, x) ==> CoversSome(chain, s)
    ensures CoversFrom(chain, s, x) ==> CoversSome(chain, s)
  {
    hide Covers;
  }

  lemma NothingIsCovered(chain: Chain, s: State)
    requires NothingVisible(chain, s)
    ensures CoversSome(chain, s)
  {
    hide Covers, NothingVisible;
    CoversNothing(chain, s, 0);
  }

  /** Whatever a process was doing, it leaves a covered database behind. */
  lemma InvCovers(chain: Chain, s: State)
    requires Inv(chain, s)
    ensures CoversSome(chain, s)
  {
    hide Covers, IsIndex, NothingVisible, InOrderCalls;
    match s.process {
      case Stopped =>
      case Serving(v) =>
        CoversWeaken(chain, s, v.last + 1);
        if v.loop.StartAtLatest? {
          NothingIsCovered(chain, s);
        }
      case Backward(i) => CoversWeaken(chain, s, i + 1);
      case Forward(i) => CoversWeaken(chain, s, i);
    }
  }

  lemma SameVisible(chain: Chain, s: State, s': State)
    requires s'.done == s.done
    ensures NothingVisible(chain, s) ==> NothingVisible(chain, s')
  {
    hide RowsAt;
  }

  lemma NoneVisible(chain: Chain, s: State)
    requires NothingVisible(chain, s)
    ensures forall h :: !Visible(chain, s.done, h)
  {
    hide Visible;
  }

  lemma LoopStepInv(chain: Chain, s: State, s': State)
    requires ValidChain(chain) && Inv(chain, s) && s.process.Serving?
    requires LoopNext(chain, s, s.process.service, s')
    ensures Inv(chain, s')
  {
    hide RowsAt, BatchAt, IsIndex, LoadLastBlock, Covers, CoversSome, CoversTo, CoversFrom, NothingVisible;
    hide ValidChain, Indexable;
    var v := s.process.service;
    match v.loop {
      case Boot =>
        CoversToLast(chain, s);
        LastOfIndex(chain, s.db, s.done);
        KeepsCoverage(chain, s, s');
        SameVisible(chain, s, s');
      case StartAtLatest =>
        assert forall h :: !Visible(chain, s.done, h) by { NoneVisible(chain, s); }
        SameVisible(chain, s, s');
        CoversNothing(chain, s', v.latest + 1);
      case Index(i) =>
        IndexOneMore(chain, s.db, s.done, i);
        CoversUp(chain, s, s', i);
      case _ =>
        KeepsCoverage(chain, s, s');
    }
  }

  /** Steps of the service other than its loop. */
  lemma ServiceStepInv(chain: Chain, s: State, a: Action, s': State)
    requires Inv(chain, s) && Next(chain, s, a, s')
    requires a.HeaderArrives? || a.SignalNewBlock? || a.Timeout? || a.FetchFails? || a.IndexFails?
    ensures Inv(chain, s')
  {
    hide RowsAt, BatchAt, IsIndex, Covers, CoversSome, CoversTo, CoversFrom, NothingVisible, Indexable, LoopNext;
    KeepsCoverage(chain, s, s');
    SameVisible(chain, s, s');
    if a.IndexFails? {
      CoversUp(chain, s, s', s.process.service.loop.i);
    }
  }

  lemma OfflineStepInv(chain: Chain, s: State, a: Action, s': State)
    requires ValidChain(chain) && Inv(chain, s) && Next(chain, s, a, s')
    requires a.StartBackward? || a.BackwardStep? || a.StartForward? || a.ForwardStep?
    ensures Inv(chain, s')
  {
    hide RowsAt, BatchAt, IsIndex, Covers, CoversSome, CoversTo, CoversFrom, NothingVisible, ValidChain, Indexable;
    hide LoadFirstBlock, LoadLastBlock, LoopNext;
    InvCovers(chain, s);
    match a {
      case StartBackward =>
        CoversFromFirst(chain, s);
        KeepsCoverage(chain, s, s');
        SameVisible(chain, s, s');
        if LoadFirstBlock(s.db).number == -1 {
          CoversNothing(chain, s', s.height);
        }
      case BackwardStep =>
        if s.process.next > 0 {
          IndexOneMore(chain, s.db, s.done, s.process.next);
          CoversDown(chain, s, s', s.process.next);
        } else {
          KeepsCoverage(chain, s, s');
        }
      case StartForward =>
        CoversToLast(chain, s);
        KeepsCoverage(chain, s, s');
        SameVisible(chain, s, s');
        if LoadLastBlock(s.db).number == -1 {
          CoversNothing(chain, s', 1);
        }
      case ForwardStep =>
        if s.process.next <= s.height {
          IndexOneMore(chain, s.db, s.done, s.process.next);
          CoversUp(chain, s, s', s.process.next);
        } else {
          KeepsCoverage(chain, s, s');
        }
    }
  }

  lemma StepInv(chain: Chain, s: State, a: Action, s': State)
    requires ValidChain(chain) && Inv(chain, s) && Next(chain, s, a, s')
    ensures Inv(chain, s')
  {
    hide RowsAt, BatchAt, IsIndex, Covers, CoversSome, CoversTo, CoversFrom, NothingVisible, ValidChain, Indexable;
    hide LoadFirstBlock, LoadLastBlock, LoopNext, InOrderCalls;
    if a.LoopStep? {
      LoopStepInv(chain, s, s');
    } else if a.StartBackward? || a.BackwardStep? || a.StartForward? || a.ForwardStep? {
      OfflineStepInv(chain, s, a, s');
    } else if a.NewBlock? || a.Crash? || a.StartService? {
      InvCovers(chain, s);
      KeepsCoverage(chain, s, s');
      SameVisible(chain, s, s');
    } else {
      ServiceStepInv(chain, s, a, s');
    }
  }

  /** The invariant holds in every state of every run. */
  lemma {:induction false} RunInv(chain: Chain, run: seq<State>, actions: seq<Action>, k: nat)
    requires ValidChain(chain) && IsRun(chain, run, actions) && k < |run|
    ensures Inv(chain, run[k])
    decreases k
  {
    hide Inv, Next, ValidChain;
    if k == 0 {
      InitInv(chain, run[0]);
    } else {
      RunInv(chain, run, actions, k - 1);
      StepInv(chain, run[k - 1], actions[k - 1], run[k]);
    }
  }

  /* ----- no holes ----- */

  /** Every height from the first to the last indexed block has a block whose indexing gets to
      its end, and that block is fully indexed. */
  ghost predicate NoHoles(chain: Chain, db: Db) {
    && LoadFirstBlock(db).Height? && LoadLastBlock(db).Height?
    && (LoadFirstBlock(db).number != -1 ==>
          forall h :: LoadFirstBlock(db).number <= h <= LoadLastBlock(db).number ==>
            Indexable(chain, h) && FullyIndexed(chain, db, h))
  }

  /** A height the service failed on, with entries to write, never indexed later. */
  ghost predicate Missed(chain: Chain, s: State, h: int) {
    h in s.failed && h !in s.done && RowsAt(chain, h) != []
  }

  lemma NoHolesExactly(chain: Chain, s: State)
    requires ValidChain(chain) && Inv(chain, s)
    ensures LoadFirstBlock(s.db).Height? && LoadLastBlock(s.db).Height?
    ensures NoHoles(chain, s.db) <==>
            forall h :: LoadFirstBlock(s.db).number < h < LoadLastBlock(s.db).number ==> !Missed(chain, s, h)
  {
    hide RowsAt, LoadFirstBlock, LoadLastBlock, ValidChain, FullyIndexed, Inv, Indexable;
    assert IsIndex(chain, s.db, s.done) && Handled(chain, s) by { InvIndex(chain, s); }
    InvCovers(chain, s);
    FirstOfIndex(chain, s.db, s.done);
    LastOfIndex(chain, s.db, s.done);
    var first, last := LoadFirstBlock(s.db).number, LoadLastBlock(s.db).number;
    if first != -1 {
      forall h | first <= h <= last
        ensures Indexable(chain, h) && (FullyIndexed(chain, s.db, h) <==> !Missed(chain, s, h))
      {
        FullyIndexedExactly(chain, s, first, last, h);
      }
      assert !Missed(chain, s, first) && !Missed(chain, s, last);
    }
  }

  lemma InvIndex(chain: Chain, s: State)
    requires Inv(chain, s)
    ensures IsIndex(chain, s.db, s.done) && Handled(chain, s)
  {
  }

  lemma FullyIndexedExactly(chain: Chain, s: State, first: int, last: int, h: int)
    requires ValidChain(chain) && IsIndex(chain, s.db, s.done) && Handled(chain, s) && CoversSome(chain, s)
    requires first <= h <= last && Visible(chain, s.done, first) && Visible(chain, s.done, last)
    ensures Indexable(chain, h)
    ensures FullyIndexed(chain, s.db, h) <==> !Missed(chain, s, h)
  {
    hide RowsAt, ValidChain, FullyIndexed, Indexable;
    var lo, hi :| Covers(chain, s, lo, hi);
    if RowsAt(chain, h) == [] {
      EmptyBlockIndexed(chain, s.db, h);
    } else if h !in s.done {
      NotIndexed(chain, s.db, s.done, h);
    }
  }

  lemma RowsMeanIndexable(chain: Chain, h: int)
    ensures RowsAt(chain, h) != [] ==> Indexable(chain, h)
  {
  }

  /** Over every run of services, crashes, restarts and offline commands, the index has no
      hole between its first and last block exactly when no block with entries in between
      was passed over by the service after a failed IndexBlock and not indexed since. */
  lemma HolesAreFailures(chain: Chain, run: seq<State>, actions: seq<Action>, k: nat)
    requires ValidChain(chain) && IsRun(chain, run, actions) && k < |run|
    ensures LoadFirstBlock(run[k].db).Height? && LoadLastBlock(run[k].db).Height?
    ensures NoHoles(chain, run[k].db) <==>
            forall h :: LoadFirstBlock(run[k].db).number < h < LoadLastBlock(run[k].db).number ==>
                          !Missed(chain, run[k], h)
  {
    hide *;
    RunInv(chain, run, actions, k);
    NoHolesExactly(chain, run[k]);
  }

  lemma {:induction false} NoFailures(chain: Chain, run: seq<State>, actions: seq<Action>, k: nat)
    requires IsRun(chain, run, actions) && k < |run|
    requires forall j :: 0 <= j < k ==> !actions[j].IndexFails?
    ensures run[k].failed == {}
    decreases k
  {
    hide LoadFirstBlock, LoadLastBlock, BatchAt, Indexable;
    if k > 0 {
      NoFailures(chain, run, actions, k - 1);
      assert Next(chain, run[k - 1], actions[k - 1], run[k]);
    }
  }

  /** As long as no IndexBlock call fails inside the service, every run keeps the index free
      of holes. */
  lemma NoHolesWithoutFailures(chain: Chain, run: seq<State>, actions: seq<Action>, k: nat)
    requires ValidChain(chain) && IsRun(chain, run, actions) && k < |run|
    requires forall j :: 0 <= j < k ==> !actions[j].IndexFails?
    ensures NoHoles(chain, run[k].db)
  {
    hide ValidChain, IsRun, NoHoles, RowsAt;
    NoFailures(chain, run, actions, k);
    HolesAreFailures(chain, run, actions, k);
  }

  /** The failure that leaves a hole: with something indexed below, the service fails on a
      block with entries and goes on to index the next one. */
  lemma FailureLeavesHole(chain: Chain, s: State, g: int) returns (s1: State, s2: State, s3: State, s4: State)
    requires ValidChain(chain) && Inv(chain, s) && Visible(chain, s.done, g)
    requires s.process.Serving? && s.process.service.loop.Index?
    requires var i := s.process.service.loop.i;
             && i < s.process.service.latest && Indexable(chain, i + 1)
             && RowsAt(chain, i) != [] && RowsAt(chain, i + 1) != []
    ensures Next(chain, s, IndexFails, s1) && Next(chain, s1, LoopStep, s2)
    ensures Next(chain, s2, LoopStep, s3) && Next(chain, s3, LoopStep, s4)
    ensures !NoHoles(chain, s4.db)
  {
    hide RowsAt, BatchAt, IsIndex, LoadFirstBlock, LoadLastBlock, ValidChain, Indexable, NoHoles;
    var v := s.process.service;
    var i := v.loop.i;
    var v1 := v.(last := i, loop := Bound(i + 1), calls := v.calls + [i]);
    s1 := WithService(s, v1).(failed := s.failed + {i});
    s2 := WithService(s1, v1.(loop := Fetch(i + 1)));
    s3 := WithService(s2, v1.(loop := Index(i + 1)));
    s4 := WithService(s3, v1.(last := i + 1, loop := Bound(i + 2), calls := v1.calls + [i + 1]))
          .(db := s3.db + BatchAt(chain, i + 1), done := s3.done + {i + 1});
    var lo :| Covers(chain, s, lo, i);
    assert !Visible(chain, s.done, i);
    RowsMeanIndexable(chain, i);
    StepInv(chain, s, IndexFails, s1);
    StepInv(chain, s1, LoopStep, s2);
    StepInv(chain, s2, LoopStep, s3);
    StepInv(chain, s3, LoopStep, s4);
    NoHolesExactly(chain, s4);
    FirstOfIndex(chain, s4.db, s4.done);
    LastOfIndex(chain, s4.db, s4.done);
    assert Visible(chain, s4.done, g) && Visible(chain, s4.done, i + 1);
    assert Missed(chain, s4, i);
  }

  /** In every state of every run, indexing an indexed height again changes nothing. */
  lemma ReindexingChangesNothing(chain: Chain, run: seq<State>, actions: seq<Action>, k: nat, h: int)
    requires ValidChain(chain) && IsRun(chain, run, actions) && k < |run| && h in run[k].done
    ensures run[k].db + BatchAt(chain, h) == run[k].db
  {
    hide ValidChain, IsRun, Inv, FullyIndexed, BatchAt;
    RunInv(chain, run, actions, k);
    InvIndex(chain, run[k]);
    IndexAgain(chain, run[k].db, h);
  }

  /* ----- the service ----- */

  /** In every interleaving of header goroutine and indexing loop no wake-up is lost. */
  lemma WakeUps(chain: Chain, run: seq<State>, actions: seq<Action>, k: nat)
    requires ValidChain(chain) && IsRun(chain, run, actions) && k < |run| && run[k].process.Serving?
    ensures NoLostWakeUp(run[k].process.service)
  {
    hide ValidChain, IsRun, NoLostWakeUp, IsIndex, ServiceInv;
    RunInv(chain, run, actions, k);
  }

  /** Once the service knows where it starts, it has passed every height from there to its
      last block to the indexer, each once and in order. */
  lemma CallsInOrder(chain: Chain, run: seq<State>, actions: seq<Action>, k: nat)
    requires ValidChain(chain) && IsRun(chain, run, actions) && k < |run| && run[k].process.Serving?
    ensures var v := run[k].process.service;
            if v.loop.Boot? || v.loop.StartAtLatest? then v.calls == [] else InOrderCalls(v)
  {
    hide ValidChain, IsRun, InOrderCalls, IsIndex, CoversTo, CoversSome, NothingVisible;
    RunInv(chain, run, actions, k);
  }

  /** In every run a service that has begun did so behind the last block of the index it found, or
      behind the latest block if that had none; since then it added the heights up to its last
      block, all but those it failed on, and nothing else. */
  lemma BeginsAndAdds(chain: Chain, run: seq<State>, actions: seq<Action>, k: nat)
    requires ValidChain(chain) && IsRun(chain, run, actions) && k < |run| && run[k].process.Serving?
    ensures var v := run[k].process.service;
            if v.loop.Boot? || v.loop.StartAtLatest? then run[k].done == v.base
            else BeginsRight(chain, v) && AddsInOrder(run[k], v)
  {
    hide ValidChain, IsRun, BeginsRight, AddsInOrder;
    RunInv(chain, run, actions, k);
  }
}
