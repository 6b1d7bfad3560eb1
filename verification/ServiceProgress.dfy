/** The service gets on: headers reach it, and what it can index gets indexed. */
module ServiceProgress {
  import opened Words
  import opened IndexKeys
  import opened IndexedChain
  import opened IndexerRuns
  import opened OfflineIndexing

  /* ----- paths without failures ----- */

  /** Steps of the service in which nothing goes wrong. */
  predicate IsSmooth(a: Action) {
    a.HeaderArrives? || a.SignalNewBlock? || a.LoopStep? || a.Timeout?
  }

  ghost predicate SmoothPath(chain: Chain, run: seq<State>, actions: seq<Action>) {
    IsPath(chain, run, actions) && forall i :: 0 <= i < |actions| ==> IsSmooth(actions[i])
  }

  /** The service gets from `s` to `s'` on such steps. */
  ghost predicate GetsTo(chain: Chain, s: State, s': State) {
    exists run, actions :: SmoothPath(chain, run, actions) && run[0] == s && run[|run| - 1] == s'
  }

  lemma GetsToItself(chain: Chain, s: State)
    ensures GetsTo(chain, s, s)
  {
    hide Next;
    assert SmoothPath(chain, [s], []);
  }

  lemma StepFirst(chain: Chain, s: State, a: Action, t: State, u: State)
    requires IsSmooth(a) && Next(chain, s, a, t) && GetsTo(chain, t, u)
    ensures GetsTo(chain, s, u)
  {
    hide Next, IsSmooth;
    var run, actions :| SmoothPath(chain, run, actions) && run[0] == t && run[|run| - 1] == u;
    var r, b := [s] + run, [a] + actions;
    forall i | 0 <= i < |b| ensures Next(chain, r[i], b[i], r[i + 1]) && IsSmooth(b[i]) {
      if i > 0 {
        assert Next(chain, run[i - 1], actions[i - 1], run[i]) && IsSmooth(actions[i - 1]);
      }
    }
    assert SmoothPath(chain, r, b) && r[|r| - 1] == u;
  }

  /* ----- the loop ----- */

  ghost predicate HasBegun(v: Service) {
    !v.loop.Boot? && !v.loop.StartAtLatest?
  }

  /** The loop has dealt with everything up to `h`. */
  ghost predicate Reached(s: State, h: int) {
    s.process.Serving? && HasBegun(s.process.service) && s.process.service.last >= h
  }

  function Distance(v: Service, h: int): nat {
    if v.last < h then h - v.last else 0
  }

  function Rank(l: LoopPc): nat {
    match l
    case Boot => 6
    case StartAtLatest => 5
    case Waiting => 4
    case Check => 3
    case Bound(_) => 2
    case Fetch(_) => 1
    case Index(_) => 0
  }

  /** One step of the loop that brings it closer to `h`. */
  lemma LoopGetsOn(chain: Chain, s: State, h: int) returns (a: Action, t: State)
    requires ValidChain(chain) && Inv(chain, s) && s.process.Serving? && !Reached(s, h)
    requires h <= s.process.service.latest
    requires s.process.service.loop.Index? ==> Indexable(chain, s.process.service.loop.i)
    ensures IsSmooth(a) && Next(chain, s, a, t) && Inv(chain, t) && t.process.Serving?
    ensures t.process.service.latest == s.process.service.latest && t.failed == s.failed && t.height == s.height
    ensures var v, w := s.process.service, t.process.service;
            && (HasBegun(v) ==> HasBegun(w) && w.start == v.start && w.last >= v.last)
            && (HasBegun(v) && Distance(w, h) == Distance(v, h) ==> Rank(w.loop) < Rank(v.loop))
            && (!HasBegun(v) ==> Rank(w.loop) < Rank(v.loop))
  {
    hide RowsAt, BatchAt, IsIndex, LoadLastBlock, ValidChain, Indexable, Visible;
    var v := s.process.service;
    a := if v.loop.Waiting? then Timeout else LoopStep;
    match v.loop {
      case Boot =>
        assert LoadLastBlock(s.db).Height? by { InvIndex(chain, s); LastOfIndex(chain, s.db, s.done); }
        var last := LoadLastBlock(s.db).number;
        t := WithService(s, v.(last := last, start := last, loop := if last == -1 then StartAtLatest else Check));
      case StartAtLatest => t := WithService(s, v.(last := v.latest, start := v.latest, loop := Check));
      case Check => t := WithService(s, v.(loop := Bound(v.last + 1)));
      case Waiting => t := WithService(s, v.(loop := Check));
      case Bound(i) => t := WithService(s, v.(loop := Fetch(i)));
      case Fetch(i) => t := WithService(s, v.(loop := Index(i)));
      case Index(i) =>
        t := WithService(s, v.(last := i, loop := Bound(i + 1), calls := v.calls + [i]))
             .(db := s.db + BatchAt(chain, i), done := s.done + {i});
    }
    StepInv(chain, s, a, t);
  }

  /** The block behind which the loop goes on, or will begin. */
  ghost function Behind(s: State): int
    requires s.process.Serving?
  {
    var v, last := s.process.service, LoadLastBlock(s.db);
    if HasBegun(v) then v.last
    else if v.loop.Boot? && last.Height? && last.number != -1 then last.number
    else v.latest
  }

  lemma {:induction false} Begins(chain: Chain, s: State) returns (t: State)
    requires ValidChain(chain) && Inv(chain, s) && s.process.Serving?
    ensures GetsTo(chain, s, t) && Inv(chain, t) && t.process.Serving? && HasBegun(t.process.service)
    ensures t.height == s.height && t.failed == s.failed && t.done == s.done
    ensures t.process.service.last == Behind(s)
    ensures HasBegun(s.process.service) ==> t == s
    decreases Rank(s.process.service.loop)
  {
    hide ValidChain, Inv, LoadLastBlock, Next, GetsTo;
    var v := s.process.service;
    if HasBegun(v) {
      GetsToItself(chain, s);
      t := s;
    } else {
      var u := BeginsOn(chain, s);
      t := Begins(chain, u);
      StepFirst(chain, s, LoopStep, u, t);
    }
  }

  lemma BeginsOn(chain: Chain, s: State) returns (t: State)
    requires ValidChain(chain) && Inv(chain, s) && s.process.Serving? && !HasBegun(s.process.service)
    ensures Next(chain, s, LoopStep, t) && Inv(chain, t) && t.process.Serving?
    ensures t.height == s.height && t.failed == s.failed && t.done == s.done && Behind(t) == Behind(s)
    ensures Rank(t.process.service.loop) < Rank(s.process.service.loop)
  {
    hide RowsAt, IsIndex, LoadLastBlock, ValidChain, Visible;
    var v := s.process.service;
    if v.loop.Boot? {
      assert LoadLastBlock(s.db).Height? by { InvIndex(chain, s); LastOfIndex(chain, s.db, s.done); }
      var last := LoadLastBlock(s.db).number;
      t := WithService(s, v.(last := last, start := last, loop := if last == -1 then StartAtLatest else Check));
    } else {
      t := WithService(s, v.(last := v.latest, start := v.latest, loop := Check));
    }
    StepInv(chain, s, LoopStep, t);
  }

  /** A header reaches the service whatever else it is doing. */
  lemma HeaderReaches(chain: Chain, s: State, h: int) returns (t: State)
    requires ValidChain(chain) && Inv(chain, s) && s.process.Serving? && HasBegun(s.process.service) && h <= s.height
    ensures GetsTo(chain, s, t) && Inv(chain, t) && t.process.Serving? && h <= t.process.service.latest
    ensures t.height == s.height && t.failed == s.failed && t.done == s.done
    ensures var v, w := s.process.service, t.process.service; w.loop == v.loop && w.last == v.last && w.start == v.start
  {
    hide ValidChain, Inv, GetsTo, LoopNext;
    var v := s.process.service;
    var u := s;
    if v.header == Notify {
      u := WithService(s, v.(signal := true, header := Receive));
      StepInv(chain, s, SignalNewBlock, u);
    }
    t := u;
    if h > v.latest {
      t := WithService(u, u.process.service.(latest := h, header := Notify));
      StepInv(chain, u, HeaderArrives(h), t);
      GetsToItself(chain, t);
      StepFirst(chain, u, HeaderArrives(h), t, t);
    } else {
      GetsToItself(chain, t);
    }
    if v.header == Notify {
      StepFirst(chain, s, SignalNewBlock, u, t);
    }
  }

  lemma {:induction false} LoopReaches(chain: Chain, s: State, h: int) returns (t: State)
    requires ValidChain(chain) && Inv(chain, s) && s.process.Serving? && HasBegun(s.process.service)
    requires h <= s.process.service.latest
    requires forall g :: s.process.service.last < g <= h ==> Indexable(chain, g)
    ensures GetsTo(chain, s, t) && Inv(chain, t) && Reached(t, h)
    ensures t.failed == s.failed && t.process.service.latest == s.process.service.latest
    ensures t.process.service.start == s.process.service.start
    decreases Distance(s.process.service, h), Rank(s.process.service.loop)
  {
    hide ValidChain, Inv, Next, GetsTo, Indexable, Rank;
    if Reached(s, h) {
      GetsToItself(chain, s);
      t := s;
    } else {
      IndexIsNext(chain, s);
      var a, u := LoopGetsOn(chain, s, h);
      t := LoopReaches(chain, u, h);
      StepFirst(chain, s, a, u, t);
    }
  }

  lemma IndexIsNext(chain: Chain, s: State)
    requires Inv(chain, s) && s.process.Serving?
    ensures var v := s.process.service; v.loop.Index? ==> v.loop.i == v.last + 1 <= v.latest
  {
  }

  /** From every serving state: if the node has block `h`, and every height from where the loop goes
      on to `h` can be indexed, then without any failure the service comes to know of block `h` and
      to have indexed everything since it began up to `h`, but for earlier failures. */
  lemma ServiceGetsTo(chain: Chain, s: State, h: int) returns (t: State)
    requires ValidChain(chain) && Inv(chain, s) && s.process.Serving? && h <= s.height
    requires forall g :: Behind(s) < g <= h ==> Indexable(chain, g)
    ensures GetsTo(chain, s, t) && Inv(chain, t) && Reached(t, h) && t.process.service.latest >= h
    ensures t.failed == s.failed
    ensures HasBegun(s.process.service) ==> t.process.service.start == s.process.service.start
    ensures forall g :: t.process.service.start < g <= h ==> g in t.done || g in s.failed
  {
    hide ValidChain, Inv, GetsTo, Indexable;
    var s1 := Begins(chain, s);
    var s2 := HeaderReaches(chain, s1, h);
    t := LoopReaches(chain, s2, h);
    GetsFurther(chain, s1, s2, t);
    GetsFurther(chain, s, s1, t);
    Added(chain, t);
  }

  lemma Added(chain: Chain, s: State)
    requires Inv(chain, s) && s.process.Serving? && HasBegun(s.process.service)
    ensures var v := s.process.service; forall g :: v.start < g <= v.last ==> g in s.done || g in s.failed
  {
    hide IsIndex, BeginsRight;
  }

  lemma {:induction false} GetsFurther(chain: Chain, s: State, t: State, u: State)
    requires GetsTo(chain, s, t) && GetsTo(chain, t, u)
    ensures GetsTo(chain, s, u)
  {
    hide Next, IsSmooth;
    var run, actions :| SmoothPath(chain, run, actions) && run[0] == s && run[|run| - 1] == t;
    PathFurther(chain, run, actions, u);
  }

  lemma {:induction false} PathFurther(chain: Chain, run: seq<State>, actions: seq<Action>, u: State)
    requires SmoothPath(chain, run, actions) && GetsTo(chain, run[|run| - 1], u)
    ensures GetsTo(chain, run[0], u)
    decreases |actions|
  {
    hide Next, GetsTo, IsSmooth;
    if actions != [] {
      forall i | 0 <= i < |actions| - 1
        ensures Next(chain, run[1..][i], actions[1..][i], run[1..][i + 1]) && IsSmooth(actions[1..][i])
      {
        assert Next(chain, run[i + 1], actions[i + 1], run[i + 2]) && IsSmooth(actions[i + 1]);
      }
      PathFurther(chain, run[1..], actions[1..], u);
      assert Next(chain, run[0], actions[0], run[1]) && IsSmooth(actions[0]);
      StepFirst(chain, run[0], actions[0], run[1], u);
    }
  }

  /** In every state of every run in which the service runs. */
  lemma ServiceGetsOnInRuns(chain: Chain, run: seq<State>, actions: seq<Action>, k: nat, h: int) returns (t: State)
    requires ValidChain(chain) && IsRun(chain, run, actions) && k < |run| && run[k].process.Serving?
    requires h <= run[k].height && forall g :: Behind(run[k]) < g <= h ==> Indexable(chain, g)
    ensures GetsTo(chain, run[k], t) && Reached(t, h) && t.process.service.latest >= h
    ensures forall g :: t.process.service.start < g <= h ==> g in t.done || g in run[k].failed
  {
    hide ValidChain, Inv, GetsTo, Indexable, IsRun;
    RunInv(chain, run, actions, k);
    t := ServiceGetsTo(chain, run[k], h);
  }
}
