/** The reward percentiles of the fee history: a sweep over the transactions of a block
    sorted by reward. */
module FeeHistory {
  import opened Words
  import opened Blocks

  datatype GasReward = GasReward(gas: uint64, reward: int)

  /** What the decoder makes of a transaction: the rewards of its Ethereum messages, or
      nothing. */
  datatype TxRewards = Undecodable | TxRewards(gasUsed: int64, rewards: seq<int>)

  /* ----- gathering ----- */

  function Entries(gas: uint64, rewards: seq<int>): seq<GasReward> {
    if rewards == [] then [] else [GasReward(gas, rewards[0])] + Entries(gas, rewards[1..])
  }

  /** One entry per Ethereum message, with the gas of its whole transaction. */
  function GatherAll(txs: seq<TxRewards>): seq<GasReward> {
    if txs == [] then [] else TxEntries(txs[0]) + GatherAll(txs[1..])
  }

  function TxEntries(tx: TxRewards): seq<GasReward> {
    if tx.Undecodable? then [] else Entries(ToUint64(tx.gasUsed), tx.rewards)
  }

  /** The inner loop: the messages of one transaction. */
  method GatherTx(gas: uint64, rewards: seq<int>, before: seq<GasReward>) returns (sorter: seq<GasReward>)
    ensures sorter == before + Entries(gas, rewards)
  {
    sorter := before;
    var m := 0;
    while m < |rewards|
      invariant 0 <= m <= |rewards|
      invariant sorter + Entries(gas, rewards[m..]) == before + Entries(gas, rewards)
    {
      assert rewards[m..][1..] == rewards[m + 1..];
      sorter := sorter + [GasReward(gas, rewards[m])];
      m := m + 1;
    }
  }

  method Gather(txs: seq<TxRewards>) returns (sorter: seq<GasReward>)
    ensures sorter == GatherAll(txs)
    ensures exists ps :: IsGathered(txs, ps, sorter)
  {
    hide Entries, GatherAll;
    sorter := [];
    var i := 0;
    assert txs[0..] == txs;
    while i < |txs|
      invariant 0 <= i <= |txs|
      invariant sorter + GatherAll(txs[i..]) == GatherAll(txs)
    {
      GatherNext(txs, i);
      ghost var rest := GatherAll(txs[i + 1..]);
      assert sorter + (TxEntries(txs[i]) + rest) == sorter + TxEntries(txs[i]) + rest;
      if txs[i].TxRewards? {
        sorter := GatherTx(ToUint64(txs[i].gasUsed), txs[i].rewards, sorter);
      }
      i := i + 1;
    }
    NothingGathered();
    assert txs[i..] == [];
    ghost var ps := GatherExactly(txs);
  }

  lemma GatherNext(txs: seq<TxRewards>, i: nat)
    requires i < |txs|
    ensures GatherAll(txs[i..]) == TxEntries(txs[i]) + GatherAll(txs[i + 1..])
  {
    assert txs[i..][1..] == txs[i + 1..];
  }

  lemma NothingGathered()
    ensures GatherAll([]) == []
  {
  }

  /* ----- what is gathered ----- */

  /** A message with a reward: transaction in the block, Ethereum message in the transaction. */
  predicate HasReward(txs: seq<TxRewards>, p: Position) {
    p.tx < |txs| && txs[p.tx].TxRewards? && p.msg < |txs[p.tx].rewards|
  }

  /** The entries of all messages with a reward, each once, in the order of the block. */
  ghost predicate IsGathered(txs: seq<TxRewards>, ps: seq<Position>, entries: seq<GasReward>) {
    && (forall p :: p in ps <==> HasReward(txs, p)) && Ascending(ps)
    && EntriesAt(txs, ps, entries)
  }

  ghost predicate EntriesAt(txs: seq<TxRewards>, ps: seq<Position>, entries: seq<GasReward>) {
    && |entries| == |ps|
    && forall i :: 0 <= i < |ps| ==>
         && HasReward(txs, ps[i])
         && entries[i].gas == ToUint64(txs[ps[i].tx].gasUsed)
         && entries[i].reward == txs[ps[i].tx].rewards[ps[i].msg]
  }

  lemma EntriesAtConcat(txs: seq<TxRewards>, p: seq<Position>, a: seq<GasReward>, q: seq<Position>, b: seq<GasReward>)
    requires EntriesAt(txs, p, a) && EntriesAt(txs, q, b)
    ensures EntriesAt(txs, p + q, a + b)
  {
  }

  lemma {:induction false} GatheredFromTx(txs: seq<TxRewards>, t: nat, m: nat) returns (ps: seq<Position>)
    requires t < |txs| && txs[t].TxRewards? && m <= |txs[t].rewards|
    ensures forall p :: p in ps <==> p.tx == t && m <= p.msg && HasReward(txs, p)
    ensures Ascending(ps) && EntriesAt(txs, ps, Entries(ToUint64(txs[t].gasUsed), txs[t].rewards[m..]))
    decreases |txs[t].rewards| - m
  {
    var rewards := txs[t].rewards;
    if m == |rewards| {
      ps := [];
    } else {
      var rest := GatheredFromTx(txs, t, m + 1);
      assert rewards[m..][1..] == rewards[m + 1..];
      var first := Position(t, m);
      AscendingConcat([first], rest);
      hide Ascending;
      EntriesAtConcat(txs, [first], [GasReward(ToUint64(txs[t].gasUsed), rewards[m])],
                      rest, Entries(ToUint64(txs[t].gasUsed), rewards[m + 1..]));
      ps := [first] + rest;
    }
  }

  lemma {:induction false} GatheredFrom(txs: seq<TxRewards>, t: nat) returns (ps: seq<Position>)
    requires t <= |txs|
    ensures forall p :: p in ps <==> t <= p.tx && HasReward(txs, p)
    ensures Ascending(ps) && EntriesAt(txs, ps, GatherAll(txs[t..]))
    decreases |txs| - t
  {
    hide Entries;
    if t == |txs| {
      ps := [];
      NothingGathered();
      assert txs[t..] == [];
    } else {
      var rest := GatheredFrom(txs, t + 1);
      var here: seq<Position> := [];
      if txs[t].TxRewards? {
        here := GatheredFromTx(txs, t, 0);
        assert txs[t].rewards[0..] == txs[t].rewards;
      }
      GatherNext(txs, t);
      AscendingConcat(here, rest);
      hide Ascending, GatherAll;
      EntriesAtConcat(txs, here, TxEntries(txs[t]), rest, GatherAll(txs[t + 1..]));
      ps := here + rest;
    }
  }

  /** One entry for every Ethereum message of every decodable transaction. */
  lemma GatherExactly(txs: seq<TxRewards>) returns (ps: seq<Position>)
    ensures IsGathered(txs, ps, GatherAll(txs))
  {
    hide GatherAll, EntriesAt, Ascending;
    ps := GatheredFrom(txs, 0);
    assert txs[0..] == txs;
  }

  /** They are determined by that. */
  lemma GatheredUnique(txs: seq<TxRewards>, p: seq<Position>, a: seq<GasReward>, q: seq<Position>, b: seq<GasReward>)
    requires IsGathered(txs, p, a) && IsGathered(txs, q, b)
    ensures p == q && a == b
  {
    hide HasReward;
    AscendingUnique(p, q);
    assert forall i :: 0 <= i < |p| ==> a[i] == b[i];
  }

  /* ----- the sweep ----- */

  predicate SortedByReward(s: seq<GasReward>) {
    forall i, j :: 0 <= i <= j < |s| ==> s[i].reward <= s[j].reward
  }

  /** Gas of the first `n` entries. */
  function GasOf(s: seq<GasReward>, n: nat): nat
    requires n <= |s|
  {
    if n == 0 then 0 else GasOf(s, n - 1) + s[n - 1].gas
  }

  /** The same in the 64-bit words of the sweep. */
  function Sum(s: seq<GasReward>, n: nat): uint64
    requires n <= |s|
  {
    if n == 0 then 0 else AddUint64(Sum(s, n - 1), s[n - 1].gas)
  }

  /** A fresh search from entry `k` on: the first entry at which the sum reaches the
      threshold, or the last entry. */
  function Search(s: seq<GasReward>, threshold: nat, k: nat): (i: nat)
    requires k < |s|
    ensures k <= i < |s|
    decreases |s| - k
  {
    if Sum(s, k + 1) >= threshold || k == |s| - 1 then k else Search(s, threshold, k + 1)
  }

  function Greatest(thresholds: seq<nat>, n: nat): nat
    requires 0 < n <= |thresholds|
  {
    if n == 1 then thresholds[0]
    else if thresholds[n - 1] > Greatest(thresholds, n - 1) then thresholds[n - 1]
    else Greatest(thresholds, n - 1)
  }

  /** The reward a fresh search finds for one threshold. */
  function RewardAt(s: seq<GasReward>, threshold: nat): int
    requires s != []
  {
    s[Search(s, threshold, 0)].reward
  }

  lemma {:induction false} GasMonotone(s: seq<GasReward>, m: nat, n: nat)
    requires m <= n <= |s|
    ensures GasOf(s, m) <= GasOf(s, n)
  {
    if m < n {
      GasMonotone(s, m, n - 1);
    }
  }

  lemma {:induction false} SumIsGas(s: seq<GasReward>, n: nat, m: nat)
    requires n <= m <= |s| && GasOf(s, m) < TWO64
    ensures Sum(s, n) == GasOf(s, n)
  {
    if n > 0 {
      SumIsGas(s, n - 1, m);
      GasMonotone(s, n, m);
    }
  }

  /** A search may start at any entry that comes too early. */
  lemma {:induction false} SearchFrom(s: seq<GasReward>, threshold: nat, k: nat, i: nat)
    requires k <= i < |s|
    requires forall n :: k < n <= i ==> Sum(s, n) < threshold
    ensures Search(s, threshold, k) == Search(s, threshold, i)
    decreases i - k
  {
    if k < i {
      SearchFrom(s, threshold, k + 1, i);
    }
  }

  lemma {:induction false} SearchPasses(s: seq<GasReward>, threshold: nat, k: nat)
    requires k < |s|
    ensures forall n :: k < n <= Search(s, threshold, k) ==> Sum(s, n) < threshold
    ensures Sum(s, Search(s, threshold, k) + 1) >= threshold || Search(s, threshold, k) == |s| - 1
    decreases |s| - k
  {
    if Sum(s, k + 1) < threshold && k < |s| - 1 {
      SearchPasses(s, threshold, k + 1);
    }
  }

  /** A higher threshold is not found earlier, and its search may start where the one for the
      lower threshold ended. */
  lemma SearchContinues(s: seq<GasReward>, low: nat, high: nat)
    requires s != [] && low <= high
    ensures Search(s, low, 0) <= Search(s, high, 0)
    ensures Search(s, high, 0) == Search(s, high, Search(s, low, 0))
  {
    SearchPasses(s, low, 0);
    SearchFrom(s, high, 0, Search(s, low, 0));
  }

  /** A lower threshold later on leaves the pointer where it is. */
  lemma SearchStays(s: seq<GasReward>, low: nat, high: nat)
    requires s != [] && low <= high
    ensures Search(s, low, Search(s, high, 0)) == Search(s, high, 0)
  {
    SearchPasses(s, high, 0);
  }

  /** What the sweep yields: for every threshold the reward of a fresh search for the largest
      threshold so far; rewards do not go down. */
  ghost predicate SweptRewards(s: seq<GasReward>, thresholds: seq<nat>, rewards: seq<int>)
    requires s != []
  {
    && |rewards| <= |thresholds|
    && (forall i :: 0 <= i < |rewards| ==> rewards[i] == RewardAt(s, Greatest(thresholds, i + 1)))
    && (forall i, j :: 0 <= i <= j < |rewards| ==> rewards[i] <= rewards[j])
  }

  /** The inner loop: moves the pointer up until the sum reaches the threshold. */
  method Advance(sorter: seq<GasReward>, threshold: nat, start: nat, before: uint64)
    returns (txIndex: nat, sum: uint64)
    requires start < |sorter| && before == Sum(sorter, start + 1)
    ensures txIndex == Search(sorter, threshold, start) && sum == Sum(sorter, txIndex + 1)
  {
    txIndex, sum := start, before;
    while sum < threshold && txIndex < |sorter| - 1
      invariant start <= txIndex < |sorter| && sum == Sum(sorter, txIndex + 1)
      invariant Search(sorter, threshold, start) == Search(sorter, threshold, txIndex)
      decreases |sorter| - txIndex
    {
      txIndex := txIndex + 1;
      sum := AddUint64(sum, sorter[txIndex].gas);
    }
  }

  /** The one-pass sweep: two pointers moving up through thresholds and entries. */
  method Sweep(sorter: seq<GasReward>, thresholds: seq<nat>) returns (rewards: seq<int>)
    requires sorter != [] && SortedByReward(sorter)
    ensures |rewards| == |thresholds| && SweptRewards(sorter, thresholds, rewards)
  {
    hide Search;
    rewards := [];
    var txIndex := 0;
    var sum: uint64 := sorter[0].gas;
    assert Sum(sorter, 1) == AddUint64(Sum(sorter, 0), sorter[0].gas);
    var i := 0;
    while i < |thresholds|
      invariant 0 <= i == |rewards| <= |thresholds| && txIndex < |sorter|
      invariant sum == Sum(sorter, txIndex + 1)
      invariant txIndex == if i == 0 then 0 else Search(sorter, Greatest(thresholds, i), 0)
      invariant SweptRewards(sorter, thresholds, rewards)
      invariant forall k :: 0 <= k < i ==> rewards[k] <= sorter[txIndex].reward
    {
      ghost var start := txIndex;
      txIndex, sum := Advance(sorter, thresholds[i], txIndex, sum);
      SweepStep(sorter, thresholds, i, start, txIndex);
      assert sorter[start].reward <= sorter[txIndex].reward;
      rewards := rewards + [sorter[txIndex].reward];
      i := i + 1;
    }
  }

  /** The pointer after a threshold is where a fresh search for the largest threshold so far
      would end. */
  lemma SweepStep(s: seq<GasReward>, thresholds: seq<nat>, i: nat, start: nat, end: nat)
    requires s != [] && i < |thresholds| && start < |s|
    requires i == 0 ==> start == 0
    requires i > 0 ==> start == Search(s, Greatest(thresholds, i), 0)
    requires end == Search(s, thresholds[i], start)
    ensures end == Search(s, Greatest(thresholds, i + 1), 0)
  {
    hide Search;
    if i > 0 {
      var before := Greatest(thresholds, i);
      if thresholds[i] > before {
        SearchContinues(s, before, thresholds[i]);
      } else {
        SearchStays(s, thresholds[i], before);
      }
    }
  }

  /* ----- ties do not matter ----- */

  /** Gas of all entries with at most this reward. */
  function GasUpTo(s: seq<GasReward>, reward: int): nat {
    if s == [] then 0
    else (if s[0].reward <= reward then s[0].gas else 0) + GasUpTo(s[1..], reward)
  }

  /** The least reward at which the gas of all entries up to it reaches the threshold, or the
      greatest reward: said without any order of the entries. */
  ghost predicate IsReward(s: seq<GasReward>, threshold: nat, reward: int) {
    && (exists e :: e in s && e.reward == reward)
    && (GasUpTo(s, reward) >= threshold || forall e :: e in s ==> e.reward <= reward)
    && forall e :: e in s && e.reward < reward ==> GasUpTo(s, e.reward) < threshold
  }

  lemma {:induction false} GasUpToConcat(a: seq<GasReward>, b: seq<GasReward>, reward: int)
    ensures GasUpTo(a + b, reward) == GasUpTo(a, reward) + GasUpTo(b, reward)
  {
    if a == [] {
      assert a + b == b;
    } else {
      GasUpToConcat(a[1..], b, reward);
      assert (a + b)[1..] == a[1..] + b;
    }
  }

  lemma {:induction false} GasUpToAll(s: seq<GasReward>, reward: int, n: nat)
    requires n <= |s| && forall i :: 0 <= i < n ==> s[i].reward <= reward
    ensures GasUpTo(s[..n], reward) == GasOf(s, n)
  {
    if n > 0 {
      GasUpToAll(s, reward, n - 1);
      assert s[..n] == s[..n - 1] + [s[n - 1]];
      GasUpToConcat(s[..n - 1], [s[n - 1]], reward);
    }
  }

  lemma {:induction false} GasUpToNone(s: seq<GasReward>, reward: int)
    requires forall e :: e in s ==> e.reward > reward
    ensures GasUpTo(s, reward) == 0
  {
    if s != [] {
      GasUpToNone(s[1..], reward);
    }
  }

  lemma GasUpToSplit(s: seq<GasReward>, reward: int, n: nat)
    requires n <= |s|
    requires forall i :: 0 <= i < n ==> s[i].reward <= reward
    requires forall i :: n <= i < |s| ==> s[i].reward > reward
    ensures GasUpTo(s, reward) == GasOf(s, n)
  {
    hide GasUpTo, GasOf;
    assert s == s[..n] + s[n..];
    GasUpToConcat(s[..n], s[n..], reward);
    GasUpToAll(s, reward, n);
    forall e | e in s[n..] ensures e.reward > reward {
      var j :| 0 <= j < |s[n..]| && s[n..][j] == e;
    }
    GasUpToNone(s[n..], reward);
  }

  function TopReward(s: seq<GasReward>): (top: int)
    requires s != []
    ensures forall e :: e in s ==> e.reward <= top
    ensures exists e :: e in s && e.reward == top
  {
    if |s| == 1 then assert s[0] in s; s[0].reward
    else
      var rest := TopReward(s[1..]);
      assert s == [s[0]] + s[1..] && s[0] in s;
      if s[0].reward > rest then s[0].reward else rest
  }

  /** Gas of the entries below the greatest reward. */
  function GasBelowTop(s: seq<GasReward>): nat
    requires s != []
  {
    GasUpTo(s, TopReward(s) - 1)
  }

  /** Where the entries with the reward of `k` begin in a sorted list. */
  lemma {:induction false} FirstOfReward(s: seq<GasReward>, k: nat) returns (f: nat)
    requires k < |s| && SortedByReward(s)
    ensures f <= k && s[f].reward == s[k].reward
    ensures forall i :: 0 <= i < f ==> s[i].reward < s[f].reward
    ensures GasOf(s, f) == GasUpTo(s, s[k].reward - 1)
  {
    hide GasOf, GasUpTo;
    if k == 0 || s[k - 1].reward < s[k].reward {
      f := k;
      GasUpToSplit(s, s[k].reward - 1, k);
    } else {
      f := FirstOfReward(s, k - 1);
    }
  }

  lemma LastIsTop(s: seq<GasReward>)
    requires s != [] && SortedByReward(s)
    ensures s[|s| - 1].reward == TopReward(s)
  {
    var top := TopReward(s);
    var e :| e in s && e.reward == top;
    var i :| 0 <= i < |s| && s[i] == e;
    assert s[|s| - 1] in s;
  }

  lemma SearchByGas(s: seq<GasReward>, threshold: nat, f: nat)
    requires f < |s| && GasOf(s, f) < TWO64
    ensures var k := Search(s, threshold, 0);
            && (k < f ==> GasOf(s, k + 1) >= threshold)
            && forall n :: 0 < n <= k && n <= f ==> GasOf(s, n) < threshold
  {
    hide Search, GasOf, Sum;
    SearchPasses(s, threshold, 0);
    forall n | 0 <= n <= f ensures Sum(s, n) == GasOf(s, n) {
      SumIsGas(s, n, f);
    }
  }

  lemma GasUpToReaches(s: seq<GasReward>, k: nat)
    requires k < |s| && SortedByReward(s)
    ensures GasUpTo(s, s[k].reward) >= GasOf(s, k + 1)
  {
    hide GasUpTo, GasOf;
    assert s == s[..k + 1] + s[k + 1..];
    GasUpToConcat(s[..k + 1], s[k + 1..], s[k].reward);
    GasUpToAll(s, s[k].reward, k + 1);
  }

  lemma BelowReward(s: seq<GasReward>, threshold: nat, k: nat, f: nat, i: nat)
    requires SortedByReward(s) && i < k < |s| && s[i].reward < s[k].reward
    requires f < |s| && s[i].reward < s[f].reward
    requires forall n :: 0 < n <= k && n <= f ==> GasOf(s, n) < threshold
    ensures GasUpTo(s, s[i].reward) < threshold
  {
    hide GasOf, GasUpTo;
    var n := LastWithReward(s, i, k);
    GasUpToSplit(s, s[i].reward, n);
  }

  /** The search finds the described reward if it stays among the entries whose gas fits 64 bits
      or ends at the reward behind them, which is the greatest or reaches the threshold. */
  lemma FindsAround(s: seq<GasReward>, threshold: nat, f: nat)
    requires s != [] && SortedByReward(s) && f < |s| && GasOf(s, f) < TWO64
    requires forall i :: 0 <= i < f ==> s[i].reward < s[f].reward
    requires s[Search(s, threshold, 0)].reward <= s[f].reward
    requires s[f].reward == TopReward(s) || GasUpTo(s, s[f].reward) >= threshold
    ensures IsReward(s, threshold, RewardAt(s, threshold))
  {
    hide Search, GasOf, GasUpTo, TopReward;
    var k := Search(s, threshold, 0);
    SearchByGas(s, threshold, f);
    GasUpToReaches(s, k);
    forall e | e in s && e.reward < s[k].reward ensures GasUpTo(s, e.reward) < threshold {
      var i :| 0 <= i < |s| && s[i] == e;
      BelowReward(s, threshold, k, f, i);
    }
    assert s[k] in s;
  }

  /** On a sorted list whose gas below the greatest reward fits 64 bits the search finds the
      reward that the unordered description asks for. */
  lemma SearchFindsReward(s: seq<GasReward>, threshold: nat)
    requires s != [] && SortedByReward(s) && GasBelowTop(s) < TWO64
    ensures IsReward(s, threshold, RewardAt(s, threshold))
  {
    hide Search, GasOf, GasUpTo, TopReward, IsReward;
    LastIsTop(s);
    var f := FirstOfReward(s, |s| - 1);
    FindsAround(s, threshold, f);
  }

  /** The search finds the described reward for every threshold exactly when the gas below the
      greatest reward fits 64 bits. */
  lemma SearchFindsRewardExactly(s: seq<GasReward>)
    requires s != [] && SortedByReward(s)
    ensures (forall t: nat :: IsReward(s, t, RewardAt(s, t))) <==> GasBelowTop(s) < TWO64
  {
    hide Search, GasUpTo, IsReward, TopReward, GasBelowTop;
    if GasBelowTop(s) < TWO64 {
      forall t: nat ensures IsReward(s, t, RewardAt(s, t)) {
        SearchFindsReward(s, t);
      }
    } else {
      SearchPasses(s, TWO64, 0);
      LastIsTop(s);
      TopIsNoReward(s, TWO64);
      assert !IsReward(s, TWO64, RewardAt(s, TWO64));
    }
  }

  lemma BelowTopEntry(s: seq<GasReward>)
    requires s != [] && SortedByReward(s) && GasBelowTop(s) > 0
    ensures exists e :: e in s && e.reward < TopReward(s) && GasUpTo(s, e.reward) == GasBelowTop(s)
  {
    hide GasOf, GasUpTo, TopReward;
    LastIsTop(s);
    var f := FirstOfReward(s, |s| - 1);
    assert f > 0 by { NoGas(s); }
    assert s[f - 1] in s;
    GasUpToSplit(s, s[f - 1].reward, f);
  }

  lemma NoGas(s: seq<GasReward>)
    ensures GasOf(s, 0) == 0
  {
  }

  lemma TopIsNoReward(s: seq<GasReward>, threshold: nat)
    requires s != [] && SortedByReward(s) && GasBelowTop(s) >= threshold > 0
    ensures !IsReward(s, threshold, TopReward(s))
  {
    hide GasUpTo, TopReward, GasBelowTop;
    BelowTopEntry(s);
  }

  /** The sum is the greatest word at an entry of the first reward that reaches it. */
  ghost predicate MeetsGreatestWord(s: seq<GasReward>) {
    exists n :: 0 < n <= |s| && Sum(s, n) == TWO64 - 1 && GasUpTo(s, s[n - 1].reward - 1) < TWO64 - 1
  }

  /** For thresholds that are words there is one more way: the sum meets the greatest word
      before it wraps past an entry with a greater reward. */
  lemma SearchFindsRewardInWords(s: seq<GasReward>)
    requires s != [] && SortedByReward(s)
    ensures (forall t: uint64 :: IsReward(s, t, RewardAt(s, t))) <==>
            GasBelowTop(s) < TWO64 || MeetsGreatestWord(s)
  {
    hide Search, GasUpTo, IsReward, TopReward, GasBelowTop, MeetsGreatestWord;
    if GasBelowTop(s) < TWO64 {
      forall t: uint64 ensures IsReward(s, t, RewardAt(s, t)) {
        SearchFindsReward(s, t);
      }
    } else if MeetsGreatestWord(s) {
      forall t: uint64 ensures IsReward(s, t, RewardAt(s, t)) {
        FindsBeforeGreatestWord(s, t);
      }
    } else if IsReward(s, TWO64 - 1, RewardAt(s, TWO64 - 1)) {
      FindsGreatestWord(s);
    }
  }

  lemma FindsBeforeGreatestWord(s: seq<GasReward>, threshold: uint64)
    requires s != [] && SortedByReward(s) && MeetsGreatestWord(s)
    ensures IsReward(s, threshold, RewardAt(s, threshold))
  {
    hide Search, GasUpTo, IsReward, TopReward, GasOf;
    var n :| 0 < n <= |s| && Sum(s, n) == TWO64 - 1 && GasUpTo(s, s[n - 1].reward - 1) < TWO64 - 1;
    var f := FirstOfReward(s, n - 1);
    SearchPasses(s, threshold, 0);
    SumBelowGas(s, n);
    GasUpToReaches(s, n - 1);
    FindsAround(s, threshold, f);
  }

  lemma {:induction false} SumBelowGas(s: seq<GasReward>, n: nat)
    requires n <= |s|
    ensures Sum(s, n) <= GasOf(s, n)
  {
    if n > 0 {
      SumBelowGas(s, n - 1);
    }
  }

  lemma FindsGreatestWord(s: seq<GasReward>)
    requires s != [] && SortedByReward(s) && GasBelowTop(s) >= TWO64
    requires IsReward(s, TWO64 - 1, RewardAt(s, TWO64 - 1))
    ensures MeetsGreatestWord(s)
  {
    hide Search, GasUpTo, TopReward, GasOf, GasBelowTop;
    var k := Search(s, TWO64 - 1, 0);
    SearchPasses(s, TWO64 - 1, 0);
    LastIsTop(s);
    TopIsNoReward(s, TWO64 - 1);
    assert Sum(s, k + 1) == TWO64 - 1;
    var f := FirstOfReward(s, k);
    if f == 0 {
      NoGas(s);
    } else {
      assert s[f - 1] in s;
      GasUpToSplit(s, s[f - 1].reward, f);
    }
  }

  /** Where the entries with at most the reward of `i` end. */
  lemma {:induction false} LastWithReward(s: seq<GasReward>, i: nat, k: nat) returns (n: nat)
    requires SortedByReward(s) && i < k < |s| && s[i].reward < s[k].reward
    ensures i < n <= k && s[n].reward > s[i].reward
    ensures forall j :: 0 <= j < n ==> s[j].reward <= s[i].reward
    decreases k - i
  {
    if s[i + 1].reward > s[i].reward {
      n := i + 1;
    } else {
      n := LastWithReward(s, i + 1, k);
    }
  }

  lemma RewardUnique(s: seq<GasReward>, threshold: nat, r1: int, r2: int)
    requires IsReward(s, threshold, r1) && IsReward(s, threshold, r2)
    ensures r1 == r2
  {
    var e1 :| e1 in s && e1.reward == r1;
    var e2 :| e2 in s && e2.reward == r2;
  }

  lemma {:induction false} GasUpToPermutation(a: seq<GasReward>, b: seq<GasReward>, reward: int)
    requires multiset(a) == multiset(b)
    ensures GasUpTo(a, reward) == GasUpTo(b, reward)
    decreases |a|
  {
    if a == [] {
      assert |multiset(b)| == 0;
    } else {
      assert a[0] in multiset(b);
      var i :| 0 <= i < |b| && b[i] == a[0];
      TakeOut(a, b, i);
      var rest := b[..i] + b[i + 1..];
      GasUpToPermutation(a[1..], rest, reward);
      GasUpToConcat(b[..i], [b[i]] + b[i + 1..], reward);
      GasUpToConcat([b[i]], b[i + 1..], reward);
      GasUpToConcat(b[..i], b[i + 1..], reward);
      assert b == b[..i] + ([b[i]] + b[i + 1..]);
      assert GasUpTo([b[i]], reward) == (if b[i].reward <= reward then b[i].gas else 0) + GasUpTo([], reward);
    }
  }

  lemma TakeOut(a: seq<GasReward>, b: seq<GasReward>, i: nat)
    requires a != [] && multiset(a) == multiset(b) && i < |b| && b[i] == a[0]
    ensures multiset(a[1..]) == multiset(b[..i] + b[i + 1..])
  {
    assert a == [a[0]] + a[1..];
    assert b == b[..i] + [b[i]] + b[i + 1..];
    var x := multiset{a[0]};
    assert multiset(a[1..]) == multiset(a) - x;
    assert multiset(b) == multiset(b[..i]) + x + multiset(b[i + 1..]);
    assert multiset(b[..i] + b[i + 1..]) == multiset(b) - x;
  }

  lemma SameMembers(a: seq<GasReward>, b: seq<GasReward>)
    requires multiset(a) == multiset(b)
    ensures forall e :: e in a <==> e in b
  {
    forall e ensures e in a <==> e in b {
      assert e in a <==> e in multiset(a);
      assert e in b <==> e in multiset(b);
    }
  }

  lemma BelowTopPermutation(a: seq<GasReward>, b: seq<GasReward>)
    requires a != [] && multiset(a) == multiset(b)
    ensures b != [] && GasBelowTop(a) == GasBelowTop(b)
  {
    hide GasUpTo, TopReward;
    SameMembers(a, b);
    assert a[0] in b;
    var e :| e in a && e.reward == TopReward(a);
    var f :| f in b && f.reward == TopReward(b);
    assert TopReward(a) == TopReward(b);
    GasUpToPermutation(a, b, TopReward(a) - 1);
  }

  lemma IsRewardPermutation(a: seq<GasReward>, s: seq<GasReward>, threshold: nat, r: int)
    requires multiset(a) == multiset(s) && IsReward(s, threshold, r)
    ensures IsReward(a, threshold, r)
  {
    hide GasUpTo;
    SameMembers(a, s);
    forall x: int ensures GasUpTo(a, x) == GasUpTo(s, x) {
      GasUpToPermutation(a, s, x);
    }
    var e :| e in s && e.reward == r;
  }

  /** However an unstable sort orders entries with equal rewards, every threshold gets the same
      reward: the answer depends on the entries only, as long as the gas below the greatest
      reward fits 64 bits. */
  lemma TiesDoNotMatter(a: seq<GasReward>, b: seq<GasReward>, threshold: nat)
    requires a != [] && multiset(a) == multiset(b) && SortedByReward(a) && SortedByReward(b)
    requires GasBelowTop(a) < TWO64
    ensures b != [] && RewardAt(a, threshold) == RewardAt(b, threshold)
  {
    hide Search, IsReward, GasBelowTop;
    BelowTopPermutation(a, b);
    SearchFindsReward(a, threshold);
    SearchFindsReward(b, threshold);
    IsRewardPermutation(a, b, threshold, RewardAt(b, threshold));
    RewardUnique(a, threshold, RewardAt(a, threshold), RewardAt(b, threshold));
  }

  const HALF := GasReward(0x7FFF_FFFF_FFFF_FFFF, 1)
  const TWO := GasReward(2, 1)
  const LAST := GasReward(21000, 2)

  /** Four transactions with one message each, as the decoder may deliver them. */
  const OVERFLOWING := [TxRewards(0x7FFF_FFFF_FFFF_FFFF, [1]), TxRewards(0x7FFF_FFFF_FFFF_FFFF, [1]),
                        TxRewards(2, [1]), TxRewards(21000, [2])]

  lemma OneEntry(gasUsed: int64, reward: int, txs: seq<TxRewards>)
    requires gasUsed >= 0
    ensures GatherAll([TxRewards(gasUsed, [reward])] + txs) == [GasReward(gasUsed, reward)] + GatherAll(txs)
  {
    var tx := TxRewards(gasUsed, [reward]);
    assert ([tx] + txs)[1..] == txs;
    assert [reward][1..] == [];
    assert Entries(gasUsed, [reward]) == [GasReward(gasUsed, reward)];
  }

  lemma GatheredOverflow()
    ensures GatherAll(OVERFLOWING) == [HALF, HALF, TWO, LAST]
  {
    hide GatherAll;
    var last := [TxRewards(21000, [2])];
    var two := [TxRewards(2, [1])] + last;
    var half := [TxRewards(0x7FFF_FFFF_FFFF_FFFF, [1])];
    OneEntry(21000, 2, []);
    OneEntry(2, 1, last);
    OneEntry(0x7FFF_FFFF_FFFF_FFFF, 1, two);
    OneEntry(0x7FFF_FFFF_FFFF_FFFF, 1, half + two);
    assert last == last + [];
    assert OVERFLOWING == half + (half + two);
    NothingGathered();
  }

  lemma TwoOrders()
    ensures var a, b := [HALF, HALF, TWO, LAST], [TWO, HALF, HALF, LAST];
            multiset(a) == multiset(b) && SortedByReward(a) && SortedByReward(b)
  {
  }

  lemma WrappedSums()
    ensures var a := [HALF, HALF, TWO, LAST]; Sum(a, 1) == TWO63 - 1 && Sum(a, 2) == TWO64 - 2
    ensures var b := [TWO, HALF, HALF, LAST]; Sum(b, 1) == 2 && Sum(b, 2) == TWO63 + 1 && Sum(b, 3) == 0
  {
    var a, b := [HALF, HALF, TWO, LAST], [TWO, HALF, HALF, LAST];
    assert Sum(a, 0) == 0 && Sum(b, 0) == 0;
    assert Sum(a, 1) == TWO63 - 1;
    assert Sum(b, 1) == 2;
    assert Sum(b, 2) == TWO63 + 1;
  }

  /** Past 64 bits they do matter: in one order of the entries of a block the sum reaches a
      64-bit threshold before it wraps, in the other it does not. */
  lemma TiesMatterPastOverflow()
    ensures var a, b := [HALF, HALF, TWO, LAST], [TWO, HALF, HALF, LAST];
            && GatherAll(OVERFLOWING) == a && multiset(b) == multiset(a)
            && SortedByReward(a) && SortedByReward(b)
            && RewardAt(a, TWO64 - 2) == 1 && RewardAt(b, TWO64 - 2) == 2
  {
    hide Sum, SortedByReward, GatherAll;
    GatheredOverflow();
    TwoOrders();
    WrappedSums();
    var a, b := [HALF, HALF, TWO, LAST], [TWO, HALF, HALF, LAST];
    assert Search(a, TWO64 - 2, 1) == 1;
    assert Search(b, TWO64 - 2, 3) == 3;
    assert Search(b, TWO64 - 2, 2) == 3;
    assert Search(b, TWO64 - 2, 1) == 3;
  }

  /* ----- the whole row ----- */

  function InsertByReward(e: GasReward, s: seq<GasReward>): seq<GasReward> {
    if s == [] || e.reward <= s[0].reward then [e] + s else [s[0]] + InsertByReward(e, s[1..])
  }

  lemma {:induction false} InsertKeepsEntries(e: GasReward, s: seq<GasReward>)
    ensures multiset(InsertByReward(e, s)) == multiset(s) + multiset{e}
  {
    if s != [] {
      assert s == [s[0]] + s[1..];
      InsertKeepsEntries(e, s[1..]);
    }
  }

  lemma {:induction false} InsertKeepsSorted(e: GasReward, s: seq<GasReward>)
    requires SortedByReward(s)
    ensures SortedByReward(InsertByReward(e, s))
  {
    if s != [] && e.reward > s[0].reward {
      InsertKeepsSorted(e, s[1..]);
      InsertKeepsEntries(e, s[1..]);
      var rest := InsertByReward(e, s[1..]);
      forall i | 0 <= i < |rest| ensures s[0].reward <= rest[i].reward {
        assert rest[i] in multiset(rest);
        assert rest[i] in s[1..] || rest[i] == e;
      }
      hide InsertByReward;
      PrependSorted(s[0], rest);
    }
  }

  lemma PrependSorted(e: GasReward, s: seq<GasReward>)
    requires SortedByReward(s) && forall i :: 0 <= i < |s| ==> e.reward <= s[i].reward
    ensures SortedByReward([e] + s)
  {
  }

  /** Any sort by reward will do here, stable or not. */
  method SortByReward(s: seq<GasReward>) returns (sorted: seq<GasReward>)
    ensures SortedByReward(sorted) && multiset(sorted) == multiset(s)
  {
    hide InsertByReward;
    sorted := [];
    var i := 0;
    while i < |s|
      invariant 0 <= i <= |s| && SortedByReward(sorted) && multiset(sorted) == multiset(s[..i])
    {
      InsertKeepsSorted(s[i], sorted);
      InsertKeepsEntries(s[i], sorted);
      sorted := InsertByReward(s[i], sorted);
      assert s[..i + 1] == s[..i] + [s[i]];
      i := i + 1;
    }
    assert s[..i] == s;
  }

  /** Zeros without entries; otherwise, while the gas below the greatest reward fits 64 bits, the
      reward the unordered description asks for at the largest threshold so far. */
  ghost predicate DescribedRow(entries: seq<GasReward>, thresholds: seq<nat>, rewards: seq<int>)
    requires |rewards| == |thresholds|
  {
    if entries == [] then forall i :: 0 <= i < |rewards| ==> rewards[i] == 0
    else
      GasBelowTop(entries) < TWO64 ==>
        forall i :: 0 <= i < |rewards| ==> IsReward(entries, Greatest(thresholds, i + 1), rewards[i])
  }

  lemma RowOfGathered(txs: seq<TxRewards>, thresholds: seq<nat>, rewards: seq<int>)
    requires |rewards| == |thresholds| && DescribedRow(GatherAll(txs), thresholds, rewards)
    ensures forall ps, entries :: IsGathered(txs, ps, entries) ==> DescribedRow(entries, thresholds, rewards)
  {
    hide DescribedRow, IsGathered, GatherAll;
    forall ps, entries | IsGathered(txs, ps, entries) ensures entries == GatherAll(txs) {
      var qs := GatherExactly(txs);
      GatheredUnique(txs, ps, entries, qs, GatherAll(txs));
    }
  }

  /** The reward row of a block: zeros without Ethereum messages; otherwise rewards that do not
      go down and, while the gas below the greatest reward fits 64 bits, each is the one the
      unordered description asks for at the largest threshold so far. */
  method RewardRow(txs: seq<TxRewards>, thresholds: seq<nat>) returns (rewards: seq<int>)
    ensures |rewards| == |thresholds|
    ensures forall i, j :: 0 <= i <= j < |rewards| ==> rewards[i] <= rewards[j]
    ensures forall ps, entries :: IsGathered(txs, ps, entries) ==> DescribedRow(entries, thresholds, rewards)
  {
    hide Search, GasUpTo, IsReward, GatherAll, Greatest, GasBelowTop;
    var all := Gather(txs);
    if all == [] {
      rewards := seq(|thresholds|, _ => 0);
      RowOfGathered(txs, thresholds, rewards);
      return;
    }
    var sorter := SortByReward(all);
    BelowTopPermutation(all, sorter);
    rewards := Sweep(sorter, thresholds);
    if GasBelowTop(all) < TWO64 {
      forall i | 0 <= i < |rewards| ensures IsReward(all, Greatest(thresholds, i + 1), rewards[i]) {
        SearchFindsReward(sorter, Greatest(thresholds, i + 1));
        IsRewardPermutation(all, sorter, Greatest(thresholds, i + 1), rewards[i]);
      }
    }
    RowOfGathered(txs, thresholds, rewards);
  }
}
