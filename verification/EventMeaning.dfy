/** What a parse yields, event by event, and when it succeeds: for every stream of events, in
    either format and with any interleaving. */
module EventMeaning {
  import opened Words
  import opened IndexKeys
  import opened Events
  import opened Options
  import opened EventFormats

  /* ----- the events that matter ----- */

  predicate IsTx(e: Event) {
    e.kind == "ethereum_tx"
  }

  /** The `ethereum_tx` events with two attributes, or those with another number. */
  function Parts(es: seq<Event>, first: bool): seq<Event> {
    if es == [] then []
    else if IsTx(es[0]) && (|es[0].attributes| == 2 <==> first) then [es[0]] + Parts(es[1..], first)
    else Parts(es[1..], first)
  }

  function TxEvents(es: seq<Event>): seq<Event> {
    if es == [] then [] else if IsTx(es[0]) then [es[0]] + TxEvents(es[1..]) else TxEvents(es[1..])
  }

  /** The first `ethereum_tx` event has more than two attributes. */
  predicate OldFormat(es: seq<Event>) {
    TxEvents(es) != [] && |TxEvents(es)[0].attributes| > 2
  }

  /** The event that speaks last about each tx: in the old format each event about its own; in
      the new one the second part, or the first where there is no second. */
  function Sources(es: seq<Event>): seq<Event> {
    var firsts, seconds := Parts(es, true), Parts(es, false);
    if OldFormat(es) then TxEvents(es)
    else if |seconds| <= |firsts| then seconds + firsts[|seconds|..]
    else []
  }

  predicate AllParse(es: seq<Event>) {
    forall e :: e in es && IsTx(e) ==> NumbersParse(e.attributes)
  }

  /** With `pending` first parts waiting, no second part comes before its first. */
  predicate InTurn(es: seq<Event>, pending: nat) {
    if es == [] then true
    else if !IsTx(es[0]) then InTurn(es[1..], pending)
    else if |es[0].attributes| == 2 then InTurn(es[1..], pending + 1)
    else pending > 0 && InTurn(es[1..], pending - 1)
  }

  /* ----- the scan ----- */

  ghost predicate FilledFrom(txs: seq<ParsedTx>, es: seq<Event>) {
    |txs| == |es| && forall i :: 0 <= i < |es| ==> Fill(i, es[i].attributes) == Some(txs[i])
  }

  lemma FillParses(i: nat, attrs: seq<Attribute>)
    ensures Fill(i, attrs).Some? <==> NumbersParse(attrs)
  {
    hide FillFrom, NumbersParse;
    FillMeaning(ParsedTx(i, ZERO_HASH, -1, 0, false), attrs);
  }

  lemma AllParseTail(es: seq<Event>)
    requires es != []
    ensures AllParse(es) <==> (IsTx(es[0]) ==> NumbersParse(es[0].attributes)) && AllParse(es[1..])
  {
    hide NumbersParse;
    assert es == [es[0]] + es[1..];
  }

  lemma OldStep(s: Scan, e: Event, done: seq<Event>)
    requires FilledFrom(s.parsed.txs, done) && IsTx(e)
    requires s.format == Format1 || (s.format == Unknown && |e.attributes| > 2)
    ensures ScanEvent(s, e).Ok? <==> NumbersParse(e.attributes)
    ensures ScanEvent(s, e).Ok? ==>
              ScanEvent(s, e).value.format == Format1 && FilledFrom(ScanEvent(s, e).value.parsed.txs, done + [e])
  {
    hide Fill, NumbersParse;
    FillParses(|s.parsed.txs|, e.attributes);
  }

  lemma {:induction false} OldScan(s: Scan, es: seq<Event>, done: seq<Event>)
    requires FilledFrom(s.parsed.txs, done)
    requires s.format == Format1 || (s.format == Unknown && OldFormat(es))
    ensures ScanEvents(s, es).Ok? <==> AllParse(es)
    ensures ScanEvents(s, es).Ok? ==> FilledFrom(ScanEvents(s, es).value.parsed.txs, done + TxEvents(es))
    decreases |es|
  {
    hide ScanEvent, NumbersParse, FilledFrom;
    if es == [] {
      assert done + TxEvents(es) == done;
    } else {
      AllParseTail(es);
      hide AllParse;
      if IsTx(es[0]) {
        OldStep(s, es[0], done);
        if NumbersParse(es[0].attributes) {
          OldScan(ScanEvent(s, es[0]).value, es[1..], done + [es[0]]);
          assert done + [es[0]] + TxEvents(es[1..]) == done + TxEvents(es);
        }
      } else {
        OtherEvent(s, es[0]);
        OldScan(s, es[1..], done);
      }
    }
  }

  /** Part way through the new format: first parts and second parts so far. */
  ghost predicate Filling(s: Scan, firsts: seq<Event>, seconds: seq<Event>) {
    && |s.parsed.txs| == |firsts| && s.details == |seconds| <= |firsts|
    && FilledFrom(s.parsed.txs, seconds + firsts[|seconds|..])
  }

  lemma FirstPartFills(s: Scan, e: Event, firsts: seq<Event>, seconds: seq<Event>)
    requires Filling(s, firsts, seconds) && IsTx(e) && |e.attributes| == 2 && NumbersParse(e.attributes)
    requires s.format == Format2 || s.format == Unknown
    ensures ScanEvent(s, e).Ok? && ScanEvent(s, e).value.format == Format2
    ensures Filling(ScanEvent(s, e).value, firsts + [e], seconds)
  {
    hide Fill, NumbersParse;
    FillParses(|s.parsed.txs|, e.attributes);
    assert seconds + (firsts + [e])[|seconds|..] == seconds + firsts[|seconds|..] + [e];
  }

  lemma SecondPartFills(s: Scan, e: Event, firsts: seq<Event>, seconds: seq<Event>)
    requires Filling(s, firsts, seconds) && IsTx(e) && |e.attributes| != 2
    requires s.format == Format2 || (s.format == Unknown && |e.attributes| < 2)
    ensures ScanEvent(s, e).Ok? <==> NumbersParse(e.attributes) && |seconds| < |firsts|
    ensures ScanEvent(s, e).Ok? ==>
              ScanEvent(s, e).value.format == Format2 && Filling(ScanEvent(s, e).value, firsts, seconds + [e])
  {
    hide Fill, NumbersParse;
    var n := |seconds|;
    FillParses(n, e.attributes);
    if n < |firsts| {
      assert seconds + [e] + firsts[n + 1..] == (seconds + firsts[n..])[n := e];
    }
  }

  lemma {:induction false} NewScan(s: Scan, es: seq<Event>, firsts: seq<Event>, seconds: seq<Event>)
    requires Filling(s, firsts, seconds)
    requires s.format == Format2 || (s.format == Unknown && !OldFormat(es))
    ensures ScanEvents(s, es).Ok? <==> AllParse(es) && InTurn(es, |firsts| - |seconds|)
    ensures ScanEvents(s, es).Ok? ==>
              Filling(ScanEvents(s, es).value, firsts + Parts(es, true), seconds + Parts(es, false))
    decreases |es|
  {
    hide Filling, NumbersParse, ScanEvent;
    if es == [] {
      assert firsts + [] == firsts && seconds + [] == seconds;
    } else {
      AllParseTail(es);
      hide AllParse;
      assert |firsts| >= |seconds| by { FillingSizes(s, firsts, seconds); }
      if !IsTx(es[0]) {
        OtherEvent(s, es[0]);
        NewScan(s, es[1..], firsts, seconds);
      } else if |es[0].attributes| == 2 {
        NewFirst(s, es, firsts, seconds);
      } else {
        NewSecond(s, es, firsts, seconds);
      }
    }
  }

  lemma FillingSizes(s: Scan, firsts: seq<Event>, seconds: seq<Event>)
    requires Filling(s, firsts, seconds)
    ensures |seconds| <= |firsts|
  {
  }

  lemma {:induction false} NewFirst(s: Scan, es: seq<Event>, firsts: seq<Event>, seconds: seq<Event>)
    requires es != [] && IsTx(es[0]) && |es[0].attributes| == 2 && Filling(s, firsts, seconds)
    requires s.format == Format2 || s.format == Unknown
    ensures ScanEvents(s, es).Ok? <==>
            NumbersParse(es[0].attributes) && AllParse(es[1..]) && InTurn(es, |firsts| - |seconds|)
    ensures ScanEvents(s, es).Ok? ==>
              Filling(ScanEvents(s, es).value, firsts + Parts(es, true), seconds + Parts(es, false))
    decreases |es|, 0
  {
    hide Filling, NumbersParse, ScanEvent, AllParse;
    assert |firsts| >= |seconds| by { FillingSizes(s, firsts, seconds); }
    var e := es[0];
    if NumbersParse(e.attributes) {
      FirstPartFills(s, e, firsts, seconds);
      NewScan(ScanEvent(s, e).value, es[1..], firsts + [e], seconds);
      assert firsts + [e] + Parts(es[1..], true) == firsts + ([e] + Parts(es[1..], true));
    } else {
      BadFirstPart(s, e);
    }
  }

  lemma BadFirstPart(s: Scan, e: Event)
    requires IsTx(e) && |e.attributes| == 2 && !NumbersParse(e.attributes)
    ensures !ScanEvent(s, e).Ok?
  {
    hide Fill, NumbersParse;
    FillParses(|s.parsed.txs|, e.attributes);
  }

  lemma {:induction false} NewSecond(s: Scan, es: seq<Event>, firsts: seq<Event>, seconds: seq<Event>)
    requires es != [] && IsTx(es[0]) && |es[0].attributes| != 2 && Filling(s, firsts, seconds)
    requires s.format == Format2 || (s.format == Unknown && !OldFormat(es))
    ensures ScanEvents(s, es).Ok? <==>
            NumbersParse(es[0].attributes) && AllParse(es[1..]) && InTurn(es, |firsts| - |seconds|)
    ensures ScanEvents(s, es).Ok? ==>
              Filling(ScanEvents(s, es).value, firsts + Parts(es, true), seconds + Parts(es, false))
    decreases |es|, 0
  {
    hide Filling, NumbersParse, ScanEvent, AllParse;
    assert |firsts| >= |seconds| by { FillingSizes(s, firsts, seconds); }
    var e := es[0];
    SecondPartFills(s, e, firsts, seconds);
    if NumbersParse(e.attributes) && |seconds| < |firsts| {
      NewScan(ScanEvent(s, e).value, es[1..], firsts, seconds + [e]);
      assert seconds + [e] + Parts(es[1..], false) == seconds + ([e] + Parts(es[1..], false));
    }
  }

  /* ----- the whole parse ----- */

  /** The scan of a whole stream. */
  lemma ScanMeaning(es: seq<Event>)
    ensures ScanEvents(START, es).Ok? <==> AllParse(es) && (OldFormat(es) || InTurn(es, 0))
    ensures ScanEvents(START, es).Ok? ==> FilledFrom(ScanEvents(START, es).value.parsed.txs, Sources(es))
  {
    hide ScanEvents, AllParse, InTurn;
    if OldFormat(es) {
      OldScan(START, es, []);
      assert [] + TxEvents(es) == TxEvents(es);
    } else {
      NewScan(START, es, [], []);
      assert [] + Parts(es, true) == Parts(es, true) && [] + Parts(es, false) == Parts(es, false);
    }
  }

  /** What the source of a tx says about it. */
  ghost predicate Tells(e: Event, i: nat, tx: ParsedTx) {
    EventFormats.Describes(e.attributes, ParsedTx(i, ZERO_HASH, -1, 0, false), tx)
  }

  /** The txs after the corrections: over the block gas limit every one failed and cost its gas
      limit; otherwise a single one costs what the result says. */
  ghost predicate Corrected(raw: ParsedTx, tx: ParsedTx, i: nat, n: nat, result: Response, msgs: Option<seq<Msg>>) {
    && tx.msgIndex == raw.msgIndex && tx.hash == raw.hash && tx.ethTxIndex == raw.ethTxIndex
    && (if result.code != 0 && msgs.Some? then
          i < |msgs.value| && msgs.value[i].EthereumTx? && tx.failed && tx.gasUsed == msgs.value[i].gas
        else
          tx.failed == raw.failed && tx.gasUsed == if n == 1 then ToUint64(result.gasUsed) else raw.gasUsed)
  }

  lemma FinishMeaning(p: Parsed, result: Response, msgs: Option<seq<Msg>>)
    ensures Finish(p, result, msgs).Ok? <==>
            result.code == 0 || msgs.None? || Chargeable(p.txs, msgs.value, 0)
    ensures !Finish(p, result, msgs).Error?
    ensures Finish(p, result, msgs).Ok? ==>
              var txs := Finish(p, result, msgs).value.txs;
              |txs| == |p.txs| && forall i :: 0 <= i < |txs| ==> Corrected(p.txs[i], txs[i], i, |p.txs|, result, msgs)
  {
    hide ChargeLimit;
    if msgs.Some? {
      ChargeLimitMeaning(GasFromResult(p.txs, result), msgs.value, 0);
    }
  }

  /** Every parse of every stream: it succeeds exactly when all `ethereum_tx` events parse, in the
      new format no second part comes too early, and over the block gas limit every tx has its
      Ethereum message.  The first is an error, the others are panics. */
  lemma ParseExactly(result: Response, msgs: Option<seq<Msg>>)
    ensures ParseTxResult(result, msgs).Ok? <==>
            && AllParse(result.events) && (OldFormat(result.events) || InTurn(result.events, 0))
            && (result.code == 0 || msgs.None? ||
                AllHaveMessages(|Sources(result.events)|, msgs.value))
    ensures ParseTxResult(result, msgs).Error? ==> !AllParse(result.events)
    ensures ParseTxResult(result, msgs).Panic? ==>
              || !(OldFormat(result.events) || InTurn(result.events, 0))
              || (result.code != 0 && msgs.Some? && !AllHaveMessages(|Sources(result.events)|, msgs.value))
  {
    hide ScanEvents, Finish, AllParse, InTurn, OldFormat, Sources, Fill;
    ScanMeaning(result.events);
    if ScanEvents(START, result.events).Ok? {
      var p := ScanEvents(START, result.events).value.parsed;
      FinishMeaning(p, result, msgs);
    } else {
      ScanFailure(START, result.events);
    }
  }

  predicate AllHaveMessages(n: nat, msgs: seq<Msg>) {
    n == 0 || (n <= |msgs| && forall i :: 0 <= i < n ==> msgs[i].EthereumTx?)
  }

  lemma {:induction false} ScanFailure(s: Scan, es: seq<Event>)
    requires s.format == Unknown ==> s.parsed.txs == []
    requires s.format != Format1 ==> s.details <= |s.parsed.txs|
    ensures ScanEvents(s, es).Error? ==> !AllParse(es)
    ensures ScanEvents(s, es).Panic? ==>
              && s.format != Format1 && (s.format == Format2 || !OldFormat(es))
              && !InTurn(es, |s.parsed.txs| - s.details)
    decreases |es|
  {
    hide Fill, NumbersParse;
    if es != [] {
      AllParseTail(es);
      hide AllParse;
      if IsTx(es[0]) {
        FillParses(|s.parsed.txs|, es[0].attributes);
        FillParses(s.details, es[0].attributes);
      }
      if ScanEvent(s, es[0]).Ok? {
        ScanFailure(ScanEvent(s, es[0]).value, es[1..]);
      }
    }
  }

  /** Every tx of every successful parse: what its source event tells, up to the corrections. */
  lemma ParseMeaning(result: Response, msgs: Option<seq<Msg>>, i: nat) returns (raw: ParsedTx)
    requires ParseTxResult(result, msgs).Ok? && i < |ParseTxResult(result, msgs).value.txs|
    ensures var txs := ParseTxResult(result, msgs).value.txs;
            && |txs| == |Sources(result.events)|
            && Tells(Sources(result.events)[i], i, raw)
            && Corrected(raw, txs[i], i, |txs|, result, msgs)
  {
    hide ScanEvents, Finish, AllParse, InTurn, OldFormat, Sources, Corrected, EventFormats.Describes, FillFrom;
    ScanMeaning(result.events);
    var p := ScanEvents(START, result.events).value.parsed;
    FinishMeaning(p, result, msgs);
    raw := p.txs[i];
    var e := Sources(result.events)[i];
    FillMeaning(ParsedTx(i, ZERO_HASH, -1, 0, false), e.attributes);
    assert Fill(i, e.attributes) == Some(raw);
  }

  /** A single tx of a delivered transaction costs what the result says, whatever its event. */
  lemma SingleTxGas(result: Response, msgs: Option<seq<Msg>>)
    requires result.code == 0 && ParseTxResult(result, msgs).Ok? && |Sources(result.events)| == 1
    ensures var txs := ParseTxResult(result, msgs).value.txs;
            |txs| == 1 && txs[0].gasUsed == ToUint64(result.gasUsed)
  {
    hide ScanEvents, Finish, AllParse, InTurn, Sources;
    ScanMeaning(result.events);
    FinishMeaning(ScanEvents(START, result.events).value.parsed, result, msgs);
  }
}
