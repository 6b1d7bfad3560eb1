/** What the event parser guarantees: the meaning of attributes, message indices, and the
    agreement of the two event formats. */
module EventFormats {
  import opened Words
  import opened IndexKeys
  import opened Events
  import opened Options

  /* ----- what attributes mean ----- */

  /** The value of the last attribute with that key. */
  function LastValue(attrs: seq<Attribute>, key: string): Option<string> {
    if attrs == [] then None
    else if attrs[|attrs| - 1].key == key then Some(attrs[|attrs| - 1].value)
    else LastValue(attrs[..|attrs| - 1], key)
  }

  predicate NumberParses(a: Attribute) {
    && (a.key == "txIndex" ==> ParseUint(a.value, TWO31).Some?)
    && (a.key == "txGasUsed" ==> ParseUint(a.value, TWO64).Some?)
  }

  /** Every index and every gas attribute is a number in range. */
  predicate NumbersParse(attrs: seq<Attribute>) {
    forall i :: 0 <= i < |attrs| ==> NumberParses(attrs[i])
  }

  /** The fields of the tx come from the last attribute with their key. */
  ghost predicate Describes(attrs: seq<Attribute>, start: ParsedTx, tx: ParsedTx) {
    && tx.msgIndex == start.msgIndex
    && (match LastValue(attrs, "ethereumTxHash")
        case None => tx.hash == start.hash
        case Some(v) => tx.hash == HexToHash(v))
    && (match LastValue(attrs, "txIndex")
        case None => tx.ethTxIndex == start.ethTxIndex
        case Some(v) => ParseUint(v, TWO31) == Some(tx.ethTxIndex as int))
    && (match LastValue(attrs, "txGasUsed")
        case None => tx.gasUsed == start.gasUsed
        case Some(v) => ParseUint(v, TWO64) == Some(tx.gasUsed as int))
    && (match LastValue(attrs, "ethereumTxFailed")
        case None => tx.failed == start.failed
        case Some(v) => tx.failed == (|v| > 0))
  }

  lemma {:induction false} FillSnoc(tx: ParsedTx, attrs: seq<Attribute>)
    requires attrs != []
    ensures var init := FillFrom(tx, attrs[..|attrs| - 1]);
            FillFrom(tx, attrs) ==
            if init.None? then None else FillAttribute(init.value, attrs[|attrs| - 1])
    decreases |attrs|
  {
    hide FillAttribute;
    if |attrs| == 1 {
      assert attrs[..0] == [];
      var next := FillAttribute(tx, attrs[0]);
      assert next.Some? ==> FillFrom(next.value, attrs[1..]) == next;
    } else {
      var next := FillAttribute(tx, attrs[0]);
      assert attrs[..|attrs| - 1][1..] == attrs[1..][..|attrs| - 2];
      if next.Some? {
        FillSnoc(next.value, attrs[1..]);
      }
    }
  }

  lemma LastValueSnoc(attrs: seq<Attribute>, a: Attribute, key: string)
    ensures LastValue(attrs + [a], key) == if a.key == key then Some(a.value) else LastValue(attrs, key)
  {
    assert (attrs + [a])[..|attrs|] == attrs;
  }

  lemma FillAttributeMeaning(attrs: seq<Attribute>, start: ParsedTx, tx: ParsedTx, a: Attribute)
    requires Describes(attrs, start, tx)
    ensures FillAttribute(tx, a).Some? <==> NumberParses(a)
    ensures FillAttribute(tx, a).Some? ==> Describes(attrs + [a], start, FillAttribute(tx, a).value)
  {
    hide HexToHash, ParseUint, LastValue;
    LastValueSnoc(attrs, a, "ethereumTxHash");
    LastValueSnoc(attrs, a, "txIndex");
    LastValueSnoc(attrs, a, "txGasUsed");
    LastValueSnoc(attrs, a, "ethereumTxFailed");
  }

  /** Attributes are read exactly when all their numbers parse, in any order and with any
      others in between; the last one with a key decides. */
  lemma {:induction false} FillMeaning(tx: ParsedTx, attrs: seq<Attribute>)
    ensures FillFrom(tx, attrs).Some? <==> NumbersParse(attrs)
    ensures FillFrom(tx, attrs).Some? ==> Describes(attrs, tx, FillFrom(tx, attrs).value)
    decreases |attrs|
  {
    if attrs != [] {
      hide NumberParses, FillAttribute, FillFrom, Describes;
      var init, last := attrs[..|attrs| - 1], attrs[|attrs| - 1];
      assert attrs == init + [last];
      FillSnoc(tx, attrs);
      FillMeaning(tx, init);
      if FillFrom(tx, init).Some? {
        FillAttributeMeaning(init, tx, FillFrom(tx, init).value, last);
      }
      assert NumbersParse(attrs) <==> NumbersParse(init) && NumberParses(last);
    }
  }

  /* ----- every parse numbers its txs ----- */

  /** Tx `i` describes message `i`, and every known hash leads to a tx. */
  ghost predicate Numbered(p: Parsed) {
    && (forall i :: 0 <= i < |p.txs| ==> p.txs[i].msgIndex == i)
    && (forall h :: h in p.hashes ==> p.hashes[h] < |p.txs|)
  }

  lemma ScanEventNumbered(s: Scan, e: Event)
    requires Numbered(s.parsed) && ScanEvent(s, e).Ok?
    ensures Numbered(ScanEvent(s, e).value.parsed)
    ensures |ScanEvent(s, e).value.parsed.txs| >= |s.parsed.txs|
  {
    hide Fill;
    if Fill(|s.parsed.txs|, e.attributes).Some? {
      FillMsgIndex(|s.parsed.txs|, e.attributes);
    }
    if Fill(s.details, e.attributes).Some? {
      FillMsgIndex(s.details, e.attributes);
    }
  }

  lemma {:induction false} ScanEventsNumbered(s: Scan, es: seq<Event>)
    requires Numbered(s.parsed) && ScanEvents(s, es).Ok?
    ensures Numbered(ScanEvents(s, es).value.parsed)
    decreases |es|
  {
    hide ScanEvent, Numbered;
    if es != [] {
      ScanEventNumbered(s, es[0]);
      ScanEventsNumbered(ScanEvent(s, es[0]).value, es[1..]);
    }
  }

  /** Every tx from `i` on has an Ethereum message. */
  predicate Chargeable(txs: seq<ParsedTx>, msgs: seq<Msg>, i: nat) {
    i >= |txs| || (|txs| <= |msgs| && forall k :: i <= k < |txs| ==> msgs[k].EthereumTx?)
  }

  /** Charging the limit changes gas and failure, entry by entry, and nothing else; it
      goes through exactly when every tx has an Ethereum message. */
  lemma {:induction false} ChargeLimitMeaning(txs: seq<ParsedTx>, msgs: seq<Msg>, i: nat)
    requires i <= |txs|
    ensures var r := ChargeLimit(txs, msgs, i);
            && (r.Ok? <==> Chargeable(txs, msgs, i))
            && !r.Error?
            && (r.Ok? ==>
                  && |r.value| == |txs|
                  && (forall k :: 0 <= k < i ==> r.value[k] == txs[k])
                  && (forall k :: i <= k < |txs| ==>
                        r.value[k] == txs[k].(failed := true, gasUsed := msgs[k].gas)))
    decreases |txs| - i
  {
    if i < |txs| && i < |msgs| && msgs[i].EthereumTx? {
      ChargeLimitMeaning(txs[i := txs[i].(failed := true, gasUsed := msgs[i].gas)], msgs, i + 1);
    }
  }

  /** The corrections after the scan keep message indices and hashes. */
  lemma FinishKeeps(p: Parsed, result: Response, msgs: Option<seq<Msg>>)
    requires Finish(p, result, msgs).Ok?
    ensures var q := Finish(p, result, msgs).value;
            && q.hashes == p.hashes && |q.txs| == |p.txs|
            && forall i :: 0 <= i < |p.txs| ==>
                 && q.txs[i].msgIndex == p.txs[i].msgIndex
                 && q.txs[i].hash == p.txs[i].hash
                 && q.txs[i].ethTxIndex == p.txs[i].ethTxIndex
  {
    hide ChargeLimit;
    if result.code != 0 && msgs.Some? {
      ChargeLimitMeaning(GasFromResult(p.txs, result), msgs.value, 0);
    }
  }

  /** Every successful parse, whatever the events: tx `i` has message index `i`, and
      every hash in the table leads to a tx. */
  lemma ParseNumbered(result: Response, msgs: Option<seq<Msg>>)
    requires ParseTxResult(result, msgs).Ok?
    ensures Numbered(ParseTxResult(result, msgs).value)
  {
    hide ScanEvents, Finish;
    ScanEventsNumbered(START, result.events);
    FinishKeeps(ScanEvents(START, result.events).value.parsed, result, msgs);
  }

  /* ----- the two formats agree ----- */

  /** The detail events alone: what an old node would have emitted. */
  function Details(es: seq<Event>): seq<Event> {
    if es == [] then []
    else if IsDetail(es[0]) then [es[0]] + Details(es[1..])
    else Details(es[1..])
  }

  /** With `pending` announcements still without their detail event: every detail comes
      after its announcement, and in the end every announcement has its detail. */
  predicate Balanced(es: seq<Event>, pending: nat) {
    if es == [] then pending == 0
    else if IsAnnouncement(es[0]) then Balanced(es[1..], pending + 1)
    else if IsDetail(es[0]) then pending > 0 && Balanced(es[1..], pending - 1)
    else Balanced(es[1..], pending)
  }

  predicate AnnouncementsParse(es: seq<Event>) {
    forall i :: 0 <= i < |es| && IsAnnouncement(es[i]) ==> Fill(0, es[i].attributes).Some?
  }

  /** The first detail event has enough attributes to be taken for format 1. */
  predicate LooksLikeFormat1(es: seq<Event>) {
    Details(es) != [] ==> |Details(es)[0].attributes| > 2
  }

  lemma FillIndexHash(i: nat, j: nat, attrs: seq<Attribute>)
    ensures Fill(i, attrs).Some? == Fill(j, attrs).Some?
    ensures Fill(i, attrs).Some? ==> Fill(i, attrs).value.hash == Fill(j, attrs).value.hash
  {
    hide FillFrom;
    FillFromIndex(ParsedTx(i, ZERO_HASH, -1, 0, false), attrs, j);
  }

  /** Equal endings, up to the hash table. */
  ghost predicate SameTxs(a: Outcome<Scan>, b: Outcome<Scan>) {
    match a
    case Ok(s) => b.Ok? && s.parsed.txs == b.value.parsed.txs
    case Error => b.Error?
    case Panic => b.Panic?
  }

  /** A format-2 scan part way through a stream, and a format-1 scan of its details. */
  ghost predicate InStep(s2: Scan, s1: Scan, es: seq<Event>) {
    && s1.details == s2.details == |s1.parsed.txs| <= |s2.parsed.txs|
    && s1.parsed.txs == s2.parsed.txs[..s2.details]
    && (s2.format == Format2 || (s2.format == Unknown && |s2.parsed.txs| == 0))
    && (s1.format == Format1 || (s1.format == Unknown && LooksLikeFormat1(es)))
  }

  lemma AnnouncementInStep(s2: Scan, s1: Scan, es: seq<Event>)
    requires es != [] && IsAnnouncement(es[0]) && AnnouncementsParse(es) && InStep(s2, s1, es)
    ensures ScanEvent(s2, es[0]).Ok? && InStep(ScanEvent(s2, es[0]).value, s1, es[1..])
    ensures |ScanEvent(s2, es[0]).value.parsed.txs| == |s2.parsed.txs| + 1
    ensures ScanEvent(s2, es[0]).value.details == s2.details
  {
    hide Fill;
    FillIndexHash(0, |s2.parsed.txs|, es[0].attributes);
  }

  lemma DetailInStep(s2: Scan, s1: Scan, es: seq<Event>)
    requires es != [] && IsDetail(es[0]) && InStep(s2, s1, es) && s2.details < |s2.parsed.txs|
    ensures var r2, r1 := ScanEvent(s2, es[0]), ScanEvent(s1, es[0]);
            && r2.Ok? == r1.Ok? && r2.Error? == r1.Error?
            && (r2.Ok? ==>
                  && InStep(r2.value, r1.value, es[1..])
                  && |r2.value.parsed.txs| == |s2.parsed.txs| && r2.value.details == s2.details + 1)
  {
    hide Fill;
    assert Details(es)[0] == es[0];
  }

  lemma {:induction false} FormatsInStep(s2: Scan, s1: Scan, es: seq<Event>)
    requires InStep(s2, s1, es) && AnnouncementsParse(es)
    requires Balanced(es, |s2.parsed.txs| - s2.details)
    ensures SameTxs(ScanEvents(s2, es), ScanEvents(s1, Details(es)))
    decreases |es|
  {
    hide ScanEvent;
    if es != [] {
      if IsAnnouncement(es[0]) {
        AnnouncementInStep(s2, s1, es);
        FormatsInStep(ScanEvent(s2, es[0]).value, s1, es[1..]);
      } else if IsDetail(es[0]) {
        DetailInStep(s2, s1, es);
        assert Details(es)[1..] == Details(es[1..]);
        if ScanEvent(s2, es[0]).Ok? {
          FormatsInStep(ScanEvent(s2, es[0]).value, ScanEvent(s1, es[0]).value, es[1..]);
        }
      } else {
        OtherEvent(s2, es[0]);
        FormatsInStep(s2, s1, es[1..]);
      }
    }
  }

  lemma OtherEvent(s: Scan, e: Event)
    requires !IsEthereum(e)
    ensures ScanEvent(s, e) == Ok(s)
  {
  }

  /** A format-2 stream, however its two parts and other events are interleaved, parses
      to the same txs as the format-1 stream of its details alone, and fails where that
      one fails. */
  lemma FormatsAgree(result: Response, msgs: Option<seq<Msg>>)
    requires Balanced(result.events, 0) && AnnouncementsParse(result.events)
    requires LooksLikeFormat1(result.events)
    ensures var a := ParseTxResult(result, msgs);
            var b := ParseTxResult(result.(events := Details(result.events)), msgs);
            && a.Ok? == b.Ok? && a.Panic? == b.Panic?
            && (a.Ok? ==> a.value.txs == b.value.txs)
  {
    hide ScanEvents, ChargeLimit, Balanced, Details, LooksLikeFormat1;
    FormatsInStep(START, START, result.events);
  }

  /* ----- exactly when they agree ----- */

  /** The first `ethereum_tx` event of the stream decides for format 1. */
  predicate IsFormat1(es: seq<Event>) {
    es != [] && (if IsEthereum(es[0]) then |es[0].attributes| > 2 else IsFormat1(es[1..]))
  }

  /** A format-2 scan that gets to its end has read every announcement and met no detail
      before its announcement. */
  lemma {:induction false} ScanBalances(s: Scan, es: seq<Event>)
    requires s.details <= |s.parsed.txs| && ScanEvents(s, es).Ok?
    requires s.format == Format2 || (s.format == Unknown && s.parsed.txs == [] && !IsFormat1(es))
    ensures AnnouncementsParse(es)
    ensures var end := ScanEvents(s, es).value;
            && end.details == s.details + |Details(es)| <= |end.parsed.txs|
            && (end.details == |end.parsed.txs| ==> Balanced(es, |s.parsed.txs| - s.details))
    decreases |es|
  {
    hide Fill;
    if es != [] {
      if IsEthereum(es[0]) {
        FillIndexHash(0, |s.parsed.txs|, es[0].attributes);
      }
      ScanBalances(ScanEvent(s, es[0]).value, es[1..]);
    }
  }

  lemma {:induction false} AppendsDetails(s: Scan, es: seq<Event>)
    requires ScanEvents(s, Details(es)).Ok?
    requires s.format == Format1 || (s.format == Unknown && LooksLikeFormat1(es))
    ensures |ScanEvents(s, Details(es)).value.parsed.txs| == |s.parsed.txs| + |Details(es)|
    decreases |es|
  {
    hide Fill;
    if es != [] {
      if IsDetail(es[0]) {
        assert Details(es)[0] == es[0] && Details(es)[1..] == Details(es[1..]);
        AppendsDetails(ScanEvent(s, es[0]).value, es[1..]);
      } else {
        AppendsDetails(s, es[1..]);
      }
    }
  }

  /** Any stream that does not begin in format 1: it parses to the txs of its details alone,
      read as format 1, exactly when those parse, every announcement parses, every detail
      comes after its announcement and every announcement has its detail. */
  lemma FormatsAgreeExactly(result: Response, msgs: Option<seq<Msg>>)
    requires !IsFormat1(result.events) && LooksLikeFormat1(result.events)
    ensures var a := ParseTxResult(result, msgs);
            var b := ParseTxResult(result.(events := Details(result.events)), msgs);
            (a.Ok? && b.Ok? && a.value.txs == b.value.txs) <==>
            b.Ok? && Balanced(result.events, 0) && AnnouncementsParse(result.events)
  {
    hide ScanEvents, Finish, Balanced, Details, LooksLikeFormat1, AnnouncementsParse, IsFormat1;
    var a := ParseTxResult(result, msgs);
    var b := ParseTxResult(result.(events := Details(result.events)), msgs);
    if b.Ok? && Balanced(result.events, 0) && AnnouncementsParse(result.events) {
      FormatsAgree(result, msgs);
    } else if a.Ok? && b.Ok? && a.value.txs == b.value.txs {
      ScanBalances(START, result.events);
      AppendsDetails(START, result.events);
      FinishKeeps(ScanEvents(START, result.events).value.parsed, result, msgs);
      FinishKeeps(ScanEvents(START, Details(result.events)).value.parsed,
                  result.(events := Details(result.events)), msgs);
    }
  }
}
