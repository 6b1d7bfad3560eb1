/** When a parsed tx is found by its own hash, exactly, in both event formats. */
module EventLookups {
  import opened Words
  import opened IndexKeys
  import opened Events
  import opened Options
  import opened EventFormats

  /** Every tx is what a lookup by its own hash finds. */
  ghost predicate FoundByOwnHash(p: Parsed) {
    forall i :: 0 <= i < |p.txs| ==> GetTxByHash(p, p.txs[i].hash) == Some(p.txs[i])
  }

  ghost predicate DistinctHashes(txs: seq<ParsedTx>) {
    forall i, j :: 0 <= i < j < |txs| ==> txs[i].hash != txs[j].hash
  }

  /** Of the txs announced with one hash only the last may keep it. */
  ghost predicate OnlyLastKeeps(announced: seq<ParsedTx>, txs: seq<ParsedTx>) {
    && |announced| <= |txs|
    && forall i, j :: 0 <= i < j < |announced| && announced[i].hash == announced[j].hash ==>
         txs[i].hash != announced[i].hash
  }

  /* ----- what the hash table holds ----- */

  ghost predicate IsLastWith(a: seq<ParsedTx>, h: Hash, e: nat) {
    e < |a| && a[e].hash == h && forall k :: 0 <= k < |a| && a[k].hash == h ==> k <= e
  }

  /** The entry of `h`, when the first `done` of the announced txs have had their details: the
      last tx announced with `h`, as long as no detail changed a hash to `h`, or one whose
      detail did. */
  ghost predicate Entry(a: seq<ParsedTx>, p: Parsed, done: nat, h: Hash)
    requires |p.txs| == |a| && h in p.hashes
  {
    var e := p.hashes[h];
    || (IsLastWith(a, h, e) && forall k :: 0 <= k < |a| && p.txs[k].hash == h ==> a[k].hash == h)
    || (e < done && e < |a| && p.txs[e].hash == h && a[e].hash != h)
  }

  /** The table after the announcements `a` and the first `done` details. */
  ghost predicate Traced(a: seq<ParsedTx>, p: Parsed, done: nat) {
    && |p.txs| == |a|
    && (forall i :: 0 <= i < |a| ==> p.txs[i].hash in p.hashes && a[i].hash in p.hashes)
    && (forall i :: done <= i < |a| ==> p.txs[i].hash == a[i].hash)
    && (forall h :: h in p.hashes ==> Entry(a, p, done, h))
  }

  /** With such a table a tx is found by its own hash exactly when no other tx has the hash and
      none announced later had it. */
  lemma FoundExactly(a: seq<ParsedTx>, p: Parsed, done: nat)
    requires Numbered(p) && Traced(a, p, done)
    ensures |a| == |p.txs|
    ensures FoundByOwnHash(p) <==> DistinctHashes(p.txs) && OnlyLastKeeps(a, p.txs)
  {
    hide FoundByOwnHash, DistinctHashes, OnlyLastKeeps;
    if FoundByOwnHash(p) {
      FoundIsDistinct(p);
      FoundOnlyLastKeeps(a, p, done);
    } else if DistinctHashes(p.txs) && OnlyLastKeeps(a, p.txs) {
      DistinctIsFound(a, p, done);
    }
  }

  lemma FoundOnlyLastKeeps(a: seq<ParsedTx>, p: Parsed, done: nat)
    requires Numbered(p) && Traced(a, p, done) && FoundByOwnHash(p)
    ensures OnlyLastKeeps(a, p.txs)
  {
    hide FoundByOwnHash, Numbered;
    forall i, j | 0 <= i < j < |a| && a[i].hash == a[j].hash ensures p.txs[i].hash != a[i].hash {
      FoundIsIndex(p, i);
      assert Entry(a, p, done, p.txs[i].hash);
    }
  }

  lemma DistinctIsFound(a: seq<ParsedTx>, p: Parsed, done: nat)
    requires Traced(a, p, done) && DistinctHashes(p.txs) && OnlyLastKeeps(a, p.txs)
    ensures FoundByOwnHash(p)
  {
    forall i | 0 <= i < |p.txs| ensures GetTxByHash(p, p.txs[i].hash) == Some(p.txs[i]) {
      var h := p.txs[i].hash;
      assert Entry(a, p, done, h);
      assert p.hashes[h] == i;
    }
  }

  ghost predicate HasHash(txs: seq<ParsedTx>, h: Hash) {
    exists i :: 0 <= i < |txs| && txs[i].hash == h
  }

  /** The table knows the announced and the final hashes and no other. */
  lemma KnownExactly(a: seq<ParsedTx>, p: Parsed, done: nat, h: Hash)
    requires Numbered(p) && Traced(a, p, done)
    ensures GetTxByHash(p, h).Some? <==> HasHash(a, h) || HasHash(p.txs, h)
  {
    if h in p.hashes {
      assert Entry(a, p, done, h);
    }
  }

  lemma FoundIsIndex(p: Parsed, i: nat)
    requires Numbered(p) && FoundByOwnHash(p) && i < |p.txs|
    ensures p.txs[i].hash in p.hashes && p.hashes[p.txs[i].hash] == i
  {
    assert GetTxByHash(p, p.txs[i].hash) == Some(p.txs[i]);
    assert p.txs[p.hashes[p.txs[i].hash]].msgIndex == p.txs[i].msgIndex;
  }

  lemma FoundIsDistinct(p: Parsed)
    requires Numbered(p) && FoundByOwnHash(p)
    ensures DistinctHashes(p.txs)
  {
    forall i, j | 0 <= i < j < |p.txs| ensures p.txs[i].hash != p.txs[j].hash {
      FoundIsIndex(p, i);
      FoundIsIndex(p, j);
    }
  }

  /* ----- how the table gets there ----- */

  predicate NoDetails(es: seq<Event>) {
    forall e :: e in es ==> !IsDetail(e)
  }

  predicate NoAnnouncements(es: seq<Event>) {
    forall e :: e in es ==> !IsAnnouncement(e)
  }

  lemma AppendTraced(p: Parsed, attrs: seq<Attribute>)
    requires Traced(p.txs, p, 0) && NewTx(p, attrs).Ok?
    ensures var q := NewTx(p, attrs).value; Traced(q.txs, q, 0)
  {
    hide Fill;
    var q := NewTx(p, attrs).value;
    var n := |p.txs|;
    forall h | h in q.hashes ensures Entry(q.txs, q, 0, h) {
      if h != q.txs[n].hash {
        assert Entry(p.txs, p, 0, h);
      }
      assert IsLastWith(q.txs, h, q.hashes[h]);
    }
  }

  /** A scan that only appends: no details, or details in format 1. */
  predicate OnlyAppends(s: Scan, es: seq<Event>) {
    NoDetails(es) || s.format == Format1
  }

  lemma {:induction false} AppendsTraced(s: Scan, es: seq<Event>)
    requires OnlyAppends(s, es) && ScanEvents(s, es).Ok? && Traced(s.parsed.txs, s.parsed, 0)
    ensures var end := ScanEvents(s, es).value; Traced(end.parsed.txs, end.parsed, 0)
    ensures NoDetails(es) ==> ScanEvents(s, es).value.details == s.details
    decreases |es|
  {
    hide Fill, Traced;
    if es != [] {
      assert es[0] in es && (NoDetails(es) ==> NoDetails(es[1..]));
      if IsEthereum(es[0]) {
        AppendTraced(s.parsed, es[0].attributes);
      }
      AppendsTraced(ScanEvent(s, es[0]).value, es[1..]);
    }
  }

  /** A detail with the announced hash leaves the table alone; any other hash gets an entry. */
  lemma ReplaceEntry(a: seq<ParsedTx>, p: Parsed, q: Parsed, done: nat, tx: ParsedTx, h: Hash)
    requires |p.txs| == |a| && done < |a| && p.txs[done].hash == a[done].hash
    requires q.txs == p.txs[done := tx]
    requires q.hashes == if tx.hash != a[done].hash then p.hashes[tx.hash := done] else p.hashes
    requires h in q.hashes && (h in p.hashes ==> Entry(a, p, done, h))
    ensures Entry(a, q, done + 1, h)
  {
    if tx.hash != a[done].hash && h == tx.hash {
      assert q.hashes[h] == done && q.txs[done].hash == h;
    } else {
      var e := p.hashes[h];
      if IsLastWith(a, h, e) && forall k :: 0 <= k < |a| && p.txs[k].hash == h ==> a[k].hash == h {
        forall k | 0 <= k < |a| && q.txs[k].hash == h ensures a[k].hash == h {
          assert k != done ==> p.txs[k].hash == h;
        }
      }
    }
  }

  lemma ReplaceTraced(a: seq<ParsedTx>, p: Parsed, done: nat, attrs: seq<Attribute>)
    requires Traced(a, p, done) && UpdateTx(p, done, attrs).Ok?
    ensures Traced(a, UpdateTx(p, done, attrs).value, done + 1)
  {
    hide Fill, Entry;
    var q := UpdateTx(p, done, attrs).value;
    forall h | h in q.hashes ensures Entry(a, q, done + 1, h) {
      ReplaceEntry(a, p, q, done, Fill(done, attrs).value, h);
    }
  }

  lemma {:induction false} DetailsTraced(a: seq<ParsedTx>, s: Scan, es: seq<Event>)
    requires s.format == Format2 && NoAnnouncements(es)
    requires ScanEvents(s, es).Ok? && Traced(a, s.parsed, s.details)
    ensures var end := ScanEvents(s, es).value; Traced(a, end.parsed, end.details)
    decreases |es|
  {
    hide Fill, Traced;
    if es != [] {
      if IsEthereum(es[0]) {
        assert es[0] in es;
        ReplaceTraced(a, s.parsed, s.details, es[0].attributes);
      }
      DetailsTraced(a, ScanEvent(s, es[0]).value, es[1..]);
    }
  }

  /** Corrections after the scan do not disturb lookups. */
  lemma FinishTraced(a: seq<ParsedTx>, p: Parsed, result: Response, msgs: Option<seq<Msg>>, done: nat)
    requires Traced(a, p, done) && Finish(p, result, msgs).Ok?
    ensures Traced(a, Finish(p, result, msgs).value, done)
  {
    hide Finish;
    FinishKeeps(p, result, msgs);
    var q := Finish(p, result, msgs).value;
    forall h | h in q.hashes ensures Entry(a, q, done, h) {
      assert Entry(a, p, done, h);
    }
  }

  lemma {:induction false} ScanConcat(s: Scan, a: seq<Event>, b: seq<Event>)
    ensures ScanEvents(s, a + b) ==
            match ScanEvents(s, a)
            case Error => Error
            case Panic => Panic
            case Ok(m) => ScanEvents(m, b)
    decreases |a|
  {
    hide ScanEvent;
    if a == [] {
      assert a + b == b;
    } else {
      assert (a + b)[1..] == a[1..] + b;
      if ScanEvent(s, a[0]).Ok? {
        ScanConcat(ScanEvent(s, a[0]).value, a[1..], b);
      }
    }
  }

  /* ----- format 1 ----- */

  lemma {:induction false} Format1Traced(s: Scan, es: seq<Event>)
    requires s.format == Unknown && IsFormat1(es) && ScanEvents(s, es).Ok? && Traced(s.parsed.txs, s.parsed, 0)
    ensures var end := ScanEvents(s, es).value; Traced(end.parsed.txs, end.parsed, 0)
    decreases |es|
  {
    hide Fill, Traced;
    var s' := ScanEvent(s, es[0]).value;
    if IsEthereum(es[0]) {
      AppendTraced(s.parsed, es[0].attributes);
      AppendsTraced(s', es[1..]);
    } else {
      Format1Traced(s', es[1..]);
    }
  }

  lemma StartTraced()
    ensures Traced(START.parsed.txs, START.parsed, 0)
  {
  }

  /** Format 1: every tx is found by its own hash exactly when the hashes are pairwise
      distinct. */
  lemma FoundByHashFormat1(result: Response, msgs: Option<seq<Msg>>)
    requires IsFormat1(result.events) && ParseTxResult(result, msgs).Ok?
    ensures var p := ParseTxResult(result, msgs).value;
            FoundByOwnHash(p) <==> DistinctHashes(p.txs)
  {
    hide ScanEvents, Finish, Traced, FoundByOwnHash;
    var p := ParseTxResult(result, msgs).value;
    var end := ScanEvents(START, result.events).value.parsed;
    StartTraced();
    Format1Traced(START, result.events);
    FinishTraced(end.txs, end, result, msgs, 0);
    FinishKeeps(end, result, msgs);
    ParseNumbered(result, msgs);
    FoundExactly(end.txs, p, 0);
  }

  /* ----- format 2 ----- */

  /** How many events come before the first detail. */
  function FirstDetail(es: seq<Event>): (n: nat)
    ensures n <= |es| && NoDetails(es[..n]) && (n < |es| ==> IsDetail(es[n]))
  {
    if es == [] || IsDetail(es[0]) then 0
    else
      var n := FirstDetail(es[1..]);
      assert es[..n + 1] == [es[0]] + es[1..][..n];
      n + 1
  }

  /** No announcement after the first detail, as format 2 has it. */
  predicate AnnouncedFirst(es: seq<Event>) {
    NoAnnouncements(es[FirstDetail(es)..])
  }

  /** The txs announced before the first detail. */
  function Announced(es: seq<Event>): seq<ParsedTx> {
    match ScanEvents(START, es[..FirstDetail(es)])
    case Ok(s) => s.parsed.txs
    case _ => []
  }

  /** Announcements alone leave format 2 behind, once there is one. */
  lemma {:induction false} AnnouncedFormat(s: Scan, es: seq<Event>)
    requires NoDetails(es) && ScanEvents(s, es).Ok? && s.format != Format1
    ensures var end := ScanEvents(s, es).value;
            if end.parsed.txs == s.parsed.txs then end == s
            else end.format == Format2 && |end.parsed.txs| > |s.parsed.txs|
    decreases |es|
  {
    hide Fill;
    if es != [] {
      assert es[0] in es && NoDetails(es[1..]);
      AnnouncedFormat(ScanEvent(s, es[0]).value, es[1..]);
    }
  }

  /** Without announcements a stream is in format 1 or holds no txs. */
  lemma {:induction false} NoneAnnounced(es: seq<Event>)
    requires NoAnnouncements(es) && ScanEvents(START, es).Ok?
    ensures IsFormat1(es) || ScanEvents(START, es) == Ok(START)
    decreases |es|
  {
    hide Fill;
    if es != [] {
      assert es[0] in es && NoAnnouncements(es[1..]);
      if !IsEthereum(es[0]) {
        NoneAnnounced(es[1..]);
      }
    }
  }

  lemma {:induction false} Format1Append(a: seq<Event>, b: seq<Event>)
    requires NoDetails(a) && ScanEvents(START, a) == Ok(START) && IsFormat1(b)
    ensures IsFormat1(a + b)
    decreases |a|
  {
    hide Fill;
    if a == [] {
      assert a + b == b;
    } else {
      assert a[0] in a && NoDetails(a[1..]) && (a + b)[1..] == a[1..] + b;
      if !IsEthereum(a[0]) {
        Format1Append(a[1..], b);
      } else {
        AnnouncedFormat(ScanEvent(START, a[0]).value, a[1..]);
      }
    }
  }

  /** The table of a stream that announces something first. */
  lemma Format2Traced(es: seq<Event>)
    requires AnnouncedFirst(es) && ScanEvents(START, es).Ok? && Announced(es) != []
    ensures var end := ScanEvents(START, es).value; Traced(Announced(es), end.parsed, end.details)
  {
    hide ScanEvents, Traced, NoDetails, NoAnnouncements;
    var n := FirstDetail(es);
    assert es == es[..n] + es[n..];
    ScanConcat(START, es[..n], es[n..]);
    var mid := ScanEvents(START, es[..n]).value;
    AnnouncedFormat(START, es[..n]);
    StartTraced();
    AppendsTraced(START, es[..n]);
    DetailsTraced(mid.parsed.txs, mid, es[n..]);
  }

  lemma NothingAnnounced(es: seq<Event>)
    requires AnnouncedFirst(es) && ScanEvents(START, es).Ok? && Announced(es) == []
    ensures IsFormat1(es) || ScanEvents(START, es).value.parsed.txs == []
  {
    hide ScanEvents, NoDetails, NoAnnouncements, IsFormat1;
    var n := FirstDetail(es);
    assert es == es[..n] + es[n..];
    ScanConcat(START, es[..n], es[n..]);
    AnnouncedFormat(START, es[..n]);
    NoneAnnounced(es[n..]);
    if IsFormat1(es[n..]) {
      Format1Append(es[..n], es[n..]);
    }
  }

  /** Announcements first, details later: every tx is found by its own hash exactly when the
      final hashes are pairwise distinct and, of txs announced with one hash, only the last
      keeps it.  Announcements and details may disagree on hashes. */
  lemma FoundByHashFormat2(result: Response, msgs: Option<seq<Msg>>)
    requires AnnouncedFirst(result.events) && ParseTxResult(result, msgs).Ok?
    ensures var p := ParseTxResult(result, msgs).value;
            && |Announced(result.events)| <= |p.txs|
            && (FoundByOwnHash(p) <==> DistinctHashes(p.txs) && OnlyLastKeeps(Announced(result.events), p.txs))
  {
    hide ScanEvents, Finish, Traced, FoundByOwnHash, Announced, AnnouncedFirst, IsFormat1;
    var p := ParseTxResult(result, msgs).value;
    var end := ScanEvents(START, result.events).value;
    var a := Announced(result.events);
    ParseNumbered(result, msgs);
    FinishKeeps(end.parsed, result, msgs);
    if a != [] {
      Format2Traced(result.events);
      FinishTraced(a, end.parsed, result, msgs, end.details);
      FoundExactly(a, p, end.details);
    } else {
      NothingAnnounced(result.events);
      if IsFormat1(result.events) {
        FoundByHashFormat1(result, msgs);
      } else {
        NoTxs(p);
      }
    }
  }

  lemma NoTxs(p: Parsed)
    requires p.txs == []
    ensures FoundByOwnHash(p)
  {
  }

  /** In a stream of either format, the hashes that lead to a tx are those of the txs and those
      announced for them. */
  lemma KnownHashes(result: Response, msgs: Option<seq<Msg>>, h: Hash)
    requires IsFormat1(result.events) || AnnouncedFirst(result.events)
    requires ParseTxResult(result, msgs).Ok?
    ensures var p := ParseTxResult(result, msgs).value;
            GetTxByHash(p, h).Some? <==>
            HasHash(p.txs, h) || (!IsFormat1(result.events) && HasHash(Announced(result.events), h))
  {
    hide ScanEvents, Finish, Traced, Announced, AnnouncedFirst, IsFormat1, GetTxByHash, HasHash;
    var p := ParseTxResult(result, msgs).value;
    var end := ScanEvents(START, result.events).value;
    ParseNumbered(result, msgs);
    if IsFormat1(result.events) {
      StartTraced();
      Format1Traced(START, result.events);
      FinishTraced(end.parsed.txs, end.parsed, result, msgs, 0);
      KnownExactly(end.parsed.txs, p, 0, h);
      SameHashes(end.parsed, result, msgs, h);
    } else if Announced(result.events) != [] {
      Format2Traced(result.events);
      FinishTraced(Announced(result.events), end.parsed, result, msgs, end.details);
      KnownExactly(Announced(result.events), p, end.details, h);
    } else {
      NothingAnnounced(result.events);
      FinishKeeps(end.parsed, result, msgs);
      NoHash(p, h);
    }
  }

  lemma SameHashes(p: Parsed, result: Response, msgs: Option<seq<Msg>>, h: Hash)
    requires Finish(p, result, msgs).Ok?
    ensures HasHash(Finish(p, result, msgs).value.txs, h) <==> HasHash(p.txs, h)
  {
    hide Finish;
    FinishKeeps(p, result, msgs);
    var q := Finish(p, result, msgs).value;
    assert forall i :: 0 <= i < |p.txs| ==> q.txs[i].hash == p.txs[i].hash;
  }

  lemma NoHash(p: Parsed, h: Hash)
    requires p.txs == [] && Numbered(p)
    ensures GetTxByHash(p, h).None? && !HasHash([], h)
  {
  }

  /** What events must be like for their hashes to identify the txs: in either format. */
  ghost predicate HashesIdentify(es: seq<Event>, txs: seq<ParsedTx>) {
    && DistinctHashes(txs)
    && (IsFormat1(es) || (AnnouncedFirst(es) && OnlyLastKeeps(Announced(es), txs)))
  }

  /** In a stream of either format every tx is found by its own hash exactly then. */
  lemma FoundByHash(result: Response, msgs: Option<seq<Msg>>)
    requires IsFormat1(result.events) || AnnouncedFirst(result.events)
    requires ParseTxResult(result, msgs).Ok?
    ensures var p := ParseTxResult(result, msgs).value;
            FoundByOwnHash(p) <==> HashesIdentify(result.events, p.txs)
  {
    hide ParseTxResult, IsFormat1, AnnouncedFirst, Announced, FoundByOwnHash, OnlyLastKeeps, DistinctHashes;
    if IsFormat1(result.events) {
      FoundByHashFormat1(result, msgs);
    } else {
      FoundByHashFormat2(result, msgs);
    }
  }

  /** With pairwise distinct announcements, distinct final hashes are enough. */
  lemma DistinctAnnouncements(result: Response, msgs: Option<seq<Msg>>)
    requires AnnouncedFirst(result.events) && ParseTxResult(result, msgs).Ok?
    requires DistinctHashes(Announced(result.events))
    ensures var p := ParseTxResult(result, msgs).value;
            FoundByOwnHash(p) <==> DistinctHashes(p.txs)
  {
    hide Announced, AnnouncedFirst, ParseTxResult, FoundByOwnHash;
    FoundByHashFormat2(result, msgs);
  }

  /** Without them they are not: with one hash announced twice, the first of the two kept by
      its detail and the second replaced, the kept hash leads to the other tx. */
  lemma DuplicateAnnouncementMisleads(a: Event, d: Event, other: Event, gas: int64)
    requires IsAnnouncement(a) && IsDetail(d) && IsDetail(other)
    requires Fill(0, a.attributes).Some? && Fill(0, d.attributes).Some? && Fill(1, other.attributes).Some?
    requires Fill(0, a.attributes).value.hash == Fill(0, d.attributes).value.hash
    requires Fill(1, other.attributes).value.hash != Fill(0, d.attributes).value.hash
    ensures var r := ParseTxResult(Response(0, "", gas, [a, a, d, other]), None);
            && r.Ok? && DistinctHashes(r.value.txs) && |r.value.txs| == 2
            && GetTxByHash(r.value, r.value.txs[0].hash) == Some(r.value.txs[1])
            && !FoundByOwnHash(r.value)
  {
    hide Fill, FoundByOwnHash, AnnouncedFirst, Announced, FirstDetail;
    var es := [a, a, d, other];
    TwiceAnnounced(a, d, other);
    var s2 := ScanEvents(START, [a, a]).value;
    ScanConcat(START, [a, a], [d, other]);
    assert es == [a, a] + [d, other];
    ScanTwo(s2, d, other);
    FoundByHashFormat2(Response(0, "", gas, es), None);
  }

  lemma ScanTwo(s: Scan, e: Event, f: Event)
    requires ScanEvent(s, e).Ok?
    ensures ScanEvents(s, [e, f]) == ScanEvent(ScanEvent(s, e).value, f)
  {
    hide ScanEvent;
    assert [e, f][1..] == [f] && [f][1..] == [];
    var s' := ScanEvent(s, e).value;
    assert ScanEvents(s', [f]) == ScanEvent(s', f);
  }

  lemma TwiceAnnounced(a: Event, d: Event, other: Event)
    requires IsAnnouncement(a) && IsDetail(d) && IsDetail(other) && Fill(0, a.attributes).Some?
    ensures ScanEvents(START, [a, a]).Ok? && AnnouncedFirst([a, a, d, other])
    ensures var s := ScanEvents(START, [a, a]).value;
            && Announced([a, a, d, other]) == s.parsed.txs && |s.parsed.txs| == 2
            && s.format == Format2 && s.details == 0
            && var h := Fill(0, a.attributes).value.hash;
               s.parsed.txs[0].hash == h && s.parsed.txs[1].hash == h && s.parsed.hashes == map[h := 1]
  {
    hide Fill;
    FillIndexHash(0, 1, a.attributes);
    ScanTwo(START, a, a);
    var es := [a, a, d, other];
    assert es[1..] == [a, d, other] && es[1..][1..] == [d, other];
    assert FirstDetail([d, other]) == 0;
    assert FirstDetail(es) == 2;
    assert es[..2] == [a, a] && es[2..] == [d, other];
  }
}
