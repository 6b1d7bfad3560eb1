/**
 The event parser: Ethereum tx information recovered from the `ethereum_tx` events of
 one delivered transaction, in either of two event formats.
 */
module Events {
  import opened Words
  import opened IndexKeys
  import opened Options
  import Text

  /** How a Go call ends: normally, with an error, or in a panic. */
  datatype Outcome<+T> = Ok(value: T) | Error | Panic

  datatype Attribute = Attribute(key: string, value: string)

  datatype Event = Event(kind: string, attributes: seq<Attribute>)

  /** A message of a decoded transaction.  `hash` is the hash stated in the message and
      `txHash` the hash computed from the transaction it carries. */
  datatype Msg = EthereumTx(hash: Hash, txHash: Hash, gas: uint64) | OtherMsg

  /** The part of a delivered transaction's result that is read here. */
  datatype Response = Response(code: nat, log: string, gasUsed: int64, events: seq<Event>)

  datatype ParsedTx = ParsedTx(msgIndex: nat, hash: Hash, ethTxIndex: int32, gasUsed: uint64, failed: bool)

  datatype Parsed = Parsed(txs: seq<ParsedTx>, hashes: map<Hash, nat>)

  const EMPTY := Parsed([], map[])

  const ZERO_HASH: Hash := Zeros(32)

  /* ----- attributes ----- */

  predicate AllDigits(s: string) {
    forall i :: 0 <= i < |s| ==> Text.IsDigit(s[i])
  }

  function Decimal(s: string): nat
    requires AllDigits(s)
  {
    if s == [] then 0
    else
      assert Text.IsDigit(s[|s| - 1]);
      10 * Decimal(s[..|s| - 1]) + (s[|s| - 1] as int - '0' as int)
  }

  /** `strconv.ParseUint(s, 10, bits)` with `bound` = 2^bits. */
  function ParseUint(s: string, bound: nat): (r: Option<nat>)
    ensures r.Some? ==> r.value < bound
  {
    if s != [] && AllDigits(s) && Decimal(s) < bound then Some(Decimal(s)) else None
  }

  function HexDigit(c: char): (d: int)
    ensures -1 <= d < 16
  {
    if '0' <= c <= '9' then c as int - '0' as int
    else if 'a' <= c <= 'f' then c as int - 'a' as int + 10
    else if 'A' <= c <= 'F' then c as int - 'A' as int + 10
    else -1
  }

  /** Pairs of hex digits up to the first character that is not one. */
  function DecodeHex(s: string): seq<byte> {
    if |s| < 2 || HexDigit(s[0]) < 0 || HexDigit(s[1]) < 0 then []
    else [16 * HexDigit(s[0]) + HexDigit(s[1])] + DecodeHex(s[2..])
  }

  function Zeros(n: nat): (s: seq<byte>)
    ensures |s| == n
  {
    if n == 0 then [] else [0] + Zeros(n - 1)
  }

  function StripPrefix(s: string): string {
    if |s| >= 2 && s[0] == '0' && (s[1] == 'x' || s[1] == 'X') then s[2..] else s
  }

  function BytesToHash(bytes: seq<byte>): Hash {
    if |bytes| > 32 then bytes[|bytes| - 32..] else Zeros(32 - |bytes|) + bytes
  }

  /** `common.HexToHash`: an optional 0x, cut from the left or padded to 32 bytes. */
  function HexToHash(s: string): Hash {
    BytesToHash(DecodeHex(if |StripPrefix(s)| % 2 == 1 then "0" + StripPrefix(s) else StripPrefix(s)))
  }

  function FillAttribute(tx: ParsedTx, a: Attribute): Option<ParsedTx> {
    if a.key == "ethereumTxHash" then Some(tx.(hash := HexToHash(a.value)))
    else if a.key == "txIndex" then
      var n := ParseUint(a.value, TWO31);
      if n.None? then None else Some(tx.(ethTxIndex := n.value))
    else if a.key == "txGasUsed" then
      var n := ParseUint(a.value, TWO64);
      if n.None? then None else Some(tx.(gasUsed := n.value))
    else if a.key == "ethereumTxFailed" then Some(tx.(failed := |a.value| > 0))
    else Some(tx)
  }

  function FillFrom(tx: ParsedTx, attrs: seq<Attribute>): Option<ParsedTx>
    decreases |attrs|
  {
    if attrs == [] then Some(tx)
    else
      match FillAttribute(tx, attrs[0])
      case None => None
      case Some(tx') => FillFrom(tx', attrs[1..])
  }

  /** The tx a list of attributes describes, for message `msgIndex`; -1 stands for an
      index that no attribute gives. */
  function Fill(msgIndex: nat, attrs: seq<Attribute>): Option<ParsedTx> {
    FillFrom(ParsedTx(msgIndex, ZERO_HASH, -1, 0, false), attrs)
  }

  method FillTxAttributes(tx: ParsedTx, attrs: seq<Attribute>) returns (r: Option<ParsedTx>)
    ensures r == FillFrom(tx, attrs)
  {
    hide FillAttribute;
    var acc := tx;
    var i := 0;
    assert attrs[0..] == attrs;
    while i < |attrs|
      invariant 0 <= i <= |attrs|
      invariant FillFrom(tx, attrs) == FillFrom(acc, attrs[i..])
    {
      var next := FillAttribute(acc, attrs[i]);
      if next.None? {
        return None;
      }
      acc := next.value;
      assert attrs[i..][1..] == attrs[i + 1..];
      i := i + 1;
    }
    return Some(acc);
  }

  /** Attributes set fields of the tx; the message index is not one of them, and whether
      they parse does not depend on it. */
  lemma {:induction false} FillFromIndex(tx: ParsedTx, attrs: seq<Attribute>, i: nat)
    ensures var r, s := FillFrom(tx, attrs), FillFrom(tx.(msgIndex := i), attrs);
            && r.Some? == s.Some?
            && (r.Some? ==> r.value.msgIndex == tx.msgIndex && s.value == r.value.(msgIndex := i))
    decreases |attrs|
  {
    hide HexToHash, ParseUint;
    if attrs != [] {
      var r := FillAttribute(tx, attrs[0]);
      assert r.Some? ==> FillAttribute(tx.(msgIndex := i), attrs[0]) == Some(r.value.(msgIndex := i));
      if r.Some? {
        FillFromIndex(r.value, attrs[1..], i);
      }
    }
  }

  lemma FillMsgIndex(i: nat, attrs: seq<Attribute>)
    requires Fill(i, attrs).Some?
    ensures Fill(i, attrs).value.msgIndex == i
  {
    hide FillFrom;
    FillFromIndex(ParsedTx(i, ZERO_HASH, -1, 0, false), attrs, i);
  }

  /* ----- the scan over the events ----- */

  datatype Format = Unknown | Format1 | Format2

  /** `details` counts the events that are not announcements; the source's event index
      is one less. */
  datatype Scan = Scan(format: Format, details: nat, parsed: Parsed)

  const START := Scan(Unknown, 0, EMPTY)

  predicate IsEthereum(e: Event) {
    e.kind == "ethereum_tx"
  }

  /** First part of format 2: hash and index only. */
  predicate IsAnnouncement(e: Event) {
    IsEthereum(e) && |e.attributes| == 2
  }

  /** Format 1, or second part of format 2. */
  predicate IsDetail(e: Event) {
    IsEthereum(e) && |e.attributes| != 2
  }

  function NewTx(p: Parsed, attrs: seq<Attribute>): Outcome<Parsed> {
    match Fill(|p.txs|, attrs)
    case None => Error
    case Some(tx) => Ok(Parsed(p.txs + [tx], p.hashes[tx.hash := |p.txs|]))
  }

  function UpdateTx(p: Parsed, eventIndex: nat, attrs: seq<Attribute>): Outcome<Parsed> {
    match Fill(eventIndex, attrs)
    case None => Error
    case Some(tx) =>
      if eventIndex >= |p.txs| then Panic
      else
        Ok(Parsed(p.txs[eventIndex := tx],
                  if tx.hash != p.txs[eventIndex].hash then p.hashes[tx.hash := eventIndex] else p.hashes))
  }

  function FormatAt(f: Format, e: Event): Format {
    if f != Unknown then f else if |e.attributes| > 2 then Format1 else Format2
  }

  function ScanEvent(s: Scan, e: Event): Outcome<Scan> {
    if !IsEthereum(e) then Ok(s)
    else
      var f := FormatAt(s.format, e);
      var isDetail := |e.attributes| != 2;
      var p := if isDetail && f == Format2 then UpdateTx(s.parsed, s.details, e.attributes)
               else NewTx(s.parsed, e.attributes);
      match p
      case Error => Error
      case Panic => Panic
      case Ok(q) => Ok(Scan(f, if isDetail then s.details + 1 else s.details, q))
  }

  function ScanEvents(s: Scan, es: seq<Event>): Outcome<Scan>
    decreases |es|
  {
    if es == [] then Ok(s)
    else
      match ScanEvent(s, es[0])
      case Error => Error
      case Panic => Panic
      case Ok(s') => ScanEvents(s', es[1..])
  }

  /** A single tx takes the gas of the whole result, whatever its events say. */
  function GasFromResult(txs: seq<ParsedTx>, result: Response): seq<ParsedTx> {
    if |txs| == 1 then [txs[0].(gasUsed := ToUint64(result.gasUsed))] else txs
  }

  /** Over the block gas limit every tx failed and was charged its gas limit. */
  function ChargeLimit(txs: seq<ParsedTx>, msgs: seq<Msg>, i: nat): (r: Outcome<seq<ParsedTx>>)
    requires i <= |txs|
    decreases |txs| - i
  {
    if i == |txs| then Ok(txs)
    else if i >= |msgs| || !msgs[i].EthereumTx? then Panic
    else ChargeLimit(txs[i := txs[i].(failed := true, gasUsed := msgs[i].gas)], msgs, i + 1)
  }

  function Finish(p: Parsed, result: Response, msgs: Option<seq<Msg>>): Outcome<Parsed> {
    var txs := GasFromResult(p.txs, result);
    if result.code != 0 && msgs.Some? then
      match ChargeLimit(txs, msgs.value, 0)
      case Error => Error
      case Panic => Panic
      case Ok(txs') => Ok(Parsed(txs', p.hashes))
    else Ok(Parsed(txs, p.hashes))
  }

  /** The parser: `msgs` are the messages of the decoded transaction, if there is one. */
  function ParseTxResult(result: Response, msgs: Option<seq<Msg>>): Outcome<Parsed> {
    match ScanEvents(START, result.events)
    case Error => Error
    case Panic => Panic
    case Ok(s) => Finish(s.parsed, result, msgs)
  }

  /* ----- lookups ----- */

  function GetTxByHash(p: Parsed, hash: Hash): Option<ParsedTx> {
    if hash in p.hashes && p.hashes[hash] < |p.txs| then Some(p.txs[p.hashes[hash]]) else None
  }

  function GetTxByMsgIndex(p: Parsed, i: int): Option<ParsedTx> {
    if i < 0 || i >= |p.txs| then None else Some(p.txs[i])
  }

  function GetTxByTxIndex(p: Parsed, txIndex: int): Option<ParsedTx> {
    if p.txs == [] then None else GetTxByMsgIndex(p, txIndex - p.txs[0].ethTxIndex)
  }

  /** Sum of the gas of the first `n` txs, in 64-bit words. */
  function GasOfFirst(txs: seq<ParsedTx>, n: nat): uint64
    requires n <= |txs|
  {
    if n == 0 then 0 else AddUint64(GasOfFirst(txs, n - 1), txs[n - 1].gasUsed)
  }

  /* ----- the parser as the source runs it ----- */

  class ParsedTxs {
    var txs: seq<ParsedTx>
    var txHashes: map<Hash, nat>

    ghost function Contents(): Parsed
      reads this
    {
      Parsed(txs, txHashes)
    }

    constructor ()
      ensures Contents() == EMPTY
    {
      txs, txHashes := [], map[];
    }

    method AppendTx(attrs: seq<Attribute>) returns (ok: bool)
      modifies this
      ensures ok == NewTx(old(Contents()), attrs).Ok?
      ensures ok ==> Contents() == NewTx(old(Contents()), attrs).value
      ensures !ok ==> NewTx(old(Contents()), attrs).Error? && Contents() == old(Contents())
    {
      hide FillFrom;
      var tx := FillTxAttributes(ParsedTx(|txs|, ZERO_HASH, -1, 0, false), attrs);
      if tx.None? {
        return false;
      }
      txHashes := txHashes[tx.value.hash := |txs|];
      txs := txs + [tx.value];
      return true;
    }

    method ReplaceTx(eventIndex: nat, attrs: seq<Attribute>) returns (r: Outcome<()>)
      modifies this
      ensures r.Ok? == UpdateTx(old(Contents()), eventIndex, attrs).Ok?
      ensures r.Panic? == UpdateTx(old(Contents()), eventIndex, attrs).Panic?
      ensures r.Ok? ==> Contents() == UpdateTx(old(Contents()), eventIndex, attrs).value
      ensures !r.Ok? ==> Contents() == old(Contents())
    {
      hide FillFrom;
      var tx := FillTxAttributes(ParsedTx(eventIndex, ZERO_HASH, -1, 0, false), attrs);
      if tx.None? {
        return Error;
      }
      if eventIndex >= |txs| {
        return Panic;
      }
      if tx.value.hash != txs[eventIndex].hash {
        txHashes := txHashes[tx.value.hash := eventIndex];
      }
      txs := txs[eventIndex := tx.value];
      return Ok(());
    }

    /** Every tx becomes a failed one charged its gas limit. */
    method ChargeLimits(msgs: seq<Msg>) returns (panicked: bool)
      modifies this
      ensures panicked == ChargeLimit(old(txs), msgs, 0).Panic?
      ensures !panicked ==> ChargeLimit(old(txs), msgs, 0) == Ok(txs)
      ensures txHashes == old(txHashes)
    {
      var i := 0;
      while i < |txs|
        invariant 0 <= i <= |txs| && txHashes == old(txHashes)
        invariant ChargeLimit(old(txs), msgs, 0) == ChargeLimit(txs, msgs, i)
        decreases |txs| - i
      {
        if i >= |msgs| || !msgs[i].EthereumTx? {
          return true;
        }
        txs := txs[i := txs[i].(failed := true, gasUsed := msgs[i].gas)];
        i := i + 1;
      }
      return false;
    }
  }

  method Parse(result: Response, msgs: Option<seq<Msg>>) returns (r: Outcome<Parsed>)
    ensures r == ParseTxResult(result, msgs)
  {
    hide NewTx, UpdateTx, ChargeLimit;
    var format, details := Unknown, 0;
    var p := new ParsedTxs();
    var i := 0;
    var es := result.events;
    assert es[0..] == es;
    while i < |es|
      invariant 0 <= i <= |es|
      invariant ScanEvents(START, es) == ScanEvents(Scan(format, details, p.Contents()), es[i..])
    {
      var e := es[i];
      assert es[i..][1..] == es[i + 1..];
      i := i + 1;
      if e.kind != "ethereum_tx" {
        continue;
      }
      if format == Unknown {
        format := if |e.attributes| > 2 then Format1 else Format2;
      }
      if |e.attributes| == 2 {
        var ok := p.AppendTx(e.attributes);
        if !ok {
          return Error;
        }
      } else {
        details := details + 1;
        if format == Format1 {
          var ok := p.AppendTx(e.attributes);
          if !ok {
            return Error;
          }
        } else {
          var updated := p.ReplaceTx(details - 1, e.attributes);
          if updated.Error? {
            return Error;
          } else if updated.Panic? {
            return Panic;
          }
        }
      }
    }
    if |p.txs| == 1 {
      p.txs := [p.txs[0].(gasUsed := ToUint64(result.gasUsed))];
    }
    if result.code != 0 && msgs.Some? {
      var panicked := p.ChargeLimits(msgs.value);
      if panicked {
        return Panic;
      }
    }
    return Ok(Parsed(p.txs, p.txHashes));
  }

  method AccumulativeGasUsed(p: Parsed, msgIndex: nat) returns (sum: uint64)
    requires msgIndex < |p.txs|
    ensures sum == GasOfFirst(p.txs, msgIndex + 1)
  {
    sum := 0;
    var i := 0;
    while i <= msgIndex
      invariant 0 <= i <= msgIndex + 1 && sum == GasOfFirst(p.txs, i)
    {
      sum := AddUint64(sum, p.txs[i].gasUsed);
      i := i + 1;
    }
  }
}
