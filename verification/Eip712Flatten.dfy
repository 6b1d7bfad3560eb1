/** Flattening of a payload: the array `msgs` becomes the fields `msg0`, `msg1`, ... */
module Eip712Flatten {
  import opened Options
  import opened Text
  import opened Eip712Types
  import opened Eip712Meaning
  import opened Eip712Schema

  type Fields = map<string, Json>

  datatype Flat = Flat(fields: Fields, count: nat)

  /** The messages of a payload, if it has an array of them. */
  function PayloadMessages(payload: Fields): Option<seq<Json>> {
    if "msgs" in payload && payload["msgs"].Array? then Some(payload["msgs"].items) else None
  }

  /** The payload with a message at its field; refused when the field is taken or the message
      is no object. */
  function WithNewMessage(payload: Fields, msg: Json, index: nat): Option<Fields> {
    if MsgField(index) in payload || !msg.Object? then None
    else Some(payload[MsgField(index) := msg])
  }

  function WithMessages(payload: Fields, msgs: seq<Json>, i: nat): Option<Fields>
    requires i <= |msgs|
    decreases |msgs| - i
  {
    if i == |msgs| then Some(payload)
    else
      match WithNewMessage(payload, msgs[i], i)
      case None => None
      case Some(payload') => WithMessages(payload', msgs, i + 1)
  }

  function Flatten(payload: Fields): Option<Flat> {
    match PayloadMessages(payload)
    case None => None
    case Some(msgs) =>
      match WithMessages(payload, msgs, 0)
      case None => None
      case Some(flattened) => Some(Flat(flattened - {"msgs"}, |msgs|))
  }

  method FlattenPayloadMessages(payload: Fields) returns (r: Option<Flat>)
    ensures r == Flatten(payload)
  {
    hide MsgField;
    var msgs := PayloadMessages(payload);
    if msgs.None? {
      return None;
    }
    var flattened := payload;
    var i := 0;
    while i < |msgs.value|
      invariant 0 <= i <= |msgs.value|
      invariant WithMessages(payload, msgs.value, 0) == WithMessages(flattened, msgs.value, i)
    {
      var next := WithNewMessage(flattened, msgs.value[i], i);
      if next.None? {
        return None;
      }
      flattened := next.value;
      i := i + 1;
    }
    return Some(Flat(flattened - {"msgs"}, |msgs.value|));
  }

  /* ----- message fields ----- */

  lemma MsgFieldInjective(i: nat, j: nat)
    ensures MsgField(i) == MsgField(j) ==> i == j
    ensures MsgField(i) != "msgs"
  {
    hide Digits;
    assert MsgField(i)[3..] == Digits(i) && MsgField(j)[3..] == Digits(j);
    DigitsInjective(i, j);
    assert IsDigit(MsgField(i)[3]);
    assert "msgs"[3] == 's';
  }

  predicate IsMsgField(k: string, from: nat, to: nat) {
    exists i :: from <= i < to && k == MsgField(i)
  }

  /** No message field from `i` on is taken, and all messages from there are objects. */
  predicate Flattenable(payload: Fields, msgs: seq<Json>, i: nat) {
    forall k :: i <= k < |msgs| ==> MsgField(k) !in payload && msgs[k].Object?
  }

  /** The loop gets to its end exactly on such payloads, and then has put every message in
      its place and kept everything else. */
  lemma {:induction false} WithMessagesMeaning(payload: Fields, msgs: seq<Json>, i: nat)
    requires i <= |msgs|
    ensures WithMessages(payload, msgs, i).Some? <==> Flattenable(payload, msgs, i)
    ensures WithMessages(payload, msgs, i).Some? ==>
              var f := WithMessages(payload, msgs, i).value;
              && (forall k :: i <= k < |msgs| ==> MsgField(k) in f && f[MsgField(k)] == msgs[k])
              && (forall x :: x in payload ==> x in f && f[x] == payload[x])
              && (forall x :: x in f && x !in payload ==> IsMsgField(x, i, |msgs|))
    decreases |msgs| - i
  {
    hide MsgField;
    if i < |msgs| {
      var next := WithNewMessage(payload, msgs[i], i);
      if next.Some? {
        forall k | i < k < |msgs| ensures MsgField(k) != MsgField(i) {
          MsgFieldInjective(k, i);
        }
        WithMessagesMeaning(next.value, msgs, i + 1);
        assert Flattenable(next.value, msgs, i + 1) <==> Flattenable(payload, msgs, i);
        if WithMessages(payload, msgs, i).Some? {
          var f := WithMessages(payload, msgs, i).value;
          forall x | x in f && x !in payload ensures IsMsgField(x, i, |msgs|) {
            if x != MsgField(i) {
              assert IsMsgField(x, i + 1, |msgs|);
            }
          }
        }
      }
    }
  }

  /** Flattening succeeds exactly when there is an array of objects and none of the fields it
      needs is taken. */
  lemma FlattenExactly(payload: Fields)
    ensures Flatten(payload).Some? <==>
            && "msgs" in payload && payload["msgs"].Array?
            && Flattenable(payload, payload["msgs"].items, 0)
  {
    hide MsgField, WithMessages;
    if PayloadMessages(payload).Some? {
      WithMessagesMeaning(payload, PayloadMessages(payload).value, 0);
    }
  }

  /** The flattened payload: every message at its field, `msgs` gone, all else kept. */
  lemma FlattenMeaning(payload: Fields, x: string)
    requires Flatten(payload).Some?
    ensures var msgs, flat := payload["msgs"].items, Flatten(payload).value;
            && flat.count == |msgs| && "msgs" !in flat.fields
            && (forall i :: 0 <= i < |msgs| ==> MsgField(i) in flat.fields && flat.fields[MsgField(i)] == msgs[i])
            && (IsMsgField(x, 0, |msgs|) ==> x !in payload)
            && (!IsMsgField(x, 0, |msgs|) && x != "msgs" ==>
                  (x in flat.fields <==> x in payload)
                  && (x in payload ==> flat.fields[x] == payload[x]))
  {
    hide MsgField, WithMessages;
    var msgs, flat := payload["msgs"].items, Flatten(payload).value;
    WithMessagesMeaning(payload, msgs, 0);
    forall i | 0 <= i < |msgs| ensures MsgField(i) != "msgs" {
      MsgFieldInjective(i, i);
    }
  }

  /* ----- flattening loses nothing ----- */

  function Messages(fields: Fields, i: nat, n: nat): seq<Json>
    requires i <= n
    decreases n - i
  {
    if i == n then []
    else [if MsgField(i) in fields then fields[MsgField(i)] else Null] + Messages(fields, i + 1, n)
  }

  function MsgFields(n: nat): (s: set<string>) {
    if n == 0 then {} else MsgFields(n - 1) + {MsgField(n - 1)}
  }

  /** The payload a flattened one came from. */
  function Unflatten(flat: Flat): Fields {
    (flat.fields - MsgFields(flat.count))["msgs" := Array(Messages(flat.fields, 0, flat.count))]
  }

  lemma {:induction false} MessagesAre(fields: Fields, i: nat, msgs: seq<Json>)
    requires i <= |msgs|
    requires forall k :: i <= k < |msgs| ==> MsgField(k) in fields && fields[MsgField(k)] == msgs[k]
    ensures Messages(fields, i, |msgs|) == msgs[i..]
    decreases |msgs| - i
  {
    hide MsgField;
    if i < |msgs| {
      MessagesAre(fields, i + 1, msgs);
      assert msgs[i..] == [msgs[i]] + msgs[i + 1..];
    }
  }

  lemma {:induction false} MsgFieldsAre(n: nat, x: string)
    ensures x in MsgFields(n) <==> IsMsgField(x, 0, n)
  {
    hide MsgField;
    if n > 0 {
      MsgFieldsAre(n - 1, x);
      assert x == MsgField(n - 1) ==> IsMsgField(x, 0, n);
    }
  }

  /** The original payload is recovered from the flattened one and the number of messages. */
  lemma UnflattenFlatten(payload: Fields)
    requires Flatten(payload).Some?
    ensures Unflatten(Flatten(payload).value) == payload
  {
    hide MsgField, MsgFields, Messages, Flatten, IsMsgField;
    FlattenExactly(payload);
    var msgs, flat := payload["msgs"].items, Flatten(payload).value;
    FlattenMeaning(payload, "msgs");
    MessagesAre(flat.fields, 0, msgs);
    assert msgs[0..] == msgs;
    forall x: string
      ensures x in Unflatten(flat) <==> x in payload
      ensures x in payload ==> Unflatten(flat)[x] == payload[x]
    {
      FlattenMeaning(payload, x);
      MsgFieldsAre(|msgs|, x);
    }
  }

  /* ----- from payload to schema ----- */

  /** End to end: the schema generated for a flattened payload gives message `i` of the
      original payload a member whose type unfolds to that message's shape. */
  lemma SchemaOfPayload(payload: Fields, i: nat)
    requires Flatten(payload).Some?
    requires CreateTypes(Flatten(payload).value.fields, Flatten(payload).value.count).Some?
    requires i < Flatten(payload).value.count
    ensures "msgs" in payload && payload["msgs"].Array? && i < |payload["msgs"].items|
    ensures var types := CreateTypes(Flatten(payload).value.fields, Flatten(payload).value.count).value;
            var msg := payload["msgs"].items[i];
            && Good(types) && "Tx" in types && |BASE_TX| + i < |types["Tx"]|
            && types["Tx"][|BASE_TX| + i].name == MsgField(i)
            && msg.Object?
            && Denotes(types, types["Tx"][|BASE_TX| + i].kind, ObjectShape(msg))
  {
    hide CreateTypes, MsgField, Flatten, Good, Denotes, ObjectShape, IsMsgField;
    var flat := Flatten(payload).value;
    var types := CreateTypes(flat.fields, flat.count).value;
    FlattenExactly(payload);
    FlattenMeaning(payload, "msgs");
    CreatedTypesDescribe(flat.fields, flat.count);
    assert MsgMeans(types, flat.fields, i);
    assert Extends(types, types);
  }
}
