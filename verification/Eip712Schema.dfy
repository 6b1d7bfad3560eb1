/** Properties of whole schemas: adding again is a no-op, schemas are closed and acyclic,
    and every message of a transaction keeps its meaning to the end. */
module Eip712Schema {
  import opened Options
  import opened Text
  import opened Eip712Types
  import opened Eip712Meaning

  /* ----- adding a payload again ----- */

  lemma NotTx(typeDef: string, n: nat)
    ensures TypeDefWithIndex(typeDef, n) != "Tx"
  {
    var k := TypeDefWithIndex(typeDef, n);
    assert IsDigit(k[|k| - 1]);
  }

  /** The probing meets the same obstacles again, and then the members it left there. */
  lemma {:induction false} ProbeAgain(types: Types, typeDef: string, members: seq<Member>, index: nat, u: Types)
    requires index < MAX_DUPLICATES && Probe(types, typeDef, members, index).Some?
    requires Extends(types[Probe(types, typeDef, members, index).value := members], u)
    ensures Probe(u, typeDef, members, index) == Probe(types, typeDef, members, index)
    ensures var k := Probe(types, typeDef, members, index).value; k in u && u[k] == members
    decreases MAX_DUPLICATES - index
  {
    hide TypeDefWithIndex;
    var key := TypeDefWithIndex(typeDef, index);
    NotTx(typeDef, index);
    var k := Probe(types, typeDef, members, index).value;
    if key in types && types[key] != members {
      ProbeFits(types, typeDef, members, index + 1);
      ProbeAgain(types, typeDef, members, index + 1, u);
      assert key != k;
    }
  }

  lemma AddMembersAgain(types: Types, typeDef: string, members: seq<Member>, u: Types)
    requires AddMembers(types, typeDef, members).name.Some?
    requires Extends(AddMembers(types, typeDef, members).types, u)
    ensures AddMembers(u, typeDef, members) == Added(u, AddMembers(types, typeDef, members).name)
  {
    hide Probe;
    ProbeAgain(types, typeDef, members, 0, u);
    var k := Probe(types, typeDef, members, 0).value;
    assert u[k := members] == u;
  }

  lemma {:induction false} ElementAgain(
    types: Types, root: string, prefix: string, name: string, v: Json, c: bool, u: Types)
    requires var w := WalkElement(types, root, prefix, name, v, c); !w.kinded.TooMany? && Extends(w.types, u)
    ensures WalkElement(u, root, prefix, name, v, c) ==
            Walked(u, WalkElement(types, root, prefix, name, v, c).kinded)
    decreases v, 2
  {
    hide AddObject, Sanitize, Extends, PrefixForSubField;
    if v.Object? {
      ObjectAgain(types, root, PrefixForSubField(prefix, name), v, u);
    }
  }

  lemma {:induction false} FieldAgain(
    types: Types, root: string, prefix: string, name: string, v: Json, u: Types)
    requires var w := WalkField(types, root, prefix, name, v); !w.kinded.TooMany? && Extends(w.types, u)
    ensures WalkField(u, root, prefix, name, v) == Walked(u, WalkField(types, root, prefix, name, v).kinded)
    decreases v, 3
  {
    hide WalkElement, Extends;
    if !v.Array? {
      ElementAgain(types, root, prefix, name, v, false, u);
    } else if v.items != [] {
      ElementAgain(types, root, prefix, name, v.items[0], true, u);
    }
  }

  lemma {:induction false} FieldsAgain(
    types: Types, root: string, prefix: string, j: Json, names: seq<string>, u: Types)
    requires j.Object? && forall n :: n in names ==> n in j.fields
    requires var g := WalkFields(types, root, prefix, j, names); g.members.Some? && Extends(g.types, u)
    ensures WalkFields(u, root, prefix, j, names) == Gathered(u, WalkFields(types, root, prefix, j, names).members)
    decreases j, 0, |names|
  {
    hide WalkField, Extends;
    if names != [] {
      var w := WalkField(types, root, prefix, names[0], j.fields[names[0]]);
      var rest := WalkFields(w.types, root, prefix, j, names[1..]);
      FieldsGrow(w.types, root, prefix, j, names[1..]);
      GrowsExtends(w.types, rest.types);
      ExtendsTransitive(w.types, rest.types, u);
      FieldAgain(types, root, prefix, names[0], j.fields[names[0]], u);
      FieldsAgain(w.types, root, prefix, j, names[1..], u);
    }
  }

  /** A payload added once and added again to any later environment gets the same name and
      changes nothing. */
  lemma {:induction false} ObjectAgain(types: Types, root: string, prefix: string, j: Json, u: Types)
    requires j.Object? && AddObject(types, root, prefix, j).name.Some?
    requires Extends(AddObject(types, root, prefix, j).types, u)
    ensures AddObject(u, root, prefix, j) == Added(u, AddObject(types, root, prefix, j).name)
    decreases j, 1
  {
    hide WalkFields, SortedKeys, AddMembers, TypeDefForPrefix, Extends;
    var names := SortedKeys(j.fields.Keys);
    var g := WalkFields(types, root, prefix, j, names);
    var typeDef := TypeDefForPrefix(prefix, root);
    var t := AddMembers(g.types, typeDef, g.members.value).types;
    AddMembersGrows(g.types, typeDef, g.members.value);
    GrowsExtends(g.types, t);
    ExtendsTransitive(g.types, t, u);
    FieldsAgain(types, root, prefix, j, names, u);
    AddMembersAgain(g.types, typeDef, g.members.value, u);
  }

  /* ----- closed and acyclic ----- */

  /** A type name less one pair of brackets. */
  function Base(kind: string): string {
    if |kind| >= 2 && kind[|kind| - 2..] == "[]" then kind[..|kind| - 2] else kind
  }

  predicate IsAtomic(name: string) {
    name in {"string", "bool", "int64", "uint256"}
  }

  /** Every referenced name is primitive or a structure other than the transaction. */
  ghost predicate RefersInto(types: Types, members: seq<Member>) {
    forall i :: 0 <= i < |members| ==>
      var b := Base(members[i].kind);
      IsAtomic(b) || (b in types && b != "Tx")
  }

  ghost predicate Closed(types: Types) {
    forall k :: k in types ==> RefersInto(types, types[k])
  }

  /** Along every reference to a structure the rank goes down. */
  ghost predicate RefersBelow(rank: map<string, nat>, members: seq<Member>, r: nat) {
    forall i :: 0 <= i < |members| ==>
      var b := Base(members[i].kind);
      IsAtomic(b) || (b in rank && rank[b] < r)
  }

  ghost predicate Ranked(types: Types, rank: map<string, nat>, bound: nat) {
    forall k :: k in types ==> k in rank && rank[k] < bound && RefersBelow(rank, types[k], rank[k])
  }

  ghost predicate Acyclic(types: Types) {
    exists rank: map<string, nat>, bound: nat :: Ranked(types, rank, bound)
  }

  lemma RefersIntoMore(types: Types, k: string, new_: seq<Member>, members: seq<Member>)
    requires RefersInto(types, members)
    ensures RefersInto(types[k := new_], members)
  {
    hide Base;
  }

  /** A structure that refers to known ones gets a rank above them all. */
  lemma RankNew(types: Types, k: string, members: seq<Member>)
    requires Closed(types) && Acyclic(types) && RefersInto(types, members)
    requires k == "Tx" || k !in types
    ensures Closed(types[k := members]) && Acyclic(types[k := members])
  {
    hide Base, IsAtomic;
    var t := types[k := members];
    forall x | x in t ensures RefersInto(t, t[x]) {
      RefersIntoMore(types, k, members, t[x]);
    }
    var rank: map<string, nat>, bound: nat :| Ranked(types, rank, bound);
    var rank' := rank[k := bound];
    forall x | x in t ensures x in rank' && rank'[x] < bound + 1 && RefersBelow(rank', t[x], rank'[x]) {
      if x == k {
        RefersBelowBound(types, rank, rank', bound, k, members);
      } else {
        RefersStillBelow(types, rank, rank', k, types[x], rank[x]);
      }
    }
    assert Ranked(t, rank', bound + 1);
  }

  lemma RefersBelowBound(
    types: Types, rank: map<string, nat>, rank': map<string, nat>, bound: nat, k: string, members: seq<Member>)
    requires RefersInto(types, members) && Ranked(types, rank, bound) && rank' == rank[k := bound]
    requires k == "Tx" || k !in types
    ensures RefersBelow(rank', members, bound)
  {
    hide Base, IsAtomic, RefersBelow;
    forall i | 0 <= i < |members|
      ensures var b := Base(members[i].kind); IsAtomic(b) || (b in rank' && rank'[b] < bound)
    {
    }
    assert RefersBelow(rank', members, bound) by { BelowIntro(rank', members, bound); }
  }

  lemma BelowIntro(rank: map<string, nat>, members: seq<Member>, r: nat)
    requires forall i :: 0 <= i < |members| ==>
               var b := Base(members[i].kind); IsAtomic(b) || (b in rank && rank[b] < r)
    ensures RefersBelow(rank, members, r)
  {
    hide Base, IsAtomic;
  }

  lemma RefersStillBelow(
    types: Types, rank: map<string, nat>, rank': map<string, nat>, k: string, members: seq<Member>, r: nat)
    requires RefersInto(types, members) && RefersBelow(rank, members, r)
    requires k == "Tx" || k !in types
    requires k in rank' && rank' == rank[k := rank'[k]]
    ensures RefersBelow(rank', members, r)
  {
    hide Base, IsAtomic;
  }

  /* ----- every step keeps schemas closed and acyclic ----- */

  ghost predicate Good(types: Types) {
    Closed(types) && Acyclic(types)
  }

  ghost predicate RefersTo(types: Types, kind: string) {
    IsAtomic(Base(kind)) || (Base(kind) in types && Base(kind) != "Tx")
  }

  lemma AddMembersGood(types: Types, typeDef: string, members: seq<Member>)
    requires Good(types) && RefersInto(types, members)
    ensures Good(AddMembers(types, typeDef, members).types)
  {
    hide Probe, RefersInto, Closed, Acyclic;
    var r := Probe(types, typeDef, members, 0);
    if r.Some? {
      ProbeFits(types, typeDef, members, 0);
      if r.value in types {
        assert types[r.value := members] == types;
      } else {
        RankNew(types, r.value, members);
      }
    }
  }

  lemma CollectionRefers(types: Types, k: string, c: bool)
    requires (IsTypeName(k) && k in types) || k in {"bool", "int64", "string"}
    ensures RefersTo(types, Collection(k, c))
  {
    KindsApart(k);
    if c {
      var l := Collection(k, c);
      assert l[|l| - 2..] == "[]" && l[..|l| - 2] == k;
    }
    if IsTypeName(k) {
      assert k[1] == k[..4][1] == 'y';
    }
  }

  lemma {:induction false} ElementGood(types: Types, root: string, prefix: string, name: string, v: Json, c: bool)
    requires Good(types) && IsPrefix(prefix) && StartsWithType(root)
    ensures var w := WalkElement(types, root, prefix, name, v, c);
            Good(w.types) && (w.kinded.Kind? ==> RefersTo(w.types, w.kinded.name))
    decreases v, 2
  {
    hide AddObject, Sanitize, Collection, Good, RefersTo, IsPrefix, IsTypeName;
    match v {
      case Bool(_) => CollectionRefers(types, "bool", c);
      case Number(_) => CollectionRefers(types, "int64", c);
      case String(_) => CollectionRefers(types, "string", c);
      case Object(_) =>
        var sub := PrefixForSubField(prefix, name);
        SubPrefix(prefix, name);
        ObjectGood(types, root, sub, v);
        var added := AddObject(types, root, sub, v);
        if added.name.Some? {
          ObjectName(types, root, sub, v);
          CollectionRefers(added.types, added.name.value, c);
        }
      case _ =>
    }
  }

  lemma {:induction false} FieldGood(types: Types, root: string, prefix: string, name: string, v: Json)
    requires Good(types) && IsPrefix(prefix) && StartsWithType(root)
    ensures var w := WalkField(types, root, prefix, name, v);
            Good(w.types) && (w.kinded.Kind? ==> RefersTo(w.types, w.kinded.name))
    decreases v, 3
  {
    hide WalkElement, Good, RefersTo, IsPrefix;
    if !v.Array? {
      ElementGood(types, root, prefix, name, v, false);
    } else if v.items == [] {
      CollectionRefers(types, "string", true);
      assert Collection("string", true) == "string[]";
    } else {
      ElementGood(types, root, prefix, name, v.items[0], true);
    }
  }

  lemma {:induction false} FieldsGood(types: Types, root: string, prefix: string, j: Json, names: seq<string>)
    requires j.Object? && forall n :: n in names ==> n in j.fields
    requires Good(types) && IsPrefix(prefix) && StartsWithType(root)
    ensures var g := WalkFields(types, root, prefix, j, names);
            Good(g.types) && (g.members.Some? ==> RefersInto(g.types, g.members.value))
    decreases j, 0, |names|
  {
    hide WalkField, Good, IsPrefix, Base;
    if names != [] {
      var v := j.fields[names[0]];
      FieldGood(types, root, prefix, names[0], v);
      var w := WalkField(types, root, prefix, names[0], v);
      if !w.kinded.TooMany? {
        FieldsGood(w.types, root, prefix, j, names[1..]);
        FieldsGrow(w.types, root, prefix, j, names[1..]);
      }
    }
  }

  lemma {:induction false} ObjectGood(types: Types, root: string, prefix: string, j: Json)
    requires j.Object? && Good(types) && IsPrefix(prefix) && StartsWithType(root)
    ensures Good(AddObject(types, root, prefix, j).types)
    decreases j, 1
  {
    hide WalkFields, SortedKeys, AddMembers, TypeDefForPrefix, Good, IsPrefix, RefersInto;
    var names := SortedKeys(j.fields.Keys);
    var g := WalkFields(types, root, prefix, j, names);
    FieldsGood(types, root, prefix, j, names);
    if g.members.Some? {
      AddMembersGood(g.types, TypeDefForPrefix(prefix, root), g.members.value);
    }
  }

  /* ----- whole transactions ----- */

  lemma RootTypeName(msg: Json)
    requires msg.Object? && MsgRootType(msg).Some?
    ensures StartsWithType(MsgRootType(msg).value)
  {
    hide LastToken;
  }

  const BASE_RANK: map<string, nat> := map["EIP712Domain" := 0, "Coin" := 0, "Fee" := 1, "Tx" := 2]

  lemma BaseKinds()
    ensures Base("string") == "string" && Base("uint256") == "uint256"
    ensures Base("Fee") == "Fee" && Base("Coin[]") == "Coin"
  {
    assert "Coin[]"[..4] == "Coin";
  }

  lemma BaseMembers()
    ensures RefersInto(BASE_TYPES, BASE_TX) && RefersBelow(BASE_RANK, BASE_TX, 2)
    ensures RefersInto(BASE_TYPES, BASE_FEE) && RefersBelow(BASE_RANK, BASE_FEE, 1)
    ensures RefersInto(BASE_TYPES, BASE_COIN) && RefersBelow(BASE_RANK, BASE_COIN, 0)
    ensures RefersInto(BASE_TYPES, BASE_DOMAIN) && RefersBelow(BASE_RANK, BASE_DOMAIN, 0)
  {
    hide Base;
    BaseKinds();
  }

  lemma BaseGood()
    ensures Good(BASE_TYPES)
  {
    hide Base, RefersInto, RefersBelow;
    BaseMembers();
    assert Ranked(BASE_TYPES, BASE_RANK, 3);
  }

  /** Message `i` of the payload is an object, and its member of the transaction type has a
      type that means the message, now and in every later environment. */
  ghost predicate MsgMeans(types: Types, payload: map<string, Json>, i: nat) {
    && "Tx" in types && |BASE_TX| + i < |types["Tx"]|
    && MsgField(i) in payload && payload[MsgField(i)].Object?
    && var m := types["Tx"][|BASE_TX| + i];
       && m.name == MsgField(i)
       && IsTypeName(m.kind)
       && forall u :: Extends(types, u) ==> Denotes(u, m.kind, ObjectShape(payload[MsgField(i)]))
  }

  /** The schema is closed and acyclic, the base types are as they were, and the transaction
      type has its base members and one for each of the first `n` messages. */
  ghost predicate Describes(types: Types, payload: map<string, Json>, n: nat) {
    && Good(types) && Extends(BASE_TYPES, types)
    && "Tx" in types && |types["Tx"]| == |BASE_TX| + n && types["Tx"][..|BASE_TX|] == BASE_TX
    && forall i :: 0 <= i < n ==> MsgMeans(types, payload, i)
  }

  lemma MsgMeansLater(types: Types, u: Types, payload: map<string, Json>, i: nat)
    requires MsgMeans(types, payload, i) && Extends(types, u)
    requires "Tx" in u && types["Tx"] <= u["Tx"]
    ensures MsgMeans(u, payload, i)
  {
    hide Denotes, ObjectShape, MsgField, IsTypeName, Extends;
    assert u["Tx"][|BASE_TX| + i] == types["Tx"][|BASE_TX| + i];
    forall v | Extends(u, v) ensures Extends(types, v) {
      ExtendsTransitive(types, u, v);
    }
  }

  /** Adding the member of a message to the transaction type. */
  lemma TxMemberGood(types: Types, tx: seq<Member>, m: Member)
    requires Good(types) && "Tx" in types && types["Tx"] == tx && RefersTo(types, m.kind)
    ensures Good(types["Tx" := tx + [m]])
  {
    hide Base, IsAtomic;
    assert RefersInto(types, tx);
    RankNew(types, "Tx", tx + [m]);
  }

  lemma MsgDescribed(types: Types, payload: map<string, Json>, n: nat)
    requires Describes(types, payload, n) && MsgField(n) in payload
    requires AddMsg(types, MsgField(n), payload[MsgField(n)]).Some?
    ensures Describes(AddMsg(types, MsgField(n), payload[MsgField(n)]).value, payload, n + 1)
  {
    hide Good, MsgField, MsgRootType, AddObject, Extends, Denotes, ObjectShape, IsTypeName, RefersTo;
    hide MsgMeans, BASE_TYPES, BASE_TX;
    var msg := payload[MsgField(n)];
    var root := MsgRootType(msg).value;
    var added := AddObject(types, root, "_", msg);
    var k := added.name.value;
    var u := AddMsg(types, MsgField(n), msg).value;
    RootTypeName(msg);
    ObjectGrows(types, root, "_", msg);
    ObjectGood(types, root, "_", msg);
    ObjectName(types, root, "_", msg);
    CollectionRefers(added.types, k, false);
    TxMemberGood(added.types, types["Tx"], Member(MsgField(n), k));
    GrowsExtends(types, added.types);
    TxExtends(added.types, u);
    ExtendsTransitive(types, added.types, u);
    ExtendsTransitive(BASE_TYPES, types, u);
    assert u["Tx"][..|BASE_TX|] == types["Tx"][..|BASE_TX|];
    forall i | 0 <= i < n + 1 ensures MsgMeans(u, payload, i) {
      if i < n {
        MsgMeansLater(types, u, payload, i);
      } else {
        NewMsgMeans(types, payload, n);
      }
    }
  }

  lemma TxExtends(t: Types, u: Types)
    requires "Tx" in u && u == t["Tx" := u["Tx"]]
    ensures Extends(t, u)
  {
  }

  lemma NewMsgMeans(types: Types, payload: map<string, Json>, n: nat)
    requires "Tx" in types && |types["Tx"]| == |BASE_TX| + n && MsgField(n) in payload
    requires AddMsg(types, MsgField(n), payload[MsgField(n)]).Some?
    ensures MsgMeans(AddMsg(types, MsgField(n), payload[MsgField(n)]).value, payload, n)
  {
    hide MsgField, MsgRootType, AddObject, Extends, Denotes, ObjectShape, IsTypeName, BASE_TX;
    var msg := payload[MsgField(n)];
    var root := MsgRootType(msg).value;
    var added := AddObject(types, root, "_", msg);
    var u := AddMsg(types, MsgField(n), msg).value;
    RootTypeName(msg);
    ObjectGrows(types, root, "_", msg);
    ObjectName(types, root, "_", msg);
    TxExtends(added.types, u);
    forall v | Extends(u, v) ensures Denotes(v, added.name.value, ObjectShape(msg)) {
      ExtendsTransitive(added.types, u, v);
      ObjectMeans(types, root, "_", msg, v);
    }
  }

  lemma {:induction false} MsgsDescribed(types: Types, payload: map<string, Json>, i: nat, n: nat)
    requires i <= n && Describes(types, payload, i) && AddMsgs(types, payload, i, n).Some?
    ensures Describes(AddMsgs(types, payload, i, n).value, payload, n)
    decreases n - i
  {
    hide Describes, AddMsg, MsgField;
    if i < n {
      MsgDescribed(types, payload, i);
      MsgsDescribed(AddMsg(types, MsgField(i), payload[MsgField(i)]).value, payload, i + 1, n);
    }
  }

  /** Every generated schema is closed and acyclic, leaves the base types alone, and gives
      each message a type that unfolds to exactly the message's shape. */
  lemma CreatedTypesDescribe(payload: map<string, Json>, n: nat)
    requires CreateTypes(payload, n).Some?
    ensures Describes(CreateTypes(payload, n).value, payload, n)
  {
    hide AddMsgs, Good, MsgMeans;
    BaseGood();
    assert BASE_TYPES["Tx"][..|BASE_TX|] == BASE_TX;
    MsgsDescribed(BASE_TYPES, payload, 0, n);
  }
}
