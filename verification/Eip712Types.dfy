/**
 Generation of EIP-712 types from JSON: a compiler from values to a type environment,
 which deduplicates structures under numbered names.
 */
module Eip712Types {
  import opened Options
  import opened Text

  /** A member of a structure type: field name and type name. */
  datatype Member = Member(name: string, kind: string)

  type Types = map<string, seq<Member>>

  const MAX_DUPLICATES: nat := 1000

  /* ----- type names ----- */

  /** Each part is capitalised piece by piece; a part `_` stands for the root. */
  function SanitizePieces(pieces: seq<string>): string {
    if pieces == [] then "" else Title(pieces[0]) + SanitizePieces(pieces[1..])
  }

  function SanitizePart(part: string): string {
    if part == "_" then "Type" else SanitizePieces(Split(part, '_'))
  }

  function SanitizeParts(parts: seq<string>): string {
    if parts == [] then "" else SanitizePart(parts[0]) + SanitizeParts(parts[1..])
  }

  function Sanitize(s: string): string {
    SanitizeParts(Split(s, '.'))
  }

  /** The inner loop: the pieces of one part. */
  method WritePart(part: string, before: string) returns (buf: string)
    requires part != "_"
    ensures buf == before + SanitizePart(part)
  {
    hide Split, Title;
    buf := before;
    var pieces := Split(part, '_');
    var k := 0;
    while k < |pieces|
      invariant 0 <= k <= |pieces|
      invariant buf + SanitizePieces(pieces[k..]) == before + SanitizePart(part)
    {
      assert pieces[k..][1..] == pieces[k + 1..];
      buf := buf + Title(pieces[k]);
      k := k + 1;
    }
  }

  method SanitizeTypedef(s: string) returns (buf: string)
    ensures buf == Sanitize(s)
  {
    hide Split, SanitizePart;
    buf := "";
    var parts := Split(s, '.');
    var i := 0;
    RootPart();
    while i < |parts|
      invariant 0 <= i <= |parts|
      invariant buf + SanitizeParts(parts[i..]) == Sanitize(s)
    {
      assert parts[i..][1..] == parts[i + 1..];
      ghost var before := buf;
      if parts[i] == "_" {
        buf := buf + "Type";
      } else {
        buf := WritePart(parts[i], buf);
      }
      assert before + SanitizeParts(parts[i..]) == buf + SanitizeParts(parts[i + 1..]);
      i := i + 1;
    }
  }

  lemma RootPart()
    ensures SanitizePart("_") == "Type"
  {
  }

  function TypeDefForPrefix(prefix: string, root: string): string {
    if prefix == "_" then root else Sanitize(prefix)
  }

  function PrefixForSubField(prefix: string, name: string): string {
    prefix + "." + name
  }

  function TypeDefWithIndex(typeDef: string, index: nat): string {
    typeDef + Digits(index)
  }

  /* ----- adding a structure under the first name that fits ----- */

  datatype Added = Added(types: Types, name: Option<string>)

  /** The first of the names `typeDef` with an index that is free or already stands for
      these members; none when the allowed indices are used up. */
  function Probe(types: Types, typeDef: string, members: seq<Member>, index: nat): Option<string>
    requires index < MAX_DUPLICATES
    decreases MAX_DUPLICATES - index
  {
    var key := TypeDefWithIndex(typeDef, index);
    if key !in types || types[key] == members then Some(key)
    else if index + 1 == MAX_DUPLICATES then None
    else Probe(types, typeDef, members, index + 1)
  }

  function AddMembers(types: Types, typeDef: string, members: seq<Member>): Added {
    match Probe(types, typeDef, members, 0)
    case None => Added(types, None)
    case Some(key) => Added(types[key := members], Some(key))
  }

  /* ----- walking the JSON tree ----- */

  /** What a field contributes: nothing, a type name, or the failure to find a free name. */
  datatype Kinded = Skip | Kind(name: string) | TooMany

  datatype Walked = Walked(types: Types, kinded: Kinded)

  datatype Gathered = Gathered(types: Types, members: Option<seq<Member>>)

  function Collection(name: string, isCollection: bool): string {
    if isCollection then name + "[]" else name
  }

  /** The type of a value that is not an array, for field `name` of the object at `prefix`. */
  ghost function WalkElement(
    types: Types, root: string, prefix: string, name: string, v: Json, isCollection: bool): Walked
    decreases v, 2
  {
    match v
    case Bool(_) => Walked(types, Kind(Collection("bool", isCollection)))
    case Number(_) => Walked(types, Kind(Collection("int64", isCollection)))
    case String(_) => Walked(types, Kind(Collection("string", isCollection)))
    case Object(_) =>
      (var added := AddObject(types, root, PrefixForSubField(prefix, name), v);
       match added.name
       case None => Walked(added.types, TooMany)
       case Some(key) => Walked(added.types, Kind(Collection(Sanitize(key), isCollection))))
    case _ => Walked(types, Skip)
  }

  /** The type of a field: the first element decides for an array, and an empty array is
      taken for one of strings. */
  ghost function WalkField(types: Types, root: string, prefix: string, name: string, v: Json): Walked
    decreases v, 3
  {
    if v.Array? then
      if v.items == [] then Walked(types, Kind("string[]"))
      else WalkElement(types, root, prefix, name, v.items[0], true)
    else WalkElement(types, root, prefix, name, v, false)
  }

  ghost function WalkFields(types: Types, root: string, prefix: string, j: Json, names: seq<string>): Gathered
    requires j.Object? && forall n :: n in names ==> n in j.fields
    decreases j, 0, |names|
  {
    if names == [] then Gathered(types, Some([]))
    else
      var w := WalkField(types, root, prefix, names[0], j.fields[names[0]]);
      if w.kinded.TooMany? then Gathered(w.types, None)
      else
        var rest := WalkFields(w.types, root, prefix, j, names[1..]);
        if rest.members.None? then rest
        else if w.kinded.Skip? then rest
        else Gathered(rest.types, Some([Member(names[0], w.kinded.name)] + rest.members.value))
  }

  /** Adds the type of an object and of all objects in it; the key of its own type. */
  ghost function AddObject(types: Types, root: string, prefix: string, j: Json): Added
    requires j.Object?
    decreases j, 1
  {
    var g := WalkFields(types, root, prefix, j, SortedKeys(j.fields.Keys));
    if g.members.None? then Added(g.types, None)
    else AddMembers(g.types, TypeDefForPrefix(prefix, root), g.members.value)
  }

  /* ----- the whole transaction ----- */

  function LastToken(s: string): string {
    var tokens := Split(s, '/');
    tokens[|tokens| - 1]
  }

  /** The root type of a message, from its `type` field. */
  function MsgRootType(msg: Json): Option<string>
    requires msg.Object?
  {
    if "type" in msg.fields && msg.fields["type"].String? && msg.fields["type"].s != ""
    then Some("Type" + LastToken(msg.fields["type"].s))
    else None
  }

  const BASE_TX: seq<Member> := [
    Member("account_number", "string"), Member("chain_id", "string"), Member("fee", "Fee"),
    Member("memo", "string"), Member("sequence", "string")]

  const BASE_DOMAIN: seq<Member> := [
    Member("name", "string"), Member("version", "string"), Member("chainId", "uint256"),
    Member("verifyingContract", "string"), Member("salt", "string")]

  const BASE_FEE: seq<Member> := [Member("amount", "Coin[]"), Member("gas", "string")]

  const BASE_COIN: seq<Member> := [Member("denom", "string"), Member("amount", "string")]

  const BASE_TYPES: Types := map[
    "EIP712Domain" := BASE_DOMAIN, "Tx" := BASE_TX, "Fee" := BASE_FEE, "Coin" := BASE_COIN]

  function MsgField(i: nat): string {
    "msg" + Digits(i)
  }

  /** Adds the types of one message and its member of the transaction type. */
  ghost function AddMsg(types: Types, field: string, msg: Json): Option<Types> {
    if !msg.Object? || MsgRootType(msg).None? then None
    else
      var added := AddObject(types, MsgRootType(msg).value, "_", msg);
      if added.name.None? then None
      else
        var tx := if "Tx" in added.types then added.types["Tx"] else [];
        Some(added.types["Tx" := tx + [Member(field, added.name.value)]])
  }

  /** Types after messages `i` to `n - 1` of the payload. */
  ghost function AddMsgs(types: Types, payload: map<string, Json>, i: nat, n: nat): Option<Types>
    requires i <= n
    decreases n - i
  {
    if i == n then Some(types)
    else if MsgField(i) !in payload then None
    else
      match AddMsg(types, MsgField(i), payload[MsgField(i)])
      case None => None
      case Some(types') => AddMsgs(types', payload, i + 1, n)
  }

  ghost function CreateTypes(payload: map<string, Json>, n: nat): Option<Types> {
    AddMsgs(BASE_TYPES, payload, 0, n)
  }

  /* ----- the generator as the source runs it ----- */

  class Schema {
    var types: Types

    constructor ()
      ensures types == BASE_TYPES
    {
      types := BASE_TYPES;
    }

    method AddTypesToRoot(typeDef: string, members: seq<Member>) returns (r: Option<string>)
      modifies this
      ensures Added(types, r) == AddMembers(old(types), typeDef, members)
    {
      var index := 0;
      var key := "";
      while true
        invariant index < MAX_DUPLICATES && types == old(types)
        invariant Probe(old(types), typeDef, members, 0) == Probe(old(types), typeDef, members, index)
        decreases MAX_DUPLICATES - index
      {
        key := TypeDefWithIndex(typeDef, index);
        if key in types && types[key] == members {
          assert types[key := members] == types;
          return Some(key);
        }
        if key !in types {
          break;
        }
        index := index + 1;
        if index == MAX_DUPLICATES {
          return None;
        }
      }
      types := types[key := members];
      return Some(key);
    }

    /** One field: arrays are unwrapped, primitive types are known, objects are added. */
    method AddField(root: string, prefix: string, name: string, v: Json) returns (k: Kinded)
      modifies this
      ensures Walked(types, k) == WalkField(old(types), root, prefix, name, v)
      decreases v, 1
    {
      hide AddObject, Sanitize;
      var field, isCollection := v, false;
      if v.Array? {
        if v.items == [] {
          return Kind("string[]");
        }
        field, isCollection := v.items[0], true;
      }
      match field {
        case Bool(_) => return Kind(Collection("bool", isCollection));
        case Number(_) => return Kind(Collection("int64", isCollection));
        case String(_) => return Kind(Collection("string", isCollection));
        case Object(_) =>
          var key := RecursivelyAddTypes(root, PrefixForSubField(prefix, name), field);
          if key.None? {
            return TooMany;
          }
          var typeDef := SanitizeTypedef(key.value);
          return Kind(Collection(typeDef, isCollection));
        case _ => return Skip;
      }
    }

    /** The recursive walk: fields in sorted order, members gathered in a growing list. */
    method RecursivelyAddTypes(root: string, prefix: string, j: Json) returns (r: Option<string>)
      requires j.Object?
      modifies this
      ensures Added(types, r) == AddObject(old(types), root, prefix, j)
      decreases j, 0
    {
      hide WalkField, AddMembers, SortedKeys, Sanitize;
      var names := SortedJsonKeys(j.fields);
      var members: seq<Member> := [];
      var i := 0;
      ghost var all := WalkFields(types, root, prefix, j, names);
      assert names[0..] == names;
      InFrontOfNothing(all);
      while i < |names|
        invariant 0 <= i <= |names|
        invariant all == InFront(members, WalkFields(types, root, prefix, j, names[i..]))
      {
        ghost var before := types;
        var kinded := AddField(root, prefix, names[i], j.fields[names[i]]);
        assert names[i..][1..] == names[i + 1..];
        if kinded.TooMany? {
          return None;
        }
        if kinded.Kind? {
          var member := Member(names[i], kinded.name);
          InFrontOfBoth(members, member, WalkFields(types, root, prefix, j, names[i + 1..]));
          members := members + [member];
        }
        i := i + 1;
      }
      assert members + [] == members;
      r := AddTypesToRoot(TypeDefForPrefix(prefix, root), members);
    }
  }

  /** Members in front of those gathered later. */
  ghost function InFront(members: seq<Member>, g: Gathered): Gathered {
    if g.members.None? then g else Gathered(g.types, Some(members + g.members.value))
  }

  lemma InFrontOfNothing(g: Gathered)
    ensures InFront([], g) == g
  {
    if g.members.Some? {
      assert [] + g.members.value == g.members.value;
    }
  }

  lemma InFrontOfBoth(members: seq<Member>, member: Member, g: Gathered)
    ensures InFront(members + [member], g) == InFront(members, InFront([member], g))
  {
    if g.members.Some? {
      assert members + [member] + g.members.value == members + ([member] + g.members.value);
    }
  }

  /** The loop over the messages of a transaction. */
  method CreateEip712Types(payload: map<string, Json>, n: nat) returns (r: Option<Types>)
    ensures r == CreateTypes(payload, n)
  {
    hide AddObject, MsgRootType, MsgField;
    var schema := new Schema();
    var i := 0;
    while i < n
      invariant 0 <= i <= n
      invariant CreateTypes(payload, n) == AddMsgs(schema.types, payload, i, n)
    {
      var field := MsgField(i);
      if field !in payload || !payload[field].Object? {
        return None;
      }
      var msg := payload[field];
      var root := MsgRootType(msg);
      if root.None? {
        return None;
      }
      var key := schema.RecursivelyAddTypes(root.value, "_", msg);
      if key.None? {
        return None;
      }
      var tx := if "Tx" in schema.types then schema.types["Tx"] else [];
      schema.types := schema.types["Tx" := tx + [Member(field, key.value)]];
      i := i + 1;
    }
    return Some(schema.types);
  }
}
