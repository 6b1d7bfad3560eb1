/** The names of the generated EIP-712 types: which name every object of a message gets. */
module Eip712Names {
  import opened Options
  import opened Text
  import opened Eip712Types
  import opened Eip712Meaning
  import opened Eip712Schema

  /* ----- field names in camel case ----- */

  /** ASCII capitals lie 32 below the small letters. */
  function Capital(c: char): char {
    if 'a' <= c <= 'z' then (c as int - 32) as char else c
  }

  /** A name read in one pass: underscores go, and what follows one or begins the name is
      written with its capital, digits being passed over. */
  function Camel(s: string, begins: bool): string
    decreases |s|
  {
    if s == [] then ""
    else if s[0] == '_' then Camel(s[1..], true)
    else if begins && !IsDigit(s[0]) then [Capital(s[0])] + Camel(s[1..], false)
    else [s[0]] + Camel(s[1..], begins)
  }

  /** An underscore separates. */
  lemma {:induction false} CamelConcat(a: string, b: string, begins: bool)
    ensures Camel(a + "_" + b, begins) == Camel(a, begins) + Camel(b, true)
    decreases |a|
  {
    var s := a + "_" + b;
    if a == [] {
      assert s[1..] == b;
    } else {
      assert s[1..] == a[1..] + "_" + b && s[0] == a[0];
      CamelConcat(a[1..], b, if a[0] == '_' then true else begins && IsDigit(a[0]));
    }
  }

  /** In a piece that begins with a letter, only that letter changes. */
  lemma CamelPiece(c: char, s: string)
    requires c != '_' && !IsDigit(c) && '_' !in s
    ensures Camel([c] + s, true) == [Capital(c)] + s
  {
    assert ([c] + s)[1..] == s;
    CamelInside(s);
  }

  lemma {:induction false} CamelInside(s: string)
    requires '_' !in s
    ensures Camel(s, false) == s
  {
    if s != [] {
      CamelInside(s[1..]);
      assert s == [s[0]] + s[1..];
    }
  }

  lemma {:induction false} RestIsCamel(s: string)
    ensures var pieces := Split(s, '_'); pieces[0] + SanitizePieces(pieces[1..]) == Camel(s, false)
    decreases |s|, 0
  {
    hide Title;
    if s != [] {
      var rest := Split(s[1..], '_');
      if s[0] == '_' {
        PiecesAreCamel(s[1..]);
        assert ([""] + rest)[1..] == rest && "" + SanitizePieces(rest) == SanitizePieces(rest);
      } else {
        RestIsCamel(s[1..]);
        var pieces := [[s[0]] + rest[0]] + rest[1..];
        assert pieces[0] + SanitizePieces(pieces[1..]) == [s[0]] + (rest[0] + SanitizePieces(rest[1..]));
      }
    }
  }

  lemma PiecesCons(piece: string, pieces: seq<string>)
    ensures SanitizePieces([piece] + pieces) == Title(piece) + SanitizePieces(pieces)
  {
    hide Title;
    assert ([piece] + pieces)[1..] == pieces;
  }

  lemma TitleHead(c: char, s: string)
    ensures Title([c] + s) == if IsDigit(c) then [c] + Title(s) else [Upper(c)] + s
    ensures Title("") == ""
  {
    assert ([c] + s)[1..] == s;
  }

  lemma EmptyPiece(rest: seq<string>)
    ensures SanitizePieces([""] + rest) == SanitizePieces(rest)
  {
    hide Title, SanitizePieces;
    PiecesCons("", rest);
    TitleHead('_', "");
  }

  lemma Regrouped(a: string, b: string, c: string)
    ensures a + b + c == a + (b + c)
  {
  }

  lemma FirstPiece(c: char, rest: seq<string>)
    requires rest != []
    ensures SanitizePieces([[c] + rest[0]] + rest[1..]) ==
            if IsDigit(c) then [c] + SanitizePieces(rest) else [Upper(c)] + (rest[0] + SanitizePieces(rest[1..]))
  {
    hide Title, SanitizePieces, Upper;
    var first, more := rest[0], SanitizePieces(rest[1..]);
    PiecesCons([c] + first, rest[1..]);
    TitleHead(c, first);
    if IsDigit(c) {
      PiecesCons(first, rest[1..]);
      assert [first] + rest[1..] == rest;
      Regrouped([c], Title(first), more);
    } else {
      Regrouped([Upper(c)], first, more);
    }
  }

  lemma {:induction false} PiecesAreCamel(s: string)
    ensures SanitizePieces(Split(s, '_')) == Camel(s, true)
    decreases |s|, 1
  {
    hide SanitizePieces;
    if s == [] {
      assert SanitizePieces([""]) == "" by { NoPieces(); }
    } else {
      FirstPiece(s[0], Split(s[1..], '_'));
      EmptyPiece(Split(s[1..], '_'));
      PiecesAreCamel(s[1..]);
      RestIsCamel(s[1..]);
    }
  }

  lemma NoPieces()
    ensures SanitizePieces([""]) == ""
  {
    assert SanitizePieces([""]) == Title("") + SanitizePieces([]);
  }

  /* ----- the name of a path ----- */

  /** What a field contributes to the names below it.  Dots inside a name separate like those
      between names, and a part that is a single underscore reads like the root. */
  function PartName(part: string): string {
    if part == "_" then "Type" else Camel(part, true)
  }

  function PartNames(parts: seq<string>): string {
    if parts == [] then "" else PartName(parts[0]) + PartNames(parts[1..])
  }

  function FieldName(name: string): string {
    PartNames(Split(name, '.'))
  }

  lemma PlainFieldName(name: string)
    requires '.' !in name && name != "_"
    ensures FieldName(name) == Camel(name, true)
  {
    SplitNone(name, '.');
    assert PartNames([name]) == PartName(name) + PartNames([]);
  }

  /** Names of the fields from the message down to an object. */
  type Path = seq<string>

  /** The name of the types at a path, before its index. */
  function TypeName(root: string, path: Path): string {
    if path == [] then root else "Type" + FieldNames(path)
  }

  function FieldNames(path: Path): string {
    if path == [] then "" else FieldNames(path[..|path| - 1]) + FieldName(path[|path| - 1])
  }

  function PrefixOf(path: Path): string {
    if path == [] then "_" else PrefixForSubField(PrefixOf(path[..|path| - 1]), path[|path| - 1])
  }

  lemma {:induction false} PartsAreNames(parts: seq<string>)
    ensures SanitizeParts(parts) == PartNames(parts)
  {
    hide Split, SanitizePieces, Camel;
    if parts != [] {
      PiecesAreCamel(parts[0]);
      PartsAreNames(parts[1..]);
    }
  }

  lemma {:induction false} PrefixName(path: Path)
    ensures Sanitize(PrefixOf(path)) == "Type" + FieldNames(path)
    ensures IsPrefix(PrefixOf(path)) && (PrefixOf(path) == "_" <==> path == [])
  {
    hide Split, SanitizePart, PartNames;
    if path == [] {
      SplitNone("_", '.');
      RootPart();
      assert SanitizeParts(["_"]) == SanitizePart("_") + SanitizeParts([]);
    } else {
      var init, name := path[..|path| - 1], path[|path| - 1];
      PrefixName(init);
      SubPrefix(PrefixOf(init), name);
      var prefix := PrefixOf(init);
      SplitConcat(prefix, '.', name);
      PartsConcat(Split(prefix, '.'), Split(name, '.'));
      PartsAreNames(Split(name, '.'));
      assert prefix + ['.'] + name == PrefixForSubField(prefix, name);
      assert "Type" + (FieldNames(init) + FieldName(name)) == "Type" + FieldNames(init) + FieldName(name);
    }
  }

  lemma TypeDefIsName(root: string, path: Path)
    ensures TypeDefForPrefix(PrefixOf(path), root) == TypeName(root, path)
  {
    hide Sanitize, FieldNames, PrefixOf;
    PrefixName(path);
  }

  /* ----- the index ----- */

  /** `k` is the name at the path with the least index whose entry is the structure of `k`:
      every lower index stands for another structure. */
  ghost predicate IsNumbered(u: Types, k: string, name: string) {
    k in u && exists n: nat :: k == name + Digits(n) && n < 1000 && TakenBelow(u, k, name, n)
  }

  ghost predicate TakenBelow(u: Types, k: string, name: string, n: nat)
    requires k in u
  {
    forall m: nat :: m < n ==> name + Digits(m) in u && u[name + Digits(m)] != u[k]
  }

  lemma {:induction false} ProbeNumbers(types: Types, name: string, members: seq<Member>, index: nat)
    returns (n: nat)
    requires index < MAX_DUPLICATES && Probe(types, name, members, index).Some?
    ensures index <= n < 1000 && Probe(types, name, members, index) == Some(name + Digits(n))
    ensures forall m: nat :: index <= m < n ==>
              name + Digits(m) in types && types[name + Digits(m)] != members
    decreases MAX_DUPLICATES - index
  {
    hide Digits;
    var key := TypeDefWithIndex(name, index);
    if key !in types || types[key] == members {
      n := index;
    } else {
      n := ProbeNumbers(types, name, members, index + 1);
    }
  }

  lemma AddMembersNumbered(types: Types, name: string, members: seq<Member>)
    requires AddMembers(types, name, members).name.Some?
    ensures var a := AddMembers(types, name, members); IsNumbered(a.types, a.name.value, name)
  {
    hide Probe, Digits;
    var n := ProbeNumbers(types, name, members, 0);
    var a := AddMembers(types, name, members);
    forall m: nat | m < n ensures name + Digits(m) != name + Digits(n) {
      assert (name + Digits(m))[|name|..] == Digits(m) && (name + Digits(n))[|name|..] == Digits(n);
      DigitsInjective(m, n);
    }
    assert TakenBelow(a.types, a.name.value, name, n);
  }

  lemma NumberedLater(t: Types, u: Types, k: string, name: string)
    requires IsNumbered(t, k, name) && Extends(t, u) && StartsWithType(name)
    ensures IsNumbered(u, k, name)
  {
    hide Digits;
    var n: nat :| k == name + Digits(n) && n < 1000 && TakenBelow(t, k, name, n);
    forall m: nat ensures name + Digits(m) != "Tx" {
      assert (name + Digits(m))[..4] == name[..4];
    }
    assert TakenBelow(u, k, name, n);
  }

  /* ----- every object of a message ----- */

  /** The structure `k` of the object `j` at a path has the name of the path, and so have the
      structures of all objects in it. */
  ghost predicate ObjectNamed(u: Types, k: string, root: string, path: Path, j: Json)
    requires j.Object?
    decreases j, 1
  {
    && IsNumbered(u, k, TypeName(root, path))
    && forall i :: 0 <= i < |u[k]| ==> MemberNamed(u, u[k][i], root, path, j)
  }

  ghost predicate MemberNamed(u: Types, m: Member, root: string, path: Path, j: Json)
    requires j.Object?
    decreases j, 0
  {
    && m.name in j.fields
    && var v := j.fields[m.name];
       && (v.Object? ==> ObjectNamed(u, m.kind, root, path + [m.name], v))
       && (v.Array? && v.items != [] && v.items[0].Object? ==>
             && |m.kind| >= 2 && m.kind[|m.kind| - 2..] == "[]"
             && ObjectNamed(u, m.kind[..|m.kind| - 2], root, path + [m.name], v.items[0]))
  }

  lemma {:induction false} ElementNamed(types: Types, root: string, path: Path, name: string, v: Json, c: bool, u: Types)
    requires v.Object? && StartsWithType(root)
    requires var w := WalkElement(types, root, PrefixOf(path), name, v, c); !w.kinded.TooMany? && Extends(w.types, u)
    ensures var w := WalkElement(types, root, PrefixOf(path), name, v, c);
            w.kinded.Kind? && exists k :: w.kinded.name == Collection(k, c) && ObjectNamed(u, k, root, path + [name], v)
    decreases v, 2
  {
    hide AddObject, Sanitize, ObjectNamed, Extends, IsPrefix;
    var sub := path + [name];
    assert sub[..|sub| - 1] == path;
    PrefixName(sub);
    ObjectIsNamed(types, root, sub, v, u);
    ObjectName(types, root, PrefixOf(sub), v);
  }

  lemma {:induction false} FieldNamed(types: Types, root: string, path: Path, j: Json, name: string, u: Types)
    requires j.Object? && name in j.fields && StartsWithType(root)
    requires var w := WalkField(types, root, PrefixOf(path), name, j.fields[name]);
             w.kinded.Kind? && Extends(w.types, u)
    ensures var w := WalkField(types, root, PrefixOf(path), name, j.fields[name]);
            MemberNamed(u, Member(name, w.kinded.name), root, path, j)
    decreases j.fields[name], 3
  {
    hide WalkElement, ObjectNamed, Extends, PrefixOf;
    var v := j.fields[name];
    if v.Object? {
      ElementNamed(types, root, path, name, v, false, u);
    } else if v.Array? && v.items != [] && v.items[0].Object? {
      ElementNamed(types, root, path, name, v.items[0], true, u);
      var kind := WalkField(types, root, PrefixOf(path), name, v).kinded.name;
      var k :| kind == Collection(k, true) && ObjectNamed(u, k, root, path + [name], v.items[0]);
      assert kind[|kind| - 2..] == "[]" && kind[..|kind| - 2] == k;
    }
  }

  ghost predicate MembersNamed(u: Types, members: seq<Member>, root: string, path: Path, j: Json)
    requires j.Object?
  {
    forall i :: 0 <= i < |members| ==> MemberNamed(u, members[i], root, path, j)
  }

  lemma {:induction false} FieldsNamed(types: Types, root: string, path: Path, j: Json, names: seq<string>, u: Types)
    requires j.Object? && StartsWithType(root) && forall n :: n in names ==> n in j.fields
    requires var g := WalkFields(types, root, PrefixOf(path), j, names); g.members.Some? && Extends(g.types, u)
    ensures MembersNamed(u, WalkFields(types, root, PrefixOf(path), j, names).members.value, root, path, j)
    decreases j, 0, |names|
  {
    hide WalkField, MemberNamed, Extends, PrefixOf;
    if names != [] {
      var prefix := PrefixOf(path);
      var w := WalkField(types, root, prefix, names[0], j.fields[names[0]]);
      var rest := WalkFields(w.types, root, prefix, j, names[1..]);
      FieldsGrow(w.types, root, prefix, j, names[1..]);
      GrowsExtends(w.types, rest.types);
      ExtendsTransitive(w.types, rest.types, u);
      FieldsNamed(w.types, root, path, j, names[1..], u);
      if w.kinded.Kind? {
        FieldNamed(types, root, path, j, names[0], u);
      }
    }
  }

  /** In the resulting schema and every later one, an object and all objects in it have the
      names of their paths. */
  lemma {:induction false} ObjectIsNamed(types: Types, root: string, path: Path, j: Json, u: Types)
    requires j.Object? && StartsWithType(root)
    requires AddObject(types, root, PrefixOf(path), j).name.Some?
    requires Extends(AddObject(types, root, PrefixOf(path), j).types, u)
    ensures ObjectNamed(u, AddObject(types, root, PrefixOf(path), j).name.value, root, path, j)
    decreases j, 1
  {
    hide WalkFields, SortedKeys, Probe, Extends, IsNumbered, MemberNamed, PrefixOf, TypeDefForPrefix;
    var prefix := PrefixOf(path);
    var names := SortedKeys(j.fields.Keys);
    var g := WalkFields(types, root, prefix, j, names);
    var a := AddObject(types, root, prefix, j);
    var name := TypeName(root, path);
    PrefixName(path);
    TypeDefIsName(root, path);
    AddMembersGrows(g.types, name, g.members.value);
    GrowsExtends(g.types, a.types);
    ExtendsTransitive(g.types, a.types, u);
    FieldsNamed(types, root, path, j, names, u);
    AddMembersNumbered(g.types, name, g.members.value);
    NameBegins(root, path);
    NumberedLater(a.types, u, a.name.value, name);
    ObjectName(types, root, prefix, j);
    NameKept(a.types, u, a.name.value);
  }

  lemma NameBegins(root: string, path: Path)
    requires StartsWithType(root)
    ensures StartsWithType(TypeName(root, path))
  {
    hide FieldNames;
  }

  /* ----- whole transactions ----- */

  /** The structures of message `i` have the names of their paths, now and in every later
      schema; the message itself is named after its type. */
  ghost predicate MsgNamed(types: Types, payload: map<string, Json>, i: nat) {
    && MsgField(i) in payload && payload[MsgField(i)].Object? && MsgRootType(payload[MsgField(i)]).Some?
    && "Tx" in types && 5 + i < |types["Tx"]|
    && forall u :: Extends(types, u) ==>
         ObjectNamed(u, types["Tx"][5 + i].kind, MsgRootType(payload[MsgField(i)]).value, [], payload[MsgField(i)])
  }

  lemma MsgNamedLater(types: Types, u: Types, payload: map<string, Json>, i: nat)
    requires MsgNamed(types, payload, i) && Extends(types, u)
    requires "Tx" in u && types["Tx"] <= u["Tx"]
    ensures MsgNamed(u, payload, i)
  {
    hide ObjectNamed, MsgRootType, MsgField, Extends;
    assert u["Tx"][5 + i] == types["Tx"][5 + i];
    forall v | Extends(u, v) ensures Extends(types, v) {
      ExtendsTransitive(types, u, v);
    }
  }

  lemma NewMsgNamed(types: Types, payload: map<string, Json>, n: nat)
    requires "Tx" in types && |types["Tx"]| == 5 + n && MsgField(n) in payload
    requires AddMsg(types, MsgField(n), payload[MsgField(n)]).Some?
    ensures MsgNamed(AddMsg(types, MsgField(n), payload[MsgField(n)]).value, payload, n)
    ensures var u := AddMsg(types, MsgField(n), payload[MsgField(n)]).value;
            Extends(types, u) && "Tx" in u && types["Tx"] <= u["Tx"]
  {
    hide MsgField, MsgRootType, AddObject, Extends, ObjectNamed;
    var msg := payload[MsgField(n)];
    var root := MsgRootType(msg).value;
    var added := AddObject(types, root, "_", msg);
    var u := AddMsg(types, MsgField(n), msg).value;
    RootTypeName(msg);
    ObjectGrows(types, root, "_", msg);
    GrowsExtends(types, added.types);
    TxExtends(added.types, u);
    ExtendsTransitive(types, added.types, u);
    forall v | Extends(u, v) ensures ObjectNamed(v, added.name.value, root, [], msg) {
      ExtendsTransitive(added.types, u, v);
      assert PrefixOf([]) == "_";
      ObjectIsNamed(types, root, [], msg, v);
    }
  }

  lemma {:induction false} MsgsNamed(types: Types, payload: map<string, Json>, i: nat, n: nat)
    requires i <= n && AddMsgs(types, payload, i, n).Some?
    requires Describes(types, payload, i) && forall j :: 0 <= j < i ==> MsgNamed(types, payload, j)
    ensures forall j :: 0 <= j < n ==> MsgNamed(AddMsgs(types, payload, i, n).value, payload, j)
    decreases n - i
  {
    hide AddMsg, MsgField, MsgNamed, Extends, MsgMeans, Good;
    if i < n {
      MsgDescribed(types, payload, i);
      NewMsgNamed(types, payload, i);
      var u := AddMsg(types, MsgField(i), payload[MsgField(i)]).value;
      forall j | 0 <= j < i + 1 ensures MsgNamed(u, payload, j) {
        if j < i {
          MsgNamedLater(types, u, payload, j);
        }
      }
      MsgsNamed(u, payload, i + 1, n);
    }
  }

  /** In every generated schema every object of every message has the name of its path. */
  lemma CreatedTypesNamed(payload: map<string, Json>, n: nat, i: nat)
    requires CreateTypes(payload, n).Some? && i < n
    ensures var types := CreateTypes(payload, n).value;
            && MsgField(i) in payload && payload[MsgField(i)].Object? && MsgRootType(payload[MsgField(i)]).Some?
            && "Tx" in types && 5 + i < |types["Tx"]| && types["Tx"][5 + i].name == "msg" + Digits(i)
            && ObjectNamed(types, types["Tx"][5 + i].kind, MsgRootType(payload[MsgField(i)]).value, [],
                           payload[MsgField(i)])
  {
    hide AddMsgs, Good, Extends, ObjectNamed, MsgRootType, Denotes;
    BaseGood();
    assert BASE_TYPES["Tx"][..5] == BASE_TX && Extends(BASE_TYPES, BASE_TYPES) by { SelfExtends(BASE_TYPES); }
    MsgsNamed(BASE_TYPES, payload, 0, n);
    CreatedTypesDescribe(payload, n);
    var types := CreateTypes(payload, n).value;
    assert MsgNamed(types, payload, i) && MsgMeans(types, payload, i);
    SelfExtends(types);
  }

  lemma SelfExtends(types: Types)
    ensures Extends(types, types)
  {
  }

  /** The base types of every schema, spelled out. */
  lemma BaseTypesKept(payload: map<string, Json>, n: nat)
    requires CreateTypes(payload, n).Some?
    ensures var types := CreateTypes(payload, n).value;
            && {"Tx", "EIP712Domain", "Fee", "Coin"} <= types.Keys && |types["Tx"]| == 5 + n
            && types["Tx"][..5] == [Member("account_number", "string"), Member("chain_id", "string"),
                                    Member("fee", "Fee"), Member("memo", "string"), Member("sequence", "string")]
            && types["EIP712Domain"] == [Member("name", "string"), Member("version", "string"),
                                         Member("chainId", "uint256"), Member("verifyingContract", "string"),
                                         Member("salt", "string")]
            && types["Fee"] == [Member("amount", "Coin[]"), Member("gas", "string")]
            && types["Coin"] == [Member("denom", "string"), Member("amount", "string")]
  {
    hide CreateTypes, Good, MsgMeans;
    CreatedTypesDescribe(payload, n);
    assert forall k :: k in BASE_TYPES && k != "Tx" ==>
             k in CreateTypes(payload, n).value && CreateTypes(payload, n).value[k] == BASE_TYPES[k];
    assert "EIP712Domain" in BASE_TYPES && "Fee" in BASE_TYPES && "Coin" in BASE_TYPES;
  }

  /** A message without a type, or whose type is no string or empty, has no root type. */
  lemma RootTypeExactly(msg: Json)
    requires msg.Object?
    ensures MsgRootType(msg).None? <==>
            "type" !in msg.fields || !msg.fields["type"].String? || msg.fields["type"] == String("")
  {
  }

  /** Generation fails on a message that is missing, no object or without a type. */
  lemma {:induction false} CreationFails(types: Types, payload: map<string, Json>, i: nat, k: nat, n: nat)
    requires i <= k < n
    requires MsgField(k) !in payload || !payload[MsgField(k)].Object? || MsgRootType(payload[MsgField(k)]).None?
    ensures AddMsgs(types, payload, i, n).None?
    decreases k - i
  {
    hide MsgField, MsgRootType, AddObject;
    if i < k && AddMsgs(types, payload, i, n).Some? {
      CreationFails(AddMsg(types, MsgField(i), payload[MsgField(i)]).value, payload, i + 1, k, n);
    }
  }

  /** The example the source documents. */
  lemma DocumentedName()
    ensures Sanitize("_.foo_bar.baz") == "TypeFooBarBaz"
  {
    hide Sanitize, FieldName, Camel;
    var path := ["foo_bar", "baz"];
    assert path[..1] == ["foo_bar"] && path[..1][..0] == [];
    PrefixName(path);
    PlainFieldName("foo_bar");
    PlainFieldName("baz");
    CamelWords();
    assert PrefixOf(["foo_bar"]) == "_.foo_bar";
    assert PrefixOf(path) == "_.foo_bar.baz";
    assert FieldNames(["foo_bar"]) == "FooBar";
    assert FieldNames(path) == "FooBarBaz";
  }

  lemma CamelWords()
    ensures Camel("foo_bar", true) == "FooBar" && Camel("baz", true) == "Baz"
  {
    hide Camel;
    CamelConcat("foo", "bar", true);
    assert "foo" + "_" + "bar" == "foo_bar";
    CamelPiece('f', "oo");
    CamelPiece('b', "ar");
    CamelPiece('b', "az");
    assert "foo" == ['f'] + "oo" && "bar" == ['b'] + "ar" && "baz" == ['b'] + "az";
    assert "Foo" == ['F'] + "oo" && "Bar" == ['B'] + "ar" && "Baz" == ['B'] + "az";
  }
}
