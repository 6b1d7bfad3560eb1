/** What the generated EIP-712 types mean, and that later messages leave them alone. */
module Eip712Meaning {
  import opened Options
  import opened Text
  import opened Eip712Types

  /* ----- type environments only grow ----- */

  /** Every type but the transaction's, which gains members, is still there unchanged. */
  ghost predicate Extends(t: Types, u: Types) {
    forall k :: k in t && k != "Tx" ==> k in u && u[k] == t[k]
  }

  /** Nothing at all is changed or lost. */
  ghost predicate Grows(t: Types, u: Types) {
    forall k :: k in t ==> k in u && u[k] == t[k]
  }

  lemma ExtendsTransitive(t: Types, u: Types, v: Types)
    requires Extends(t, u) && Extends(u, v)
    ensures Extends(t, v)
  {
  }

  lemma GrowsExtends(t: Types, u: Types)
    requires Grows(t, u)
    ensures Extends(t, u)
  {
  }

  lemma {:induction false} ProbeFits(types: Types, typeDef: string, members: seq<Member>, index: nat)
    requires index < MAX_DUPLICATES && Probe(types, typeDef, members, index).Some?
    ensures var key := Probe(types, typeDef, members, index).value;
            && (key !in types || types[key] == members)
            && exists n :: key == TypeDefWithIndex(typeDef, n)
    decreases MAX_DUPLICATES - index
  {
    hide TypeDefWithIndex;
    var key := TypeDefWithIndex(typeDef, index);
    if key in types && types[key] != members {
      ProbeFits(types, typeDef, members, index + 1);
    }
  }

  lemma AddMembersGrows(types: Types, typeDef: string, members: seq<Member>)
    ensures Grows(types, AddMembers(types, typeDef, members).types)
  {
    hide Probe, TypeDefWithIndex;
    if Probe(types, typeDef, members, 0).Some? {
      ProbeFits(types, typeDef, members, 0);
    }
  }

  lemma {:induction false} ElementGrows(
    types: Types, root: string, prefix: string, name: string, v: Json, c: bool)
    ensures Grows(types, WalkElement(types, root, prefix, name, v, c).types)
    decreases v, 2
  {
    hide AddObject;
    if v.Object? {
      ObjectGrows(types, root, PrefixForSubField(prefix, name), v);
    }
  }

  lemma {:induction false} FieldsGrow(types: Types, root: string, prefix: string, j: Json, names: seq<string>)
    requires j.Object? && forall n :: n in names ==> n in j.fields
    ensures Grows(types, WalkFields(types, root, prefix, j, names).types)
    decreases j, 0, |names|
  {
    hide WalkElement;
    if names != [] {
      var v := j.fields[names[0]];
      if v.Array? {
        if v.items != [] { ElementGrows(types, root, prefix, names[0], v.items[0], true); }
      } else {
        ElementGrows(types, root, prefix, names[0], v, false);
      }
      FieldsGrow(WalkField(types, root, prefix, names[0], v).types, root, prefix, j, names[1..]);
    }
  }

  /** Adding an object adds types and changes none, whether it succeeds or fails. */
  lemma {:induction false} ObjectGrows(types: Types, root: string, prefix: string, j: Json)
    requires j.Object?
    ensures Grows(types, AddObject(types, root, prefix, j).types)
    decreases j, 1
  {
    hide WalkFields, AddMembers, SortedKeys;
    var g := WalkFields(types, root, prefix, j, SortedKeys(j.fields.Keys));
    FieldsGrow(types, root, prefix, j, SortedKeys(j.fields.Keys));
    if g.members.Some? {
      AddMembersGrows(g.types, TypeDefForPrefix(prefix, root), g.members.value);
    }
  }

  /* ----- names ----- */

  /** A generated name begins with `Type` and ends in an index; no primitive type, array type
      or base type looks like that. */
  predicate IsTypeName(k: string) {
    |k| > 4 && k[..4] == "Type" && IsDigit(k[|k| - 1])
  }

  predicate StartsWithType(s: string) {
    |s| >= 4 && s[..4] == "Type"
  }

  predicate IsPrefix(prefix: string) {
    prefix == "_" || (|prefix| >= 2 && prefix[..2] == "_.")
  }

  predicate Clean(s: string) {
    '.' !in s && '_' !in s
  }

  lemma {:induction false} TitleClean(s: string)
    requires Clean(s)
    ensures Clean(Title(s))
  {
    if s != [] && IsDigit(s[0]) {
      TitleClean(s[1..]);
    }
  }

  lemma {:induction false} PiecesClean(pieces: seq<string>)
    requires forall i :: 0 <= i < |pieces| ==> Clean(pieces[i])
    ensures Clean(SanitizePieces(pieces))
  {
    hide Title;
    if pieces != [] {
      TitleClean(pieces[0]);
      PiecesClean(pieces[1..]);
    }
  }

  lemma {:induction false} PartsClean(parts: seq<string>)
    requires forall i :: 0 <= i < |parts| ==> '.' !in parts[i]
    ensures Clean(SanitizeParts(parts))
  {
    hide SanitizePieces, Split;
    if parts != [] {
      PiecesClean(Split(parts[0], '_'));
      PartsClean(parts[1..]);
    }
  }

  /** A sanitised prefix has no separators left and begins with `Type`. */
  lemma SanitizedPrefix(prefix: string)
    requires IsPrefix(prefix) && prefix != "_"
    ensures Clean(Sanitize(prefix)) && StartsWithType(Sanitize(prefix))
  {
    hide Split, SanitizePieces;
    PartsClean(Split(prefix, '.'));
    assert prefix == "_" + ['.'] + prefix[2..];
    SplitConcat("_", '.', prefix[2..]);
    SplitNone("_", '.');
    assert Split(prefix, '.')[1..] == Split(prefix[2..], '.');
    assert SanitizeParts(Split(prefix, '.')) == "Type" + SanitizeParts(Split(prefix[2..], '.'));
  }

  /** Sanitising a clean type name changes nothing. */
  lemma SanitizeClean(k: string)
    requires Clean(k) && StartsWithType(k)
    ensures Sanitize(k) == k
  {
    SplitNone(k, '.');
    SplitNone(k, '_');
    assert SanitizePieces([k]) == Title(k) + SanitizePieces([]);
    assert Title(k) == k by {
      assert k[0] == k[..4][0] == 'T';
      assert k == [k[0]] + k[1..];
    }
    assert SanitizeParts([k]) == SanitizePart(k) + SanitizeParts([]);
  }

  lemma DigitsClean(n: nat)
    ensures Clean(Digits(n))
  {
  }

  lemma IndexedName(typeDef: string, n: nat)
    requires StartsWithType(typeDef)
    ensures IsTypeName(TypeDefWithIndex(typeDef, n))
    ensures Clean(typeDef) ==> Clean(TypeDefWithIndex(typeDef, n))
  {
    hide Digits;
    var k := TypeDefWithIndex(typeDef, n);
    assert k[..4] == typeDef[..4];
    DigitsClean(n);
  }

  lemma TypeDefName(prefix: string, root: string)
    requires IsPrefix(prefix) && StartsWithType(root)
    ensures StartsWithType(TypeDefForPrefix(prefix, root))
    ensures prefix != "_" ==> Clean(TypeDefForPrefix(prefix, root))
  {
    hide Sanitize;
    if prefix != "_" {
      SanitizedPrefix(prefix);
    }
  }

  /** The key an object gets is a type name; below the root it is fit to be used as it is. */
  lemma ObjectName(types: Types, root: string, prefix: string, j: Json)
    requires j.Object? && IsPrefix(prefix) && StartsWithType(root)
    requires AddObject(types, root, prefix, j).name.Some?
    ensures var k := AddObject(types, root, prefix, j).name.value;
            && IsTypeName(k) && k in AddObject(types, root, prefix, j).types
            && (prefix != "_" ==> Sanitize(k) == k)
  {
    hide WalkFields, SortedKeys, Probe, Sanitize, TypeDefWithIndex, TypeDefForPrefix;
    var g := WalkFields(types, root, prefix, j, SortedKeys(j.fields.Keys));
    var typeDef := TypeDefForPrefix(prefix, root);
    TypeDefName(prefix, root);
    ProbeFits(g.types, typeDef, g.members.value, 0);
    var k := Probe(g.types, typeDef, g.members.value, 0).value;
    var n :| k == TypeDefWithIndex(typeDef, n);
    IndexedName(typeDef, n);
    if prefix != "_" {
      SanitizeClean(k);
    }
  }

  /** The root type is the part of the message type behind the last slash. */
  lemma RootTypeOf(msg: Json, path: string, name: string)
    requires msg.Object? && "type" in msg.fields && '/' !in name
    ensures msg.fields["type"] == String(path + ['/'] + name) ==> MsgRootType(msg) == Some("Type" + name)
    ensures msg.fields["type"] == String(name) && name != "" ==> MsgRootType(msg) == Some("Type" + name)
  {
    hide Split;
    SplitConcat(path, '/', name);
    SplitNone(name, '/');
  }

  lemma {:induction false} PartsConcat(a: seq<string>, b: seq<string>)
    ensures SanitizeParts(a + b) == SanitizeParts(a) + SanitizeParts(b)
  {
    hide SanitizePart;
    if a == [] {
      assert a + b == b;
    } else {
      assert (a + b)[1..] == a[1..] + b;
      PartsConcat(a[1..], b);
    }
  }

  /** The type name below a field is the name above it and the field's own part. */
  lemma SanitizeSubField(prefix: string, name: string)
    requires '.' !in name
    ensures Sanitize(PrefixForSubField(prefix, name)) == Sanitize(prefix) + SanitizePart(name)
  {
    hide Split, SanitizePart;
    SplitConcat(prefix, '.', name);
    SplitNone(name, '.');
    PartsConcat(Split(prefix, '.'), [name]);
    assert SanitizeParts([name]) == SanitizePart(name) + SanitizeParts([]);
    assert prefix + ['.'] + name == PrefixForSubField(prefix, name);
  }

  lemma SubPrefix(prefix: string, name: string)
    requires IsPrefix(prefix)
    ensures IsPrefix(PrefixForSubField(prefix, name)) && PrefixForSubField(prefix, name) != "_"
  {
    var p := PrefixForSubField(prefix, name);
    if prefix == "_" {
      assert p[..2] == "_.";
    } else {
      assert p[..2] == prefix[..2];
    }
  }

  /* ----- shapes ----- */

  /** The structure of a value, without names for its types. */
  datatype Shape = Prim(name: string) | List(element: Shape) | Struct(fields: seq<FieldShape>)

  datatype FieldShape = FieldShape(name: string, shape: Shape)

  /** Null and nested arrays have no shape. */
  ghost function ElementShape(v: Json): Option<Shape>
    decreases v, 2
  {
    match v
    case Bool(_) => Some(Prim("bool"))
    case Number(_) => Some(Prim("int64"))
    case String(_) => Some(Prim("string"))
    case Object(_) => Some(ObjectShape(v))
    case _ => None
  }

  /** An array has the shape of its first element, an empty one that of strings. */
  ghost function ValueShape(v: Json): Option<Shape>
    decreases v, 3
  {
    if !v.Array? then ElementShape(v)
    else if v.items == [] then Some(List(Prim("string")))
    else
      match ElementShape(v.items[0])
      case None => None
      case Some(s) => Some(List(s))
  }

  ghost function FieldShapes(j: Json, names: seq<string>): seq<FieldShape>
    requires j.Object? && forall n :: n in names ==> n in j.fields
    decreases j, 0, |names|
  {
    if names == [] then []
    else
      var rest := FieldShapes(j, names[1..]);
      match ValueShape(j.fields[names[0]])
      case None => rest
      case Some(s) => [FieldShape(names[0], s)] + rest
  }

  /** An object has the fields of its members, in descending order of their names. */
  ghost function ObjectShape(j: Json): Shape
    requires j.Object?
    decreases j, 1
  {
    Struct(FieldShapes(j, SortedKeys(j.fields.Keys)))
  }

  /** Unfolding `kind` through `types` gives `shape`. */
  ghost predicate Denotes(types: Types, kind: string, shape: Shape)
    decreases shape
  {
    match shape
    case Prim(name) => kind == name && name in {"bool", "int64", "string"}
    case List(element) =>
      |kind| >= 2 && kind[|kind| - 2..] == "[]" && Denotes(types, kind[..|kind| - 2], element)
    case Struct(fields) =>
      && IsTypeName(kind) && kind in types && |types[kind]| == |fields|
      && forall i :: 0 <= i < |fields| ==>
           types[kind][i].name == fields[i].name && Denotes(types, types[kind][i].kind, fields[i].shape)
  }

  ghost predicate MembersDenote(types: Types, members: seq<Member>, fields: seq<FieldShape>) {
    && |members| == |fields|
    && forall i :: 0 <= i < |fields| ==>
         members[i].name == fields[i].name && Denotes(types, members[i].kind, fields[i].shape)
  }

  /** Names of structures, arrays and primitive types cannot be confused. */
  lemma KindsApart(kind: string)
    ensures IsTypeName(kind) ==> kind !in {"bool", "int64", "string"} && kind[|kind| - 2..] != "[]"
    ensures kind in {"bool", "int64", "string"} ==> kind[|kind| - 2..] != "[]"
  {
    if IsTypeName(kind) {
      assert kind[0] == kind[..4][0] == 'T';
      assert kind[|kind| - 2..][1] == kind[|kind| - 1];
    }
  }

  /** Unfolding has at most one result. */
  lemma {:induction false} DenotesUnique(types: Types, kind: string, s1: Shape, s2: Shape)
    requires Denotes(types, kind, s1) && Denotes(types, kind, s2)
    ensures s1 == s2
    decreases s1
  {
    KindsApart(kind);
    match s1 {
      case Prim(_) =>
      case List(e) =>
        DenotesUnique(types, kind[..|kind| - 2], e, s2.element);
      case Struct(fields) =>
        forall i | 0 <= i < |fields| ensures fields[i] == s2.fields[i] {
          DenotesUnique(types, types[kind][i].kind, fields[i].shape, s2.fields[i].shape);
        }
    }
  }

  /* ----- the types of a message mean its shape ----- */

  lemma CollectionDenotes(u: Types, k: string, s: Shape, c: bool)
    requires Denotes(u, k, s)
    ensures Denotes(u, Collection(k, c), if c then List(s) else s)
  {
    if c {
      var l := Collection(k, c);
      assert l[|l| - 2..] == "[]" && l[..|l| - 2] == k;
    }
  }

  lemma {:induction false} ElementMeans(
    types: Types, root: string, prefix: string, name: string, v: Json, c: bool, u: Types)
    requires IsPrefix(prefix) && StartsWithType(root)
    requires var w := WalkElement(types, root, prefix, name, v, c); !w.kinded.TooMany? && Extends(w.types, u)
    ensures var w := WalkElement(types, root, prefix, name, v, c);
            match ElementShape(v)
            case None => w.kinded.Skip?
            case Some(s) => w.kinded.Kind? && Denotes(u, w.kinded.name, if c then List(s) else s)
    decreases v, 2
  {
    hide AddObject, ObjectShape, Sanitize, Collection, Denotes, Extends, IsPrefix;
    match v {
      case Bool(_) => PrimDenotes(u, "bool"); CollectionDenotes(u, "bool", Prim("bool"), c);
      case Number(_) => PrimDenotes(u, "int64"); CollectionDenotes(u, "int64", Prim("int64"), c);
      case String(_) => PrimDenotes(u, "string"); CollectionDenotes(u, "string", Prim("string"), c);
      case Object(_) =>
        var sub := PrefixForSubField(prefix, name);
        SubPrefix(prefix, name);
        ObjectMeans(types, root, sub, v, u);
        ObjectName(types, root, sub, v);
        var k := AddObject(types, root, sub, v).name.value;
        CollectionDenotes(u, k, ObjectShape(v), c);
      case _ =>
    }
  }

  lemma PrimDenotes(u: Types, name: string)
    requires name in {"bool", "int64", "string"}
    ensures Denotes(u, name, Prim(name))
  {
  }

  /** One field, its array unwrapped. */
  lemma {:induction false} FieldMeans(
    types: Types, root: string, prefix: string, name: string, v: Json, u: Types)
    requires IsPrefix(prefix) && StartsWithType(root)
    requires var w := WalkField(types, root, prefix, name, v); !w.kinded.TooMany? && Extends(w.types, u)
    ensures var w := WalkField(types, root, prefix, name, v);
            match ValueShape(v)
            case None => w.kinded.Skip?
            case Some(s) => w.kinded.Kind? && Denotes(u, w.kinded.name, s)
    decreases v, 3
  {
    hide WalkElement, ElementShape, Denotes, Extends, IsPrefix;
    if !v.Array? {
      ElementMeans(types, root, prefix, name, v, false, u);
    } else if v.items == [] {
      PrimDenotes(u, "string");
      CollectionDenotes(u, "string", Prim("string"), true);
      assert Collection("string", true) == "string[]";
    } else {
      ElementMeans(types, root, prefix, name, v.items[0], true, u);
    }
  }

  lemma {:induction false} FieldsMean(
    types: Types, root: string, prefix: string, j: Json, names: seq<string>, u: Types)
    requires j.Object? && forall n :: n in names ==> n in j.fields
    requires IsPrefix(prefix) && StartsWithType(root)
    requires var g := WalkFields(types, root, prefix, j, names); g.members.Some? && Extends(g.types, u)
    ensures MembersDenote(u, WalkFields(types, root, prefix, j, names).members.value, FieldShapes(j, names))
    decreases j, 0, |names|
  {
    hide WalkField, ValueShape, Denotes, Extends, IsPrefix;
    if names != [] {
      var w := WalkField(types, root, prefix, names[0], j.fields[names[0]]);
      var rest := WalkFields(w.types, root, prefix, j, names[1..]);
      FieldsGrow(w.types, root, prefix, j, names[1..]);
      GrowsExtends(w.types, rest.types);
      ExtendsTransitive(w.types, rest.types, u);
      FieldMeans(types, root, prefix, names[0], j.fields[names[0]], u);
      FieldsMean(w.types, root, prefix, j, names[1..], u);
      if w.kinded.Kind? {
        MembersDenoteCons(u, Member(names[0], w.kinded.name), rest.members.value,
                          FieldShape(names[0], ValueShape(j.fields[names[0]]).value), FieldShapes(j, names[1..]));
      }
    }
  }

  lemma MembersDenoteCons(u: Types, m: Member, ms: seq<Member>, f: FieldShape, fs: seq<FieldShape>)
    requires m.name == f.name && Denotes(u, m.kind, f.shape) && MembersDenote(u, ms, fs)
    ensures MembersDenote(u, [m] + ms, [f] + fs)
  {
    hide Denotes;
  }

  /** In the resulting environment and every later one, the name an object got unfolds to
      exactly the shape of the object. */
  lemma {:induction false} ObjectMeans(types: Types, root: string, prefix: string, j: Json, u: Types)
    requires j.Object? && IsPrefix(prefix) && StartsWithType(root)
    requires AddObject(types, root, prefix, j).name.Some?
    requires Extends(AddObject(types, root, prefix, j).types, u)
    ensures Denotes(u, AddObject(types, root, prefix, j).name.value, ObjectShape(j))
    decreases j, 1
  {
    hide WalkFields, SortedKeys, FieldShapes, Probe, IsPrefix, TypeDefForPrefix, Extends;
    var names := SortedKeys(j.fields.Keys);
    var g := WalkFields(types, root, prefix, j, names);
    var typeDef := TypeDefForPrefix(prefix, root);
    AddMembersGrows(g.types, typeDef, g.members.value);
    GrowsExtends(g.types, AddObject(types, root, prefix, j).types);
    ExtendsTransitive(g.types, AddObject(types, root, prefix, j).types, u);
    FieldsMean(types, root, prefix, j, names, u);
    ObjectName(types, root, prefix, j);
    var k := AddObject(types, root, prefix, j).name.value;
    assert u[k] == g.members.value by { NameKept(AddObject(types, root, prefix, j).types, u, k); }
  }

  lemma NameKept(t: Types, u: Types, k: string)
    requires Extends(t, u) && k in t && IsTypeName(k)
    ensures k in u && u[k] == t[k]
  {
    assert k[0] == k[..4][0] && k[1] == k[..4][1];
  }
}
