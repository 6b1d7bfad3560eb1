/** Running out of names: type generation fails only when the indices of a name are used up,
    and never for payloads with fewer objects than there are indices. */
module Eip712Capacity {
  import opened Options
  import opened Text
  import opened Eip712Types
  import opened Eip712Meaning

  /* ----- a full name takes a thousand types ----- */

  ghost predicate NamesTaken(types: Types, typeDef: string, from: nat, to: nat) {
    forall n :: from <= n < to ==> TypeDefWithIndex(typeDef, n) in types
  }

  lemma {:induction false} ProbeFull(types: Types, typeDef: string, members: seq<Member>, index: nat)
    requires index < MAX_DUPLICATES && Probe(types, typeDef, members, index).None?
    ensures NamesTaken(types, typeDef, index, MAX_DUPLICATES)
    decreases MAX_DUPLICATES - index
  {
    hide TypeDefWithIndex;
    if index + 1 < MAX_DUPLICATES {
      ProbeFull(types, typeDef, members, index + 1);
    }
  }

  lemma IndexedNameInjective(typeDef: string, m: nat, n: nat)
    ensures TypeDefWithIndex(typeDef, m) == TypeDefWithIndex(typeDef, n) ==> m == n
  {
    hide Digits;
    assert TypeDefWithIndex(typeDef, m)[|typeDef|..] == Digits(m);
    assert TypeDefWithIndex(typeDef, n)[|typeDef|..] == Digits(n);
    DigitsInjective(m, n);
  }

  /** The first `n` indexed names. */
  ghost function Names(typeDef: string, n: nat): set<string> {
    if n == 0 then {} else Names(typeDef, n - 1) + {TypeDefWithIndex(typeDef, n - 1)}
  }

  lemma {:induction false} NamesAreMany(types: Types, typeDef: string, n: nat)
    requires NamesTaken(types, typeDef, 0, n)
    ensures |Names(typeDef, n)| == n && Names(typeDef, n) <= types.Keys
    ensures forall x :: x in Names(typeDef, n) ==> exists m :: 0 <= m < n && x == TypeDefWithIndex(typeDef, m)
  {
    hide TypeDefWithIndex;
    if n > 0 {
      NamesAreMany(types, typeDef, n - 1);
      forall m | 0 <= m < n - 1 ensures TypeDefWithIndex(typeDef, m) != TypeDefWithIndex(typeDef, n - 1) {
        IndexedNameInjective(typeDef, m, n - 1);
      }
    }
  }

  lemma {:induction false} SubsetSize(a: set<string>, b: set<string>)
    requires a <= b
    ensures |a| <= |b|
  {
    if a != {} {
      var x :| x in a;
      SubsetSize(a - {x}, b - {x});
    }
  }

  /** A structure is refused only by an environment of at least a thousand types. */
  lemma AddMembersFull(types: Types, typeDef: string, members: seq<Member>)
    requires AddMembers(types, typeDef, members).name.None?
    ensures |types| >= 1000
  {
    hide Probe, Names;
    ProbeFull(types, typeDef, members, 0);
    NamesAreMany(types, typeDef, MAX_DUPLICATES);
    SubsetSize(Names(typeDef, MAX_DUPLICATES), types.Keys);
  }

  lemma AddMembersSize(types: Types, typeDef: string, members: seq<Member>)
    ensures |AddMembers(types, typeDef, members).types| <= |types| + 1
  {
    hide Probe;
    var r := Probe(types, typeDef, members, 0);
    if r.Some? {
      assert types[r.value := members].Keys == types.Keys + {r.value};
    }
  }

  /* ----- counting objects ----- */

  /** The objects the walk visits. */
  ghost function CountElement(v: Json): nat
    decreases v, 2
  {
    if v.Object? then CountObjects(v) else 0
  }

  ghost function CountField(v: Json): nat
    decreases v, 3
  {
    if !v.Array? then CountElement(v) else if v.items == [] then 0 else CountElement(v.items[0])
  }

  ghost function CountFields(j: Json, names: seq<string>): nat
    requires j.Object? && forall n :: n in names ==> n in j.fields
    decreases j, 0, |names|
  {
    if names == [] then 0 else CountField(j.fields[names[0]]) + CountFields(j, names[1..])
  }

  ghost function CountObjects(j: Json): nat
    requires j.Object?
    decreases j, 1
  {
    CountFields(j, SortedKeys(j.fields.Keys)) + 1
  }

  lemma {:induction false} ElementFits(types: Types, root: string, prefix: string, name: string, v: Json, c: bool)
    requires |types| + CountElement(v) <= MAX_DUPLICATES
    ensures var w := WalkElement(types, root, prefix, name, v, c);
            !w.kinded.TooMany? && |w.types| <= |types| + CountElement(v)
    decreases v, 2
  {
    hide AddObject, CountObjects, Sanitize, Collection;
    if v.Object? {
      ObjectFits(types, root, PrefixForSubField(prefix, name), v);
    }
  }

  lemma {:induction false} FieldFits(types: Types, root: string, prefix: string, name: string, v: Json)
    requires |types| + CountField(v) <= MAX_DUPLICATES
    ensures var w := WalkField(types, root, prefix, name, v);
            !w.kinded.TooMany? && |w.types| <= |types| + CountField(v)
    decreases v, 3
  {
    hide WalkElement, CountElement;
    if !v.Array? {
      ElementFits(types, root, prefix, name, v, false);
    } else if v.items != [] {
      ElementFits(types, root, prefix, name, v.items[0], true);
    }
  }

  lemma {:induction false} FieldsFit(types: Types, root: string, prefix: string, j: Json, names: seq<string>)
    requires j.Object? && forall n :: n in names ==> n in j.fields
    requires |types| + CountFields(j, names) <= MAX_DUPLICATES
    ensures var g := WalkFields(types, root, prefix, j, names);
            g.members.Some? && |g.types| <= |types| + CountFields(j, names)
    decreases j, 0, |names|
  {
    hide WalkField, CountField;
    if names != [] {
      FieldFits(types, root, prefix, names[0], j.fields[names[0]]);
      var w := WalkField(types, root, prefix, names[0], j.fields[names[0]]);
      FieldsFit(w.types, root, prefix, j, names[1..]);
    }
  }

  /** An object with its sub-objects is added without failure while a thousand types are not
      exceeded, one type for each object at most. */
  lemma {:induction false} ObjectFits(types: Types, root: string, prefix: string, j: Json)
    requires j.Object? && |types| + CountObjects(j) <= 1000
    ensures var a := AddObject(types, root, prefix, j);
            a.name.Some? && |a.types| <= |types| + CountObjects(j)
    decreases j, 1
  {
    hide WalkFields, CountFields, SortedKeys, AddMembers, TypeDefForPrefix;
    var names := SortedKeys(j.fields.Keys);
    FieldsFit(types, root, prefix, j, names);
    var g := WalkFields(types, root, prefix, j, names);
    var typeDef := TypeDefForPrefix(prefix, root);
    AddMembersSize(g.types, typeDef, g.members.value);
    if AddMembers(g.types, typeDef, g.members.value).name.None? {
      AddMembersFull(g.types, typeDef, g.members.value);
    }
  }

  /* ----- whole payloads ----- */

  /** Every message is an object with a type, and all of them together have `total` objects. */
  ghost predicate WellTyped(payload: map<string, Json>, i: nat, n: nat, total: nat)
    requires i <= n
    decreases n - i
  {
    if i == n then total == 0
    else
      && MsgField(i) in payload && payload[MsgField(i)].Object? && MsgRootType(payload[MsgField(i)]).Some?
      && CountObjects(payload[MsgField(i)]) <= total
      && WellTyped(payload, i + 1, n, total - CountObjects(payload[MsgField(i)]))
  }

  lemma {:induction false} MsgsFit(types: Types, payload: map<string, Json>, i: nat, n: nat, total: nat)
    requires i <= n && WellTyped(payload, i, n, total) && |types| + total <= MAX_DUPLICATES && "Tx" in types
    ensures AddMsgs(types, payload, i, n).Some?
    decreases n - i
  {
    hide MsgField, MsgRootType, AddObject, CountObjects;
    if i < n {
      var msg := payload[MsgField(i)];
      var root := MsgRootType(msg).value;
      var c := CountObjects(msg);
      ObjectFits(types, root, "_", msg);
      ObjectGrows(types, root, "_", msg);
      var added := AddObject(types, root, "_", msg);
      var next := AddMsg(types, MsgField(i), msg).value;
      assert next.Keys == added.types.Keys;
      assert |next| == |added.types|;
      MsgsFit(next, payload, i + 1, n, total - c);
    }
  }

  /** A schema is generated for every payload whose messages are objects with a type, as long as
      base types and objects together do not exceed a thousand. */
  lemma CreationSucceeds(payload: map<string, Json>, n: nat, total: nat)
    requires WellTyped(payload, 0, n, total) && total + 4 <= 1000
    ensures CreateTypes(payload, n).Some?
  {
    hide AddMsgs, WellTyped;
    assert BASE_TYPES.Keys == {"EIP712Domain", "Tx", "Fee", "Coin"};
    assert |BASE_TYPES.Keys| == 4;
    assert |BASE_TYPES| == |BASE_TYPES.Keys|;
    MsgsFit(BASE_TYPES, payload, 0, n, total);
  }
}
