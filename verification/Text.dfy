/** JSON values and the string operations of the EIP-712 code. */
module Text {
  import Lex

  datatype Json =
    | Null
    | Bool(b: bool)
    | Number(n: int)
    | String(s: string)
    | Array(items: seq<Json>)
    | Object(fields: map<string, Json>)

  /* ----- decimal numbers ----- */

  predicate IsDigit(c: char) {
    '0' <= c <= '9'
  }

  function Digit(d: nat): (c: char)
    requires d < 10
    ensures IsDigit(c)
  {
    '0' + d as char
  }

  /** `%d` of a natural number. */
  function Digits(n: nat): (s: string)
    ensures |s| > 0 && forall i :: 0 <= i < |s| ==> IsDigit(s[i])
    ensures n > 0 ==> s[0] != '0'
    ensures n < 10 ==> |s| == 1
  {
    if n < 10 then [Digit(n)] else Digits(n / 10) + [Digit(n % 10)]
  }

  lemma {:induction false} DigitsInjective(m: nat, n: nat)
    ensures Digits(m) == Digits(n) ==> m == n
  {
    if Digits(m) == Digits(n) {
      var s, t := Digits(m), Digits(n);
      assert s[|s| - 1] == Digit(m % 10) && t[|t| - 1] == Digit(n % 10);
      DigitInjective(m % 10, n % 10);
      if m >= 10 && n >= 10 {
        assert s[..|s| - 1] == Digits(m / 10) && t[..|t| - 1] == Digits(n / 10);
        DigitsInjective(m / 10, n / 10);
      }
    }
  }

  lemma DigitInjective(a: nat, b: nat)
    requires a < 10 && b < 10
    ensures Digit(a) == Digit(b) ==> a == b
  {
    assert Digit(a) as int == '0' as int + a && Digit(b) as int == '0' as int + b;
  }

  /* ----- string order ----- */

  function Codes(s: string): (codes: seq<int>)
    ensures |codes| == |s|
  {
    if s == [] then [] else [s[0] as int] + Codes(s[1..])
  }

  lemma {:induction false} CodesInjective(s: string, t: string)
    ensures Codes(s) == Codes(t) ==> s == t
    decreases |s|
  {
    if s != [] && t != [] && Codes(s) == Codes(t) {
      assert Codes(s)[0] == s[0] as int && Codes(t)[0] == t[0] as int;
      assert Codes(s)[1..] == Codes(s[1..]) && Codes(t)[1..] == Codes(t[1..]);
      CodesInjective(s[1..], t[1..]);
      assert s == [s[0]] + s[1..] && t == [t[0]] + t[1..];
    }
  }

  /** `strings.Compare(s, t) > 0`. */
  predicate After(s: string, t: string) {
    Lex.Less(Codes(t), Codes(s))
  }

  lemma {:induction false} CodesAre(s: string)
    ensures |Codes(s)| == |s| && forall i :: 0 <= i < |s| ==> Codes(s)[i] == s[i] as int
  {
    if s != [] {
      CodesAre(s[1..]);
    }
  }

  /** After another is greater at the first difference, or longer. */
  lemma AfterExactly(s: string, t: string)
    ensures After(s, t) <==>
            exists n :: 0 <= n <= |t| && n < |s| && s[..n] == t[..n] && (n < |t| ==> s[n] > t[n])
  {
    hide Lex.Less;
    Lex.LessExactly(Codes(t), Codes(s));
    CodesAre(s);
    CodesAre(t);
    forall n: nat ensures Lex.IsFirstDifference(Codes(t), Codes(s), n) <==>
                          n <= |t| && n < |s| && s[..n] == t[..n] && (n < |t| ==> s[n] > t[n])
    {
      if n <= |t| && n < |s| {
        CodesPrefix(s, t, n);
      }
    }
  }

  lemma CodesPrefix(s: string, t: string, n: nat)
    requires n <= |t| && n <= |s|
    ensures Codes(t)[..n] == Codes(s)[..n] <==> s[..n] == t[..n]
  {
    CodesAre(s);
    CodesAre(t);
    if Codes(t)[..n] == Codes(s)[..n] {
      forall i | 0 <= i < n ensures s[i] == t[i] {
        assert Codes(t)[..n][i] == Codes(s)[..n][i];
      }
    } else if s[..n] == t[..n] {
      forall i | 0 <= i < n ensures Codes(t)[..n][i] == Codes(s)[..n][i] {
        assert s[..n][i] == t[..n][i];
      }
    }
  }

  lemma AfterTotal(s: string, t: string)
    ensures s == t || After(s, t) || After(t, s)
    ensures !(After(s, t) && After(t, s)) && !After(s, s)
  {
    hide Lex.Less, Codes;
    CodesInjective(s, t);
    Lex.Total(Codes(s), Codes(t));
    Lex.Irreflexive(Codes(s));
    if After(s, t) {
      Lex.Asymmetric(Codes(t), Codes(s));
    }
  }

  lemma AfterTransitive(r: string, s: string, t: string)
    requires After(r, s) && After(s, t)
    ensures After(r, t)
  {
    Lex.Transitive(Codes(t), Codes(s), Codes(r));
  }

  predicate Descending(names: seq<string>) {
    forall i, j :: 0 <= i < j < |names| ==> After(names[i], names[j])
  }

  ghost function Elements(names: seq<string>): set<string> {
    set x | x in names
  }

  /* ----- the descending enumeration of a set ----- */

  ghost predicate IsGreatest(m: string, names: set<string>) {
    m in names && forall x :: x in names && x != m ==> After(m, x)
  }

  lemma {:induction false} GreatestExists(names: set<string>) returns (m: string)
    requires names != {}
    ensures IsGreatest(m, names)
    decreases |names|
  {
    hide After;
    var x :| x in names;
    m := x;
    var rest := names - {x};
    assert names == rest + {x};
    if rest != {} {
      var g := GreatestExists(rest);
      AfterTotal(g, x);
      if After(g, x) {
        m := g;
      } else {
        forall y | y in names && y != x ensures After(x, y) {
          if y != g { AfterTransitive(x, g, y); }
        }
      }
    }
  }

  /** The elements of a set in descending order. */
  ghost function SortedKeys(names: set<string>): (s: seq<string>)
    ensures forall x :: x in s <==> x in names
    decreases |names|
  {
    if names == {} then []
    else
      assert exists m :: IsGreatest(m, names) by { var m := GreatestExists(names); }
      var m :| IsGreatest(m, names);
      [m] + SortedKeys(names - {m})
  }

  lemma {:induction false} SortedKeysDescending(names: set<string>)
    ensures Descending(SortedKeys(names))
    decreases |names|
  {
    hide After;
    if names != {} {
      var m := SortedKeys(names)[0];
      var rest := SortedKeys(names)[1..];
      assert IsGreatest(m, names) && rest == SortedKeys(names - {m});
      SortedKeysDescending(names - {m});
      forall i, j | 0 <= i < j < |rest| + 1 ensures After(([m] + rest)[i], ([m] + rest)[j]) {
        if i == 0 {
          assert rest[j - 1] in names - {m};
        }
      }
      assert SortedKeys(names) == [m] + rest;
    }
  }

  /** There is one descending enumeration: whatever the order in which a map was walked,
      sorting its keys gives the same list. */
  lemma {:induction false} DescendingUnique(a: seq<string>, b: seq<string>)
    requires Descending(a) && Descending(b) && Elements(a) == Elements(b)
    ensures a == b
    decreases |a|
  {
    hide After;
    if a == [] {
      NoElements(b);
    } else {
      assert a[0] in Elements(a);
      assert b != [];
      SameHead(a, b);
      TailElements(a);
      TailElements(b);
      DescendingUnique(a[1..], b[1..]);
      assert a == [a[0]] + a[1..] && b == [b[0]] + b[1..];
    }
  }

  lemma NoElements(a: seq<string>)
    ensures Elements(a) == {} ==> a == []
  {
    if a != [] {
      assert a[0] in Elements(a);
    }
  }

  lemma SameHead(a: seq<string>, b: seq<string>)
    requires Descending(a) && Descending(b) && Elements(a) == Elements(b) && a != [] && b != []
    ensures a[0] == b[0]
  {
    hide After;
    assert a[0] in Elements(a) && b[0] in Elements(b);
    var i :| 0 <= i < |b| && b[i] == a[0];
    var j :| 0 <= j < |a| && a[j] == b[0];
    AfterTotal(a[0], b[0]);
  }

  lemma TailElements(a: seq<string>)
    requires Descending(a) && a != []
    ensures Elements(a[1..]) == Elements(a) - {a[0]} && Descending(a[1..])
  {
    hide After;
    forall i | 1 <= i < |a| ensures a[i] != a[0] {
      AfterTotal(a[0], a[i]);
    }
    assert a == [a[0]] + a[1..];
  }

  /** Puts a name into a descending list. */
  function InsertDescending(name: string, names: seq<string>): seq<string> {
    if names == [] || After(name, names[0]) then [name] + names
    else [names[0]] + InsertDescending(name, names[1..])
  }

  lemma {:induction false} InsertDescends(name: string, names: seq<string>)
    requires Descending(names) && name !in names
    ensures Descending(InsertDescending(name, names))
    ensures Elements(InsertDescending(name, names)) == Elements(names) + {name}
    decreases |names|
  {
    hide After;
    if names != [] {
      assert names == [names[0]] + names[1..];
      AfterTotal(name, names[0]);
      if After(name, names[0]) {
        forall j | 1 <= j < |names| ensures After(name, names[j]) {
          AfterTransitive(name, names[0], names[j]);
        }
      } else {
        InsertDescends(name, names[1..]);
        var rest := InsertDescending(name, names[1..]);
        forall j | 0 <= j < |rest| ensures After(names[0], rest[j]) {
          assert rest[j] in Elements(names[1..]) + {name};
        }
      }
    }
  }

  /** The keys of an object, gathered in any order and sorted in descending order. */
  method SortedJsonKeys(fields: map<string, Json>) returns (keys: seq<string>)
    ensures keys == SortedKeys(fields.Keys)
  {
    hide After, Descending, SortedKeys, InsertDescending;
    keys := [];
    var rest := fields.Keys;
    NoKeys();
    while rest != {}
      invariant rest <= fields.Keys && Descending(keys) && Elements(keys) == fields.Keys - rest
      decreases |rest|
    {
      var k :| k in rest;
      assert k !in keys by { assert k !in Elements(keys); }
      InsertDescends(k, keys);
      keys := InsertDescending(k, keys);
      rest := rest - {k};
    }
    SortedKeysDescending(fields.Keys);
    assert Elements(SortedKeys(fields.Keys)) == fields.Keys;
    DescendingUnique(keys, SortedKeys(fields.Keys));
  }

  lemma NoKeys()
    ensures Descending([]) && Elements([]) == {}
  {
  }

  /* ----- splitting and capitals ----- */

  /** `strings.Split` on one character: always at least one part. */
  function Split(s: string, c: char): (parts: seq<string>)
    ensures |parts| > 0
    ensures forall i :: 0 <= i < |parts| ==> c !in parts[i] && forall d :: d in parts[i] ==> d in s
  {
    if s == [] then [""]
    else
      var rest := Split(s[1..], c);
      if s[0] == c then [""] + rest else [[s[0]] + rest[0]] + rest[1..]
  }

  lemma {:induction false} SplitNone(s: string, c: char)
    requires c !in s
    ensures Split(s, c) == [s]
  {
    if s != [] {
      SplitNone(s[1..], c);
      assert s == [s[0]] + s[1..];
    }
  }

  /** Splitting goes part by part. */
  lemma {:induction false} SplitConcat(a: string, c: char, b: string)
    ensures Split(a + [c] + b, c) == Split(a, c) + Split(b, c)
  {
    var s := a + [c] + b;
    if a == [] {
      assert s[1..] == b;
    } else {
      SplitConcat(a[1..], c, b);
      assert s[1..] == a[1..] + [c] + b && s[0] == a[0];
      FirstPartGrows(a[0], Split(a[1..], c), Split(b, c));
    }
  }

  lemma FirstPartGrows(x: char, p: seq<string>, q: seq<string>)
    requires p != []
    ensures [""] + (p + q) == [""] + p + q
    ensures [[x] + (p + q)[0]] + (p + q)[1..] == [[x] + p[0]] + p[1..] + q
  {
    assert (p + q)[1..] == p[1..] + q;
  }

  predicate IsLower(c: char) {
    'a' <= c <= 'z'
  }

  function Upper(c: char): (u: char)
    ensures u != '.' <==> c != '.'
    ensures u != '_' <==> c != '_'
    ensures !IsLower(c) ==> u == c
  {
    if IsLower(c) then c - 'a' + 'A' else c
  }

  /** The title-caser: the first letter in upper case, digits before it passed over. */
  function Title(s: string): string {
    if s == [] then []
    else if IsDigit(s[0]) then [s[0]] + Title(s[1..])
    else [Upper(s[0])] + s[1..]
  }
}
