/**
 Keys of the Ethereum tx index, the ordered database they live in, and the first and
 last indexed block, found at the two ends of a key range.
 */
module IndexKeys {
  import opened Words
  import Lex

  type Hash = h: seq<byte> | |h| == 32 witness seq(32, _ => 0)
  type Key = seq<byte>
  type Db = map<Key, seq<byte>>

  datatype Height = Height(number: int64) | WrongKeyLength

  function BigEndian(x: nat, n: nat): (s: seq<byte>)
    ensures |s| == n
  {
    if n == 0 then [] else BigEndian(x / 256, n - 1) + [x % 256]
  }

  function FromBigEndian(s: seq<byte>): nat {
    if s == [] then 0 else 256 * FromBigEndian(s[..|s| - 1]) + s[|s| - 1]
  }

  /** Key of the entry from tx hash to record. */
  function TxHashKey(hash: Hash): Key {
    [1] + hash
  }

  /** Key of the entry from block number and tx index to tx hash. */
  function TxIndexKey(blockNumber: int64, txIndex: int32): Key {
    [2] + (BigEndian(ToUint64(blockNumber), 8) + BigEndian(ToUint64(txIndex), 8))
  }

  function ParseBlockNumber(key: Key): Height {
    if |key| != 17 then WrongKeyLength
    else Height(ToInt64(FromBigEndian(key[1..9]) % TWO64))
  }

  /* ----- big-endian words ----- */

  lemma {:induction false} BigEndianRoundTrip(x: nat, n: nat)
    requires x < Pow2(8 * n)
    ensures FromBigEndian(BigEndian(x, n)) == x
  {
    if n > 0 {
      Pow2Plus8(8 * (n - 1));
      BigEndianRoundTrip(x / 256, n - 1);
      assert BigEndian(x, n)[..n - 1] == BigEndian(x / 256, n - 1);
    }
  }

  lemma Word8RoundTrip(x: uint64)
    ensures FromBigEndian(BigEndian(x, 8)) == x
  {
    hide Pow2;
    Pow2Widths();
    BigEndianRoundTrip(x, 8);
  }

  lemma OrderByDigits(x: nat, y: nat)
    ensures x < y <==> x / 256 < y / 256 || (x / 256 == y / 256 && x % 256 < y % 256)
  {
  }

  lemma LastDigit(x: nat, n: nat)
    requires n > 0
    ensures BigEndian(x, n) == BigEndian(x / 256, n - 1) + [x % 256]
  {
  }

  lemma {:induction false} BigEndianOrder(x: nat, y: nat, n: nat)
    requires x < Pow2(8 * n) && y < Pow2(8 * n)
    ensures Lex.Less(BigEndian(x, n), BigEndian(y, n)) <==> x < y
  {
    if n > 0 {
      hide FromBigEndian, Pow2, BigEndian;
      Pow2Plus8(8 * (n - 1));
      var x', y' := x / 256, y / 256;
      LastDigit(x, n);
      LastDigit(y, n);
      BigEndianOrder(x', y', n - 1);
      BigEndianRoundTrip(x', n - 1);
      BigEndianRoundTrip(y', n - 1);
      Lex.LessAppend(BigEndian(x', n - 1), BigEndian(y', n - 1), [x % 256], [y % 256]);
      assert Lex.Less([x % 256], [y % 256]) <==> x % 256 < y % 256;
      OrderByDigits(x, y);
    }
  }

  /** The block number in an index key is read back, negative ones included. */
  lemma ParseTxIndexKey(h: int64, i: int32)
    ensures ParseBlockNumber(TxIndexKey(h, i)) == Height(h)
  {
    hide BigEndian, FromBigEndian;
    assert TxIndexKey(h, i)[1..9] == BigEndian(ToUint64(h), 8);
    Word8RoundTrip(ToUint64(h));
  }

  lemma {:induction false} BigEndianBound(s: seq<byte>)
    ensures FromBigEndian(s) < Pow2(8 * |s|)
  {
    if s != [] {
      BigEndianBound(s[..|s| - 1]);
      Pow2Plus8(8 * (|s| - 1));
    }
  }

  /** Any key of seventeen bytes holds a block number in bytes one to eight; no other key does. */
  lemma ParseBlockNumberExactly(key: Key)
    ensures ParseBlockNumber(key).Height? <==> |key| == 17
    ensures |key| == 17 ==> 0 <= FromBigEndian(key[1..9]) < TWO64
                            && ParseBlockNumber(key) == Height(ToInt64(FromBigEndian(key[1..9])))
  {
    hide FromBigEndian, Pow2;
    if |key| == 17 {
      BigEndianBound(key[1..9]);
      Pow2Widths();
    }
  }

  /** The layout of the keys. */
  lemma KeyLayout(hash: Hash, h: int64, i: int32)
    ensures TxHashKey(hash)[0] == 1 && TxHashKey(hash)[1..] == hash
    ensures var k := TxIndexKey(h, i);
            && |k| == 17 && k[0] == 2
            && FromBigEndian(k[1..9]) == ToUint64(h) && FromBigEndian(k[9..]) == ToUint64(i)
  {
    hide BigEndian, FromBigEndian, ToUint64;
    var k := TxIndexKey(h, i);
    assert k[1..9] == BigEndian(ToUint64(h), 8) && k[9..] == BigEndian(ToUint64(i), 8);
    Word8RoundTrip(ToUint64(h));
    Word8RoundTrip(ToUint64(i));
  }

  lemma TxIndexKeyInjective(h1: int64, i1: int32, h2: int64, i2: int32)
    requires TxIndexKey(h1, i1) == TxIndexKey(h2, i2)
    ensures h1 == h2 && i1 == i2
  {
    hide BigEndian, FromBigEndian;
    ParseTxIndexKey(h1, i1);
    ParseTxIndexKey(h2, i2);
    assert TxIndexKey(h1, i1)[9..] == BigEndian(ToUint64(i1), 8);
    assert TxIndexKey(h2, i2)[9..] == BigEndian(ToUint64(i2), 8);
    Word8RoundTrip(ToUint64(i1));
    Word8RoundTrip(ToUint64(i2));
  }

  /** Byte order of index keys is the order of the unsigned words they hold: block number
      first, then tx index. */
  lemma TxIndexKeyOrder(h1: int64, i1: int32, h2: int64, i2: int32)
    ensures Lex.Less(TxIndexKey(h1, i1), TxIndexKey(h2, i2)) <==>
            ToUint64(h1) < ToUint64(h2) || (h1 == h2 && ToUint64(i1) < ToUint64(i2))
  {
    hide BigEndian, FromBigEndian, Lex.Less, Pow2;
    var a1, b1 := BigEndian(ToUint64(h1), 8), BigEndian(ToUint64(i1), 8);
    var a2, b2 := BigEndian(ToUint64(h2), 8), BigEndian(ToUint64(i2), 8);
    Lex.LessAppend([2], [2], a1 + b1, a2 + b2);
    Lex.Irreflexive([2]);
    Lex.LessAppend(a1, a2, b1, b2);
    Pow2Widths();
    BigEndianOrder(ToUint64(h1), ToUint64(h2), 8);
    BigEndianOrder(ToUint64(i1), ToUint64(i2), 8);
    Word8RoundTrip(ToUint64(h1));
    Word8RoundTrip(ToUint64(h2));
  }

  /** On heights and indices that occur in a chain the order is the numeric one. */
  lemma TxIndexKeyNumericOrder(h1: int64, i1: int32, h2: int64, i2: int32)
    requires h1 >= 0 && i1 >= 0 && h2 >= 0 && i2 >= 0
    ensures Lex.Less(TxIndexKey(h1, i1), TxIndexKey(h2, i2)) <==> h1 < h2 || (h1 == h2 && i1 < i2)
  {
    hide TxIndexKey, Lex.Less;
    TxIndexKeyOrder(h1, i1, h2, i2);
  }

  /* ----- ordered iteration ----- */

  predicate InRange(k: Key, from: Key, to: Key) {
    !Lex.Less(k, from) && Lex.Less(k, to)
  }

  function KeysIn(db: Db, from: Key, to: Key): set<Key> {
    set k | k in db && InRange(k, from, to)
  }

  predicate IsMin(k: Key, s: set<Key>) {
    k in s && forall x :: x in s ==> !Lex.Less(x, k)
  }

  predicate IsMax(k: Key, s: set<Key>) {
    k in s && forall x :: x in s ==> !Lex.Less(k, x)
  }

  lemma {:induction false} MinExists(s: set<Key>) returns (k: Key)
    requires s != {}
    ensures IsMin(k, s)
    decreases |s|
  {
    hide Lex.Less;
    var x :| x in s;
    if s == {x} {
      k := x;
      Lex.Irreflexive(x);
    } else {
      var rest := s - {x};
      assert s == {x} + rest;
      var m := MinExists(rest);
      Lex.Total(x, m);
      if Lex.Less(x, m) {
        k := x;
        Lex.Irreflexive(x);
        forall y | y in s ensures !Lex.Less(y, k) {
          if Lex.Less(y, k) && y != x { Lex.Transitive(y, x, m); }
        }
      } else {
        k := m;
      }
    }
  }

  lemma {:induction false} MaxExists(s: set<Key>) returns (k: Key)
    requires s != {}
    ensures IsMax(k, s)
    decreases |s|
  {
    hide Lex.Less;
    var x :| x in s;
    if s == {x} {
      k := x;
      Lex.Irreflexive(x);
    } else {
      var rest := s - {x};
      assert s == {x} + rest;
      var m := MaxExists(rest);
      Lex.Total(x, m);
      if Lex.Less(m, x) {
        k := x;
        Lex.Irreflexive(x);
        forall y | y in s ensures !Lex.Less(k, y) {
          if Lex.Less(k, y) && y != x { Lex.Transitive(m, x, y); }
        }
      } else {
        k := m;
      }
    }
  }

  lemma EndsAreUnique(s: set<Key>)
    ensures forall k, l :: IsMin(k, s) && IsMin(l, s) ==> k == l
    ensures forall k, l :: IsMax(k, s) && IsMax(l, s) ==> k == l
  {
    forall k: Key, l: Key ensures k == l || Lex.Less(k, l) || Lex.Less(l, k) {
      Lex.Total(k, l);
    }
  }

  /** The entry a forward iterator over the range starts at. */
  function FirstKey(s: set<Key>): (k: Key)
    requires s != {}
    ensures IsMin(k, s)
  {
    assert exists k :: IsMin(k, s) by { var k := MinExists(s); }
    EndsAreUnique(s);
    var k :| k in s && IsMin(k, s);
    k
  }

  /** The entry a reverse iterator over the range starts at. */
  function LastKey(s: set<Key>): (k: Key)
    requires s != {}
    ensures IsMax(k, s)
  {
    assert exists k :: IsMax(k, s) by { var k := MaxExists(s); }
    EndsAreUnique(s);
    var k :| k in s && IsMax(k, s);
    k
  }

  const INDEX_START: Key := [2]
  const INDEX_END: Key := [3]

  function LoadFirstBlock(db: Db): Height {
    var s := KeysIn(db, INDEX_START, INDEX_END);
    if s == {} then Height(-1) else ParseBlockNumber(FirstKey(s))
  }

  function LoadLastBlock(db: Db): Height {
    var s := KeysIn(db, INDEX_START, INDEX_END);
    if s == {} then Height(-1) else ParseBlockNumber(LastKey(s))
  }

  /* ----- the two ends of the indexed range ----- */

  /** The database holds an index entry of block `h`. */
  ghost predicate HasHeight(db: Db, h: int64) {
    exists i: int32 :: i >= 0 && TxIndexKey(h, i) in db
  }

  /** What the indexer writes: hash keys, and index keys with non-negative numbers. */
  ghost predicate IsIndexerKey(k: Key) {
    || (exists hash: Hash :: k == TxHashKey(hash))
    || (exists h: int64, i: int32 :: h >= 0 && i >= 0 && k == TxIndexKey(h, i))
  }

  ghost predicate WellKeyed(db: Db) {
    forall k :: k in db ==> IsIndexerKey(k)
  }

  lemma IndexerKeys(hash: Hash, h: int64, i: int32)
    requires h >= 0 && i >= 0
    ensures IsIndexerKey(TxHashKey(hash)) && IsIndexerKey(TxIndexKey(h, i))
  {
    hide TxHashKey, TxIndexKey;
  }

  lemma KeyRanges(hash: Hash, h: int64, i: int32)
    ensures !InRange(TxHashKey(hash), INDEX_START, INDEX_END)
    ensures InRange(TxIndexKey(h, i), INDEX_START, INDEX_END)
    ensures TxHashKey(hash) != TxIndexKey(h, i)
  {
    assert TxHashKey(hash)[0] == 1 && TxIndexKey(h, i)[0] == 2;
  }

  lemma KeysInAreIndexKeys(db: Db, k: Key) returns (h: int64, i: int32)
    requires WellKeyed(db) && k in KeysIn(db, INDEX_START, INDEX_END)
    ensures h >= 0 && i >= 0 && k == TxIndexKey(h, i) && HasHeight(db, h)
  {
    hide TxHashKey, TxIndexKey, InRange;
    forall hash: Hash ensures k != TxHashKey(hash) {
      KeyRanges(hash, 0, 0);
    }
    assert IsIndexerKey(k);
    h, i :| h >= 0 && i >= 0 && k == TxIndexKey(h, i);
  }

  lemma HeightsAreInRange(db: Db, h: int64) returns (i: int32)
    requires HasHeight(db, h)
    ensures i >= 0 && TxIndexKey(h, i) in KeysIn(db, INDEX_START, INDEX_END)
  {
    hide TxIndexKey, InRange;
    i :| i >= 0 && TxIndexKey(h, i) in db;
    KeyRanges(seq(32, _ => 0), h, i);
  }

  /** The reverse iterator finds the greatest indexed height, or -1 exactly when no
      height is indexed. */
  lemma LastBlockIsMaximum(db: Db)
    requires WellKeyed(db)
    ensures LoadLastBlock(db).Height?
    ensures var last := LoadLastBlock(db).number;
            if last == -1 then forall h: int64 :: h >= 0 ==> !HasHeight(db, h)
            else HasHeight(db, last) && last >= 0 && forall h: int64 :: h >= 0 && HasHeight(db, h) ==> h <= last
  {
    hide TxIndexKey, InRange, ParseBlockNumber, Lex.Less, WellKeyed, HasHeight;
    var s := KeysIn(db, INDEX_START, INDEX_END);
    if s != {} {
      var last, j := KeysInAreIndexKeys(db, LastKey(s));
      ParseTxIndexKey(last, j);
      forall h: int64 | h >= 0 && HasHeight(db, h) ensures h <= last {
        var i := HeightsAreInRange(db, h);
        TxIndexKeyNumericOrder(last, j, h, i);
      }
    } else {
      forall h: int64 | h >= 0 ensures !HasHeight(db, h) {
        if HasHeight(db, h) { var i := HeightsAreInRange(db, h); }
      }
    }
  }

  /** The forward iterator finds the least indexed height, or -1 exactly when no height
      is indexed. */
  lemma FirstBlockIsMinimum(db: Db)
    requires WellKeyed(db)
    ensures LoadFirstBlock(db).Height?
    ensures var first := LoadFirstBlock(db).number;
            if first == -1 then forall h: int64 :: h >= 0 ==> !HasHeight(db, h)
            else HasHeight(db, first) && first >= 0 && forall h: int64 :: h >= 0 && HasHeight(db, h) ==> first <= h
  {
    hide TxIndexKey, InRange, ParseBlockNumber, Lex.Less, WellKeyed, HasHeight;
    var s := KeysIn(db, INDEX_START, INDEX_END);
    if s != {} {
      var first, j := KeysInAreIndexKeys(db, FirstKey(s));
      ParseTxIndexKey(first, j);
      forall h: int64 | h >= 0 && HasHeight(db, h) ensures first <= h {
        var i := HeightsAreInRange(db, h);
        TxIndexKeyNumericOrder(h, i, first, j);
      }
    } else {
      forall h: int64 | h >= 0 ensures !HasHeight(db, h) {
        if HasHeight(db, h) { var i := HeightsAreInRange(db, h); }
      }
    }
  }
}
