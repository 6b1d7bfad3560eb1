/** Base 128 varints: the encoder, its size function and the decoding loop. */
module Varint {
  import opened Words

  datatype Error =
    | IntOverflow
    | UnexpectedEOF
    | InvalidLength
    | UnexpectedEndOfGroup
    | IllegalWireType
    | EndGroupOutsideGroup
    | IllegalTag
    | WrongWireType

  datatype Result<+T> = Ok(value: T) | Err(error: Error)

  /** What reading one varint yields: the word and the number of bytes consumed. */
  datatype Word = Word(bits: nat, size: nat)

  /* ----- encoding ----- */

  function Encode(v: nat): (s: seq<byte>)
    ensures |s| >= 1
  {
    if v < 128 then [v] else [v % 128 + 128] + Encode(v / 128)
  }

  /** Bits needed for `x`, as `math/bits.Len64`. */
  function Len64(x: nat): nat {
    if x == 0 then 0 else 1 + Len64(x / 2)
  }

  /** The source's size of a varint: seven bits a byte, at least one byte. */
  function SizeOf(x: nat): nat {
    (Len64(BitOr(x, 1)) + 6) / 7
  }

  lemma OrOne(x: nat)
    ensures BitOr(x, 1) == (if x % 2 == 1 then x else x + 1)
  {
    assert BitOr(x, 1) == 2 * BitOr(x / 2, 0) + 1;
    BitOrSelfZero(x / 2);
  }

  /** The size formula is the length of the encoding. */
  lemma {:induction false} EncodeSize(v: nat)
    ensures |Encode(v)| == SizeOf(v)
    decreases v
  {
    if v < 128 {
      OrOne(v);
      Len64Small(BitOr(v, 1));
    } else {
      EncodeSize(v / 128);
      SizeStep(v);
    }
  }

  lemma SizeStep(v: nat)
    requires v >= 128
    ensures SizeOf(v) == 1 + SizeOf(v / 128)
  {
    hide BitOr, Len64;
    Len64OrOne(v);
    Len64OrOne(v / 128);
    Len64Drop7(v);
    SevenMore(Len64(v / 128));
  }

  lemma SevenMore(n: nat)
    ensures (7 + n + 6) / 7 == 1 + (n + 6) / 7
  {
  }

  lemma Len64OrOne(h: nat)
    requires h > 0
    ensures Len64(BitOr(h, 1)) == Len64(h)
  {
    OrOne(h);
    assert (h + 1) / 2 == h / 2 || h % 2 == 1;
  }

  lemma Len64Small(w: nat)
    requires 1 <= w < 128
    ensures 1 <= Len64(w) <= 7
  {
    var a := w / 2 / 2 / 2 / 2;
    assert Len64(a) <= 3;
    assert Len64(w / 2) <= 1 + Len64(w / 2 / 2) <= 2 + Len64(w / 2 / 2 / 2) <= 3 + Len64(a);
  }

  lemma Len64Drop7(w: nat)
    requires w >= 128
    ensures Len64(w) == 7 + Len64(w / 128)
  {
    var a := w / 2 / 2 / 2 / 2;
    assert Len64(w) == 2 + Len64(w / 2 / 2);
    assert Len64(w / 2 / 2) == 2 + Len64(a);
    assert Len64(a) == 2 + Len64(a / 2 / 2);
    assert a / 2 / 2 / 2 == w / 128;
  }

  /** A 64-bit word takes at most ten bytes. */
  lemma {:induction false} EncodeBounded(v: nat, k: nat)
    requires v < Pow2(7 * k + 1) && k <= 9
    ensures |Encode(v)| <= k + 1
    decreases v
  {
    if k == 0 {
      assert Pow2(1) == 2;
    } else if v >= 128 {
      Pow2Plus8(7 * (k - 1) + 1);
      EncodeBounded(v / 128, k - 1);
    }
  }

  /** The source's forward loop inside a backward writer: the varint of `v` ends up
      in front of `offset`, everything else is untouched. */
  method EncodeVarint(buf: array<byte>, offset: nat, v: uint64) returns (base: nat)
    requires SizeOf(v) <= offset <= buf.Length
    modifies buf
    ensures base == offset - SizeOf(v)
    ensures buf[base..offset] == Encode(v)
    ensures buf[..base] == old(buf[..base]) && buf[offset..] == old(buf[offset..])
  {
    hide SizeOf, Encode;
    EncodeSize(v);
    base := offset - SizeOf(v);
    var o, w: nat := base, v;
    ghost var before, after := buf[..base], buf[offset..];
    while w >= 128
      invariant base <= o && o + |Encode(w)| == offset
      invariant buf[base..o] + Encode(w) == Encode(v)
      invariant buf[..base] == before && buf[offset..] == after
      decreases w
    {
      EncodeHead(w);
      ghost var done := buf[base..o];
      PutByte(buf, base, o, offset, w % 128 + 128);
      assert done + [w % 128 + 128] + Encode(w / 128) == done + ([w % 128 + 128] + Encode(w / 128));
      w := w / 128;
      o := o + 1;
    }
    EncodeHead(w);
    PutByte(buf, base, o, offset, w);
  }

  lemma EncodeHead(w: nat)
    ensures Encode(w) == if w < 128 then [w] else [w % 128 + 128] + Encode(w / 128)
  {
  }

  /** `buf[o] = b`, seen on the parts of the buffer the writers reason about. */
  method PutByte(buf: array<byte>, base: nat, o: nat, end: nat, b: byte)
    requires base <= o < end <= buf.Length
    modifies buf
    ensures buf[base..o + 1] == old(buf[base..o]) + [b]
    ensures buf[..base] == old(buf[..base]) && buf[end..] == old(buf[end..])
  {
    buf[o] := b;
  }

  method PutByteBefore(buf: array<byte>, i: nat, b: byte) returns (j: nat)
    requires 0 < i <= buf.Length
    modifies buf
    ensures j == i - 1 && buf[j..] == [b] + old(buf[i..])
    ensures forall x :: 0 <= x < j ==> buf[x] == old(buf[x])
  {
    j := i - 1;
    buf[j] := b;
  }

  method PutVarintBefore(buf: array<byte>, i: nat, v: uint64) returns (j: nat)
    requires SizeOf(v) <= i <= buf.Length
    modifies buf
    ensures 0 <= j == i - SizeOf(v) && buf[j..] == Encode(v) + old(buf[i..])
    ensures forall x :: 0 <= x < j ==> buf[x] == old(buf[x])
  {
    hide SizeOf, Encode;
    j := EncodeVarint(buf, i, v);
    assert buf[j..] == buf[j..i] + buf[i..];
    assert forall x :: 0 <= x < j ==> buf[x] == buf[..j][x] == old(buf[..j])[x];
  }

  /* ----- decoding ----- */

  datatype Width = W32 | W64

  function Bits(w: Width): nat {
    if w.W32? then 32 else 64
  }

  function Modulus(w: Width): nat {
    if w.W32? then TWO32 else TWO64
  }

  /** The number a varint denotes: little-endian groups of seven bits. */
  function Value(s: seq<byte>): nat {
    if s == [] then 0 else s[0] % 128 + 128 * Value(s[1..])
  }

  /** The length of the varint `s` begins with, `k` bytes of it being read already: an
      eleventh byte is an overflow, and a byte below 0x80 ends the varint. */
  function VarintSize(s: seq<byte>, k: nat): (r: Result<nat>)
    ensures r.Ok? ==> 1 <= r.value <= |s|
    decreases |s|
  {
    if k >= 10 then Err(IntOverflow)
    else if s == [] then Err(UnexpectedEOF)
    else if s[0] < 128 then Ok(1)
    else
      match VarintSize(s[1..], k + 1)
      case Err(e) => Err(e)
      case Ok(n) => Ok(n + 1)
  }

  /** A varint read into a word keeps the low bits of its value. */
  function Read(s: seq<byte>, width: Width): (r: Result<Word>)
    ensures r.Ok? ==> 1 <= r.value.size <= |s| && r.value.bits < Modulus(width)
  {
    match VarintSize(s, 0)
    case Err(e) => Err(e)
    case Ok(n) => Ok(Word(Value(s[..n]) % Modulus(width), n))
  }

  /** The source's loop: groups are shifted into place and ORed into a word, where bits
      past the top are lost. */
  method ReadVarint(data: seq<byte>, start: nat, width: Width) returns (r: Result<Word>)
    requires start <= |data|
    ensures r == Read(data[start..], width)
  {
    hide Value, BitOr, ShiftLeft, Low;
    var shift, acc, i := 0, 0, start;
    EmptyGroups(data[start..i], width);
    while true
      invariant start <= i <= |data| && shift == 7 * (i - start)
      invariant acc == Low(Value(data[start..i]), Bits(width))
      invariant VarintSize(data[start..], 0) ==
                match VarintSize(data[i..], i - start)
                case Err(e) => Err(e)
                case Ok(n) => Ok(i - start + n)
      decreases |data| - i
    {
      if shift >= 64 {
        return Err(IntOverflow);
      }
      if i >= |data| {
        return Err(UnexpectedEOF);
      }
      var b := data[i];
      i := i + 1;
      acc := BitOr(acc, ShiftLeft(b % 128, shift, Bits(width)));
      ShiftInGroup(data[start..i - 1], b, width);
      assert data[start..i] == data[start..i - 1] + [b];
      assert data[i..] == data[i - 1..][1..];
      if b < 128 {
        assert data[start..][..i - start] == data[start..i];
        LowModulus(Value(data[start..i]), width);
        return Ok(Word(acc, i - start));
      }
      shift := shift + 7;
    }
  }

  /* ----- why the loop computes the value ----- */

  lemma LowModulus(x: nat, width: Width)
    ensures Low(x, Bits(width)) == x % Modulus(width)
  {
    LowIsMod(x, Bits(width));
    Pow2Widths();
  }

  lemma EmptyGroups(s: seq<byte>, width: Width)
    requires s == []
    ensures Low(Value(s), Bits(width)) == 0
  {
    LowBound(0, Bits(width));
  }

  /** `c` moved up by `n` bits in a word without a top. */
  function Scale(c: nat, n: nat): nat {
    if n == 0 then c else 2 * Scale(c, n - 1)
  }

  lemma ScaleBy7(c: nat, n: nat)
    ensures Scale(c, n + 7) == 128 * Scale(c, n)
  {
    assert Scale(c, n + 2) == 4 * Scale(c, n);
    assert Scale(c, n + 4) == 4 * Scale(c, n + 2);
    assert Scale(c, n + 6) == 4 * Scale(c, n + 4);
  }

  /** One more byte adds its group above all earlier ones. */
  lemma {:induction false} ValueAppend(s: seq<byte>, b: byte)
    ensures Value(s) < Pow2(7 * |s|)
    ensures Value(s + [b]) == Value(s) + Scale(b % 128, 7 * |s|)
  {
    if s == [] {
      assert Value([b][1..]) == 0;
    } else {
      var t := s[1..];
      ValueAppend(t, b);
      assert (s + [b])[1..] == t + [b];
      ScaleBy7(b % 128, 7 * |t|);
      Pow2Plus8(7 * |t|);
    }
  }

  /** Shifting and ORing in a word is adding without a top, then cutting to the word. */
  lemma {:induction false} OrAboveLow(v: nat, c: nat, shift: nat, width: nat)
    requires v < Pow2(shift)
    ensures BitOr(Low(v, width), ShiftLeft(c, shift, width)) == Low(v + Scale(c, shift), width)
    decreases shift
  {
    if width == 0 {
    } else if shift == 0 {
      LowBound(0, width);
      BitOrZero(Low(c, width));
    } else {
      OrAboveLow(v / 2, c, shift - 1, width - 1);
      BitOrDouble(Low(v, width), ShiftLeft(c, shift - 1, width - 1));
      var w := v + Scale(c, shift);
      assert w % 2 == v % 2 && w / 2 == v / 2 + Scale(c, shift - 1);
      assert Low(v, width) / 2 == Low(v / 2, width - 1);
    }
  }

  lemma BitOrDouble(a: nat, y: nat)
    ensures BitOr(a, 2 * y) == 2 * BitOr(a / 2, y) + a % 2
  {
    assert (2 * y) / 2 == y && (2 * y) % 2 == 0;
  }

  lemma ShiftInGroup(s: seq<byte>, b: byte, width: Width)
    ensures BitOr(Low(Value(s), Bits(width)), ShiftLeft(b % 128, 7 * |s|, Bits(width)))
            == Low(Value(s + [b]), Bits(width))
  {
    hide *;
    ValueAppend(s, b);
    OrAboveLow(Value(s), b % 128, 7 * |s|, Bits(width));
  }

  /* ----- which inputs are read ----- */

  /** Continuation bytes followed by one terminating byte. */
  predicate Terminated(s: seq<byte>) {
    s != [] && s[|s| - 1] < 128 && forall i :: 0 <= i < |s| - 1 ==> s[i] >= 128
  }

  predicate IsVarint(s: seq<byte>) {
    Terminated(s) && |s| <= 10
  }

  lemma {:induction false} SizeOfTerminated(p: seq<byte>, t: seq<byte>, k: nat)
    requires Terminated(p) && k + |p| <= 10
    ensures VarintSize(p + t, k) == Ok(|p|)
    decreases |p|
  {
    if |p| > 1 {
      assert (p + t)[1..] == p[1..] + t;
      SizeOfTerminated(p[1..], t, k + 1);
    }
  }

  /** Every varint reads as its value modulo the word size, whatever follows it. */
  lemma ReadValue(p: seq<byte>, t: seq<byte>, width: Width)
    requires IsVarint(p)
    ensures Read(p + t, width) == Ok(Word(Value(p) % Modulus(width), |p|))
  {
    hide Value;
    SizeOfTerminated(p, t, 0);
    assert (p + t)[..|p|] == p;
  }

  lemma {:induction false} VarintSizeSound(s: seq<byte>, k: nat)
    requires k <= 10
    ensures match VarintSize(s, k)
            case Ok(n) => Terminated(s[..n]) && k + n <= 10
            case Err(e) => forall i :: 0 <= i < |s| && k + i < 10 ==> s[i] >= 128
    decreases |s|
  {
    if k < 10 && s != [] && s[0] >= 128 {
      VarintSizeSound(s[1..], k + 1);
      match VarintSize(s[1..], k + 1) {
        case Ok(n) =>
          assert s[..n + 1] == [s[0]] + s[1..][..n];
        case Err(e) =>
          forall i | 0 <= i < |s| && k + i < 10 ensures s[i] >= 128 {
            if i > 0 { assert s[i] == s[1..][i - 1]; }
          }
      }
    }
  }

  /** The loop accepts exactly the byte strings that begin with a varint. */
  lemma ReadExact(s: seq<byte>, width: Width)
    ensures Read(s, width).Ok? <==> exists n :: 0 <= n <= |s| && IsVarint(s[..n])
    ensures Read(s, width).Ok? ==>
              var w := Read(s, width).value;
              IsVarint(s[..w.size]) && w.bits == Value(s[..w.size]) % Modulus(width)
  {
    hide Value;
    VarintSizeSound(s, 0);
    if Read(s, width).Err? {
      forall n | 0 <= n <= |s| ensures !IsVarint(s[..n]) {
        if 0 < n <= 10 {
          assert s[..n][n - 1] == s[n - 1] >= 128;
        }
      }
    }
  }

  lemma {:induction false} SizeErrors(s: seq<byte>, k: nat)
    requires k <= 10 && VarintSize(s, k).Err?
    ensures VarintSize(s, k) == Err(if |s| >= 10 - k then IntOverflow else UnexpectedEOF)
    decreases |s|
  {
    if s != [] && k < 10 && s[0] >= 128 {
      SizeErrors(s[1..], k + 1);
    }
  }

  /** Ten continuation bytes are an overflow, fewer at the end of the input an unexpected end;
      there is no other error. */
  lemma ReadErrors(s: seq<byte>, width: Width)
    ensures Read(s, width) == Err(IntOverflow) <==> |s| >= 10 && forall i :: 0 <= i < 10 ==> s[i] >= 128
    ensures Read(s, width) == Err(UnexpectedEOF) <==> |s| < 10 && forall i :: 0 <= i < |s| ==> s[i] >= 128
    ensures Read(s, width).Err? ==> Read(s, width).error in {IntOverflow, UnexpectedEOF}
  {
    hide VarintSize;
    VarintSizeSound(s, 0);
    if VarintSize(s, 0).Err? {
      SizeErrors(s, 0);
    } else {
      var n := VarintSize(s, 0).value;
      assert s[..n][n - 1] == s[n - 1];
    }
  }

  lemma {:induction false} EncodeTerminated(v: nat)
    ensures Terminated(Encode(v)) && Value(Encode(v)) == v
    decreases v
  {
    if v < 128 {
      assert Value([v][1..]) == 0;
    } else {
      EncodeTerminated(v / 128);
      ContinueVarint(v % 128 + 128, Encode(v / 128));
    }
  }

  lemma ContinueVarint(b: byte, s: seq<byte>)
    requires b >= 128 && Terminated(s)
    ensures Terminated([b] + s) && Value([b] + s) == b - 128 + 128 * Value(s)
  {
    assert ([b] + s)[1..] == s;
  }

  /** Round trip for every 64-bit word, at every target width. */
  lemma ReadEncode(v: uint64, t: seq<byte>, width: Width)
    ensures IsVarint(Encode(v))
    ensures Read(Encode(v) + t, width) == Ok(Word(v % Modulus(width), |Encode(v)|))
  {
    hide Value, Read, Encode, Pow2;
    EncodeTerminated(v);
    Pow2Widths();
    EncodeBounded(v, 9);
    ReadValue(Encode(v), t, width);
  }

  /** A successful read does not look past the varint. */
  lemma ReadPrefix(s: seq<byte>, t: seq<byte>, width: Width)
    requires Read(s, width).Ok?
    ensures Read(s + t, width) == Read(s, width)
  {
    hide Read, Value;
    ReadExact(s, width);
    var n := Read(s, width).value.size;
    ReadValue(s[..n], s[n..], width);
    ReadValue(s[..n], s[n..] + t, width);
    assert s == s[..n] + s[n..];
    assert s + t == s[..n] + (s[n..] + t);
  }
}
