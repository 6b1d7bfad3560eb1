/** The protobuf codec of `TxResult`, the value stored in the Ethereum tx index. */
module TxResultCodec {
  import opened Words
  import opened Varint
  import Wire

  datatype TxResult = TxResult(
    height: int64,
    txIndex: uint32,
    msgIndex: uint32,
    ethTxIndex: int32,
    failed: bool,
    gasUsed: uint64,
    cumulativeGasUsed: uint64
  )

  const ZERO := TxResult(0, 0, 0, 0, false, 0, 0)

  /** The 64-bit pattern the encoder writes for field `num`. */
  function Pattern(m: TxResult, num: nat): uint64
    requires 1 <= num <= 7
  {
    match num
    case 1 => ToUint64(m.height)
    case 2 => m.txIndex
    case 3 => m.msgIndex
    case 4 => ToUint64(m.ethTxIndex)
    case 5 => if m.failed then 1 else 0
    case 6 => m.gasUsed
    case 7 => m.cumulativeGasUsed
  }

  function WidthOf(num: nat): Width {
    if 2 <= num <= 4 then W32 else W64
  }

  /** Field `num` replaced by what the decoder makes of the word `bits`. */
  function Set(m: TxResult, num: nat, bits: nat): TxResult
    requires 1 <= num <= 7 && bits < Modulus(WidthOf(num))
  {
    match num
    case 1 => m.(height := ToInt64(bits))
    case 2 => m.(txIndex := bits)
    case 3 => m.(msgIndex := bits)
    case 4 => m.(ethTxIndex := ToInt32(bits))
    case 5 => m.(failed := bits != 0)
    case 6 => m.(gasUsed := bits)
    case 7 => m.(cumulativeGasUsed := bits)
  }

  /* ----- encoder ----- */

  /** A zero field is left out; any other is its tag and its varint. */
  function FieldBytes(num: nat, v: uint64): seq<byte>
    requires 1 <= num <= 7
  {
    if v == 0 then [] else [8 * num] + Encode(v)
  }

  /** Fields `num` to 7 in order of their numbers. */
  function MarshalFrom(m: TxResult, num: nat): seq<byte>
    requires 1 <= num <= 8
    decreases 8 - num
  {
    if num == 8 then [] else FieldBytes(num, Pattern(m, num)) + MarshalFrom(m, num + 1)
  }

  function Marshal(m: TxResult): seq<byte> {
    MarshalFrom(m, 1)
  }

  /** The layout of the message: fields by number, each with the word it holds. */
  lemma MarshalLayout(m: TxResult)
    ensures Marshal(m) ==
            FieldBytes(1, ToUint64(m.height)) + (FieldBytes(2, m.txIndex) + (FieldBytes(3, m.msgIndex)
            + (FieldBytes(4, ToUint64(m.ethTxIndex)) + (FieldBytes(5, if m.failed then 1 else 0)
            + (FieldBytes(6, m.gasUsed) + FieldBytes(7, m.cumulativeGasUsed))))))
  {
    hide FieldBytes;
    assert MarshalFrom(m, 7) == FieldBytes(7, m.cumulativeGasUsed);
    assert MarshalFrom(m, 5) ==
           FieldBytes(5, if m.failed then 1 else 0) + (FieldBytes(6, m.gasUsed) + MarshalFrom(m, 7));
    assert MarshalFrom(m, 3) ==
           FieldBytes(3, m.msgIndex) + (FieldBytes(4, ToUint64(m.ethTxIndex)) + MarshalFrom(m, 5));
  }

  function FieldSize(v: uint64): nat {
    if v == 0 then 0 else 1 + SizeOf(v)
  }

  /** The source's size function, field by field. */
  function Size(m: TxResult): nat {
    FieldSize(ToUint64(m.height)) + FieldSize(m.txIndex) + FieldSize(m.msgIndex)
    + FieldSize(ToUint64(m.ethTxIndex)) + (if m.failed then 2 else 0)
    + FieldSize(m.gasUsed) + FieldSize(m.cumulativeGasUsed)
  }

  lemma FieldBytesSize(num: nat, v: uint64)
    requires 1 <= num <= 7
    ensures |FieldBytes(num, v)| == FieldSize(v)
  {
    EncodeSize(v);
  }

  lemma {:induction false} MarshalFromSize(m: TxResult, num: nat)
    requires 1 <= num <= 8
    ensures |MarshalFrom(m, num)| == SizeFrom(m, num)
    decreases 8 - num
  {
    if num < 8 {
      FieldBytesSize(num, Pattern(m, num));
      MarshalFromSize(m, num + 1);
    }
  }

  function SizeFrom(m: TxResult, num: nat): nat
    requires 1 <= num <= 8
    decreases 8 - num
  {
    if num == 8 then 0 else FieldSize(Pattern(m, num)) + SizeFrom(m, num + 1)
  }

  /** The size function is exact. */
  lemma MarshalSize(m: TxResult)
    ensures |Marshal(m)| == Size(m)
  {
    hide SizeOf;
    MarshalFromSize(m, 1);
    assert SizeOf(1) == 1 by { EncodeSize(1); }
    assert SizeFrom(m, 5) == (if m.failed then 2 else 0) + SizeFrom(m, 6);
    assert SizeFrom(m, 6) == FieldSize(m.gasUsed) + FieldSize(m.cumulativeGasUsed);
    assert SizeFrom(m, 3) == FieldSize(m.msgIndex) + FieldSize(ToUint64(m.ethTxIndex)) + SizeFrom(m, 5);
  }

  /** Writes field `num` in front of index `i`, if it is not zero. */
  method PutField(buf: array<byte>, i: nat, num: nat, v: uint64) returns (j: nat)
    requires 1 <= num <= 7 && FieldSize(v) <= i <= buf.Length
    modifies buf
    ensures j == i - FieldSize(v)
    ensures buf[j..] == FieldBytes(num, v) + old(buf[i..])
    ensures forall x :: 0 <= x < j ==> buf[x] == old(buf[x])
  {
    j := i;
    if v != 0 {
      hide Encode, SizeOf;
      ghost var tail := buf[i..];
      j := PutVarintBefore(buf, i, v);
      j := PutByteBefore(buf, j, 8 * num);
      assert [8 * num] + (Encode(v) + tail) == [8 * num] + Encode(v) + tail;
    }
  }

  /** Field `num` of the message, in front of the later ones. */
  method PutNext(m: TxResult, num: nat, buf: array<byte>, i: nat) returns (j: nat)
    requires 1 <= num <= 7 && SizeFrom(m, 1) <= buf.Length
    requires i == buf.Length - SizeFrom(m, num + 1) && buf[i..] == MarshalFrom(m, num + 1)
    modifies buf
    ensures 0 <= j <= i && j == buf.Length - SizeFrom(m, num) && buf[j..] == MarshalFrom(m, num)
    ensures forall x :: 0 <= x < j ==> buf[x] == old(buf[x])
  {
    hide SizeOf, Encode, FieldBytes, FieldSize;
    SizeFromMonotone(m, 1, num);
    j := PutField(buf, i, num, Pattern(m, num));
  }

  lemma AllFields(m: TxResult)
    ensures Marshal(m) == MarshalFrom(m, 1) && Size(m) == SizeFrom(m, 1)
    ensures MarshalFrom(m, 8) == [] && SizeFrom(m, 8) == 0
  {
    MarshalSize(m);
    MarshalFromSize(m, 1);
  }

  /** The backward writer: the highest field first, towards the front of the buffer.
      The flag is written as the byte 1, which is the varint of 1. */
  method MarshalToSizedBuffer(m: TxResult, buf: array<byte>) returns (n: nat)
    requires Size(m) <= buf.Length
    modifies buf
    ensures n == Size(m)
    ensures buf[buf.Length - n..] == Marshal(m)
    ensures forall x :: 0 <= x < buf.Length - n ==> buf[x] == old(buf[x])
  {
    hide *;
    AllFields(m);
    var i := PutNext(m, 7, buf, buf.Length);
    i := PutNext(m, 6, buf, i);
    i := PutNext(m, 5, buf, i);
    i := PutNext(m, 4, buf, i);
    i := PutNext(m, 3, buf, i);
    i := PutNext(m, 2, buf, i);
    i := PutNext(m, 1, buf, i);
    n := buf.Length - i;
  }

  lemma {:induction false} SizeFromMonotone(m: TxResult, a: nat, b: nat)
    requires 1 <= a <= b <= 8
    ensures SizeFrom(m, a) >= SizeFrom(m, b)
    decreases b - a
  {
    if a < b {
      SizeFromMonotone(m, a + 1, b);
    }
  }

  /* ----- decoder ----- */

  /** One turn of the decoder on the unread input `s`, which starts at index `base`:
      the message updated and the number of bytes consumed. */
  function FieldStep(m: TxResult, s: seq<byte>, base: nat): (r: Result<(TxResult, nat)>)
    ensures r.Ok? ==> 1 <= r.value.1 <= |s|
  {
    match Read(s, W64)
    case Err(e) => Err(e)
    case Ok(tag) =>
      var num := Wire.FieldNumber(tag.bits);
      if tag.bits % 8 == 4 then Err(EndGroupOutsideGroup)
      else if num <= 0 then Err(IllegalTag)
      else if num <= 7 then
        if tag.bits % 8 != 0 then Err(WrongWireType)
        else
          match Read(s[tag.size..], WidthOf(num))
          case Err(e) => Err(e)
          case Ok(w) => Ok((Set(m, num, w.bits), tag.size + w.size))
      else
        match Wire.Skip(s)
        case Err(e) => Err(e)
        case Ok(n) =>
          if base + n >= TWO63 then Err(InvalidLength)
          else if n > |s| then Err(UnexpectedEOF)
          else Ok((m, n))
  }

  function UnmarshalFrom(m: TxResult, s: seq<byte>, base: nat): Result<TxResult>
    decreases |s|
  {
    if s == [] then Ok(m)
    else
      match FieldStep(m, s, base)
      case Err(e) => Err(e)
      case Ok(p) => UnmarshalFrom(p.0, s[p.1..], base + p.1)
  }

  /** Decoding into a message that already holds `m`. */
  function Merge(m: TxResult, s: seq<byte>): Result<TxResult> {
    UnmarshalFrom(m, s, 0)
  }

  function Unmarshal(s: seq<byte>): Result<TxResult> {
    Merge(ZERO, s)
  }

  /** The body of the decoder's loop. */
  method DecodeField(m: TxResult, data: seq<byte>, start: nat)
    returns (r: Result<(TxResult, nat)>)
    requires start < |data|
    ensures r == FieldStep(m, data[start..], start)
  {
    hide Read, Wire.Skip;
    var tag := ReadVarint(data, start, W64);
    if tag.Err? {
      return Err(tag.error);
    }
    var i := start + tag.value.size;
    assert data[start..][tag.value.size..] == data[i..];
    var num := Wire.FieldNumber(tag.value.bits);
    if tag.value.bits % 8 == 4 {
      return Err(EndGroupOutsideGroup);
    }
    if num <= 0 {
      return Err(IllegalTag);
    }
    if num <= 7 {
      if tag.value.bits % 8 != 0 {
        return Err(WrongWireType);
      }
      var w := ReadVarint(data, i, WidthOf(num));
      if w.Err? {
        return Err(w.error);
      }
      return Ok((Set(m, num, w.value.bits), i + w.value.size - start));
    }
    var skippy := Wire.SkipField(data[start..]);
    if skippy.Err? {
      return Err(skippy.error);
    }
    if start + skippy.value >= TWO63 {
      return Err(InvalidLength);
    }
    if start + skippy.value > |data| {
      return Err(UnexpectedEOF);
    }
    return Ok((m, skippy.value));
  }

  /** The decoder's loop; it terminates on every byte string. */
  method Decode(m: TxResult, data: seq<byte>) returns (r: Result<TxResult>)
    ensures r == Merge(m, data)
  {
    hide FieldStep;
    var acc, i := m, 0;
    assert data[0..] == data;
    while i < |data|
      invariant 0 <= i <= |data|
      invariant Merge(m, data) == UnmarshalFrom(acc, data[i..], i)
    {
      var step := DecodeField(acc, data, i);
      if step.Err? {
        return Err(step.error);
      }
      assert data[i..][step.value.1..] == data[i + step.value.1..];
      acc, i := step.value.0, i + step.value.1;
    }
    return Ok(acc);
  }

  /* ----- round trip ----- */

  lemma ReadFieldTag(num: nat, t: seq<byte>)
    requires 1 <= num <= 7
    ensures Read([8 * num] + t, W64) == Ok(Word(8 * num, 1))
    ensures ([8 * num] + t)[1..] == t
    ensures Wire.FieldNumber(8 * num) == num
  {
    assert Encode(8 * num) == [8 * num];
    ReadEncode(8 * num, t, W64);
  }

  lemma FieldStepEncoded(m: TxResult, num: nat, v: uint64, t: seq<byte>, base: nat)
    requires 1 <= num <= 7
    ensures var s := [8 * num] + (Encode(v) + t);
            && FieldStep(m, s, base) == Ok((Set(m, num, v % Modulus(WidthOf(num))), 1 + |Encode(v)|))
            && s[1 + |Encode(v)|..] == t
  {
    hide Read, Encode, Set;
    ReadFieldTag(num, Encode(v) + t);
    ReadEncode(v, t, WidthOf(num));
  }

  /** Decoding an encoded field sets it to the word of its width. */
  lemma DecodeFieldBytes(m: TxResult, num: nat, v: uint64, t: seq<byte>, base: nat)
    requires 1 <= num <= 7
    requires Set(m, num, 0) == m
    ensures UnmarshalFrom(m, FieldBytes(num, v) + t, base) ==
            UnmarshalFrom(Set(m, num, v % Modulus(WidthOf(num))), t, base + |FieldBytes(num, v)|)
  {
    hide FieldStep, Encode, Set;
    if v == 0 {
      assert FieldBytes(num, v) + t == t;
    } else {
      FieldStepEncoded(m, num, v, t, base);
      assert FieldBytes(num, v) + t == [8 * num] + (Encode(v) + t);
    }
  }

  /** The message with fields `num` and above still zero. */
  function Below(m: TxResult, num: nat): TxResult
    requires 1 <= num <= 8
  {
    TxResult(
      if num > 1 then m.height else 0,
      if num > 2 then m.txIndex else 0,
      if num > 3 then m.msgIndex else 0,
      if num > 4 then m.ethTxIndex else 0,
      num > 5 && m.failed,
      if num > 6 then m.gasUsed else 0,
      if num > 7 then m.cumulativeGasUsed else 0)
  }

  /** A field's pattern, cut to its word, decodes to the field: negative 32-bit values
      are sign-extended by the encoder and cut back by the decoder. */
  lemma SetPattern(m: TxResult, num: nat)
    requires 1 <= num <= 7
    ensures Set(Below(m, num), num, 0) == Below(m, num)
    ensures Set(Below(m, num), num, Pattern(m, num) % Modulus(WidthOf(num))) == Below(m, num + 1)
  {
  }

  lemma NothingLeft(m: TxResult, base: nat)
    ensures UnmarshalFrom(Below(m, 8), [], base) == Ok(m)
  {
  }

  lemma {:induction false} UnmarshalMarshalFrom(m: TxResult, num: nat, base: nat)
    requires 1 <= num <= 8
    ensures UnmarshalFrom(Below(m, num), MarshalFrom(m, num), base) == Ok(m)
    decreases 8 - num
  {
    hide FieldBytes, FieldStep, UnmarshalFrom, Set, Pattern, Below;
    if num == 8 {
      NothingLeft(m, base);
    } else {
      var f := FieldBytes(num, Pattern(m, num));
      SetPattern(m, num);
      DecodeFieldBytes(Below(m, num), num, Pattern(m, num), MarshalFrom(m, num + 1), base);
      UnmarshalMarshalFrom(m, num + 1, base + |f|);
    }
  }

  /** Every record survives the codec, negative heights and indices included. */
  lemma RoundTrip(m: TxResult)
    ensures Unmarshal(Marshal(m)) == Ok(m)
  {
    UnmarshalMarshalFrom(m, 1, 0);
    assert Below(m, 1) == ZERO;
  }

  lemma MarshalInjective(m1: TxResult, m2: TxResult)
    requires Marshal(m1) == Marshal(m2)
    ensures m1 == m2
  {
    hide *;
    RoundTrip(m1);
    RoundTrip(m2);
  }

  /** Only the all-zero record is stored as the empty value. */
  lemma MarshalEmpty(m: TxResult)
    ensures Marshal(m) == [] <==> m == ZERO
  {
    hide UnmarshalFrom, Encode;
    assert MarshalFrom(ZERO, 4) == [];
    assert MarshalFrom(ZERO, 2) == [];
    RoundTrip(m);
    RoundTrip(ZERO);
  }

  /* ----- concatenation is merging ----- */

  /** A field that decodes does so whatever follows it. */
  lemma FieldStepPrefix(m: TxResult, s: seq<byte>, t: seq<byte>, base: nat)
    requires FieldStep(m, s, base).Ok?
    ensures FieldStep(m, s + t, base) == FieldStep(m, s, base)
  {
    hide Read, Wire.SkipLoop, Set;
    ReadPrefix(s, t, W64);
    var tag := Read(s, W64).value;
    var num := Wire.FieldNumber(tag.bits);
    if num <= 7 {
      assert (s + t)[tag.size..] == s[tag.size..] + t;
      ReadPrefix(s[tag.size..], t, WidthOf(num));
    } else {
      Wire.SkipPrefix(s, t);
    }
  }

  /** Decoding two messages one after the other is decoding the second into the first. */
  lemma {:induction false} UnmarshalConcat(m: TxResult, s: seq<byte>, t: seq<byte>, base: nat)
    requires UnmarshalFrom(m, s, base).Ok?
    ensures UnmarshalFrom(m, s + t, base) ==
            UnmarshalFrom(UnmarshalFrom(m, s, base).value, t, base + |s|)
    decreases |s|
  {
    hide FieldStep;
    if s == [] {
      assert s + t == t;
    } else {
      FieldStepPrefix(m, s, t, base);
      var p := FieldStep(m, s, base).value;
      assert (s + t)[p.1..] == s[p.1..] + t;
      UnmarshalConcat(p.0, s[p.1..], t, base + p.1);
    }
  }

  /** Two decodings agree: both fail, or both yield the same message. */
  predicate Agree(a: Result<TxResult>, b: Result<TxResult>) {
    a.Ok? == b.Ok? && (a.Ok? ==> a == b)
  }

  /** Where the input starts decides at most which error is reported. */
  lemma {:induction false} BaseIrrelevant(m: TxResult, s: seq<byte>, b1: nat, b2: nat)
    requires b1 + |s| < TWO63 && b2 + |s| < TWO63
    ensures Agree(UnmarshalFrom(m, s, b1), UnmarshalFrom(m, s, b2))
    decreases |s|
  {
    hide FieldStep;
    if s != [] {
      FieldStepBase(m, s, b1, b2);
      var r := FieldStep(m, s, b1);
      if r.Ok? {
        BaseIrrelevant(r.value.0, s[r.value.1..], b1 + r.value.1, b2 + r.value.1);
      }
    }
  }

  lemma FieldStepBase(m: TxResult, s: seq<byte>, b1: nat, b2: nat)
    requires b1 + |s| < TWO63 && b2 + |s| < TWO63
    ensures var r1, r2 := FieldStep(m, s, b1), FieldStep(m, s, b2);
            r1.Ok? == r2.Ok? && (r1.Ok? ==> r1 == r2)
  {
    hide Read, Wire.Skip, Set;
  }

  /** A well-formed field with a number the message does not have, groups included,
      leaves the message as it is. */
  lemma UnknownFieldIgnored(m: TxResult, f: Wire.Field, base: nat)
    requires Wire.Valid(f) && Wire.FieldNumber(Value(f.tag) % TWO64) > 7
    requires base + |Wire.Bytes(f)| < TWO63
    ensures UnmarshalFrom(m, Wire.Bytes(f), base) == Ok(m)
  {
    hide Read, Wire.SkipLoop, Value, Wire.Valid, Wire.Bytes, Set;
    Wire.SkipOne(f, [], 0, 0);
    var s := Wire.Bytes(f);
    assert s + [] == s;
    Wire.ReadFirstTag(f);
    assert s[|s|..] == [];
  }

  /** Inserting such a field between whole fields does not change what is decoded. */
  lemma UnknownFieldInsertion(a: seq<byte>, f: Wire.Field, b: seq<byte>)
    requires Unmarshal(a).Ok?
    requires Wire.Valid(f) && Wire.FieldNumber(Value(f.tag) % TWO64) > 7
    requires |a| + |Wire.Bytes(f)| + |b| < TWO63
    ensures Agree(Unmarshal(a + Wire.Bytes(f) + b), Unmarshal(a + b))
  {
    hide UnmarshalFrom, Value, Wire.Valid, Wire.Bytes, Wire.FieldNumber;
    var u, m := Wire.Bytes(f), Unmarshal(a).value;
    UnmarshalConcat(ZERO, a, b, 0);
    UnmarshalConcat(ZERO, a, u, 0);
    UnknownFieldIgnored(m, f, |a|);
    UnmarshalConcat(ZERO, a + u, b, 0);
    BaseIrrelevant(m, b, |a| + |u|, |a|);
  }
}
