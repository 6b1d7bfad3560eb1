/** The protobuf codec of `ExtensionOptionsWeb3Tx`, which adds length-delimited fields. */
module Web3Codec {
  import opened Words
  import opened Varint
  import Wire

  datatype Web3Tx = Web3Tx(typedDataChainID: uint64, feePayer: seq<byte>, feePayerSig: seq<byte>)

  const ZERO := Web3Tx(0, [], [])

  /* ----- encoder ----- */

  function ChainIdBytes(v: uint64): seq<byte> {
    if v == 0 then [] else [0x08] + Encode(v)
  }

  /** An empty field is left out; any other is its tag, its length and its content. */
  function ContentBytes(tag: byte, c: seq<byte>): seq<byte> {
    if c == [] then [] else [tag] + (Encode(|c|) + c)
  }

  function Marshal(m: Web3Tx): seq<byte> {
    ChainIdBytes(m.typedDataChainID) + (ContentBytes(0x12, m.feePayer) + ContentBytes(0x1a, m.feePayerSig))
  }

  function ContentSize(c: seq<byte>): nat {
    if c == [] then 0 else 1 + |c| + SizeOf(|c|)
  }

  function Size(m: Web3Tx): nat {
    (if m.typedDataChainID == 0 then 0 else 1 + SizeOf(m.typedDataChainID))
    + ContentSize(m.feePayer) + ContentSize(m.feePayerSig)
  }

  lemma ContentBytesSize(tag: byte, c: seq<byte>)
    ensures |ContentBytes(tag, c)| == ContentSize(c)
  {
    EncodeSize(|c|);
  }

  /** The size function is exact. */
  lemma MarshalSize(m: Web3Tx)
    ensures |Marshal(m)| == Size(m)
  {
    hide SizeOf, Encode;
    EncodeSize(m.typedDataChainID);
    ContentBytesSize(0x12, m.feePayer);
    ContentBytesSize(0x1a, m.feePayerSig);
  }

  /** `copy(dAtA[i:], c)` after moving `i` back by the length of `c`. */
  method CopyBefore(buf: array<byte>, i: nat, c: seq<byte>) returns (j: nat)
    requires |c| <= i <= buf.Length
    modifies buf
    ensures j == i - |c| && buf[j..] == c + old(buf[i..])
    ensures forall x :: 0 <= x < j ==> buf[x] == old(buf[x])
  {
    j := i - |c|;
    forall x | 0 <= x < |c| {
      buf[j + x] := c[x];
    }
    assert buf[j..i] == c;
    assert buf[j..] == buf[j..i] + buf[i..];
  }

  method PutContent(buf: array<byte>, i: nat, tag: byte, c: seq<byte>) returns (j: nat)
    requires ContentSize(c) <= i <= buf.Length && |c| < TWO64
    modifies buf
    ensures 0 <= j == i - ContentSize(c)
    ensures buf[j..] == ContentBytes(tag, c) + old(buf[i..])
    ensures forall x :: 0 <= x < j ==> buf[x] == old(buf[x])
  {
    hide SizeOf, Encode, ContentBytes;
    j := i;
    if |c| == 0 {
      NoContent(tag, c);
      assert [] + buf[i..] == buf[i..];
    } else {
      ghost var tail := buf[i..];
      j := CopyBefore(buf, j, c);
      j := PutVarintBefore(buf, j, |c|);
      j := PutByteBefore(buf, j, tag);
      ContentInFront(tag, c, tail);
    }
  }

  lemma ContentInFront(tag: byte, c: seq<byte>, tail: seq<byte>)
    requires c != []
    ensures [tag] + (Encode(|c|) + (c + tail)) == ContentBytes(tag, c) + tail
  {
    hide Encode;
    Regroup([tag], Encode(|c|), c, tail);
  }

  lemma NoContent(tag: byte, c: seq<byte>)
    requires c == []
    ensures ContentBytes(tag, c) == []
  {
  }

  /** The backward writer. */
  method MarshalToSizedBuffer(m: Web3Tx, buf: array<byte>) returns (n: nat)
    requires Size(m) <= buf.Length < TWO63
    modifies buf
    ensures n == Size(m)
    ensures buf[buf.Length - n..] == Marshal(m)
    ensures forall x :: 0 <= x < buf.Length - n ==> buf[x] == old(buf[x])
  {
    hide SizeOf, Encode, ContentBytes;
    var i := PutContent(buf, buf.Length, 0x1a, m.feePayerSig);
    i := PutContent(buf, i, 0x12, m.feePayer);
    ghost var tail := buf[i..];
    assert tail == ContentBytes(0x12, m.feePayer) + ContentBytes(0x1a, m.feePayerSig);
    if m.typedDataChainID != 0 {
      i := PutVarintBefore(buf, i, m.typedDataChainID);
      i := PutByteBefore(buf, i, 0x08);
      assert [0x08] + (Encode(m.typedDataChainID) + tail) == ChainIdBytes(m.typedDataChainID) + tail;
    }
    n := buf.Length - i;
  }

  /* ----- decoder ----- */

  /** The content announced by the length varint at the front of `s`, which starts at
      index `base`, and the bytes taken by both. */
  function ReadContent(s: seq<byte>, base: nat): (r: Result<(seq<byte>, nat)>)
    ensures r.Ok? ==> 1 <= r.value.1 <= |s|
  {
    match Read(s, W64)
    case Err(e) => Err(e)
    case Ok(w) =>
      if w.bits >= TWO63 then Err(InvalidLength)
      else if base + w.size + w.bits >= TWO63 then Err(InvalidLength)
      else if w.size + w.bits > |s| then Err(UnexpectedEOF)
      else Ok((s[w.size..w.size + w.bits], w.size + w.bits))
  }

  function FieldStep(m: Web3Tx, s: seq<byte>, base: nat): (r: Result<(Web3Tx, nat)>)
    ensures r.Ok? ==> 1 <= r.value.1 <= |s|
  {
    match Read(s, W64)
    case Err(e) => Err(e)
    case Ok(tag) =>
      var num := Wire.FieldNumber(tag.bits);
      if tag.bits % 8 == 4 then Err(EndGroupOutsideGroup)
      else if num <= 0 then Err(IllegalTag)
      else if num == 1 then
        if tag.bits % 8 != 0 then Err(WrongWireType)
        else
          match Read(s[tag.size..], W64)
          case Err(e) => Err(e)
          case Ok(w) => Ok((m.(typedDataChainID := w.bits), tag.size + w.size))
      else if num <= 3 then
        if tag.bits % 8 != 2 then Err(WrongWireType)
        else
          match ReadContent(s[tag.size..], base + tag.size)
          case Err(e) => Err(e)
          case Ok(p) =>
            Ok((if num == 2 then m.(feePayer := p.0) else m.(feePayerSig := p.0), tag.size + p.1))
      else
        match Wire.Skip(s)
        case Err(e) => Err(e)
        case Ok(n) =>
          if base + n >= TWO63 then Err(InvalidLength)
          else if n > |s| then Err(UnexpectedEOF)
          else Ok((m, n))
  }

  function UnmarshalFrom(m: Web3Tx, s: seq<byte>, base: nat): Result<Web3Tx>
    decreases |s|
  {
    if s == [] then Ok(m)
    else
      match FieldStep(m, s, base)
      case Err(e) => Err(e)
      case Ok(p) => UnmarshalFrom(p.0, s[p.1..], base + p.1)
  }

  function Unmarshal(s: seq<byte>): Result<Web3Tx> {
    UnmarshalFrom(ZERO, s, 0)
  }

  method DecodeContent(data: seq<byte>, start: nat) returns (r: Result<(seq<byte>, nat)>)
    requires start <= |data|
    ensures r == ReadContent(data[start..], start)
  {
    hide Read;
    var length := ReadVarint(data, start, W64);
    if length.Err? {
      return Err(length.error);
    }
    if length.value.bits >= TWO63 {
      return Err(InvalidLength);
    }
    var i := start + length.value.size;
    var postIndex := i + length.value.bits;
    if postIndex >= TWO63 {
      return Err(InvalidLength);
    }
    if postIndex > |data| {
      return Err(UnexpectedEOF);
    }
    assert data[start..][length.value.size..postIndex - start] == data[i..postIndex];
    return Ok((data[i..postIndex], postIndex - start));
  }

  /** The body of the decoder's loop. */
  method DecodeField(m: Web3Tx, data: seq<byte>, start: nat) returns (r: Result<(Web3Tx, nat)>)
    requires start < |data|
    ensures r == FieldStep(m, data[start..], start)
  {
    hide Read, ReadContent, Wire.Skip;
    var tag := ReadVarint(data, start, W64);
    if tag.Err? {
      return Err(tag.error);
    }
    var i := start + tag.value.size;
    assert data[start..][tag.value.size..] == data[i..];
    var num, wireType := Wire.FieldNumber(tag.value.bits), tag.value.bits % 8;
    if wireType == 4 {
      return Err(EndGroupOutsideGroup);
    }
    if num <= 0 {
      return Err(IllegalTag);
    }
    if num == 1 {
      if wireType != 0 {
        return Err(WrongWireType);
      }
      var w := ReadVarint(data, i, W64);
      if w.Err? {
        return Err(w.error);
      }
      return Ok((m.(typedDataChainID := w.value.bits), tag.value.size + w.value.size));
    }
    if num <= 3 {
      if wireType != 2 {
        return Err(WrongWireType);
      }
      var c := DecodeContent(data, i);
      if c.Err? {
        return Err(c.error);
      }
      if num == 2 {
        return Ok((m.(feePayer := c.value.0), tag.value.size + c.value.1));
      }
      return Ok((m.(feePayerSig := c.value.0), tag.value.size + c.value.1));
    }
    var skippy := Wire.SkipField(data[start..]);
    if skippy.Err? {
      return Err(skippy.error);
    }
    if start + skippy.value >= TWO63 {
      return Err(InvalidLength);
    }
    if start + skippy.value > |data| {
      return Err(UnexpectedEOF);
    }
    return Ok((m, skippy.value));
  }

  method Decode(data: seq<byte>) returns (r: Result<Web3Tx>)
    ensures r == Unmarshal(data)
  {
    hide FieldStep;
    var acc, i := ZERO, 0;
    assert data[0..] == data;
    while i < |data|
      invariant 0 <= i <= |data|
      invariant Unmarshal(data) == UnmarshalFrom(acc, data[i..], i)
    {
      var step := DecodeField(acc, data, i);
      if step.Err? {
        return Err(step.error);
      }
      assert data[i..][step.value.1..] == data[i + step.value.1..];
      acc, i := step.value.0, i + step.value.1;
    }
    return Ok(acc);
  }

  /* ----- round trip ----- */

  lemma ReadSmall(tag: byte, t: seq<byte>)
    requires tag < 128
    ensures Read([tag] + t, W64) == Ok(Word(tag, 1)) && ([tag] + t)[1..] == t
  {
    assert Encode(tag) == [tag];
    ReadEncode(tag, t, W64);
  }

  lemma DecodeChainId(m: Web3Tx, v: uint64, t: seq<byte>, base: nat)
    requires m.typedDataChainID == 0
    ensures UnmarshalFrom(m, ChainIdBytes(v) + t, base) ==
            UnmarshalFrom(m.(typedDataChainID := v), t, base + |ChainIdBytes(v)|)
  {
    hide FieldStep, Encode;
    if v == 0 {
      assert ChainIdBytes(v) + t == t;
    } else {
      var s := [0x08] + (Encode(v) + t);
      assert ChainIdBytes(v) + t == s;
      ChainIdStep(m, v, t, base);
      assert s[1 + |Encode(v)|..] == t;
    }
  }

  lemma ChainIdStep(m: Web3Tx, v: uint64, t: seq<byte>, base: nat)
    ensures FieldStep(m, [0x08] + (Encode(v) + t), base) == Ok((m.(typedDataChainID := v), 1 + |Encode(v)|))
  {
    hide Read, Encode, ReadContent, Wire.Skip;
    ReadSmall(0x08, Encode(v) + t);
    ReadEncode(v, t, W64);
  }

  lemma ReadContentEncoded(c: seq<byte>, t: seq<byte>, base: nat)
    requires base + |Encode(|c|)| + |c| < TWO63
    ensures ReadContent(Encode(|c|) + (c + t), base) == Ok((c, |Encode(|c|)| + |c|))
  {
    hide Read, Encode;
    var e := Encode(|c|);
    ReadEncode(|c|, c + t, W64);
    assert (e + (c + t))[|e|..|e| + |c|] == c;
  }

  /** Decoding an encoded string or byte field yields its content. */
  lemma DecodeContentBytes(m: Web3Tx, num: nat, c: seq<byte>, t: seq<byte>, base: nat)
    requires 2 <= num <= 3 && (if num == 2 then m.feePayer else m.feePayerSig) == []
    requires base + |ContentBytes(8 * num + 2, c)| < TWO63
    ensures UnmarshalFrom(m, ContentBytes(8 * num + 2, c) + t, base) ==
            UnmarshalFrom(if num == 2 then m.(feePayer := c) else m.(feePayerSig := c),
                          t, base + |ContentBytes(8 * num + 2, c)|)
  {
    hide FieldStep, Encode;
    var f := ContentBytes(8 * num + 2, c);
    if c == [] {
      assert f + t == t;
    } else {
      var s := [8 * num + 2] + (Encode(|c|) + (c + t));
      assert f + t == s;
      ContentStep(m, num, c, t, base);
      assert s[|f|..] == t;
    }
  }

  lemma ContentStep(m: Web3Tx, num: nat, c: seq<byte>, t: seq<byte>, base: nat)
    requires 2 <= num <= 3 && base + 1 + |Encode(|c|)| + |c| < TWO63
    ensures FieldStep(m, [8 * num + 2] + (Encode(|c|) + (c + t)), base) ==
            Ok((if num == 2 then m.(feePayer := c) else m.(feePayerSig := c), 1 + |Encode(|c|)| + |c|))
  {
    hide Read, Encode, ReadContent, Wire.Skip;
    ReadSmall(8 * num + 2, Encode(|c|) + (c + t));
    ReadContentEncoded(c, t, base + 1);
  }

  /** Every option record short enough to be a byte slice survives the codec. */
  lemma RoundTrip(m: Web3Tx)
    requires |Marshal(m)| < TWO63
    ensures Unmarshal(Marshal(m)) == Ok(m)
  {
    hide FieldStep, ContentBytes, ChainIdBytes;
    var a := ChainIdBytes(m.typedDataChainID);
    var b, c := ContentBytes(0x12, m.feePayer), ContentBytes(0x1a, m.feePayerSig);
    DecodeChainId(ZERO, m.typedDataChainID, b + c, 0);
    var m1 := ZERO.(typedDataChainID := m.typedDataChainID);
    DecodeContentBytes(m1, 2, m.feePayer, c, |a|);
    assert c + [] == c;
    DecodeContentBytes(m1.(feePayer := m.feePayer), 3, m.feePayerSig, [], |a| + |b|);
  }
}
