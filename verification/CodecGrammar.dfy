/** Which byte strings the decoders accept and what they make of them, by the grammar of the wire
    format. */
module CodecGrammar {
  import opened Words
  import opened Varint
  import opened Wire
  import Tx = TxResultCodec
  import Web3 = Web3Codec

  function Number(f: Field): int32 {
    FieldNumber(Value(f.tag) % TWO64)
  }

  /** A tag is eight times the field number and the wire type. */
  lemma TagNumber(number: nat, wireType: nat)
    requires number < TWO31 && wireType < 8
    ensures FieldNumber(8 * number + wireType) == number
  {
  }

  lemma {:induction false} AllBytesPrefix(f: Field, fs: seq<Field>)
    ensures AllBytes([f] + fs) == Bytes(f) + AllBytes(fs)
  {
    assert ([f] + fs)[1..] == fs;
  }

  lemma SomeBytes(f: Field)
    requires Valid(f)
    ensures |Bytes(f)| > 0
  {
  }

  /* ----- TxResult ----- */

  /** A field the message may have: its own are varints, any other is skipped. */
  predicate TxField(f: Field) {
    Valid(f) && Number(f) > 0 && (Number(f) <= 7 ==> f.payload.VarintPayload?)
  }

  /** The message with the value of a field put in its place. */
  function TxWith(m: Tx.TxResult, f: Field): Tx.TxResult
    requires TxField(f)
  {
    if Number(f) > 7 then m
    else
      var v := Value(f.payload.digits);
      match Number(f)
      case 1 => m.(height := ToInt64(v % TWO64))
      case 2 => m.(txIndex := v % TWO32)
      case 3 => m.(msgIndex := v % TWO32)
      case 4 => m.(ethTxIndex := ToInt32(v % TWO32))
      case 5 => m.(failed := v % TWO64 != 0)
      case 6 => m.(gasUsed := v % TWO64)
      case _ => m.(cumulativeGasUsed := v % TWO64)
  }

  function TxWithAll(m: Tx.TxResult, fs: seq<Field>): Tx.TxResult
    requires forall f :: f in fs ==> TxField(f)
    decreases |fs|
  {
    if fs == [] then m else TxWithAll(TxWith(m, fs[0]), fs[1..])
  }

  lemma TxStepAccepts(m: Tx.TxResult, f: Field, t: seq<byte>, base: nat)
    requires TxField(f) && base + |Bytes(f)| < TWO63
    ensures Tx.FieldStep(m, Bytes(f) + t, base) == Ok((TxWith(m, f), |Bytes(f)|))
  {
    hide Read, Value, SkipLoop;
    var rest := Bytes(f)[|f.tag|..] + t;
    assert Bytes(f) + t == f.tag + rest;
    ReadTag(f.tag, Value(f.tag) % 8, rest);
    if Number(f) <= 7 {
      var digits := f.payload.digits;
      assert rest == digits + t;
      ReadValue(digits, t, Tx.WidthOf(Number(f)));
    } else {
      hide Valid, Bytes;
      SkipOne(f, t, 0, 0);
    }
  }

  lemma TxStepSound(m: Tx.TxResult, s: seq<byte>, base: nat) returns (f: Field)
    requires Tx.FieldStep(m, s, base).Ok?
    ensures var r := Tx.FieldStep(m, s, base).value;
            TxField(f) && Bytes(f) == s[..r.1] && TxWith(m, f) == r.0
  {
    hide Read, Value, SkipLoop;
    var tag := Read(s, W64).value;
    TagOf(s);
    ReadExact(s, W64);
    var n := Tx.FieldStep(m, s, base).value.1;
    if FieldNumber(tag.bits) <= 7 {
      var rest := s[tag.size..];
      ReadExact(rest, Tx.WidthOf(FieldNumber(tag.bits)));
      f := Field(s[..tag.size], VarintPayload(rest[..n - tag.size]));
      TakeTwice(s, tag.size, n - tag.size);
    } else {
      f := SkipSound(s);
      hide Valid;
      SameTag(f, s, n);
    }
  }

  /** A field at the front of a string has the tag read there. */
  lemma SameTag(f: Field, s: seq<byte>, n: nat)
    requires Valid(f) && n <= |s| && Bytes(f) == s[..n]
    ensures Read(s, W64) == Ok(Word(Value(f.tag) % TWO64, |f.tag|))
  {
    hide Read, Value, Valid, Bytes;
    ReadFirstTag(f);
    ReadPrefix(Bytes(f), s[n..], W64);
    assert s[..n] + s[n..] == s;
  }

  lemma {:induction false} TxAccepts(m: Tx.TxResult, fs: seq<Field>, base: nat)
    requires (forall f :: f in fs ==> TxField(f)) && base + |AllBytes(fs)| < TWO63
    ensures Tx.UnmarshalFrom(m, AllBytes(fs), base) == Ok(TxWithAll(m, fs))
    decreases |fs|
  {
    hide TxField, TxWith, Bytes, Tx.FieldStep;
    if fs != [] {
      var rest := AllBytes(fs[1..]);
      TxStepAccepts(m, fs[0], rest, base);
      assert |Bytes(fs[0])| > 0 by { TxFieldValid(fs[0]); SomeBytes(fs[0]); }
      assert (Bytes(fs[0]) + rest)[|Bytes(fs[0])|..] == rest;
      TxAccepts(TxWith(m, fs[0]), fs[1..], base + |Bytes(fs[0])|);
    }
  }

  lemma TxFieldValid(f: Field)
    requires TxField(f)
    ensures Valid(f)
  {
  }

  lemma {:induction false} TxSound(m: Tx.TxResult, s: seq<byte>, base: nat) returns (fs: seq<Field>)
    requires Tx.UnmarshalFrom(m, s, base).Ok?
    ensures (forall f :: f in fs ==> TxField(f)) && AllBytes(fs) == s
    ensures Tx.UnmarshalFrom(m, s, base) == Ok(TxWithAll(m, fs))
    decreases |s|
  {
    hide TxField, TxWith, Bytes, Tx.FieldStep;
    if s == [] {
      fs := [];
    } else {
      var p := Tx.FieldStep(m, s, base).value;
      var f := TxStepSound(m, s, base);
      var rest := TxSound(p.0, s[p.1..], base + p.1);
      fs := [f] + rest;
      AllBytesPrefix(f, rest);
      assert fs[0] == f && fs[1..] == rest;
      assert s[..p.1] + s[p.1..] == s;
    }
  }

  /** The decoder accepts exactly the strings of fields with positive numbers in which the
      message's own are varints, and yields the message with all of them put in, the last one of
      a number winning. */
  lemma TxDecodesExactly(m: Tx.TxResult, s: seq<byte>, r: Tx.TxResult)
    requires |s| < TWO63
    ensures Tx.Merge(m, s) == Ok(r) <==>
            exists fs :: AllBytes(fs) == s && (forall f :: f in fs ==> TxField(f)) && TxWithAll(m, fs) == r
  {
    hide TxField, TxWithAll, AllBytes, Tx.UnmarshalFrom;
    if Tx.Merge(m, s) == Ok(r) {
      var fs := TxSound(m, s, 0);
    }
    forall fs | AllBytes(fs) == s && (forall f :: f in fs ==> TxField(f)) && TxWithAll(m, fs) == r
      ensures Tx.Merge(m, s) == Ok(r)
    {
      TxAccepts(m, fs, 0);
    }
  }

  /* ----- ExtensionOptionsWeb3Tx ----- */

  predicate Web3Field(f: Field) {
    && Valid(f) && Number(f) > 0
    && (Number(f) == 1 ==> f.payload.VarintPayload?)
    && (2 <= Number(f) <= 3 ==> f.payload.LengthDelimited?)
  }

  function Web3With(m: Web3.Web3Tx, f: Field): Web3.Web3Tx
    requires Web3Field(f)
  {
    match Number(f)
    case 1 => m.(typedDataChainID := Value(f.payload.digits) % TWO64)
    case 2 => m.(feePayer := f.payload.content)
    case 3 => m.(feePayerSig := f.payload.content)
    case _ => m
  }

  function Web3WithAll(m: Web3.Web3Tx, fs: seq<Field>): Web3.Web3Tx
    requires forall f :: f in fs ==> Web3Field(f)
    decreases |fs|
  {
    if fs == [] then m else Web3WithAll(Web3With(m, fs[0]), fs[1..])
  }

  lemma Web3StepAccepts(m: Web3.Web3Tx, f: Field, t: seq<byte>, base: nat)
    requires Web3Field(f) && base + |Bytes(f)| < TWO63
    ensures Web3.FieldStep(m, Bytes(f) + t, base) == Ok((Web3With(m, f), |Bytes(f)|))
  {
    hide Read, Value, SkipLoop, Web3.ReadContent;
    var rest := Bytes(f)[|f.tag|..] + t;
    assert Bytes(f) + t == f.tag + rest;
    ReadTag(f.tag, Value(f.tag) % 8, rest);
    if Number(f) == 1 {
      VarintAccepted(f, t);
    } else if Number(f) <= 3 {
      ContentFieldAccepted(f, t, base);
    } else {
      hide Valid, Bytes;
      SkipOne(f, t, 0, 0);
    }
  }

  lemma VarintAccepted(f: Field, t: seq<byte>)
    requires Valid(f) && f.payload.VarintPayload?
    ensures var digits := f.payload.digits;
            && Read(Bytes(f)[|f.tag|..] + t, W64) == Ok(Word(Value(digits) % TWO64, |digits|))
            && |Bytes(f)| == |f.tag| + |digits|
  {
    hide Read, Value;
    assert Bytes(f)[|f.tag|..] == f.payload.digits;
    ReadValue(f.payload.digits, t, W64);
  }

  lemma ContentFieldAccepted(f: Field, t: seq<byte>, base: nat)
    requires Valid(f) && f.payload.LengthDelimited? && base + |Bytes(f)| < TWO63
    ensures var p := f.payload;
            && Web3.ReadContent(Bytes(f)[|f.tag|..] + t, base + |f.tag|) == Ok((p.content, |p.length| + |p.content|))
            && |Bytes(f)| == |f.tag| + |p.length| + |p.content|
  {
    hide Read, Value, Web3.ReadContent;
    var p := f.payload;
    assert Bytes(f)[|f.tag|..] == p.length + p.content;
    assert p.length + p.content + t == p.length + (p.content + t);
    ContentAccepted(p.length, p.content, t, base + |f.tag|);
  }

  lemma ContentAccepted(length: seq<byte>, content: seq<byte>, t: seq<byte>, base: nat)
    requires IsVarint(length) && Value(length) % TWO64 == |content| && base + |length| + |content| < TWO63
    ensures Web3.ReadContent(length + (content + t), base) == Ok((content, |length| + |content|))
  {
    hide Read, Value;
    ReadValue(length, content + t, W64);
    var s := length + (content + t);
    assert s[|length|..|length| + |content|] == content;
  }

  lemma Web3StepSound(m: Web3.Web3Tx, s: seq<byte>, base: nat) returns (f: Field)
    requires Web3.FieldStep(m, s, base).Ok?
    ensures var r := Web3.FieldStep(m, s, base).value;
            Web3Field(f) && Bytes(f) == s[..r.1] && Web3With(m, f) == r.0
  {
    hide Read, Value, SkipLoop;
    var tag := Read(s, W64).value;
    TagOf(s);
    ReadExact(s, W64);
    var n := Web3.FieldStep(m, s, base).value.1;
    if FieldNumber(tag.bits) == 1 {
      f := VarintSound(s, n);
    } else if FieldNumber(tag.bits) <= 3 {
      f := ContentSound(s, base, n);
    } else {
      f := SkipSound(s);
      hide Valid;
      SameTag(f, s, n);
    }
  }

  lemma VarintSound(s: seq<byte>, n: nat) returns (f: Field)
    requires Read(s, W64).Ok? && Read(s, W64).value.bits % 8 == 0
    requires var tag := Read(s, W64).value;
             var w := Read(s[tag.size..], W64);
             w.Ok? && n == tag.size + w.value.size
    ensures n <= |s| && Valid(f) && Bytes(f) == s[..n] && f.payload.VarintPayload?
    ensures var tag := Read(s, W64).value;
            f.tag == s[..tag.size] && Value(f.payload.digits) % TWO64 == Read(s[tag.size..], W64).value.bits
  {
    hide Read, Value;
    var tag := Read(s, W64).value;
    TagOf(s);
    var rest := s[tag.size..];
    ReadExact(rest, W64);
    f := Field(s[..tag.size], VarintPayload(rest[..n - tag.size]));
    TakeTwice(s, tag.size, n - tag.size);
  }

  lemma ContentSound(s: seq<byte>, base: nat, n: nat) returns (f: Field)
    requires Read(s, W64).Ok? && Read(s, W64).value.bits % 8 == 2
    requires var tag := Read(s, W64).value;
             var c := Web3.ReadContent(s[tag.size..], base + tag.size);
             c.Ok? && n == tag.size + c.value.1
    ensures n <= |s| && Valid(f) && Bytes(f) == s[..n] && f.payload.LengthDelimited?
    ensures var tag := Read(s, W64).value;
            f.tag == s[..tag.size] && f.payload.content == Web3.ReadContent(s[tag.size..], base + tag.size).value.0
  {
    hide Read, Value;
    var tag := Read(s, W64).value;
    TagOf(s);
    var rest := s[tag.size..];
    ReadExact(rest, W64);
    var k, e := Read(rest, W64).value.size, n - tag.size;
    f := Field(s[..tag.size], LengthDelimited(rest[..k], rest[k..e]));
    assert rest[..k] + rest[k..e] == rest[..e];
    TakeTwice(s, tag.size, e);
  }

  lemma {:induction false} Web3Accepts(m: Web3.Web3Tx, fs: seq<Field>, base: nat)
    requires (forall f :: f in fs ==> Web3Field(f)) && base + |AllBytes(fs)| < TWO63
    ensures Web3.UnmarshalFrom(m, AllBytes(fs), base) == Ok(Web3WithAll(m, fs))
    decreases |fs|
  {
    hide Web3Field, Web3With, Bytes, Web3.FieldStep;
    if fs != [] {
      var rest := AllBytes(fs[1..]);
      Web3StepAccepts(m, fs[0], rest, base);
      assert |Bytes(fs[0])| > 0 by { Web3FieldValid(fs[0]); SomeBytes(fs[0]); }
      assert (Bytes(fs[0]) + rest)[|Bytes(fs[0])|..] == rest;
      Web3Accepts(Web3With(m, fs[0]), fs[1..], base + |Bytes(fs[0])|);
    }
  }

  lemma Web3FieldValid(f: Field)
    requires Web3Field(f)
    ensures Valid(f)
  {
  }

  lemma {:induction false} Web3Sound(m: Web3.Web3Tx, s: seq<byte>, base: nat) returns (fs: seq<Field>)
    requires Web3.UnmarshalFrom(m, s, base).Ok?
    ensures (forall f :: f in fs ==> Web3Field(f)) && AllBytes(fs) == s
    ensures Web3.UnmarshalFrom(m, s, base) == Ok(Web3WithAll(m, fs))
    decreases |s|
  {
    hide Web3Field, Web3With, Bytes, Web3.FieldStep;
    if s == [] {
      fs := [];
    } else {
      var p := Web3.FieldStep(m, s, base).value;
      var f := Web3StepSound(m, s, base);
      var rest := Web3Sound(p.0, s[p.1..], base + p.1);
      fs := [f] + rest;
      AllBytesPrefix(f, rest);
      assert fs[0] == f && fs[1..] == rest;
      assert s[..p.1] + s[p.1..] == s;
    }
  }

  /** The same for the option record, whose fields 2 and 3 are length-delimited. */
  lemma Web3DecodesExactly(s: seq<byte>, r: Web3.Web3Tx)
    requires |s| < TWO63
    ensures Web3.Unmarshal(s) == Ok(r) <==>
            exists fs :: AllBytes(fs) == s && (forall f :: f in fs ==> Web3Field(f))
                         && Web3WithAll(Web3.Web3Tx(0, [], []), fs) == r
  {
    hide Web3Field, Web3WithAll, AllBytes, Web3.UnmarshalFrom;
    if Web3.Unmarshal(s) == Ok(r) {
      var fs := Web3Sound(Web3.ZERO, s, 0);
    }
    forall fs | AllBytes(fs) == s && (forall f :: f in fs ==> Web3Field(f))
                && Web3WithAll(Web3.Web3Tx(0, [], []), fs) == r
      ensures Web3.Unmarshal(s) == Ok(r)
    {
      Web3Accepts(Web3.ZERO, fs, 0);
    }
  }

  /** The layout of the option record: fields by number, empty ones left out. */
  lemma Web3Layout(m: Web3.Web3Tx)
    ensures Web3.Marshal(m) ==
            (if m.typedDataChainID == 0 then [] else [0x08] + Encode(m.typedDataChainID))
            + (if m.feePayer == [] then [] else [0x12] + Encode(|m.feePayer|) + m.feePayer)
            + (if m.feePayerSig == [] then [] else [0x1a] + Encode(|m.feePayerSig|) + m.feePayerSig)
  {
    hide Encode;
  }

  /* ----- what is refused, and how ----- */

  /** A well-formed field in the wrong place. */
  lemma WrongFieldRefused(m: Tx.TxResult, w: Web3.Web3Tx, f: Field, t: seq<byte>, base: nat)
    requires Valid(f)
    ensures Number(f) <= 0 ==>
              && Tx.FieldStep(m, Bytes(f) + t, base) == Err(IllegalTag)
              && Web3.FieldStep(w, Bytes(f) + t, base) == Err(IllegalTag)
    ensures 1 <= Number(f) <= 7 && !f.payload.VarintPayload? ==>
              Tx.FieldStep(m, Bytes(f) + t, base) == Err(WrongWireType)
    ensures (Number(f) == 1 && !f.payload.VarintPayload?) || (2 <= Number(f) <= 3 && !f.payload.LengthDelimited?) ==>
              Web3.FieldStep(w, Bytes(f) + t, base) == Err(WrongWireType)
  {
    hide Read, Value, SkipLoop, Web3.ReadContent;
    var rest := Bytes(f)[|f.tag|..] + t;
    assert Bytes(f) + t == f.tag + rest;
    ReadTag(f.tag, Value(f.tag) % 8, rest);
  }

  /** A tag that begins no field: the end of a group that was not opened, or an unknown type. */
  lemma WrongTagRefused(m: Tx.TxResult, w: Web3.Web3Tx, tag: seq<byte>, t: seq<byte>, base: nat)
    ensures ValidTag(tag, 4) ==>
              && Tx.FieldStep(m, tag + t, base) == Err(EndGroupOutsideGroup)
              && Web3.FieldStep(w, tag + t, base) == Err(EndGroupOutsideGroup)
              && Skip(tag + t) == Err(UnexpectedEndOfGroup)
    ensures ValidTag(tag, 6) || ValidTag(tag, 7) ==> Skip(tag + t) == Err(IllegalWireType)
  {
    hide Read, Value;
    if IsVarint(tag) {
      ReadTag(tag, Value(tag) % 8, t);
      assert tag + t != [];
    }
  }
}
