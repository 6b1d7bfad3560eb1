/**
 The wire format around varints: tags, and the skipper that steps over a field
 with a number the message does not know.  A grammar of well-formed fields states
 what the skipper accepts.
 */
module Wire {
  import opened Words
  import opened Varint

  /** `int32(wire >> 3)`. */
  function FieldNumber(wire: nat): int32 {
    ToInt32((wire / 8) % TWO32)
  }

  /* ----- the skipper ----- */

  /** One turn of the skipper: bytes stepped over and the group depth afterwards. */
  datatype Item = Item(size: nat, depth: nat)

  /** Moving the index by `n`; a 64-bit index that wraps turns negative and is refused. */
  function Advance(base: nat, n: nat, depth: nat): Result<Item> {
    if base + n >= TWO63 then Err(InvalidLength) else Ok(Item(n, depth))
  }

  /** `s` is the unread input, `base` the index it starts at.  A length with the sign
      bit set is negative. */
  function SkipItem(s: seq<byte>, base: nat, depth: nat): (r: Result<Item>)
    ensures r.Ok? ==> r.value.size >= 1
  {
    match Read(s, W64)
    case Err(e) => Err(e)
    case Ok(tag) =>
      match tag.bits % 8
      case 0 =>
        (match Read(s[tag.size..], W64)
         case Err(e) => Err(e)
         case Ok(w) => Advance(base, tag.size + w.size, depth))
      case 1 => Advance(base, tag.size + 8, depth)
      case 2 =>
        (match Read(s[tag.size..], W64)
         case Err(e) => Err(e)
         case Ok(w) =>
           if w.bits >= TWO63 then Err(InvalidLength)
           else Advance(base, tag.size + w.size + w.bits, depth))
      case 3 => Advance(base, tag.size, depth + 1)
      case 4 => if depth == 0 then Err(UnexpectedEndOfGroup) else Advance(base, tag.size, depth - 1)
      case 5 => Advance(base, tag.size + 4, depth)
      case _ => Err(IllegalWireType)
  }

  function SkipLoop(s: seq<byte>, base: nat, depth: nat): (r: Result<nat>)
    ensures r.Ok? ==> r.value > base
    decreases |s|
  {
    if s == [] then Err(UnexpectedEOF)
    else
      match SkipItem(s, base, depth)
      case Err(e) => Err(e)
      case Ok(item) =>
        if item.depth == 0 then Ok(base + item.size)
        else if item.size > |s| then Err(UnexpectedEOF)
        else SkipLoop(s[item.size..], base + item.size, item.depth)
  }

  /** The number of bytes the first field of `s` takes; it may exceed `|s|`. */
  function Skip(s: seq<byte>): (r: Result<nat>)
    ensures r.Ok? ==> r.value > 0
  {
    SkipLoop(s, 0, 0)
  }

  /** The body of the skipper's loop: one tag and what it announces. */
  method SkipTurn(data: seq<byte>, start: nat, depth: nat) returns (r: Result<Item>)
    requires start < |data|
    ensures r == SkipItem(data[start..], start, depth)
  {
    hide Read;
    var tag := ReadVarint(data, start, W64);
    if tag.Err? {
      return Err(tag.error);
    }
    var i, d := start + tag.value.size, depth;
    assert data[i..] == data[start..][tag.value.size..];
    match tag.value.bits % 8 {
      case 0 =>
        var w := ReadVarint(data, i, W64);
        if w.Err? {
          return Err(w.error);
        }
        i := i + w.value.size;
      case 1 =>
        i := i + 8;
      case 2 =>
        var w := ReadVarint(data, i, W64);
        if w.Err? {
          return Err(w.error);
        }
        if w.value.bits >= TWO63 {
          return Err(InvalidLength);
        }
        i := i + w.value.size + w.value.bits;
      case 3 =>
        d := d + 1;
      case 4 =>
        if d == 0 {
          return Err(UnexpectedEndOfGroup);
        }
        d := d - 1;
      case 5 =>
        i := i + 4;
      case _ =>
        return Err(IllegalWireType);
    }
    if i >= TWO63 {
      return Err(InvalidLength);
    }
    return Ok(Item(i - start, d));
  }

  method SkipField(data: seq<byte>) returns (r: Result<nat>)
    ensures r == Skip(data)
  {
    hide Read, SkipItem;
    var i, depth := 0, 0;
    assert data[0..] == data;
    while i < |data|
      invariant i <= |data| ==> Skip(data) == SkipLoop(data[i..], i, depth)
      invariant i > |data| ==> Skip(data) == Err(UnexpectedEOF)
      decreases |data| - i
    {
      var turn := SkipTurn(data, i, depth);
      if turn.Err? {
        return Err(turn.error);
      }
      ghost var start := i;
      i, depth := i + turn.value.size, turn.value.depth;
      if depth == 0 {
        return Ok(i);
      }
      if i <= |data| {
        assert data[i..] == data[start..][i - start..];
      }
    }
    return Err(UnexpectedEOF);
  }

  /* ----- the grammar ----- */

  /** A field of the wire format, any spelling of its varints included.  The number
      in an end-group tag is not compared with the number that opened the group. */
  datatype Payload =
    | VarintPayload(digits: seq<byte>)
    | Fixed64(bytes: seq<byte>)
    | LengthDelimited(length: seq<byte>, content: seq<byte>)
    | Group(fields: seq<Field>, end: seq<byte>)
    | Fixed32(bytes: seq<byte>)

  datatype Field = Field(tag: seq<byte>, payload: Payload)

  predicate ValidTag(tag: seq<byte>, wireType: nat) {
    IsVarint(tag) && Value(tag) % 8 == wireType
  }

  predicate Valid(f: Field) {
    match f.payload
    case VarintPayload(digits) => ValidTag(f.tag, 0) && IsVarint(digits)
    case Fixed64(bytes) => ValidTag(f.tag, 1) && |bytes| == 8
    case LengthDelimited(length, content) =>
      ValidTag(f.tag, 2) && IsVarint(length) && Value(length) % TWO64 == |content|
    case Group(fields, end) =>
      ValidTag(f.tag, 3) && ValidTag(end, 4) && forall g :: g in fields ==> Valid(g)
    case Fixed32(bytes) => ValidTag(f.tag, 5) && |bytes| == 4
  }

  function Bytes(f: Field): seq<byte>
    decreases f, 0
  {
    f.tag + match f.payload
            case VarintPayload(digits) => digits
            case Fixed64(bytes) => bytes
            case LengthDelimited(length, content) => length + content
            case Group(fields, end) => AllBytes(fields) + end
            case Fixed32(bytes) => bytes
  }

  function AllBytes(fs: seq<Field>): seq<byte> {
    if fs == [] then [] else Bytes(fs[0]) + AllBytes(fs[1..])
  }

  /* ----- the skipper steps over exactly the fields of the grammar ----- */

  lemma WireTypeOfWord(v: nat)
    ensures (v % TWO64) % 8 == v % 8
  {
  }

  lemma ReadTag(tag: seq<byte>, wireType: nat, t: seq<byte>)
    requires ValidTag(tag, wireType)
    ensures Read(tag + t, W64) == Ok(Word(Value(tag) % TWO64, |tag|))
    ensures (Value(tag) % TWO64) % 8 == wireType
    ensures (tag + t)[|tag|..] == t
  {
    hide Read, Value;
    ReadValue(tag, t, W64);
    WireTypeOfWord(Value(tag));
  }

  /** Every payload but a group is stepped over in one turn. */
  lemma SkipScalar(f: Field, t: seq<byte>, base: nat, depth: nat)
    requires Valid(f) && !f.payload.Group? && base + |Bytes(f)| < TWO63
    ensures SkipItem(Bytes(f) + t, base, depth) == Ok(Item(|Bytes(f)|, depth))
  {
    hide Read, Value;
    var rest := Bytes(f)[|f.tag|..] + t;
    assert Bytes(f) + t == f.tag + rest;
    match f.payload {
      case VarintPayload(digits) =>
        ReadTag(f.tag, 0, rest);
        assert rest == digits + t;
        ReadValue(digits, t, W64);
      case Fixed64(bytes) =>
        ReadTag(f.tag, 1, rest);
      case LengthDelimited(length, content) =>
        ReadTag(f.tag, 2, rest);
        assert rest == length + (content + t);
        ReadValue(length, content + t, W64);
      case Fixed32(bytes) =>
        ReadTag(f.tag, 5, rest);
    }
  }

  /** A group tag changes the depth and nothing else. */
  lemma SkipGroupTag(tag: seq<byte>, opens: bool, t: seq<byte>, base: nat, depth: nat)
    requires ValidTag(tag, if opens then 3 else 4) && base + |tag| < TWO63
    requires opens || depth > 0
    ensures SkipItem(tag + t, base, depth) == Ok(Item(|tag|, if opens then depth + 1 else depth - 1))
    ensures (tag + t)[|tag|..] == t && tag + t != []
  {
    hide Read, Value;
    ReadTag(tag, if opens then 3 else 4, t);
  }

  /** A field inside a group is stepped over and the walk goes on behind it; a field
      at depth zero ends the walk. */
  lemma {:induction false} SkipOne(f: Field, t: seq<byte>, base: nat, depth: nat)
    requires Valid(f) && base + |Bytes(f)| < TWO63
    ensures SkipLoop(Bytes(f) + t, base, depth) ==
            if depth == 0 then Ok(base + |Bytes(f)|) else SkipLoop(t, base + |Bytes(f)|, depth)
    decreases f, 0
  {
    hide Read, Value, SkipItem;
    var s := Bytes(f) + t;
    if f.payload.Group? {
      var fields, end := f.payload.fields, f.payload.end;
      var inner := AllBytes(fields) + (end + t);
      assert s == f.tag + inner;
      SkipGroupTag(f.tag, true, inner, base, depth);
      SkipAll(fields, end + t, base + |f.tag|, depth + 1);
      SkipGroupTag(end, false, t, base + |f.tag| + |AllBytes(fields)|, depth + 1);
    } else {
      SkipScalar(f, t, base, depth);
      assert s[|Bytes(f)|..] == t;
    }
  }

  lemma {:induction false} SkipAll(fs: seq<Field>, t: seq<byte>, base: nat, depth: nat)
    requires forall f :: f in fs ==> Valid(f)
    requires base + |AllBytes(fs)| < TWO63 && depth > 0
    ensures SkipLoop(AllBytes(fs) + t, base, depth) == SkipLoop(t, base + |AllBytes(fs)|, depth)
    decreases fs
  {
    hide Read, SkipItem, Valid, Bytes, SkipLoop;
    if fs == [] {
      assert AllBytes(fs) + t == t;
    } else {
      var rest := AllBytes(fs[1..]) + t;
      assert AllBytes(fs) + t == Bytes(fs[0]) + rest;
      SkipOne(fs[0], rest, base, depth);
      SkipAll(fs[1..], t, base + |Bytes(fs[0])|, depth);
    }
  }

  lemma TagOf(s: seq<byte>)
    requires Read(s, W64).Ok?
    ensures var tag := Read(s, W64).value; ValidTag(s[..tag.size], tag.bits % 8)
  {
    hide Read, Value, IsVarint;
    ReadExact(s, W64);
    WireTypeOfWord(Value(s[..Read(s, W64).value.size]));
  }

  /** A turn that keeps the depth stepped over one scalar field. */
  lemma ScalarSound(s: seq<byte>, base: nat, depth: nat) returns (f: Field)
    requires SkipItem(s, base, depth).Ok? && SkipItem(s, base, depth).value.depth == depth
    requires SkipItem(s, base, depth).value.size <= |s|
    ensures Valid(f) && Bytes(f) == s[..SkipItem(s, base, depth).value.size]
  {
    hide Read, Value;
    var size := SkipItem(s, base, depth).value.size;
    var tag := Read(s, W64).value;
    TagOf(s);
    var rest, t := s[tag.size..], s[..tag.size];
    assert t + rest[..size - tag.size] == s[..size];
    match tag.bits % 8 {
      case 0 =>
        ReadExact(rest, W64);
        f := Field(t, VarintPayload(rest[..size - tag.size]));
      case 1 =>
        f := Field(t, Fixed64(rest[..8]));
      case 2 =>
        ReadExact(rest, W64);
        var n := Read(rest, W64).value.size;
        f := Field(t, LengthDelimited(rest[..n], rest[n..size - tag.size]));
        assert rest[..n] + rest[n..size - tag.size] == rest[..size - tag.size];
      case 5 =>
        f := Field(t, Fixed32(rest[..4]));
    }
  }

  lemma GroupTagSound(s: seq<byte>, base: nat, depth: nat)
    requires SkipItem(s, base, depth).Ok?
    ensures var item := SkipItem(s, base, depth).value;
            && (item.depth == depth + 1 ==> item.size <= |s| && ValidTag(s[..item.size], 3))
            && (item.depth < depth ==>
                  item.depth == depth - 1 && item.size <= |s| && ValidTag(s[..item.size], 4))
            && item.depth <= depth + 1
  {
    hide Read, Value;
    TagOf(s);
  }

  /** Inside a group: unless the walk meets an end-group tag, it steps over a field. */
  lemma {:induction false} FieldSound(s: seq<byte>, base: nat, depth: nat, n: nat)
    returns (f: Field, j: nat)
    requires depth > 0 && n <= |s| && SkipLoop(s, base, depth) == Ok(base + n)
    requires SkipItem(s, base, depth).Ok? && SkipItem(s, base, depth).value.depth >= depth
    ensures Valid(f) && 0 < j < n && Bytes(f) == s[..j]
    ensures SkipLoop(s[j..], base + j, depth) == Ok(base + n)
    decreases |s|, 0
  {
    hide Read, Value, SkipItem, ValidTag;
    var item := SkipItem(s, base, depth).value;
    var m := item.size;
    GroupTagSound(s, base, depth);
    if item.depth == depth {
      f := ScalarSound(s, base, depth);
      j := m;
    } else {
      var inner, close, i := GroupSound(s[m..], base + m, depth + 1, n - m);
      f, j := Field(s[..m], Group(inner, close)), m + i;
      TakeTwice(s, m, i);
    }
  }

  /** Inside a group: what was stepped over is a list of fields and an end-group tag. */
  lemma {:induction false} GroupSound(s: seq<byte>, base: nat, depth: nat, n: nat)
    returns (fs: seq<Field>, end: seq<byte>, k: nat)
    requires depth > 0 && n <= |s| && SkipLoop(s, base, depth) == Ok(base + n)
    ensures 0 < k <= n && s[..k] == AllBytes(fs) + end
    ensures ValidTag(end, 4) && forall f :: f in fs ==> Valid(f)
    ensures if depth == 1 then k == n
            else k < n && SkipLoop(s[k..], base + k, depth - 1) == Ok(base + n)
    decreases |s|, 1
  {
    hide Read, Value, SkipItem, ValidTag, Valid, Bytes;
    GroupTagSound(s, base, depth);
    var item := SkipItem(s, base, depth).value;
    if item.depth < depth {
      fs, end, k := [], s[..item.size], item.size;
    } else {
      var f, j := FieldSound(s, base, depth, n);
      var rest, i;
      rest, end, i := GroupSound(s[j..], base + j, depth, n - j);
      fs, k := [f] + rest, j + i;
      assert fs[1..] == rest;
      TakeTwice(s, j, i);
    }
  }

  lemma SkipSound(s: seq<byte>) returns (f: Field)
    requires Skip(s).Ok? && Skip(s).value <= |s|
    ensures Valid(f) && Bytes(f) == s[..Skip(s).value]
  {
    hide Read, Value, SkipItem;
    var item := SkipItem(s, 0, 0).value;
    if item.depth == 0 {
      f := ScalarSound(s, 0, 0);
    } else {
      var m, n := item.size, Skip(s).value;
      GroupTagSound(s, 0, 0);
      var fs, end, k := GroupSound(s[m..], m, 1, n - m);
      f := Field(s[..m], Group(fs, end));
      TakeTwice(s, m, k);
    }
  }

  /** The skipper succeeds within its input exactly when the input begins with a
      well-formed field, and steps over exactly that field. */
  lemma SkipExact(s: seq<byte>, n: nat)
    requires n <= |s| < TWO63
    ensures Skip(s) == Ok(n) <==> exists f :: Valid(f) && Bytes(f) == s[..n]
  {
    hide Read, Value, Valid, Bytes, SkipLoop;
    if Skip(s) == Ok(n) {
      var f := SkipSound(s);
    }
    forall f | Valid(f) && Bytes(f) == s[..n] ensures Skip(s) == Ok(n) {
      SkipOne(f, s[n..], 0, 0);
      assert s[..n] + s[n..] == s;
    }
  }

  lemma ReadFirstTag(f: Field)
    requires Valid(f)
    ensures Read(Bytes(f), W64) == Ok(Word(Value(f.tag) % TWO64, |f.tag|))
    ensures (Value(f.tag) % TWO64) % 8 != 4
  {
    hide Read, Value;
    var rest := Bytes(f)[|f.tag|..];
    assert Bytes(f) == f.tag + rest;
    ReadTag(f.tag, Value(f.tag) % 8, rest);
  }

  /** A field skipped within its input is skipped whatever follows it. */
  lemma SkipPrefix(s: seq<byte>, t: seq<byte>)
    requires Skip(s).Ok? && Skip(s).value <= |s| && Skip(s).value < TWO63
    ensures Skip(s + t) == Skip(s)
  {
    hide SkipLoop, Valid, Bytes;
    var n := Skip(s).value;
    var f := SkipSound(s);
    SkipOne(f, s[n..] + t, 0, 0);
    assert s + t == s[..n] + (s[n..] + t);
  }
}
