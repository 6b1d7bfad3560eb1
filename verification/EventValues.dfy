/** The values of event attributes: which texts are read as numbers and hashes, and as which. */
module EventValues {
  import opened Words
  import opened IndexKeys
  import opened Events
  import opened Options
  import Text

  /* ----- decimal numbers ----- */

  /** Numbers written in decimal are read back. */
  lemma {:induction false} ParseDigits(n: nat, bound: nat)
    requires n < bound
    ensures ParseUint(Text.Digits(n), bound) == Some(n)
  {
    DecimalOfDigits(n);
  }

  lemma {:induction false} DecimalOfDigits(n: nat)
    ensures AllDigits(Text.Digits(n)) && Decimal(Text.Digits(n)) == n
  {
    var s := Text.Digits(n);
    if n < 10 {
      assert s[..0] == "";
    } else {
      DecimalOfDigits(n / 10);
      assert s[..|s| - 1] == Text.Digits(n / 10);
    }
  }

  function ZeroDigits(k: nat): (s: string)
    ensures |s| == k && forall i :: 0 <= i < k ==> s[i] == '0'
  {
    if k == 0 then "" else ZeroDigits(k - 1) + "0"
  }

  lemma {:induction false} DecimalIsDigits(s: string) returns (k: nat)
    requires s != [] && AllDigits(s)
    ensures s == ZeroDigits(k) + Text.Digits(Decimal(s))
  {
    var n, c := |s| - 1, s[|s| - 1];
    assert Text.IsDigit(c);
    assert s == s[..n] + [c];
    if n == 0 {
      k := 0;
      assert s[..0] == "";
    } else {
      k := DecimalIsDigits(s[..n]);
      if Decimal(s[..n]) == 0 {
        assert Text.Digits(0) == "0";
        k := k + 1;
      }
    }
  }

  lemma {:induction false} LeadingZeros(k: nat, n: nat)
    ensures var s := ZeroDigits(k) + Text.Digits(n); AllDigits(s) && Decimal(s) == n
    decreases n
  {
    var s := ZeroDigits(k) + Text.Digits(n);
    if n < 10 {
      assert s[..|s| - 1] == ZeroDigits(k);
      ZerosAreZero(k);
    } else {
      LeadingZeros(k, n / 10);
      assert s[..|s| - 1] == ZeroDigits(k) + Text.Digits(n / 10);
    }
  }

  lemma {:induction false} ZerosAreZero(k: nat)
    ensures AllDigits(ZeroDigits(k)) && Decimal(ZeroDigits(k)) == 0
  {
    if k > 0 {
      ZerosAreZero(k - 1);
      var s := ZeroDigits(k);
      assert s[..|s| - 1] == ZeroDigits(k - 1);
    }
  }

  /** A text is read as a number exactly when it is the number in decimal, with any zeros before
      it, and the number is in range. */
  lemma ParseUintExactly(s: string, bound: nat, n: nat)
    ensures ParseUint(s, bound) == Some(n) <==> n < bound && exists k: nat :: s == ZeroDigits(k) + Text.Digits(n)
  {
    hide Text.Digits;
    if ParseUint(s, bound) == Some(n) {
      var k := DecimalIsDigits(s);
    }
    forall k: nat | s == ZeroDigits(k) + Text.Digits(n) ensures AllDigits(s) && Decimal(s) == n {
      LeadingZeros(k, n);
    }
  }

  /* ----- hashes in hex ----- */

  function HexChar(d: nat): (c: char)
    requires d < 16
    ensures HexDigit(c) == d
  {
    if d < 10 then '0' + d as char else 'a' + (d - 10) as char
  }

  function HexString(bytes: seq<byte>): (s: string)
    ensures |s| == 2 * |bytes|
  {
    if bytes == [] then "" else [HexChar(bytes[0] / 16), HexChar(bytes[0] % 16)] + HexString(bytes[1..])
  }

  lemma {:induction false} DecodeHexString(bytes: seq<byte>)
    ensures DecodeHex(HexString(bytes)) == bytes
  {
    if bytes != [] {
      DecodeHexString(bytes[1..]);
      assert HexString(bytes)[2..] == HexString(bytes[1..]);
      assert bytes == [bytes[0]] + bytes[1..];
    }
  }

  /** A hash written in hex, as the events carry it, is read back. */
  lemma HexRoundTrip(hash: Hash)
    ensures HexToHash("0x" + HexString(hash)) == hash
  {
    hide HexString, DecodeHex;
    DecodeHexString(hash);
    assert ("0x" + HexString(hash))[2..] == HexString(hash);
    assert Zeros(0) + hash == hash;
  }

  /** Hex digits in either case, and no others. */
  lemma HexDigitExactly(c: char, d: nat)
    requires d < 16
    ensures HexDigit(c) == d <==> c == "0123456789abcdef"[d] || c == "0123456789ABCDEF"[d]
  {
  }

  /** A text of hex digits, with or without its prefix, stands for its bytes: the last 32 of them,
      or all behind zeros. */
  lemma HexMeaning(prefix: string, bytes: seq<byte>)
    requires prefix in {"", "0x", "0X"}
    ensures HexToHash(prefix + HexString(bytes)) == BytesToHash(bytes)
  {
    hide HexString, DecodeHex, StripPrefix, BytesToHash;
    DecodeHexString(bytes);
    Stripped(prefix, HexString(bytes));
    if prefix == "" {
      assert prefix + HexString(bytes) == HexString(bytes);
      HexNoPrefix(bytes);
    }
  }

  lemma Stripped(prefix: string, s: string)
    ensures prefix in {"0x", "0X"} ==> StripPrefix(prefix + s) == s
  {
    if prefix in {"0x", "0X"} {
      assert (prefix + s)[2..] == s;
    }
  }

  lemma HexNoPrefix(bytes: seq<byte>)
    ensures StripPrefix(HexString(bytes)) == HexString(bytes)
  {
    if bytes != [] {
      assert HexString(bytes)[1] == HexChar(bytes[0] % 16);
      assert HexDigit('x') == -1 && HexDigit('X') == -1;
    }
  }

  lemma HashOfBytes(front: seq<byte>, bytes: seq<byte>)
    ensures |bytes| == 32 ==> BytesToHash(front + bytes) == bytes
    ensures |bytes| <= 32 ==>
              var h := BytesToHash(bytes);
              h[32 - |bytes|..] == bytes && forall i :: 0 <= i < 32 - |bytes| ==> h[i] == 0
  {
    if |bytes| == 32 && front == [] {
      assert front + bytes == bytes && Zeros(0) + bytes == bytes;
    }
    if |bytes| <= 32 {
      ZerosAre(32 - |bytes|);
    }
  }

  lemma {:induction false} ZerosAre(n: nat)
    ensures forall i :: 0 <= i < n ==> Zeros(n)[i] == 0
  {
    if n > 0 {
      ZerosAre(n - 1);
    }
  }

  /** Reading stops before a pair that is not hex; a half pair counts as one with a zero before
      the text. */
  lemma {:induction false} HexStops(bytes: seq<byte>, c: char, d: char, rest: string)
    requires HexDigit(c) < 0 || HexDigit(d) < 0
    ensures DecodeHex(HexString(bytes) + [c, d] + rest) == bytes
  {
    var s := HexString(bytes) + [c, d] + rest;
    if bytes != [] {
      HexStops(bytes[1..], c, d, rest);
      assert s[2..] == HexString(bytes[1..]) + [c, d] + rest;
      assert bytes == [bytes[0]] + bytes[1..];
    }
  }

  lemma OddHex(s: string)
    requires |s| % 2 == 1 && StripPrefix(s) == s
    ensures HexToHash(s) == BytesToHash(DecodeHex("0" + s))
  {
  }
}
