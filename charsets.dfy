/** The host platform's text-encoding service, reduced to the one charset the
    codec's tests use: UTF-8 (section 3 of RFC 3629). Text is a sequence of
    Unicode scalar values. The US-ASCII conversions model how the platform
    turns the encoded payload into text and back. */
module Charsets {
  import opened Wrappers
  import opened Bytes

  datatype Charset = Utf8

  /** Charset lookup by name; every other name is an unsupported charset. */
  function Lookup(name: string): (cs: Option<Charset>)
    ensures cs.Some? <==> name == "UTF-8"
  {
    if name == "UTF-8" then Some(Utf8) else None
  }

  predicate IsContinuation(b: byte) {
    0x80 <= b < 0xC0
  }

  /** The UTF-8 form of one scalar value: one to four bytes. */
  function Utf8EncodeChar(c: char): (r: seq<byte>)
    ensures 1 <= |r| <= 4
  {
    var n := c as int;
    if n < 0x80 then [n]
    else if n < 0x800 then [0xC0 + n / 64, 0x80 + n % 64]
    else if n < 0x10000 then [0xE0 + n / 4096, 0x80 + (n / 64) % 64, 0x80 + n % 64]
    else [0xF0 + n / 262144, 0x80 + (n / 4096) % 64, 0x80 + (n / 64) % 64, 0x80 + n % 64]
  }

  predicate IsScalar(n: int) {
    (0 <= n < 0xD800) || (0xE000 <= n < 0x110000)
  }

  /** Reads the scalar value at the head of a byte sequence and the number of
      bytes it takes, rejecting bad lead bytes, missing continuation bytes,
      overlong forms, surrogates and values above U+10FFFF. */
  function Utf8DecodeHead(bs: seq<byte>): (r: Option<(char, nat)>)
    requires |bs| > 0
    ensures r.Some? ==> 1 <= r.value.1 <= |bs|
  {
    var b0, b1, b2, b3 := bs[0] as int, if |bs| > 1 then bs[1] as int else 0,
      if |bs| > 2 then bs[2] as int else 0, if |bs| > 3 then bs[3] as int else 0;
    if b0 < 0x80 then Some((b0 as char, 1))
    else if 0xC0 <= b0 < 0xE0 then
      if |bs| < 2 || !IsContinuation(bs[1]) then None
      else
        var n := (b0 - 0xC0) * 64 + (b1 - 0x80);
        if n < 0x80 then None else Some((n as char, 2))
    else if 0xE0 <= b0 < 0xF0 then
      if |bs| < 3 || !IsContinuation(bs[1]) || !IsContinuation(bs[2]) then None
      else
        var n := (b0 - 0xE0) * 4096 + (b1 - 0x80) * 64 + (b2 - 0x80);
        if n < 0x800 || !IsScalar(n) then None else Some((n as char, 3))
    else if 0xF0 <= b0 < 0xF8 then
      if |bs| < 4 || !IsContinuation(bs[1]) || !IsContinuation(bs[2]) || !IsContinuation(bs[3]) then None
      else
        var n := (b0 - 0xF0) * 262144 + (b1 - 0x80) * 4096 + (b2 - 0x80) * 64 + (b3 - 0x80);
        if n < 0x10000 || !IsScalar(n) then None else Some((n as char, 4))
    else None
  }

  function Utf8Encode(t: string): (r: seq<byte>)
    ensures |t| <= |r| <= 4 * |t|
  {
    if |t| == 0 then [] else Utf8EncodeChar(t[0]) + Utf8Encode(t[1..])
  }

  /** UTF-8 encodes character by character. */
  lemma {:induction false} Utf8EncodeAppend(a: string, b: string)
    ensures Utf8Encode(a + b) == Utf8Encode(a) + Utf8Encode(b)
    decreases |a|
  {
    if |a| > 0 {
      assert (a + b)[0] == a[0] && (a + b)[1..] == a[1..] + b;
      Utf8EncodeAppend(a[1..], b);
    } else {
      assert a + b == b;
    }
  }

  function Utf8Decode(bs: seq<byte>): (r: Option<string>)
    ensures r.Some? ==> |r.value| <= |bs|
    decreases |bs|
  {
    if |bs| == 0 then Some([])
    else match Utf8DecodeHead(bs)
      case None => None
      case Some((c, k)) =>
        var rest := Utf8Decode(bs[k..]);
        if rest.Some? then Some([c] + rest.value) else None
  }

  lemma Utf8TwoBytes(n: int)
    requires 0x80 <= n < 0x800
    ensures 0xC2 <= 0xC0 + n / 64 < 0xE0 && IsContinuation(0x80 + n % 64)
    ensures (n / 64) * 64 + n % 64 == n
  {
  }

  lemma Utf8ThreeBytes(n: int)
    requires 0x800 <= n < 0x10000
    ensures 0xE0 <= 0xE0 + n / 4096 < 0xF0
    ensures IsContinuation(0x80 + (n / 64) % 64) && IsContinuation(0x80 + n % 64)
    ensures (n / 4096) * 4096 + ((n / 64) % 64) * 64 + n % 64 == n
  {
    var q := n / 64;
    assert q * 64 + n % 64 == n;
    assert (q / 64) * 64 + q % 64 == q;
    assert q / 64 == n / 4096;
  }

  lemma Utf8FourBytes(n: int)
    requires 0x10000 <= n < 0x110000
    ensures 0xF0 <= 0xF0 + n / 262144 < 0xF8
    ensures IsContinuation(0x80 + (n / 4096) % 64) && IsContinuation(0x80 + (n / 64) % 64)
    ensures IsContinuation(0x80 + n % 64)
    ensures (n / 262144) * 262144 + ((n / 4096) % 64) * 4096 + ((n / 64) % 64) * 64 + n % 64 == n
  {
    var q := n / 64;
    var p := q / 64;
    assert q * 64 + n % 64 == n;
    assert p * 64 + q % 64 == q;
    assert (p / 64) * 64 + p % 64 == p;
    assert p == n / 4096;
    assert p / 64 == n / 262144;
  }

  /** The head of an encoded character is that character. */
  lemma Utf8DecodeHeadEncode(c: char, rest: seq<byte>)
    ensures Utf8DecodeHead(Utf8EncodeChar(c) + rest) == Some((c, |Utf8EncodeChar(c)|))
  {
    var n := c as int;
    var s := Utf8EncodeChar(c) + rest;
    if n < 0x80 {
    } else if n < 0x800 {
      Utf8TwoBytes(n);
      assert s[0] == 0xC0 + n / 64 && s[1] == 0x80 + n % 64;
    } else if n < 0x10000 {
      Utf8ThreeBytes(n);
      assert s[0] == 0xE0 + n / 4096 && s[1] == 0x80 + (n / 64) % 64 && s[2] == 0x80 + n % 64;
    } else {
      Utf8FourBytes(n);
      assert s[0] == 0xF0 + n / 262144 && s[1] == 0x80 + (n / 4096) % 64;
      assert s[2] == 0x80 + (n / 64) % 64 && s[3] == 0x80 + n % 64;
    }
  }

  /** Round trip: decoding the UTF-8 form of any text gives the text back. */
  lemma {:induction false} Utf8DecodeEncode(t: string)
    ensures Utf8Decode(Utf8Encode(t)) == Some(t)
  {
    if |t| > 0 {
      var e, r := Utf8EncodeChar(t[0]), Utf8Encode(t[1..]);
      Utf8DecodeHeadEncode(t[0], r);
      assert (e + r)[|e|..] == r;
      Utf8DecodeEncode(t[1..]);
      assert [t[0]] + t[1..] == t;
    }
  }

  /** Text to bytes in a charset: the platform's `getBytes`. */
  function EncodeText(cs: Charset, t: string): seq<byte> {
    match cs
    case Utf8 => Utf8Encode(t)
  }

  /** Bytes to text in a charset: the platform's string constructor. None is
      a byte sequence that is not valid in the charset. */
  function DecodeText(cs: Charset, bs: seq<byte>): Option<string> {
    match cs
    case Utf8 => Utf8Decode(bs)
  }

  /** Every supported charset decodes what it encodes. */
  lemma DecodeEncodeText(cs: Charset, t: string)
    ensures DecodeText(cs, EncodeText(cs, t)) == Some(t)
  {
    Utf8DecodeEncode(t);
  }

  /** Hence text-to-bytes conversion is injective. */
  lemma EncodeTextInjective(cs: Charset, t1: string, t2: string)
    requires EncodeText(cs, t1) == EncodeText(cs, t2)
    ensures t1 == t2
  {
    DecodeEncodeText(cs, t1);
    DecodeEncodeText(cs, t2);
  }

  /** Bytes read as US-ASCII text: bytes above 0x7F become U+FFFD. */
  function AsciiText(bs: seq<byte>): (t: string)
    ensures |t| == |bs|
    ensures forall i :: 0 <= i < |bs| ==> (t[i] as int == bs[i] <==> bs[i] < 0x80)
  {
    seq(|bs|, i requires 0 <= i < |bs| => if bs[i] < 0x80 then bs[i] as char else '�')
  }

  /** Text written as US-ASCII bytes: characters above U+007F become `?`. */
  function AsciiBytes(t: string): (bs: seq<byte>)
    ensures |bs| == |t|
    ensures forall i :: 0 <= i < |t| ==> (t[i] as int < 0x80 ==> bs[i] == t[i] as int)
    ensures forall i :: 0 <= i < |t| ==> (t[i] as int >= 0x80 ==> bs[i] == QUESTION)
  {
    seq(|t|, i requires 0 <= i < |t| => if t[i] as int < 0x80 then t[i] as int else QUESTION)
  }

  /** Reading bytes as US-ASCII text goes byte by byte. */
  lemma AsciiTextAppend(a: seq<byte>, b: seq<byte>)
    ensures AsciiText(a + b) == AsciiText(a) + AsciiText(b)
  {
    var l, r := AsciiText(a + b), AsciiText(a) + AsciiText(b);
    forall i | 0 <= i < |a + b| ensures l[i] == r[i] {
      if i < |a| { assert (a + b)[i] == a[i]; } else { assert (a + b)[i] == b[i - |a|]; }
    }
  }

  /** Text-to-bytes conversion goes character by character. */
  lemma EncodeTextAppend(cs: Charset, a: string, b: string)
    ensures EncodeText(cs, a + b) == EncodeText(cs, a) + EncodeText(cs, b)
  {
    Utf8EncodeAppend(a, b);
  }

  /** An ASCII byte sequence survives the trip through text. */
  lemma AsciiRoundTrip(bs: seq<byte>)
    requires forall i :: 0 <= i < |bs| ==> bs[i] < 0x80
    ensures AsciiBytes(AsciiText(bs)) == bs
  {
  }
}
