/** The byte-level "Q" transform of RFC 2047, section 4.2: the quoted-printable
    escape `=XX` restricted to a caller-chosen set of safe bytes, with an
    optional `_` for the space byte. */
module QEncoding {
  import opened Wrappers
  import opened Bytes

  /** The three-byte escape `=XX` of a byte, with uppercase hex digits. */
  function Escape(b: byte): (r: seq<byte>)
    ensures |r| == 3 && r[0] == EQUALS
    ensures IsUpperHexDigit(r[1]) && IsUpperHexDigit(r[2])
    ensures HexValue(r[1]).value * 16 + HexValue(r[2]).value == b
  {
    [EQUALS, HexDigit(b / 16), HexDigit(b % 16)]
  }

  /** What the encoder emits for one byte: `_` for a space when blanks are
      encoded, the byte itself when it is safe (and is not `=`), its escape
      otherwise. */
  function EncodeByte(b: byte, safe: byte -> bool, blanks: bool): (r: seq<byte>)
    ensures |r| == 1 || |r| == 3
    ensures |r| == 1 ==> r == [b] || (blanks && b == SPACE && r == [UNDERSCORE])
    ensures |r| == 3 ==> r == Escape(b)
  {
    if blanks && b == SPACE then [UNDERSCORE]
    else if safe(b) && b != EQUALS then [b]
    else Escape(b)
  }

  /** The Q encoding of a byte sequence, byte by byte and in order. */
  function Encode(bs: seq<byte>, safe: byte -> bool, blanks: bool): (r: seq<byte>)
    ensures |bs| <= |r| <= 3 * |bs|
    decreases |bs|
  {
    if |bs| == 0 then [] else EncodeByte(bs[0], safe, blanks) + Encode(bs[1..], safe, blanks)
  }

  /** The encoder keeps no state between bytes: encoding distributes over
      concatenation. */
  lemma {:induction false} EncodeAppend(a: seq<byte>, b: seq<byte>, safe: byte -> bool, blanks: bool)
    ensures Encode(a + b, safe, blanks) == Encode(a, safe, blanks) + Encode(b, safe, blanks)
    decreases |a|
  {
    if |a| > 0 {
      assert (a + b)[0] == a[0] && (a + b)[1..] == a[1..] + b;
      EncodeAppend(a[1..], b, safe, blanks);
    } else {
      assert a + b == b;
    }
  }

  function Prepend(b: byte, rest: Option<seq<byte>>): Option<seq<byte>> {
    if rest.Some? then Some([b] + rest.value) else None
  }

  /** The Q decoding of a byte sequence: `_` is a space whatever flag produced
      it, `=` must be followed by two hex digits (of either case), any other
      byte stands for itself. None is the malformed-escape failure. */
  function Decode(bs: seq<byte>): (r: Option<seq<byte>>)
    ensures r.Some? ==> |r.value| <= |bs|
    decreases |bs|
  {
    if |bs| == 0 then Some([])
    else if bs[0] == UNDERSCORE then Prepend(SPACE, Decode(bs[1..]))
    else if bs[0] == EQUALS then
      if |bs| < 3 then None
      else
        var hi, lo := HexValue(bs[1]), HexValue(bs[2]);
        if hi.Some? && lo.Some? then Prepend(hi.value * 16 + lo.value, Decode(bs[3..]))
        else None
    else Prepend(bs[0], Decode(bs[1..]))
  }

  /** The bytes the tests fix for the safe table: letters, digits, `+` and the
      space are safe; `=`, `?`, `_`, CR, LF and every byte at or above 0x80
      are not. */
  ghost predicate TestedTable(safe: byte -> bool) {
    && (forall b: byte :: (0x30 <= b <= 0x39 || 0x41 <= b <= 0x5A || 0x61 <= b <= 0x7A) ==> safe(b))
    && safe(0x2B) && safe(SPACE)
    && !safe(EQUALS) && !safe(QUESTION) && !safe(UNDERSCORE) && !safe(CR) && !safe(LF)
    && (forall b: byte :: 0x80 <= b ==> !safe(b))
  }

  /** Decoding one encoded byte followed by anything yields that byte in
      front of the decoding of the rest. */
  lemma DecodeEncodeByte(b: byte, safe: byte -> bool, blanks: bool, rest: seq<byte>)
    requires !safe(UNDERSCORE)
    ensures Decode(EncodeByte(b, safe, blanks) + rest) == Prepend(b, Decode(rest))
  {
    var e := EncodeByte(b, safe, blanks);
    if |e| == 1 {
      assert (e + rest)[1..] == rest;
    } else {
      assert (e + rest)[3..] == rest;
    }
  }

  /** Round trip: decoding undoes encoding for every byte sequence, either
      blanks setting and every table that keeps `_` unsafe. */
  lemma {:induction false} DecodeEncode(bs: seq<byte>, safe: byte -> bool, blanks: bool)
    requires !safe(UNDERSCORE)
    ensures Decode(Encode(bs, safe, blanks)) == Some(bs)
    decreases |bs|
  {
    if |bs| > 0 {
      DecodeEncodeByte(bs[0], safe, blanks, Encode(bs[1..], safe, blanks));
      DecodeEncode(bs[1..], safe, blanks);
      assert [bs[0]] + bs[1..] == bs;
    }
  }

  /** Without `_` in the table, encoding is injective. */
  lemma EncodeInjective(bs1: seq<byte>, bs2: seq<byte>, safe: byte -> bool, blanks: bool)
    requires !safe(UNDERSCORE)
    requires Encode(bs1, safe, blanks) == Encode(bs2, safe, blanks)
    ensures bs1 == bs2
  {
    DecodeEncode(bs1, safe, blanks);
    DecodeEncode(bs2, safe, blanks);
  }

  /** The bytes an encoder may emit: safe bytes other than `=`, the `_` of a
      space, and the pieces `=` and uppercase hex digits of an escape. */
  predicate InAlphabet(c: byte, safe: byte -> bool, blanks: bool) {
    (safe(c) && c != EQUALS) || (blanks && c == UNDERSCORE) || c == EQUALS || IsUpperHexDigit(c)
  }

  /** Every emitted byte is in the alphabet; a space appears only when blanks
      are not encoded, and `_` only when they are (or when `_` is safe). */
  lemma {:induction false} EncodeAlphabet(bs: seq<byte>, safe: byte -> bool, blanks: bool)
    ensures forall i :: 0 <= i < |Encode(bs, safe, blanks)| ==> InAlphabet(Encode(bs, safe, blanks)[i], safe, blanks)
    ensures blanks ==> SPACE !in Encode(bs, safe, blanks)
    ensures !blanks && !safe(UNDERSCORE) ==> UNDERSCORE !in Encode(bs, safe, blanks)
    decreases |bs|
  {
    if |bs| > 0 {
      EncodeAlphabet(bs[1..], safe, blanks);
      var e, r := EncodeByte(bs[0], safe, blanks), Encode(bs[1..], safe, blanks);
      assert Encode(bs, safe, blanks) == e + r;
      forall i | 0 <= i < |e + r| ensures InAlphabet((e + r)[i], safe, blanks) {
        if i >= |e| { assert (e + r)[i] == r[i - |e|]; }
      }
    }
  }

  /** A table of printable ASCII bytes without `?` yields printable ASCII
      without `?`: the payload can sit inside an encoded word. */
  lemma EncodePrintable(bs: seq<byte>, safe: byte -> bool, blanks: bool)
    requires forall b: byte :: safe(b) ==> 0x20 <= b <= 0x7E && b != QUESTION
    ensures forall i :: 0 <= i < |Encode(bs, safe, blanks)| ==>
              0x20 <= Encode(bs, safe, blanks)[i] <= 0x7E && Encode(bs, safe, blanks)[i] != QUESTION
  {
    EncodeAlphabet(bs, safe, blanks);
  }

  /** The reserved bytes are always escaped, as `=3D`, `=3F`, `=5F`, `=0D`
      and `=0A`; letters, digits and `+` go through literally. */
  lemma ReservedBytesEscaped(safe: byte -> bool, blanks: bool)
    requires TestedTable(safe)
    ensures EncodeByte(EQUALS, safe, blanks) == [EQUALS, 0x33, 0x44]
    ensures EncodeByte(QUESTION, safe, blanks) == [EQUALS, 0x33, 0x46]
    ensures EncodeByte(UNDERSCORE, safe, blanks) == [EQUALS, 0x35, 0x46]
    ensures EncodeByte(CR, safe, blanks) == [EQUALS, 0x30, 0x44]
    ensures EncodeByte(LF, safe, blanks) == [EQUALS, 0x30, 0x41]
    ensures forall b: byte :: (0x30 <= b <= 0x39 || 0x41 <= b <= 0x5A || 0x61 <= b <= 0x7A || b == 0x2B) ==>
              EncodeByte(b, safe, blanks) == [b]
  {
  }

  /** A byte at or above 0x80 becomes `=` and its two uppercase hex digits. */
  lemma HighBytesEscaped(b: byte, safe: byte -> bool, blanks: bool)
    requires TestedTable(safe) && 0x80 <= b
    ensures EncodeByte(b, safe, blanks) == [EQUALS, HexDigit(b / 16), HexDigit(b % 16)]
    ensures Decode(EncodeByte(b, safe, blanks)) == Some([b])
  {
    DecodeEncodeByte(b, safe, blanks, []);
    assert EncodeByte(b, safe, blanks) + [] == EncodeByte(b, safe, blanks);
    assert [b] + [] == [b];
  }

  /** The blanks flag decides what a space becomes: itself or `_`; either
      form decodes to a space. */
  lemma SpaceEncoding(safe: byte -> bool, blanks: bool)
    requires TestedTable(safe)
    ensures EncodeByte(SPACE, safe, blanks) == if blanks then [UNDERSCORE] else [SPACE]
    ensures Decode([SPACE]) == Some([SPACE]) && Decode([UNDERSCORE]) == Some([SPACE])
  {
    assert [SPACE][1..] == [] && [UNDERSCORE][1..] == [];
    assert [SPACE] + [] == [SPACE];
  }

  /** An `=` with fewer than two bytes after it is a failure, wherever it
      stands: the scan either starts an escape at it or meets it where a hex
      digit should be. */
  lemma {:induction false} TruncatedEscape(bs: seq<byte>, tail: seq<byte>)
    requires 0 < |tail| < 3 && tail[0] == EQUALS
    ensures Decode(bs + tail) == None
    decreases |bs|
  {
    var s := bs + tail;
    if |bs| == 0 {
      assert s == tail;
    } else if bs[0] == UNDERSCORE || bs[0] != EQUALS {
      assert s[1..] == bs[1..] + tail;
      TruncatedEscape(bs[1..], tail);
    } else if |bs| >= 3 {
      assert s[1] == bs[1] && s[2] == bs[2];
      assert s[3..] == bs[3..] + tail;
      TruncatedEscape(bs[3..], tail);
    } else if |s| >= 3 {
      assert s[|bs|] == EQUALS;
    }
  }

  /** An escape whose two bytes are not both hex digits is a failure. */
  lemma {:induction false} NonHexEscape(bs: seq<byte>, x: byte, y: byte, rest: seq<byte>)
    requires Decode(bs).Some?
    requires HexValue(x).None? || HexValue(y).None?
    ensures Decode(bs + [EQUALS, x, y] + rest) == None
    decreases |bs|
  {
    var s := bs + [EQUALS, x, y] + rest;
    if |bs| == 0 {
      assert s[..3] == [EQUALS, x, y];
    } else if bs[0] == UNDERSCORE || bs[0] != EQUALS {
      assert s[1..] == bs[1..] + [EQUALS, x, y] + rest;
      NonHexEscape(bs[1..], x, y, rest);
    } else {
      assert s[1] == bs[1] && s[2] == bs[2];
      assert s[3..] == bs[3..] + [EQUALS, x, y] + rest;
      NonHexEscape(bs[3..], x, y, rest);
    }
  }
}
