/** A character-level reference for what the Q codec writes for a UTF-8
    text. Each character is treated on its own. A blank becomes `_` when
    blanks are encoded. A plain character is written as itself. Every other
    character becomes the `=XX` escapes of its UTF-8 bytes. The lemmas show
    that the byte-level pipeline (UTF-8, then Q, then US-ASCII) writes
    exactly this. */
module QReference {
  import opened Bytes
  import QEncoding
  import Charsets
  import opened QCodecs

  /** The escapes of a byte sequence, one `=XX` per byte. */
  function EscapeAll(bs: seq<byte>): (r: string)
    ensures |r| == 3 * |bs|
  {
    if |bs| == 0 then [] else EscapeText(bs[0]) + EscapeAll(bs[1..])
  }

  /** What the codec writes for one character. */
  function CharQ(c: char, blanks: bool): (r: string)
    ensures |r| == 1 || (3 <= |r| <= 12 && |r| % 3 == 0 && r[0] == '=')
  {
    if blanks && c == ' ' then "_"
    else if IsPlain(c) then [c]
    else EscapeAll(Charsets.Utf8EncodeChar(c))
  }

  /** What the codec writes for a text, character by character. */
  function QText(t: string, blanks: bool): string {
    if |t| == 0 then [] else CharQ(t[0], blanks) + QText(t[1..], blanks)
  }

  /** Each character takes one to twelve characters of the reference. */
  lemma {:induction false} QTextLength(t: string, blanks: bool)
    ensures |t| <= |QText(t, blanks)| <= 12 * |t|
    decreases |t|
  {
    if |t| > 0 {
      QTextLength(t[1..], blanks);
    }
  }

  lemma QTextSingle(c: char, blanks: bool)
    ensures QText([c], blanks) == CharQ(c, blanks)
  {
    assert [c][1..] == [];
  }

  lemma {:induction false} QTextAppend(a: string, b: string, blanks: bool)
    ensures QText(a + b, blanks) == QText(a, blanks) + QText(b, blanks)
    decreases |a|
  {
    if |a| == 0 {
      assert a + b == b;
    } else {
      assert (a + b)[0] == a[0] && (a + b)[1..] == a[1..] + b;
      QTextAppend(a[1..], b, blanks);
    }
  }

  /** An escape read back as US-ASCII text is its `=XX` form. */
  lemma AsciiEscape(b: byte)
    ensures Charsets.AsciiText(QEncoding.Escape(b)) == EscapeText(b)
  {
  }

  /** Bytes at or above 0x80 are never safe, so each one is escaped. */
  lemma {:induction false} HighBytesPayload(bs: seq<byte>, blanks: bool)
    requires forall i :: 0 <= i < |bs| ==> bs[i] >= 0x80
    ensures Charsets.AsciiText(QEncoding.Encode(bs, QSafe, blanks)) == EscapeAll(bs)
    decreases |bs|
  {
    if |bs| > 0 {
      var head, rest := QEncoding.Escape(bs[0]), QEncoding.Encode(bs[1..], QSafe, blanks);
      assert QEncoding.Encode(bs, QSafe, blanks) == head + rest;
      Charsets.AsciiTextAppend(head, rest);
      AsciiEscape(bs[0]);
      HighBytesPayload(bs[1..], blanks);
    }
  }

  /** The codec's payload of one character is its reference form. */
  lemma CharPayload(c: char, blanks: bool)
    ensures Payload(Charsets.Utf8, [c], blanks) == CharQ(c, blanks)
  {
    Utf8One(c);
    var bs := Charsets.Utf8EncodeChar(c);
    if c as int < 0x80 {
      PayloadOfByte(Charsets.Utf8, c, blanks, c as int);
      if !(blanks && c == ' ') && !IsPlain(c) {
        AsciiEscape(c as int);
        assert EscapeAll(bs) == EscapeText(c as int) + EscapeAll([]);
      }
    } else {
      HighBytesPayload(bs, blanks);
    }
  }

  /** The byte-level payload of any text equals the reference. */
  lemma {:induction false} PayloadIsQText(t: string, blanks: bool)
    ensures Payload(Charsets.Utf8, t, blanks) == QText(t, blanks)
    decreases |t|
  {
    if |t| > 0 {
      assert t == [t[0]] + t[1..];
      PayloadAppend(Charsets.Utf8, [t[0]], t[1..], blanks);
      CharPayload(t[0], blanks);
      PayloadIsQText(t[1..], blanks);
    } else {
      assert Charsets.Utf8Encode(t) == [];
    }
  }

  lemma BlankedCons(t: string, blanks: bool)
    requires |t| > 0
    ensures Blanked(t, blanks) == Blanked([t[0]], blanks) + Blanked(t[1..], blanks)
  {
    var l, r := Blanked(t, blanks), Blanked([t[0]], blanks) + Blanked(t[1..], blanks);
    forall i | 0 <= i < |t| ensures l[i] == r[i] {
      if i > 0 { assert r[i] == Blanked(t[1..], blanks)[i - 1]; }
    }
  }

  /** In the reference, plain text is written as itself, except that its
      spaces become `_` when blanks are encoded. */
  lemma {:induction false} PlainQText(t: string, blanks: bool)
    requires forall i :: 0 <= i < |t| ==> IsPlain(t[i])
    ensures QText(t, blanks) == Blanked(t, blanks)
    decreases |t|
  {
    if |t| > 0 {
      BlankedCons(t, blanks);
      PlainQText(t[1..], blanks);
    }
  }

  /** Plain text passes through the codec unchanged, except that its spaces
      become `_` when blanks are encoded. */
  lemma PlainPayload(t: string, blanks: bool)
    requires forall i :: 0 <= i < |t| ==> IsPlain(t[i])
    ensures Payload(Charsets.Utf8, t, blanks) == Blanked(t, blanks)
  {
    PayloadIsQText(t, blanks);
    PlainQText(t, blanks);
  }
}
