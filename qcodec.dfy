/** The Q codec: text in a named charset, Q-encoded and wrapped into an
    RFC 2047 encoded word, and back. */
module QCodecs {
  import opened Wrappers
  import opened Bytes
  import QEncoding
  import Charsets
  import opened EncodedWord

  /** Why a call failed; `EncoderError` and `DecoderError` are the two
      exception kinds a caller can catch. */
  datatype Cause = UnsupportedCharset | Malformed
  datatype CodecError = EncoderError(cause: Cause) | DecoderError(cause: Cause)

  const DEFAULT_CHARSET: string := "UTF-8"
  const Q_TAG: string := "Q"

  /** The codec's safe table: printable ASCII except `=`, `?` and `_`. */
  predicate QSafe(b: byte) {
    0x20 <= b <= 0x7E && b != EQUALS && b != QUESTION && b != UNDERSCORE
  }

  /** The codec's table meets every case the tests fix. */
  lemma QSafeTested()
    ensures QEncoding.TestedTable(QSafe)
  {
  }

  /** The encoding tag is compared without regard to case. */
  predicate IsQTag(tag: string) {
    tag == "Q" || tag == "q"
  }

  /** The encoded-text field for a text in a charset: its bytes, Q-encoded
      with the codec's table, read as US-ASCII. */
  function Payload(cs: Charsets.Charset, t: string, blanks: bool): (p: string)
    ensures |t| <= |p| <= 12 * |t|
  {
    Charsets.AsciiText(QEncoding.Encode(Charsets.EncodeText(cs, t), QSafe, blanks))
  }

  /** Encodes a possibly absent text in the named charset. An absent text,
      and only an absent text, gives an absent result; encoding fails
      exactly when the charset is not supported, and then with an encoder
      error. */
  function EncodeWord(text: Option<string>, charset: string, blanks: bool): (r: Result<Option<string>, CodecError>)
    ensures r == Success(None) <==> text.None?
    ensures r.Failure? <==> text.Some? && Charsets.Lookup(charset).None?
    ensures r.Failure? ==> r.error == EncoderError(UnsupportedCharset)
  {
    if text.None? then Success(None)
    else match Charsets.Lookup(charset)
      case None => Failure(EncoderError(UnsupportedCharset))
      case Some(cs) =>
        Success(Some(Wrap(charset, Q_TAG, Payload(cs, text.value, blanks))))
  }

  /** Decodes a possibly absent encoded word. An absent word, and only an
      absent word, gives an absent result; a present word decodes only when
      it splits into fields, its tag is `Q` and it names a supported
      charset; every failure is a decoder error. */
  function DecodeWord(word: Option<string>): (r: Result<Option<string>, CodecError>)
    ensures r == Success(None) <==> word.None?
    ensures r.Success? && word.Some? ==>
              Unwrap(word.value).Some? && IsQTag(Unwrap(word.value).value.encoding) &&
              Charsets.Lookup(Unwrap(word.value).value.charset).Some?
    ensures r.Failure? ==> r.error.DecoderError?
  {
    if word.None? then Success(None)
    else match Unwrap(word.value)
      case None => Failure(DecoderError(Malformed))
      case Some(parts) =>
        if !IsQTag(parts.encoding) then Failure(DecoderError(Malformed))
        else match Charsets.Lookup(parts.charset)
          case None => Failure(DecoderError(UnsupportedCharset))
          case Some(cs) =>
            match QEncoding.Decode(Charsets.AsciiBytes(parts.text))
            case None => Failure(DecoderError(Malformed))
            case Some(bs) =>
              match Charsets.DecodeText(cs, bs)
              case None => Failure(DecoderError(Malformed))
              case Some(t) => Success(Some(t))
  }

  /** The payload of a text is the payload of its characters, in order. */
  lemma PayloadAppend(cs: Charsets.Charset, a: string, b: string, blanks: bool)
    ensures Payload(cs, a + b, blanks) == Payload(cs, a, blanks) + Payload(cs, b, blanks)
  {
    Charsets.EncodeTextAppend(cs, a, b);
    var ea, eb := Charsets.EncodeText(cs, a), Charsets.EncodeText(cs, b);
    QEncoding.EncodeAppend(ea, eb, QSafe, blanks);
    Charsets.AsciiTextAppend(QEncoding.Encode(ea, QSafe, blanks), QEncoding.Encode(eb, QSafe, blanks));
  }

  /** A character the codec writes as itself (or, for a space, possibly as
      `_`): printable ASCII other than `=`, `?` and `_`. */
  predicate IsPlain(c: char) {
    c as int < 0x80 && QSafe(c as int)
  }

  /** A text with every space replaced by `_` when blanks are encoded. */
  function Blanked(t: string, blanks: bool): (r: string)
    ensures |r| == |t|
  {
    seq(|t|, i requires 0 <= i < |t| => if blanks && t[i] == ' ' then '_' else t[i])
  }

  /** The escape `=XX` of a byte, as text. */
  function EscapeText(b: byte): (r: string)
    ensures |r| == 3 && r[0] == '='
  {
    ['=', HexDigit(b / 16) as char, HexDigit(b % 16) as char]
  }

  lemma PayloadOfByte(cs: Charsets.Charset, c: char, blanks: bool, b: byte)
    requires Charsets.EncodeText(cs, [c]) == [b]
    ensures Payload(cs, [c], blanks) == Charsets.AsciiText(QEncoding.EncodeByte(b, QSafe, blanks))
  {
    assert [b][1..] == [];
    assert QEncoding.Encode([b], QSafe, blanks) == QEncoding.EncodeByte(b, QSafe, blanks) + [];
  }

  lemma Utf8One(c: char)
    ensures Charsets.Utf8Encode([c]) == Charsets.Utf8EncodeChar(c)
  {
    assert [c][1..] == [];
    assert Charsets.Utf8Encode([c]) == Charsets.Utf8EncodeChar(c) + [];
  }

  /** Every other ASCII character, `=`, `?`, `_`, CR and LF among them, is
      escaped. */
  lemma EscapedAsciiPayload(c: char, blanks: bool)
    requires c as int < 0x80 && !IsPlain(c)
    ensures Payload(Charsets.Utf8, [c], blanks) == EscapeText(c as int)
  {
    Utf8One(c);
    PayloadOfByte(Charsets.Utf8, c, blanks, c as int);
  }


  /** With the UTF-8 charset the encoded word is `=?UTF-8?Q?`, the payload
      and `?=`. */
  lemma EncodeUtf8(t: string, blanks: bool)
    ensures EncodeWord(Some(t), DEFAULT_CHARSET, blanks) == Success(Some("=?UTF-8?Q?" + Payload(Charsets.Utf8, t, blanks) + "?="))
  {
    var p := Payload(Charsets.Utf8, t, blanks);
    assert Wrap(DEFAULT_CHARSET, Q_TAG, p) == "=?UTF-8?Q?" + p + "?=";
  }

  /** The payload is printable US-ASCII without `?`; with blanks encoded it
      has no space, and with blanks not encoded it has no `_`. */
  lemma PayloadAlphabet(cs: Charsets.Charset, t: string, blanks: bool)
    ensures forall i :: 0 <= i < |Payload(cs, t, blanks)| ==>
              0x20 <= Payload(cs, t, blanks)[i] as int <= 0x7E && Payload(cs, t, blanks)[i] != '?'
    ensures blanks ==> ' ' !in Payload(cs, t, blanks)
    ensures !blanks ==> '_' !in Payload(cs, t, blanks)
  {
    var e := QEncoding.Encode(Charsets.EncodeText(cs, t), QSafe, blanks);
    QEncoding.EncodePrintable(Charsets.EncodeText(cs, t), QSafe, blanks);
    QEncoding.EncodeAlphabet(Charsets.EncodeText(cs, t), QSafe, blanks);
    var p := Payload(cs, t, blanks);
    forall i | 0 <= i < |p| ensures p[i] as int == e[i] {
    }
  }

  /** The encoded word splits back into the charset name as given, the tag
      `Q` and the payload. */
  lemma EncodedEnvelope(t: string, charset: string, blanks: bool)
    requires Charsets.Lookup(charset).Some?
    ensures EncodeWord(Some(t), charset, blanks).Success?
    ensures EncodeWord(Some(t), charset, blanks).value ==
              Some(Wrap(charset, Q_TAG, Payload(Charsets.Lookup(charset).value, t, blanks)))
    ensures Unwrap(EncodeWord(Some(t), charset, blanks).value.value) ==
              Some(Parts(charset, Q_TAG, Payload(Charsets.Lookup(charset).value, t, blanks)))
  {
    UnwrapWrap(charset, Q_TAG, Payload(Charsets.Lookup(charset).value, t, blanks));
  }

  /** Round trip: decoding the word made from a text gives the text back, in
      every supported charset and with blanks encoded or not. */
  lemma DecodeEncodeWord(t: string, charset: string, blanks: bool)
    requires Charsets.Lookup(charset).Some?
    ensures EncodeWord(Some(t), charset, blanks).Success?
    ensures DecodeWord(EncodeWord(Some(t), charset, blanks).value) == Success(Some(t))
  {
    var cs := Charsets.Lookup(charset).value;
    var bs := Charsets.EncodeText(cs, t);
    var e := QEncoding.Encode(bs, QSafe, blanks);
    EncodedEnvelope(t, charset, blanks);
    QEncoding.EncodePrintable(bs, QSafe, blanks);
    Charsets.AsciiRoundTrip(e);
    QEncoding.DecodeEncode(bs, QSafe, blanks);
    Charsets.DecodeEncodeText(cs, t);
  }

  /** A well-formed word naming an unsupported charset fails to decode with
      a decoder error, whatever its text. */
  lemma UnsupportedCharsetDecode(charset: string, tag: string, text: string)
    requires charset != [] && SEP !in charset && Charsets.Lookup(charset).None?
    requires IsQTag(tag)
    ensures DecodeWord(Some(Wrap(charset, tag, text))) == Failure(DecoderError(UnsupportedCharset))
  {
    UnwrapWrap(charset, tag, text);
  }

  /** The codec object: a charset fixed at construction and a switch for
      writing blanks as `_`, off until set. */
  class QCodec {
    const charset: string
    var encodeBlanks: bool

    /** A codec for the default charset, UTF-8. */
    constructor ()
      ensures charset == DEFAULT_CHARSET && !encodeBlanks
    {
      charset := DEFAULT_CHARSET;
      encodeBlanks := false;
    }

    /** A codec for the named charset; the name is checked only when the
        codec is used. */
    constructor WithCharset(name: string)
      ensures charset == name && !encodeBlanks
    {
      charset := name;
      encodeBlanks := false;
    }

    method SetEncodeBlanks(b: bool)
      modifies this
      ensures encodeBlanks == b
    {
      encodeBlanks := b;
    }

    method IsEncodeBlanks() returns (b: bool)
      ensures b == encodeBlanks
    {
      b := encodeBlanks;
    }

    /** Q-encodes bytes with the codec's table and blank setting; the
        result decodes back to the input. */
    method DoEncoding(bytes: Option<seq<byte>>) returns (r: Option<seq<byte>>)
      ensures bytes.None? ==> r.None?
      ensures bytes.Some? ==> r == Some(QEncoding.Encode(bytes.value, QSafe, encodeBlanks))
      ensures bytes.Some? ==> QEncoding.Decode(r.value) == Some(bytes.value)
    {
      if bytes.None? {
        r := None;
      } else {
        r := Some(QEncoding.Encode(bytes.value, QSafe, encodeBlanks));
        QEncoding.DecodeEncode(bytes.value, QSafe, encodeBlanks);
      }
    }

    /** Q-decodes bytes; a malformed escape is a decoder error. */
    method DoDecoding(bytes: Option<seq<byte>>) returns (r: Result<Option<seq<byte>>, CodecError>)
      ensures bytes.None? ==> r == Success(None)
      ensures bytes.Some? && QEncoding.Decode(bytes.value).Some? ==> r == Success(QEncoding.Decode(bytes.value))
      ensures bytes.Some? && QEncoding.Decode(bytes.value).None? ==> r == Failure(DecoderError(Malformed))
    {
      if bytes.None? {
        r := Success(None);
      } else {
        match QEncoding.Decode(bytes.value)
        case None => r := Failure(DecoderError(Malformed));
        case Some(bs) => r := Success(Some(bs));
      }
    }

    /** Encodes a text into an encoded word in the codec's charset. */
    method Encode(text: Option<string>) returns (r: Result<Option<string>, CodecError>)
      ensures r == EncodeWord(text, charset, encodeBlanks)
    {
      r := EncodeWith(text, charset);
    }

    /** Encodes a text into an encoded word in the named charset. */
    method EncodeWith(text: Option<string>, name: string) returns (r: Result<Option<string>, CodecError>)
      ensures r == EncodeWord(text, name, encodeBlanks)
    {
      r := EncodeWord(text, name, encodeBlanks);
    }

    /** Decodes an encoded word; the charset is the one the word names. */
    method Decode(word: Option<string>) returns (r: Result<Option<string>, CodecError>)
      ensures r == DecodeWord(word)
    {
      r := DecodeWord(word);
    }
  }
}
