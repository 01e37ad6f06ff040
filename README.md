# Q codec: RFC 2047 encoded words with the "Q" encoding

This project models the Q codec of Apache commons-codec (`QCodec`). The codec
turns a text into one RFC 2047 encoded word, `=?charset?Q?encoded-text?=`,
and turns such a word back into text. The steps are:

- **Charset conversion.** The text becomes bytes in the codec's charset.
  The only charset modelled is UTF-8 (RFC 3629, section 3).
- **Byte transform.** Each byte is written out with the Q encoding of
  RFC 2047, section 4.2:
  - a safe byte is written as itself;
  - a space becomes `_` when the codec's "encode blanks" switch is on;
  - every other byte becomes `=` and two uppercase hex digits.
- **Envelope.** The result is read as US-ASCII and framed with the charset
  name and the tag `Q`.

Decoding undoes these steps. `_` becomes a space, and `=XX` becomes the byte
with that value (hex digits of either case). The envelope must be well
formed, the tag must be `Q` (in either case) and the charset must be
supported. An absent text or word (Java's `null`) passes through as an
absent result.

The modules:

- `Bytes`: the byte type, the reserved bytes and hex digits.
- `QEncoding`: the byte transform. It takes the safe table as a parameter,
  and its lemmas hold for every table that agrees with the cases the tests
  fix.
- `Charsets`: charset lookup, UTF-8 encoding and decoding, and the US-ASCII
  conversions.
- `EncodedWord`: the `=?…?…?…?=` envelope and its splitting.
- `QCodecs`: the codec as functions; the `QCodec` class, with its charset
  and mutable blank switch; and the codec's own safe table, which is
  printable ASCII without `=`, `?` and `_`.
- `QReference`: a separate, character-by-character definition of the
  encoded text. It is proved equal to the byte pipeline.
- `QCodecExamples`: the test's helper that builds strings from code units,
  and every example of the test suite, stated and proved.

## Model

| member | source | states |
|---|---|---|
| Bytes.HexDigit | src/test/org/apache/commons/codec/net/QCodecTest.java:74-78 | the digit of a nibble is an uppercase hex digit that reads back as the nibble |
| Bytes.HexValue | src/test/org/apache/commons/codec/net/QCodecTest.java:166-169 | a byte has a hex value exactly when it is a hex digit of either case; the value is below 16 |
| Bytes.HexDigitOnto | src/test/org/apache/commons/codec/net/QCodecTest.java:74-78 | every uppercase hex digit is the digit of the nibble it denotes |
| QEncoding.Escape | src/test/org/apache/commons/codec/net/QCodecTest.java:99-102 | an escape is three bytes: `=` and two uppercase hex digits whose value is the byte |
| QEncoding.EncodeByte | src/test/org/apache/commons/codec/net/QCodecTest.java:99-102 | one byte encodes to itself, to `_` (only for a space with blanks on), or to `Escape` of the byte; nothing else |
| QEncoding.Encode | src/test/org/apache/commons/codec/net/QCodecTest.java:88-91 | the encoding is at least as long as the input and at most three times as long |
| QEncoding.EncodeAppend | src/test/org/apache/commons/codec/net/QCodecTest.java:88-91 | encoding distributes over concatenation, so the encoder keeps no state between bytes |
| QEncoding.Decode | src/test/org/apache/commons/codec/net/QCodecTest.java:166-169 | a successful decoding is never longer than its input |
| QEncoding.TestedTable | src/test/org/apache/commons/codec/net/QCodecTest.java:96-105 | the bytes a safe table must treat as the tests fix: letters, digits, `+` and the space are safe; `=`, `?`, `_`, CR, LF and every byte at or above 0x80 are not |
| QEncoding.DecodeEncodeByte | src/test/org/apache/commons/codec/net/QCodecTest.java:99-104 | one encoded byte, followed by anything, decodes to that byte in front of the rest's decoding |
| QEncoding.DecodeEncode | src/test/org/apache/commons/codec/net/QCodecTest.java:96-105 | decoding undoes encoding for every byte sequence and either blank setting, whenever `_` is unsafe |
| QEncoding.EncodeInjective | src/test/org/apache/commons/codec/net/QCodecTest.java:96-105 | two byte sequences with the same encoding are equal |
| QEncoding.EncodeAlphabet | src/test/org/apache/commons/codec/net/QCodecTest.java:176-187 | every emitted byte is a safe byte, `_` for a space, `=` or an uppercase hex digit; with blanks on there is no space and with blanks off there is no `_` |
| QEncoding.EncodePrintable | src/test/org/apache/commons/codec/net/QCodecTest.java:88-91 | a table of printable ASCII without `?` gives printable ASCII without `?` |
| QEncoding.ReservedBytesEscaped | src/test/org/apache/commons/codec/net/QCodecTest.java:96-102 | `=`, `?`, `_`, CR and LF become `=3D`, `=3F`, `=5F`, `=0D` and `=0A`; letters, digits and `+` go through literally |
| QEncoding.HighBytesEscaped | src/test/org/apache/commons/codec/net/QCodecTest.java:74-78 | a byte at or above 0x80 becomes `=` and its two uppercase hex digits, which decode back to it |
| QEncoding.SpaceEncoding | src/test/org/apache/commons/codec/net/QCodecTest.java:176-191 | a space becomes `_` with blanks on and stays a space with blanks off; both decode to a space |
| QEncoding.TruncatedEscape | src/test/org/apache/commons/codec/net/QCodecTest.java:163-169 | an `=` followed by fewer than two bytes makes decoding fail, wherever it stands |
| QEncoding.NonHexEscape | src/test/org/apache/commons/codec/net/QCodecTest.java:163-169 | an escape whose two bytes are not both hex digits makes decoding fail |
| Charsets.Lookup | src/test/org/apache/commons/codec/net/QCodecTest.java:146-161 | a charset name is supported exactly when it is `UTF-8` |
| Charsets.Utf8EncodeChar | src/test/org/apache/commons/codec/net/QCodecTest.java:74-78 | one character has a UTF-8 form of one to four bytes |
| Charsets.Utf8DecodeHead | src/test/org/apache/commons/codec/net/QCodecTest.java:80-81 | a successful read of one character takes between one byte and the whole input |
| Charsets.Utf8Encode | src/test/org/apache/commons/codec/net/QCodecTest.java:74-78 | the UTF-8 form of a text takes one to four bytes per character |
| Charsets.Utf8Decode | src/test/org/apache/commons/codec/net/QCodecTest.java:80-81 | a decoded text has no more characters than its input has bytes |
| Charsets.Utf8EncodeAppend | src/test/org/apache/commons/codec/net/QCodecTest.java:74-78 | UTF-8 encoding distributes over concatenation |
| Charsets.Utf8DecodeHeadEncode | src/test/org/apache/commons/codec/net/QCodecTest.java:80-81 | reading a character from the front of its own UTF-8 form gives it back, with its length |
| Charsets.Utf8DecodeEncode | src/test/org/apache/commons/codec/net/QCodecTest.java:80-81 | decoding the UTF-8 form of any text gives the text back |
| Charsets.DecodeEncodeText | src/test/org/apache/commons/codec/net/QCodecTest.java:80-81 | every supported charset decodes what it encodes |
| Charsets.EncodeTextInjective | src/test/org/apache/commons/codec/net/QCodecTest.java:80-81 | two texts with the same bytes in a charset are equal |
| Charsets.AsciiText | src/test/org/apache/commons/codec/net/QCodecTest.java:88-91 | reading bytes as US-ASCII keeps the length, and a character equals its byte exactly when the byte is below 0x80 |
| Charsets.AsciiBytes | src/test/org/apache/commons/codec/net/QCodecTest.java:166-169 | writing text as US-ASCII keeps the length; an ASCII character becomes its own byte and every other character becomes `?` |
| Charsets.AsciiTextAppend | src/test/org/apache/commons/codec/net/QCodecTest.java:88-91 | reading as US-ASCII distributes over concatenation |
| Charsets.EncodeTextAppend | src/test/org/apache/commons/codec/net/QCodecTest.java:74-78 | charset encoding distributes over concatenation |
| Charsets.AsciiRoundTrip | src/test/org/apache/commons/codec/net/QCodecTest.java:92-93 | ASCII bytes survive the trip through US-ASCII text |
| EncodedWord.IndexOf | src/test/org/apache/commons/codec/net/QCodecTest.java:166-167 | the result is the first match at or after the start, or the length when there is none |
| EncodedWord.Wrap | src/test/org/apache/commons/codec/net/QCodecTest.java:88-91 | a word starts with `=?`, ends with `?=` and is six characters longer than its fields |
| EncodedWord.Unwrap | src/test/org/apache/commons/codec/net/QCodecTest.java:163-169 | a word that splits has a nonempty charset, and neither its charset nor its tag holds `?` |
| EncodedWord.SplitFields | src/test/org/apache/commons/codec/net/QCodecTest.java:163-169 | the split gives a nonempty charset with no `?` and a tag with no `?` |
| EncodedWord.JoinFields | src/test/org/apache/commons/codec/net/QCodecTest.java:88-91 | the fields joined by `?` are two characters longer than the fields |
| EncodedWord.IndexOfAfter | src/test/org/apache/commons/codec/net/QCodecTest.java:163-169 | a search finds the separator that follows a prefix free of it |
| EncodedWord.WrapFrame | src/test/org/apache/commons/codec/net/QCodecTest.java:88-91 | a word is `=?`, its joined fields and `?=` |
| EncodedWord.UnwrapFrame | src/test/org/apache/commons/codec/net/QCodecTest.java:163-169 | unwrapping a framed string splits what is inside the frame |
| EncodedWord.FirstSeparator | src/test/org/apache/commons/codec/net/QCodecTest.java:163-169 | in joined fields, the first `?` ends the charset |
| EncodedWord.SecondSeparator | src/test/org/apache/commons/codec/net/QCodecTest.java:163-169 | the next `?` ends the encoding tag |
| EncodedWord.FieldSlices | src/test/org/apache/commons/codec/net/QCodecTest.java:163-169 | the slices between the separators are the three fields |
| EncodedWord.SplitJoin | src/test/org/apache/commons/codec/net/QCodecTest.java:163-169 | splitting undoes joining for a nonempty charset and a tag that hold no `?` |
| EncodedWord.JoinSplit | src/test/org/apache/commons/codec/net/QCodecTest.java:163-169 | joining undoes splitting |
| EncodedWord.UnwrapWrap | src/test/org/apache/commons/codec/net/QCodecTest.java:92-93 | unwrapping a wrapped word gives its three fields back, for a nonempty charset and a tag that hold no `?` |
| EncodedWord.IndexOfShift | src/test/org/apache/commons/codec/net/QCodecTest.java:163-169 | searching a suffix is searching the whole from where the suffix starts |
| EncodedWord.IndexOfShiftFrom | src/test/org/apache/commons/codec/net/QCodecTest.java:163-169 | the same, from any later start |
| EncodedWord.WrapUnwrap | src/test/org/apache/commons/codec/net/QCodecTest.java:163-169 | a word that unwraps is the wrapping of its fields |
| EncodedWord.SplitAt | src/test/org/apache/commons/codec/net/QCodecTest.java:163-169 | a string is its pieces around two `?` positions |
| QCodecs.QSafeTested | src/test/org/apache/commons/codec/net/QCodecTest.java:96-105 | the codec's safe table agrees with every byte the tests fix |
| QCodecs.QSafe | src/test/org/apache/commons/codec/net/QCodecTest.java:96-105 | the codec's safe table: printable ASCII without `=`, `?` and `_`; QCodecs.QSafeTested shows it agrees with every byte the tests fix |
| QCodecs.IsQTag | src/test/org/apache/commons/codec/net/QCodecTest.java:163-169 | the encoding tag of a decodable word is `Q` in either case |
| QCodecs.Payload | src/test/org/apache/commons/codec/net/QCodecTest.java:74-78 | the encoded text of a text takes one to twelve characters per character |
| QCodecs.EncodeWord | src/test/org/apache/commons/codec/net/QCodecTest.java:107-122 | an absent text, and only an absent text, gives an absent result; a present text fails exactly when the charset is unsupported, and then with an encoder error |
| QCodecs.DecodeWord | src/test/org/apache/commons/codec/net/QCodecTest.java:124-130 | an absent word, and only an absent word, gives an absent result; a present word decodes only when it splits into fields, its tag is `Q` and it names a supported charset; every failure is a decoder error |
| QCodecs.PayloadAppend | src/test/org/apache/commons/codec/net/QCodecTest.java:74-78 | the encoded text of a concatenation is the concatenation of the encoded texts |
| QCodecs.Blanked | src/test/org/apache/commons/codec/net/QCodecTest.java:176-187 | replacing blanks keeps the length |
| QCodecs.EscapeText | src/test/org/apache/commons/codec/net/QCodecTest.java:99-102 | an escape as text is three characters starting with `=` |
| QCodecs.PayloadOfByte | src/test/org/apache/commons/codec/net/QCodecTest.java:99-102 | a character stored as one byte is encoded as that byte's encoding |
| QCodecs.Utf8One | src/test/org/apache/commons/codec/net/QCodecTest.java:74-78 | the UTF-8 form of a one-character text is that character's form |
| QCodecs.EscapedAsciiPayload | src/test/org/apache/commons/codec/net/QCodecTest.java:96-102 | every ASCII character that is not plain, `=`, `?`, `_`, CR and LF among them, is escaped |
| QCodecs.EncodeUtf8 | src/test/org/apache/commons/codec/net/QCodecTest.java:87-91 | with the default charset the word is `=?UTF-8?Q?`, the encoded text and `?=` |
| QCodecs.PayloadAlphabet | src/test/org/apache/commons/codec/net/QCodecTest.java:176-187 | the encoded text is printable ASCII without `?`; with blanks on it has no space, and with blanks off it has no `_` |
| QCodecs.EncodedEnvelope | src/test/org/apache/commons/codec/net/QCodecTest.java:87-91 | encoding in a supported charset succeeds, and the word splits back into the charset name, the tag `Q` and the encoded text |
| QCodecs.DecodeEncodeWord | src/test/org/apache/commons/codec/net/QCodecTest.java:80-81 | decoding the word encoded from any text gives the text back, in every supported charset and either blank setting |
| QCodecs.UnsupportedCharsetDecode | src/test/org/apache/commons/codec/net/QCodecTest.java:155-160 | a well-formed word that names an unsupported charset fails with a decoder error, whatever its text |
| QCodecs.QCodec.constructor | src/test/org/apache/commons/codec/net/QCodecTest.java:87 | a default codec uses UTF-8 and starts with blanks off |
| QCodecs.QCodec.WithCharset | src/test/org/apache/commons/codec/net/QCodecTest.java:148 | a codec keeps the charset name it is given and starts with blanks off |
| QCodecs.QCodec.SetEncodeBlanks | src/test/org/apache/commons/codec/net/QCodecTest.java:196-202 | the blank switch takes the value set |
| QCodecs.QCodec.IsEncodeBlanks | src/test/org/apache/commons/codec/net/QCodecTest.java:196-202 | the query returns the switch's current value |
| QCodecs.QCodec.DoEncoding | src/test/org/apache/commons/codec/net/QCodecTest.java:59-64 | absent bytes give an absent result; present bytes are Q-encoded with the codec's table and switch, and decode back to the input |
| QCodecs.QCodec.DoDecoding | src/test/org/apache/commons/codec/net/QCodecTest.java:59-64 | absent bytes give an absent result; present bytes give their Q decoding, or a decoder error when an escape is malformed |
| QCodecs.QCodec.Encode | src/test/org/apache/commons/codec/net/QCodecTest.java:85-94 | the result is the encoded word of the text in the codec's charset with the current blank setting |
| QCodecs.QCodec.EncodeWith | src/test/org/apache/commons/codec/net/QCodecTest.java:116-122 | the result is the encoded word of the text in the named charset with the current blank setting |
| QCodecs.QCodec.Decode | src/test/org/apache/commons/codec/net/QCodecTest.java:163-173 | the result is the decoding of the word, in the charset the word names |
| QReference.EscapeAll | src/test/org/apache/commons/codec/net/QCodecTest.java:74-78 | escaping a byte sequence gives three characters per byte |
| QReference.CharQ | src/test/org/apache/commons/codec/net/QCodecTest.java:74-78 | one character is written as a single character, or as one to four `=XX` escapes |
| QReference.QText | src/test/org/apache/commons/codec/net/QCodecTest.java:74-78 | the reference encoding of a text, character by character; QReference.PayloadIsQText shows it equals the codec's encoded text |
| QReference.QTextLength | src/test/org/apache/commons/codec/net/QCodecTest.java:74-78 | the reference takes one to twelve characters per character |
| QReference.QTextSingle | src/test/org/apache/commons/codec/net/QCodecTest.java:96-102 | the reference encoding of one character is that character's form |
| QReference.QTextAppend | src/test/org/apache/commons/codec/net/QCodecTest.java:88-91 | the reference encoding distributes over concatenation |
| QReference.AsciiEscape | src/test/org/apache/commons/codec/net/QCodecTest.java:99-102 | an escape read as US-ASCII is its `=XX` text |
| QReference.HighBytesPayload | src/test/org/apache/commons/codec/net/QCodecTest.java:74-78 | bytes at or above 0x80 are all escaped, one `=XX` each |
| QReference.CharPayload | src/test/org/apache/commons/codec/net/QCodecTest.java:74-78 | the encoded text of one character is its reference form: `_` for a space with blanks on, the character itself when it is plain, and otherwise the escapes of its UTF-8 bytes |
| QReference.PayloadIsQText | src/test/org/apache/commons/codec/net/QCodecTest.java:74-78 | the byte pipeline's encoded text of any text equals the character-by-character reference |
| QReference.BlankedCons | src/test/org/apache/commons/codec/net/QCodecTest.java:176-187 | replacing blanks goes character by character |
| QReference.PlainQText | src/test/org/apache/commons/codec/net/QCodecTest.java:176-187 | in the reference, plain text is written as itself, with spaces as `_` when blanks are on |
| QReference.PlainPayload | src/test/org/apache/commons/codec/net/QCodecTest.java:133-139 | plain text passes through the codec unchanged, except that spaces become `_` when blanks are on |
| QCodecExamples.QText0Additive | src/test/org/apache/commons/codec/net/QCodecTest.java:74-78 | the reference encoding with blanks off distributes over concatenation |
| QCodecExamples.ReservedCharacters | src/test/org/apache/commons/codec/net/QCodecTest.java:99-102 | `=`, `?`, `_`, CR and LF are written `=3D`, `=3F`, `=5F`, `=0D` and `=0A` |
| QCodecExamples.RussianReference | src/test/org/apache/commons/codec/net/QCodecTest.java:74-76 | the reference encoding of the Russian greeting is the expected escapes |
| QCodecExamples.RussianEncoded | src/test/org/apache/commons/codec/net/QCodecTest.java:74-77 | a default codec encodes the Russian greeting to the expected word |
| QCodecExamples.SwissGermanReference | src/test/org/apache/commons/codec/net/QCodecTest.java:78 | the reference encoding of the Swiss German greeting is `Gr=C3=BCezi=5Fz=C3=A4m=C3=A4` |
| QCodecExamples.SwissGermanEncoded | src/test/org/apache/commons/codec/net/QCodecTest.java:78 | a default codec encodes the Swiss German greeting to the expected word |
| QCodecExamples.HelloReference | src/test/org/apache/commons/codec/net/QCodecTest.java:88-91 | the reference encoding of `= Hello there =` CR LF is `=3D Hello there =3D=0D=0A` |
| QCodecExamples.HelloEncoded | src/test/org/apache/commons/codec/net/QCodecTest.java:88-91 | a default codec encodes that text to the expected word |
| QCodecExamples.UnsafeReference | src/test/org/apache/commons/codec/net/QCodecTest.java:99-102 | the reference encoding of `?_=` CR LF is `=3F=5F=3D=0D=0A` |
| QCodecExamples.UnsafeEncoded | src/test/org/apache/commons/codec/net/QCodecTest.java:99-102 | a default codec encodes that text to the expected word |
| QCodecExamples.SumReference | src/test/org/apache/commons/codec/net/QCodecTest.java:136-139 | the reference encoding of `1+1 = 2` is `1+1 =3D 2` |
| QCodecExamples.SumEncoded | src/test/org/apache/commons/codec/net/QCodecTest.java:136-139 | a default codec encodes `1+1 = 2` to `=?UTF-8?Q?1+1 =3D 2?=` |
| QCodecExamples.BlanksEncoded | src/test/org/apache/commons/codec/net/QCodecTest.java:178-187 | the blanks text encodes with its spaces kept, or as `_` when blanks are on |
| QCodecExamples.BlanksDecoded | src/test/org/apache/commons/codec/net/QCodecTest.java:188-191 | both spellings of the blanks word decode to the same text |
| QCodecExamples.SumDecoded | src/test/org/apache/commons/codec/net/QCodecTest.java:166-169 | `=?UTF-8?Q?1+1 =3D 2?=` decodes to `1+1 = 2` |
| QCodecExamples.NonsenseCharset | src/test/org/apache/commons/codec/net/QCodecTest.java:146-161 | with the charset `NONSENSE`, encoding fails with an encoder error and decoding fails with a decoder error |
| QCodecExamples.ConstructString | src/test/org/apache/commons/codec/net/QCodecTest.java:49-57 | an absent array gives the empty string; otherwise the string has one character per code, each the code's low 16 bits |
| QCodecExamples.SameCodes | src/test/org/apache/commons/codec/net/QCodecTest.java:49-57 | two strings spelled by the same codes are equal |
| QCodecExamples.GreetingCodes | src/test/org/apache/commons/codec/net/QCodecTest.java:40-47 | the codes of the two greetings spell the greeting texts |
| QCodecExamples.Utf8RoundTrip | src/test/org/apache/commons/codec/net/QCodecTest.java:66-82 | the greetings built from their codes encode to the expected words and decode back to themselves |
| QCodecExamples.NullInput | src/test/org/apache/commons/codec/net/QCodecTest.java:59-64 | the byte-level operations give absent results for absent input |
| QCodecExamples.EncodeDecodeNull | src/test/org/apache/commons/codec/net/QCodecTest.java:107-130 | an absent text or word gives an absent result, also with a named charset |
| QCodecExamples.HelloEncodeDecode | src/test/org/apache/commons/codec/net/QCodecTest.java:85-94 | `=`, CR and LF are escaped, and the word decodes back to the text |
| QCodecExamples.UnsafeEncodeDecode | src/test/org/apache/commons/codec/net/QCodecTest.java:96-105 | the reserved characters are escaped, and the word decodes back to the text |
| QCodecExamples.EncodeObjects | src/test/org/apache/commons/codec/net/QCodecTest.java:133-143 | the sum encodes to its expected word, and an absent text to an absent result |
| QCodecExamples.InvalidEncoding | src/test/org/apache/commons/codec/net/QCodecTest.java:146-161 | a `NONSENSE` codec fails to encode with an encoder error, and fails to decode a `NONSENSE` word with a decoder error |
| QCodecExamples.DecodeStrings | src/test/org/apache/commons/codec/net/QCodecTest.java:163-173 | the sum's word decodes to the sum, and an absent word to an absent result |
| QCodecExamples.EncodeDecodeBlanks | src/test/org/apache/commons/codec/net/QCodecTest.java:176-192 | the blank switch decides how blanks are written, and both words decode to the text |
| QCodecExamples.BlanksSwitch | src/test/org/apache/commons/codec/net/QCodecTest.java:195-202 | the switch reads back true after it is set on, and false after it is set off |

## Left out

- Charset lookup by the host platform is modelled only for UTF-8. Other names, aliases and case variants are unsupported charsets here.
- When the host platform meets bytes that are invalid in a charset, it substitutes U+FFFD. The model instead treats invalid UTF-8 inside a decoded word as a malformed word.
- All malformed input gives one cause, `Malformed`. This covers a bad envelope, a tag other than `Q`, a bad escape and invalid UTF-8. The messages of the source's exceptions are not modelled.
- The 75-character limit on encoded words and the folding of long words over several lines are not modelled. The codec does neither.
- The other codecs of the library (B codec, quoted-printable, and the rest) are not part of this model. The same holds for the shared encoded-word base class, except for what the Q codec inherits from it.
- Thread safety is left out, since the blank switch is a plain field.
- QCodecs.QSafe: the tests fix only some bytes of the safe table, so the model's table is one that agrees with every byte they fix: printable ASCII without `=`, `?` and `_`. The lemmas in `QEncoding` hold for every table that keeps those cases.
- QEncoding.EncodeByte: when blanks are on, a space becomes `_` before the safe table is consulted. This matches the published behaviour wherever the space is safe, as it is in the codec's table.
- QCodecExamples.ConstructString: requires each code's low 16 bits to be a Unicode scalar value. A lone UTF-16 surrogate does not fit in a Dafny `char`. The greetings of the test meet this requirement.
- QEncoding.DecodeEncode: requires `_` to be unsafe. With `_` safe, a literal `_` would decode to a space, so no round trip can hold.
- Charsets.EncodeText: text is a sequence of Unicode scalar values, while a Java string is UTF-16. A string holding a lone surrogate, which the platform encodes as `?` and QCodecs.EncodeWord then writes as `=3F`, has no counterpart in the model.
- EncodedWord.SplitFields: the text field runs from the second `?` to the closing `?=` and keeps any `?` inside it. This is a modelling choice; the tests never decode a text field that holds `?`.
- The expected encoded words are stated as the concatenation of `=?UTF-8?Q?`, the encoded text and `?=`. This is the same string as the test's literal.
