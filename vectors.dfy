/** The codec's worked examples: UTF-8 texts in Russian and Swiss German,
    the reserved characters, blanks, absent values and an unsupported
    charset. Each expected encoded word is computed from the model. */
module QCodecExamples {
  import opened Wrappers
  import opened QCodecs
  import opened EncodedWord
  import Charsets
  import opened QReference

  /** The code units of the two greetings, as the test lists them. */
  const SWISS_GERMAN_CODES: seq<int> := [0x47, 0x72, 0xFC, 0x65, 0x7A, 0x69, 0x5F, 0x7A, 0xE4, 0x6D, 0xE4]
  const RUSSIAN_CODES: seq<int> := [0x412, 0x441, 0x435, 0x43C, 0x5F, 0x43F, 0x440, 0x438, 0x432, 0x435, 0x442]

  const SWISS_GERMAN: string := "Gr\U{FC}ezi_z\U{E4}m\U{E4}"
  const RUSSIAN: string := "\U{412}\U{441}\U{435}\U{43C}_\U{43F}\U{440}\U{438}\U{432}\U{435}\U{442}"
  const HELLO: string := "= Hello there =\r\n"
  const UNSAFE: string := "?_=\r\n"
  const SUM: string := "1+1 = 2"
  const BLANKS: string := "Mind those pesky blanks"

  /** A text map that distributes over concatenation. Payloads are
      computed piece by piece through such a map, so that no step has to
      unfold the codec on a whole literal text. */
  ghost predicate Additive(f: string -> string) {
    forall a: string, b: string {:trigger f(a + b)} :: f(a + b) == f(a) + f(b)
  }

  /** The reference encoding with blanks written as themselves. */
  function QText0(t: string): string
  {
    QText(t, false)
  }

  lemma QText0Additive()
    ensures Additive(QText0)
  {
    forall a: string, b: string ensures QText0(a + b) == QText0(a) + QText0(b) {
      QTextAppend(a, b, false);
    }
  }

  lemma ReservedCharacters()
    ensures CharQ('=', false) == "=3D"
      && CharQ('?', false) == "=3F"
      && CharQ('_', false) == "=5F"
      && CharQ('\r', false) == "=0D"
      && CharQ('\n', false) == "=0A"
  {
  }

  lemma CyrillicLetters1()
    ensures CharQ('\U{412}', false) == "=D0=92"
      && CharQ('\U{441}', false) == "=D1=81"
  {
  }

  lemma CyrillicLetters2()
    ensures CharQ('\U{435}', false) == "=D0=B5"
      && CharQ('\U{43C}', false) == "=D0=BC"
  {
  }

  lemma CyrillicLetters3()
    ensures CharQ('\U{43F}', false) == "=D0=BF"
      && CharQ('\U{440}', false) == "=D1=80"
  {
  }

  lemma CyrillicLetters4()
    ensures CharQ('\U{438}', false) == "=D0=B8"
      && CharQ('\U{432}', false) == "=D0=B2"
  {
  }

  lemma CyrillicLetters5()
    ensures CharQ('\U{442}', false) == "=D1=82"
  {
  }

  lemma Umlauts()
    ensures CharQ('\U{FC}', false) == "=C3=BC"
      && CharQ('\U{E4}', false) == "=C3=A4"
  {
  }

  lemma SwissGermanWords()
    ensures QText0("Gr") == "Gr"
      && QText0("ezi") == "ezi"
      && QText0("z") == "z"
      && QText0("m") == "m"
  {
  }

  lemma HelloWords1()
    ensures QText0(" Hel") == " Hel"
  {
  }

  lemma HelloWords2()
    ensures QText0("lo t") == "lo t"
  {
  }

  lemma HelloWords3()
    ensures QText0("here") == "here"
      && QText0(" ") == " "
  {
  }

  lemma SumWords()
    ensures QText0("1+1 ") == "1+1 "
      && QText0(" 2") == " 2"
  {
  }

  /** The Russian greeting, piece by piece. */
  lemma RussianPieces(f: string -> string)
    requires Additive(f)
    requires f("\U{412}") == "=D0=92"
      && f("\U{441}") == "=D1=81"
      && f("\U{435}") == "=D0=B5"
      && f("\U{43C}") == "=D0=BC"
      && f("_") == "=5F"
      && f("\U{43F}") == "=D0=BF"
      && f("\U{440}") == "=D1=80"
      && f("\U{438}") == "=D0=B8"
      && f("\U{432}") == "=D0=B2"
      && f("\U{442}") == "=D1=82"
    ensures f("\U{412}\U{441}\U{435}\U{43C}_\U{43F}\U{440}\U{438}\U{432}\U{435}\U{442}") == "=D0=92=D1=81=D0=B5=D0=BC=5F=D0=BF=D1=80=D0=B8=D0=B2=D0=B5=D1=82"
  {
    RussianText();
    RussianPayload();
  }

  lemma RussianText()
    ensures "\U{412}" + "\U{441}" + "\U{435}" + "\U{43C}" + "_" + "\U{43F}" + "\U{440}" + "\U{438}" + "\U{432}" + "\U{435}" + "\U{442}"
         == "\U{412}\U{441}\U{435}\U{43C}_\U{43F}\U{440}\U{438}\U{432}\U{435}\U{442}"
  {
  }

  lemma RussianPayload()
    ensures "=D0=92" + "=D1=81" + "=D0=B5" + "=D0=BC" + "=5F" + "=D0=BF" + "=D1=80" + "=D0=B8" + "=D0=B2" + "=D0=B5" + "=D1=82"
         == "=D0=92=D1=81=D0=B5=D0=BC=5F=D0=BF=D1=80=D0=B8=D0=B2=D0=B5=D1=82"
  {
    assert "=D0=92" + "=D1=81" == "=D0=92=D1=81";
    assert "=D0=92=D1=81" + "=D0=B5" == "=D0=92=D1=81=D0=B5";
    assert "=D0=92=D1=81=D0=B5" + "=D0=BC" == "=D0=92=D1=81=D0=B5=D0=BC";
    assert "=D0=92=D1=81=D0=B5=D0=BC" + "=5F" == "=D0=92=D1=81=D0=B5=D0=BC=5F";
    assert "=D0=92=D1=81=D0=B5=D0=BC=5F" + "=D0=BF" == "=D0=92=D1=81=D0=B5=D0=BC=5F=D0=BF";
    assert "=D0=92=D1=81=D0=B5=D0=BC=5F=D0=BF" + "=D1=80" == "=D0=92=D1=81=D0=B5=D0=BC=5F=D0=BF=D1=80";
    assert "=D0=92=D1=81=D0=B5=D0=BC=5F=D0=BF=D1=80" + "=D0=B8" == "=D0=92=D1=81=D0=B5=D0=BC=5F=D0=BF=D1=80=D0=B8";
    assert "=D0=92=D1=81=D0=B5=D0=BC=5F=D0=BF=D1=80=D0=B8" + "=D0=B2" == "=D0=92=D1=81=D0=B5=D0=BC=5F=D0=BF=D1=80=D0=B8=D0=B2";
    assert "=D0=92=D1=81=D0=B5=D0=BC=5F=D0=BF=D1=80=D0=B8=D0=B2" + "=D0=B5" == "=D0=92=D1=81=D0=B5=D0=BC=5F=D0=BF=D1=80=D0=B8=D0=B2=D0=B5";
    assert "=D0=92=D1=81=D0=B5=D0=BC=5F=D0=BF=D1=80=D0=B8=D0=B2=D0=B5" + "=D1=82" == "=D0=92=D1=81=D0=B5=D0=BC=5F=D0=BF=D1=80=D0=B8=D0=B2=D0=B5=D1=82";
  }

  lemma RussianReference()
    ensures QText(RUSSIAN, false) == "=D0=92=D1=81=D0=B5=D0=BC=5F=D0=BF=D1=80=D0=B8=D0=B2=D0=B5=D1=82"
  {
    QText0Additive();
    CyrillicLetters1();
    CyrillicLetters2();
    ReservedCharacters();
    CyrillicLetters3();
    CyrillicLetters4();
    CyrillicLetters5();
    QTextSingle('\U{412}', false);
    QTextSingle('\U{441}', false);
    QTextSingle('\U{435}', false);
    QTextSingle('\U{43C}', false);
    QTextSingle('_', false);
    QTextSingle('\U{43F}', false);
    QTextSingle('\U{440}', false);
    QTextSingle('\U{438}', false);
    QTextSingle('\U{432}', false);
    QTextSingle('\U{442}', false);
    RussianPieces(QText0);
  }

  /** The Russian greeting encodes to the escapes of its UTF-8 bytes. */
  lemma RussianEncoded()
    ensures EncodeWord(Some(RUSSIAN), DEFAULT_CHARSET, false) == Success(Some("=?UTF-8?Q?" + "=D0=92=D1=81=D0=B5=D0=BC=5F=D0=BF=D1=80=D0=B8=D0=B2=D0=B5=D1=82" + "?="))
  {
    RussianReference();
    PayloadIsQText(RUSSIAN, false);
    EncodeUtf8(RUSSIAN, false);
  }

  /** The Swiss German greeting, piece by piece. */
  lemma SwissGermanPieces(f: string -> string)
    requires Additive(f)
    requires f("Gr") == "Gr"
      && f("\U{FC}") == "=C3=BC"
      && f("ezi") == "ezi"
      && f("_") == "=5F"
      && f("z") == "z"
      && f("\U{E4}") == "=C3=A4"
      && f("m") == "m"
    ensures f("Gr\U{FC}ezi_z\U{E4}m\U{E4}") == "Gr=C3=BCezi=5Fz=C3=A4m=C3=A4"
  {
    SwissGermanText();
    SwissGermanPayload();
  }

  lemma SwissGermanText()
    ensures "Gr" + "\U{FC}" + "ezi" + "_" + "z" + "\U{E4}" + "m" + "\U{E4}"
         == "Gr\U{FC}ezi_z\U{E4}m\U{E4}"
  {
  }

  lemma SwissGermanPayload()
    ensures "Gr" + "=C3=BC" + "ezi" + "=5F" + "z" + "=C3=A4" + "m" + "=C3=A4"
         == "Gr=C3=BCezi=5Fz=C3=A4m=C3=A4"
  {
  }

  lemma SwissGermanReference()
    ensures QText(SWISS_GERMAN, false) == "Gr=C3=BCezi=5Fz=C3=A4m=C3=A4"
  {
    QText0Additive();
    SwissGermanWords();
    Umlauts();
    ReservedCharacters();
    QTextSingle('\U{FC}', false);
    QTextSingle('_', false);
    QTextSingle('\U{E4}', false);
    SwissGermanPieces(QText0);
  }

  /** Swiss German: ASCII letters stay, umlauts and `_` are escaped. */
  lemma SwissGermanEncoded()
    ensures EncodeWord(Some(SWISS_GERMAN), DEFAULT_CHARSET, false) == Success(Some("=?UTF-8?Q?" + "Gr=C3=BCezi=5Fz=C3=A4m=C3=A4" + "?="))
  {
    SwissGermanReference();
    PayloadIsQText(SWISS_GERMAN, false);
    EncodeUtf8(SWISS_GERMAN, false);
  }

  /** A text with `=`, CR and LF, piece by piece. */
  lemma HelloPieces(f: string -> string)
    requires Additive(f)
    requires f("=") == "=3D"
      && f(" Hel") == " Hel"
      && f("lo t") == "lo t"
      && f("here") == "here"
      && f(" ") == " "
      && f("\r") == "=0D"
      && f("\n") == "=0A"
    ensures f("= Hello there =\r\n") == "=3D Hello there =3D=0D=0A"
  {
    HelloText();
    HelloPayload();
  }

  lemma HelloText()
    ensures "=" + " Hel" + "lo t" + "here" + " " + "=" + "\r" + "\n"
         == "= Hello there =\r\n"
  {
  }

  lemma HelloPayload()
    ensures "=3D" + " Hel" + "lo t" + "here" + " " + "=3D" + "=0D" + "=0A"
         == "=3D Hello there =3D=0D=0A"
  {
  }

  lemma HelloReference()
    ensures QText(HELLO, false) == "=3D Hello there =3D=0D=0A"
  {
    QText0Additive();
    ReservedCharacters();
    HelloWords1();
    HelloWords2();
    HelloWords3();
    QTextSingle('=', false);
    QTextSingle('\r', false);
    QTextSingle('\n', false);
    HelloPieces(QText0);
  }

  /** `=`, CR and LF are escaped; letters and blanks stay. */
  lemma HelloEncoded()
    ensures EncodeWord(Some(HELLO), DEFAULT_CHARSET, false) == Success(Some("=?UTF-8?Q?" + "=3D Hello there =3D=0D=0A" + "?="))
  {
    HelloReference();
    PayloadIsQText(HELLO, false);
    EncodeUtf8(HELLO, false);
  }

  /** The reserved characters, one by one. */
  lemma UnsafePieces(f: string -> string)
    requires Additive(f)
    requires f("?") == "=3F"
      && f("_") == "=5F"
      && f("=") == "=3D"
      && f("\r") == "=0D"
      && f("\n") == "=0A"
    ensures f("?_=\r\n") == "=3F=5F=3D=0D=0A"
  {
    UnsafeText();
    UnsafePayload();
  }

  lemma UnsafeText()
    ensures "?" + "_" + "=" + "\r" + "\n"
         == "?_=\r\n"
  {
  }

  lemma UnsafePayload()
    ensures "=3F" + "=5F" + "=3D" + "=0D" + "=0A"
         == "=3F=5F=3D=0D=0A"
  {
  }

  lemma UnsafeReference()
    ensures QText(UNSAFE, false) == "=3F=5F=3D=0D=0A"
  {
    QText0Additive();
    ReservedCharacters();
    QTextSingle('?', false);
    QTextSingle('_', false);
    QTextSingle('=', false);
    QTextSingle('\r', false);
    QTextSingle('\n', false);
    UnsafePieces(QText0);
  }

  /** `?`, `_`, `=`, CR and LF are escaped. */
  lemma UnsafeEncoded()
    ensures EncodeWord(Some(UNSAFE), DEFAULT_CHARSET, false) == Success(Some("=?UTF-8?Q?" + "=3F=5F=3D=0D=0A" + "?="))
  {
    UnsafeReference();
    PayloadIsQText(UNSAFE, false);
    EncodeUtf8(UNSAFE, false);
  }

  /** A sum, piece by piece. */
  lemma SumPieces(f: string -> string)
    requires Additive(f)
    requires f("1+1 ") == "1+1 "
      && f("=") == "=3D"
      && f(" 2") == " 2"
    ensures f("1+1 = 2") == "1+1 =3D 2"
  {
    SumText();
    SumPayload();
  }

  lemma SumText()
    ensures "1+1 " + "=" + " 2"
         == "1+1 = 2"
  {
  }

  lemma SumPayload()
    ensures "1+1 " + "=3D" + " 2"
         == "1+1 =3D 2"
  {
  }

  lemma SumReference()
    ensures QText(SUM, false) == "1+1 =3D 2"
  {
    QText0Additive();
    SumWords();
    ReservedCharacters();
    QTextSingle('=', false);
    SumPieces(QText0);
  }

  /** Digits, `+` and blanks stay; `=` is escaped. */
  lemma SumEncoded()
    ensures EncodeWord(Some(SUM), DEFAULT_CHARSET, false) == Success(Some("=?UTF-8?Q?" + "1+1 =3D 2" + "?="))
  {
    SumReference();
    PayloadIsQText(SUM, false);
    EncodeUtf8(SUM, false);
  }
  lemma BlanksArePlain()
    ensures forall i :: 0 <= i < |BLANKS| ==> IsPlain(BLANKS[i])
  {
  }

  lemma BlanksKept()
    ensures Blanked(BLANKS, false) == "Mind those pesky blanks"
  {
  }

  lemma BlanksReplaced()
    ensures Blanked(BLANKS, true) == "Mind_those_pesky_blanks"
  {
  }

  /** Blanks are written as themselves, or as `_` once blanks are encoded. */
  lemma BlanksEncoded(blanks: bool)
    ensures EncodeWord(Some(BLANKS), DEFAULT_CHARSET, blanks) == Success(Some("=?UTF-8?Q?" +
              (if blanks then "Mind_those_pesky_blanks" else "Mind those pesky blanks") + "?="))
  {
    BlanksArePlain();
    PlainPayload(BLANKS, blanks);
    BlanksKept();
    BlanksReplaced();
    EncodeUtf8(BLANKS, blanks);
  }

  /** Both spellings of the blanks decode to the same text. */
  lemma BlanksDecoded(blanks: bool)
    ensures DecodeWord(Some("=?UTF-8?Q?" +
              (if blanks then "Mind_those_pesky_blanks" else "Mind those pesky blanks") + "?=")) == Success(Some(BLANKS))
  {
    BlanksEncoded(blanks);
    DecodeEncodeWord(BLANKS, DEFAULT_CHARSET, blanks);
  }

  /** The sum decodes from its encoded word. */
  lemma SumDecoded()
    ensures DecodeWord(Some("=?UTF-8?Q?" + "1+1 =3D 2" + "?=")) == Success(Some(SUM))
  {
    SumEncoded();
    DecodeEncodeWord(SUM, DEFAULT_CHARSET, false);
  }

  /** An unknown charset fails both ways: an encoder error on encoding and a
      decoder error on decoding a word that names it. */
  lemma NonsenseCharset(blanks: bool)
    ensures EncodeWord(Some("Hello there!"), "NONSENSE", blanks) == Failure(EncoderError(UnsupportedCharset))
    ensures DecodeWord(Some("=?NONSENSE?Q?" + "Hello there!" + "?=")) == Failure(DecoderError(UnsupportedCharset))
  {
    assert "=?" + "NONSENSE" + [SEP] + Q_TAG + [SEP] == "=?NONSENSE?Q?";
    UnsupportedCharsetDecode("NONSENSE", Q_TAG, "Hello there!");
  }

  /** The test's helper: the string of the given UTF-16 code units, each
      integer cast to `char`, that is, cut to its low 16 bits. An absent
      array gives the empty string. */
  method ConstructString(codes: array?<int>) returns (s: string)
    requires codes != null ==> forall i :: 0 <= i < codes.Length ==> Charsets.IsScalar(codes[i] % 0x10000)
    ensures codes == null ==> s == []
    ensures codes != null ==> |s| == codes.Length
    ensures codes != null ==> forall i :: 0 <= i < codes.Length ==> s[i] as int == codes[i] % 0x10000
  {
    s := [];
    if codes != null {
      var k := 0;
      while k < codes.Length
        invariant 0 <= k <= codes.Length
        invariant |s| == k
        invariant forall i :: 0 <= i < k ==> s[i] as int == codes[i] % 0x10000
      {
        s := s + [(codes[k] % 0x10000) as char];
        k := k + 1;
      }
    }
  }

  /** Two strings spelled by the same code units are equal. */
  lemma SameCodes(s: string, t: string, codes: seq<int>)
    requires |s| == |t| == |codes|
    requires forall i :: 0 <= i < |codes| ==> s[i] as int == codes[i] % 0x10000
    requires forall i :: 0 <= i < |codes| ==> t[i] as int == codes[i] % 0x10000
    ensures s == t
  {
    forall i | 0 <= i < |s| ensures s[i] == t[i] {
      assert s[i] as int == t[i] as int;
    }
  }

  lemma GreetingCodes()
    ensures forall i :: 0 <= i < |RUSSIAN_CODES| ==> Charsets.IsScalar(RUSSIAN_CODES[i] % 0x10000)
    ensures forall i :: 0 <= i < |SWISS_GERMAN_CODES| ==> Charsets.IsScalar(SWISS_GERMAN_CODES[i] % 0x10000)
    ensures |RUSSIAN| == |RUSSIAN_CODES| && forall i :: 0 <= i < |RUSSIAN| ==> RUSSIAN[i] as int == RUSSIAN_CODES[i] % 0x10000
    ensures |SWISS_GERMAN| == |SWISS_GERMAN_CODES| &&
              forall i :: 0 <= i < |SWISS_GERMAN| ==> SWISS_GERMAN[i] as int == SWISS_GERMAN_CODES[i] % 0x10000
  {
  }

  /** The UTF-8 round trip of both greetings through a UTF-8 codec. */
  method Utf8RoundTrip() returns (ru: string, ch: string,
                                  eRu: Result<Option<string>, CodecError>, eCh: Result<Option<string>, CodecError>,
                                  dRu: Result<Option<string>, CodecError>, dCh: Result<Option<string>, CodecError>)
    ensures ru == RUSSIAN && ch == SWISS_GERMAN
    ensures eRu == Success(Some("=?UTF-8?Q?" + "=D0=92=D1=81=D0=B5=D0=BC=5F=D0=BF=D1=80=D0=B8=D0=B2=D0=B5=D1=82" + "?="))
    ensures eCh == Success(Some("=?UTF-8?Q?" + "Gr=C3=BCezi=5Fz=C3=A4m=C3=A4" + "?="))
    ensures dRu == Success(Some(ru)) && dCh == Success(Some(ch))
  {
    GreetingCodes();
    var ruCodes := new int[|RUSSIAN_CODES|](i requires 0 <= i < |RUSSIAN_CODES| => RUSSIAN_CODES[i]);
    var chCodes := new int[|SWISS_GERMAN_CODES|](i requires 0 <= i < |SWISS_GERMAN_CODES| => SWISS_GERMAN_CODES[i]);
    ru := ConstructString(ruCodes);
    ch := ConstructString(chCodes);
    SameCodes(ru, RUSSIAN, RUSSIAN_CODES);
    SameCodes(ch, SWISS_GERMAN, SWISS_GERMAN_CODES);
    var codec := new QCodec.WithCharset("UTF-8");
    eRu := codec.Encode(Some(ru));
    eCh := codec.Encode(Some(ch));
    RussianEncoded();
    SwissGermanEncoded();
    DecodeEncodeWord(RUSSIAN, DEFAULT_CHARSET, false);
    DecodeEncodeWord(SWISS_GERMAN, DEFAULT_CHARSET, false);
    dRu := codec.Decode(eRu.value);
    dCh := codec.Decode(eCh.value);
  }

  /** Absent input to the byte-level operations of a default codec. */
  method NullInput() returns (d: Result<Option<seq<Bytes.byte>>, CodecError>, e: Option<seq<Bytes.byte>>)
    ensures d == Success(None) && e == None
  {
    var codec := new QCodec();
    d := codec.DoDecoding(None);
    e := codec.DoEncoding(None);
  }

  /** Absent text and words, with the codec's charset or a named one. */
  method EncodeDecodeNull() returns (e: Result<Option<string>, CodecError>, d: Result<Option<string>, CodecError>,
                                     n: Result<Option<string>, CodecError>)
    ensures e == Success(None) && d == Success(None) && n == Success(None)
  {
    var codec := new QCodec();
    e := codec.Encode(None);
    d := codec.Decode(None);
    n := codec.EncodeWith(None, "charset");
  }

  /** `=`, CR and LF through a default codec and back. */
  method HelloEncodeDecode() returns (encoded: Result<Option<string>, CodecError>, decoded: Result<Option<string>, CodecError>)
    ensures encoded == Success(Some("=?UTF-8?Q?" + "=3D Hello there =3D=0D=0A" + "?="))
    ensures decoded == Success(Some(HELLO))
  {
    var codec := new QCodec();
    encoded := codec.Encode(Some(HELLO));
    HelloEncoded();
    DecodeEncodeWord(HELLO, DEFAULT_CHARSET, false);
    decoded := codec.Decode(encoded.value);
  }

  /** The reserved characters through a default codec and back. */
  method UnsafeEncodeDecode() returns (encoded: Result<Option<string>, CodecError>, decoded: Result<Option<string>, CodecError>)
    ensures encoded == Success(Some("=?UTF-8?Q?" + "=3F=5F=3D=0D=0A" + "?="))
    ensures decoded == Success(Some(UNSAFE))
  {
    var codec := new QCodec();
    encoded := codec.Encode(Some(UNSAFE));
    UnsafeEncoded();
    DecodeEncodeWord(UNSAFE, DEFAULT_CHARSET, false);
    decoded := codec.Decode(encoded.value);
  }

  /** The sum, and an absent text, through a default codec. */
  method EncodeObjects() returns (encoded: Result<Option<string>, CodecError>, absent: Result<Option<string>, CodecError>)
    ensures encoded == Success(Some("=?UTF-8?Q?" + "1+1 =3D 2" + "?="))
    ensures absent == Success(None)
  {
    var codec := new QCodec();
    encoded := codec.Encode(Some(SUM));
    SumEncoded();
    absent := codec.Encode(None);
  }

  /** A codec for an unknown charset fails to encode, and a word naming that
      charset fails to decode. */
  method InvalidEncoding() returns (e: Result<Option<string>, CodecError>, d: Result<Option<string>, CodecError>)
    ensures e == Failure(EncoderError(UnsupportedCharset))
    ensures d == Failure(DecoderError(UnsupportedCharset))
  {
    var codec := new QCodec.WithCharset("NONSENSE");
    e := codec.Encode(Some("Hello there!"));
    d := codec.Decode(Some("=?NONSENSE?Q?" + "Hello there!" + "?="));
    NonsenseCharset(false);
  }

  /** Decoding the sum's word, and an absent word. */
  method DecodeStrings() returns (plain: Result<Option<string>, CodecError>, absent: Result<Option<string>, CodecError>)
    ensures plain == Success(Some(SUM)) && absent == Success(None)
  {
    var codec := new QCodec();
    plain := codec.Decode(Some("=?UTF-8?Q?" + "1+1 =3D 2" + "?="));
    SumDecoded();
    absent := codec.Decode(None);
  }

  /** The blank switch changes how blanks are written; decoding accepts
      both spellings. */
  method EncodeDecodeBlanks() returns (s1: Result<Option<string>, CodecError>, s2: Result<Option<string>, CodecError>,
                                       d1: Result<Option<string>, CodecError>, d2: Result<Option<string>, CodecError>)
    ensures s1 == Success(Some("=?UTF-8?Q?" + "Mind those pesky blanks" + "?="))
    ensures s2 == Success(Some("=?UTF-8?Q?" + "Mind_those_pesky_blanks" + "?="))
    ensures d1 == Success(Some(BLANKS)) && d2 == Success(Some(BLANKS))
  {
    var codec := new QCodec();
    codec.SetEncodeBlanks(false);
    s1 := codec.Encode(Some(BLANKS));
    BlanksEncoded(false);
    codec.SetEncodeBlanks(true);
    s2 := codec.Encode(Some(BLANKS));
    BlanksEncoded(true);
    d1 := codec.Decode(s1.value);
    BlanksDecoded(false);
    d2 := codec.Decode(s2.value);
    BlanksDecoded(true);
  }

  /** The blank switch reads back what was last set. */
  method BlanksSwitch() returns (first: bool, second: bool)
    ensures first && !second
  {
    var codec := new QCodec();
    codec.SetEncodeBlanks(true);
    first := codec.IsEncodeBlanks();
    codec.SetEncodeBlanks(false);
    second := codec.IsEncodeBlanks();
  }
}
