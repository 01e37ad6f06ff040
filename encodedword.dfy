/** The encoded-word envelope of RFC 2047, section 2:
    `=?` charset `?` encoding `?` encoded-text `?=`. */
module EncodedWord {
  import opened Wrappers

  const SEP: char := '?'

  datatype Parts = Parts(charset: string, encoding: string, text: string)

  /** The index of the first `c` in `s` at or after `from`, or `|s|` when
      there is none. */
  function IndexOf(s: string, c: char, from: nat): (k: nat)
    requires from <= |s|
    ensures from <= k <= |s|
    ensures k < |s| ==> s[k] == c
    ensures forall m :: from <= m < k ==> s[m] != c
    decreases |s| - from
  {
    if from == |s| || s[from] == c then from else IndexOf(s, c, from + 1)
  }

  /** Wraps a charset name, an encoding tag and an encoded text. */
  function Wrap(charset: string, encoding: string, text: string): (w: string)
    ensures |w| == |charset| + |encoding| + |text| + 6
    ensures w[..2] == "=?" && w[|w| - 2..] == "?="
  {
    "=?" + charset + [SEP] + encoding + [SEP] + text + "?="
  }

  /** Splits an encoded word into its three fields. None is a malformed word:
      one that does not start with `=?` and end with `?=`, or whose fields
      do not split. */
  function Unwrap(w: string): (r: Option<Parts>)
    ensures r.Some? ==> r.value.charset != [] && SEP !in r.value.charset && SEP !in r.value.encoding
  {
    if |w| < 4 || w[..2] != "=?" || w[|w| - 2..] != "?=" then None
    else SplitFields(w[2..|w| - 2])
  }

  /** Splits the inside of an encoded word at its first two `?`. None is a
      charset that is empty or not followed by `?`, or an encoding tag that
      is not followed by `?`. The text field runs to the end. */
  function SplitFields(body: string): (r: Option<Parts>)
    ensures r.Some? ==> r.value.charset != [] && SEP !in r.value.charset && SEP !in r.value.encoding
  {
    var i := IndexOf(body, SEP, 0);
    if i == |body| || i == 0 then None
    else
      var j := IndexOf(body, SEP, i + 1);
      if j == |body| then None
      else Some(Parts(body[..i], body[i + 1..j], body[j + 1..]))
  }

  /** The three fields joined by `?`. */
  function JoinFields(p: Parts): (s: string)
    ensures |s| == |p.charset| + |p.encoding| + |p.text| + 2
  {
    p.charset + [SEP] + p.encoding + [SEP] + p.text
  }

  /** The first `c` search finds the separator that follows a prefix free of
      `c`. */
  lemma IndexOfAfter(pre: string, c: char, post: string, from: nat)
    requires from <= |pre| && c !in pre[from..]
    ensures IndexOf(pre + [c] + post, c, from) == |pre|
    decreases |pre| - from
  {
    var s := pre + [c] + post;
    if from < |pre| {
      assert s[from] == pre[from] && pre[from] in pre[from..];
      assert pre[from + 1..] == pre[from..][1..];
      IndexOfAfter(pre, c, post, from + 1);
    }
  }

  /** A word is `=?`, its joined fields and `?=`. */
  lemma WrapFrame(p: Parts)
    ensures Wrap(p.charset, p.encoding, p.text) == "=?" + JoinFields(p) + "?="
  {
  }

  /** Unwrapping a framed string splits what is inside the frame. */
  lemma UnwrapFrame(body: string)
    ensures Unwrap("=?" + body + "?=") == SplitFields(body)
  {
    var w := "=?" + body + "?=";
    assert w[..2] == "=?" && w[|w| - 2..] == "?=" && w[2..|w| - 2] == body;
  }

  /** The first `?` of the joined fields ends the charset. */
  lemma FirstSeparator(p: Parts)
    requires SEP !in p.charset
    ensures IndexOf(JoinFields(p), SEP, 0) == |p.charset|
  {
    var rest := p.encoding + [SEP] + p.text;
    assert JoinFields(p) == p.charset + [SEP] + rest;
    IndexOfAfter(p.charset, SEP, rest, 0);
  }

  /** The next `?` ends the encoding tag. */
  lemma SecondSeparator(p: Parts)
    requires SEP !in p.encoding
    ensures IndexOf(JoinFields(p), SEP, |p.charset| + 1) == |p.charset| + 1 + |p.encoding|
  {
    var body, i := JoinFields(p), |p.charset|;
    assert body[i + 1..] == p.encoding + [SEP] + p.text;
    IndexOfAfter(p.encoding, SEP, p.text, 0);
    IndexOfShift(body, i + 1, SEP);
  }

  /** The slices between the separators are the fields. */
  lemma FieldSlices(p: Parts)
    ensures var body, i := JoinFields(p), |p.charset|;
      body[..i] == p.charset && body[i + 1..i + 1 + |p.encoding|] == p.encoding &&
      body[i + 1 + |p.encoding| + 1..] == p.text
  {
  }

  /** Splitting undoes joining when the charset is a nonempty name and
      neither it nor the encoding tag holds `?`. */
  lemma SplitJoin(p: Parts)
    requires p.charset != [] && SEP !in p.charset && SEP !in p.encoding
    ensures SplitFields(JoinFields(p)) == Some(p)
  {
    FirstSeparator(p);
    SecondSeparator(p);
    FieldSlices(p);
  }

  /** Joining undoes splitting. */
  lemma JoinSplit(body: string)
    requires SplitFields(body).Some?
    ensures JoinFields(SplitFields(body).value) == body
  {
    var i := IndexOf(body, SEP, 0);
    var j := IndexOf(body, SEP, i + 1);
    SplitAt(body, i, j);
  }

  /** Unwrapping undoes wrapping: any text field, including one that holds
      `?`, comes back whole. */
  lemma UnwrapWrap(charset: string, encoding: string, text: string)
    requires charset != [] && SEP !in charset && SEP !in encoding
    ensures Unwrap(Wrap(charset, encoding, text)) == Some(Parts(charset, encoding, text))
  {
    var p := Parts(charset, encoding, text);
    WrapFrame(p);
    UnwrapFrame(JoinFields(p));
    SplitJoin(p);
  }

  /** Searching a suffix is searching the whole from where the suffix
      starts. */
  lemma IndexOfShift(s: string, d: nat, c: char)
    requires d <= |s|
    ensures IndexOf(s, c, d) == d + IndexOf(s[d..], c, 0)
  {
    IndexOfShiftFrom(s, d, c, 0);
  }

  lemma IndexOfShiftFrom(s: string, d: nat, c: char, from: nat)
    requires d + from <= |s|
    ensures IndexOf(s, c, d + from) == d + IndexOf(s[d..], c, from)
    decreases |s| - d - from
  {
    if d + from < |s| && s[d + from] != c {
      IndexOfShiftFrom(s, d, c, from + 1);
    }
  }

  /** Conversely, a word that unwraps is the wrapping of its fields. */
  lemma WrapUnwrap(w: string)
    requires Unwrap(w).Some?
    ensures Wrap(Unwrap(w).value.charset, Unwrap(w).value.encoding, Unwrap(w).value.text) == w
  {
    var body := w[2..|w| - 2];
    assert w == "=?" + body + "?=";
    JoinSplit(body);
    WrapFrame(Unwrap(w).value);
  }

  lemma SplitAt(s: string, i: nat, j: nat)
    requires i < j < |s| && s[i] == SEP && s[j] == SEP
    ensures s == s[..i] + [SEP] + s[i + 1..j] + [SEP] + s[j + 1..]
  {
    assert s[..i] + [s[i]] + s[i + 1..j] + [s[j]] + s[j + 1..] == s;
  }
}
