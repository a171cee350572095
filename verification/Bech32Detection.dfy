/** Which mistakes in a bech32 string are always caught, and keys as bech32 strings. */
module Bech32Detection {
  import opened ByteStrings
  import opened LinearCode
  import opened Bech32Words
  import opened Bech32Sum
  import opened Bech32

  lemma CharInjective(v: Word, w: Word)
    requires Char(v) == Char(w)
    ensures v == w
  {
    CharPosition(v);
    CharPosition(w);
  }

  /** Where the data characters agree, so do the words. */
  lemma CharsAgree(x: seq<Word>, y: seq<Word>, m: nat)
    requires m < |x| == |y| && Chars(x)[m] == Chars(y)[m]
    ensures x[m] == y[m]
  {
    CharInjective(x[m], y[m]);
  }

  /** Two decoded strings with one prefix and length, taken apart. */
  lemma TakenApart(s: Bytes, t: Bytes) returns (prefix: Bytes, x: seq<Word>, y: seq<Word>)
    requires |s| == |t| && Decode(s).Ok? && Decode(t).Ok? && Decode(s).value.0 == Decode(t).value.0
    ensures prefix == Decode(s).value.0 && |prefix| + 1 + |x| == |s| && |x| == |y|
    ensures Lower(s) == prefix + [SEPARATOR] + Chars(x) && Lower(t) == prefix + [SEPARATOR] + Chars(y)
    ensures Polymod(Expand(prefix) + x) == 1 == Polymod(Expand(prefix) + y)
  {
    var k, m;
    k, x := DecodedParts(Lower(s));
    m, y := DecodedParts(Lower(t));
    prefix := Lower(s)[..k];
  }

  lemma WordsAgree(s: Bytes, t: Bytes, prefix: Bytes, x: seq<Word>, y: seq<Word>, m: nat)
    requires m < |x| == |y| && s == prefix + [SEPARATOR] + Chars(x) && t == prefix + [SEPARATOR] + Chars(y)
    requires s[|prefix| + 1 + m] == t[|prefix| + 1 + m]
    ensures x[m] == y[m]
  {
    CharsAgree(x, y, m);
  }

  lemma BurstWords(s: Bytes, t: Bytes, prefix: Bytes, x: seq<Word>, y: seq<Word>, i: nat, j: nat)
    requires |x| == |y| && s == prefix + [SEPARATOR] + Chars(x) && t == prefix + [SEPARATOR] + Chars(y)
    requires |prefix| < i && AgreeOutside(s, t, i, j)
    ensures AgreeOutside(x, y, i - |prefix| - 1, j - |prefix| - 1)
  {
    var a, b := i - |prefix| - 1, j - |prefix| - 1;
    forall m | 0 <= m < |x| && !(a <= m < b) ensures x[m] == y[m] { BurstWordAt(s, t, prefix, x, y, i, j, m); }
    PointwiseOutside(x, y, a, b);
  }

  lemma BurstWordAt(s: Bytes, t: Bytes, prefix: Bytes, x: seq<Word>, y: seq<Word>, i: nat, j: nat, m: nat)
    requires |x| == |y| && s == prefix + [SEPARATOR] + Chars(x) && t == prefix + [SEPARATOR] + Chars(y)
    requires |prefix| < i && AgreeOutside(s, t, i, j) && m < |x| && !(i <= |prefix| + 1 + m < j)
    ensures x[m] == y[m]
  {
    OutsideAt(s, t, i, j, |prefix| + 1 + m);
    WordsAgree(s, t, prefix, x, y, m);
  }

  lemma PointwiseOutside(x: seq<Word>, y: seq<Word>, a: nat, b: nat)
    requires a <= b <= |x| == |y| && forall m :: 0 <= m < |x| && !(a <= m < b) ==> x[m] == y[m]
    ensures AgreeOutside(x, y, a, b)
  {
  }

  lemma OutsideAt(s: Bytes, t: Bytes, i: nat, j: nat, m: nat)
    requires AgreeOutside(s, t, i, j) && m < |s| && !(i <= m < j)
    ensures s[m] == t[m]
  {
    assert m < i ==> s[m] == s[..i][m];
    assert m >= j ==> s[m] == s[j..][m - j];
  }

  lemma BurstInWords(s: Bytes, t: Bytes, prefix: Bytes, x: seq<Word>, y: seq<Word>, i: nat, j: nat)
    requires |x| == |y| && s == prefix + [SEPARATOR] + Chars(x) && t == prefix + [SEPARATOR] + Chars(y)
    requires |prefix| < i && AgreeOutside(s, t, i, j) && j - i <= 6
    requires Polymod(Expand(prefix) + x) == Polymod(Expand(prefix) + y)
    ensures s == t
  {
    var a, b := i - |prefix| - 1, j - |prefix| - 1;
    BurstWords(s, t, prefix, x, y, i, j);
    SameWords(prefix, x, y, a, b);
  }

  lemma SameWords(prefix: Bytes, x: seq<Word>, y: seq<Word>, a: nat, b: nat)
    requires AgreeOutside(x, y, a, b) && b - a <= 6 && Polymod(Expand(prefix) + x) == Polymod(Expand(prefix) + y)
    ensures x == y
  {
    BurstSeen(Expand(prefix), x, y, a, b);
  }

  /** Two strings that decode under one prefix and differ within six consecutive data characters are equal. */
  lemma BurstCaught(s: Bytes, t: Bytes, i: nat, j: nat)
    requires |s| == |t| && Decode(s).Ok? && Decode(t).Ok? && Decode(s).value.0 == Decode(t).value.0
    requires |Decode(s).value.0| < i && AgreeOutside(Lower(s), Lower(t), i, j) && j - i <= 6
    ensures Lower(s) == Lower(t)
  {
    var prefix, x, y := TakenApart(s, t);
    BurstInWords(Lower(s), Lower(t), prefix, x, y, i, j);
  }

  /** Two strings that decode under one prefix and differ in one or two data characters are equal. */
  lemma PairCaught(s: Bytes, t: Bytes, i: nat, j: nat)
    requires |s| == |t| && Decode(s).Ok? && Decode(t).Ok? && Decode(s).value.0 == Decode(t).value.0
    requires |Decode(s).value.0| < i < j < |s| && AgreeExcept(Lower(s), Lower(t), i, j)
    ensures Lower(s) == Lower(t)
  {
    var prefix, x, y := TakenApart(s, t);
    var k := |prefix| + 1;
    forall m | 0 <= m < |x| && m != i - k && m != j - k ensures x[m] == y[m] {
      WordsAgree(Lower(s), Lower(t), prefix, x, y, m);
    }
    PairSeen(Expand(prefix), x, y, i - k, j - k);
  }

  // ----- keys -----

  datatype KeyError = Malformed(error: Error) | WrongPrefix(actual: Bytes) | InvalidKey

  /** A key string: the expected prefix, 32 bytes, and bytes that are a key. */
  function DecodeKey(text: Bytes, expected: Bytes, isKey: Bytes -> bool): Result<Bytes, KeyError> {
    match Decode(text)
    case Err(e) => Err(Malformed(e))
    case Ok((prefix, bytes)) =>
      if prefix != expected then Err(WrongPrefix(prefix))
      else if |bytes| != 32 then Err(Malformed(InvalidLength))
      else if !isKey(bytes) then Err(InvalidKey) else Ok(bytes)
  }

  /** Encoding 32 bytes under a four-letter prefix never fails, and decodes back exactly when they are a key. */
  lemma KeyRoundTrip(prefix: Bytes, key: Bytes, isKey: Bytes -> bool)
    requires |prefix| == 4 && Printable(prefix) && Lower(prefix) == prefix && |key| == 32
    ensures Encode(prefix, key).Ok? && |Encode(prefix, key).value| == 63
    ensures DecodeKey(Encode(prefix, key).value, prefix, isKey) == if isKey(key) then Ok(key) else Err(InvalidKey)
  {
    assert WordCount(32) == 52;
    EncodeThenDecode(prefix, key);
  }

  /** A string that decodes as a key is, in lower case, the one encoding of that key. */
  lemma KeyCanonical(text: Bytes, prefix: Bytes, isKey: Bytes -> bool)
    requires DecodeKey(text, prefix, isKey).Ok?
    ensures Encode(prefix, DecodeKey(text, prefix, isKey).value) == Ok(Lower(text))
  {
    DecodeThenEncode(text);
  }
}
