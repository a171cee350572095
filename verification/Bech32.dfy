/** Bech32 strings: the two directions are exact inverses, and close strings never both decode. */
module Bech32 {
  import opened ByteStrings
  import opened Bech32Words
  import opened Bech32Sum

  const MAX_ENCODED_CHARS := 90
  const CHECKSUM_CHARS := 6
  const SEPARATOR: Byte := 49

  /** "qpzry9x8gf2tvdw0s3jn54khce6mua7l" */
  const CHARSET: Bytes := [113, 112, 122, 114, 121, 57, 120, 56, 103, 102, 50, 116, 118, 100, 119, 48, 115, 51, 106,
                           110, 53, 52, 107, 104, 99, 101, 54, 109, 117, 97, 55, 108]

  datatype Error =
    InvalidLength | MixedCase | MissingSeparator | InvalidCharacter | InvalidChecksum | InvalidPadding

  // ----- letters -----

  predicate IsLower(b: Byte) { 97 <= b <= 122 }

  predicate IsUpper(b: Byte) { 65 <= b <= 90 }

  function LowerByte(b: Byte): Byte { if IsUpper(b) then b + 32 else b }

  function Lower(s: Bytes): (r: Bytes)
    ensures |r| == |s| && forall i :: 0 <= i < |s| ==> r[i] == LowerByte(s[i])
  {
    seq(|s|, i requires 0 <= i < |s| => LowerByte(s[i]))
  }

  predicate HasLower(s: Bytes) { exists i :: 0 <= i < |s| && IsLower(s[i]) }

  predicate HasUpper(s: Bytes) { exists i :: 0 <= i < |s| && IsUpper(s[i]) }

  predicate Printable(s: Bytes) { forall i :: 0 <= i < |s| ==> 33 <= s[i] <= 126 }

  predicate Ascii(s: Bytes) { forall i :: 0 <= i < |s| ==> s[i] < 128 }

  // ----- the alphabet -----

  function Char(w: Word): Byte { CHARSET[w] }

  /** The position of a character in the alphabet. */
  function Position(b: Byte): Option<Word> {
    match b
    case 113 => Some(0) case 112 => Some(1) case 122 => Some(2) case 114 => Some(3) case 121 => Some(4)
    case 57 => Some(5) case 120 => Some(6) case 56 => Some(7)
    case 103 => Some(8) case 102 => Some(9) case 50 => Some(10) case 116 => Some(11) case 118 => Some(12)
    case 100 => Some(13) case 119 => Some(14) case 48 => Some(15)
    case 115 => Some(16) case 51 => Some(17) case 106 => Some(18) case 110 => Some(19) case 53 => Some(20)
    case 52 => Some(21) case 107 => Some(22) case 104 => Some(23)
    case 99 => Some(24) case 101 => Some(25) case 54 => Some(26) case 109 => Some(27) case 117 => Some(28)
    case 97 => Some(29) case 55 => Some(30) case 108 => Some(31)
    case _ => None
  }

  lemma CharPosition(w: Word)
    ensures Position(Char(w)) == Some(w)
  {
  }

  lemma PositionChar(b: Byte)
    requires Position(b).Some?
    ensures Char(Position(b).value) == b
  {
  }

  lemma CharIsPlain(w: Word)
    ensures Char(w) != SEPARATOR && !IsUpper(Char(w)) && Char(w) < 128
  {
    CharPosition(w);
  }

  function Chars(words: seq<Word>): (s: Bytes)
    ensures |s| == |words| && forall i :: 0 <= i < |s| ==> s[i] == Char(words[i])
  {
    seq(|words|, i requires 0 <= i < |words| => Char(words[i]))
  }

  /** The words a data part spells, if every character is in the alphabet. */
  function WordsOf(s: Bytes): (r: Result<seq<Word>, Error>)
    ensures r.Ok? ==> |r.value| == |s|
  {
    if s == [] then Ok([])
    else
      var n := |s| - 1;
      var words :- WordsOf(s[..n]);
      match Position(s[n]) case Some(w) => Ok(words + [w]) case None => Err(InvalidCharacter)
  }

  lemma {:induction false} WordsOfChars(words: seq<Word>)
    ensures WordsOf(Chars(words)) == Ok(words)
  {
    if words != [] {
      var n := |words| - 1;
      WordsOfChars(words[..n]);
      assert Chars(words)[..n] == Chars(words[..n]);
      CharPosition(words[n]);
      assert words[..n] + [words[n]] == words;
    }
  }

  lemma {:induction false} CharsOfWords(s: Bytes)
    requires WordsOf(s).Ok?
    ensures Chars(WordsOf(s).value) == s
  {
    if s != [] {
      var n := |s| - 1;
      CharsOfWords(s[..n]);
      PositionChar(s[n]);
      assert s[..n] + [s[n]] == s;
    }
  }

  /** The last separator. */
  function LastOne(s: Bytes): (r: Option<nat>)
    ensures r.Some? ==> r.value < |s| && s[r.value] == SEPARATOR && forall i :: r.value < i < |s| ==> s[i] != SEPARATOR
    ensures r.None? ==> forall i :: 0 <= i < |s| ==> s[i] != SEPARATOR
  {
    if s == [] then None else if s[|s| - 1] == SEPARATOR then Some(|s| - 1) else LastOne(s[..|s| - 1])
  }

  // ----- encoding and decoding -----

  /** The prefix as checksum input: its high bits, a zero, its low bits. */
  function Expand(prefix: Bytes): seq<Word> {
    seq(|prefix|, i requires 0 <= i < |prefix| => prefix[i] / 32) + [0] +
    seq(|prefix|, i requires 0 <= i < |prefix| => prefix[i] % 32)
  }

  /** Payload and checksum words under a prefix. */
  function Sealed(prefix: Bytes, words: seq<Word>): seq<Word> { words + Checksum(Expand(prefix) + words) }

  function Encode(prefix: Bytes, data: Bytes): Result<Bytes, Error> {
    if prefix == [] || !Printable(prefix) then Err(MissingSeparator)
    else
      var text := Lower(prefix) + [SEPARATOR] + Chars(Sealed(Lower(prefix), ToWords(data)));
      if |text| > MAX_ENCODED_CHARS then Err(InvalidLength) else Ok(text)
  }

  /** The payload of a word string whose checksum verifies under the prefix. */
  function Open(prefix: Bytes, words: seq<Word>): Result<(Bytes, Bytes), Error>
    requires |words| >= CHECKSUM_CHARS
  {
    if Polymod(Expand(prefix) + words) != 1 then Err(InvalidChecksum)
    else match FromWords(words[..|words| - CHECKSUM_CHARS])
      case Ok(data) => Ok((prefix, data))
      case Err(_) => Err(Error.InvalidPadding)
  }

  function DecodeLowered(text: Bytes): Result<(Bytes, Bytes), Error> {
    match LastOne(text)
    case None => Err(MissingSeparator)
    case Some(k) =>
      if k == 0 then Err(MissingSeparator)
      else if |text| - k - 1 < CHECKSUM_CHARS || !Printable(text[..k]) then Err(InvalidLength)
      else
        var words :- WordsOf(text[k + 1..]);
        Open(text[..k], words)
  }

  function Decode(text: Bytes): Result<(Bytes, Bytes), Error> {
    if |text| > MAX_ENCODED_CHARS || !Ascii(text) then Err(InvalidLength)
    else if HasLower(text) && HasUpper(text) then Err(MixedCase)
    else DecodeLowered(Lower(text))
  }

  // ----- exact inverses -----

  /** A prefix, the separator and data characters are taken apart where they were joined. */
  lemma JoinedParts(prefix: Bytes, words: seq<Word>)
    ensures var text := prefix + [SEPARATOR] + Chars(words);
            LastOne(text) == Some(|prefix|) && text[..|prefix|] == prefix && text[|prefix| + 1..] == Chars(words)
  {
    var text := prefix + [SEPARATOR] + Chars(words);
    assert text[|prefix|] == SEPARATOR;
    forall i | |prefix| < i < |text| ensures text[i] != SEPARATOR {
      assert text[i] == Char(words[i - |prefix| - 1]);
      CharIsPlain(words[i - |prefix| - 1]);
    }
  }

  /** An encoded string is lower case and ASCII. */
  lemma EncodedIsPlain(prefix: Bytes, words: seq<Word>)
    requires Printable(prefix)
    ensures var text := Lower(prefix) + [SEPARATOR] + Chars(words);
            Ascii(text) && !HasUpper(text) && Lower(text) == text
  {
    var text := Lower(prefix) + [SEPARATOR] + Chars(words);
    forall i | 0 <= i < |text| ensures text[i] < 128 && !IsUpper(text[i]) {
      if i > |prefix| { CharIsPlain(words[i - |prefix| - 1]); }
    }
  }

  lemma Grouped<T>(a: seq<T>, b: seq<T>, c: seq<T>)
    ensures (a + b) + c == a + (b + c) && (b + c)[..|b|] == b
  {
  }

  lemma OpenSealed(prefix: Bytes, data: Bytes)
    ensures Open(prefix, Sealed(prefix, ToWords(data))) == Ok((prefix, data))
  {
    var words := ToWords(data);
    var values := Expand(prefix) + words;
    ChecksumVerifies(values);
    Grouped(Expand(prefix), words, Checksum(values));
    RegroupBytes(data);
  }

  lemma JoinedLowered(prefix: Bytes, words: seq<Word>)
    requires prefix != [] && Printable(prefix) && |words| >= CHECKSUM_CHARS
    ensures DecodeLowered(prefix + [SEPARATOR] + Chars(words)) == Open(prefix, words)
  {
    JoinedParts(prefix, words);
    WordsOfChars(words);
  }

  lemma JoinedDecodes(prefix: Bytes, words: seq<Word>)
    requires prefix != [] && Printable(prefix) && Lower(prefix) == prefix
    requires |words| >= CHECKSUM_CHARS && |prefix| + 1 + |words| <= MAX_ENCODED_CHARS
    ensures Decode(prefix + [SEPARATOR] + Chars(words)) == Open(prefix, words)
  {
    var text := prefix + [SEPARATOR] + Chars(words);
    EncodedIsPlain(prefix, words);
    DecodesPlain(text);
    JoinedLowered(prefix, words);
  }

  lemma DecodesPlain(text: Bytes)
    requires |text| <= MAX_ENCODED_CHARS && Ascii(text) && !HasUpper(text) && Lower(text) == text
    ensures Decode(text) == DecodeLowered(text)
  {
  }

  /** Whatever encodes, decodes to the lower-case prefix and the same bytes. */
  lemma EncodeThenDecode(prefix: Bytes, data: Bytes)
    requires Encode(prefix, data).Ok?
    ensures Decode(Encode(prefix, data).value) == Ok((Lower(prefix), data))
  {
    LowerPrintable(prefix);
    JoinedDecodes(Lower(prefix), Sealed(Lower(prefix), ToWords(data)));
    OpenSealed(Lower(prefix), data);
  }

  lemma LowerPrintable(s: Bytes)
    requires Printable(s)
    ensures Printable(Lower(s)) && Lower(Lower(s)) == Lower(s)
  {
  }

  lemma SealedOpen(prefix: Bytes, words: seq<Word>)
    requires |words| >= CHECKSUM_CHARS && Open(prefix, words).Ok?
    ensures Sealed(prefix, ToWords(Open(prefix, words).value.1)) == words
  {
    var n := |words| - CHECKSUM_CHARS;
    Cut(words, n);
    Grouped(Expand(prefix), words[..n], words[n..]);
    ChecksumUnique(Expand(prefix) + words[..n], words[n..]);
    RegroupWords(words[..n]);
  }

  lemma Cut<T>(s: seq<T>, n: nat)
    requires n <= |s|
    ensures s == s[..n] + s[n..]
  {
  }

  lemma Around<T>(s: seq<T>, k: nat)
    requires k < |s|
    ensures s == s[..k] + [s[k]] + s[k + 1..]
  {
  }

  lemma DecodedParts(text: Bytes) returns (k: nat, words: seq<Word>)
    requires DecodeLowered(text).Ok?
    ensures 0 < k < |text| && Printable(text[..k]) && |words| >= CHECKSUM_CHARS
    ensures text == text[..k] + [SEPARATOR] + Chars(words) && DecodeLowered(text) == Open(text[..k], words)
  {
    k := LastOne(text).value;
    words := WordsOf(text[k + 1..]).value;
    CharsOfWords(text[k + 1..]);
    Around(text, k);
  }

  lemma EncodesParts(prefix: Bytes, data: Bytes, words: seq<Word>)
    requires prefix != [] && Printable(prefix) && Lower(prefix) == prefix && Sealed(prefix, ToWords(data)) == words
    requires |prefix| + 1 + |words| <= MAX_ENCODED_CHARS
    ensures Encode(prefix, data) == Ok(prefix + [SEPARATOR] + Chars(words))
  {
  }

  lemma LowerStays(s: Bytes, k: nat)
    requires k <= |s|
    ensures Lower(Lower(s)[..k]) == Lower(s)[..k]
  {
  }

  /** Whatever decodes is, in lower case, the encoding of what it decodes to. */
  lemma DecodeThenEncode(text: Bytes)
    requires Decode(text).Ok?
    ensures Encode(Decode(text).value.0, Decode(text).value.1) == Ok(Lower(text))
  {
    var k, words := DecodedParts(Lower(text));
    SealedOpen(Lower(text)[..k], words);
    LowerStays(text, k);
    EncodesParts(Lower(text)[..k], Decode(text).value.1, words);
  }

  /** Two strings decode alike exactly when they differ only in case. */
  lemma DecodesAlike(s: Bytes, t: Bytes)
    requires Decode(s).Ok? && Decode(t).Ok?
    ensures Decode(s) == Decode(t) <==> Lower(s) == Lower(t)
  {
    DecodeThenEncode(s);
    DecodeThenEncode(t);
  }

  // ----- the loops -----

  /** The scan of the alphabet finds the position of a character. */
  method FindPosition(b: Byte) returns (r: Option<Word>)
    ensures r == Position(b)
  {
    for i := 0 to |CHARSET|
      invariant forall j :: 0 <= j < i ==> CHARSET[j] != b
    {
      if CHARSET[i] == b {
        CharPosition(i);
        return Some(i);
      }
    }
    if Position(b).Some? { PositionChar(b); }
    return None;
  }

  method ReadChars(s: Bytes) returns (r: Result<seq<Word>, Error>)
    ensures r == WordsOf(s)
  {
    var words := [];
    for i := 0 to |s|
      invariant WordsOf(s[..i]) == Ok(words)
    {
      assert s[..i + 1][..i] == s[..i];
      var p := FindPosition(s[i]);
      if p.None? {
        RefusedEarly(s, i + 1);
        return Err(InvalidCharacter);
      }
      words := words + [p.value];
    }
    assert s[..|s|] == s;
    return Ok(words);
  }

  lemma {:induction false} RefusedEarly(s: Bytes, i: nat)
    requires i <= |s| && WordsOf(s[..i]) == Err(InvalidCharacter)
    ensures WordsOf(s) == Err(InvalidCharacter)
  {
    if i < |s| {
      assert s[..|s| - 1][..i] == s[..i];
      RefusedEarly(s[..|s| - 1], i);
    } else {
      assert s[..i] == s;
    }
  }

  method Seal(prefix: Bytes, words: seq<Word>) returns (r: seq<Word>)
    ensures r == Sealed(prefix, words)
  {
    var p := RunPolymod(Expand(prefix) + words + SixZeros());
    r := words + SixWords(p ^ 1);
  }

  method WriteChars(start: Bytes, words: seq<Word>) returns (text: Bytes)
    ensures text == start + Chars(words)
  {
    text := start;
    for i := 0 to |words|
      invariant text == start + Chars(words[..i])
    {
      assert Chars(words[..i + 1]) == Chars(words[..i]) + [Char(words[i])];
      text := text + [Char(words[i])];
    }
    assert words[..|words|] == words;
  }

  method EncodeText(prefix: Bytes, data: Bytes) returns (r: Result<Bytes, Error>)
    ensures r == Encode(prefix, data)
  {
    if prefix == [] || !Printable(prefix) { return Err(MissingSeparator); }
    var low := Lower(prefix);
    var payload := PushWords(data);
    var words := Seal(low, payload);
    var text := WriteChars(low + [SEPARATOR], words);
    if |text| > MAX_ENCODED_CHARS { return Err(InvalidLength); }
    return Ok(text);
  }

  method DecodeText(text: Bytes) returns (r: Result<(Bytes, Bytes), Error>)
    ensures r == Decode(text)
  {
    if |text| > MAX_ENCODED_CHARS || !Ascii(text) { return Err(InvalidLength); }
    if HasLower(text) && HasUpper(text) { return Err(MixedCase); }
    var low := Lower(text);
    var separator := LastOne(low);
    if separator.None? || separator.value == 0 { return Err(MissingSeparator); }
    var prefix, data := low[..separator.value], low[separator.value + 1..];
    if |data| < CHECKSUM_CHARS || !Printable(prefix) { return Err(InvalidLength); }
    var words :- ReadChars(data);
    var p := RunPolymod(Expand(prefix) + words);
    if p != 1 { return Err(InvalidChecksum); }
    var bytes := PushBytes(words[..|words| - CHECKSUM_CHARS]);
    return match bytes case Ok(b) => Ok((prefix, b)) case Err(_) => Err(Error.InvalidPadding);
  }
}
