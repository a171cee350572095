/** Base64 text group by group: four letters for the 24 bits of three bytes.  The codec is its exact recogniser. */
module Base64Layout {
  import opened ByteStrings
  import opened Base64

  const UPPER := "ABCDEFGHIJKLMNOPQRSTUVWXYZ"
  const LOWER := "abcdefghijklmnopqrstuvwxyz"
  const OTHERS := "0123456789+/"

  // ----- letters -----

  /** The letter of a digit: upper case, lower case, decimal digits, then '+' and '/'. */
  function Glyph(v: Sextet): char {
    if v < 26 then UPPER[v] else if v < 52 then LOWER[v - 26] else OTHERS[v - 52]
  }

  lemma UpperLetters(v: Sextet)
    requires v < 26
    ensures UPPER[v] as nat == 65 + v as nat
  {
  }

  lemma LowerLetters(v: Sextet)
    requires v < 26
    ensures LOWER[v] as nat == 97 + v as nat
  {
  }

  lemma OtherLetters(v: Sextet)
    requires v < 12
    ensures OTHERS[v] as nat == if v < 10 then 48 + v as nat else if v == 10 then 43 else 47
  {
  }

  lemma LetterIs(v: Sextet)
    ensures Letter(v) == Glyph(v) as nat
  {
    if v < 26 { UpperLetters(v); } else if v < 52 { LowerLetters(v - 26); } else { OtherLetters(v - 52); }
  }

  // ----- groups -----

  ghost function Octet(g: Bytes, i: nat): nat { if i < |g| then g[i] else 0 }

  /** Four base-64 digits and up to three bytes are one number of 24 bits. */
  ghost predicate SameNumber(v: seq<Sextet>, g: Bytes) {
    |v| == 4 && 262144 * Digit6(v, 0) + 4096 * Digit6(v, 1) + 64 * Digit6(v, 2) + Digit6(v, 3)
                == 65536 * Octet(g, 0) + 256 * Octet(g, 1) + Octet(g, 2)
  }

  ghost function Digit6(v: seq<Sextet>, i: nat): nat
    requires i < |v|
  {
    v[i]
  }

  /** The letters of the digits, '=' in place of those that carry no byte. */
  ghost predicate Writes(s: Bytes, v: seq<Sextet>, n: nat) {
    && |s| == 4 && |v| == 4
    && s[0] == Glyph(v[0]) as nat && s[1] == Glyph(v[1]) as nat
    && s[2] == (if n > 1 then Glyph(v[2]) as nat else 61)
    && s[3] == (if n > 2 then Glyph(v[3]) as nat else 61)
  }

  ghost predicate IsGroup(s: Bytes, g: Bytes) {
    1 <= |g| <= 3 && exists v :: SameNumber(v, g) && Writes(s, v, |g|)
  }

  /** The text of a byte string: one group for every three bytes, the last one possibly shorter. */
  ghost predicate IsBase64(text: Bytes, b: Bytes) {
    && |text| == 4 * ((|b| + 2) / 3)
    && forall k :: 0 <= k < (|b| + 2) / 3 ==> IsGroup(text[4 * k..4 * k + 4], Part(b, k))
  }

  ghost function Part(b: Bytes, k: nat): Bytes
    requires 3 * k <= |b|
  {
    if 3 * k + 3 <= |b| then b[3 * k..3 * k + 3] else b[3 * k..]
  }

  /** The digits the encoder takes. */
  ghost function Digits(g: Bytes): seq<Sextet>
    requires 1 <= |g| <= 3
  {
    var x, y, z: Byte := g[0], if |g| > 1 then g[1] else 0, if |g| > 2 then g[2] else 0;
    [Sextet0(x), Sextet1(x, y), Sextet2(y, z), Sextet3(z)]
  }

  lemma DigitsAre(g: Bytes)
    requires 1 <= |g| <= 3
    ensures SameNumber(Digits(g), g)
  {
  }

  lemma Unique(a0: Sextet, a1: Sextet, a2: Sextet, a3: Sextet, b0: Sextet, b1: Sextet, b2: Sextet, b3: Sextet)
    requires 262144 * a0 as nat + 4096 * a1 as nat + 64 * a2 as nat + a3 as nat
          == 262144 * b0 as nat + 4096 * b1 as nat + 64 * b2 as nat + b3 as nat
    ensures a0 == b0 && a1 == b1 && a2 == b2 && a3 == b3
  {
  }

  lemma NumberUnique(v: seq<Sextet>, w: seq<Sextet>, g: Bytes)
    requires SameNumber(v, g) && SameNumber(w, g)
    ensures v == w
  {
    Unique(v[0], v[1], v[2], v[3], w[0], w[1], w[2], w[3]);
  }

  lemma EncoderWrites(g: Bytes)
    requires 1 <= |g| <= 3
    ensures Writes(EncodeGroup(g), Digits(g), |g|)
  {
    var v := Digits(g);
    LetterIs(v[0]);
    LetterIs(v[1]);
    LetterIs(v[2]);
    LetterIs(v[3]);
  }

  lemma SameWriting(s: Bytes, t: Bytes, v: seq<Sextet>, n: nat)
    requires Writes(s, v, n) && Writes(t, v, n)
    ensures s == t
  {
  }

  lemma GroupIff(s: Bytes, g: Bytes)
    requires 1 <= |g| <= 3
    ensures IsGroup(s, g) <==> s == EncodeGroup(g)
  {
    DigitsAre(g);
    EncoderWrites(g);
    if v :| SameNumber(v, g) && Writes(s, v, |g|) {
      NumberUnique(v, Digits(g), g);
      SameWriting(s, EncodeGroup(g), v, |g|);
    }
  }

  // ----- whole texts -----

  lemma PartShift(b: Bytes, w: nat, k: nat)
    requires w == Width(b) && b != [] && 0 < k < (|b| + 2) / 3
    ensures 3 * (k - 1) <= |b[w..]| && Part(b, k) == Part(b[w..], k - 1) && w == 3
  {
  }

  lemma FirstGroup(b: Bytes)
    requires b != []
    ensures Encode(b)[..4] == EncodeGroup(b[..Width(b)]) && Encode(b)[4..] == Encode(b[Width(b)..])
    ensures IsGroup(Encode(b)[..4], Part(b, 0))
  {
    GroupIff(EncodeGroup(b[..Width(b)]), b[..Width(b)]);
    assert Part(b, 0) == b[..Width(b)];
  }

  lemma GroupShift(s: Bytes, k: nat)
    requires 0 < k && 4 * k + 4 <= |s|
    ensures s[4..][4 * (k - 1)..4 * (k - 1) + 4] == s[4 * k..4 * k + 4]
  {
  }

  lemma {:induction false} EncodeIs(b: Bytes)
    ensures IsBase64(Encode(b), b)
  {
    EncodeLength(b);
    if b != [] {
      var s, rest := Encode(b), b[Width(b)..];
      EncodeIs(rest);
      FirstGroup(b);
      forall k | 0 <= k < (|b| + 2) / 3 ensures IsGroup(s[4 * k..4 * k + 4], Part(b, k)) {
        if k > 0 {
          PartShift(b, Width(b), k);
          GroupShift(s, k);
          assert IsGroup(Encode(rest)[4 * (k - 1)..4 * (k - 1) + 4], Part(rest, k - 1));
        }
      }
    }
  }

  /** Only one text has the groups of a byte string. */
  lemma TextUnique(b: Bytes, s: Bytes, t: Bytes)
    requires IsBase64(s, b) && IsBase64(t, b)
    ensures s == t
  {
    forall i | 0 <= i < |s| ensures s[i] == t[i] {
      SameGroup(b, s, t, i / 4);
      assert s[i] == s[4 * (i / 4)..4 * (i / 4) + 4][i % 4] && t[i] == t[4 * (i / 4)..4 * (i / 4) + 4][i % 4];
    }
  }

  lemma SameGroup(b: Bytes, s: Bytes, t: Bytes, k: nat)
    requires IsBase64(s, b) && IsBase64(t, b) && k < (|b| + 2) / 3
    ensures s[4 * k..4 * k + 4] == t[4 * k..4 * k + 4]
  {
    var g := Part(b, k);
    assert IsGroup(s[4 * k..4 * k + 4], g) && IsGroup(t[4 * k..4 * k + 4], g);
    GroupIff(s[4 * k..4 * k + 4], g);
    GroupIff(t[4 * k..4 * k + 4], g);
  }

  /** Both directions of the codec are exactly this format. */
  lemma Base64Iff(text: Bytes, b: Bytes)
    ensures IsBase64(text, b) <==> text == Encode(b)
    ensures IsBase64(text, b) <==> Decode(text) == Ok(b)
  {
    EncodeIs(b);
    if IsBase64(text, b) { TextUnique(b, text, Encode(b)); }
    Inverse(b, text);
  }
}
