/** Base64 text for NIP-44 payloads: an exact inverse pair, with a final guard that never fires. */
module Base64 {
  import opened ByteStrings

  type Sextet = v: nat | v < 64

  const PAD: Byte := 61

  datatype Error = BadLength | BadCharacter | BadPadding | NotCanonical

  /** "A" to "Z", "a" to "z", "0" to "9", "+", "/". */
  function Letter(v: Sextet): Byte {
    if v < 26 then 65 + v else if v < 52 then 97 + (v - 26) else if v < 62 then 48 + (v - 52) else if v == 62 then 43
    else 47
  }

  function Value(b: Byte): Result<Sextet, Error> {
    if 65 <= b <= 90 then Ok(b - 65)
    else if 97 <= b <= 122 then Ok(b - 97 + 26)
    else if 48 <= b <= 57 then Ok(b - 48 + 52)
    else if b == 43 then Ok(62)
    else if b == 47 then Ok(63)
    else Err(BadCharacter)
  }

  lemma LetterValue(v: Sextet)
    ensures Value(Letter(v)) == Ok(v) && Letter(v) != PAD
  {
  }

  lemma ValueLetter(b: Byte)
    requires Value(b).Ok?
    ensures Letter(Value(b).value) == b && b != PAD
  {
  }

  // ----- one group -----

  // The four sextets of three bytes, and the three bytes of four sextets, with the wrap-around of byte shifts.

  function Sextet0(x: Byte): Sextet { x / 4 }

  function Sextet1(x: Byte, y: Byte): Sextet { x % 4 * 16 + y / 16 }

  function Sextet2(y: Byte, z: Byte): Sextet { y % 16 * 4 + z / 64 }

  function Sextet3(z: Byte): Sextet { z % 64 }

  function Byte0(a: Sextet, b: Sextet): Byte { a * 4 + b / 16 }

  function Byte1(b: Sextet, c: Sextet): (y: Byte)
    ensures y == b % 16 * 16 + c / 4
  {
    assert b * 16 % 256 == b % 16 * 16;
    b * 16 % 256 + c / 4
  }

  function Byte2(c: Sextet, d: Sextet): (z: Byte)
    ensures z == c % 4 * 64 + d
  {
    assert c * 64 % 256 == c % 4 * 64;
    c * 64 % 256 + d
  }

  /** Sextets taken from three bytes rebuild them. */
  lemma Rebuilt(x: Byte, y: Byte, z: Byte)
    ensures Byte0(Sextet0(x), Sextet1(x, y)) == x
    ensures Byte1(Sextet1(x, y), Sextet2(y, z)) == y
    ensures Byte2(Sextet2(y, z), Sextet3(z)) == z
    ensures Sextet1(x, 0) % 16 == 0 && Sextet2(y, 0) % 4 == 0
  {
  }

  /** Bytes made of four sextets give them back. */
  lemma Regrouped(a: Sextet, b: Sextet, c: Sextet, d: Sextet)
    ensures Sextet0(Byte0(a, b)) == a
    ensures Sextet1(Byte0(a, b), Byte1(b, c)) == b
    ensures Sextet2(Byte1(b, c), Byte2(c, d)) == c
    ensures Sextet3(Byte2(c, d)) == d
    ensures b % 16 == 0 ==> Sextet1(Byte0(a, b), 0) == b
    ensures c % 4 == 0 ==> Sextet2(Byte1(b, c), 0) == c
  {
  }

  /** Four characters for one, two or three bytes. */
  function EncodeGroup(g: Bytes): (s: Bytes)
    requires 1 <= |g| <= 3
    ensures |s| == 4
  {
    if |g| == 1 then [Letter(Sextet0(g[0])), Letter(Sextet1(g[0], 0)), PAD, PAD]
    else if |g| == 2 then [Letter(Sextet0(g[0])), Letter(Sextet1(g[0], g[1])), Letter(Sextet2(g[1], 0)), PAD]
    else [Letter(Sextet0(g[0])), Letter(Sextet1(g[0], g[1])), Letter(Sextet2(g[1], g[2])), Letter(Sextet3(g[2]))]
  }

  /** The bytes of four characters; padding only in the last group, and only over zero bits. */
  function DecodeGroup(s: Bytes, last: bool): (r: Result<Bytes, Error>)
    requires |s| == 4
    ensures r.Ok? ==> 1 <= |r.value| <= 3 && (!last ==> |r.value| == 3)
  {
    var a :- Value(s[0]);
    var b :- Value(s[1]);
    if s[2] == PAD then
      if !last || s[3] != PAD || b % 16 != 0 then Err(BadPadding) else Ok([Byte0(a, b)])
    else
      var c :- Value(s[2]);
      if s[3] == PAD then
        if !last || c % 4 != 0 then Err(BadPadding) else Ok([Byte0(a, b), Byte1(b, c)])
      else
        var d :- Value(s[3]);
        Ok([Byte0(a, b), Byte1(b, c), Byte2(c, d)])
  }

  lemma GroupRoundTrip(g: Bytes, last: bool)
    requires 1 <= |g| <= 3 && (|g| == 3 || last)
    ensures DecodeGroup(EncodeGroup(g), last) == Ok(g)
  {
    if |g| == 1 {
      assert g == [g[0]];
      OneByte(g[0]);
    } else if |g| == 2 {
      assert g == [g[0], g[1]];
      TwoBytes(g[0], g[1]);
    } else {
      assert g == [g[0], g[1], g[2]];
      ThreeBytes(g[0], g[1], g[2], last);
    }
  }

  lemma OneByte(x: Byte)
    ensures DecodeGroup(EncodeGroup([x]), true) == Ok([x])
  {
    RebuiltOne(x);
    PaddedTwice(Sextet0(x), Sextet1(x, 0));
  }

  lemma RebuiltOne(x: Byte)
    ensures Byte0(Sextet0(x), Sextet1(x, 0)) == x && Sextet1(x, 0) % 16 == 0
  {
  }

  lemma PaddedTwice(a: Sextet, b: Sextet)
    requires b % 16 == 0
    ensures DecodeGroup([Letter(a), Letter(b), PAD, PAD], true) == Ok([Byte0(a, b)])
  {
    LetterValue(a);
    LetterValue(b);
  }

  lemma TwoBytes(x: Byte, y: Byte)
    ensures DecodeGroup(EncodeGroup([x, y]), true) == Ok([x, y])
  {
    LetterValue(Sextet0(x));
    LetterValue(Sextet1(x, y));
    LetterValue(Sextet2(y, 0));
    Rebuilt(x, y, 0);
  }

  lemma ThreeBytes(x: Byte, y: Byte, z: Byte, last: bool)
    ensures DecodeGroup(EncodeGroup([x, y, z]), last) == Ok([x, y, z])
  {
    LetterValue(Sextet0(x));
    LetterValue(Sextet1(x, y));
    LetterValue(Sextet2(y, z));
    LetterValue(Sextet3(z));
    Rebuilt(x, y, z);
  }

  lemma GroupCanonical(s: Bytes, last: bool)
    requires |s| == 4 && DecodeGroup(s, last).Ok?
    ensures EncodeGroup(DecodeGroup(s, last).value) == s
  {
    ValueLetter(s[0]);
    ValueLetter(s[1]);
    if s[2] == PAD {
      TwoLetters(s, Value(s[0]).value, Value(s[1]).value);
    } else {
      ValueLetter(s[2]);
      if s[3] == PAD {
        ThreeLetters(s, Value(s[0]).value, Value(s[1]).value, Value(s[2]).value);
      } else {
        ValueLetter(s[3]);
        FourLetters(s, Value(s[0]).value, Value(s[1]).value, Value(s[2]).value, Value(s[3]).value);
      }
    }
  }

  lemma TwoLetters(s: Bytes, a: Sextet, b: Sextet)
    requires s == [Letter(a), Letter(b), PAD, PAD] && b % 16 == 0
    ensures EncodeGroup([Byte0(a, b)]) == s
  {
    Regrouped(a, b, 0, 0);
  }

  lemma ThreeLetters(s: Bytes, a: Sextet, b: Sextet, c: Sextet)
    requires s == [Letter(a), Letter(b), Letter(c), PAD] && c % 4 == 0
    ensures EncodeGroup([Byte0(a, b), Byte1(b, c)]) == s
  {
    Regrouped(a, b, c, 0);
  }

  lemma FourLetters(s: Bytes, a: Sextet, b: Sextet, c: Sextet, d: Sextet)
    requires s == [Letter(a), Letter(b), Letter(c), Letter(d)]
    ensures EncodeGroup([Byte0(a, b), Byte1(b, c), Byte2(c, d)]) == s
  {
    Regrouped(a, b, c, d);
  }

  // ----- whole strings -----

  function Encode(b: Bytes): (s: Bytes)
    ensures |s| % 4 == 0
  {
    if b == [] then [] else EncodeGroup(b[..Width(b)]) + Encode(b[Width(b)..])
  }

  lemma {:induction false} EncodeLength(b: Bytes)
    ensures |Encode(b)| == (|b| + 2) / 3 * 4
  {
    if b != [] {
      EncodeLength(b[Width(b)..]);
      GroupCount(|b|, Width(b));
    }
  }

  lemma GroupCount(n: nat, w: nat)
    requires n > 0 && w == if n < 3 then n else 3
    ensures 4 + (n - w + 2) / 3 * 4 == (n + 2) / 3 * 4
  {
  }

  /** The size of the first group. */
  function Width(b: Bytes): nat { if |b| < 3 then |b| else 3 }

  lemma FourLess(n: nat)
    requires n % 4 == 0 && n > 0
    ensures n >= 4 && (n - 4) % 4 == 0
  {
  }

  function DecodeGroups(s: Bytes): (r: Result<Bytes, Error>)
    requires |s| % 4 == 0
  {
    if s == [] then Ok([])
    else
      FourLess(|s|);
      var head :- DecodeGroup(s[..4], |s| == 4);
      var tail :- DecodeGroups(s[4..]);
      Ok(head + tail)
  }

  /** The decoder re-encodes its result and refuses any difference. */
  function Decode(s: Bytes): Result<Bytes, Error> {
    if |s| % 4 != 0 then Err(BadLength)
    else
      var b :- DecodeGroups(s);
      if Encode(b) != s then Err(NotCanonical) else Ok(b)
  }

  lemma {:induction false} GroupsRoundTrip(b: Bytes)
    ensures DecodeGroups(Encode(b)) == Ok(b)
  {
    if b != [] {
      var s, w := Encode(b), Width(b);
      assert s[..4] == EncodeGroup(b[..w]) && s[4..] == Encode(b[w..]);
      GroupRoundTrip(b[..w], |s| == 4);
      GroupsRoundTrip(b[w..]);
      assert b[..w] + b[w..] == b;
    }
  }

  /** The final guard never fires. */
  lemma {:induction false} GuardNeverFires(s: Bytes)
    requires |s| % 4 == 0 && DecodeGroups(s).Ok?
    ensures Encode(DecodeGroups(s).value) == s
  {
    if s != [] {
      GroupCanonical(s[..4], |s| == 4);
      FourLess(|s|);
      GuardNeverFires(s[4..]);
      EncodeFirst(DecodeGroup(s[..4], |s| == 4).value, DecodeGroups(s[4..]).value);
      assert s == s[..4] + s[4..];
    }
  }

  /** A full group, or a shorter last one, is encoded on its own. */
  lemma EncodeFirst(head: Bytes, tail: Bytes)
    requires 1 <= |head| <= 3 && (|head| == 3 || tail == [])
    ensures Encode(head + tail) == EncodeGroup(head) + Encode(tail)
  {
    assert (head + tail)[..|head|] == head && (head + tail)[|head|..] == tail;
  }

  /** Decoding inverts encoding, and encoding inverts decoding. */
  lemma Inverse(b: Bytes, s: Bytes)
    ensures Decode(s) == Ok(b) <==> s == Encode(b)
  {
    GroupsRoundTrip(b);
    if Decode(s) == Ok(b) { assert s == Encode(b); }
  }

  /** The guard aside, decoding is decoding the groups. */
  lemma DecodeIsGroups(s: Bytes)
    requires |s| % 4 == 0
    ensures Decode(s) == DecodeGroups(s)
  {
    if DecodeGroups(s).Ok? { GuardNeverFires(s); }
  }

  // ----- the loops -----

  lemma {:induction false} EncodeAppend(x: Bytes, y: Bytes)
    requires |x| % 3 == 0
    ensures Encode(x + y) == Encode(x) + Encode(y)
  {
    if x == [] {
      assert x + y == y;
    } else {
      EncodeAppend(x[3..], y);
      Split(x, y);
      Joined(EncodeGroup(x[..3]), Encode(x[3..]), Encode(y));
    }
  }

  lemma Split(x: Bytes, y: Bytes)
    requires |x| >= 3
    ensures (x + y)[..3] == x[..3] && (x + y)[3..] == x[3..] + y
  {
  }

  lemma Joined(a: Bytes, b: Bytes, c: Bytes)
    ensures a + (b + c) == (a + b) + c
  {
  }

  lemma PushStep(b: Bytes, i: nat, end: nat, k: nat)
    requires i == 3 * k && i < end <= |b| && end - i <= 3 && (end - i == 3 || end == |b|)
    ensures Encode(b[..end]) == Encode(b[..i]) + EncodeGroup(b[i..end])
  {
    EncodeAppend(b[..i], b[i..end]);
    assert b[..i] + b[i..end] == b[..end];
    var g := b[i..end];
    assert g[..Width(g)] == g && g[Width(g)..] == [];
    assert Encode(g) == EncodeGroup(g) + [];
  }

  method PushGroups(b: Bytes) returns (s: Bytes)
    ensures s == Encode(b)
  {
    s := [];
    var i := 0;
    ghost var k := 0;
    while i < |b|
      invariant i <= |b| && (i == 3 * k || i == |b|) && s == Encode(b[..i])
    {
      var end := if i + 3 <= |b| then i + 3 else |b|;
      PushStep(b, i, end, k);
      s := s + EncodeGroup(b[i..end]);
      i, k := end, k + 1;
    }
    assert b[..|b|] == b;
  }

  lemma PullStep(s: Bytes, i: nat)
    requires i < |s| && |s[i..]| % 4 == 0
    ensures i + 4 <= |s| && |s[i + 4..]| % 4 == 0
    ensures DecodeGroups(s[i..]) ==
            match DecodeGroup(s[i..i + 4], i + 4 == |s|)
            case Ok(g) => After(g, DecodeGroups(s[i + 4..]))
            case Err(e) => Err(e)
  {
    assert s[i..][..4] == s[i..i + 4] && s[i..][4..] == s[i + 4..];
  }

  method PullAll(s: Bytes) returns (r: Result<Bytes, Error>)
    requires |s| % 4 == 0
    ensures r == DecodeGroups(s)
  {
    var b: Bytes := [];
    var i := 0;
    Whole(s);
    while i < |s|
      invariant i <= |s| && |s[i..]| % 4 == 0
      invariant DecodeGroups(s) == After(b, DecodeGroups(s[i..]))
    {
      PullStep(s, i);
      var g := DecodeGroup(s[i..i + 4], i + 4 == |s|);
      if g.Err? { return Err(g.error); }
      AfterStep(b, g.value, DecodeGroups(s[i + 4..]));
      b, i := b + g.value, i + 4;
    }
    assert s[i..] == [] && b + [] == b;
    return Ok(b);
  }

  method PullGroups(s: Bytes) returns (r: Result<Bytes, Error>)
    ensures r == Decode(s)
  {
    if |s| % 4 != 0 { return Err(BadLength); }
    var b :- PullAll(s);
    var again := PushGroups(b);
    return if again != s then Err(NotCanonical) else Ok(b);
  }

  /** The bytes decoded so far in front of what the rest decodes to. */
  function After(b: Bytes, rest: Result<Bytes, Error>): Result<Bytes, Error> {
    if rest.Ok? then Ok(b + rest.value) else rest
  }

  lemma Whole(s: Bytes)
    requires |s| % 4 == 0
    ensures DecodeGroups(s) == After([], DecodeGroups(s[0..]))
  {
    assert s[0..] == s;
    if DecodeGroups(s).Ok? { assert [] + DecodeGroups(s).value == DecodeGroups(s).value; }
  }

  lemma AfterStep(b: Bytes, g: Bytes, rest: Result<Bytes, Error>)
    ensures After(b, After(g, rest)) == After(b + g, rest)
  {
    if rest.Ok? { assert b + (g + rest.value) == (b + g) + rest.value; }
  }
}
