/** Bech32 strings described character by character: the alphabet, the prefix expansion, the checksum register step by
    step and the grouping of the payload.  The codec is its exact recogniser. */
module Bech32Layout {
  import opened Arithmetic
  import opened ByteStrings
  import opened LinearCode
  import opened Bech32Checksum
  import opened Bech32Words
  import opened Bech32Sum
  import opened Bech32

  const ALPHABET := "qpzry9x8gf2tvdw0s3jn54khce6mua7l"

  // ----- the register -----

  /** The register shifted by five bits, with a generator added for each of the five bits that leave it. */
  function Fed(c: bv32): bv32 { ((c & 0x1ffffff) << 5) ^ Feedback(c) }

  function Feedback(c: bv32): bv32 {
    Gate((c >> 25) & 1 == 1, 0x3b6a57b2) ^ Gate((c >> 26) & 1 == 1, 0x26508e6d) ^ Gate((c >> 27) & 1 == 1, 0x1ea119fa)
    ^ Gate((c >> 28) & 1 == 1, 0x3d4233dd) ^ Gate((c >> 29) & 1 == 1, 0x2a1462b3)
  }

  function Gate(open: bool, generator: bv32): bv32 { if open then generator else 0 }

  /** The five bits of a number. */
  ghost predicate HasBits(r: bv32, w: nat) {
    && r < 32 && (r & 1 == 1 <==> w % 2 == 1) && (r & 2 == 2 <==> w / 2 % 2 == 1) && (r & 4 == 4 <==> w / 4 % 2 == 1)
    && (r & 8 == 8 <==> w / 8 % 2 == 1) && (r & 16 == 16 <==> w / 16 % 2 == 1)
  }

  /** A register is followed by the shifted and fed one plus the five bits of the next value. */
  ghost predicate Follows(c: bv32, d: bv32, w: Word) { HasBits(d ^ Fed(c), w) }

  // ----- runs of any register -----

  /** The states of a run over some values. */
  ghost predicate IsRun<R(!new)>(step: (R, R, Word) -> bool, start: R, regs: seq<R>, values: seq<Word>) {
    && |regs| == |values| + 1 && regs[0] == start
    && forall i :: 0 <= i < |values| ==> step(regs[i], regs[i + 1], values[i])
  }

  ghost predicate Computes<R(!new)>(next: (R, Word) -> R, step: (R, R, Word) -> bool) {
    forall c: R, d: R, w: Word :: step(c, d, w) <==> d == next(c, w)
  }

  ghost function Iterate<R>(next: (R, Word) -> R, start: R, values: seq<Word>): R {
    if values == [] then start else next(Iterate(next, start, values[..|values| - 1]), values[|values| - 1])
  }

  lemma {:induction false} RunIterates<R(!new)>(next: (R, Word) -> R, step: (R, R, Word) -> bool, start: R,
                                                regs: seq<R>,
                                                values: seq<Word>)
    requires Computes(next, step) && IsRun(step, start, regs, values)
    ensures regs[|values|] == Iterate(next, start, values)
  {
    if values != [] {
      var n := |values| - 1;
      RunIterates(next, step, start, regs[..n + 1], values[..n]);
      assert step(regs[n], regs[n + 1], values[n]);
    }
  }

  lemma {:induction false} RunExists<R(!new)>(next: (R, Word) -> R, step: (R, R, Word) -> bool, start: R,
                                              values: seq<Word>) returns (regs: seq<R>)
    requires Computes(next, step)
    ensures IsRun(step, start, regs, values)
  {
    if values == [] {
      regs := [start];
    } else {
      var n := |values| - 1;
      var front := RunExists(next, step, start, values[..n]);
      regs := front + [next(front[n], values[n])];
      forall i | 0 <= i < |values| ensures step(regs[i], regs[i + 1], values[i]) {
        if i < n { assert step(front[i], front[i + 1], values[..n][i]); }
      }
    }
  }

  /** Some run ends at a state exactly when iteration does. */
  lemma EndsIff<R(!new)>(next: (R, Word) -> R, step: (R, R, Word) -> bool, start: R, values: seq<Word>, goal: R)
    requires Computes(next, step)
    ensures (exists regs :: IsRun(step, start, regs, values) && regs[|values|] == goal) <==>
            Iterate(next, start, values) == goal
  {
    var run := RunExists(next, step, start, values);
    RunIterates(next, step, start, run, values);
    if regs :| IsRun(step, start, regs, values) && regs[|values|] == goal {
      RunIterates(next, step, start, regs, values);
    }
  }

  // ----- this register -----

  lemma TapIsGate(x: bv32, generator: bv32)
    ensures Tap(x, generator) == Gate(x & 1 == 1, generator)
  {
  }

  lemma Congruent<R>(plus: (R, R) -> R, low: R, a: R, b: R, c: R, d: R, e: R, a': R, b': R, c': R, d': R, e': R)
    requires a == a' && b == b' && c == c' && d == d' && e == e'
    ensures plus(low, plus(plus(plus(plus(a, b), c), d), e)) == plus(low, plus(plus(plus(plus(a', b'), c'), d'), e'))
  {
  }

  lemma FedIsShift(c: bv32)
    ensures Fed(c) == Shift(c)
  {
    TapIsGate(c >> 25, 0x3b6a57b2);
    TapIsGate(c >> 26, 0x26508e6d);
    TapIsGate(c >> 27, 0x1ea119fa);
    TapIsGate(c >> 28, 0x3d4233dd);
    TapIsGate(c >> 29, 0x2a1462b3);
    Congruent(Xor, (c & 0x1ffffff) << 5, Tap0(c), Tap1(c), Tap2(c), Tap3(c), Tap4(c),
              Gate((c >> 25) & 1 == 1, 0x3b6a57b2),
              Gate((c >> 26) & 1 == 1, 0x26508e6d), Gate((c >> 27) & 1 == 1, 0x1ea119fa),
              Gate((c >> 28) & 1 == 1, 0x3d4233dd), Gate((c >> 29) & 1 == 1, 0x2a1462b3));
  }

  lemma RegisterHasBits(w: Word)
    ensures HasBits(Register(w), w)
  {
    BitsOf(w % 2 == 1, w / 2 % 2 == 1, w / 4 % 2 == 1, w / 8 % 2 == 1, w / 16 % 2 == 1);
  }

  lemma BitsDetermine(r: bv32, w: Word)
    requires HasBits(r, w)
    ensures r == Register(w)
  {
    BitsBack(r);
    LowFive(r);
  }

  lemma LowFive(r: bv32)
    requires r < 32
    ensures r & 31 == r
  {
  }

  lemma Cancel(a: bv32, b: bv32, c: bv32)
    ensures a ^ b == c <==> a == b ^ c
  {
  }

  /** A register follows another exactly when it is the shifted one plus the word. */
  lemma StepIff(c: bv32, d: bv32, w: Word)
    ensures HasBits(d ^ Fed(c), w) <==> d == Xor(Shift(c), Register(w))
  {
    FedIsShift(c);
    Cancel(d, Fed(c), Register(w));
    RegisterHasBits(w);
    if HasBits(d ^ Fed(c), w) { BitsDetermine(d ^ Fed(c), w); }
  }

  function Next(c: bv32, w: Word): bv32 { Xor(Shift(c), Register(w)) }

  lemma FollowsComputes()
    ensures Computes(Next, Follows)
  {
    forall c: bv32, d: bv32, w: Word ensures Follows(c, d, w) <==> d == Next(c, w) { StepIff(c, d, w); }
  }

  lemma PolymodStep(values: seq<Word>, w: Word)
    ensures Polymod(values + [w]) == Next(Polymod(values), w)
  {
    RegistersAppend(values, [w]);
    assert Registers(values + [w])[..|values|] == Registers(values);
  }

  lemma {:induction false} PolymodIterates(values: seq<Word>)
    ensures Polymod(values) == Iterate(Next, 1, values)
  {
    if values != [] {
      var n := |values| - 1;
      PolymodIterates(values[..n]);
      PolymodStep(values[..n], values[n]);
      assert values[..n] + [values[n]] == values;
    }
  }

  // ----- what is fed to it -----

  /** The high three bits of each prefix character, a zero, their low five bits, then the words. */
  ghost predicate IsFed(values: seq<Word>, prefix: Bytes, words: seq<Word>) {
    var k := |prefix|;
    && |values| == 2 * k + 1 + |words| && values[k] == 0
    && (forall i :: 0 <= i < k ==> values[i] == prefix[i] / 32 && values[k + 1 + i] == prefix[i] % 32)
    && (forall i :: 0 <= i < |words| ==> values[2 * k + 1 + i] == words[i])
  }

  lemma FedIff(values: seq<Word>, prefix: Bytes, words: seq<Word>)
    ensures IsFed(values, prefix, words) <==> values == Expand(prefix) + words
  {
    var k, all := |prefix|, Expand(prefix) + words;
    assert |all| == 2 * k + 1 + |words| && all[k] == 0;
    assert forall i :: 0 <= i < k ==> all[i] == prefix[i] / 32 && all[k + 1 + i] == prefix[i] % 32;
    assert forall i :: 0 <= i < |words| ==> all[2 * k + 1 + i] == words[i];
    if IsFed(values, prefix, words) {
      forall i | 0 <= i < |values| ensures values[i] == all[i] {
        if k < i <= 2 * k { assert values[k + 1 + (i - k - 1)] == all[k + 1 + (i - k - 1)]; }
        else if i > 2 * k { assert values[2 * k + 1 + (i - 2 * k - 1)] == all[2 * k + 1 + (i - 2 * k - 1)]; }
      }
    }
  }

  /** Started at one and run over some values, the register ends at one. */
  ghost predicate EndsAtOne(values: seq<Word>) {
    exists regs :: IsRun(Follows, 1, regs, values) && regs[|values|] == 1
  }

  lemma EndsAtOneIff(values: seq<Word>)
    ensures EndsAtOne(values) <==> Polymod(values) == 1
  {
    FollowsComputes();
    EndsIff(Next, Follows, 1, values, 1);
    PolymodIterates(values);
  }

  /** The register run over the expanded prefix and the words ends at one. */
  ghost predicate Verifies(prefix: Bytes, words: seq<Word>) {
    exists values :: IsFed(values, prefix, words) && EndsAtOne(values)
  }

  lemma VerifiesIff(prefix: Bytes, words: seq<Word>)
    ensures Verifies(prefix, words) <==> Polymod(Expand(prefix) + words) == 1
  {
    var all := Expand(prefix) + words;
    FedIff(all, prefix, words);
    EndsAtOneIff(all);
    if values :| IsFed(values, prefix, words) && EndsAtOne(values) { FedIff(values, prefix, words); }
  }

  // ----- the payload -----

  /** The payload words spell the bytes as one number, shifted past fewer than five zero bits. */
  ghost predicate Groups(words: seq<Word>, data: Bytes) {
    var p := 5 * |words| - 8 * |data|;
    0 <= p < 5 && FromWords32(words) == FromBE(data) * Pow2(p)
  }

  lemma GroupsIff(words: seq<Word>, data: Bytes)
    ensures Groups(words, data) <==> FromWords(words) == Ok(data)
  {
    if Groups(words, data) { GroupsRead(words, data); }
    if FromWords(words) == Ok(data) {
      RegroupWords(words);
      ToWordsValue(data);
    }
  }

  lemma GroupsRead(words: seq<Word>, data: Bytes)
    requires Groups(words, data)
    ensures FromWords(words) == Ok(data)
  {
    assert |words| == WordCount(|data|);
    NumberRoundTrip(words);
    RegroupBytes(data);
  }

  // ----- the alphabet -----

  lemma CharIs(w: Word)
    ensures Char(w) == ALPHABET[w] as nat
  {
    if w < 16 { FirstChars(w); } else { LastChars(w); }
  }

  lemma FirstChars(w: Word)
    requires w < 16
    ensures Char(w) == ALPHABET[w] as nat
  {
  }

  lemma LastChars(w: Word)
    requires w >= 16
    ensures Char(w) == ALPHABET[w] as nat
  {
  }

  /** The characters spell the words. */
  ghost predicate Spells(s: Bytes, words: seq<Word>) {
    |s| == |words| && forall i :: 0 <= i < |s| ==> s[i] == ALPHABET[words[i]] as nat
  }

  lemma SpellsIff(s: Bytes, words: seq<Word>)
    ensures Spells(s, words) <==> s == Chars(words)
  {
    forall i | 0 <= i < |words| ensures Char(words[i]) == ALPHABET[words[i]] as nat { CharIs(words[i]); }
  }

  // ----- whole strings -----

  /** The shape of a string around its separator. */
  ghost predicate IsSplit(text: Bytes, prefix: Bytes, words: seq<Word>) {
    var k := |prefix|;
    |text| == k + 1 + |words| && text[..k] == prefix && text[k] == 49 && Spells(text[k + 1..], words)
  }

  /** A lower-case string: printable prefix, '1', and characters for the payload and six checksum words. */
  ghost predicate IsTextOf(text: Bytes, prefix: Bytes, data: Bytes, words: seq<Word>) {
    && |prefix| > 0 && |words| >= 6 && IsSplit(text, prefix, words)
    && (forall i :: 0 <= i < |prefix| ==> 33 <= prefix[i] <= 126)
    && Verifies(prefix, words) && Groups(words[..|words| - 6], data)
  }

  ghost predicate IsText(text: Bytes, prefix: Bytes, data: Bytes) {
    exists words :: IsTextOf(text, prefix, data, words)
  }

  lemma OpenIff(prefix: Bytes, words: seq<Word>, data: Bytes)
    requires |words| >= 6
    ensures Open(prefix, words) == Ok((prefix, data)) <==> Verifies(prefix, words) && Groups(words[..|words| - 6], data)
  {
    VerifiesIff(prefix, words);
    GroupsIff(words[..|words| - 6], data);
  }

  lemma SplitIff(text: Bytes, prefix: Bytes, words: seq<Word>)
    ensures IsSplit(text, prefix, words) <==> text == prefix + [SEPARATOR] + Chars(words)
  {
    var k := |prefix|;
    if |text| == k + 1 + |words| {
      SpellsIff(text[k + 1..], words);
      Around(text, k);
    }
    Joins(prefix, Chars(words));
  }

  lemma Joins(prefix: Bytes, tail: Bytes)
    ensures var t := prefix + [SEPARATOR] + tail;
            t[..|prefix|] == prefix && t[|prefix|] == 49 && t[|prefix| + 1..] == tail
  {
  }

  lemma TextIs(text: Bytes, prefix: Bytes, data: Bytes, words: seq<Word>)
    ensures IsTextOf(text, prefix, data, words) <==>
            && prefix != [] && Printable(prefix) && |words| >= 6 && text == prefix + [SEPARATOR] + Chars(words)
            && Open(prefix, words) == Ok((prefix, data))
  {
    SplitIff(text, prefix, words);
    if |words| >= 6 { OpenIff(prefix, words, data); }
  }

  lemma LoweredIff(text: Bytes, prefix: Bytes, data: Bytes)
    ensures DecodeLowered(text) == Ok((prefix, data)) <==> IsText(text, prefix, data)
  {
    if DecodeLowered(text) == Ok((prefix, data)) {
      var k, words := DecodedParts(text);
      TextIs(text, prefix, data, words);
    }
    if words :| IsTextOf(text, prefix, data, words) {
      TextIs(text, prefix, data, words);
      JoinedLowered(prefix, words);
    }
  }

  /** The decoder accepts exactly the strings of at most 90 characters, in one case, whose lower-case form is of that
      shape, and returns the prefix and the bytes. */
  lemma DecodeIff(text: Bytes, prefix: Bytes, data: Bytes)
    ensures Decode(text) == Ok((prefix, data)) <==>
            && |text| <= 90 && (forall i :: 0 <= i < |text| ==> text[i] < 128)
            && ((forall i :: 0 <= i < |text| ==> !(65 <= text[i] <= 90)) ||
                (forall i :: 0 <= i < |text| ==> !(97 <= text[i] <= 122)))
            && IsText(Lower(text), prefix, data)
  {
    LoweredIff(Lower(text), prefix, data);
  }

  /** The encoder produces exactly the lower-case string of that shape, if it fits. */
  lemma EncodeIff(prefix: Bytes, data: Bytes, text: Bytes)
    ensures Encode(prefix, data) == Ok(text) <==>
            |text| <= 90 && Lower(text) == text && IsText(text, Lower(prefix), data)
  {
    if Encode(prefix, data) == Ok(text) {
      EncodeThenDecode(prefix, data);
      DecodeThenEncode(text);
      SameEncoding(prefix, data);
      DecodeIff(text, Lower(prefix), data);
    }
    if |text| <= 90 && Lower(text) == text && IsText(text, Lower(prefix), data) {
      LoweredIff(text, Lower(prefix), data);
      LowerDecodes(text);
      DecodeThenEncode(text);
      SameEncoding(prefix, data);
    }
  }

  lemma SameEncoding(prefix: Bytes, data: Bytes)
    ensures Encode(Lower(prefix), data) == Encode(prefix, data)
  {
    assert Lower(Lower(prefix)) == Lower(prefix);
    assert Printable(Lower(prefix)) <==> Printable(prefix);
  }

  lemma LowerDecodes(text: Bytes)
    requires |text| <= 90 && Lower(text) == text && DecodeLowered(text).Ok?
    ensures Decode(text) == DecodeLowered(text)
  {
    var k, words := DecodedParts(text);
    LowerStays(text, k);
    EncodedIsPlain(text[..k], words);
    DecodesPlain(text);
  }
}
