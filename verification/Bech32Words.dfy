/** Regrouping between 8-bit bytes and 5-bit words, as the numbers the two strings spell. */
module Bech32Words {
  import opened Arithmetic
  import opened ByteStrings

  type Word = w: nat | w < 32

  datatype PaddingError = InvalidPadding

  function Pow32(k: nat): (p: nat)
    ensures p > 0
  {
    if k == 0 then 1 else 32 * Pow32(k - 1)
  }

  /** The number a word string spells in base 32. */
  function FromWords32(words: seq<Word>): nat {
    if words == [] then 0 else FromWords32(words[..|words| - 1]) * 32 + words[|words| - 1]
  }

  /** The `k` lowest base-32 digits of `v`, most significant first. */
  function Words32(k: nat, v: nat): (words: seq<Word>)
    ensures |words| == k
  {
    if k == 0 then [] else Words32(k - 1, v / 32) + [v % 32]
  }

  lemma {:induction false} WordsRoundTrip(k: nat, v: nat)
    requires v < Pow32(k)
    ensures FromWords32(Words32(k, v)) == v
  {
    if k > 0 { WordsRoundTrip(k - 1, v / 32); }
  }

  lemma {:induction false} NumberRoundTrip(words: seq<Word>)
    ensures Words32(|words|, FromWords32(words)) == words && FromWords32(words) < Pow32(|words|)
  {
    if words != [] {
      var n := |words| - 1;
      NumberRoundTrip(words[..n]);
      assert FromWords32(words) / 32 == FromWords32(words[..n]) && FromWords32(words) % 32 == words[n];
    }
  }

  // ----- the two conversions -----

  /** Words needed for `n` bytes, and the zero bits that fill the last one. */
  function WordCount(n: nat): (m: nat)
    ensures 8 * n <= 5 * m < 8 * n + 5
  {
    (8 * n + 4) / 5
  }

  function Padding(n: nat): (p: nat)
    ensures p < 5 && 5 * WordCount(n) == 8 * n + p
  {
    5 * WordCount(n) - 8 * n
  }

  function Padded(data: Bytes): nat { FromBE(data) * Pow2(Padding(|data|)) }

  /** The bytes as one number, shifted past the padding and written in base 32. */
  function ToWords(data: Bytes): seq<Word> {
    Words32(WordCount(|data|), Padded(data))
  }

  function Leftover(m: nat): (r: nat)
    ensures r < 8
  {
    5 * m % 8
  }

  /** The words as one number, whose leftover bits must be fewer than a word and zero. */
  function FromWords(words: seq<Word>): Result<Bytes, PaddingError> {
    var r := Leftover(|words|);
    if r >= 5 || FromWords32(words) % Pow2(r) != 0 then Err(InvalidPadding)
    else Ok(BE(5 * |words| / 8, FromWords32(words) / Pow2(r)))
  }

  // ----- they are inverse to each other -----

  lemma {:induction false} PowerSum(a: nat, b: nat)
    ensures Pow2(a + b) == Pow2(a) * Pow2(b)
  {
    if a > 0 {
      PowerSum(a - 1, b);
      assert a + b - 1 == a - 1 + b;
      assert 2 * (Pow2(a - 1) * Pow2(b)) == (2 * Pow2(a - 1)) * Pow2(b);
    }
  }

  lemma {:induction false} Powers32(k: nat)
    ensures Pow32(k) == Pow2(5 * k)
  {
    if k > 0 {
      Powers32(k - 1);
      assert 5 * k == 5 * (k - 1) + 5;
      Five(5 * (k - 1));
    }
  }

  lemma Five(k: nat)
    ensures Pow2(k + 5) == 32 * Pow2(k) && Pow2(k + 8) == 256 * Pow2(k)
  {
    assert Pow2(k + 1) == 2 * Pow2(k);
    assert Pow2(k + 2) == 4 * Pow2(k);
    assert Pow2(k + 3) == 8 * Pow2(k);
    assert Pow2(k + 4) == 16 * Pow2(k);
    assert Pow2(k + 5) == 32 * Pow2(k);
    assert Pow2(k + 6) == 64 * Pow2(k);
    assert Pow2(k + 7) == 128 * Pow2(k);
  }

  lemma {:induction false} Powers256(k: nat)
    ensures Pow256(k) == Pow2(8 * k)
  {
    if k > 0 {
      Powers256(k - 1);
      assert 8 * k == 8 * (k - 1) + 8;
      Five(8 * (k - 1));
    }
  }

  lemma Scaled(v: nat, p: nat, q: nat)
    requires v < q && p > 0
    ensures v * p < q * p && v * p / p == v && v * p % p == 0
  {
    Distribute(p, q, v);
    MulAtLeast(p, q - v);
    QuotientUnique(v * p, p, v, 0);
  }

  lemma PaddedFits(data: Bytes)
    ensures Padded(data) < Pow32(WordCount(|data|))
  {
    var n, p := |data|, Padding(|data|);
    FromBEBound(data);
    Powers256(n);
    Powers32(WordCount(n));
    assert 5 * WordCount(n) == 8 * n + p;
    PowerSum(8 * n, p);
    Scaled(FromBE(data), Pow2(p), Pow2(8 * n));
  }

  /** The padded number fits the words, and its words spell it. */
  lemma ToWordsValue(data: Bytes)
    ensures FromWords32(ToWords(data)) == Padded(data)
  {
    PaddedFits(data);
    WordsRoundTrip(WordCount(|data|), Padded(data));
  }

  lemma Counts(n: nat)
    ensures Leftover(WordCount(n)) == Padding(n) && 5 * WordCount(n) / 8 == n
  {
    LeftoverBits(WordCount(n), n, Padding(n));
  }

  /** Regrouping back returns the bytes. */
  lemma RegroupBytes(data: Bytes)
    ensures FromWords(ToWords(data)) == Ok(data)
  {
    ToWordsValue(data);
    Counts(|data|);
    Scaled(FromBE(data), Pow2(Padding(|data|)), FromBE(data) + 1);
    FromBERoundTrip(data);
  }

  /** Words that regroup to bytes are the words of those bytes. */
  lemma RegroupWords(words: seq<Word>)
    requires FromWords(words).Ok?
    ensures ToWords(FromWords(words).value) == words
  {
    var m, r, v := |words|, Leftover(|words|), FromWords32(words);
    var n := 5 * m / 8;
    RegroupCounts(m, n, r);
    NumberRoundTrip(words);
    NumberFits(m, n, r);
    Quotient(v, Pow2(r), Pow256(n));
    BERoundTrip(n, v / Pow2(r));
  }

  lemma RegroupCounts(m: nat, n: nat, r: nat)
    requires n == 5 * m / 8 && r == Leftover(m) && r < 5
    ensures WordCount(n) == m && Padding(n) == r
  {
    assert 5 * m == 8 * n + r;
  }

  lemma NumberFits(m: nat, n: nat, r: nat)
    requires 5 * m == 8 * n + r
    ensures Pow32(m) == Pow256(n) * Pow2(r)
  {
    Powers32(m);
    Powers256(n);
    PowerSum(8 * n, r);
  }

  lemma MulOrdered(p: nat, x: nat, y: nat)
    requires x <= y
    ensures p * x <= p * y
  {
    Distribute(p, y, x);
  }

  lemma Quotient(v: nat, p: nat, q: nat)
    requires p > 0 && v % p == 0 && v < q * p
    ensures v / p < q && v / p * p == v
  {
    DivMod(v, p);
    if v / p >= q { MulOrdered(p, q, v / p); }
  }

  // ----- the loops, with a 32-bit accumulator -----

  const WRAP := 0x1_0000_0000

  lemma WrapPower(k: nat)
    requires k == 8
    ensures Pow2(4 * k) == WRAP
  {
    Five(0);
    Five(k);
    Five(2 * k);
    Five(3 * k);
  }

  lemma WrapSplits(bits: nat)
    requires bits <= 32
    ensures Pow2(bits) * Pow2(32 - bits) == WRAP
  {
    PowerSum(bits, 32 - bits);
    WrapPower(8);
  }

  /** Reducing by a multiple first does not change a remainder. */
  lemma ModOfMultiple(x: nat, q: nat, r: nat)
    requires q > 0 && r > 0
    ensures q * r > 0 && x % (q * r) % q == x % q
  {
    MulAtLeast(q, r);
    DivMod(x, q * r);
    DivMod(x % (q * r), q);
    var a, b := x / (q * r), x % (q * r) / q;
    assert q * r * a == q * (r * a);
    Distribute(q, r * a, b);
    QuotientUnique(x, q, r * a + b, x % (q * r) % q);
  }

  /** What is left of the accumulator after a group is shifted in. */
  lemma ShiftIn(acc: nat, group: nat, base: nat, width: nat, bits: nat)
    requires base == Pow2(width) && group < base && bits + width <= 32
    ensures (acc * base % WRAP + group) % Pow2(bits + width) == acc % Pow2(bits) * base + group
  {
    var p := Pow2(bits);
    PowerSum(bits, width);
    WrapSplits(bits + width);
    var q := p * base;
    ModOfMultiple(acc * base, q, Pow2(32 - (bits + width)));
    var x := acc * base % WRAP;
    DivMod(acc, p);
    ShiftedRemainder(acc, p, base);
    DivMod(x, q);
    Distribute(base, p, acc % p);
    MulAtLeast(base, p - acc % p);
    QuotientUnique(x + group, q, x / q, acc % p * base + group);
  }

  lemma ShiftedRemainder(x: nat, p: nat, b: nat)
    requires p > 0 && b > 0
    ensures p * b > 0 && x * b % (p * b) == x % p * b
  {
    MulAtLeast(p, b);
    DivMod(x, p);
    var k, r := x / p, x % p;
    Distribute(b, p * k, r);
    assert b * (p * k) == p * b * k;
    Distribute(b, p, r);
    MulAtLeast(b, p - r);
    QuotientUnique(x * b, p * b, k, r * b);
  }

  /** Taking the top group of `width` bits off `bits + width` pending bits. */
  lemma TakeOut(acc: nat, base: nat, width: nat, bits: nat)
    requires base == Pow2(width)
    ensures acc % Pow2(bits + width) == acc / Pow2(bits) % base * Pow2(bits) + acc % Pow2(bits)
  {
    PowerSum(bits, width);
    SplitRemainder(acc, Pow2(bits), base);
  }

  lemma SplitRemainder(x: nat, p: nat, b: nat)
    requires p > 0 && b > 0
    ensures p * b > 0 && x % (p * b) == x / p % b * p + x % p
  {
    MulAtLeast(p, b);
    DivMod(x, p);
    DivMod(x / p, b);
    Nested(x, p, b, x / p, x % p, x / p / b, x / p % b);
  }

  lemma Nested(x: nat, p: nat, b: nat, k: nat, r: nat, c: nat, d: nat)
    requires p > 0 && b > 0 && x == p * k + r && r < p && k == b * c + d && d < b
    ensures p * b > 0 && x % (p * b) == d * p + r
  {
    MulAtLeast(p, b);
    Distribute(p, b * c, d);
    assert p * (b * c) == p * b * c;
    Distribute(p, b, d);
    MulAtLeast(p, b - d);
    QuotientUnique(x, p * b, c, d * p + r);
  }

  /** The bytes so far are the words so far followed by the `bits` low bits of the accumulator. */
  ghost predicate Pending(data: Bytes, words: seq<Word>, acc: nat, bits: nat) {
    && 5 * |words| + bits == 8 * |data|
    && FromBE(data) == FromWords32(words) * Pow2(bits) + acc % Pow2(bits)
  }

  lemma PendingByte(data: Bytes, b: Byte, words: seq<Word>, acc: nat, bits: nat)
    requires Pending(data, words, acc, bits) && bits < 5
    ensures Pending(data + [b], words, acc * 256 % WRAP + b, bits + 8)
  {
    Five(0);
    ShiftIn(acc, b, 256, 8, bits);
    Five(bits);
    assert (data + [b])[..|data|] == data;
    Absorb(FromWords32(words), Pow2(bits), acc % Pow2(bits), 256, b);
  }

  lemma PendingWord(data: Bytes, words: seq<Word>, acc: nat, bits: nat)
    requires Pending(data, words, acc, bits + 5)
    ensures Pending(data, words + [acc / Pow2(bits) % 32], acc, bits)
  {
    Five(0);
    TakeOut(acc, 32, 5, bits);
    Five(bits);
    var w := acc / Pow2(bits) % 32;
    assert (words + [w])[..|words|] == words;
    Regroup(FromWords32(words), w, 32, Pow2(bits));
  }

  lemma Regroup(v: nat, w: nat, b: nat, p: nat)
    ensures v * (b * p) + w * p == (v * b + w) * p
  {
    Distribute(p, v * b, w);
    assert v * b * p == v * (b * p);
  }

  /** The pending bits, moved to the top of a last word. */
  function FinalWord(acc: nat, gap: nat): Word { acc * Pow2(gap) % WRAP % 32 }

  lemma FinalValue(acc: nat, bits: nat, gap: nat)
    requires bits + gap == 5
    ensures FinalWord(acc, gap) == acc % Pow2(bits) * Pow2(gap)
  {
    Five(0);
    PowerSum(bits, gap);
    WrapSplits(5);
    ModOfMultiple(acc * Pow2(gap), 32, Pow2(27));
    ShiftedRemainder(acc, Pow2(bits), Pow2(gap));
  }

  lemma LastWord(data: Bytes, words: seq<Word>, acc: nat, bits: nat)
    requires Pending(data, words, acc, bits) && 0 < bits < 5
    ensures words + [FinalWord(acc, 5 - bits)] == ToWords(data)
  {
    var k := 5 - bits;
    var w := FinalWord(acc, k);
    FinalValue(acc, bits, k);
    PowerSum(bits, k);
    Five(0);
    assert (words + [w])[..|words|] == words;
    assert WordCount(|data|) == |words| + 1 && Padding(|data|) == k;
    Regroup(FromWords32(words), acc % Pow2(bits), Pow2(bits), Pow2(k));
    Spelled(words + [w], Padded(data));
  }

  lemma Spelled(words: seq<Word>, v: nat)
    requires FromWords32(words) == v
    ensures Words32(|words|, v) == words
  {
    NumberRoundTrip(words);
  }

  /** A group shifted into the low bits; the shift leaves room for it. */
  function PushGroup(acc: U32, base: nat, group: nat): (r: U32)
    requires (base == 256 || base == 32) && group < base
    ensures r == acc * base % WRAP + group
  {
    assert acc * base % WRAP == (acc * base / WRAP * -(WRAP / base) + acc) * base;
    acc * base % WRAP + group
  }

  /** The inner loop: whole words leave the accumulator. */
  method DrainWords(ghost data: Bytes, acc: U32, bits: nat, words: seq<Word>) returns (words': seq<Word>, bits': nat)
    requires Pending(data, words, acc, bits)
    ensures bits' < 5 && Pending(data, words', acc, bits')
  {
    words', bits' := words, bits;
    while bits' >= 5
      invariant Pending(data, words', acc, bits')
    {
      bits' := bits' - 5;
      PendingWord(data, words', acc, bits');
      words' := words' + [acc / Pow2(bits') % 32];
    }
  }

  /** The words pushed from a 32-bit accumulator are those of the padded number. */
  method PushWords(data: Bytes) returns (words: seq<Word>)
    ensures words == ToWords(data)
  {
    words := [];
    var acc: U32, bits: nat := 0, 0;
    for i := 0 to |data|
      invariant bits < 5 && Pending(data[..i], words, acc, bits)
    {
      words, acc, bits := PushByte(data[..i], data[i], words, acc, bits);
      assert data[..i] + [data[i]] == data[..i + 1];
    }
    assert data[..|data|] == data;
    words := Finish(data, words, acc, bits);
  }

  /** One byte enters the accumulator and its whole words leave. */
  method PushByte(ghost done: Bytes, b: Byte, words: seq<Word>, acc: U32, bits: nat)
    returns (words': seq<Word>, acc': U32, bits': nat)
    requires bits < 5 && Pending(done, words, acc, bits)
    ensures bits' < 5 && Pending(done + [b], words', acc', bits')
  {
    PendingByte(done, b, words, acc, bits);
    acc' := PushGroup(acc, 256, b);
    words', bits' := DrainWords(done + [b], acc', bits + 8, words);
  }

  /** The pending bits, if any, fill a last word. */
  method Finish(ghost data: Bytes, words: seq<Word>, acc: U32, bits: nat) returns (words': seq<Word>)
    requires bits < 5 && Pending(data, words, acc, bits)
    ensures words' == ToWords(data)
  {
    if bits > 0 {
      LastWord(data, words, acc, bits);
      words' := words + [FinalWord(acc, 5 - bits)];
    } else {
      words' := words;
      Spelled(words, Padded(data));
    }
  }

  /** The words so far are the bytes so far followed by the `bits` low bits of the accumulator. */
  ghost predicate Waiting(words: seq<Word>, data: Bytes, acc: nat, bits: nat) {
    && 8 * |data| + bits == 5 * |words|
    && FromWords32(words) == FromBE(data) * Pow2(bits) + acc % Pow2(bits)
  }

  lemma WaitingWord(words: seq<Word>, w: Word, data: Bytes, acc: nat, bits: nat)
    requires Waiting(words, data, acc, bits) && bits < 8
    ensures Waiting(words + [w], data, acc * 32 % WRAP + w, bits + 5)
  {
    Five(0);
    ShiftIn(acc, w, 32, 5, bits);
    Five(bits);
    assert (words + [w])[..|words|] == words;
    Absorb(FromBE(data), Pow2(bits), acc % Pow2(bits), 32, w);
  }

  lemma Absorb(v: nat, p: nat, a: nat, b: nat, w: nat)
    ensures (v * p + a) * b + w == v * (b * p) + (a * b + w)
  {
    Distribute(b, v * p, a);
    assert v * p * b == v * (b * p);
  }

  lemma WaitingByte(words: seq<Word>, data: Bytes, acc: nat, bits: nat)
    requires Waiting(words, data, acc, bits + 8)
    ensures Waiting(words, data + [acc / Pow2(bits) % 256], acc, bits)
  {
    Five(0);
    TakeOut(acc, 256, 8, bits);
    Five(bits);
    var b := acc / Pow2(bits) % 256;
    assert (data + [b])[..|data|] == data;
    Regroup(FromBE(data), b, 256, Pow2(bits));
  }

  method DrainBytes(ghost words: seq<Word>, acc: U32, bits: nat, data: Bytes) returns (data': Bytes, bits': nat)
    requires Waiting(words, data, acc, bits)
    ensures bits' < 8 && Waiting(words, data', acc, bits')
  {
    data', bits' := data, bits;
    while bits' >= 8
      invariant Waiting(words, data', acc, bits')
    {
      bits' := bits' - 8;
      WaitingByte(words, data', acc, bits');
      data' := data' + [acc / Pow2(bits') % 256];
    }
  }

  lemma Remaining(v: nat, p: nat, q: nat, acc: nat)
    requires p > 0 && v == q * p + acc % p
    ensures v / p == q && v % p == acc % p
  {
    DivMod(acc, p);
    QuotientUnique(v, p, q, acc % p);
  }

  lemma LeftoverBits(m: nat, n: nat, bits: nat)
    requires 8 * n + bits == 5 * m && bits < 8
    ensures Leftover(m) == bits && 5 * m / 8 == n
  {
  }

  lemma Drained(words: seq<Word>, data: Bytes, acc: nat, bits: nat)
    requires Waiting(words, data, acc, bits) && bits < 8
    ensures FromWords(words) == if bits >= 5 || acc % Pow2(bits) != 0 then Err(InvalidPadding) else Ok(data)
  {
    Remaining(FromWords32(words), Pow2(bits), FromBE(data), acc);
    FromBERoundTrip(data);
    LeftoverBits(|words|, |data|, bits);
  }

  /** The bytes pushed from a 32-bit accumulator, and the padding rule on what is left in it. */
  method PushBytes(words: seq<Word>) returns (r: Result<Bytes, PaddingError>)
    ensures r == FromWords(words)
  {
    var data: Bytes := [];
    var acc: U32, bits: nat := 0, 0;
    for i := 0 to |words|
      invariant bits < 8 && Waiting(words[..i], data, acc, bits)
    {
      WaitingWord(words[..i], words[i], data, acc, bits);
      assert words[..i] + [words[i]] == words[..i + 1];
      acc := PushGroup(acc, 32, words[i]);
      data, bits := DrainBytes(words[..i + 1], acc, bits + 5, data);
    }
    assert words[..|words|] == words;
    Drained(words, data, acc, bits);
    return if bits >= 5 || acc % Pow2(bits) != 0 then Err(InvalidPadding) else Ok(data);
  }
}
