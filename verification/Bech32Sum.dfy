/** Checksum words: computing them, and why no other six words verify. */
module Bech32Sum {
  import opened LinearCode
  import opened Bech32Checksum
  import opened Bech32Pairs
  import opened Bech32Words

  // ----- words as registers -----

  function Bit(b: bool, value: bv32): bv32 { if b then value else 0 }

  function Bits(b0: bool, b1: bool, b2: bool, b3: bool, b4: bool): bv32 {
    Bit(b0, 1) ^ Bit(b1, 2) ^ Bit(b2, 4) ^ Bit(b3, 8) ^ Bit(b4, 16)
  }

  function Digit2(b: bool, value: nat): nat { if b then value else 0 }

  /** A 5-bit number as a register. */
  function Register(w: Word): bv32 {
    Bits(w % 2 == 1, w / 2 % 2 == 1, w / 4 % 2 == 1, w / 8 % 2 == 1, w / 16 % 2 == 1)
  }

  /** The low five bits of a register as a number. */
  function Number(x: bv32): Word {
    Digit2(x & 1 == 1, 1) + Digit2(x & 2 == 2, 2) + Digit2(x & 4 == 4, 4) + Digit2(x & 8 == 8, 8)
      + Digit2(x & 16 == 16, 16)
  }

  lemma BitsOf(b0: bool, b1: bool, b2: bool, b3: bool, b4: bool)
    ensures var x := Bits(b0, b1, b2, b3, b4);
            && x < 32 && (x & 1 == 1) == b0 && (x & 2 == 2) == b1 && (x & 4 == 4) == b2 && (x & 8 == 8) == b3
            && (x & 16 == 16) == b4
  {
  }

  lemma BitsBack(x: bv32)
    ensures Bits(x & 1 == 1, x & 2 == 2, x & 4 == 4, x & 8 == 8, x & 16 == 16) == x & 31
  {
  }

  lemma DigitsOf(w: Word)
    ensures w == Digit2(w % 2 == 1, 1) + Digit2(w / 2 % 2 == 1, 2) + Digit2(w / 4 % 2 == 1, 4)
              + Digit2(w / 8 % 2 == 1, 8) + Digit2(w / 16 % 2 == 1, 16)
  {
  }

  lemma DigitsBack(b0: bool, b1: bool, b2: bool, b3: bool, b4: bool)
    ensures var w := Digit2(b0, 1) + Digit2(b1, 2) + Digit2(b2, 4) + Digit2(b3, 8) + Digit2(b4, 16);
            && (w % 2 == 1) == b0 && (w / 2 % 2 == 1) == b1 && (w / 4 % 2 == 1) == b2 && (w / 8 % 2 == 1) == b3
            && (w / 16 % 2 == 1) == b4
  {
  }

  lemma NumberOfRegister(w: Word)
    ensures IsWord(Register(w)) && Number(Register(w)) == w
  {
    BitsOf(w % 2 == 1, w / 2 % 2 == 1, w / 4 % 2 == 1, w / 8 % 2 == 1, w / 16 % 2 == 1);
    DigitsOf(w);
  }

  lemma RegisterOfNumber(x: bv32)
    ensures Register(Number(x)) == x & 31
  {
    DigitsBack(x & 1 == 1, x & 2 == 2, x & 4 == 4, x & 8 == 8, x & 16 == 16);
    BitsBack(x);
  }

  function Registers(words: seq<Word>): (r: seq<bv32>)
    ensures |r| == |words| && forall i :: 0 <= i < |r| ==> r[i] == Register(words[i])
  {
    seq(|words|, i requires 0 <= i < |words| => Register(words[i]))
  }

  lemma RegistersAppend(x: seq<Word>, y: seq<Word>)
    ensures Registers(x + y) == Registers(x) + Registers(y)
  {
  }

  lemma RegistersAreWords(words: seq<Word>)
    ensures AreWords(Bech32(), Registers(words))
  {
    forall i | 0 <= i < |words| ensures IsWord(Registers(words)[i]) { NumberOfRegister(words[i]); }
  }

  lemma RegistersInjective(x: seq<Word>, y: seq<Word>)
    requires Registers(x) == Registers(y)
    ensures x == y
  {
    forall i | 0 <= i < |x| ensures x[i] == y[i] {
      assert Register(x[i]) == Registers(x)[i] == Registers(y)[i] == Register(y[i]);
      NumberOfRegister(x[i]);
      NumberOfRegister(y[i]);
    }
  }

  // ----- the checksum -----

  /** The register after the expanded prefix and the words, started at one. */
  function Polymod(values: seq<Word>): bv32 { Fold(Bech32(), 1, Registers(values)) }

  /** The loop over the words; each step's five generator tests are `Shift`. */
  method RunPolymod(values: seq<Word>) returns (c: bv32)
    ensures c == Polymod(values)
  {
    c := 1;
    for i := 0 to |values|
      invariant c == Polymod(values[..i])
    {
      assert values[..i + 1] == values[..i] + [values[i]];
      RegistersAppend(values[..i], [values[i]]);
      assert Registers(values[..i + 1])[..i] == Registers(values[..i]);
      c := Xor(Shift(c), Register(values[i]));
    }
    assert values[..|values|] == values;
  }

  function SixZeros(): seq<Word> { [0, 0, 0, 0, 0, 0] }

  /** The low five bits of each register. */
  function Numbers(r: seq<bv32>): (words: seq<Word>)
    ensures |words| == |r| && forall i :: 0 <= i < |r| ==> words[i] == Number(r[i])
  {
    seq(|r|, i requires 0 <= i < |r| => Number(r[i]))
  }

  /** The six words of a 30-bit register, most significant first. */
  function SixWords(p: bv32): seq<Word> { Numbers([p >> 25, p >> 20, p >> 15, p >> 10, p >> 5, p]) }

  /** What the checksum words must add to the register. */
  function Target(values: seq<Word>): bv32 { Polymod(values + SixZeros()) ^ 1 }

  function Checksum(values: seq<Word>): (six: seq<Word>)
    ensures |six| == 6
  {
    SixWords(Target(values))
  }

  lemma ShortShift(c: bv32, w: bv32)
    requires c < 0x2000000
    ensures Xor(Shift(c), w) == (c << 5) ^ w
  {
  }

  lemma ClimbOne(x: bv32, w: bv32, y: bv32)
    requires x < 0x2000000 && (x << 5) ^ w == y
    ensures Climbs(x, w, y)
  {
    ShortShift(x, w);
  }

  ghost predicate Climbs(x: bv32, w: bv32, y: bv32) { x < 0x2000000 && y == Xor(Shift(x), w) }

  lemma FoldClimbs(w0: bv32, w1: bv32, w2: bv32, w3: bv32, w4: bv32, w5: bv32, r1: bv32, r2: bv32, r3: bv32, r4: bv32,
                   r5: bv32, r6: bv32)
    requires Climbs(0, w0, r1) && Climbs(r1, w1, r2) && Climbs(r2, w2, r3)
    requires Climbs(r3, w3, r4) && Climbs(r4, w4, r5) && Climbs(r5, w5, r6)
    ensures Fold(Bech32(), 0, [w0, w1, w2, w3, w4, w5]) == r6
  {
    FoldSixWords(Bech32(), w0, w1, w2, w3, w4, w5, r1, r2, r3, r4, r5, r6);
  }

  lemma Climb0(p: bv32)
    requires p < 0x40000000
    ensures Climbs(0, (p >> 25) & 31, p >> 25)
  {
    assert (p >> 25) & 31 == p >> 25;
    ClimbOne(0, (p >> 25) & 31, p >> 25);
  }

  lemma Climb1(p: bv32)
    requires p < 0x40000000
    ensures Climbs(p >> 25, (p >> 20) & 31, p >> 20)
  {
    assert p >> 25 < 0x2000000 && ((p >> 25) << 5) ^ ((p >> 20) & 31) == p >> 20;
    ClimbOne(p >> 25, (p >> 20) & 31, p >> 20);
  }

  lemma Climb2(p: bv32)
    requires p < 0x40000000
    ensures Climbs(p >> 20, (p >> 15) & 31, p >> 15)
  {
    assert p >> 20 < 0x2000000 && ((p >> 20) << 5) ^ ((p >> 15) & 31) == p >> 15;
    ClimbOne(p >> 20, (p >> 15) & 31, p >> 15);
  }

  lemma Climb3(p: bv32)
    requires p < 0x40000000
    ensures Climbs(p >> 15, (p >> 10) & 31, p >> 10)
  {
    assert p >> 15 < 0x2000000 && ((p >> 15) << 5) ^ ((p >> 10) & 31) == p >> 10;
    ClimbOne(p >> 15, (p >> 10) & 31, p >> 10);
  }

  lemma Climb4(p: bv32)
    requires p < 0x40000000
    ensures Climbs(p >> 10, (p >> 5) & 31, p >> 5)
  {
    assert p >> 10 < 0x2000000 && ((p >> 10) << 5) ^ ((p >> 5) & 31) == p >> 5;
    ClimbOne(p >> 10, (p >> 5) & 31, p >> 5);
  }

  lemma Climb5(p: bv32)
    requires p < 0x40000000
    ensures Climbs(p >> 5, p & 31, p)
  {
    assert p >> 5 < 0x2000000 && ((p >> 5) << 5) ^ (p & 31) == p;
    ClimbOne(p >> 5, p & 31, p);
  }

  /** While the register is short, the words of `p` rebuild `p` from the top. */
  lemma FoldSix(p: bv32)
    requires p < 0x40000000
    ensures Fold(Bech32(), 0, [(p >> 25) & 31, (p >> 20) & 31, (p >> 15) & 31, (p >> 10) & 31, (p >> 5) & 31, p & 31])
            == p
  {
    Climb0(p);
    Climb1(p);
    Climb2(p);
    Climb3(p);
    Climb4(p);
    Climb5(p);
    FoldClimbs((p >> 25) & 31, (p >> 20) & 31, (p >> 15) & 31, (p >> 10) & 31, (p >> 5) & 31, p & 31,
               p >> 25, p >> 20, p >> 15, p >> 10, p >> 5, p);
  }

  lemma RegistersOfNumbers(r: seq<bv32>, i: nat, x: bv32)
    requires i < |r| && r[i] == x
    ensures Registers(Numbers(r))[i] == x & 31
  {
    RegisterOfNumber(x);
  }

  lemma SixRegisters(p: bv32)
    ensures Registers(SixWords(p))
            == [(p >> 25) & 31, (p >> 20) & 31, (p >> 15) & 31, (p >> 10) & 31, (p >> 5) & 31, p & 31]
  {
    var r := [p >> 25, p >> 20, p >> 15, p >> 10, p >> 5, p];
    RegistersOfNumbers(r, 0, p >> 25);
    RegistersOfNumbers(r, 1, p >> 20);
    RegistersOfNumbers(r, 2, p >> 15);
    RegistersOfNumbers(r, 3, p >> 10);
    RegistersOfNumbers(r, 4, p >> 5);
    RegistersOfNumbers(r, 5, p);
    IsSix(Registers(SixWords(p)), (p >> 25) & 31, (p >> 20) & 31, (p >> 15) & 31, (p >> 10) & 31, (p >> 5) & 31,
          p & 31);
  }

  // ----- what verifies -----

  lemma PolymodAppend(x: seq<Word>, y: seq<Word>)
    ensures Polymod(x + y) == Fold(Bech32(), Polymod(x), Registers(y))
  {
    RegistersAppend(x, y);
    FoldAppend(Bech32(), 1, Registers(x), Registers(y));
  }

  lemma ZeroRegisters()
    ensures AllZero(Bech32(), Registers(SixZeros()))
  {
  }

  lemma TargetFits(values: seq<Word>)
    ensures Fits(Target(values))
  {
    RegistersAreWords(values + SixZeros());
    Bech32Valid();
    FoldFits(Bech32(), 1, Registers(values + SixZeros()));
    FlipFits(Polymod(values + SixZeros()));
  }

  lemma FlipFits(p: bv32)
    requires Fits(p)
    ensures Fits(p ^ 1)
  {
  }

  lemma SixFold(q: bv32)
    requires Fits(q)
    ensures Fold(Bech32(), 0, Registers(SixWords(q))) == q
  {
    SixRegisters(q);
    FoldSix(q);
  }

  lemma PolymodOffset(values: seq<Word>, six: seq<Word>)
    requires |six| == 6
    ensures Polymod(values + six) == Xor(Polymod(values + SixZeros()), Fold(Bech32(), 0, Registers(six)))
  {
    PolymodAppend(values, SixZeros());
    PolymodAppend(values, six);
    Bech32Valid();
    ZeroRegisters();
    FoldOffset(Bech32(), Polymod(values), Registers(SixZeros()), Registers(six));
  }

  lemma Completes(values: seq<Word>, q: bv32, six: seq<Word>)
    requires q == Target(values) && Fits(q) && six == SixWords(q)
    ensures Polymod(values + six) == 1
  {
    PolymodOffset(values, six);
    SixFold(q);
    Cancels(Polymod(values + SixZeros()), q, Fold(Bech32(), 0, Registers(six)));
  }

  lemma Cancels(p: bv32, q: bv32, f: bv32)
    requires q == p ^ 1 && f == q
    ensures Xor(p, f) == 1
  {
  }

  /** The six checksum words bring the register to one. */
  lemma ChecksumVerifies(values: seq<Word>)
    ensures Polymod(values + Checksum(values)) == 1
  {
    TargetFits(values);
    Completes(values, Target(values), Checksum(values));
  }

  /** Two sequences after the same values that differ within six consecutive words cannot both verify. */
  lemma BurstSeen(values: seq<Word>, x: seq<Word>, y: seq<Word>, i: nat, j: nat)
    requires AgreeOutside(x, y, i, j) && j - i <= 6 && Polymod(values + x) == Polymod(values + y)
    ensures x == y
  {
    PolymodAppend(values, x);
    PolymodAppend(values, y);
    Bech32Valid();
    Bech32Bursts();
    RegistersAreWords(x);
    RegistersAreWords(y);
    BurstRegisters(x, y, i, j);
    BurstDetected(Bech32(), 6, Polymod(values), Registers(x), Registers(y), i, j);
    RegistersInjective(x, y);
  }

  lemma BurstRegisters(x: seq<Word>, y: seq<Word>, i: nat, j: nat)
    requires AgreeOutside(x, y, i, j)
    ensures AgreeOutside(Registers(x), Registers(y), i, j)
  {
    assert Registers(x)[..i] == Registers(x[..i]) && Registers(y)[..i] == Registers(y[..i]);
    assert Registers(x)[j..] == Registers(x[j..]) && Registers(y)[j..] == Registers(y[j..]);
  }

  /** Nor can two sequences that differ in one or two words, anywhere in 89 words. */
  lemma PairSeen(values: seq<Word>, x: seq<Word>, y: seq<Word>, i: nat, j: nat)
    requires AgreeExcept(x, y, i, j) && i < j < |x| <= 89 && Polymod(values + x) == Polymod(values + y)
    ensures x == y
  {
    PolymodAppend(values, x);
    PolymodAppend(values, y);
    Bech32Valid();
    Bech32SeesPairs();
    RegistersAreWords(x);
    RegistersAreWords(y);
    PairRegisters(x, y, i, j);
    PairDetected(Bech32(), 88, Polymod(values), Registers(x), Registers(y), i, j);
    RegistersInjective(x, y);
  }

  lemma PairRegisters(x: seq<Word>, y: seq<Word>, i: nat, j: nat)
    requires AgreeExcept(x, y, i, j)
    ensures AgreeExcept(Registers(x), Registers(y), i, j)
  {
  }

  /** No other six words verify. */
  lemma ChecksumUnique(values: seq<Word>, six: seq<Word>)
    requires |six| == 6
    ensures Polymod(values + six) == 1 <==> six == Checksum(values)
  {
    ChecksumVerifies(values);
    if Polymod(values + six) == 1 { BurstSeen(values, six, Checksum(values), 0, 6); }
  }
}
