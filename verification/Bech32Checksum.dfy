/** The bech32 checksum register: a linear, injective shift over 30 bits. */
module Bech32Checksum {
  import opened LinearCode

  function Xor(a: bv32, b: bv32): bv32 { a ^ b }

  /** `generator` if the low bit of `x` is set. */
  function Tap(x: bv32, generator: bv32): bv32 { if x & 1 == 1 then generator else 0 }

  // The register shifted left by one word, then with each generator folded in.

  function Low(c: bv32): bv32 { (c & 0x1ffffff) << 5 }

  function Tap0(c: bv32): bv32 { Tap(c >> 25, 0x3b6a57b2) }

  function Tap1(c: bv32): bv32 { Tap(c >> 26, 0x26508e6d) }

  function Tap2(c: bv32): bv32 { Tap(c >> 27, 0x1ea119fa) }

  function Tap3(c: bv32): bv32 { Tap(c >> 28, 0x3d4233dd) }

  function Tap4(c: bv32): bv32 { Tap(c >> 29, 0x2a1462b3) }

  function Out1(c: bv32): bv32 { Tap0(c) ^ Tap1(c) }

  function Out2(c: bv32): bv32 { Tap0(c) ^ Tap1(c) ^ Tap2(c) }

  function Out3(c: bv32): bv32 { Tap0(c) ^ Tap1(c) ^ Tap2(c) ^ Tap3(c) }

  function Out(c: bv32): bv32 { Tap0(c) ^ Tap1(c) ^ Tap2(c) ^ Tap3(c) ^ Tap4(c) }

  /** The register after one zero word. */
  function Shift(c: bv32): bv32 { Low(c) ^ Out(c) }

  // ----- the shift is linear -----

  lemma XorCommutes(a: bv32, b: bv32)
    ensures Xor(a, b) == Xor(b, a)
  {
  }

  lemma XorAssociates(a: bv32, b: bv32, c: bv32)
    ensures Xor(Xor(a, b), c) == Xor(a, Xor(b, c))
  {
    assert (a ^ b) ^ c == a ^ (b ^ c);
  }

  lemma XorCancels(a: bv32)
    ensures Xor(a, 0) == a && Xor(a, a) == 0
  {
  }

  lemma XorGroup()
    ensures Group(Xor, 0)
  {
    forall a, b ensures Xor(a, b) == Xor(b, a) { XorCommutes(a, b); }
    forall a, b, c ensures Xor(Xor(a, b), c) == Xor(a, Xor(b, c)) { XorAssociates(a, b, c); }
    forall a ensures Xor(a, 0) == a && Xor(a, a) == 0 { XorCancels(a); }
  }

  lemma LowLinear()
    ensures Linear(Xor, Low)
  {
  }

  lemma Tap0Linear()
    ensures Linear(Xor, Tap0)
  {
  }

  lemma Tap1Linear()
    ensures Linear(Xor, Tap1)
  {
  }

  lemma Tap2Linear()
    ensures Linear(Xor, Tap2)
  {
  }

  lemma Tap3Linear()
    ensures Linear(Xor, Tap3)
  {
  }

  lemma Tap4Linear()
    ensures Linear(Xor, Tap4)
  {
  }

  lemma Out1Sums()
    ensures Sums(Xor, Out1, Tap0, Tap1)
  {
  }

  lemma Out2Sums()
    ensures Sums(Xor, Out2, Out1, Tap2)
  {
  }

  lemma Out3Sums()
    ensures Sums(Xor, Out3, Out2, Tap3)
  {
  }

  lemma OutSums()
    ensures Sums(Xor, Out, Out3, Tap4)
  {
  }

  lemma ShiftSums()
    ensures Sums(Xor, Shift, Low, Out)
  {
  }

  lemma ShiftLinear()
    ensures Linear(Xor, Shift)
  {
    XorGroup();
    Tap0Linear();
    Tap1Linear();
    Out1Sums();
    SumLinear(Xor, 0, Out1, Tap0, Tap1);
    Tap2Linear();
    Out2Sums();
    SumLinear(Xor, 0, Out2, Out1, Tap2);
    Tap3Linear();
    Out3Sums();
    SumLinear(Xor, 0, Out3, Out2, Tap3);
    Tap4Linear();
    OutSums();
    SumLinear(Xor, 0, Out, Out3, Tap4);
    LowLinear();
    ShiftSums();
    SumLinear(Xor, 0, Shift, Low, Out);
  }

  // ----- and loses nothing -----

  function Fits(c: bv32): bool { c < 0x40000000 }

  function IsWord(w: bv32): bool { w < 32 }

  /** The BIP-173 code. */
  function Bech32(): Code<bv32> { Code(0, Xor, Shift, Fits, IsWord) }

  lemma ShiftBound(c: bv32)
    ensures Shift(c) < 0x40000000
  {
  }

  lemma ShiftInjective(c: bv32)
    requires c < 0x40000000 && Shift(c) == 0
    ensures c == 0
  {
  }

  lemma ShiftFaithful()
    ensures Faithful(Bech32())
  {
    forall c: bv32 | Fits(c) ensures Fits(Shift(c)) && (Shift(c) == 0 ==> c == 0) {
      ShiftBound(c);
      if Shift(c) == 0 { ShiftInjective(c); }
    }
  }

  lemma XorCloses()
    ensures Closed(Xor, 0, Fits) && Closed(Xor, 0, IsWord)
  {
  }

  lemma Bech32Valid()
    ensures Valid(Bech32())
  {
    XorGroup();
    ShiftLinear();
    ShiftFaithful();
    XorCloses();
  }

  // ----- bursts -----

  /** Registers that hold `n` words or fewer. */
  predicate Short(n: nat, c: bv32) {
    match n
    case 0 => c == 0
    case 1 => c < 0x20
    case 2 => c < 0x400
    case 3 => c < 0x8000
    case 4 => c < 0x100000
    case 5 => c < 0x2000000
    case _ => c < 0x40000000
  }

  /** While the register is short, a word is appended below it. */
  lemma ShortStep(c: bv32, w: bv32)
    requires c < 0x2000000 && w < 32
    ensures Shift(c) ^ w == 0 ==> c == 0 && w == 0
    ensures c == 0 ==> Shift(c) ^ w < 0x20
    ensures c < 0x20 ==> Shift(c) ^ w < 0x400
    ensures c < 0x400 ==> Shift(c) ^ w < 0x8000
    ensures c < 0x8000 ==> Shift(c) ^ w < 0x100000
    ensures c < 0x100000 ==> Shift(c) ^ w < 0x2000000
    ensures Shift(c) ^ w < 0x40000000
  {
  }

  lemma Bech32Bursts()
    ensures SeesBursts(Bech32(), 6)
  {
    forall n: nat, c: bv32, w: bv32 {:trigger Short(n, c), IsWord(w)} | n < 6 && Short(n, c) && IsWord(w)
      ensures Short(n + 1, Xor(Shift(c), w)) && (Xor(Shift(c), w) == 0 ==> c == 0 && w == 0)
    {
      ShortStep(c, w);
    }
    StacksSeesBursts(Bech32(), Short, 6);
  }
}
