/** No nonzero bech32 word shifts to a word within 88 shifts, so the checksum sees every pair of changed words. */
module Bech32Pairs {
  import opened LinearCode
  import opened Bech32Checksum

  function Up(c: bv32): bv32 { (c & 0x1ef7bdef) << 1 }

  function Wrap(c: bv32): bv32 { ((c & 0x21084210) >> 4) ^ ((c & 0x21084210) >> 1) }

  /** Every word of the register times the generator of the field of 32 elements. */
  function Scale(c: bv32): bv32 { ((c & 0x1ef7bdef) << 1) ^ ((c & 0x21084210) >> 4) ^ ((c & 0x21084210) >> 1) }

  lemma UpLinear()
    ensures Linear(Xor, Up)
  {
  }

  lemma WrapLinear()
    ensures Linear(Xor, Wrap)
  {
  }

  lemma ScaleSums()
    ensures Sums(Xor, Scale, Up, Wrap)
  {
  }

  lemma ScaleLinear()
    ensures Linear(Xor, Scale)
  {
    XorGroup();
    UpLinear();
    WrapLinear();
    ScaleSums();
    SumLinear(Xor, 0, Scale, Up, Wrap);
  }

  lemma LowScales(c: bv32)
    requires c < 0x40000000
    ensures Low(Scale(c)) == Scale(Low(c))
  {
  }

  lemma OutScales(c: bv32)
    requires c < 0x40000000
    ensures Out(Scale(c)) == Scale(Out(c))
  {
  }

  lemma ScaleWord(c: bv32)
    requires c < 0x40000000
    ensures Scale(c) < 0x40000000 && (Scale(c) < 32 <==> c < 32)
  {
  }

  lemma ScaleIsScalar()
    ensures Scalar(Bech32(), Scale)
  {
    forall c: bv32 | Fits(c)
      ensures Low(Scale(c)) == Scale(Low(c)) && Out(Scale(c)) == Scale(Out(c))
      ensures Fits(Scale(c)) && (IsWord(Scale(c)) <==> IsWord(c))
    {
      LowScales(c);
      OutScales(c);
      ScaleWord(c);
    }
    ScaleLinear();
    ShiftSums();
    SumCommutes(Xor, Shift, Low, Out, Scale, Fits);
  }

  lemma Leap0()
    ensures Leap(Bech32(), 0x00000001, 0x1cc20dda)
  {
    assert Shift(0x00000001) == 0x00000020 && Shift(0x00000020) == 0x00000400 && Shift(0x00000400) == 0x00008000;
    assert Shift(0x00008000) == 0x00100000 && Shift(0x00100000) == 0x02000000 && Shift(0x02000000) == 0x3b6a57b2;
    assert Shift(0x3b6a57b2) == 0x1fd7e966 && Shift(0x1fd7e966) == 0x0424df38 && Shift(0x0424df38) == 0x22cb696d;
    assert Shift(0x22cb696d) == 0x081318a1 && Shift(0x081318a1) == 0x1cc20dda;
  }

  lemma Clear11(e: bv32, d: nat)
    requires Clear(Bech32(), e, d, 0x00000001)
    ensures Clear(Bech32(), e, d + 11, 0x1cc20dda)
  {
    Leap0();
    LeapClear(Bech32(), e, d, 0x00000001, 0x1cc20dda);
  }

  lemma Clear22(e: bv32, d: nat)
    requires Clear(Bech32(), e, d, 0x1cc20dda)
    ensures Clear(Bech32(), e, d + 11, 0x12673600)
  {
    LeapClear(Bech32(), e, d, 0x1cc20dda, 0x12673600);
  }

  lemma Clear33(e: bv32, d: nat)
    requires Clear(Bech32(), e, d, 0x12673600)
    ensures Clear(Bech32(), e, d + 11, 0x12386a75)
  {
    LeapClear(Bech32(), e, d, 0x12673600, 0x12386a75);
  }

  lemma Clear44(e: bv32, d: nat)
    requires Clear(Bech32(), e, d, 0x12386a75)
    ensures Clear(Bech32(), e, d + 11, 0x07e14528)
  {
    LeapClear(Bech32(), e, d, 0x12386a75, 0x07e14528);
  }

  lemma Clear55(e: bv32, d: nat)
    requires Clear(Bech32(), e, d, 0x07e14528)
    ensures Clear(Bech32(), e, d + 11, 0x3c27ac05)
  {
    LeapClear(Bech32(), e, d, 0x07e14528, 0x3c27ac05);
  }

  lemma Clear66(e: bv32, d: nat)
    requires Clear(Bech32(), e, d, 0x3c27ac05)
    ensures Clear(Bech32(), e, d + 11, 0x185c0278)
  {
    LeapClear(Bech32(), e, d, 0x3c27ac05, 0x185c0278);
  }

  lemma Clear77(e: bv32, d: nat)
    requires Clear(Bech32(), e, d, 0x185c0278)
    ensures Clear(Bech32(), e, d + 11, 0x390aa560)
  {
    LeapClear(Bech32(), e, d, 0x185c0278, 0x390aa560);
  }

  lemma Clear88(e: bv32, d: nat)
    requires Clear(Bech32(), e, d, 0x390aa560)
    ensures Clear(Bech32(), e, d + 11, 0x145b223e)
  {
    LeapClear(Bech32(), e, d, 0x390aa560, 0x145b223e);
  }

  lemma OneNeverWord(e: bv32)
    requires e == 1
    ensures NeverWord(Bech32(), e, 88)
  {
    Clear11(e, 0);
    Clear22(e, 11);
    Clear33(e, 22);
    Clear44(e, 33);
    Clear55(e, 44);
    Clear66(e, 55);
    Clear77(e, 66);
    Clear88(e, 77);
  }

  /** The powers of the generator: all nonzero words. */
  function Power(k: nat): bv32 { if k == 0 then 1 else Scale(Power(k - 1)) }

  lemma PowersTo10()
    ensures Power(0) == 1 && Power(1) == 2 && Power(2) == 4 && Power(3) == 8 && Power(4) == 16 && Power(5) == 9
    ensures Power(6) == 18 && Power(7) == 13 && Power(8) == 26 && Power(9) == 29 && Power(10) == 19
  {
  }

  lemma PowersTo20()
    ensures Power(11) == 15 && Power(12) == 30 && Power(13) == 21 && Power(14) == 3 && Power(15) == 6
    ensures Power(16) == 12 && Power(17) == 24 && Power(18) == 25 && Power(19) == 27 && Power(20) == 31
  {
    PowersTo10();
  }

  lemma PowersTo30()
    ensures Power(21) == 23 && Power(22) == 7 && Power(23) == 14 && Power(24) == 28 && Power(25) == 17
    ensures Power(26) == 11 && Power(27) == 22 && Power(28) == 5 && Power(29) == 10 && Power(30) == 20
  {
    PowersTo20();
  }

  lemma EveryWordIsAPower(e: bv32) returns (k: nat)
    requires 0 < e < 32
    ensures Power(k) == e
  {
    PowersTo10();
    PowersTo20();
    PowersTo30();
    k := if e == 1 then 0 else if e == 2 then 1 else if e == 4 then 2 else if e == 8 then 3 else if e == 16 then 4
         else if e == 9 then 5 else if e == 18 then 6 else if e == 13 then 7 else if e == 26 then 8
         else if e == 29 then 9 else if e == 19 then 10 else if e == 15 then 11 else if e == 30 then 12
         else if e == 21 then 13 else if e == 3 then 14 else if e == 6 then 15 else if e == 12 then 16
         else if e == 24 then 17 else if e == 25 then 18 else if e == 27 then 19 else if e == 31 then 20
         else if e == 23 then 21 else if e == 7 then 22 else if e == 14 then 23 else if e == 28 then 24
         else if e == 17 then 25 else if e == 11 then 26 else if e == 22 then 27 else if e == 5 then 28
         else if e == 10 then 29 else 30;
  }

  lemma {:induction false} PowersNeverWord(k: nat)
    ensures Fits(Power(k)) && NeverWord(Bech32(), Power(k), 88)
  {
    if k == 0 {
      OneNeverWord(Power(k));
    } else {
      PowersNeverWord(k - 1);
      ShiftFaithful();
      ScaleIsScalar();
      ScaledNeverWord(Bech32(), Scale, Power(k - 1), 88);
    }
  }

  lemma Bech32SeesPairs()
    ensures SeesPairs(Bech32(), 88)
  {
    forall e: bv32, d: nat | IsWord(e) && e != 0 && 1 <= d <= 88 ensures !IsWord(Shifted(Bech32(), e, d)) {
      var k := EveryWordIsAPower(e);
      PowersNeverWord(k);
    }
  }
}
