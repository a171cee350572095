/** What the MuSig2 hashes are taken over: key coefficients, the nonce coefficient and the challenge, described by the
    positions of the bytes that are hashed, and the sums they weigh. */
module Musig2Hashes {
  import opened ByteStrings
  import opened Arithmetic
  import opened Musig2

  // ----- key coefficients -----

  ghost predicate ArePoints(c: Curve, keys: seq<nat>) { forall i :: 0 <= i < |keys| ==> c.IsPoint(keys[i]) }

  /** The encoded keys, 33 bytes each, in order. */
  ghost predicate IsKeyList(c: Curve, keys: seq<nat>, list: Bytes) {
    |list| == 33 * |keys| && forall j :: 0 <= j < |keys| ==> Slot(list, j) == c.encode(keys[j])
  }

  ghost function Slot(list: Bytes, j: nat): Bytes
    requires 33 * j + 33 <= |list|
  {
    list[33 * j..33 * j + 33]
  }

  /** Key `k` is the first that differs from key 0. */
  ghost predicate IsSecond(keys: seq<nat>, k: int) {
    0 <= k < |keys| && keys[k] != keys[0] && forall j :: 0 <= j < k ==> keys[j] == keys[0]
  }

  lemma {:induction false} KeyListIs(c: Curve, keys: seq<nat>)
    requires c.Valid() && ArePoints(c, keys)
    ensures IsKeyList(c, keys, KeyList(c, keys))
  {
    if keys != [] {
      var head, rest, tail := c.encode(keys[0]), keys[1..], KeyList(c, keys[1..]);
      KeyListIs(c, rest);
      assert c.IsPoint(keys[0]);
      SlotsShift(head, tail, |rest|);
      forall j | 0 <= j < |keys| ensures Slot(head + tail, j) == c.encode(keys[j]) {
        if j > 0 { assert Slot(tail, j - 1) == c.encode(rest[j - 1]); }
      }
    }
  }

  lemma SlotsShift(head: Bytes, tail: Bytes, n: nat)
    requires |head| == 33 && |tail| == 33 * n
    ensures Slot(head + tail, 0) == head
    ensures forall j: nat :: 0 < j <= n ==> Slot(head + tail, j) == Slot(tail, j - 1)
  {
  }

  /** Only one string lists the keys. */
  lemma KeyListUnique(c: Curve, keys: seq<nat>, a: Bytes, b: Bytes)
    requires IsKeyList(c, keys, a) && IsKeyList(c, keys, b)
    ensures a == b
  {
    forall k | 0 <= k < |a| ensures a[k] == b[k] {
      var j := k / 33;
      assert Slot(a, j) == Slot(b, j);
      assert a[k] == Slot(a, j)[k - 33 * j] && b[k] == Slot(b, j)[k - 33 * j];
    }
  }

  lemma EncodeInjective(c: Curve, p: nat, q: nat)
    requires c.Valid() && c.IsPoint(p) && c.IsPoint(q)
    ensures c.encode(p) == c.encode(q) <==> p == q
  {
    assert c.decode(c.encode(p)) == Some(p) && c.decode(c.encode(q)) == Some(q);
  }

  lemma {:induction false} SecondKeyFrom(c: Curve, keys: seq<nat>, i: nat)
    requires c.Valid() && ArePoints(c, keys) && i <= |keys| && 0 < |keys|
    requires forall j :: 0 <= j < i ==> keys[j] == keys[0]
    ensures forall k :: IsSecond(keys, k) ==> SecondKey(c, keys, i) == c.encode(keys[k])
    ensures (forall k :: !IsSecond(keys, k)) ==> SecondKey(c, keys, i) == Zeros(33)
    decreases |keys| - i
  {
    if i < |keys| {
      EncodeInjective(c, keys[i], keys[0]);
      if keys[i] == keys[0] {
        SecondKeyFrom(c, keys, i + 1);
      } else {
        assert IsSecond(keys, i);
        forall k | IsSecond(keys, k) ensures k == i {}
      }
    }
  }

  /** A signer with the first differing key has coefficient 1; every other coefficient is the hash of the list hash and
      the signer's key, reduced modulo the order. */
  lemma KeyCoefficientIs(c: Curve, keys: seq<nat>, i: nat, list: Bytes)
    requires c.Valid() && ArePoints(c, keys) && i < |keys| && IsKeyList(c, keys, list)
    ensures (exists k :: IsSecond(keys, k) && keys[i] == keys[k]) ==> KeyCoefficient(c, keys, i) == 1
    ensures (forall k :: IsSecond(keys, k) ==> keys[i] != keys[k]) ==>
            KeyCoefficient(c, keys, i) ==
            FromBE(c.tagged("KeyAgg coefficient", c.tagged("KeyAgg list", list) + c.encode(keys[i]))) % c.n
  {
    KeyListIs(c, keys);
    KeyListUnique(c, keys, list, KeyList(c, keys));
    SecondKeyFrom(c, keys, 0);
    assert c.IsPoint(keys[i]) && c.encode(keys[i]) != Zeros(33);
    forall k | IsSecond(keys, k) ensures c.encode(keys[i]) == c.encode(keys[k]) <==> keys[i] == keys[k] {
      EncodeInjective(c, keys[i], keys[k]);
    }
  }

  /** Two key lists with one list hash are equal, or the two listed strings differ and have one hash. */
  lemma ListHashBinds(c: Curve, xs: seq<nat>, ys: seq<nat>, a: Bytes, b: Bytes)
    requires c.Valid() && ArePoints(c, xs) && ArePoints(c, ys) && IsKeyList(c, xs, a) && IsKeyList(c, ys, b)
    requires c.tagged("KeyAgg list", a) == c.tagged("KeyAgg list", b)
    ensures xs == ys || (a != b && c.tagged("KeyAgg list", a) == c.tagged("KeyAgg list", b))
  {
    if a == b {
      assert |xs| == |ys|;
      forall j | 0 <= j < |xs| ensures xs[j] == ys[j] {
        assert Slot(a, j) == c.encode(xs[j]) && Slot(b, j) == c.encode(ys[j]);
        EncodeInjective(c, xs[j], ys[j]);
      }
    }
  }

  // ----- the aggregate key -----

  /** Key `j` times its coefficient, before reduction. */
  ghost function Weighted(c: Curve, keys: seq<nat>, j: nat): nat
    requires c.n > 1 && j < |keys|
  {
    keys[j] * KeyCoefficient(c, keys, j)
  }

  /** The sum of the first `k` weighted keys, before reduction. */
  ghost function WeightTotal(c: Curve, keys: seq<nat>, k: nat): nat
    requires c.n > 1 && k <= |keys|
  {
    if k == 0 then 0 else WeightTotal(c, keys, k - 1) + Weighted(c, keys, k - 1)
  }

  /** No key among the first `k` is weighted to infinity. */
  ghost predicate WeightsFinite(c: Curve, keys: seq<nat>, k: nat)
    requires c.n > 1 && k <= |keys|
  {
    forall j :: 0 <= j < k ==> Weighted(c, keys, j) % c.n != 0
  }

  lemma WeightedStep(c: Curve, keys: seq<nat>, k: nat, w: nat)
    requires c.n > 1 && k < |keys| && w == Weighted(c, keys, k)
    ensures var sum := WeightedSum(c, keys, k);
            WeightedSum(c, keys, k + 1).Ok? <==> sum.Ok? && w % c.n != 0
    ensures var sum := WeightedSum(c, keys, k);
            WeightedSum(c, keys, k + 1).Ok? ==> WeightedSum(c, keys, k + 1).value == (sum.value + w % c.n) % c.n
  {
    assert c.Mul(keys[k], KeyCoefficient(c, keys, k)) == w % c.n;
  }

  lemma {:induction false} WeightedSumIs(c: Curve, keys: seq<nat>, k: nat)
    requires c.n > 1 && k <= |keys|
    ensures WeightedSum(c, keys, k).Ok? <==> WeightsFinite(c, keys, k)
    ensures WeightedSum(c, keys, k).Ok? ==> WeightedSum(c, keys, k).value == WeightTotal(c, keys, k) % c.n
  {
    if k > 0 {
      WeightedSumIs(c, keys, k - 1);
      var w := Weighted(c, keys, k - 1);
      WeightedStep(c, keys, k - 1, w);
      ModSum(WeightTotal(c, keys, k - 1), w, c.n);
    }
  }

  lemma ModSum(a: nat, b: nat, n: nat)
    requires n > 0
    ensures (a % n + b % n) % n == (a + b) % n
    ensures (a % n + b) % n == (a + b) % n
  {
    CongMod(n, a);
    CongMod(n, b);
    CongAdd(n, a % n, a, b % n, b);
    CongAdd(n, a % n, a, b, b);
  }

  /** The aggregate key is the sum of the keys times their coefficients; it exists exactly when neither a weighted key
      nor the sum is infinity. */
  lemma PlainKeyIs(c: Curve, keys: seq<nat>)
    requires c.n > 1
    ensures AggregatePlainKey(c, keys).Ok? <==>
            WeightsFinite(c, keys, |keys|) && WeightTotal(c, keys, |keys|) % c.n != 0
    ensures AggregatePlainKey(c, keys).Ok? ==>
            AggregatePlainKey(c, keys).value == WeightTotal(c, keys, |keys|) % c.n
  {
    WeightedSumIs(c, keys, |keys|);
  }

  /** A plain tweak is added to the key, an x-only tweak to the even key of the same x coordinate; it is refused exactly
      when it is not below the order or the sum is infinity. */
  lemma TweakIs(c: Curve, x: KeyContext, t: Tweak)
    requires InRange(c, x)
    ensures var base := if t.xonly then c.Even(x.key) else x.key;
            var r := ApplyTweak(c, x, t);
            && (r.Ok? <==> FromBE(t.value) < c.n && (base + FromBE(t.value)) % c.n != 0)
            && (r.Ok? ==> r.value.key == (base + FromBE(t.value)) % c.n)
            && (r.Ok? ==> (r.value.gaccNegative != x.gaccNegative <==> t.xonly && c.odd(x.key)))
  {
    if t.xonly && c.odd(x.key) { assert c.Even(x.key) == c.n - x.key; }
  }

  // ----- the session -----

  /** A public nonce holds two encoded points. */
  ghost predicate Decodes(c: Curve, nonce: Bytes) {
    |nonce| == 66 && c.decode(nonce[..33]).Some? && c.decode(nonce[33..]).Some?
  }

  ghost predicate AllDecode(c: Curve, nonces: seq<Bytes>, k: nat)
    requires k <= |nonces|
  {
    forall j :: 0 <= j < k ==> Decodes(c, nonces[j])
  }

  /** The first or the second point of a public nonce. */
  ghost function PointOf(c: Curve, nonce: Bytes, second: bool): nat
    requires Decodes(c, nonce)
  {
    if second then c.decode(nonce[33..]).value else c.decode(nonce[..33]).value
  }

  /** The sum of the first or of the second points, before reduction. */
  ghost function NonceTotal(c: Curve, nonces: seq<Bytes>, k: nat, second: bool): nat
    requires k <= |nonces| && AllDecode(c, nonces, k)
  {
    if k == 0 then 0 else NonceTotal(c, nonces, k - 1, second) + PointOf(c, nonces[k - 1], second)
  }

  lemma SumNoncesStep(c: Curve, nonces: seq<Bytes>, k: nat)
    requires c.n > 1 && k < |nonces| && forall m | m in nonces :: |m| == 66
    ensures SumNonces(c, nonces, k + 1).Ok? <==> SumNonces(c, nonces, k).Ok? && Decodes(c, nonces[k])
    ensures SumNonces(c, nonces, k + 1).Ok? ==>
            var sum, next := SumNonces(c, nonces, k).value, SumNonces(c, nonces, k + 1).value;
            && next.0 == (sum.0 + PointOf(c, nonces[k], false)) % c.n
            && next.1 == (sum.1 + PointOf(c, nonces[k], true)) % c.n
  {
    assert nonces[k] in nonces;
  }

  lemma {:induction false} SumNoncesIs(c: Curve, nonces: seq<Bytes>, k: nat)
    requires c.n > 1 && k <= |nonces| && forall m | m in nonces :: |m| == 66
    ensures SumNonces(c, nonces, k).Ok? <==> AllDecode(c, nonces, k)
    ensures SumNonces(c, nonces, k).Ok? ==>
            var sum := SumNonces(c, nonces, k).value;
            && sum.0 == NonceTotal(c, nonces, k, false) % c.n && sum.1 == NonceTotal(c, nonces, k, true) % c.n
  {
    if k > 0 {
      SumNoncesIs(c, nonces, k - 1);
      SumNoncesStep(c, nonces, k - 1);
      if SumNonces(c, nonces, k).Ok? {
        ModSum(NonceTotal(c, nonces, k - 1, false), PointOf(c, nonces[k - 1], false), c.n);
        ModSum(NonceTotal(c, nonces, k - 1, true), PointOf(c, nonces[k - 1], true), c.n);
      }
    }
  }

  /** The 33 bytes of a sum of points, all zero for infinity. */
  ghost predicate EncodesSum(c: Curve, b: Bytes, sum: nat) { b == if sum == 0 then Zeros(33) else c.encode(sum) }

  /** What is hashed in a session.  The nonce coefficient hashes the two encoded nonce sums, the x coordinate of the
      tweaked key and the message; the challenge hashes the x coordinates of the final nonce and of the key, and the
      message.  The final nonce combines the sums with the coefficient, the generator standing in for infinity. */
  lemma SessionHashes(c: Curve, keys: seq<nat>, nonces: seq<Bytes>, tweaks: seq<Tweak>, message: Bytes)
    returns (aggregate: Bytes, r1: nat, r2: nat)
    requires c.Valid() && WellTyped(c, keys, nonces, tweaks) && SharedSession(c, keys, nonces, tweaks, message).Ok?
    ensures AllDecode(c, nonces, |nonces|) && KeyContextOf(c, keys, tweaks).Ok?
    ensures r1 == NonceTotal(c, nonces, |nonces|, false) % c.n && r2 == NonceTotal(c, nonces, |nonces|, true) % c.n
    ensures |aggregate| == 66 && EncodesSum(c, aggregate[..33], r1) && EncodesSum(c, aggregate[33..], r2)
    ensures var s := SharedSession(c, keys, nonces, tweaks, message).value;
            Hashed(c, s, KeyContextOf(c, keys, tweaks).value.key, aggregate, r1, r2, message)
  {
    AggregateWidth(c, nonces);
    SumNoncesIs(c, nonces, |nonces|);
    aggregate := AggregatePublicNonces(c, nonces).value;
    r1, r2 := SumNonces(c, nonces, |nonces|).value.0, SumNonces(c, nonces, |nonces|).value.1;
    AggregateHalves(c, nonces);
    SessionFields(c, keys, aggregate, tweaks, message);
  }

  ghost predicate Hashed(c: Curve, s: Session, key: nat, aggregate: Bytes, r1: nat, r2: nat, message: Bytes)
    requires c.n > 1
  {
    && s.coefficient == FromBE(c.tagged("MuSig/noncecoef", aggregate + c.xonly(key) + message)) % c.n
    && s.combined == (r1 + (r2 * s.coefficient) % c.n) % c.n
    && s.finalNonce == (if s.combined == 0 then 1 else s.combined)
    && s.challenge == FromBE(c.tagged("BIP0340/challenge", c.xonly(s.finalNonce) + c.xonly(key) + message)) % c.n
  }

  lemma SessionFields(c: Curve, keys: seq<nat>, aggregate: Bytes, tweaks: seq<Tweak>, message: Bytes)
    requires c.n > 1 && |aggregate| == 66 && SessionOf(c, keys, aggregate, tweaks, message).Ok?
    ensures KeyContextOf(c, keys, tweaks).Ok?
    ensures DecodeExtended(c, aggregate[..33]).Ok? && DecodeExtended(c, aggregate[33..]).Ok?
    ensures Hashed(c, SessionOf(c, keys, aggregate, tweaks, message).value, KeyContextOf(c, keys, tweaks).value.key,
                   aggregate, DecodeExtended(c, aggregate[..33]).value, DecodeExtended(c, aggregate[33..]).value,
                     message)
  {
  }

  lemma AggregateHalves(c: Curve, nonces: seq<Bytes>)
    requires c.Valid() && (forall m | m in nonces :: |m| == 66) && AggregatePublicNonces(c, nonces).Ok?
    ensures var b, sum := AggregatePublicNonces(c, nonces).value, SumNonces(c, nonces, |nonces|).value;
            |b| == 66 && EncodesSum(c, b[..33], sum.0) && EncodesSum(c, b[33..], sum.1)
  {
    NonceSumInRange(c, nonces, |nonces|);
    var sum := SumNonces(c, nonces, |nonces|).value;
    var first, second := EncodeExtended(c, sum.0), EncodeExtended(c, sum.1);
    assert |first| == 33 && |second| == 33;
    assert (first + second)[..33] == first && (first + second)[33..] == second;
  }

  // ----- acceptance -----

  /** A session exists exactly within the bounds, when the key context exists and every public nonce decodes. */
  lemma SessionExistsIff(c: Curve, keys: seq<nat>, nonces: seq<Bytes>, tweaks: seq<Tweak>, message: Bytes)
    requires c.Valid() && WellTyped(c, keys, nonces, tweaks)
    ensures SharedSession(c, keys, nonces, tweaks, message).Ok? <==>
            && 0 < |keys| <= 64 && |nonces| == |keys| && |tweaks| <= 8 && |message| <= 4096
            && KeyContextOf(c, keys, tweaks).Ok? && AllDecode(c, nonces, |nonces|)
  {
    AggregateWidth(c, nonces);
    SumNoncesIs(c, nonces, |nonces|);
  }

  /** A partial signature equals the signed nonce of its signer plus the challenge times the signed weighted key. */
  ghost predicate IsPartial(c: Curve, s: Session, keys: seq<nat>, nonces: seq<Bytes>, i: nat, value: nat)
    requires c.n > 1 && i < |keys| == |nonces|
  {
    && value < c.n && Decodes(c, nonces[i])
    && Cong(c.n, value, Form(s, PointOf(c, nonces[i], false), PointOf(c, nonces[i], true), Weighted(c, keys, i)))
  }

  /** A partial signature is accepted exactly in an existing session, for a signer of it, with that value. */
  lemma PartialAcceptedIff(c: Curve, keys: seq<nat>, nonces: seq<Bytes>, tweaks: seq<Tweak>, message: Bytes, i: nat,
                           partial: Bytes)
    requires c.Valid() && WellTyped(c, keys, nonces, tweaks)
    ensures VerifyPartial(c, keys, nonces, tweaks, i, message, partial).Ok? <==>
            && SharedSession(c, keys, nonces, tweaks, message).Ok? && i < |keys| == |nonces|
            && IsPartial(c, SharedSession(c, keys, nonces, tweaks, message).value, keys, nonces, i, FromBE(partial))
  {
    SessionExistsIff(c, keys, nonces, tweaks, message);
    AggregateWidth(c, nonces);
    if SharedSession(c, keys, nonces, tweaks, message).Ok? && i < |keys| {
      var s := SharedSession(c, keys, nonces, tweaks, message).value;
      assert nonces[i] in nonces;
      AcceptsExpected(c, keys, nonces, tweaks, message, i, partial);
      ExpectedIff(c, s, keys, nonces, i, FromBE(partial));
    }
  }

  lemma AcceptsExpected(c: Curve, keys: seq<nat>, nonces: seq<Bytes>, tweaks: seq<Tweak>, message: Bytes, i: nat,
                        partial: Bytes)
    requires c.Valid() && WellTyped(c, keys, nonces, tweaks) && SharedSession(c, keys, nonces, tweaks, message).Ok?
    requires i < |keys| == |nonces| && |nonces[i]| == 66 && Decodes(c, nonces[i])
    ensures VerifyPartial(c, keys, nonces, tweaks, i, message, partial).Ok? <==>
            && FromBE(partial) < c.n
            && FromBE(partial) == Expected(c, SharedSession(c, keys, nonces, tweaks, message).value,
                                           (PointOf(c, nonces[i], false), PointOf(c, nonces[i], true)), keys[i],
                                           KeyCoefficient(c, keys, i))
  {
    AggregateWidth(c, nonces);
  }

  lemma ExpectedIff(c: Curve, s: Session, keys: seq<nat>, nonces: seq<Bytes>, i: nat, value: nat)
    requires c.n > 1 && i < |keys| == |nonces| && Decodes(c, nonces[i])
    ensures IsPartial(c, s, keys, nonces, i, value) <==>
            && value < c.n
            && value == Expected(c, s, (PointOf(c, nonces[i], false), PointOf(c, nonces[i], true)), keys[i],
                                 KeyCoefficient(c, keys, i))
  {
    var r1, r2, w := PointOf(c, nonces[i], false), PointOf(c, nonces[i], true), Weighted(c, keys, i);
    var e := Expected(c, s, (r1, r2), keys[i], KeyCoefficient(c, keys, i));
    ExpectedIsForm(c, s, (r1, r2), keys[i], KeyCoefficient(c, keys, i));
    CongMod(c.n, w);
    FormCong(c.n, s, r1, r2, c.Mul(keys[i], KeyCoefficient(c, keys, i)), r1, r2, w);
    SameResidue(c.n, value, e, Form(s, r1, r2, w));
  }

  lemma SameResidue(n: nat, value: nat, e: nat, form: int)
    requires n > 0 && e < n && Cong(n, e, form)
    ensures value < n && Cong(n, value, form) <==> value < n && value == e
  {
    if value < n && Cong(n, value, form) { CongEqual(n, value, e); }
  }
}
