/** MuSig2 key aggregation, tweaking, partial verification and aggregation.

    The curve is modelled by its group of residues modulo the order `n`: a point is its discrete
    logarithm, the generator is 1 and infinity is 0, so every group law below is proved.  Encodings,
    parity and the tagged hash are arbitrary functions subject only to `Curve.Valid`. */
module Musig2 {
  import opened ByteStrings
  import opened Arithmetic

  const MAX_MUSIG_KEYS := 64
  const MAX_MUSIG_TWEAKS := 8
  const MAX_MUSIG_MESSAGE_BYTES := 4096

  datatype Error = Bounds | Invalid | Crypto

  datatype Tweak = Tweak(value: Bytes, xonly: bool)

  datatype Curve = Curve(
    n: nat,
    odd: nat -> bool,
    xonly: nat -> Bytes,
    lift: Bytes -> Option<nat>,
    encode: nat -> Bytes,
    decode: Bytes -> Option<nat>,
    tagged: (string, Bytes) -> Bytes)
  {
    /** A finite point. */
    predicate IsPoint(p: nat) { 0 < p < n }

    /** Encodings are faithful, negation flips the parity, and lifting an x coordinate gives the even point. */
    ghost predicate Valid() {
      n > 1 && DecodesPoints() && Encodes() && FlipsParity() && Lifts()
    }

    ghost predicate DecodesPoints() { forall b :: decode(b).Some? ==> IsPoint(decode(b).value) }

    ghost predicate Encodes() {
      forall p: nat | IsPoint(p) :: |encode(p)| == 33 && encode(p) != Zeros(33) && decode(encode(p)) == Some(p)
    }

    ghost predicate FlipsParity() { forall p: nat | IsPoint(p) :: odd(n - p) == !odd(p) }

    ghost predicate Lifts() {
      forall p: nat | IsPoint(p) :: |xonly(p)| == 32 && xonly(n - p) == xonly(p) && lift(xonly(p)) == Some(Even(p))
    }

    function Add(p: nat, q: nat): nat requires n > 0 { (p + q) % n }

    function Mul(p: nat, s: nat): nat requires n > 0 { (p * s) % n }

    function Neg(p: nat): nat requires p < n { if p == 0 then 0 else n - p }

    function NegIf(b: bool, p: nat): nat requires p < n { if b then Neg(p) else p }

    /** The representative of plus or minus `p` with even y coordinate. */
    function Even(p: nat): nat requires IsPoint(p) { NegIf(odd(p), p) }

    /** A tagged hash reduced to a scalar. */
    function Scalar(tag: string, input: Bytes): nat requires n > 0 { FromBE(tagged(tag, input)) % n }
  }

  // ----- key aggregation -----

  /** The first key that differs from the first one, or the zero string. */
  function SecondKey(c: Curve, keys: seq<nat>, i: nat): Bytes
    requires 0 < |keys| && i <= |keys|
    decreases |keys| - i
  {
    if i == |keys| then Zeros(33)
    else if c.encode(keys[i]) != c.encode(keys[0]) then c.encode(keys[i])
    else SecondKey(c, keys, i + 1)
  }

  function KeyList(c: Curve, keys: seq<nat>): Bytes {
    if keys == [] then [] else c.encode(keys[0]) + KeyList(c, keys[1..])
  }

  function KeyCoefficient(c: Curve, keys: seq<nat>, i: nat): (a: nat)
    requires c.n > 1 && i < |keys|
  {
    var key := c.encode(keys[i]);
    if key == SecondKey(c, keys, 0) then 1
    else c.Scalar("KeyAgg coefficient", c.tagged("KeyAgg list", KeyList(c, keys)) + key)
  }

  /** The weighted sum of the first `k` keys, refusing a weighted key that is infinity. */
  function WeightedSum(c: Curve, keys: seq<nat>, k: nat): Result<nat, Error>
    requires c.n > 1 && k <= |keys|
  {
    if k == 0 then Ok(0)
    else
      var sum :- WeightedSum(c, keys, k - 1);
      var weighted := c.Mul(keys[k - 1], KeyCoefficient(c, keys, k - 1));
      if weighted == 0 then Err(Crypto) else Ok(c.Add(sum, weighted))
  }

  function AggregatePlainKey(c: Curve, keys: seq<nat>): Result<nat, Error>
    requires c.n > 1
  {
    var sum :- WeightedSum(c, keys, |keys|);
    if sum == 0 then Err(Crypto) else Ok(sum)
  }

  // ----- tweaks -----

  datatype KeyContext = KeyContext(key: nat, gaccNegative: bool, tacc: nat)

  predicate InRange(c: Curve, x: KeyContext) { c.IsPoint(x.key) && x.tacc < c.n }

  function ApplyTweak(c: Curve, x: KeyContext, t: Tweak): (r: Result<KeyContext, Error>)
    requires InRange(c, x)
    ensures r.Ok? ==> InRange(c, r.value)
  {
    if FromBE(t.value) >= c.n then Err(Crypto)
    else
      var flip := t.xonly && c.odd(x.key);
      var key := c.Add(c.NegIf(flip, x.key), FromBE(t.value));
      if key == 0 then Err(Crypto)
      else Ok(KeyContext(key, x.gaccNegative != flip, c.Add(c.NegIf(flip, x.tacc), FromBE(t.value))))
  }

  function ApplyTweaks(c: Curve, x: KeyContext, tweaks: seq<Tweak>): (r: Result<KeyContext, Error>)
    requires InRange(c, x)
    ensures r.Ok? ==> InRange(c, r.value)
    decreases |tweaks|
  {
    if tweaks == [] then Ok(x)
    else
      var y :- ApplyTweaks(c, x, tweaks[..|tweaks| - 1]);
      ApplyTweak(c, y, tweaks[|tweaks| - 1])
  }

  function KeyContextOf(c: Curve, keys: seq<nat>, tweaks: seq<Tweak>): (r: Result<KeyContext, Error>)
    requires c.n > 1
    ensures r.Ok? ==> InRange(c, r.value)
  {
    if keys == [] || |keys| > MAX_MUSIG_KEYS || |tweaks| > MAX_MUSIG_TWEAKS then Err(Bounds)
    else
      var q :- AggregatePlainKey(c, keys);
      SumInRange(c, keys, |keys|);
      ApplyTweaks(c, KeyContext(q, false, 0), tweaks)
  }

  lemma {:induction false} SumInRange(c: Curve, keys: seq<nat>, k: nat)
    requires c.n > 1 && k <= |keys|
    ensures WeightedSum(c, keys, k).Ok? ==> WeightedSum(c, keys, k).value < c.n
  {
  }

  /** The value of a sign bit. */
  function Sign(negative: bool): int { if negative then -1 else 1 }

  lemma NegCong(c: Curve, b: bool, p: nat)
    requires p < c.n
    ensures Cong(c.n, c.NegIf(b, p), Sign(b) * p)
  {
    if b && p != 0 { CongWitness(c.n, c.n - p, Sign(b) * p, 1); }
  }

  /** The relation the tweak loop keeps: Q = gacc * Q0 + tacc * G. */
  ghost predicate Tweaked(c: Curve, q0: nat, x: KeyContext)
    requires c.n > 0
  {
    Cong(c.n, x.key, Sign(x.gaccNegative) * q0 + x.tacc)
  }

  lemma TweakStep(c: Curve, q0: nat, x: KeyContext, t: Tweak)
    requires InRange(c, x) && Tweaked(c, q0, x) && ApplyTweak(c, x, t).Ok?
    ensures Tweaked(c, q0, ApplyTweak(c, x, t).value)
  {
    var n, v := c.n, FromBE(t.value);
    var flip := t.xonly && c.odd(x.key);
    var y := ApplyTweak(c, x, t).value;
    var key, tacc, s := c.NegIf(flip, x.key), c.NegIf(flip, x.tacc), Sign(flip);
    NegCong(c, flip, x.key);
    NegCong(c, flip, x.tacc);
    CongMul(n, s, x.key, Sign(x.gaccNegative) * q0 + x.tacc);
    assert s * (Sign(x.gaccNegative) * q0 + x.tacc) == Sign(y.gaccNegative) * q0 + s * x.tacc;
    CongMod(n, key + v);
    CongMod(n, tacc + v);
    CongAdd(n, key, Sign(y.gaccNegative) * q0 + s * x.tacc, v, v);
    CongAdd(n, tacc, s * x.tacc, v, v);
    CongAdd(n, Sign(y.gaccNegative) * q0, Sign(y.gaccNegative) * q0, tacc + v, s * x.tacc + v);
    CongAdd(n, Sign(y.gaccNegative) * q0, Sign(y.gaccNegative) * q0, y.tacc, tacc + v);
  }

  /** For every tweak list the tweaked key is gacc * Q0 + tacc * G. */
  lemma {:induction false} TweakInvariant(c: Curve, q0: nat, tweaks: seq<Tweak>)
    requires c.IsPoint(q0) && ApplyTweaks(c, KeyContext(q0, false, 0), tweaks).Ok?
    ensures Tweaked(c, q0, ApplyTweaks(c, KeyContext(q0, false, 0), tweaks).value)
  {
    if tweaks != [] {
      var front := tweaks[..|tweaks| - 1];
      TweakInvariant(c, q0, front);
      TweakStep(c, q0, ApplyTweaks(c, KeyContext(q0, false, 0), front).value, tweaks[|tweaks| - 1]);
    }
  }

  // ----- nonces and the session -----

  /** Decodes the two points of a 66-byte public nonce. */
  function DecodeNonce(c: Curve, nonce: Bytes): (r: Result<(nat, nat), Error>)
    requires |nonce| == 66
    ensures r.Ok? ==> c.decode(nonce[..33]) == Some(r.value.0) && c.decode(nonce[33..]) == Some(r.value.1)
  {
    match (c.decode(nonce[..33]), c.decode(nonce[33..]))
    case (Some(first), Some(second)) => Ok((first, second))
    case _ => Err(Crypto)
  }

  /** The sums of the first and of the second points of the first `k` public nonces. */
  function SumNonces(c: Curve, nonces: seq<Bytes>, k: nat): Result<(nat, nat), Error>
    requires c.n > 1 && k <= |nonces| && forall m | m in nonces :: |m| == 66
  {
    if k == 0 then Ok((0, 0))
    else
      var sum :- SumNonces(c, nonces, k - 1);
      var points :- DecodeNonce(c, nonces[k - 1]);
      Ok((c.Add(sum.0, points.0), c.Add(sum.1, points.1)))
  }

  function EncodeExtended(c: Curve, p: nat): Bytes { if p == 0 then Zeros(33) else c.encode(p) }

  function DecodeExtended(c: Curve, b: Bytes): Result<nat, Error> {
    if b == Zeros(33) then Ok(0)
    else match c.decode(b) case Some(p) => Ok(p) case None => Err(Crypto)
  }

  function AggregatePublicNonces(c: Curve, nonces: seq<Bytes>): Result<Bytes, Error>
    requires c.n > 1 && forall m | m in nonces :: |m| == 66
  {
    if nonces == [] || |nonces| > MAX_MUSIG_KEYS then Err(Bounds)
    else
      var sum :- SumNonces(c, nonces, |nonces|);
      Ok(EncodeExtended(c, sum.0) + EncodeExtended(c, sum.1))
  }

  datatype Session = Session(
    context: KeyContext, coefficient: nat, combined: nat, finalNonce: nat, challenge: nat, nonceOdd: bool, keyOdd: bool)

  function SessionOf(c: Curve, keys: seq<nat>, aggregate: Bytes, tweaks: seq<Tweak>,
                     message: Bytes): Result<Session, Error>
    requires c.n > 1 && |aggregate| == 66
  {
    if keys == [] || |keys| > MAX_MUSIG_KEYS || |tweaks| > MAX_MUSIG_TWEAKS || |message| > MAX_MUSIG_MESSAGE_BYTES
    then Err(Bounds)
    else
      var context :- KeyContextOf(c, keys, tweaks);
      var first :- DecodeExtended(c, aggregate[..33]);
      var second :- DecodeExtended(c, aggregate[33..]);
      var b := c.Scalar("MuSig/noncecoef", aggregate + c.xonly(context.key) + message);
      var combined := c.Add(first, c.Mul(second, b));
      var finalNonce := if combined == 0 then 1 else combined;
      var e := c.Scalar("BIP0340/challenge", c.xonly(finalNonce) + c.xonly(context.key) + message);
      Ok(Session(context, b, combined, finalNonce, e, c.odd(finalNonce), c.odd(context.key)))
  }

  // ----- partial signatures -----

  /** The point a partial signature of signer `i` must equal. */
  function Expected(c: Curve, s: Session, nonce: (nat, nat), key: nat, a: nat): nat
    requires c.n > 1
  {
    var signerNonce := c.NegIf(s.nonceOdd, c.Add(nonce.0, c.Mul(nonce.1, s.coefficient)));
    var signerKey := c.NegIf(s.keyOdd != s.context.gaccNegative, c.Mul(c.Mul(key, a), s.challenge));
    c.Add(signerNonce, signerKey)
  }

  function VerifyPartialWithAggregate(c: Curve, keys: seq<nat>, signerNonce: Bytes, aggregate: Bytes,
                                      tweaks: seq<Tweak>, i: nat, message: Bytes, partial: Bytes): Result<(), Error>
    requires c.n > 1 && |signerNonce| == 66 && |aggregate| == 66
  {
    if keys == [] || |keys| > MAX_MUSIG_KEYS || i >= |keys| then Err(Bounds)
    else if |tweaks| > MAX_MUSIG_TWEAKS || |message| > MAX_MUSIG_MESSAGE_BYTES then Err(Bounds)
    else if FromBE(partial) >= c.n then Err(Crypto)
    else
      var session :- SessionOf(c, keys, aggregate, tweaks, message);
      var nonce :- DecodeNonce(c, signerNonce);
      if FromBE(partial) != Expected(c, session, nonce, keys[i], KeyCoefficient(c, keys, i)) then Err(Crypto)
      else Ok(())
  }

  predicate SessionBounds(keys: seq<nat>, nonces: seq<Bytes>, tweaks: seq<Tweak>, message: Bytes) {
    && 0 < |keys| <= MAX_MUSIG_KEYS && |keys| == |nonces|
    && |tweaks| <= MAX_MUSIG_TWEAKS && |message| <= MAX_MUSIG_MESSAGE_BYTES
  }

  /** What the callers' array types guarantee. */
  predicate WellTyped(c: Curve, keys: seq<nat>, nonces: seq<Bytes>, tweaks: seq<Tweak>) {
    && (forall key | key in keys :: c.IsPoint(key))
    && (forall m | m in nonces :: |m| == 66)
    && (forall t | t in tweaks :: |t.value| == 32)
  }

  function VerifyPartial(c: Curve, keys: seq<nat>, nonces: seq<Bytes>, tweaks: seq<Tweak>, i: nat,
                         message: Bytes, partial: Bytes): Result<(), Error>
    requires c.Valid() && WellTyped(c, keys, nonces, tweaks)
  {
    if !SessionBounds(keys, nonces, tweaks, message) then Err(Bounds)
    else if i >= |keys| then Err(Bounds)
    else if FromBE(partial) >= c.n then Err(Crypto)
    else
      var aggregate :- AggregatePublicNonces(c, nonces);
      AggregateWidth(c, nonces);
      VerifyPartialWithAggregate(c, keys, nonces[i], aggregate, tweaks, i, message, partial)
  }

  lemma {:induction false} NonceSumInRange(c: Curve, nonces: seq<Bytes>, k: nat)
    requires c.n > 1 && k <= |nonces| && forall m | m in nonces :: |m| == 66
    ensures SumNonces(c, nonces, k).Ok? ==>
            SumNonces(c, nonces, k).value.0 < c.n && SumNonces(c, nonces, k).value.1 < c.n
  {
  }

  /** Serialising the aggregate nonce and reading it back gives the two sums. */
  lemma AggregateWidth(c: Curve, nonces: seq<Bytes>)
    requires c.Valid() && forall m | m in nonces :: |m| == 66
    ensures var r := AggregatePublicNonces(c, nonces);
            r.Ok? ==> && |r.value| == 66
                      && SumNonces(c, nonces, |nonces|).Ok?
                      && DecodeExtended(c, r.value[..33]) == Ok(SumNonces(c, nonces, |nonces|).value.0)
                      && DecodeExtended(c, r.value[33..]) == Ok(SumNonces(c, nonces, |nonces|).value.1)
  {
    if AggregatePublicNonces(c, nonces).Ok? {
      NonceSumInRange(c, nonces, |nonces|);
      var sum := SumNonces(c, nonces, |nonces|).value;
      var first, second := EncodeExtended(c, sum.0), EncodeExtended(c, sum.1);
      assert (first + second)[..33] == first && (first + second)[33..] == second;
    }
  }

  // ----- aggregation of partial signatures -----

  function SumPartials(c: Curve, partials: seq<Bytes>, k: nat): nat
    requires c.n > 1 && k <= |partials|
  {
    if k == 0 then 0 else c.Add(SumPartials(c, partials, k - 1), FromBE(partials[k - 1]))
  }

  /** Schnorr verification: R = s*G - e*P must be finite, even, and have the signature's x coordinate. */
  predicate VerifySchnorr(c: Curve, key: Bytes, message: Bytes, r: Bytes, s: nat)
    requires c.n > 1
  {
    && s < c.n
    && c.lift(key).Some?
    && var e := c.Scalar("BIP0340/challenge", r + key + message);
       var point := (s - e * c.lift(key).value) % c.n;
       point != 0 && !c.odd(point) && c.xonly(point) == r
  }

  predicate AllVerify(c: Curve, keys: seq<nat>, nonces: seq<Bytes>, tweaks: seq<Tweak>, message: Bytes,
                      partials: seq<Bytes>)
    requires c.Valid() && WellTyped(c, keys, nonces, tweaks)
  {
    forall i | 0 <= i < |partials| :: VerifyPartial(c, keys, nonces, tweaks, i, message, partials[i]).Ok?
  }

  /** The session every signer of an accepted call works in. */
  function SharedSession(c: Curve, keys: seq<nat>, nonces: seq<Bytes>, tweaks: seq<Tweak>,
                         message: Bytes): Result<Session, Error>
    requires c.Valid() && WellTyped(c, keys, nonces, tweaks)
  {
    if !SessionBounds(keys, nonces, tweaks, message) then Err(Bounds)
    else
      var aggregate :- AggregatePublicNonces(c, nonces);
      AggregateWidth(c, nonces);
      SessionOf(c, keys, aggregate, tweaks, message)
  }

  /** The aggregated scalar: the sum of the partials plus the tweak correction. */
  function AggregateScalar(c: Curve, s: Session, partials: seq<Bytes>): nat
    requires c.n > 1
  {
    c.Add(SumPartials(c, partials, |partials|), c.NegIf(s.keyOdd, c.Mul(s.challenge, s.context.tacc)))
  }

  function AggregatePartials(c: Curve, keys: seq<nat>, nonces: seq<Bytes>, tweaks: seq<Tweak>, message: Bytes,
                             partials: seq<Bytes>): Result<(Bytes, nat), Error>
    requires c.Valid() && WellTyped(c, keys, nonces, tweaks)
  {
    if !SessionBounds(keys, nonces, tweaks, message) || |partials| != |keys| then Err(Bounds)
    else if !AllVerify(c, keys, nonces, tweaks, message, partials) then Err(Crypto)
    else
      var session :- SharedSession(c, keys, nonces, tweaks, message);
      var r := c.xonly(session.finalNonce);
      var s := AggregateScalar(c, session, partials);
      if VerifySchnorr(c, c.xonly(session.context.key), message, r, s) then Ok((r, s)) else Err(Crypto)
  }

  // ----- completeness -----

  /** The linear form every partial signature and every sum of them takes:
      nonceSign * (R1 + R2 * b) + keySign * W * e. */
  ghost function Form(s: Session, r1: int, r2: int, w: int): int {
    Sign(s.nonceOdd) * (r1 + r2 * s.coefficient) + Sign(s.keyOdd != s.context.gaccNegative) * (w * s.challenge)
  }

  lemma FormAdd(s: Session, r1: int, r2: int, w: int, r1': int, r2': int, w': int)
    ensures Form(s, r1 + r1', r2 + r2', w + w') == Form(s, r1, r2, w) + Form(s, r1', r2', w')
  {
    assert (r2 + r2') * s.coefficient == r2 * s.coefficient + r2' * s.coefficient;
    assert (w + w') * s.challenge == w * s.challenge + w' * s.challenge;
  }

  lemma FormCong(n: nat, s: Session, r1: int, r2: int, w: int, r1': int, r2': int, w': int)
    requires n > 0 && Cong(n, r1, r1') && Cong(n, r2, r2') && Cong(n, w, w')
    ensures Cong(n, Form(s, r1, r2, w), Form(s, r1', r2', w'))
  {
    var b, e := s.coefficient, s.challenge;
    CongMul(n, b, r2, r2');
    CongAdd(n, r1, r1', r2 * b, r2' * b);
    CongMul(n, Sign(s.nonceOdd), r1 + r2 * b, r1' + r2' * b);
    CongMul(n, e, w, w');
    CongMul(n, Sign(s.keyOdd != s.context.gaccNegative), w * e, w' * e);
    CongAdd(n, Sign(s.nonceOdd) * (r1 + r2 * b), Sign(s.nonceOdd) * (r1' + r2' * b),
            Sign(s.keyOdd != s.context.gaccNegative) * (w * e), Sign(s.keyOdd != s.context.gaccNegative) * (w' * e));
  }

  /** Reduced sum of a signed nonce and a signed key term is the form. */
  lemma SignedSum(c: Curve, s: Session, r1: nat, r2: nat, w: nat)
    requires c.n > 1
    ensures Cong(c.n, c.Add(c.NegIf(s.nonceOdd, c.Add(r1, c.Mul(r2, s.coefficient))),
                            c.NegIf(s.keyOdd != s.context.gaccNegative, c.Mul(w, s.challenge))),
                 Form(s, r1, r2, w))
  {
    var n, b, e := c.n, s.coefficient, s.challenge;
    var u, v := c.Add(r1, c.Mul(r2, b)), c.Mul(w, e);
    var flip := s.keyOdd != s.context.gaccNegative;
    CongMod(n, r2 * b);
    CongAdd(n, r1, r1, c.Mul(r2, b), r2 * b);
    CongMod(n, r1 + c.Mul(r2, b));
    CongMod(n, w * e);
    NegCong(c, s.nonceOdd, u);
    NegCong(c, flip, v);
    CongMul(n, Sign(s.nonceOdd), u, r1 + r2 * b);
    CongMul(n, Sign(flip), v, w * e);
    CongAdd(n, c.NegIf(s.nonceOdd, u), Sign(s.nonceOdd) * (r1 + r2 * b), c.NegIf(flip, v), Sign(flip) * (w * e));
    CongMod(n, c.NegIf(s.nonceOdd, u) + c.NegIf(flip, v));
  }

  lemma ExpectedIsForm(c: Curve, s: Session, nonce: (nat, nat), key: nat, a: nat)
    requires c.n > 1
    ensures Cong(c.n, Expected(c, s, nonce, key, a), Form(s, nonce.0, nonce.1, c.Mul(key, a)))
  {
    SignedSum(c, s, nonce.0, nonce.1, c.Mul(key, a));
  }

  /** What acceptance of a partial signature says about its value. */
  lemma VerifiedPartial(c: Curve, keys: seq<nat>, nonces: seq<Bytes>, tweaks: seq<Tweak>, message: Bytes, i: nat,
                        partial: Bytes)
    requires c.Valid() && WellTyped(c, keys, nonces, tweaks)
    requires VerifyPartial(c, keys, nonces, tweaks, i, message, partial).Ok?
    ensures i < |keys| == |nonces| && SharedSession(c, keys, nonces, tweaks, message).Ok?
    ensures DecodeNonce(c, nonces[i]).Ok?
    ensures FromBE(partial) == Expected(c, SharedSession(c, keys, nonces, tweaks, message).value,
                                        DecodeNonce(c, nonces[i]).value, keys[i], KeyCoefficient(c, keys, i))
  {
  }

  /** Every partial has the value the verifier expects of its signer. */
  ghost predicate AllExpected(c: Curve, s: Session, keys: seq<nat>, nonces: seq<Bytes>, partials: seq<Bytes>)
    requires c.n > 1 && |keys| == |nonces| == |partials| && forall m | m in nonces :: |m| == 66
  {
    forall i | 0 <= i < |keys| ::
      && DecodeNonce(c, nonces[i]).Ok?
      && FromBE(partials[i]) == Expected(c, s, DecodeNonce(c, nonces[i]).value, keys[i], KeyCoefficient(c, keys, i))
  }

  /** A relation between a value, two nonce points and a weighted key. */
  type Relation = (nat, nat, nat, nat) -> bool

  /** The relation the verifier checks of each partial signature. */
  ghost function FormRelation(c: Curve, s: Session): Relation
    requires c.n > 1
  {
    (v: nat, r1: nat, r2: nat, w: nat) => Cong(c.n, v, Form(s, r1, r2, w))
  }

  /** The relation holds of zeros and of sums. */
  ghost predicate Additive(c: Curve, rel: Relation)
    requires c.n > 1
  {
    && rel(0, 0, 0, 0)
    && forall v: nat, r1: nat, r2: nat, w: nat, v': nat, r1': nat, r2': nat, w': nat
         {:trigger rel(c.Add(v, v'), c.Add(r1, r1'), c.Add(r2, r2'), c.Add(w, w'))} ::
         rel(v, r1, r2, w) && rel(v', r1', r2', w') ==> rel(c.Add(v, v'), c.Add(r1, r1'), c.Add(r2, r2'), c.Add(w, w'))
  }

  lemma FormIsAdditive(c: Curve, s: Session)
    requires c.n > 1
    ensures Additive(c, FormRelation(c, s))
  {
    var rel := FormRelation(c, s);
    FormZero(c, s);
    forall v: nat, r1: nat, r2: nat, w: nat, v': nat, r1': nat, r2': nat, w': nat
      {:trigger rel(c.Add(v, v'), c.Add(r1, r1'), c.Add(r2, r2'), c.Add(w, w'))} | rel(v, r1, r2, w) &&
        rel(v', r1', r2', w')
      ensures rel(c.Add(v, v'), c.Add(r1, r1'), c.Add(r2, r2'), c.Add(w, w'))
    {
      ExtendSum(c, s, v, v', (r1, r2), (r1', r2'), w, w');
    }
  }

  lemma FormZero(c: Curve, s: Session)
    requires c.n > 1
    ensures Cong(c.n, 0, Form(s, 0, 0, 0))
  {
    assert 0 * s.coefficient == 0 && 0 * s.challenge == 0;
  }

  /** The sum of the first `k` numbers, modulo the order. */
  ghost function SumOf(c: Curve, xs: seq<nat>, k: nat): nat
    requires c.n > 1 && k <= |xs|
  {
    if k == 0 then 0 else c.Add(SumOf(c, xs, k - 1), xs[k - 1])
  }

  /** Lists that are related one by one are related in sum. */
  lemma {:induction false} RelatedSums(c: Curve, rel: Relation, v: seq<nat>, r1: seq<nat>, r2: seq<nat>, w: seq<nat>,
                                       k: nat)
    requires c.n > 1 && |v| == |r1| == |r2| == |w| && k <= |v|
    requires Additive(c, rel) && forall i :: 0 <= i < |v| ==> rel(v[i], r1[i], r2[i], w[i])
    ensures rel(SumOf(c, v, k), SumOf(c, r1, k), SumOf(c, r2, k), SumOf(c, w, k))
  {
    if k > 0 { RelatedSums(c, rel, v, r1, r2, w, k - 1); }
  }

  ghost function Values(partials: seq<Bytes>): (v: seq<nat>)
    ensures |v| == |partials| && forall i :: 0 <= i < |v| ==> v[i] == FromBE(partials[i])
  {
    seq(|partials|, i requires 0 <= i < |partials| => FromBE(partials[i]))
  }

  ghost function Weights(c: Curve, keys: seq<nat>): (w: seq<nat>)
    requires c.n > 1
    ensures |w| == |keys| && forall i :: 0 <= i < |w| ==> w[i] == c.Mul(keys[i], KeyCoefficient(c, keys, i))
  {
    seq(|keys|, i requires 0 <= i < |keys| => c.Mul(keys[i], KeyCoefficient(c, keys, i)))
  }

  /** The first or second points of the nonces that decode. */
  ghost function NoncePoints(c: Curve, nonces: seq<Bytes>, second: bool): (r: seq<nat>)
    requires forall m | m in nonces :: |m| == 66
    ensures |r| == |nonces|
    ensures forall i :: 0 <= i < |r| && DecodeNonce(c, nonces[i]).Ok? ==>
              var p := DecodeNonce(c, nonces[i]).value; r[i] == if second then p.1 else p.0
  {
    seq(|nonces|, i requires 0 <= i < |nonces| =>
      match DecodeNonce(c, nonces[i]) case Ok(p) => (if second then p.1 else p.0) case Err(_) => 0)
  }

  lemma {:induction false} PartialsSum(c: Curve, partials: seq<Bytes>, k: nat)
    requires c.n > 1 && k <= |partials|
    ensures SumPartials(c, partials, k) == SumOf(c, Values(partials), k)
  {
    if k > 0 { PartialsSum(c, partials, k - 1); }
  }

  lemma {:induction false} KeysSum(c: Curve, keys: seq<nat>, k: nat)
    requires c.n > 1 && k <= |keys| && WeightedSum(c, keys, k).Ok?
    ensures WeightedSum(c, keys, k).value == SumOf(c, Weights(c, keys), k)
  {
    if k > 0 {
      WeightedSumStep(c, keys, k);
      KeysSum(c, keys, k - 1);
    }
  }

  lemma {:induction false} NoncesSum(c: Curve, nonces: seq<Bytes>, k: nat)
    requires c.n > 1 && k <= |nonces| && (forall m | m in nonces :: |m| == 66) && SumNonces(c, nonces, k).Ok?
    ensures SumNonces(c, nonces, k).value
         == (SumOf(c, NoncePoints(c, nonces, false), k), SumOf(c, NoncePoints(c, nonces, true), k))
  {
    if k > 0 {
      SumNoncesStep(c, nonces, k);
      NoncesSum(c, nonces, k - 1);
    }
  }

  /** The first `k` accepted partials sum to the form of the first `k` nonce and key sums. */
  lemma FormSums(c: Curve, s: Session, keys: seq<nat>, nonces: seq<Bytes>, partials: seq<Bytes>, k: nat)
    requires c.n > 1 && |keys| == |nonces| == |partials| && k <= |keys| && forall m | m in nonces :: |m| == 66
    requires AllExpected(c, s, keys, nonces, partials)
    requires WeightedSum(c, keys, k).Ok? && SumNonces(c, nonces, k).Ok?
    ensures Cong(c.n, SumPartials(c, partials, k),
                 Form(s, SumNonces(c, nonces, k).value.0, SumNonces(c, nonces, k).value.1,
                      WeightedSum(c, keys, k).value))
  {
    PartialsSum(c, partials, k);
    KeysSum(c, keys, k);
    NoncesSum(c, nonces, k);
    ListsRelated(c, s, keys, nonces, partials);
    RelatedSums(c, FormRelation(c, s), Values(partials), NoncePoints(c, nonces, false), NoncePoints(c, nonces, true),
                Weights(c, keys), k);
  }

  lemma ListsRelated(c: Curve, s: Session, keys: seq<nat>, nonces: seq<Bytes>, partials: seq<Bytes>)
    requires c.n > 1 && |keys| == |nonces| == |partials| && forall m | m in nonces :: |m| == 66
    requires AllExpected(c, s, keys, nonces, partials)
    ensures Additive(c, FormRelation(c, s))
    ensures var v, r1, r2, w := Values(partials), NoncePoints(c, nonces, false), NoncePoints(c, nonces, true),
            Weights(c, keys);
            forall i :: 0 <= i < |v| ==> FormRelation(c, s)(v[i], r1[i], r2[i], w[i])
  {
    FormIsAdditive(c, s);
    forall i | 0 <= i < |keys|
      ensures FormRelation(c, s)(Values(partials)[i], NoncePoints(c, nonces, false)[i], NoncePoints(c, nonces, true)[i],
                                 Weights(c, keys)[i])
    {
      ExpectedTerm(c, s, keys, nonces, partials, i);
    }
  }

  lemma WeightedSumStep(c: Curve, keys: seq<nat>, k: nat)
    requires c.n > 1 && 0 < k <= |keys| && WeightedSum(c, keys, k).Ok?
    ensures WeightedSum(c, keys, k - 1).Ok?
    ensures WeightedSum(c, keys, k).value ==
            c.Add(WeightedSum(c, keys, k - 1).value, c.Mul(keys[k - 1], KeyCoefficient(c, keys, k - 1)))
  {
  }

  lemma SumNoncesStep(c: Curve, nonces: seq<Bytes>, k: nat)
    requires c.n > 1 && 0 < k <= |nonces| && (forall m | m in nonces :: |m| == 66) && SumNonces(c, nonces, k).Ok?
    ensures SumNonces(c, nonces, k - 1).Ok? && DecodeNonce(c, nonces[k - 1]).Ok?
    ensures var sum, nonce := SumNonces(c, nonces, k - 1).value, DecodeNonce(c, nonces[k - 1]).value;
            SumNonces(c, nonces, k).value == (c.Add(sum.0, nonce.0), c.Add(sum.1, nonce.1))
  {
  }

  lemma ExpectedTerm(c: Curve, s: Session, keys: seq<nat>, nonces: seq<Bytes>, partials: seq<Bytes>, i: nat)
    requires c.n > 1 && |keys| == |nonces| == |partials| && i < |keys| && forall m | m in nonces :: |m| == 66
    requires AllExpected(c, s, keys, nonces, partials)
    ensures DecodeNonce(c, nonces[i]).Ok?
    ensures var nonce := DecodeNonce(c, nonces[i]).value;
            Cong(c.n, FromBE(partials[i]), Form(s, nonce.0, nonce.1, c.Mul(keys[i], KeyCoefficient(c, keys, i))))
  {
    ExpectedIsForm(c, s, DecodeNonce(c, nonces[i]).value, keys[i], KeyCoefficient(c, keys, i));
  }

  lemma ExtendSum(c: Curve, s: Session, sum: nat, partial: nat, nonces: (nat, nat), nonce: (nat, nat), key: nat, w: nat)
    requires c.n > 1
    requires Cong(c.n, sum, Form(s, nonces.0, nonces.1, key))
    requires Cong(c.n, partial, Form(s, nonce.0, nonce.1, w))
    ensures Cong(c.n, c.Add(sum, partial), Form(s, c.Add(nonces.0, nonce.0), c.Add(nonces.1, nonce.1), c.Add(key, w)))
  {
    var n := c.n;
    CongAdd(n, sum, Form(s, nonces.0, nonces.1, key), partial, Form(s, nonce.0, nonce.1, w));
    CongMod(n, sum + partial);
    FormAdd(s, nonces.0, nonces.1, key, nonce.0, nonce.1, w);
    CongMod(n, nonces.0 + nonce.0);
    CongMod(n, nonces.1 + nonce.1);
    CongMod(n, key + w);
    FormCong(n, s, nonces.0 + nonce.0, nonces.1 + nonce.1, key + w,
             c.Add(nonces.0, nonce.0), c.Add(nonces.1, nonce.1), c.Add(key, w));
  }

  /** The tweak correction, reduced and signed. */
  lemma CorrectionCong(c: Curve, keyOdd: bool, e: nat, tacc: nat)
    requires c.n > 1
    ensures Cong(c.n, c.NegIf(keyOdd, c.Mul(e, tacc)), Sign(keyOdd) * (e * tacc))
  {
    CongMod(c.n, e * tacc);
    NegCong(c, keyOdd, c.Mul(e, tacc));
    CongMul(c.n, Sign(keyOdd), c.Mul(e, tacc), e * tacc);
  }

  /** The challenged even key, in terms of the untweaked key. */
  lemma EvenKeyCong(c: Curve, x: KeyContext, q0: nat, e: int)
    requires c.n > 1 && InRange(c, x) && Tweaked(c, q0, x)
    ensures Cong(c.n, -e * c.Even(x.key), -e * (Sign(c.odd(x.key)) * (Sign(x.gaccNegative) * q0 + x.tacc)))
  {
    var g := Sign(c.odd(x.key));
    NegCong(c, c.odd(x.key), x.key);
    CongMul(c.n, g, x.key, Sign(x.gaccNegative) * q0 + x.tacc);
    CongMul(c.n, -e, c.Even(x.key), g * (Sign(x.gaccNegative) * q0 + x.tacc));
  }

  /** The equation behind completeness: s - e * even(Q) is the combined nonce up to the parity sign. */
  lemma SignatureEquation(c: Curve, s: Session, q0: nat, r1: nat, r2: nat, sum: nat)
    requires c.n > 1 && InRange(c, s.context)
    requires Tweaked(c, q0, s.context) && s.keyOdd == c.odd(s.context.key)
    requires Cong(c.n, sum, Form(s, r1, r2, q0))
    ensures Cong(c.n,
                 c.Add(sum,
                       c.NegIf(s.keyOdd, c.Mul(s.challenge, s.context.tacc))) - s.challenge * c.Even(s.context.key),
                 Sign(s.nonceOdd) * (r1 + r2 * s.coefficient))
  {
    var n, e, g, gacc, tacc := c.n, s.challenge, Sign(s.keyOdd), Sign(s.context.gaccNegative), s.context.tacc;
    var correction := c.NegIf(s.keyOdd, c.Mul(e, tacc));
    var key := g * (gacc * q0 + tacc);
    CorrectionCong(c, s.keyOdd, e, tacc);
    EvenKeyCong(c, s.context, q0, e);
    CongAdd(n, sum, Form(s, r1, r2, q0), correction, g * (e * tacc));
    CongMod(n, sum + correction);
    CongAdd(n, c.Add(sum, correction), Form(s, r1, r2, q0) + g * (e * tacc), -e * c.Even(s.context.key), -e * key);
    Cancel(e, g, gacc, Sign(s.keyOdd != s.context.gaccNegative), q0, tacc);
    MinusTimes(e, c.Even(s.context.key));
  }

  lemma MinusTimes(e: int, x: int)
    ensures -e * x == -(e * x)
  {
  }

  lemma Cancel(e: int, g: int, gacc: int, sign: int, q0: int, tacc: int)
    requires sign == g * gacc
    ensures sign * (q0 * e) + g * (e * tacc) + -e * (g * (gacc * q0 + tacc)) == 0
  {
    assert e * (g * (gacc * q0 + tacc)) == (g * gacc) * (q0 * e) + g * (e * tacc);
  }

  /** Once every partial signature verifies, the final Schnorr check accepts exactly when the combined
      nonce is not infinity: nothing else can make an aggregation of accepted partials fail. */
  lemma Completeness(c: Curve, keys: seq<nat>, nonces: seq<Bytes>, tweaks: seq<Tweak>, message: Bytes,
                     partials: seq<Bytes>)
    requires c.Valid() && WellTyped(c, keys, nonces, tweaks)
    requires SessionBounds(keys, nonces, tweaks, message) && |partials| == |keys|
    requires AllVerify(c, keys, nonces, tweaks, message, partials)
    ensures SharedSession(c, keys, nonces, tweaks, message).Ok?
    ensures AggregatePartials(c, keys, nonces, tweaks, message, partials).Ok?
            <==> SharedSession(c, keys, nonces, tweaks, message).value.combined != 0
  {
    VerifiedPartial(c, keys, nonces, tweaks, message, 0, partials[0]);
    var s := SharedSession(c, keys, nonces, tweaks, message).value;
    forall i | 0 <= i < |keys|
      ensures DecodeNonce(c, nonces[i]).Ok? &&
              FromBE(partials[i])
                == Expected(c, s, DecodeNonce(c, nonces[i]).value, keys[i], KeyCoefficient(c, keys, i))
    {
      VerifiedPartial(c, keys, nonces, tweaks, message, i, partials[i]);
    }
    SharedSums(c, keys, nonces, tweaks, message);
    SessionAccepts(c, s, keys, nonces, partials, message);
  }

  /** Inside one session: expected partials aggregate to a scalar the Schnorr check decides by the combined nonce. */
  lemma SessionAccepts(c: Curve, s: Session, keys: seq<nat>, nonces: seq<Bytes>, partials: seq<Bytes>, message: Bytes)
    requires c.Valid() && |keys| == |nonces| == |partials| && forall m | m in nonces :: |m| == 66
    requires AllExpected(c, s, keys, nonces, partials)
    requires WeightedSum(c, keys, |keys|).Ok? && SumNonces(c, nonces, |nonces|).Ok?
    requires InRange(c, s.context) && Tweaked(c, WeightedSum(c, keys, |keys|).value, s.context)
    requires FromSums(c, s, SumNonces(c, nonces, |nonces|).value, message)
    ensures VerifySchnorr(c, c.xonly(s.context.key), message, c.xonly(s.finalNonce), AggregateScalar(c, s, partials))
            <==> s.combined != 0
  {
    var q0, sums := WeightedSum(c, keys, |keys|).value, SumNonces(c, nonces, |nonces|).value;
    FormSums(c, s, keys, nonces, partials, |keys|);
    SumAccepts(c, s, q0, sums, SumPartials(c, partials, |partials|), message);
  }

  lemma SumAccepts(c: Curve, s: Session, q0: nat, sums: (nat, nat), sum: nat, message: Bytes)
    requires c.Valid() && InRange(c, s.context) && Tweaked(c, q0, s.context) && FromSums(c, s, sums, message)
    requires Cong(c.n, sum, Form(s, sums.0, sums.1, q0))
    ensures VerifySchnorr(c, c.xonly(s.context.key), message, c.xonly(s.finalNonce),
                          c.Add(sum, c.NegIf(s.keyOdd, c.Mul(s.challenge, s.context.tacc))))
            <==> s.combined != 0
  {
    var scalar := c.Add(sum, c.NegIf(s.keyOdd, c.Mul(s.challenge, s.context.tacc)));
    SignatureEquation(c, s, q0, sums.0, sums.1, sum);
    CombinedSign(c, s, sums.0, sums.1, scalar - s.challenge * c.Even(s.context.key));
    SchnorrDecides(c, s, message, scalar);
  }

  /** How the shared session comes from the key and nonce sums. */
  lemma SharedSums(c: Curve, keys: seq<nat>, nonces: seq<Bytes>, tweaks: seq<Tweak>, message: Bytes)
    requires c.Valid() && WellTyped(c, keys, nonces, tweaks)
    requires SharedSession(c, keys, nonces, tweaks, message).Ok?
    ensures SumNonces(c, nonces, |nonces|).Ok? && AggregatePlainKey(c, keys).Ok? && WeightedSum(c, keys, |keys|).Ok?
    ensures AggregatePlainKey(c, keys).value == WeightedSum(c, keys, |keys|).value
    ensures var s := SharedSession(c, keys, nonces, tweaks, message).value;
            var sums := SumNonces(c, nonces, |nonces|).value;
            && InRange(c, s.context) && Tweaked(c, AggregatePlainKey(c, keys).value, s.context)
            && FromSums(c, s, sums, message)
  {
    AggregateWidth(c, nonces);
    SumInRange(c, keys, |keys|);
    TweakInvariant(c, AggregatePlainKey(c, keys).value, tweaks);
  }

  /** The nonce and challenge part of a session. */
  ghost predicate FromSums(c: Curve, s: Session, sums: (nat, nat), message: Bytes)
    requires c.n > 1
  {
    && s.combined == c.Add(sums.0, c.Mul(sums.1, s.coefficient))
    && s.finalNonce == (if s.combined == 0 then 1 else s.combined)
    && s.nonceOdd == c.odd(s.finalNonce) && s.keyOdd == c.odd(s.context.key)
    && s.challenge == c.Scalar("BIP0340/challenge", c.xonly(s.finalNonce) + c.xonly(s.context.key) + message)
  }

  /** The Schnorr check on a scalar whose nonce point is the even final nonce, or infinity. */
  lemma SchnorrDecides(c: Curve, s: Session, message: Bytes, scalar: nat)
    requires c.Valid() && InRange(c, s.context) && scalar < c.n && s.combined < c.n
    requires s.finalNonce == (if s.combined == 0 then 1 else s.combined)
    requires s.challenge == c.Scalar("BIP0340/challenge", c.xonly(s.finalNonce) + c.xonly(s.context.key) + message)
    requires (scalar - s.challenge * c.Even(s.context.key)) % c.n == if s.combined == 0 then 0 else c.Even(s.finalNonce)
    ensures VerifySchnorr(c, c.xonly(s.context.key), message, c.xonly(s.finalNonce), scalar) <==> s.combined != 0
  {
    assert c.lift(c.xonly(s.context.key)) == Some(c.Even(s.context.key));
    if s.combined != 0 {
      assert c.IsPoint(s.finalNonce);
      assert !c.odd(c.Even(s.finalNonce)) && c.xonly(c.Even(s.finalNonce)) == c.xonly(s.finalNonce);
    }
  }

  /** The residue of plus or minus the combined nonce is its even representative, or zero. */
  lemma CombinedSign(c: Curve, s: Session, r1: nat, r2: nat, x: int)
    requires c.Valid() && s.combined == c.Add(r1, c.Mul(r2, s.coefficient))
    requires s.finalNonce == (if s.combined == 0 then 1 else s.combined) && s.nonceOdd == c.odd(s.finalNonce)
    requires Cong(c.n, x, Sign(s.nonceOdd) * (r1 + r2 * s.coefficient))
    ensures x % c.n == if s.combined == 0 then 0 else c.Even(s.finalNonce)
  {
    var n := c.n;
    CongMod(n, r2 * s.coefficient);
    CongAdd(n, r1, r1, c.Mul(r2, s.coefficient), r2 * s.coefficient);
    CongMod(n, r1 + c.Mul(r2, s.coefficient));
    CongMul(n, Sign(s.nonceOdd), s.combined, r1 + r2 * s.coefficient);
    NegCong(c, s.nonceOdd, s.combined);
    CongMod(n, x);
    CongEqual(n, x % n, c.NegIf(s.nonceOdd, s.combined));
  }

  // ----- the requirements on a curve can be met -----

  /** Any injective 32-byte numbering of the residues. */
  ghost predicate IsNumbering(n: nat, be: nat -> Bytes) {
    forall v: nat | v < n :: |be(v)| == 32 && FromBE(be(v)) == v
  }

  /** A curve of any odd order that fits 32 bytes, for any tagged hash: points encode as their own index. */
  function IndexCurve(n: nat, be: nat -> Bytes, tagged: (string, Bytes) -> Bytes): Curve
    requires n > 1
  {
    Curve(n, (p: nat) => p % 2 == 1,
          (p: nat) => be(if 2 * p < n || p > n then p else n - p),
          (x: Bytes) => if 0 < FromBE(x) < n then Some(if FromBE(x) % 2 == 1 then n - FromBE(x) else FromBE(x))
            else None,
          (p: nat) => [2] + be(p),
          (b: Bytes) => if |b| == 33 && 0 < FromBE(b[1..]) < n then Some(FromBE(b[1..])) else None,
          tagged)
  }

  lemma IndexEncoding(c: Curve, be: nat -> Bytes, p: nat)
    requires c.n > 1 && c == IndexCurve(c.n, be, c.tagged) && c.IsPoint(p) && IsNumbering(c.n, be)
    ensures |c.encode(p)| == 33 && c.encode(p) != Zeros(33) && c.decode(c.encode(p)) == Some(p)
  {
    assert c.encode(p)[1..] == be(p) && c.encode(p)[0] == 2;
  }

  lemma IndexCoordinate(c: Curve, be: nat -> Bytes, p: nat)
    requires c.n > 1 && c.n % 2 == 1 && c == IndexCurve(c.n, be, c.tagged) && c.IsPoint(p) && IsNumbering(c.n, be)
    ensures |c.xonly(p)| == 32 && c.xonly(c.n - p) == c.xonly(p) && c.lift(c.xonly(p)) == Some(c.Even(p))
  {
    var x := if 2 * p < c.n then p else c.n - p;
    assert c.xonly(p) == be(x) && c.xonly(c.n - p) == be(x);
    assert FromBE(be(x)) == x && 0 < x < c.n;
    OddComplement(c.n, p);
    assert c.lift(be(x)) == Some(if x % 2 == 1 then c.n - x else x);
  }

  lemma IndexCurveIsValid(n: nat, be: nat -> Bytes, tagged: (string, Bytes) -> Bytes)
    requires n > 1 && n % 2 == 1 && IsNumbering(n, be)
    ensures IndexCurve(n, be, tagged).Valid()
  {
    var c := IndexCurve(n, be, tagged);
    assert c.Encodes() by {
      forall p: nat | c.IsPoint(p)
        ensures |c.encode(p)| == 33 && c.encode(p) != Zeros(33) && c.decode(c.encode(p)) == Some(p)
      {
        IndexEncoding(c, be, p);
      }
    }
    assert c.FlipsParity() by {
      forall p: nat | c.IsPoint(p) ensures c.odd(n - p) == !c.odd(p) { OddComplement(n, p); }
    }
    assert c.Lifts() by {
      forall p: nat | c.IsPoint(p)
        ensures |c.xonly(p)| == 32 && c.xonly(n - p) == c.xonly(p) && c.lift(c.xonly(p)) == Some(c.Even(p))
      {
        IndexCoordinate(c, be, p);
      }
    }
  }

  lemma OddComplement(n: nat, p: nat)
    requires n % 2 == 1 && p <= n
    ensures ((n - p) % 2 == 1) == !(p % 2 == 1)
  {
  }

  lemma BigEndianNumbers(n: nat)
    requires n <= Pow256(32)
    ensures IsNumbering(n, (v: nat) => BE(32, v))
  {
    forall v: nat | v < n ensures |BE(32, v)| == 32 && FromBE(BE(32, v)) == v { BERoundTrip(32, v); }
  }
}
