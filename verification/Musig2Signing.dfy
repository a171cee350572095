/** MuSig2 signing with a one-time nonce object, and the byte-level loops of the session code. */
module Musig2Signing {
  import opened ByteStrings
  import opened Arithmetic
  import opened Scalars
  import opened Musig2

  /** The partial signature an honest signer computes, term by term on residues. */
  function PartialValue(c: Curve, s: Session, k1: nat, k2: nat, d: nat, a: nat): (v: nat)
    requires c.n > 1 && k1 < c.n && k2 < c.n && d < c.n
    ensures v < c.n
  {
    var first, second := c.NegIf(s.nonceOdd, k1), c.NegIf(s.nonceOdd, k2);
    var nonceTerm := c.Add(first, c.Mul(second, s.coefficient));
    var signing := c.NegIf(s.keyOdd != s.context.gaccNegative, d);
    var keyTerm := c.Mul(c.Mul(signing, a), s.challenge);
    c.Add(nonceTerm, keyTerm)
  }

  /** The nonce half: negating each secret is negating the combination. */
  lemma NonceTermCong(c: Curve, odd: bool, k1: nat, k2: nat, b: nat)
    requires c.n > 1 && k1 < c.n && k2 < c.n
    ensures Cong(c.n, c.Add(c.NegIf(odd, k1), c.Mul(c.NegIf(odd, k2), b)), Sign(odd) * (k1 + k2 * b))
  {
    var n, g := c.n, Sign(odd);
    var first, second := c.NegIf(odd, k1), c.NegIf(odd, k2);
    NegCong(c, odd, k1);
    NegCong(c, odd, k2);
    CongMul(n, b, second, g * k2);
    CongMod(n, second * b);
    CongAdd(n, first, g * k1, c.Mul(second, b), b * (g * k2));
    CongMod(n, first + c.Mul(second, b));
    assert g * k1 + b * (g * k2) == g * (k1 + k2 * b);
  }

  /** The key half: negating the secret key is negating the challenged key. */
  lemma KeyTermCong(c: Curve, flip: bool, d: nat, a: nat, e: nat)
    requires c.n > 1 && d < c.n
    ensures Cong(c.n, c.Mul(c.Mul(c.NegIf(flip, d), a), e), Sign(flip) * (c.Mul(d, a) * e))
  {
    var n, g, x := c.n, Sign(flip), c.NegIf(flip, d);
    NegCong(c, flip, d);
    CongMul(n, a, x, g * d);
    CongMod(n, x * a);
    CongMul(n, e, c.Mul(x, a), a * (g * d));
    CongMod(n, c.Mul(x, a) * e);
    CongMod(n, d * a);
    CongMul(n, g * e, c.Mul(d, a), d * a);
    Regroup(e, a, g, d, c.Mul(d, a));
  }

  lemma Regroup(e: int, a: int, g: int, d: int, m: int)
    ensures e * (a * (g * d)) == g * e * (d * a) && g * e * m == g * (m * e)
  {
    assert a * (g * d) == g * (d * a);
    assert e * (g * (d * a)) == g * e * (d * a);
  }

  /** Signer and verifier agree: under every parity and tweak combination the honest partial is
      exactly the point the verifier expects. */
  lemma HonestPartialIsExpected(c: Curve, s: Session, k1: nat, k2: nat, d: nat, a: nat)
    requires c.n > 1 && k1 < c.n && k2 < c.n && d < c.n
    ensures PartialValue(c, s, k1, k2, d, a) == Expected(c, s, (k1, k2), d, a)
  {
    var flip := s.keyOdd != s.context.gaccNegative;
    var nonceTerm := c.Add(c.NegIf(s.nonceOdd, k1), c.Mul(c.NegIf(s.nonceOdd, k2), s.coefficient));
    var keyTerm := c.Mul(c.Mul(c.NegIf(flip, d), a), s.challenge);
    NonceTermCong(c, s.nonceOdd, k1, k2, s.coefficient);
    KeyTermCong(c, flip, d, a, s.challenge);
    CongAdd(c.n, nonceTerm, Sign(s.nonceOdd) * (k1 + k2 * s.coefficient),
            keyTerm, Sign(flip) * (c.Mul(d, a) * s.challenge));
    CongMod(c.n, nonceTerm + keyTerm);
    ExpectedIsForm(c, s, (k1, k2), d, a);
    CongEqual(c.n, PartialValue(c, s, k1, k2, d, a), Expected(c, s, (k1, k2), d, a));
  }

  /** The first position of `key`. */
  function Position(keys: seq<nat>, key: nat): (r: Option<nat>)
    ensures r.Some? <==> key in keys
    ensures r.Some? ==> r.value < |keys| && keys[r.value] == key && key !in keys[..r.value]
  {
    if keys == [] then None
    else if keys[0] == key then Some(0)
    else match Position(keys[1..], key)
         case None => None
         case Some(i) => assert keys[..i + 1] == [keys[0]] + keys[1..][..i]; Some(i + 1)
  }

  /** Everything `musig2_partial_sign` checks before it touches the nonce. */
  predicate MaySign(keys: seq<nat>, publicNonce: Bytes, secret: nat, nonces: seq<Bytes>, tweaks: seq<Tweak>,
                    message: Bytes)
  {
    && SessionBounds(keys, nonces, tweaks, message)
    && Position(keys, secret).Some?
    && nonces[Position(keys, secret).value] == publicNonce
  }

  class SecretNonce {
    var first: Bytes
    var second: Bytes
    var publicKey: Bytes
    const publicNonce: Bytes
    var consumed: bool

    /** Sizes of the arrays, and no secret survives consumption. */
    ghost predicate Valid()
      reads this
    {
      && |first| == 32 && |second| == 32 && |publicKey| == 33 && |publicNonce| == 66
      && (consumed ==> first == Zeros(32) && second == Zeros(32) && publicKey == Zeros(33))
    }

    /** The public half is the image of the secret half and of the signing key. */
    ghost predicate Honest(c: Curve, secret: nat)
      reads this
    {
      && |publicNonce| == 66
      && c.IsPoint(FromBE(first)) && c.IsPoint(FromBE(second))
      && c.decode(publicNonce[..33]) == Some(FromBE(first)) && c.decode(publicNonce[33..]) == Some(FromBE(second))
      && publicKey == c.encode(secret)
    }

    constructor (first: Bytes, second: Bytes, publicKey: Bytes, publicNonce: Bytes)
      requires |first| == 32 && |second| == 32 && |publicKey| == 33 && |publicNonce| == 66
      ensures Valid() && !consumed
      ensures this.first == first && this.second == second && this.publicKey == publicKey &&
              this.publicNonce == publicNonce
    {
      this.first, this.second, this.publicKey, this.publicNonce, this.consumed := first, second, publicKey, publicNonce,
        false;
    }

    /** Hands out the secrets once and erases them from the object. */
    method Consume() returns (r: Result<(Bytes, Bytes, Bytes), Error>)
      requires Valid()
      modifies this`first, this`second, this`publicKey, this`consumed
      ensures Valid() && consumed
      ensures old(consumed) ==> r == Err(Invalid)
      ensures !old(consumed) ==> r == Ok((old(first), old(second), old(publicKey)))
    {
      if consumed {
        return Err(Invalid);
      }
      consumed := true;
      r := Ok((first, second, publicKey));
      first, second, publicKey := Zeros(32), Zeros(32), Zeros(33);
    }

    /** The signing step proper: consumes the nonce first, and verifies its own output last. */
    method SignWithAggregate(c: Curve, secret: nat, keys: seq<nat>, signer: nat, signerNonce: Bytes, aggregate: Bytes,
                             tweaks: seq<Tweak>, message: Bytes) returns (r: Result<Bytes, Error>)
      requires Valid() && c.n > 1 && c.n <= Pow256(32) && c.IsPoint(secret)
      requires |signerNonce| == 66 && |aggregate| == 66
      modifies this`first, this`second, this`publicKey, this`consumed
      ensures Valid() && consumed
      ensures old(consumed) ==> r.Err?
      ensures r.Ok? ==> |r.value| == 32 &&
                        VerifyPartialWithAggregate(c, keys, signerNonce, aggregate, tweaks, signer, message,
                                                   r.value).Ok?
      ensures (!old(consumed) && old(Honest(c, secret)) && signerNonce == publicNonce && signer < |keys| &&
               keys[signer] == secret && SessionOf(c, keys, aggregate, tweaks, message).Ok?) ==> r.Ok?
    {
      var secrets :- Consume();
      var (k1, k2, key) := secrets;
      if c.encode(secret) != key || signer >= |keys| || keys[signer] != secret || signerNonce != publicNonce {
        return Err(Invalid);
      }
      var session := SessionOf(c, keys, aggregate, tweaks, message);
      if session.Err? {
        return Err(session.error);
      }
      if !c.IsPoint(FromBE(k1)) || !c.IsPoint(FromBE(k2)) {
        return Err(Crypto);
      }
      var value := PartialValue(c, session.value, FromBE(k1), FromBE(k2), secret, KeyCoefficient(c, keys, signer));
      OwnPartialVerifies(c, keys, signer, signerNonce, aggregate, tweaks, message, FromBE(k1), FromBE(k2));
      var partial := BE(32, value);
      var verified := VerifyPartialWithAggregate(c, keys, signerNonce, aggregate, tweaks, signer, message, partial);
      if verified.Err? {
        return Err(verified.error);
      }
      r := Ok(partial);
    }

    /** Signs at most once; whatever comes out verifies, and an unused honest nonce always signs. */
    method PartialSign(c: Curve, secret: nat, keys: seq<nat>, nonces: seq<Bytes>, tweaks: seq<Tweak>, message: Bytes)
      returns (r: Result<Bytes, Error>)
      requires Valid() && c.Valid() && c.n <= Pow256(32) && c.IsPoint(secret) && WellTyped(c, keys, nonces, tweaks)
      modifies this`first, this`second, this`publicKey, this`consumed
      ensures Valid()
      ensures old(consumed) ==> r.Err? && consumed
      ensures r.Ok? ==> !old(consumed) && consumed && MaySign(keys, publicNonce, secret, nonces, tweaks, message)
      ensures r.Ok? ==> |r.value| == 32 &&
                        VerifyPartial(c, keys, nonces, tweaks, Position(keys, secret).value, message, r.value).Ok?
      ensures (!old(consumed) && old(Honest(c, secret)) &&
               MaySign(keys, publicNonce, secret, nonces, tweaks, message) &&
               SharedSession(c, keys, nonces, tweaks, message).Ok?) ==> r.Ok?
      ensures !consumed ==> r.Err? && first == old(first) && second == old(second) && publicKey == old(publicKey)
    {
      if !SessionBounds(keys, nonces, tweaks, message) {
        return Err(Bounds);
      }
      var signer := Position(keys, secret);
      if signer.None? || nonces[signer.value] != publicNonce {
        return Err(Invalid);
      }
      var aggregate := AggregatePublicNonces(c, nonces);
      if aggregate.Err? {
        return Err(aggregate.error);
      }
      ThroughAggregate(c, keys, nonces, tweaks, signer.value, message);
      r := SignWithAggregate(c, secret, keys, signer.value, publicNonce, aggregate.value, tweaks, message);
    }
  }

  /** With the aggregate of the nonces at hand, session and verification are those for that aggregate. */
  lemma ThroughAggregate(c: Curve, keys: seq<nat>, nonces: seq<Bytes>, tweaks: seq<Tweak>, signer: nat, message: Bytes)
    requires c.Valid() && WellTyped(c, keys, nonces, tweaks) && SessionBounds(keys, nonces, tweaks, message)
    requires signer < |keys| && AggregatePublicNonces(c, nonces).Ok?
    ensures var aggregate := AggregatePublicNonces(c, nonces).value;
            && |aggregate| == 66 && SharedSession(c, keys, nonces, tweaks, message) ==
                                    SessionOf(c, keys, aggregate, tweaks, message)
            && forall partial :: VerifyPartialWithAggregate(c, keys, nonces[signer], aggregate, tweaks, signer, message,
                                                            partial).Ok? ==>
                 VerifyPartial(c, keys, nonces, tweaks, signer, message, partial).Ok?
  {
    AggregateWidth(c, nonces);
  }

  /** The verifier accepts the partial computed from the secrets behind the signer's public nonce and key. */
  lemma OwnPartialVerifies(c: Curve, keys: seq<nat>, signer: nat, signerNonce: Bytes, aggregate: Bytes,
                           tweaks: seq<Tweak>, message: Bytes, k1: nat, k2: nat)
    requires c.n > 1 && c.n <= Pow256(32) && |signerNonce| == 66 && |aggregate| == 66
    requires signer < |keys| && c.IsPoint(keys[signer]) && c.IsPoint(k1) && c.IsPoint(k2)
    requires SessionOf(c, keys, aggregate, tweaks, message).Ok?
    ensures var s := SessionOf(c, keys, aggregate, tweaks, message).value;
            var partial := BE(32, PartialValue(c, s, k1, k2, keys[signer], KeyCoefficient(c, keys, signer)));
            (c.decode(signerNonce[..33]) == Some(k1) && c.decode(signerNonce[33..]) == Some(k2)) ==>
              VerifyPartialWithAggregate(c, keys, signerNonce, aggregate, tweaks, signer, message, partial).Ok?
  {
    var s := SessionOf(c, keys, aggregate, tweaks, message).value;
    HonestPartialIsExpected(c, s, k1, k2, keys[signer], KeyCoefficient(c, keys, signer));
    BERoundTrip(32, PartialValue(c, s, k1, k2, keys[signer], KeyCoefficient(c, keys, signer)));
  }

  datatype SignCall = SignCall(secret: nat, keys: seq<nat>, nonces: seq<Bytes>, tweaks: seq<Tweak>, message: Bytes)

  predicate CallTyped(c: Curve, call: SignCall) {
    c.IsPoint(call.secret) && WellTyped(c, call.keys, call.nonces, call.tweaks)
  }

  function Signatures(results: seq<Result<Bytes, Error>>): nat {
    if results == [] then 0
    else Signatures(results[..|results| - 1]) + if results[|results| - 1].Ok? then 1 else 0
  }

  /** Over any run of signing calls on one nonce object, at most one call returns a signature. */
  method SignAll(nonce: SecretNonce, c: Curve, calls: seq<SignCall>) returns (results: seq<Result<Bytes, Error>>)
    requires nonce.Valid() && c.Valid() && c.n <= Pow256(32) && forall call | call in calls :: CallTyped(c, call)
    modifies nonce
    ensures nonce.Valid() && |results| == |calls|
    ensures Signatures(results) <= 1
    ensures old(nonce.consumed) ==> Signatures(results) == 0
  {
    results := [];
    for i := 0 to |calls|
      invariant nonce.Valid() && |results| == i
      invariant Signatures(results) <= if nonce.consumed && !old(nonce.consumed) then 1 else 0
      invariant old(nonce.consumed) ==> nonce.consumed
    {
      assert CallTyped(c, calls[i]);
      var r := nonce.PartialSign(c, calls[i].secret, calls[i].keys, calls[i].nonces, calls[i].tweaks, calls[i].message);
      assert (results + [r])[..i] == results;
      results := results + [r];
    }
  }

  // ----- the byte-level loops -----

  lemma NegUnique(v: nat, w: nat, n: nat)
    requires v < n && w < n && (v + w) % n == 0
    ensures w == if v == 0 then 0 else n - v
  {
    Reduced(v + w, n);
  }

  /** One iteration of the tweak loop. */
  method TweakStepBytes(order: Bytes, c: Curve, key0: nat, gacc0: bool, tacc0: Bytes, tweak: Tweak)
    returns (r: Result<(nat, bool, Bytes), Error>)
    requires IsOrder(order) && c.n == FromBE(order) && c.IsPoint(key0) && IsScalar(order, tacc0) && |tweak.value| == 32
    ensures r.Ok? <==> ApplyTweak(c, KeyContext(key0, gacc0, FromBE(tacc0)), tweak).Ok?
    ensures r.Ok? ==> IsScalar(order, r.value.2) && ApplyTweak(c, KeyContext(key0, gacc0, FromBE(tacc0)), tweak).value
                                                    == KeyContext(r.value.0, r.value.1, FromBE(r.value.2))
  {
    LexGeIsNumeric(tweak.value, order);
    if LexGe(tweak.value, order) {
      return Err(Crypto);
    }
    var flip := tweak.xonly && c.odd(key0);
    var tacc := NegateIf(order, c, flip, tacc0);
    var key := c.Add(c.NegIf(flip, key0), FromBE(tweak.value));
    if key == 0 {
      return Err(Crypto);
    }
    var sum := ScalarAddMod(order, tacc, tweak.value);
    assert FromBE(sum) == c.Add(c.NegIf(flip, FromBE(tacc0)), FromBE(tweak.value));
    return Ok((key, gacc0 != flip, sum));
  }

  method NegateIf(order: Bytes, c: Curve, flip: bool, value: Bytes) returns (r: Bytes)
    requires IsOrder(order) && c.n == FromBE(order) && IsScalar(order, value)
    ensures IsScalar(order, r) && FromBE(r) == c.NegIf(flip, FromBE(value))
  {
    r := value;
    if flip {
      r := ScalarNegateMod(order, value);
      NegUnique(FromBE(value), FromBE(r), c.n);
    }
  }

  /** The tweak loop on byte arrays computes the residue-level context. */
  method KeyContextLoop(order: Bytes, c: Curve, keys: seq<nat>, tweaks: seq<Tweak>)
    returns (r: Result<(nat, bool, Bytes), Error>)
    requires IsOrder(order) && c.n == FromBE(order) && c.n > 1 && forall t | t in tweaks :: |t.value| == 32
    ensures r.Ok? <==> KeyContextOf(c, keys, tweaks).Ok?
    ensures r.Ok? ==> IsScalar(order, r.value.2) &&
                      KeyContextOf(c, keys, tweaks).value == KeyContext(r.value.0, r.value.1, FromBE(r.value.2))
  {
    if keys == [] || |keys| > MAX_MUSIG_KEYS || |tweaks| > MAX_MUSIG_TWEAKS {
      return Err(Bounds);
    }
    var plain := AggregatePlainKey(c, keys);
    if plain.Err? {
      return Err(plain.error);
    }
    SumInRange(c, keys, |keys|);
    var key, gaccNegative, tacc := plain.value, false, Zeros(32);
    ZeroValue(tacc);
    ghost var start := KeyContext(plain.value, false, 0);
    assert tweaks[..0] == [];
    for i := 0 to |tweaks|
      invariant IsScalar(order, tacc) && c.IsPoint(key)
      invariant ApplyTweaks(c, start, tweaks[..i]) == Ok(KeyContext(key, gaccNegative, FromBE(tacc)))
    {
      var tweak := tweaks[i];
      assert tweak in tweaks;
      assert tweaks[..i + 1][..i] == tweaks[..i];
      TweaksFailEarly(c, start, tweaks, i + 1);
      var stepped := TweakStepBytes(order, c, key, gaccNegative, tacc, tweak);
      if stepped.Err? {
        return Err(stepped.error);
      }
      key, gaccNegative, tacc := stepped.value.0, stepped.value.1, stepped.value.2;
    }
    assert tweaks[..|tweaks|] == tweaks;
    return Ok((key, gaccNegative, tacc));
  }

  /** A failing prefix makes the whole tweak list fail. */
  lemma {:induction false} TweaksFailEarly(c: Curve, x: KeyContext, tweaks: seq<Tweak>, k: nat)
    requires InRange(c, x) && k <= |tweaks|
    ensures ApplyTweaks(c, x, tweaks).Ok? ==> ApplyTweaks(c, x, tweaks[..k]).Ok?
    decreases |tweaks|
  {
    if k == |tweaks| {
      assert tweaks[..k] == tweaks;
    } else {
      TweaksFailEarly(c, x, tweaks[..|tweaks| - 1], k);
      assert tweaks[..|tweaks| - 1][..k] == tweaks[..k];
    }
  }

  /** The whole aggregation on byte arrays: it succeeds exactly when the inputs are in bounds, every
      partial verifies and the combined nonce is finite, and its output satisfies the Schnorr equation. */
  method AggregatePartialSignatures(order: Bytes, c: Curve, keys: seq<nat>, nonces: seq<Bytes>, tweaks: seq<Tweak>,
                                    message: Bytes, partials: seq<Bytes>) returns (r: Result<(Bytes, Bytes), Error>)
    requires IsOrder(order) && c.n == FromBE(order) && c.Valid() && WellTyped(c, keys, nonces, tweaks)
    requires forall p | p in partials :: |p| == 32
    ensures r.Ok? <==> && SessionBounds(keys, nonces, tweaks, message) && |partials| == |keys|
                       && AllVerify(c, keys, nonces, tweaks, message, partials)
                       && SharedSession(c, keys, nonces, tweaks, message).Ok?
                       && SharedSession(c, keys, nonces, tweaks, message).value.combined != 0
    ensures r.Ok? ==> && KeyContextOf(c, keys, tweaks).Ok?
                      && VerifySchnorr(c, c.xonly(KeyContextOf(c, keys, tweaks).value.key), message, r.value.0,
                                       FromBE(r.value.1))
  {
    if !SessionBounds(keys, nonces, tweaks, message) || |partials| != |keys| {
      return Err(Bounds);
    }
    if !AllVerify(c, keys, nonces, tweaks, message, partials) {
      return Err(Crypto);
    }
    Completeness(c, keys, nonces, tweaks, message, partials);
    PartialsInRange(c, keys, nonces, tweaks, message, partials);
    var session := SharedSession(c, keys, nonces, tweaks, message).value;
    SessionInRange(c, keys, nonces, tweaks, message);
    var scalar := AggregateScalarBytes(order, c, session, partials);
    var nonce := c.xonly(session.finalNonce);
    if !VerifySchnorr(c, c.xonly(session.context.key), message, nonce, FromBE(scalar)) {
      return Err(Crypto);
    }
    return Ok((nonce, scalar));
  }

  lemma SessionInRange(c: Curve, keys: seq<nat>, nonces: seq<Bytes>, tweaks: seq<Tweak>, message: Bytes)
    requires c.Valid() && WellTyped(c, keys, nonces, tweaks) && SharedSession(c, keys, nonces, tweaks, message).Ok?
    ensures KeyContextOf(c, keys, tweaks) == Ok(SharedSession(c, keys, nonces, tweaks, message).value.context)
    ensures SharedSession(c, keys, nonces, tweaks, message).value.challenge < c.n
    ensures SharedSession(c, keys, nonces, tweaks, message).value.context.tacc < c.n
  {
  }

  method AggregateScalarBytes(order: Bytes, c: Curve, s: Session, partials: seq<Bytes>) returns (scalar: Bytes)
    requires IsOrder(order) && c.n == FromBE(order) && c.n > 1 && s.challenge < c.n && s.context.tacc < c.n
    requires forall p | p in partials :: IsScalar(order, p)
    ensures FromBE(scalar) == AggregateScalar(c, s, partials)
  {
    var sum := SumScalars(order, c, partials);
    var correction := TweakTerm(order, c, s);
    scalar := ScalarAddMod(order, sum, correction);
  }

  lemma PartialsInRange(c: Curve, keys: seq<nat>, nonces: seq<Bytes>, tweaks: seq<Tweak>, message: Bytes,
                        partials: seq<Bytes>)
    requires c.Valid() && WellTyped(c, keys, nonces, tweaks) && AllVerify(c, keys, nonces, tweaks, message, partials)
    ensures forall p | p in partials :: FromBE(p) < c.n
  {
    forall i | 0 <= i < |partials| ensures FromBE(partials[i]) < c.n {
      assert VerifyPartial(c, keys, nonces, tweaks, i, message, partials[i]).Ok?;
    }
  }

  method SumScalars(order: Bytes, c: Curve, partials: seq<Bytes>) returns (scalar: Bytes)
    requires IsOrder(order) && c.n == FromBE(order) && c.n > 1
    requires forall p | p in partials :: IsScalar(order, p)
    ensures IsScalar(order, scalar) && FromBE(scalar) == SumPartials(c, partials, |partials|)
  {
    scalar := Zeros(32);
    ZeroValue(scalar);
    for i := 0 to |partials|
      invariant IsScalar(order, scalar) && FromBE(scalar) == SumPartials(c, partials, i)
    {
      assert partials[i] in partials;
      scalar := ScalarAddMod(order, scalar, partials[i]);
    }
  }

  method TweakTerm(order: Bytes, c: Curve, s: Session) returns (term: Bytes)
    requires IsOrder(order) && c.n == FromBE(order) && c.n > 1 && s.challenge < c.n && s.context.tacc < c.n
    ensures IsScalar(order, term) && FromBE(term) == c.NegIf(s.keyOdd, c.Mul(s.challenge, s.context.tacc))
  {
    FromBEBound(order);
    BERoundTrip(32, s.challenge);
    BERoundTrip(32, s.context.tacc);
    var product := ScalarMultiplyPublic(order, BE(32, s.challenge), BE(32, s.context.tacc));
    term := NegateIf(order, c, s.keyOdd, product.value);
  }

  // ----- the curve laws at the order of the program -----

  lemma OrderHasCurve(order: Bytes, tagged: (string, Bytes) -> Bytes) returns (c: Curve)
    requires IsOrder(order) && FromBE(order) % 2 == 1
    ensures c.n == FromBE(order) <= Pow256(32) && c.tagged == tagged && c.Valid()
  {
    var n := FromBE(order);
    FromBEBound(order);
    assert Pow256(32) == 256 * Pow256(31);
    BigEndianNumbers(n);
    IndexCurveIsValid(n, (v: nat) => BE(32, v), tagged);
    c := IndexCurve(n, (v: nat) => BE(32, v), tagged);
  }

  /** The laws assumed of a curve are met at the order compiled into the program, whatever the tagged hash. */
  lemma CurveOrderHasCurve(tagged: (string, Bytes) -> Bytes) returns (c: Curve)
    ensures c.n == FromBE(CURVE_ORDER) <= Pow256(32) && c.tagged == tagged && c.Valid()
  {
    CurveOrderIsOrder();
    c := OrderHasCurve(CURVE_ORDER, tagged);
  }
}
