/** Elements transactions on the wire: confidential fields, inputs, outputs and witnesses. */
module Elements {
  import opened ByteStrings
  import opened Wire
  import Bitcoin = Transactions

  const MAX_TRANSACTION_BYTES := 4_000_000
  const MAX_INPUTS := 4_096
  const MAX_OUTPUTS := 4_096
  const MAX_SCRIPT_BYTES := 10_000
  const MAX_PROOF_BYTES := 80_000
  const PEGIN_FLAG := 0x4000_0000
  const ISSUANCE_FLAG := 0x8000_0000

  type Blob = Bitcoin.Blob
  type Hash = Bitcoin.Txid
  type Index = x: nat | x < 0x4000_0000

  datatype Asset = AssetId(id: Hash) | AssetCommitment(bytes: Bytes)
  datatype Value = Amount(amount: U64) | ValueCommitment(bytes: Bytes)
  datatype Nonce = Null | ExplicitNonce(bytes: Bytes) | EphemeralKey(bytes: Bytes)
  datatype Issuance = Issuance(nonce: Hash, entropy: Hash, amount: Option<Value>, token: Option<Value>)

  /** An input without its witness; the issuance flag is whether an issuance is there. */
  datatype Input = Input(txid: Hash, vout: Index, scriptSig: Blob, sequence: U32, pegin: bool,
                         issuance: Option<Issuance>)
  datatype InputWitness = InputWitness(amountProof: Blob, keysProof: Blob, script: seq<Blob>, pegin: seq<Blob>)
  datatype Output = Output(asset: Asset, value: Value, nonce: Nonce, script: Blob)
  datatype OutputWitness = OutputWitness(surjection: Blob, range: Blob)

  /** Whether 33 bytes are a compressed curve point. */
  type Point = Bytes -> bool

  function Reversed(s: Bytes): (r: Bytes)
    ensures |r| == |s| && forall i :: 0 <= i < |s| ==> r[i] == s[|s| - 1 - i]
  {
    seq(|s|, i requires 0 <= i < |s| => s[|s| - 1 - i])
  }

  lemma ReversedTwice(s: Bytes)
    ensures Reversed(Reversed(s)) == s
  {
  }

  // ----- tagged fields -----

  /** A header byte and what follows it. */
  function ReadHeader(b: Bytes): Parsed<Byte> { if b == [] then Err(Encoding) else Ok((b[0], b[1..])) }

  /** A 33-byte commitment, whose header shifted by `shift` must start a point. */
  predicate OkCommitment(point: Point, c: Bytes, even: Byte, shift: nat)
    requires shift <= even < 250
  {
    |c| == 33 && (c[0] == even || c[0] == even + 1) && point([c[0] - shift] + c[1..])
  }

  function ReadAsset(point: Point, b: Bytes): Parsed<Asset> {
    var (header, b1) :- ReadHeader(b);
    var (bytes, b2) :- Take(b1, 32);
    if header == 1 then Ok((AssetId(Reversed(bytes)), b2))
    else if header == 10 || header == 11 then
      if point([header - 8] + bytes) then Ok((AssetCommitment([header] + bytes), b2)) else Err(Encoding)
    else Err(Encoding)
  }

  function WriteAsset(a: Asset): Bytes { match a case AssetId(id) => [1] + Reversed(id) case AssetCommitment(c) => c }

  predicate OkAsset(point: Point, a: Asset) { a.AssetCommitment? ==> OkCommitment(point, a.bytes, 10, 8) }

  function ReadOptionalValue(point: Point, b: Bytes): Parsed<Option<Value>> {
    var (header, b1) :- ReadHeader(b);
    if header == 0 then Ok((None, b1))
    else if header == 1 then
      var (bytes, b2) :- Take(b1, 8);
      AmountFits(bytes);
      Ok((Some(Amount(FromBE(bytes))), b2))
    else if header == 8 || header == 9 then
      var (bytes, b2) :- Take(b1, 32);
      if point([header - 6] + bytes) then Ok((Some(ValueCommitment([header] + bytes)), b2)) else Err(Encoding)
    else Err(Encoding)
  }

  lemma AmountFits(bytes: Bytes)
    ensures |bytes| == 8 ==> FromBE(bytes) < 0x1_0000_0000_0000_0000
  {
    Pow256Values();
    FromBEBound(bytes);
  }

  function WriteValue(v: Option<Value>): Bytes {
    match v
    case None => [0]
    case Some(Amount(amount)) => [1] + BE(8, amount)
    case Some(ValueCommitment(c)) => c
  }

  predicate OkValue(point: Point, v: Option<Value>) {
    v.Some? && v.value.ValueCommitment? ==> OkCommitment(point, v.value.bytes, 8, 6)
  }

  function ReadNonce(b: Bytes): Parsed<Nonce> {
    var (header, b1) :- ReadHeader(b);
    if header == 0 then Ok((Null, b1))
    else if header <= 3 then
      var (bytes, b2) :- Take(b1, 32);
      Ok((if header == 1 then ExplicitNonce([1] + bytes) else EphemeralKey([header] + bytes), b2))
    else Err(Encoding)
  }

  function WriteNonce(n: Nonce): Bytes { if n.Null? then [0] else n.bytes }

  predicate OkNonce(n: Nonce) {
    match n
    case Null => true
    case ExplicitNonce(b) => |b| == 33 && b[0] == 1
    case EphemeralKey(b) => |b| == 33 && (b[0] == 2 || b[0] == 3)
  }

  lemma HeaderExact(h: Byte, s: Bytes, rest: Bytes)
    ensures ReadHeader([h] + s + rest) == Ok((h, s + rest))
  {
    assert ([h] + s + rest)[1..] == s + rest;
  }

  lemma Headed(c: Bytes)
    requires c != []
    ensures c == [c[0]] + c[1..]
  {
  }

  lemma AssetExact(point: Point, a: Asset, rest: Bytes)
    requires OkAsset(point, a)
    ensures ReadAsset(point, WriteAsset(a) + rest) == Ok((a, rest))
  {
    match a
    case AssetId(id) =>
      HeaderExact(1, Reversed(id), rest);
      TakeExact(Reversed(id), rest);
      ReversedTwice(id);
    case AssetCommitment(c) =>
      Headed(c);
      HeaderExact(c[0], c[1..], rest);
      TakeExact(c[1..], rest);
  }

  lemma AssetWritten(point: Point, b: Bytes)
    requires ReadAsset(point, b).Ok?
    ensures var (a, rest) := ReadAsset(point, b).value; OkAsset(point, a) && b == WriteAsset(a) + rest
  {
    Headed(b);
    var (bytes, b2) := Take(b[1..], 32).value;
    ReversedTwice(bytes);
    assert [b[0]] + (bytes + b2) == [b[0]] + bytes + b2;
    assert ([b[0]] + bytes)[1..] == bytes;
  }

  lemma ValueExact(point: Point, v: Option<Value>, rest: Bytes)
    requires OkValue(point, v)
    ensures ReadOptionalValue(point, WriteValue(v) + rest) == Ok((v, rest))
  {
    match v
    case None => assert ([0] + rest)[1..] == rest;
    case Some(Amount(amount)) =>
      Pow256Values();
      HeaderExact(1, BE(8, amount), rest);
      TakeExact(BE(8, amount), rest);
      BERoundTrip(8, amount);
    case Some(ValueCommitment(c)) =>
      Headed(c);
      HeaderExact(c[0], c[1..], rest);
      TakeExact(c[1..], rest);
  }

  lemma ValueWritten(point: Point, b: Bytes)
    requires ReadOptionalValue(point, b).Ok?
    ensures var (v, rest) := ReadOptionalValue(point, b).value; OkValue(point, v) && b == WriteValue(v) + rest
  {
    Headed(b);
    if b[0] == 1 {
      var (bytes, b2) := Take(b[1..], 8).value;
      FromBERoundTrip(bytes);
      assert [1] + (bytes + b2) == [1] + bytes + b2;
    } else if b[0] != 0 {
      var (bytes, b2) := Take(b[1..], 32).value;
      assert [b[0]] + (bytes + b2) == [b[0]] + bytes + b2;
      assert ([b[0]] + bytes)[1..] == bytes;
    }
  }

  lemma NonceExact(n: Nonce, rest: Bytes)
    requires OkNonce(n)
    ensures ReadNonce(WriteNonce(n) + rest) == Ok((n, rest))
  {
    if n.Null? {
      assert ([0] + rest)[1..] == rest;
    } else {
      var c := n.bytes;
      Headed(c);
      HeaderExact(c[0], c[1..], rest);
      TakeExact(c[1..], rest);
    }
  }

  lemma NonceWritten(b: Bytes)
    requires ReadNonce(b).Ok?
    ensures var (n, rest) := ReadNonce(b).value; OkNonce(n) && b == WriteNonce(n) + rest
  {
    Headed(b);
    if b[0] != 0 {
      var (bytes, b2) := Take(b[1..], 32).value;
      assert [b[0]] + (bytes + b2) == [b[0]] + bytes + b2;
    }
  }

  // ----- inputs -----

  function WriteIssuance(i: Issuance): Bytes { i.nonce + i.entropy + WriteValue(i.amount) + WriteValue(i.token) }

  function ReadIssuance(point: Point, b: Bytes): Parsed<Issuance> {
    var (nonce, b1) :- Take(b, 32);
    var (entropy, b2) :- Take(b1, 32);
    var (amount, b3) :- ReadOptionalValue(point, b2);
    var (token, b4) :- ReadOptionalValue(point, b3);
    Ok((Issuance(nonce, entropy, amount, token), b4))
  }

  predicate OkIssuance(point: Point, i: Issuance) { OkValue(point, i.amount) && OkValue(point, i.token) }

  /** The issuance, if the flag announces one. */
  function ReadIssuanceIf(point: Point, there: bool, b: Bytes): Parsed<Option<Issuance>> {
    if !there then Ok((None, b))
    else
      var (i, rest) :- ReadIssuance(point, b);
      Ok((Some(i), rest))
  }

  function WriteIssuanceIf(i: Option<Issuance>): Bytes { match i case None => [] case Some(x) => WriteIssuance(x) }

  /** The output index with the two flags of its input. */
  function FlaggedIndex(i: Input): U32 {
    i.vout + (if i.pegin then PEGIN_FLAG else 0) + (if i.issuance.Some? then ISSUANCE_FLAG else 0)
  }

  function WriteInput(i: Input): Bytes {
    Reversed(i.txid) + LE(4, FlaggedIndex(i)) + VarBytes(i.scriptSig) + LE(4, i.sequence) + WriteIssuanceIf(i.issuance)
  }

  function ReadInput(point: Point, b: Bytes): Parsed<Input> {
    var (txid, b1) :- Take(b, 32);
    var (index, b2) :- ReadLE(b1, 4);
    var (scriptSig, b3) :- ReadVarBytes(b2, MAX_SCRIPT_BYTES);
    var (sequence, b4) :- ReadLE(b3, 4);
    var (issuance, b5) :- ReadIssuanceIf(point, index >= ISSUANCE_FLAG, b4);
    Bitcoin.WordFits(b3);
    VarBytesWritten(b2, MAX_SCRIPT_BYTES);
    Ok((Input(Reversed(txid), index % PEGIN_FLAG, scriptSig, sequence, index / PEGIN_FLAG % 2 == 1, issuance), b5))
  }

  predicate OkInput(point: Point, i: Input) {
    |i.scriptSig| <= MAX_SCRIPT_BYTES && (i.issuance.Some? ==> OkIssuance(point, i.issuance.value))
  }

  lemma IssuanceExact(point: Point, i: Option<Issuance>, rest: Bytes)
    requires i.Some? ==> OkIssuance(point, i.value)
    ensures ReadIssuanceIf(point, i.Some?, WriteIssuanceIf(i) + rest) == Ok((i, rest))
  {
    match i
    case None => assert [] + rest == rest;
    case Some(x) =>
      var r3 := WriteValue(x.token) + rest;
      var r2 := WriteValue(x.amount) + r3;
      var r1 := x.entropy + r2;
      assert WriteIssuance(x) + rest == x.nonce + r1;
      TakeExact(x.nonce, r1);
      TakeExact(x.entropy, r2);
      ValueExact(point, x.amount, r3);
      ValueExact(point, x.token, rest);
  }

  lemma IssuanceWritten(point: Point, there: bool, b: Bytes)
    requires ReadIssuanceIf(point, there, b).Ok?
    ensures var (i, rest) := ReadIssuanceIf(point, there, b).value;
            i.Some? == there && (i.Some? ==> OkIssuance(point, i.value)) && b == WriteIssuanceIf(i) + rest
  {
    if there {
      var (nonce, b1) := Take(b, 32).value;
      var (entropy, b2) := Take(b1, 32).value;
      var (amount, b3) := ReadOptionalValue(point, b2).value;
      var (token, b4) := ReadOptionalValue(point, b3).value;
      ValueWritten(point, b2);
      ValueWritten(point, b3);
      assert nonce + (entropy + (WriteValue(amount) + (WriteValue(token) + b4)))
          == nonce + entropy + WriteValue(amount) + WriteValue(token) + b4;
    } else {
      assert [] + b == b;
    }
  }

  /** The flags and the index are read back from the flagged index. */
  lemma IndexExact(i: Input)
    ensures var x := FlaggedIndex(i);
            (x >= ISSUANCE_FLAG) == i.issuance.Some? && x % PEGIN_FLAG == i.vout && (x / PEGIN_FLAG % 2 == 1) == i.pegin
  {
  }

  lemma InputExact(point: Point, i: Input, rest: Bytes)
    requires OkInput(point, i)
    ensures ReadInput(point, WriteInput(i) + rest) == Ok((i, rest))
  {
    Pow256Values();
    var r4 := WriteIssuanceIf(i.issuance) + rest;
    var r3 := LE(4, i.sequence) + r4;
    var r2 := VarBytes(i.scriptSig) + r3;
    var r1 := LE(4, FlaggedIndex(i)) + r2;
    assert WriteInput(i) + rest == Reversed(i.txid) + r1;
    TakeExact(Reversed(i.txid), r1);
    ReadLEExact(4, FlaggedIndex(i), r2);
    VarBytesExact(i.scriptSig, MAX_SCRIPT_BYTES, r3);
    ReadLEExact(4, i.sequence, r4);
    IndexExact(i);
    IssuanceExact(point, i.issuance, rest);
    ReversedTwice(i.txid);
  }

  lemma IndexWritten(index: nat, i: Input)
    requires index < 0x1_0000_0000 && i.issuance.Some? == (index >= ISSUANCE_FLAG)
    requires i.vout == index % PEGIN_FLAG && i.pegin == (index / PEGIN_FLAG % 2 == 1)
    ensures FlaggedIndex(i) == index
  {
  }

  lemma InputWritten(point: Point, b: Bytes)
    requires ReadInput(point, b).Ok?
    ensures var (i, rest) := ReadInput(point, b).value; OkInput(point, i) && b == WriteInput(i) + rest
  {
    Pow256Values();
    var (txid, b1) := Take(b, 32).value;
    var (index, b2) := ReadLE(b1, 4).value;
    var (scriptSig, b3) := ReadVarBytes(b2, MAX_SCRIPT_BYTES).value;
    var (sequence, b4) := ReadLE(b3, 4).value;
    var i := ReadInput(point, b).value.0;
    var b5 := ReadInput(point, b).value.1;
    ReadLEWritten(4, b1);
    VarBytesWritten(b2, MAX_SCRIPT_BYTES);
    ReadLEWritten(4, b3);
    IssuanceWritten(point, index >= ISSUANCE_FLAG, b4);
    IndexWritten(index, i);
    ReversedTwice(txid);
    Joined5(txid, LE(4, index), VarBytes(scriptSig), LE(4, sequence), WriteIssuanceIf(i.issuance), b5);
  }

  lemma Joined5(a: Bytes, b: Bytes, c: Bytes, d: Bytes, e: Bytes, rest: Bytes)
    ensures a + (b + (c + (d + (e + rest)))) == a + b + c + d + e + rest
  {
  }

  // ----- outputs -----

  function WriteOutput(o: Output): Bytes {
    WriteAsset(o.asset) + WriteValue(Some(o.value)) + WriteNonce(o.nonce) + VarBytes(o.script)
  }

  function ReadOutput(point: Point, b: Bytes): Parsed<Output> {
    var (asset, b1) :- ReadAsset(point, b);
    var (value, b2) :- ReadOptionalValue(point, b1);
    if value.None? then Err(Encoding)
    else
      var (nonce, b3) :- ReadNonce(b2);
      var (script, b4) :- ReadVarBytes(b3, MAX_SCRIPT_BYTES);
      VarBytesWritten(b3, MAX_SCRIPT_BYTES);
      Ok((Output(asset, value.value, nonce, script), b4))
  }

  predicate OkOutput(point: Point, o: Output) {
    OkAsset(point, o.asset) && OkValue(point, Some(o.value)) && OkNonce(o.nonce) && |o.script| <= MAX_SCRIPT_BYTES
  }

  lemma OutputExact(point: Point, o: Output, rest: Bytes)
    requires OkOutput(point, o)
    ensures ReadOutput(point, WriteOutput(o) + rest) == Ok((o, rest))
  {
    var r3 := VarBytes(o.script) + rest;
    var r2 := WriteNonce(o.nonce) + r3;
    var r1 := WriteValue(Some(o.value)) + r2;
    assert WriteOutput(o) + rest == WriteAsset(o.asset) + r1;
    AssetExact(point, o.asset, r1);
    ValueExact(point, Some(o.value), r2);
    NonceExact(o.nonce, r3);
    VarBytesExact(o.script, MAX_SCRIPT_BYTES, rest);
  }

  lemma OutputWritten(point: Point, b: Bytes)
    requires ReadOutput(point, b).Ok?
    ensures var (o, rest) := ReadOutput(point, b).value; OkOutput(point, o) && b == WriteOutput(o) + rest
  {
    var (asset, b1) := ReadAsset(point, b).value;
    var (value, b2) := ReadOptionalValue(point, b1).value;
    var (nonce, b3) := ReadNonce(b2).value;
    var (script, b4) := ReadVarBytes(b3, MAX_SCRIPT_BYTES).value;
    AssetWritten(point, b);
    ValueWritten(point, b1);
    NonceWritten(b2);
    VarBytesWritten(b3, MAX_SCRIPT_BYTES);
    Bitcoin.Joined4(WriteAsset(asset), WriteValue(value), WriteNonce(nonce), VarBytes(script), b4);
  }

  lemma Joined2(a: Bytes, b: Bytes, rest: Bytes)
    ensures a + (b + rest) == a + b + rest
  {
  }

  // ----- witnesses -----

  function WriteInputWitness(w: InputWitness): Bytes {
    VarBytes(w.amountProof) + VarBytes(w.keysProof) + Bitcoin.WriteStack(w.script) + Bitcoin.WriteStack(w.pegin)
  }

  function ReadInputWitness(b: Bytes): Parsed<InputWitness> {
    var (amountProof, b1) :- ReadVarBytes(b, MAX_PROOF_BYTES);
    var (keysProof, b2) :- ReadVarBytes(b1, MAX_PROOF_BYTES);
    var (script, b3) :- Bitcoin.ReadStack(b2);
    var (pegin, b4) :- Bitcoin.ReadStack(b3);
    VarBytesWritten(b, MAX_PROOF_BYTES);
    VarBytesWritten(b1, MAX_PROOF_BYTES);
    Ok((InputWitness(amountProof, keysProof, script, pegin), b4))
  }

  predicate OkInputWitness(w: InputWitness) {
    && |w.amountProof| <= MAX_PROOF_BYTES && |w.keysProof| <= MAX_PROOF_BYTES
    && Bitcoin.OkStack(w.script) && Bitcoin.OkStack(w.pegin)
  }

  function WriteOutputWitness(w: OutputWitness): Bytes { VarBytes(w.surjection) + VarBytes(w.range) }

  function ReadOutputWitness(b: Bytes): Parsed<OutputWitness> {
    var (surjection, b1) :- ReadVarBytes(b, MAX_PROOF_BYTES);
    var (range, b2) :- ReadVarBytes(b1, MAX_PROOF_BYTES);
    VarBytesWritten(b, MAX_PROOF_BYTES);
    VarBytesWritten(b1, MAX_PROOF_BYTES);
    Ok((OutputWitness(surjection, range), b2))
  }

  predicate OkOutputWitness(w: OutputWitness) { |w.surjection| <= MAX_PROOF_BYTES && |w.range| <= MAX_PROOF_BYTES }

  lemma InputWitnessExact(w: InputWitness, rest: Bytes)
    requires OkInputWitness(w)
    ensures ReadInputWitness(WriteInputWitness(w) + rest) == Ok((w, rest))
  {
    var r3 := Bitcoin.WriteStack(w.pegin) + rest;
    var r2 := Bitcoin.WriteStack(w.script) + r3;
    var r1 := VarBytes(w.keysProof) + r2;
    assert WriteInputWitness(w) + rest == VarBytes(w.amountProof) + r1;
    VarBytesExact(w.amountProof, MAX_PROOF_BYTES, r1);
    VarBytesExact(w.keysProof, MAX_PROOF_BYTES, r2);
    Bitcoin.StackFormat();
    assert Bitcoin.ReadStack(r2) == Ok((w.script, r3));
  }

  lemma InputWitnessWritten(b: Bytes)
    requires ReadInputWitness(b).Ok?
    ensures var (w, rest) := ReadInputWitness(b).value; OkInputWitness(w) && b == WriteInputWitness(w) + rest
  {
    var (amountProof, b1) := ReadVarBytes(b, MAX_PROOF_BYTES).value;
    var (keysProof, b2) := ReadVarBytes(b1, MAX_PROOF_BYTES).value;
    var (script, b3) := Bitcoin.ReadStack(b2).value;
    var (pegin, b4) := Bitcoin.ReadStack(b3).value;
    VarBytesWritten(b, MAX_PROOF_BYTES);
    VarBytesWritten(b1, MAX_PROOF_BYTES);
    Bitcoin.StackFormat();
    Bitcoin.Joined4(VarBytes(amountProof), VarBytes(keysProof), Bitcoin.WriteStack(script), Bitcoin.WriteStack(pegin),
                    b4);
  }

  lemma OutputWitnessExact(w: OutputWitness, rest: Bytes)
    requires OkOutputWitness(w)
    ensures ReadOutputWitness(WriteOutputWitness(w) + rest) == Ok((w, rest))
  {
    var r1 := VarBytes(w.range) + rest;
    assert WriteOutputWitness(w) + rest == VarBytes(w.surjection) + r1;
    VarBytesExact(w.surjection, MAX_PROOF_BYTES, r1);
    VarBytesExact(w.range, MAX_PROOF_BYTES, rest);
  }

  lemma OutputWitnessWritten(b: Bytes)
    requires ReadOutputWitness(b).Ok?
    ensures var (w, rest) := ReadOutputWitness(b).value; OkOutputWitness(w) && b == WriteOutputWitness(w) + rest
  {
    var (surjection, b1) := ReadVarBytes(b, MAX_PROOF_BYTES).value;
    var (range, b2) := ReadVarBytes(b1, MAX_PROOF_BYTES).value;
    VarBytesWritten(b, MAX_PROOF_BYTES);
    VarBytesWritten(b1, MAX_PROOF_BYTES);
    Joined2(VarBytes(surjection), VarBytes(range), b2);
  }
}
