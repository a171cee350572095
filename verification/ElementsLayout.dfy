/** The Elements transaction format field by field, and the parser as its exact recogniser. */
module ElementsLayout {
  import opened ByteStrings
  import opened Wire
  import opened WireLayout
  import opened Elements
  import opened ElementsCodec
  import Bitcoin = Transactions
  import BitcoinLayout = TransactionLayout

  // ----- fields -----

  /** The bytes of a hash in the opposite order. */
  ghost predicate IsBackwards(b: Bytes, h: Hash) { |b| == 32 && forall k :: 0 <= k < 32 ==> b[k] == h[31 - k] }

  /** Eight bytes, most significant first. */
  ghost predicate IsBig(b: Bytes, v: nat) { |b| == 8 && IsLong(Backwards(b), v) }

  ghost function Backwards(b: Bytes): (r: Bytes)
    ensures |r| == |b| && forall k :: 0 <= k < |b| ==> r[k] == b[|b| - 1 - k]
  {
    seq(|b|, k requires 0 <= k < |b| => b[|b| - 1 - k])
  }

  /** Tag 1 and the identifier backwards, or a commitment as it is. */
  ghost predicate IsAsset(b: Bytes, a: Asset) {
    match a
    case AssetId(id) => |b| == 33 && b[0] == 1 && IsBackwards(b[1..], id)
    case AssetCommitment(c) => b == c
  }

  /** Tag 0 for no value, tag 1 and eight bytes for an amount, or a commitment as it is. */
  ghost predicate IsValue(b: Bytes, v: Option<Value>) {
    match v
    case None => b == [0]
    case Some(Amount(amount)) => |b| == 9 && b[0] == 1 && IsBig(b[1..], amount)
    case Some(ValueCommitment(c)) => b == c
  }

  ghost predicate IsNonce(b: Bytes, n: Nonce) { if n.Null? then b == [0] else b == n.bytes }

  lemma BackwardsIff(b: Bytes, h: Hash)
    ensures IsBackwards(b, h) <==> b == Reversed(h)
  {
  }

  lemma BigIff(b: Bytes, v: U64)
    ensures IsBig(b, v) <==> b == BE(8, v)
  {
    LongIff(Backwards(b), v);
    assert Backwards(BE(8, v)) == LE(8, v);
    if Backwards(b) == LE(8, v) { assert b == Backwards(LE(8, v)) == BE(8, v); }
  }

  lemma TaggedIff(b: Bytes, tag: Byte, tail: Bytes)
    ensures b == [tag] + tail <==> |b| == 1 + |tail| && b[0] == tag && b[1..] == tail
  {
    if b == [tag] + tail { assert ([tag] + tail)[1..] == tail; }
  }

  lemma AssetIff(b: Bytes, a: Asset)
    ensures IsAsset(b, a) <==> b == WriteAsset(a)
  {
    if a.AssetId? {
      TaggedIff(b, 1, Reversed(a.id));
      if |b| == 33 { BackwardsIff(b[1..], a.id); }
    }
  }

  lemma ValueIff(b: Bytes, v: Option<Value>)
    ensures IsValue(b, v) <==> b == WriteValue(v)
  {
    if v.Some? && v.value.Amount? {
      TaggedIff(b, 1, BE(8, v.value.amount));
      if |b| == 9 { BigIff(b[1..], v.value.amount); }
    }
  }

  ghost function Hash32(h: Hash): Field { x => IsBackwards(x, h) }

  ghost function AssetOf(a: Asset): Field { x => IsAsset(x, a) }

  ghost function ValueOf(v: Option<Value>): Field { x => IsValue(x, v) }

  ghost function NonceOf(n: Nonce): Field { x => IsNonce(x, n) }

  ghost function StackOf(w: seq<Blob>): Field { x => BitcoinLayout.IsStack(x, w) }

  lemma FieldsAre(h: Hash, a: Asset, v: Option<Value>, n: Nonce)
    ensures Describes(Hash32(h), Reversed(h)) && Describes(AssetOf(a), WriteAsset(a))
    ensures Describes(ValueOf(v), WriteValue(v)) && Describes(NonceOf(n), WriteNonce(n))
  {
    forall x ensures IsBackwards(x, h) <==> x == Reversed(h) { BackwardsIff(x, h); }
    forall x ensures IsAsset(x, a) <==> x == WriteAsset(a) { AssetIff(x, a); }
    forall x ensures IsValue(x, v) <==> x == WriteValue(v) { ValueIff(x, v); }
  }

  lemma StackField(w: seq<Blob>)
    requires |w| < 0x1_0000_0000_0000_0000
    ensures Describes(StackOf(w), Bitcoin.WriteStack(w))
  {
    forall x ensures BitcoinLayout.IsStack(x, w) <==> x == Bitcoin.WriteStack(w) { BitcoinLayout.StackIff(x, w); }
  }

  // ----- inputs and outputs -----

  /** Nonce, entropy, amount and token amount of an issuance. */
  ghost predicate IsIssuance(b: Bytes, i: Option<Issuance>) {
    match i
    case None => b == []
    case Some(x) => IsRecord(b, [Raw(x.nonce), Raw(x.entropy), ValueOf(x.amount), ValueOf(x.token)])
  }

  ghost function IssuanceOf(i: Option<Issuance>): Field { x => IsIssuance(x, i) }

  lemma IssuanceIff(b: Bytes, i: Option<Issuance>)
    ensures IsIssuance(b, i) <==> b == WriteIssuanceIf(i)
  {
    if i.Some? {
      var x := i.value;
      var fields := [Raw(x.nonce), Raw(x.entropy), ValueOf(x.amount), ValueOf(x.token)];
      var ws := [x.nonce, x.entropy, WriteValue(x.amount), WriteValue(x.token)];
      FieldsAre(x.nonce, AssetId(x.nonce), x.amount, Null);
      FieldsAre(x.nonce, AssetId(x.nonce), x.token, Null);
      RecordIff(b, fields, ws);
      JoinedFour(ws[0], ws[1], ws[2], ws[3]);
    }
  }

  lemma IssuanceField(i: Option<Issuance>)
    ensures Describes(IssuanceOf(i), WriteIssuanceIf(i))
  {
    forall x ensures IsIssuance(x, i) <==> x == WriteIssuanceIf(i) { IssuanceIff(x, i); }
  }

  /** The index with bit 30 for a peg-in and bit 31 for an issuance. */
  ghost function Flagged(i: Input): nat {
    i.vout + (if i.pegin then 0x4000_0000 else 0) + (if i.issuance.Some? then 0x8000_0000 else 0)
  }

  /** The identifier backwards, the flagged index, script, sequence number and the issuance. */
  ghost function InputFields(i: Input): seq<Field> {
    [Hash32(i.txid), Word(Flagged(i)), Text(i.scriptSig), Word(i.sequence), IssuanceOf(i.issuance)]
  }

  ghost predicate IsInput(b: Bytes, i: Input) { IsRecord(b, InputFields(i)) }

  ghost function InputParts(i: Input): seq<Bytes> {
    [Reversed(i.txid), LE(4, FlaggedIndex(i)), VarBytes(i.scriptSig), LE(4, i.sequence), WriteIssuanceIf(i.issuance)]
  }

  lemma InputDescribed(i: Input)
    ensures forall k :: 0 <= k < 5 ==> Describes(InputFields(i)[k], InputParts(i)[k])
  {
    FieldsAre(i.txid, AssetId(i.txid), None, Null);
    assert Flagged(i) == FlaggedIndex(i);
    WordField(FlaggedIndex(i));
    TextField(i.scriptSig);
    WordField(i.sequence);
    IssuanceField(i.issuance);
  }

  lemma InputIff(b: Bytes, i: Input)
    ensures IsInput(b, i) <==> b == WriteInput(i)
  {
    InputDescribed(i);
    RecordIff(b, InputFields(i), InputParts(i));
    JoinedFive(Reversed(i.txid), LE(4, FlaggedIndex(i)), VarBytes(i.scriptSig), LE(4, i.sequence),
               WriteIssuanceIf(i.issuance));
  }

  /** Asset, value, nonce and script. */
  ghost predicate IsOutput(b: Bytes, o: Output) {
    IsRecord(b, [AssetOf(o.asset), ValueOf(Some(o.value)), NonceOf(o.nonce), Text(o.script)])
  }

  lemma OutputIff(b: Bytes, o: Output)
    ensures IsOutput(b, o) <==> b == WriteOutput(o)
  {
    var fields := [AssetOf(o.asset), ValueOf(Some(o.value)), NonceOf(o.nonce), Text(o.script)];
    var ws := [WriteAsset(o.asset), WriteValue(Some(o.value)), WriteNonce(o.nonce), VarBytes(o.script)];
    FieldsAre(Zeros(32), o.asset, Some(o.value), o.nonce);
    TextField(o.script);
    RecordIff(b, fields, ws);
    JoinedFour(ws[0], ws[1], ws[2], ws[3]);
  }

  /** Two proofs, the script witness and the peg-in witness. */
  ghost predicate IsInputWitness(b: Bytes, w: InputWitness) {
    IsRecord(b, [Text(w.amountProof), Text(w.keysProof), StackOf(w.script), StackOf(w.pegin)])
  }

  predicate Countable(w: InputWitness) {
    |w.script| < 0x1_0000_0000_0000_0000 && |w.pegin| < 0x1_0000_0000_0000_0000
  }

  lemma InputWitnessIff(b: Bytes, w: InputWitness)
    requires Countable(w)
    ensures IsInputWitness(b, w) <==> b == WriteInputWitness(w)
  {
    var fields := [Text(w.amountProof), Text(w.keysProof), StackOf(w.script), StackOf(w.pegin)];
    var ws := [VarBytes(w.amountProof), VarBytes(w.keysProof), Bitcoin.WriteStack(w.script),
               Bitcoin.WriteStack(w.pegin)];
    TextField(w.amountProof);
    TextField(w.keysProof);
    StackField(w.script);
    StackField(w.pegin);
    RecordIff(b, fields, ws);
    JoinedFour(ws[0], ws[1], ws[2], ws[3]);
  }

  /** The surjection proof and the range proof. */
  ghost predicate IsOutputWitness(b: Bytes, w: OutputWitness) { IsRecord(b, [Text(w.surjection), Text(w.range)]) }

  lemma OutputWitnessIff(b: Bytes, w: OutputWitness)
    ensures IsOutputWitness(b, w) <==> b == WriteOutputWitness(w)
  {
    var ws := [VarBytes(w.surjection), VarBytes(w.range)];
    TextField(w.surjection);
    TextField(w.range);
    RecordIff(b, [Text(w.surjection), Text(w.range)], ws);
    JoinedTwo(ws[0], ws[1]);
  }

  // ----- transactions -----

  ghost function VersionOf(v: Bitcoin.I32): Field { x => BitcoinLayout.IsVersion(x, v) }

  ghost function InputsOf(xs: seq<Input>): Field { x => IsCounted(x, xs, IsInput) }

  ghost function OutputsOf(xs: seq<Output>): Field { x => IsCounted(x, xs, IsOutput) }

  ghost function InputWitnessesOf(ws: seq<InputWitness>): Field { x => IsMany(x, ws, IsInputWitness) }

  ghost function OutputWitnessesOf(ws: seq<OutputWitness>): Field { x => IsMany(x, ws, IsOutputWitness) }

  /** A witness for every input, then one for every output; nothing without the flag. */
  ghost predicate IsWitnesses(b: Bytes, w: Option<Witnesses>) {
    match w
    case None => b == []
    case Some(x) => IsRecord(b, [InputWitnessesOf(x.inputs), OutputWitnessesOf(x.outputs)])
  }

  ghost function WitnessesOf(w: Option<Witnesses>): Field { x => IsWitnesses(x, w) }

  /** Version, flag byte, counted inputs and outputs, lock time, witnesses. */
  ghost function TransactionFields(t: Transaction): seq<Field> {
    [VersionOf(t.version), Raw([if t.witnesses.Some? then 1 else 0]), InputsOf(t.inputs), OutputsOf(t.outputs),
     Word(t.lockTime)] + [WitnessesOf(t.witnesses)]
  }

  ghost predicate IsTransaction(b: Bytes, t: Transaction) { IsRecord(b, TransactionFields(t)) }

  ghost predicate Countables(t: Transaction) {
    && |t.inputs| < 0x1_0000_0000_0000_0000 && |t.outputs| < 0x1_0000_0000_0000_0000
    && (t.witnesses.Some? ==> forall w :: w in t.witnesses.value.inputs ==> Countable(w))
  }

  lemma VersionField(v: Bitcoin.I32)
    ensures Describes(VersionOf(v), LE(4, Bitcoin.ToWord(v)))
  {
    forall x
      ensures BitcoinLayout.IsVersion(x, v) <==> x == LE(4, Bitcoin.ToWord(v))
    {
      BitcoinLayout.VersionIff(x, v);
    }
  }

  lemma ListFields(t: Transaction)
    requires Countables(t)
    ensures Describes(InputsOf(t.inputs), WriteCounted(WriteInput, t.inputs))
    ensures Describes(OutputsOf(t.outputs), WriteCounted(WriteOutput, t.outputs))
  {
    forall b: Bytes, i: Input ensures IsInput(b, i) <==> b == WriteInput(i) { InputIff(b, i); }
    assert Formats(WriteInput, IsInput, (_: Input) => true);
    forall x ensures IsCounted(x, t.inputs, IsInput) <==> x == WriteCounted(WriteInput, t.inputs) {
      CountedIff(WriteInput, IsInput, (_: Input) => true, x, t.inputs);
    }
    forall b: Bytes, o: Output ensures IsOutput(b, o) <==> b == WriteOutput(o) { OutputIff(b, o); }
    assert Formats(WriteOutput, IsOutput, (_: Output) => true);
    forall x ensures IsCounted(x, t.outputs, IsOutput) <==> x == WriteCounted(WriteOutput, t.outputs) {
      CountedIff(WriteOutput, IsOutput, (_: Output) => true, x, t.outputs);
    }
  }

  lemma WitnessLists(w: Witnesses)
    requires forall x :: x in w.inputs ==> Countable(x)
    ensures Describes(InputWitnessesOf(w.inputs), WriteMany(WriteInputWitness, w.inputs))
    ensures Describes(OutputWitnessesOf(w.outputs), WriteMany(WriteOutputWitness, w.outputs))
  {
    forall b: Bytes, x: InputWitness | Countable(x) ensures IsInputWitness(b, x) <==> b == WriteInputWitness(x) {
      InputWitnessIff(b, x);
    }
    forall x ensures IsMany(x, w.inputs, IsInputWitness) <==> x == WriteMany(WriteInputWitness, w.inputs) {
      ManyIff(WriteInputWitness, IsInputWitness, Countable, x, w.inputs);
    }
    forall b: Bytes, x: OutputWitness ensures IsOutputWitness(b, x) <==> b == WriteOutputWitness(x) {
      OutputWitnessIff(b, x);
    }
    assert Formats(WriteOutputWitness, IsOutputWitness, (_: OutputWitness) => true);
    forall x ensures IsMany(x, w.outputs, IsOutputWitness) <==> x == WriteMany(WriteOutputWitness, w.outputs) {
      ManyIff(WriteOutputWitness, IsOutputWitness, (_: OutputWitness) => true, x, w.outputs);
    }
  }

  lemma WitnessesField(w: Option<Witnesses>)
    requires w.Some? ==> forall x :: x in w.value.inputs ==> Countable(x)
    ensures Describes(WitnessesOf(w), WriteWitnessesIf(w))
  {
    forall b ensures IsWitnesses(b, w) <==> b == WriteWitnessesIf(w) {
      if w.Some? {
        var ins, outs := WriteMany(WriteInputWitness, w.value.inputs), WriteMany(WriteOutputWitness, w.value.outputs);
        WitnessLists(w.value);
        RecordIff(b, [InputWitnessesOf(w.value.inputs), OutputWitnessesOf(w.value.outputs)], [ins, outs]);
        JoinedTwo(ins, outs);
      }
    }
  }

  ghost function TransactionParts(t: Transaction): seq<Bytes> {
    [LE(4, Bitcoin.ToWord(t.version)), [if t.witnesses.Some? then 1 else 0], WriteCounted(WriteInput, t.inputs),
     WriteCounted(WriteOutput, t.outputs), LE(4, t.lockTime)] + [WriteWitnessesIf(t.witnesses)]
  }

  lemma TransactionDescribed(t: Transaction)
    requires Countables(t)
    ensures forall k :: 0 <= k < 6 ==> Describes(TransactionFields(t)[k], TransactionParts(t)[k])
  {
    VersionField(t.version);
    ListFields(t);
    WordField(t.lockTime);
    WitnessesField(t.witnesses);
  }

  lemma SixJoined(v: Bytes, flag: Bytes, ins: Bytes, outs: Bytes, lock: Bytes, wit: Bytes)
    ensures Joined([v, flag, ins, outs, lock] + [wit]) == v + flag + (ins + outs + lock) + wit
  {
    JoinedFive(v, flag, ins, outs, lock);
    JoinedMore([v, flag, ins, outs, lock], wit);
    assert v + flag + (ins + outs + lock) == v + flag + ins + outs + lock;
  }

  lemma PartsEncode(t: Transaction)
    ensures Joined(TransactionParts(t)) == Encode(t)
  {
    SixJoined(LE(4, Bitcoin.ToWord(t.version)), [if t.witnesses.Some? then 1 else 0],
              WriteCounted(WriteInput, t.inputs), WriteCounted(WriteOutput, t.outputs), LE(4, t.lockTime),
              WriteWitnessesIf(t.witnesses));
  }

  lemma TransactionIff(b: Bytes, t: Transaction)
    requires Countables(t)
    ensures IsTransaction(b, t) <==> b == Encode(t)
  {
    TransactionDescribed(t);
    RecordIff(b, TransactionFields(t), TransactionParts(t));
    PartsEncode(t);
  }

  // ----- limits -----

  /** 33 bytes with one of two tags, a curve point once the tag is lowered to 2 or 3. */
  ghost predicate IsCommitment(point: Point, c: Bytes, tag: nat) {
    |c| == 33 && (c[0] == tag || c[0] == tag + 1) && point([if c[0] == tag then 2 else 3] + c[1..])
  }

  ghost predicate AssetFits(point: Point, a: Asset) { a.AssetCommitment? ==> IsCommitment(point, a.bytes, 10) }

  ghost predicate ValueFits(point: Point, v: Option<Value>) {
    v.Some? && v.value.ValueCommitment? ==> IsCommitment(point, v.value.bytes, 8)
  }

  ghost predicate NonceFits(n: Nonce) {
    && (n.ExplicitNonce? ==> |n.bytes| == 33 && n.bytes[0] == 1)
    && (n.EphemeralKey? ==> |n.bytes| == 33 && 2 <= n.bytes[0] <= 3)
  }

  ghost predicate StackFits(w: seq<Blob>) { |w| <= 1_024 && forall k :: 0 <= k < |w| ==> |w[k]| <= 80_000 }

  ghost predicate InputFits(point: Point, i: Input) {
    && |i.scriptSig| <= 10_000
    && (i.issuance.Some? ==> ValueFits(point, i.issuance.value.amount) && ValueFits(point, i.issuance.value.token))
  }

  ghost predicate OutputFits(point: Point, o: Output) {
    AssetFits(point, o.asset) && ValueFits(point, Some(o.value)) && NonceFits(o.nonce) && |o.script| <= 10_000
  }

  ghost predicate InputWitnessFits(w: InputWitness) {
    |w.amountProof| <= 80_000 && |w.keysProof| <= 80_000 && StackFits(w.script) && StackFits(w.pegin)
  }

  /** What the parser demands of the fields. */
  ghost predicate InLimits(point: Point, t: Transaction) {
    && 0 < |t.inputs| <= 4_096 && 0 < |t.outputs| <= 4_096
    && (forall k :: 0 <= k < |t.inputs| ==> InputFits(point, t.inputs[k]))
    && (forall k :: 0 <= k < |t.outputs| ==> OutputFits(point, t.outputs[k]))
    && (t.witnesses.Some? ==> WitnessesFit(t.witnesses.value, |t.inputs|, |t.outputs|))
  }

  ghost predicate WitnessesFit(w: Witnesses, inputs: nat, outputs: nat) {
    && |w.inputs| == inputs && |w.outputs| == outputs
    && (forall k :: 0 <= k < inputs ==> InputWitnessFits(w.inputs[k]))
    && (forall k :: 0 <= k < outputs ==> |w.outputs[k].surjection| <= 80_000 && |w.outputs[k].range| <= 80_000)
  }

  lemma ValueFitsIff(point: Point, v: Option<Value>)
    ensures ValueFits(point, v) <==> OkValue(point, v)
  {
  }

  lemma OutputFitsIff(point: Point, o: Output)
    ensures OutputFits(point, o) <==> OkOutput(point, o)
  {
    ValueFitsIff(point, Some(o.value));
  }

  lemma InputFitsIff(point: Point, i: Input)
    ensures InputFits(point, i) <==> OkInput(point, i)
  {
  }

  lemma StackFitsIff(w: seq<Blob>)
    ensures StackFits(w) <==> Bitcoin.OkStack(w)
  {
    if Bitcoin.OkStack(w) {
      forall k | 0 <= k < |w| ensures |w[k]| <= 80_000 { assert w[k] in w; }
    }
  }

  /** A property of every element, by position or by membership. */
  lemma Everywhere<T(!new)>(s: seq<T>, p: T -> bool)
    ensures (forall k :: 0 <= k < |s| ==> p(s[k])) <==> forall x :: x in s ==> p(x)
  {
    if forall x :: x in s ==> p(x) {
      forall k | 0 <= k < |s| ensures p(s[k]) { assert s[k] in s; }
    }
  }

  lemma WitnessesFitIff(w: Witnesses, inputs: nat, outputs: nat)
    ensures WitnessesFit(w, inputs, outputs) <==> OkWitnesses(w, inputs, outputs)
  {
    forall x: InputWitness ensures InputWitnessFits(x) <==> OkInputWitness(x) {
      StackFitsIff(x.script);
      StackFitsIff(x.pegin);
    }
    Everywhere(w.inputs, OkInputWitness);
    Everywhere(w.outputs, OkOutputWitness);
    assert forall k :: 0 <= k < |w.inputs| ==> (InputWitnessFits(w.inputs[k]) <==> OkInputWitness(w.inputs[k]));
    assert forall k :: 0 <= k < |w.outputs| ==> (OkOutputWitness(w.outputs[k]) <==>
             |w.outputs[k].surjection| <= 80_000 && |w.outputs[k].range| <= 80_000);
  }

  lemma LimitsIff(point: Point, t: Transaction)
    ensures InLimits(point, t) <==> OkTransaction(point, t)
  {
    forall i: Input ensures InputFits(point, i) <==> InputOk(point)(i) { InputFitsIff(point, i); }
    forall o: Output ensures OutputFits(point, o) <==> OutputOk(point)(o) { OutputFitsIff(point, o); }
    Everywhere(t.inputs, InputOk(point));
    Everywhere(t.outputs, OutputOk(point));
    if t.witnesses.Some? { WitnessesFitIff(t.witnesses.value, |t.inputs|, |t.outputs|); }
  }

  /** The parser accepts exactly the strings in the format that are within its limits, as what they are. */
  lemma ParseIff(point: Point, b: Bytes, t: Transaction)
    ensures Parse(point, b) == Ok(t) <==> IsTransaction(b, t) && InLimits(point, t) && |b| <= 4_000_000
  {
    LimitsIff(point, t);
    if Parse(point, b) == Ok(t) {
      ParseThenEncode(point, b);
      LimitsCount(point, t);
      TransactionIff(b, t);
    }
    if IsTransaction(b, t) && OkTransaction(point, t) && |b| <= 4_000_000 {
      LimitsCount(point, t);
      TransactionIff(b, t);
      EncodeThenParse(point, t);
    }
  }

  lemma LimitsCount(point: Point, t: Transaction)
    requires OkTransaction(point, t)
    ensures Countables(t)
  {
  }

  /** The identifier is the double hash, backwards, of the same transaction with the flag cleared and no witnesses. */
  lemma IdIs(sha: Bytes -> Bytes, point: Point, b: Bytes) returns (stripped: Bytes)
    requires Parse(point, b).Ok?
    ensures IsTransaction(stripped, Parse(point, b).value.(witnesses := None))
    ensures TransactionId(sha, point, b) == Backwards(sha(sha(stripped)))
  {
    var t := Parse(point, b).value;
    StrippedIsFields(point, b);
    ParseThenEncode(point, b);
    stripped := StrippedFields(t);
    var u := t.(witnesses := None);
    assert BodyOf(u) == BodyOf(t) && Encode(u) == stripped + [];
    assert stripped + [] == stripped;
    TransactionIff(stripped, u);
    assert Reversed(sha(sha(stripped))) == Backwards(sha(sha(stripped)));
  }
}
