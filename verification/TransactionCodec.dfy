/** How parsing and serialising a transaction relate, in both directions. */
module TransactionCodec {
  import opened ByteStrings
  import opened Wire
  import opened Transactions

  /** Everything that follows the version and the marker. */
  function Tail(inputs: seq<TxIn>, outputs: seq<TxOut>, lockTime: U32, marked: bool): Bytes {
    WriteBody(Strip(inputs), outputs)
      + ((if marked then WriteMany(WriteStack, Stacks(inputs)) else []) + LE(4, lockTime))
  }

  lemma EncodeSplits(version: I32, inputs: seq<TxIn>, outputs: seq<TxOut>, lockTime: U32, marked: bool)
    ensures Encode(version, inputs, outputs, lockTime, marked)
         == LE(4, ToWord(version)) + ((if marked then [0, 1] else []) + Tail(inputs, outputs, lockTime, marked))
  {
  }

  /** What the parser reports for an encoding: without the marker no witness survives. */
  function Seen(inputs: seq<TxIn>, marked: bool): seq<TxIn> { if marked then inputs else Strip(inputs) }

  predicate OkStacks(inputs: seq<TxIn>) { forall i :: 0 <= i < |inputs| ==> OkStack(inputs[i].stack) }

  lemma TailExact(inputs: seq<TxIn>, outputs: seq<TxOut>, lockTime: U32, marked: bool)
    requires OkBody(Strip(inputs), outputs) && (marked ==> OkStacks(inputs))
    ensures ReadRest(Tail(inputs, outputs, lockTime, marked), marked)
            == Ok(((Seen(inputs, marked), outputs, lockTime), []))
  {
    var stripped, stacks := Strip(inputs), Stacks(inputs);
    var lock := LE(4, lockTime);
    var after := (if marked then WriteMany(WriteStack, stacks) else []) + lock;
    BodyExact(stripped, outputs, after);
    if marked {
      StackFormat();
      ManyExact(ReadStack, WriteStack, OkStack, stacks, lock);
      assert Attach(stripped, stacks) == inputs;
    } else {
      assert [] + lock == lock;
    }
    LockExact(lockTime);
  }

  lemma LockExact(lockTime: U32)
    ensures ReadLE(LE(4, lockTime), 4) == Ok((lockTime, []))
  {
    Pow256Values();
    assert LE(4, lockTime) + [] == LE(4, lockTime);
    ReadLEExact(4, lockTime, []);
  }

  lemma TailWritten(b: Bytes, marked: bool)
    requires ReadRest(b, marked).Ok? && ReadRest(b, marked).value.1 == []
    ensures var (inputs, outputs, lockTime) := ReadRest(b, marked).value.0;
            && OkBody(Strip(inputs), outputs) && (if marked then OkStacks(inputs) else Strip(inputs) == inputs)
            && b == Tail(inputs, outputs, lockTime, marked)
  {
    var (inputs, outputs, lockTime) := ReadRest(b, marked).value.0;
    var (body, b1) := ReadBody(b).value;
    BodyWritten(b);
    BodyIsStripped(b);
    var b2;
    if marked {
      StackFormat();
      ManyWritten(ReadStack, WriteStack, OkStack, |body.0|, b1);
      var (stacks, rest) := ReadMany(ReadStack, |body.0|, b1).value;
      b2 := rest;
      assert Strip(inputs) == body.0 && Stacks(inputs) == stacks;
      forall i | 0 <= i < |inputs| ensures OkStack(inputs[i].stack) { assert stacks[i] in stacks; }
    } else {
      b2 := b1;
      assert [] + b2 == b2;
    }
    ReadLEWritten(4, b2);
    assert LE(4, lockTime) + [] == LE(4, lockTime);
  }

  lemma BodyIsStripped(b: Bytes)
    requires ReadBody(b).Ok?
    ensures Strip(ReadBody(b).value.0.0) == ReadBody(b).value.0.0
  {
    BodyWritten(b);
    var inputs := ReadBody(b).value.0.0;
    forall i | 0 <= i < |inputs| ensures inputs[i].stack == [] { assert inputs[i] in inputs; }
  }

  lemma TailMarker(inputs: seq<TxIn>, outputs: seq<TxOut>, lockTime: U32, marked: bool)
    requires OkBody(Strip(inputs), outputs)
    ensures Marked((if marked then [0, 1] else []) + Tail(inputs, outputs, lockTime, marked)) == marked
  {
    var tail := Tail(inputs, outputs, lockTime, marked);
    assert tail[0] == CompactSize(|Strip(inputs)|)[0];
    assert [] + tail == tail;
  }

  /** The parser inverts the encoding, up to witnesses an unmarked encoding does not carry. */
  lemma ParseEncode(version: I32, inputs: seq<TxIn>, outputs: seq<TxOut>, lockTime: U32, marked: bool)
    requires OkBody(Strip(inputs), outputs) && (marked ==> OkStacks(inputs))
    requires |Encode(version, inputs, outputs, lockTime, marked)| <= MAX_TRANSACTION_BYTES
    ensures Parse(Encode(version, inputs, outputs, lockTime, marked))
         == Ok(Transaction(version, Seen(inputs, marked), outputs, lockTime, marked))
  {
    var tail := Tail(inputs, outputs, lockTime, marked);
    var b1 := (if marked then [0, 1] else []) + tail;
    EncodeSplits(version, inputs, outputs, lockTime, marked);
    TailMarker(inputs, outputs, lockTime, marked);
    TailExact(inputs, outputs, lockTime, marked);
    assert (if marked then b1[2..] else b1) == tail;
    ParsePrefix(version, b1, marked, (Seen(inputs, marked), outputs, lockTime));
  }

  /** The version and the marker come off, the rest decides. */
  lemma ParsePrefix(version: I32, b1: Bytes, marked: bool, t: (seq<TxIn>, seq<TxOut>, U32))
    requires Marked(b1) == marked && (marked ==> b1[1] == 1) && |LE(4, ToWord(version)) + b1| <= MAX_TRANSACTION_BYTES
    requires ReadRest(if marked then b1[2..] else b1, marked) == Ok((t, []))
    ensures Parse(LE(4, ToWord(version)) + b1) == Ok(Transaction(version, t.0, t.1, t.2, marked))
  {
    Pow256Values();
    ReadLEExact(4, ToWord(version), b1);
  }

  /** Whatever the parser accepts is the encoding of what it reports, marker included. */
  lemma EncodeParse(b: Bytes)
    requires Parse(b).Ok?
    ensures var t := Parse(b).value;
            && OkBody(Strip(t.inputs), t.outputs)
            && (if t.hasWitness then OkStacks(t.inputs) else Strip(t.inputs) == t.inputs)
            && b == Encode(t.version, t.inputs, t.outputs, t.lockTime, t.hasWitness)
  {
    var t := Parse(b).value;
    var rest := ParsedParts(b);
    TailWritten(rest, t.hasWitness);
    EncodeSplits(t.version, t.inputs, t.outputs, t.lockTime, t.hasWitness);
  }

  lemma ParsedParts(b: Bytes) returns (rest: Bytes)
    requires Parse(b).Ok?
    ensures var t := Parse(b).value;
            && b == LE(4, ToWord(t.version)) + ((if t.hasWitness then [0, 1] else []) + rest)
            && ReadRest(rest, t.hasWitness) == Ok(((t.inputs, t.outputs, t.lockTime), []))
  {
    ReadLEWritten(4, b);
    var b1 := ReadLE(b, 4).value.1;
    rest := if Marked(b1) then b1[2..] else b1;
    MarkerBytes(b1);
  }

  lemma MarkerBytes(b: Bytes)
    ensures Marked(b) && b[1] == 1 ==> b == [0, 1] + b[2..]
    ensures b == [] + b
  {
  }

  // ----- the two round trips -----

  lemma SerializedShape(t: Transaction, includeWitness: bool)
    requires Serialize(t, includeWitness).Ok?
    ensures var marked := includeWitness && t.hasWitness && AnyWitness(t.inputs);
            && OkBody(Strip(t.inputs), t.outputs) && (marked ==> OkStacks(t.inputs))
            && Serialize(t, includeWitness).value == Encode(t.version, t.inputs, t.outputs, t.lockTime, marked)
            && |Serialize(t, includeWitness).value| <= MAX_TRANSACTION_BYTES
  {
    forall i | i in Strip(t.inputs) ensures OkInput(i) {
      var k :| 0 <= k < |t.inputs| && Strip(t.inputs)[k] == i;
      assert t.inputs[k] in t.inputs;
    }
  }

  lemma StripIdentity(inputs: seq<TxIn>)
    ensures Strip(inputs) == inputs <==> !AnyWitness(inputs)
  {
    if !AnyWitness(inputs) { assert Strip(inputs) == inputs; }
    if Strip(inputs) == inputs {
      forall i | 0 <= i < |inputs| ensures inputs[i].stack == [] { assert Strip(inputs)[i] == inputs[i]; }
    }
  }

  /** A transaction that serialises parses back to itself exactly when its witness flag is consistent. */
  lemma SerializeThenParse(t: Transaction)
    requires Serialize(t, true).Ok?
    ensures Parse(Serialize(t, true).value) == Ok(t) <==> Consistent(t)
  {
    var marked := t.hasWitness && AnyWitness(t.inputs);
    SerializedShape(t, true);
    ParseEncode(t.version, t.inputs, t.outputs, t.lockTime, marked);
    StripIdentity(t.inputs);
  }

  /** The marker and one count per input make the marked form strictly longer. */
  lemma MarkedIsLonger(t: Transaction)
    ensures |Encode(t.version, t.inputs, t.outputs, t.lockTime, false)|
            < |Encode(t.version, t.inputs, t.outputs, t.lockTime, true)|
  {
  }

  lemma Reserialize(t: Transaction, marked: bool)
    requires OkBody(Strip(t.inputs), t.outputs) && (marked ==> OkStacks(t.inputs)) &&
             marked == (t.hasWitness && AnyWitness(t.inputs))
    requires |Encode(t.version, t.inputs, t.outputs, t.lockTime, marked)| <= MAX_TRANSACTION_BYTES
    ensures Serialize(t, true) == Ok(Encode(t.version, t.inputs, t.outputs, t.lockTime, marked))
  {
    forall i | i in t.inputs ensures |i.scriptSig| <= MAX_SCRIPT_BYTES && (marked ==> OkStack(i.stack)) {
      var k :| 0 <= k < |t.inputs| && t.inputs[k] == i;
      assert Strip(t.inputs)[k] in Strip(t.inputs);
    }
  }

  /** Every accepted byte string serialises again; to itself, except exactly when it carries the marker and
      only empty witness stacks, when the result is the form without marker. */
  lemma ParseThenSerialize(b: Bytes)
    requires Parse(b).Ok?
    ensures var t := Parse(b).value;
            var idle := t.hasWitness && !AnyWitness(t.inputs);
            && Serialize(t, true).Ok?
            && (Serialize(t, true).value == b <==> !idle)
            && (idle ==> Serialize(t, true).value == Encode(t.version, t.inputs, t.outputs, t.lockTime, false))
  {
    var t := Parse(b).value;
    EncodeParse(b);
    MarkedIsLonger(t);
    StripIdentity(t.inputs);
    Reserialize(t, t.hasWitness && AnyWitness(t.inputs));
  }

  /** Such strings are accepted: every transaction that is flagged but has only empty stacks comes from one. */
  lemma IdleMarkerIsDropped(t: Transaction)
    requires t.hasWitness && !AnyWitness(t.inputs) && OkBody(Strip(t.inputs), t.outputs)
    requires |Encode(t.version, t.inputs, t.outputs, t.lockTime, true)| <= MAX_TRANSACTION_BYTES
    ensures var b := Encode(t.version, t.inputs, t.outputs, t.lockTime, true);
            Parse(b) == Ok(t) && Serialize(t, true).Ok? && Serialize(t, true).value != b
  {
    StripIdentity(t.inputs);
    ParseEncode(t.version, t.inputs, t.outputs, t.lockTime, true);
    ParseThenSerialize(Encode(t.version, t.inputs, t.outputs, t.lockTime, true));
  }

  /** Two accepted strings with the same fields and the same flag are the same string. */
  lemma ParseInjective(a: Bytes, b: Bytes)
    requires Parse(a).Ok? && Parse(a) == Parse(b)
    ensures a == b
  {
    EncodeParse(a);
    EncodeParse(b);
  }

  // ----- building transactions -----

  function New(version: I32, inputs: seq<TxIn>, outputs: seq<TxOut>, lockTime: U32): (t: Transaction)
    ensures Consistent(t)
  {
    Transaction(version, inputs, outputs, lockTime, AnyWitness(inputs))
  }

  /** Replaces one witness and recomputes the flag; the identifier-relevant bytes do not change. */
  method SetInputWitness(t: Transaction, index: nat, stack: seq<Blob>) returns (r: Result<Transaction, WireError>)
    ensures r.Ok? <==> OkStack(stack) && index < |t.inputs|
    ensures r.Ok? ==> Consistent(r.value) && r.value.inputs == t.inputs[index := t.inputs[index].(stack := stack)]
    ensures r.Ok? ==> r.value == t.(inputs := r.value.inputs, hasWitness := r.value.hasWitness)
    ensures r.Ok? ==> Serialize(r.value, false) == Serialize(t, false)
  {
    if |stack| > MAX_WITNESS_ITEMS || exists s :: s in stack && !OkItem(s) {
      return Err(Bounds);
    }
    if index >= |t.inputs| {
      return Err(Bounds);
    }
    var inputs := t.inputs[index := t.inputs[index].(stack := stack)];
    var u := t.(inputs := inputs, hasWitness := AnyWitness(inputs));
    WitnessIndependent(t, u);
    return Ok(u);
  }

  /** The stripped serialisation, and so the transaction identifier, ignores witnesses and the flag. */
  lemma WitnessIndependent(t: Transaction, u: Transaction)
    requires t.version == u.version && t.outputs == u.outputs && t.lockTime == u.lockTime &&
             Strip(t.inputs) == Strip(u.inputs)
    ensures Serialize(t, false) == Serialize(u, false)
  {
    ScriptsAgree(t.inputs, u.inputs);
    ScriptsAgree(u.inputs, t.inputs);
  }

  lemma ScriptsAgree(a: seq<TxIn>, b: seq<TxIn>)
    requires Strip(a) == Strip(b)
    ensures (exists i :: i in a && |i.scriptSig| > MAX_SCRIPT_BYTES) ==>
            exists i :: i in b && |i.scriptSig| > MAX_SCRIPT_BYTES
  {
    if i :| i in a && |i.scriptSig| > MAX_SCRIPT_BYTES {
      var k :| 0 <= k < |a| && a[k] == i;
      assert Strip(a)[k] == Strip(b)[k];
      assert b[k] in b;
    }
  }
}
