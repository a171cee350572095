/** Bitcoin transactions on the wire: the serialiser, the parser and their exact relation. */
module Transactions {
  import opened ByteStrings
  import opened Wire

  const MAX_TRANSACTION_BYTES := 1_000_000
  const MAX_INPUTS := 4_096
  const MAX_OUTPUTS := 4_096
  const MAX_SCRIPT_BYTES := 10_000
  const MAX_WITNESS_ITEMS := 1_024
  const MAX_WITNESS_ITEM_BYTES := 80_000

  type I32 = x: int | -0x8000_0000 <= x < 0x8000_0000

  /** A string whose length fits a 64-bit count. */
  type Blob = s: Bytes | |s| < 0x1_0000_0000_0000_0000 witness []
  type Txid = s: Bytes | |s| == 32 witness seq(32, _ => 0)

  datatype TxIn = TxIn(txid: Txid, vout: U32, scriptSig: Blob, sequence: U32, stack: seq<Blob>)
  datatype TxOut = TxOut(value: U64, script: Blob)
  datatype Transaction = Transaction(version: I32, inputs: seq<TxIn>, outputs: seq<TxOut>, lockTime: U32,
                                     hasWitness: bool)

  function ToWord(v: I32): (w: U32) { if v < 0 then v + 0x1_0000_0000 else v }

  function FromWord(w: U32): (v: I32)
    ensures ToWord(v) == w
  {
    if w >= 0x8000_0000 then w - 0x1_0000_0000 else w
  }

  // ----- inputs without their witness -----

  function WriteInput(i: TxIn): Bytes { i.txid + LE(4, i.vout) + VarBytes(i.scriptSig) + LE(4, i.sequence) }

  function ReadInput(b: Bytes): Parsed<TxIn> {
    var (txid, b1) :- Take(b, 32);
    var (vout, b2) :- ReadLE(b1, 4);
    var (scriptSig, b3) :- ReadVarBytes(b2, MAX_SCRIPT_BYTES);
    var (sequence, b4) :- ReadLE(b3, 4);
    WordFits(b1);
    WordFits(b3);
    VarBytesWritten(b2, MAX_SCRIPT_BYTES);
    Ok((TxIn(txid, vout, scriptSig, sequence, []), b4))
  }

  lemma WordFits(b: Bytes)
    ensures ReadLE(b, 4).Ok? ==> ReadLE(b, 4).value.0 < 0x1_0000_0000
  {
    Pow256Values();
    if ReadLE(b, 4).Ok? { ReadLEWritten(4, b); }
  }

  predicate OkInput(i: TxIn) { |i.scriptSig| <= MAX_SCRIPT_BYTES && i.stack == [] }

  lemma InputExact(i: TxIn, rest: Bytes)
    requires OkInput(i)
    ensures ReadInput(WriteInput(i) + rest) == Ok((i, rest))
  {
    Pow256Values();
    var r3 := LE(4, i.sequence) + rest;
    var r2 := VarBytes(i.scriptSig) + r3;
    var r1 := LE(4, i.vout) + r2;
    assert WriteInput(i) + rest == i.txid + r1;
    TakeExact(i.txid, r1);
    ReadLEExact(4, i.vout, r2);
    VarBytesExact(i.scriptSig, MAX_SCRIPT_BYTES, r3);
    ReadLEExact(4, i.sequence, rest);
  }

  lemma InputWritten(b: Bytes)
    requires ReadInput(b).Ok?
    ensures OkInput(ReadInput(b).value.0) && b == WriteInput(ReadInput(b).value.0) + ReadInput(b).value.1
  {
    var (txid, b1) := Take(b, 32).value;
    var (vout, b2) := ReadLE(b1, 4).value;
    var (scriptSig, b3) := ReadVarBytes(b2, MAX_SCRIPT_BYTES).value;
    var (sequence, b4) := ReadLE(b3, 4).value;
    ReadLEWritten(4, b1);
    VarBytesWritten(b2, MAX_SCRIPT_BYTES);
    ReadLEWritten(4, b3);
    Joined4(txid, LE(4, vout), VarBytes(scriptSig), LE(4, sequence), b4);
  }

  lemma Joined4(a: Bytes, b: Bytes, c: Bytes, d: Bytes, rest: Bytes)
    ensures a + (b + (c + (d + rest))) == a + b + c + d + rest
  {
  }

  // ----- outputs -----

  function WriteOutput(o: TxOut): Bytes { LE(8, o.value) + VarBytes(o.script) }

  function ReadOutput(b: Bytes): Parsed<TxOut> {
    var (value, b1) :- ReadLE(b, 8);
    var (script, b2) :- ReadVarBytes(b1, MAX_SCRIPT_BYTES);
    LongFits(b);
    VarBytesWritten(b1, MAX_SCRIPT_BYTES);
    Ok((TxOut(value, script), b2))
  }

  lemma LongFits(b: Bytes)
    ensures ReadLE(b, 8).Ok? ==> ReadLE(b, 8).value.0 < 0x1_0000_0000_0000_0000
  {
    Pow256Values();
    if ReadLE(b, 8).Ok? { ReadLEWritten(8, b); }
  }

  predicate OkOutput(o: TxOut) { |o.script| <= MAX_SCRIPT_BYTES }

  lemma OutputExact(o: TxOut, rest: Bytes)
    requires OkOutput(o)
    ensures ReadOutput(WriteOutput(o) + rest) == Ok((o, rest))
  {
    Pow256Values();
    var r1 := VarBytes(o.script) + rest;
    assert WriteOutput(o) + rest == LE(8, o.value) + r1;
    ReadLEExact(8, o.value, r1);
    VarBytesExact(o.script, MAX_SCRIPT_BYTES, rest);
  }

  lemma OutputWritten(b: Bytes)
    requires ReadOutput(b).Ok?
    ensures OkOutput(ReadOutput(b).value.0) && b == WriteOutput(ReadOutput(b).value.0) + ReadOutput(b).value.1
  {
    var (value, b1) := ReadLE(b, 8).value;
    var (script, b2) := ReadVarBytes(b1, MAX_SCRIPT_BYTES).value;
    ReadLEWritten(8, b);
    VarBytesWritten(b1, MAX_SCRIPT_BYTES);
    assert LE(8, value) + (VarBytes(script) + b2) == LE(8, value) + VarBytes(script) + b2;
  }

  // ----- witness stacks -----

  function WriteItem(s: Blob): Bytes { VarBytes(s) }

  function ReadItem(b: Bytes): Parsed<Blob> {
    var (s, rest) :- ReadVarBytes(b, MAX_WITNESS_ITEM_BYTES);
    VarBytesWritten(b, MAX_WITNESS_ITEM_BYTES);
    Ok((s, rest))
  }

  predicate OkItem(s: Blob) { |s| <= MAX_WITNESS_ITEM_BYTES }

  lemma ItemFormat()
    ensures Reads(ReadItem, WriteItem, OkItem) && Writes(ReadItem, WriteItem, OkItem)
  {
    forall s: Blob, rest: Bytes | OkItem(s) ensures ReadItem(WriteItem(s) + rest) == Ok((s, rest)) {
      VarBytesExact(s, MAX_WITNESS_ITEM_BYTES, rest);
    }
    forall b: Bytes | ReadItem(b).Ok?
      ensures OkItem(ReadItem(b).value.0) && b == WriteItem(ReadItem(b).value.0) + ReadItem(b).value.1
    {
      VarBytesWritten(b, MAX_WITNESS_ITEM_BYTES);
    }
  }

  predicate OkStack(w: seq<Blob>) { |w| <= MAX_WITNESS_ITEMS && forall s :: s in w ==> OkItem(s) }

  function WriteStack(w: seq<Blob>): Bytes { WriteCounted(WriteItem, w) }

  function ReadStack(b: Bytes): Parsed<seq<Blob>> { ReadCounted(ReadItem, MAX_WITNESS_ITEMS, b) }

  lemma StackFormat()
    ensures Reads(ReadStack, WriteStack, OkStack) && Writes(ReadStack, WriteStack, OkStack)
  {
    ItemFormat();
    forall w: seq<Blob>, rest: Bytes | OkStack(w) ensures ReadStack(WriteStack(w) + rest) == Ok((w, rest)) {
      CountedExact(ReadItem, WriteItem, OkItem, MAX_WITNESS_ITEMS, w, rest);
    }
    forall b: Bytes | ReadStack(b).Ok?
      ensures OkStack(ReadStack(b).value.0) && b == WriteStack(ReadStack(b).value.0) + ReadStack(b).value.1
    {
      CountedWritten(ReadItem, WriteItem, OkItem, MAX_WITNESS_ITEMS, b);
    }
  }

  lemma InputFormat()
    ensures Reads(ReadInput, WriteInput, OkInput) && Writes(ReadInput, WriteInput, OkInput)
  {
    forall i: TxIn, rest: Bytes | OkInput(i)
      ensures ReadInput(WriteInput(i) + rest) == Ok((i, rest))
    {
      InputExact(i, rest);
    }
    forall b: Bytes | ReadInput(b).Ok?
      ensures OkInput(ReadInput(b).value.0) && b == WriteInput(ReadInput(b).value.0) + ReadInput(b).value.1
    {
      InputWritten(b);
    }
  }

  lemma OutputFormat()
    ensures Reads(ReadOutput, WriteOutput, OkOutput) && Writes(ReadOutput, WriteOutput, OkOutput)
  {
    forall o: TxOut, rest: Bytes | OkOutput(o)
      ensures ReadOutput(WriteOutput(o) + rest) == Ok((o, rest))
    {
      OutputExact(o, rest);
    }
    forall b: Bytes | ReadOutput(b).Ok?
      ensures OkOutput(ReadOutput(b).value.0) && b == WriteOutput(ReadOutput(b).value.0) + ReadOutput(b).value.1
    {
      OutputWritten(b);
    }
  }

  // ----- whole transactions -----

  predicate AnyWitness(inputs: seq<TxIn>) { exists i :: 0 <= i < |inputs| && inputs[i].stack != [] }

  /** The flag a transaction carries says whether any of its inputs has a witness. */
  predicate Consistent(t: Transaction) { t.hasWitness == AnyWitness(t.inputs) }

  function Strip(inputs: seq<TxIn>): (s: seq<TxIn>)
    ensures |s| == |inputs| && forall i :: 0 <= i < |s| ==> s[i] == inputs[i].(stack := [])
  {
    seq(|inputs|, i requires 0 <= i < |inputs| => inputs[i].(stack := []))
  }

  function Stacks(inputs: seq<TxIn>): (s: seq<seq<Blob>>)
    ensures |s| == |inputs| && forall i :: 0 <= i < |s| ==> s[i] == inputs[i].stack
  {
    seq(|inputs|, i requires 0 <= i < |inputs| => inputs[i].stack)
  }

  function Attach(inputs: seq<TxIn>, stacks: seq<seq<Blob>>): (s: seq<TxIn>)
    requires |inputs| == |stacks|
    ensures |s| == |inputs| && forall i :: 0 <= i < |s| ==> s[i] == inputs[i].(stack := stacks[i])
  {
    seq(|inputs|, i requires 0 <= i < |inputs| => inputs[i].(stack := stacks[i]))
  }

  /** The bytes between the version (and marker) and the witnesses. */
  function WriteBody(inputs: seq<TxIn>, outputs: seq<TxOut>): Bytes {
    WriteCounted(WriteInput, inputs) + WriteCounted(WriteOutput, outputs)
  }

  function ReadBody(b: Bytes): (r: Parsed<(seq<TxIn>, seq<TxOut>)>) {
    var (inputs, b1) :- ReadCounted(ReadInput, MAX_INPUTS, b);
    if inputs == [] then Err(Invalid)
    else
      var (outputs, b2) :- ReadCounted(ReadOutput, MAX_OUTPUTS, b1);
      if outputs == [] then Err(Invalid) else Ok(((inputs, outputs), b2))
  }

  predicate OkBody(inputs: seq<TxIn>, outputs: seq<TxOut>) {
    && 0 < |inputs| <= MAX_INPUTS && 0 < |outputs| <= MAX_OUTPUTS
    && (forall i :: i in inputs ==> OkInput(i)) && (forall o :: o in outputs ==> OkOutput(o))
  }

  lemma BodyExact(inputs: seq<TxIn>, outputs: seq<TxOut>, rest: Bytes)
    requires OkBody(inputs, outputs)
    ensures ReadBody(WriteBody(inputs, outputs) + rest) == Ok(((inputs, outputs), rest))
  {
    var tail := WriteCounted(WriteOutput, outputs) + rest;
    assert WriteBody(inputs, outputs) + rest == WriteCounted(WriteInput, inputs) + tail;
    InputFormat();
    CountedExact(ReadInput, WriteInput, OkInput, MAX_INPUTS, inputs, tail);
    OutputFormat();
    CountedExact(ReadOutput, WriteOutput, OkOutput, MAX_OUTPUTS, outputs, rest);
  }

  lemma BodyWritten(b: Bytes)
    requires ReadBody(b).Ok?
    ensures var ((inputs, outputs), rest) := ReadBody(b).value;
            OkBody(inputs, outputs) && b == WriteBody(inputs, outputs) + rest
  {
    InputFormat();
    CountedWritten(ReadInput, WriteInput, OkInput, MAX_INPUTS, b);
    var (inputs, b1) := ReadCounted(ReadInput, MAX_INPUTS, b).value;
    OutputFormat();
    CountedWritten(ReadOutput, WriteOutput, OkOutput, MAX_OUTPUTS, b1);
    var (outputs, b2) := ReadCounted(ReadOutput, MAX_OUTPUTS, b1).value;
    assert WriteCounted(WriteInput, inputs) + (WriteCounted(WriteOutput, outputs) + b2) == WriteBody(inputs, outputs)
           + b2;
  }

  /** The bytes of a transaction: with `marked`, the segwit marker and one witness stack per input. */
  function Encode(version: I32, inputs: seq<TxIn>, outputs: seq<TxOut>, lockTime: U32, marked: bool): Bytes {
    LE(4, ToWord(version)) + (if marked then [0, 1] else []) + WriteBody(Strip(inputs), outputs)
    + (if marked then WriteMany(WriteStack, Stacks(inputs)) else []) + LE(4, lockTime)
  }

  function Serialize(t: Transaction, includeWitness: bool): Result<Bytes, WireError> {
    if t.inputs == [] || |t.inputs| > MAX_INPUTS || t.outputs == [] || |t.outputs| > MAX_OUTPUTS then Err(Bounds)
    else
      var marked := includeWitness && t.hasWitness && AnyWitness(t.inputs);
      if exists i :: i in t.inputs && |i.scriptSig| > MAX_SCRIPT_BYTES then Err(Bounds)
      else if exists o :: o in t.outputs && !OkOutput(o) then Err(Bounds)
      else if marked && exists i :: i in t.inputs && !OkStack(i.stack) then Err(Bounds)
      else
        var bytes := Encode(t.version, t.inputs, t.outputs, t.lockTime, marked);
        if |bytes| > MAX_TRANSACTION_BYTES then Err(Bounds) else Ok(bytes)
  }

  /** What follows the version and the marker. */
  function ReadRest(b: Bytes, marked: bool): Parsed<(seq<TxIn>, seq<TxOut>, U32)> {
    var (body, b1) :- ReadBody(b);
    var (stacks, b2) :- if marked then ReadMany(ReadStack, |body.0|, b1) else Ok((Stacks(body.0), b1));
    var (lockTime, b3) :- ReadLE(b2, 4);
    WordFits(b2);
    StackCount(b, marked);
    Ok(((if marked then Attach(body.0, stacks) else body.0, body.1, lockTime), b3))
  }

  lemma StackCount(b: Bytes, marked: bool)
    ensures ReadBody(b).Ok? && marked ==>
              var (body, b1) := ReadBody(b).value;
              ReadMany(ReadStack, |body.0|, b1).Ok? ==> |ReadMany(ReadStack, |body.0|, b1).value.0| == |body.0|
  {
    StackFormat();
    if ReadBody(b).Ok? && marked {
      var (body, b1) := ReadBody(b).value;
      if ReadMany(ReadStack, |body.0|, b1).Ok? { ManyWritten(ReadStack, WriteStack, OkStack, |body.0|, b1); }
    }
  }

  /** A segwit marker: a zero byte where the input count would be, followed by a nonzero flag. */
  predicate Marked(b: Bytes) { |b| >= 2 && b[0] == 0 && b[1] != 0 }

  function Parse(b: Bytes): Result<Transaction, WireError> {
    if b == [] || |b| > MAX_TRANSACTION_BYTES then Err(Bounds)
    else
      var (word, b1) :- ReadLE(b, 4);
      WordFits(b);
      var marked := Marked(b1);
      if marked && b1[1] != 1 then Err(Unsupported)
      else
        var (t, rest) :- ReadRest(if marked then b1[2..] else b1, marked);
        if rest != [] then Err(Encoding)
        else Ok(Transaction(FromWord(word), t.0, t.1, t.2, marked))
  }
}
