/** The imperative parser and serialiser, proved equal to the functional ones. */
module TransactionReader {
  import opened ByteStrings
  import opened Wire
  import opened WireReader
  import opened Transactions
  import opened TransactionCodec

  method ParseInput(reader: Reader) returns (r: Result<TxIn, WireError>)
    requires reader.Valid()
    modifies reader
    ensures reader.Valid() && Computes(r, reader.Rest(), ReadInput(old(reader.Rest())))
  {
    var txid :- reader.ReadArray(32);
    WordFits(reader.Rest());
    var vout :- reader.ReadWord(4);
    ghost var b2 := reader.Rest();
    var scriptSig :- reader.ReadBytes(MAX_SCRIPT_BYTES);
    VarBytesWritten(b2, MAX_SCRIPT_BYTES);
    WordFits(reader.Rest());
    var sequence :- reader.ReadWord(4);
    return Ok(TxIn(txid, vout, scriptSig, sequence, []));
  }

  method ParseOutput(reader: Reader) returns (r: Result<TxOut, WireError>)
    requires reader.Valid()
    modifies reader
    ensures reader.Valid() && Computes(r, reader.Rest(), ReadOutput(old(reader.Rest())))
  {
    LongFits(reader.Rest());
    var value :- reader.ReadWord(8);
    ghost var b1 := reader.Rest();
    var script :- reader.ReadBytes(MAX_SCRIPT_BYTES);
    VarBytesWritten(b1, MAX_SCRIPT_BYTES);
    return Ok(TxOut(value, script));
  }

  lemma {:induction false} ManyFailEarly<T>(read: Bytes -> Parsed<T>, k: nat, n: nat, b: Bytes)
    requires k <= n && ReadMany(read, k, b).Err?
    ensures ReadMany(read, n, b) == ReadMany(read, k, b)
    decreases n
  {
    if k < n { ManyFailEarly(read, k, n - 1, b); }
  }

  method ParseInputs(reader: Reader, count: nat) returns (r: Result<seq<TxIn>, WireError>)
    requires reader.Valid()
    modifies reader
    ensures reader.Valid() && Computes(r, reader.Rest(), ReadMany(ReadInput, count, old(reader.Rest())))
  {
    var inputs: seq<TxIn> := [];
    ghost var start := reader.Rest();
    for i := 0 to count
      invariant reader.Valid() && ReadMany(ReadInput, i, start) == Ok((inputs, reader.Rest()))
    {
      var input := ParseInput(reader);
      if input.Err? {
        ManyFailEarly(ReadInput, i + 1, count, start);
        return Err(input.error);
      }
      inputs := inputs + [input.value];
    }
    return Ok(inputs);
  }

  method ParseOutputs(reader: Reader, count: nat) returns (r: Result<seq<TxOut>, WireError>)
    requires reader.Valid()
    modifies reader
    ensures reader.Valid() && Computes(r, reader.Rest(), ReadMany(ReadOutput, count, old(reader.Rest())))
  {
    var outputs: seq<TxOut> := [];
    ghost var start := reader.Rest();
    for i := 0 to count
      invariant reader.Valid() && ReadMany(ReadOutput, i, start) == Ok((outputs, reader.Rest()))
    {
      var output := ParseOutput(reader);
      if output.Err? {
        ManyFailEarly(ReadOutput, i + 1, count, start);
        return Err(output.error);
      }
      outputs := outputs + [output.value];
    }
    return Ok(outputs);
  }

  method ParseStack(reader: Reader) returns (r: Result<seq<Blob>, WireError>)
    requires reader.Valid()
    modifies reader
    ensures reader.Valid() && Computes(r, reader.Rest(), ReadStack(old(reader.Rest())))
  {
    var count :- reader.ReadSize(MAX_WITNESS_ITEMS);
    var stack: seq<Blob> := [];
    ghost var start := reader.Rest();
    for i := 0 to count
      invariant reader.Valid() && ReadMany(ReadItem, i, start) == Ok((stack, reader.Rest()))
    {
      ghost var before := reader.Rest();
      var item := reader.ReadBytes(MAX_WITNESS_ITEM_BYTES);
      if item.Err? {
        ManyFailEarly(ReadItem, i + 1, count, start);
        return Err(item.error);
      }
      VarBytesWritten(before, MAX_WITNESS_ITEM_BYTES);
      stack := stack + [item.value];
    }
    return Ok(stack);
  }

  /** Reads one witness stack per input and stores it in place. */
  method ParseStacks(reader: Reader, stripped: seq<TxIn>) returns (r: Result<seq<TxIn>, WireError>)
    requires reader.Valid()
    modifies reader
    ensures reader.Valid()
    ensures var spec := ReadMany(ReadStack, |stripped|, old(reader.Rest()));
            match r
            case Err(error) => spec == Err(error)
            case Ok(inputs) => && spec.Ok? && |spec.value.0| == |stripped|
                               && inputs == Attach(stripped, spec.value.0) && reader.Rest() == spec.value.1
  {
    var inputs := stripped;
    ghost var start, stacks := reader.Rest(), [];
    for i := 0 to |stripped|
      invariant reader.Valid() && |stacks| == i && Attached(stripped, stacks, inputs)
      invariant ReadMany(ReadStack, i, start) == Ok((stacks, reader.Rest()))
    {
      var stack := ParseStack(reader);
      if stack.Err? {
        ManyFailEarly(ReadStack, i + 1, |stripped|, start);
        return Err(stack.error);
      }
      AttachNext(stripped, stacks, inputs, stack.value);
      inputs := inputs[i := inputs[i].(stack := stack.value)];
      stacks := stacks + [stack.value];
    }
    return Ok(inputs);
  }

  /** The first inputs carry their stacks, the others none yet. */
  ghost predicate Attached(stripped: seq<TxIn>, stacks: seq<seq<Blob>>, inputs: seq<TxIn>) {
    && |stacks| <= |stripped| == |inputs|
    && (forall k :: 0 <= k < |stacks| ==> inputs[k] == stripped[k].(stack := stacks[k]))
    && (forall k :: |stacks| <= k < |stripped| ==> inputs[k] == stripped[k])
    && (|stacks| == |stripped| ==> inputs == Attach(stripped, stacks))
  }

  lemma AttachNext(stripped: seq<TxIn>, stacks: seq<seq<Blob>>, inputs: seq<TxIn>, stack: seq<Blob>)
    requires Attached(stripped, stacks, inputs) && |stacks| < |stripped|
    ensures var i := |stacks|; Attached(stripped, stacks + [stack], inputs[i := inputs[i].(stack := stack)])
  {
    var i := |stacks|;
    var next := inputs[i := inputs[i].(stack := stack)];
    if i + 1 == |stripped| { assert next == Attach(stripped, stacks + [stack]); }
  }

  method ParseBody(reader: Reader) returns (r: Result<(seq<TxIn>, seq<TxOut>), WireError>)
    requires reader.Valid()
    modifies reader
    ensures reader.Valid() && Computes(r, reader.Rest(), ReadBody(old(reader.Rest())))
  {
    var inputCount :- reader.ReadSize(MAX_INPUTS);
    if inputCount == 0 {
      return Err(Invalid);
    }
    ManyCount(ReadInput, inputCount, reader.Rest());
    var inputs :- ParseInputs(reader, inputCount);
    var outputCount :- reader.ReadSize(MAX_OUTPUTS);
    if outputCount == 0 {
      return Err(Invalid);
    }
    ManyCount(ReadOutput, outputCount, reader.Rest());
    var outputs :- ParseOutputs(reader, outputCount);
    return Ok((inputs, outputs));
  }

  lemma {:induction false} ManyCount<T>(read: Bytes -> Parsed<T>, n: nat, b: Bytes)
    ensures ReadMany(read, n, b).Ok? ==> |ReadMany(read, n, b).value.0| == n
  {
    if n > 0 { ManyCount(read, n - 1, b); }
  }

  method ParseRest(reader: Reader, marked: bool) returns (r: Result<(seq<TxIn>, seq<TxOut>, U32), WireError>)
    requires reader.Valid()
    modifies reader
    ensures reader.Valid() && Computes(r, reader.Rest(), ReadRest(old(reader.Rest()), marked))
  {
    var body :- ParseBody(reader);
    var inputs := body.0;
    if marked {
      inputs :- ParseStacks(reader, inputs);
    }
    WordFits(reader.Rest());
    var lockTime :- reader.ReadWord(4);
    return Ok((inputs, body.1, lockTime));
  }

  /** The parser with its cursor: accepts what `Parse` accepts, with the same result or the same error. */
  method ParseBytes(bytes: Bytes) returns (r: Result<Transaction, WireError>)
    ensures r == Parse(bytes)
  {
    if bytes == [] || |bytes| > MAX_TRANSACTION_BYTES {
      return Err(Bounds);
    }
    var reader := new Reader(bytes);
    WordFits(bytes);
    var word :- reader.ReadWord(4);
    var marked := Marked(reader.Rest());
    ghost var b1 := reader.Rest();
    if marked {
      if bytes[reader.position + 1] != 1 {
        return Err(Unsupported);
      }
      reader.position := reader.position + 2;
      assert reader.Rest() == b1[2..];
    }
    var t :- ParseRest(reader, marked);
    if reader.position != |bytes| {
      return Err(Encoding);
    }
    return Ok(Transaction(FromWord(word), t.0, t.1, t.2, marked));
  }

  // ----- the serialiser -----

  lemma {:induction false} WriteStripped(inputs: seq<TxIn>)
    ensures WriteMany(WriteInput, Strip(inputs)) == WriteMany(WriteInput, inputs)
  {
    if inputs != [] {
      var front := inputs[..|inputs| - 1];
      WriteStripped(front);
      assert Strip(inputs)[..|inputs| - 1] == Strip(front);
    }
  }

  method PushInputs(inputs: seq<TxIn>) returns (r: Result<Bytes, WireError>)
    ensures r.Ok? <==> forall i :: i in inputs ==> |i.scriptSig| <= MAX_SCRIPT_BYTES
    ensures r == if r.Ok? then Ok(WriteMany(WriteInput, inputs)) else Err(Bounds)
  {
    var output: Bytes := [];
    for k := 0 to |inputs|
      invariant output == WriteMany(WriteInput, inputs[..k])
      invariant forall i :: i in inputs[..k] ==> |i.scriptSig| <= MAX_SCRIPT_BYTES
    {
      if |inputs[k].scriptSig| > MAX_SCRIPT_BYTES {
        return Err(Bounds);
      }
      output := output + WriteInput(inputs[k]);
      WriteManySnoc(WriteInput, inputs, k);
    }
    assert inputs[..|inputs|] == inputs;
    return Ok(output);
  }

  method PushOutputs(outputs: seq<TxOut>) returns (r: Result<Bytes, WireError>)
    ensures r.Ok? <==> forall o :: o in outputs ==> OkOutput(o)
    ensures r == if r.Ok? then Ok(WriteMany(WriteOutput, outputs)) else Err(Bounds)
  {
    var output: Bytes := [];
    for k := 0 to |outputs|
      invariant output == WriteMany(WriteOutput, outputs[..k])
      invariant forall o :: o in outputs[..k] ==> OkOutput(o)
    {
      if !OkOutput(outputs[k]) {
        return Err(Bounds);
      }
      output := output + WriteOutput(outputs[k]);
      WriteManySnoc(WriteOutput, outputs, k);
    }
    assert outputs[..|outputs|] == outputs;
    return Ok(output);
  }

  method PushItems(stack: seq<Blob>) returns (r: Result<Bytes, WireError>)
    ensures r.Ok? <==> forall s :: s in stack ==> OkItem(s)
    ensures r == if r.Ok? then Ok(WriteMany(WriteItem, stack)) else Err(Bounds)
  {
    var output: Bytes := [];
    for k := 0 to |stack|
      invariant output == WriteMany(WriteItem, stack[..k])
      invariant forall s :: s in stack[..k] ==> OkItem(s)
    {
      if !OkItem(stack[k]) {
        return Err(Bounds);
      }
      output := output + VarBytes(stack[k]);
      WriteManySnoc(WriteItem, stack, k);
    }
    assert stack[..|stack|] == stack;
    return Ok(output);
  }

  method PushStack(stack: seq<Blob>) returns (r: Result<Bytes, WireError>)
    ensures r.Ok? <==> OkStack(stack)
    ensures r == if r.Ok? then Ok(WriteStack(stack)) else Err(Bounds)
  {
    if |stack| > MAX_WITNESS_ITEMS {
      return Err(Bounds);
    }
    var items := PushItems(stack);
    if items.Err? {
      return Err(Bounds);
    }
    return Ok(CompactSize(|stack|) + items.value);
  }

  lemma WriteManySnoc<T>(write: T -> Bytes, xs: seq<T>, k: nat)
    requires k < |xs|
    ensures WriteMany(write, xs[..k + 1]) == WriteMany(write, xs[..k]) + write(xs[k])
  {
    assert xs[..k + 1][..k] == xs[..k];
  }

  method PushStacks(inputs: seq<TxIn>) returns (r: Result<Bytes, WireError>)
    ensures r.Ok? <==> OkStacks(inputs)
    ensures r == if r.Ok? then Ok(WriteMany(WriteStack, Stacks(inputs))) else Err(Bounds)
  {
    var output: Bytes := [];
    ghost var stacks := Stacks(inputs);
    for k := 0 to |inputs|
      invariant output == WriteMany(WriteStack, stacks[..k]) && OkStacks(inputs[..k])
    {
      var stack := PushStack(inputs[k].stack);
      if stack.Err? {
        return Err(Bounds);
      }
      output := output + stack.value;
      WriteManySnoc(WriteStack, stacks, k);
      OneMore(inputs, k);
    }
    assert stacks[..|stacks|] == stacks && inputs[..|inputs|] == inputs;
    return Ok(output);
  }

  lemma OneMore(inputs: seq<TxIn>, k: nat)
    requires k < |inputs| && OkStacks(inputs[..k]) && OkStack(inputs[k].stack)
    ensures OkStacks(inputs[..k + 1])
  {
    var more := inputs[..k + 1];
    forall i | 0 <= i < |more| ensures OkStack(more[i].stack) {
      if i < k { assert inputs[..k][i] == more[i]; }
    }
  }

  method PushBody(inputs: seq<TxIn>, outputs: seq<TxOut>) returns (r: Result<Bytes, WireError>)
    requires |inputs| <= MAX_INPUTS && |outputs| <= MAX_OUTPUTS
    ensures r.Err? <==>
            (exists i :: i in inputs && |i.scriptSig| > MAX_SCRIPT_BYTES) || (exists o :: o in outputs && !OkOutput(o))
    ensures r == if r.Ok? then Ok(WriteBody(Strip(inputs), outputs)) else Err(Bounds)
  {
    var left := PushInputs(inputs);
    var right := PushOutputs(outputs);
    if left.Err? || right.Err? {
      return Err(Bounds);
    }
    WriteStripped(inputs);
    return Ok((CompactSize(|inputs|) + left.value) + (CompactSize(|outputs|) + right.value));
  }

  /** The serialiser with its buffer. */
  method SerializeBytes(t: Transaction, includeWitness: bool) returns (r: Result<Bytes, WireError>)
    ensures r == Serialize(t, includeWitness)
  {
    if t.inputs == [] || |t.inputs| > MAX_INPUTS || t.outputs == [] || |t.outputs| > MAX_OUTPUTS {
      return Err(Bounds);
    }
    var marked := includeWitness && t.hasWitness && AnyWitness(t.inputs);
    var body :- PushBody(t.inputs, t.outputs);
    StacksInOrder(t.inputs);
    var stacks: Bytes := [];
    if marked {
      stacks :- PushStacks(t.inputs);
    }
    var output := LE(4, ToWord(t.version)) + (if marked then [0, 1] else []) + body + stacks + LE(4, t.lockTime);
    if |output| > MAX_TRANSACTION_BYTES {
      return Err(Bounds);
    }
    return Ok(output);
  }

  lemma StacksInOrder(inputs: seq<TxIn>)
    ensures OkStacks(inputs) <==> forall i :: i in inputs ==> OkStack(i.stack)
  {
    if OkStacks(inputs) {
      forall i | i in inputs ensures OkStack(i.stack) { var k :| 0 <= k < |inputs| && inputs[k] == i; }
    } else {
      var k :| 0 <= k < |inputs| && !OkStack(inputs[k].stack);
      assert inputs[k] in inputs;
    }
  }
}
