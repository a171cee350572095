/** The imperative Elements parser: a cursor over the bytes, proved equal to the functional one. */
module ElementsReader {
  import opened ByteStrings
  import opened Wire
  import opened WireReader
  import opened Elements
  import opened ElementsCodec
  import Bitcoin = Transactions
  import BitcoinReader = TransactionReader

  method ParseHeader(reader: Reader) returns (r: Result<Byte, WireError>)
    requires reader.Valid()
    modifies reader
    ensures reader.Valid() && Computes(r, reader.Rest(), ReadHeader(old(reader.Rest())))
  {
    if reader.position == |reader.bytes| { return Err(Encoding); }
    r := Ok(reader.bytes[reader.position]);
    reader.position := reader.position + 1;
  }

  method ParseAsset(point: Point, reader: Reader) returns (r: Result<Asset, WireError>)
    requires reader.Valid()
    modifies reader
    ensures reader.Valid() && Computes(r, reader.Rest(), ReadAsset(point, old(reader.Rest())))
  {
    var header :- ParseHeader(reader);
    var bytes :- reader.ReadArray(32);
    if header == 1 { return Ok(AssetId(Reversed(bytes))); }
    if header != 10 && header != 11 { return Err(Encoding); }
    if !point([header - 8] + bytes) { return Err(Encoding); }
    return Ok(AssetCommitment([header] + bytes));
  }

  method ParseValue(point: Point, reader: Reader) returns (r: Result<Option<Value>, WireError>)
    requires reader.Valid()
    modifies reader
    ensures reader.Valid() && Computes(r, reader.Rest(), ReadOptionalValue(point, old(reader.Rest())))
  {
    var header :- ParseHeader(reader);
    if header == 0 { return Ok(None); }
    if header == 1 {
      var bytes :- reader.ReadArray(8);
      AmountFits(bytes);
      return Ok(Some(Amount(FromBE(bytes))));
    }
    if header != 8 && header != 9 { return Err(Encoding); }
    var bytes :- reader.ReadArray(32);
    if !point([header - 6] + bytes) { return Err(Encoding); }
    return Ok(Some(ValueCommitment([header] + bytes)));
  }

  method ParseNonce(reader: Reader) returns (r: Result<Nonce, WireError>)
    requires reader.Valid()
    modifies reader
    ensures reader.Valid() && Computes(r, reader.Rest(), ReadNonce(old(reader.Rest())))
  {
    var header :- ParseHeader(reader);
    if header == 0 { return Ok(Null); }
    if header > 3 { return Err(Encoding); }
    var bytes :- reader.ReadArray(32);
    return Ok(if header == 1 then ExplicitNonce([1] + bytes) else EphemeralKey([header] + bytes));
  }

  method ParseIssuance(point: Point, reader: Reader) returns (r: Result<Issuance, WireError>)
    requires reader.Valid()
    modifies reader
    ensures reader.Valid() && Computes(r, reader.Rest(), ReadIssuance(point, old(reader.Rest())))
  {
    var nonce :- reader.ReadArray(32);
    var entropy :- reader.ReadArray(32);
    var amount :- ParseValue(point, reader);
    var token :- ParseValue(point, reader);
    return Ok(Issuance(nonce, entropy, amount, token));
  }

  method ParseInput(point: Point, reader: Reader) returns (r: Result<Input, WireError>)
    requires reader.Valid()
    modifies reader
    ensures reader.Valid() && Computes(r, reader.Rest(), ReadInput(point, old(reader.Rest())))
  {
    var txid :- reader.ReadArray(32);
    var index :- reader.ReadWord(4);
    ghost var b2 := reader.Rest();
    var scriptSig :- reader.ReadBytes(MAX_SCRIPT_BYTES);
    VarBytesWritten(b2, MAX_SCRIPT_BYTES);
    Bitcoin.WordFits(reader.Rest());
    var sequence :- reader.ReadWord(4);
    var issuance: Option<Issuance> := None;
    if index >= ISSUANCE_FLAG {
      var i :- ParseIssuance(point, reader);
      issuance := Some(i);
    }
    return Ok(Input(Reversed(txid), index % PEGIN_FLAG, scriptSig, sequence, index / PEGIN_FLAG % 2 == 1, issuance));
  }

  method ParseOutput(point: Point, reader: Reader) returns (r: Result<Output, WireError>)
    requires reader.Valid()
    modifies reader
    ensures reader.Valid() && Computes(r, reader.Rest(), ReadOutput(point, old(reader.Rest())))
  {
    var asset :- ParseAsset(point, reader);
    var value :- ParseValue(point, reader);
    if value.None? { return Err(Encoding); }
    var nonce :- ParseNonce(reader);
    ghost var b3 := reader.Rest();
    var script :- reader.ReadBytes(MAX_SCRIPT_BYTES);
    VarBytesWritten(b3, MAX_SCRIPT_BYTES);
    return Ok(Output(asset, value.value, nonce, script));
  }

  method ParseInputs(point: Point, reader: Reader, count: nat) returns (r: Result<seq<Input>, WireError>)
    requires reader.Valid()
    modifies reader
    ensures reader.Valid() && Computes(r, reader.Rest(), ReadMany(InputReader(point), count, old(reader.Rest())))
  {
    var inputs: seq<Input> := [];
    ghost var start := reader.Rest();
    for i := 0 to count
      invariant reader.Valid() && ReadMany(InputReader(point), i, start) == Ok((inputs, reader.Rest()))
    {
      var input := ParseInput(point, reader);
      if input.Err? {
        BitcoinReader.ManyFailEarly(InputReader(point), i + 1, count, start);
        return Err(input.error);
      }
      inputs := inputs + [input.value];
    }
    return Ok(inputs);
  }

  method ParseOutputs(point: Point, reader: Reader, count: nat) returns (r: Result<seq<Output>, WireError>)
    requires reader.Valid()
    modifies reader
    ensures reader.Valid() && Computes(r, reader.Rest(), ReadMany(OutputReader(point), count, old(reader.Rest())))
  {
    var outputs: seq<Output> := [];
    ghost var start := reader.Rest();
    for i := 0 to count
      invariant reader.Valid() && ReadMany(OutputReader(point), i, start) == Ok((outputs, reader.Rest()))
    {
      var output := ParseOutput(point, reader);
      if output.Err? {
        BitcoinReader.ManyFailEarly(OutputReader(point), i + 1, count, start);
        return Err(output.error);
      }
      outputs := outputs + [output.value];
    }
    return Ok(outputs);
  }

  method ParseBody(point: Point, reader: Reader) returns (r: Result<Body, WireError>)
    requires reader.Valid()
    modifies reader
    ensures reader.Valid() && Computes(r, reader.Rest(), ReadBody(point, old(reader.Rest())))
  {
    var inputCount :- reader.ReadSize(MAX_INPUTS);
    if inputCount == 0 { return Err(Encoding); }
    var inputs :- ParseInputs(point, reader, inputCount);
    var outputCount :- reader.ReadSize(MAX_OUTPUTS);
    if outputCount == 0 { return Err(Encoding); }
    var outputs :- ParseOutputs(point, reader, outputCount);
    Bitcoin.WordFits(reader.Rest());
    var lockTime :- reader.ReadWord(4);
    return Ok(Body(inputs, outputs, lockTime));
  }

  method ParseInputWitness(reader: Reader) returns (r: Result<InputWitness, WireError>)
    requires reader.Valid()
    modifies reader
    ensures reader.Valid() && Computes(r, reader.Rest(), ReadInputWitness(old(reader.Rest())))
  {
    ghost var b := reader.Rest();
    var amountProof :- reader.ReadBytes(MAX_PROOF_BYTES);
    VarBytesWritten(b, MAX_PROOF_BYTES);
    ghost var b1 := reader.Rest();
    var keysProof :- reader.ReadBytes(MAX_PROOF_BYTES);
    VarBytesWritten(b1, MAX_PROOF_BYTES);
    var script :- BitcoinReader.ParseStack(reader);
    var pegin :- BitcoinReader.ParseStack(reader);
    return Ok(InputWitness(amountProof, keysProof, script, pegin));
  }

  method ParseOutputWitness(reader: Reader) returns (r: Result<OutputWitness, WireError>)
    requires reader.Valid()
    modifies reader
    ensures reader.Valid() && Computes(r, reader.Rest(), ReadOutputWitness(old(reader.Rest())))
  {
    ghost var b := reader.Rest();
    var surjection :- reader.ReadBytes(MAX_PROOF_BYTES);
    VarBytesWritten(b, MAX_PROOF_BYTES);
    ghost var b1 := reader.Rest();
    var range :- reader.ReadBytes(MAX_PROOF_BYTES);
    VarBytesWritten(b1, MAX_PROOF_BYTES);
    return Ok(OutputWitness(surjection, range));
  }

  method ParseInputWitnesses(reader: Reader, count: nat) returns (r: Result<seq<InputWitness>, WireError>)
    requires reader.Valid()
    modifies reader
    ensures reader.Valid() && Computes(r, reader.Rest(), ReadMany(ReadInputWitness, count, old(reader.Rest())))
  {
    var ws: seq<InputWitness> := [];
    ghost var start := reader.Rest();
    for i := 0 to count
      invariant reader.Valid() && ReadMany(ReadInputWitness, i, start) == Ok((ws, reader.Rest()))
    {
      var w := ParseInputWitness(reader);
      if w.Err? {
        BitcoinReader.ManyFailEarly(ReadInputWitness, i + 1, count, start);
        return Err(w.error);
      }
      ws := ws + [w.value];
    }
    return Ok(ws);
  }

  method ParseOutputWitnesses(reader: Reader, count: nat) returns (r: Result<seq<OutputWitness>, WireError>)
    requires reader.Valid()
    modifies reader
    ensures reader.Valid() && Computes(r, reader.Rest(), ReadMany(ReadOutputWitness, count, old(reader.Rest())))
  {
    var ws: seq<OutputWitness> := [];
    ghost var start := reader.Rest();
    for i := 0 to count
      invariant reader.Valid() && ReadMany(ReadOutputWitness, i, start) == Ok((ws, reader.Rest()))
    {
      var w := ParseOutputWitness(reader);
      if w.Err? {
        BitcoinReader.ManyFailEarly(ReadOutputWitness, i + 1, count, start);
        return Err(w.error);
      }
      ws := ws + [w.value];
    }
    return Ok(ws);
  }

  method ParsePrefix(reader: Reader) returns (r: Result<(Bitcoin.I32, Byte), WireError>)
    requires reader.Valid()
    modifies reader
    ensures reader.Valid() && Computes(r, reader.Rest(), ReadPrefix(old(reader.Rest())))
  {
    Bitcoin.WordFits(reader.Rest());
    var word :- reader.ReadWord(4);
    var flag :- ParseHeader(reader);
    if flag > 1 { return Err(Encoding); }
    return Ok((Bitcoin.FromWord(word), flag));
  }

  method ParseStripped(point: Point, reader: Reader) returns (r: Result<(Bitcoin.I32, Byte, Body), WireError>)
    requires reader.Valid()
    modifies reader
    ensures reader.Valid() && Computes(r, reader.Rest(), ReadStripped(point, old(reader.Rest())))
  {
    var prefix :- ParsePrefix(reader);
    var body :- ParseBody(point, reader);
    return Ok((prefix.0, prefix.1, body));
  }

  method ParseWitnesses(reader: Reader, there: bool, body: Body) returns (r: Result<Option<Witnesses>, WireError>)
    requires reader.Valid()
    modifies reader
    ensures reader.Valid() && Computes(r, reader.Rest(), ReadWitnessesIf(there, body, old(reader.Rest())))
  {
    if !there { return Ok(None); }
    var ins :- ParseInputWitnesses(reader, |body.inputs|);
    var outs :- ParseOutputWitnesses(reader, |body.outputs|);
    return Ok(Some(Witnesses(ins, outs)));
  }

  /** The whole parser; `end` is where the stripped transaction ends. */
  method ParseFields(point: Point, raw: Bytes) returns (r: Result<Transaction, WireError>, end: nat)
    ensures r == Parse(point, raw)
    ensures r.Ok? ==> end + |ReadStripped(point, raw).value.1| == |raw|
  {
    end := 0;
    if raw == [] || |raw| > MAX_TRANSACTION_BYTES { return Err(Bounds), end; }
    var reader := new Reader(raw);
    var stripped := ParseStripped(point, reader);
    if stripped.Err? { return Err(stripped.error), end; }
    end := reader.position;
    var (version, flag, body) := stripped.value;
    var witnesses := ParseWitnesses(reader, flag == 1, body);
    if witnesses.Err? { return Err(witnesses.error), end; }
    if reader.position != |raw| { return Err(Encoding), end; }
    return Ok(Transaction(version, body.inputs, body.outputs, body.lockTime, witnesses.value)), end;
  }

  /** The parsed transaction with the identifier computed from the raw bytes. */
  method ParseBytes(sha: Bytes -> Bytes, point: Point, raw: Bytes) returns (r: Result<(Transaction, Bytes), WireError>)
    ensures match r
            case Err(e) => Parse(point, raw) == Err(e)
            case Ok((t, id)) => Parse(point, raw) == Ok(t) && id == TransactionId(sha, point, raw)
  {
    var t, end := ParseFields(point, raw);
    if t.Err? { return Err(t.error); }
    StrippedWritten(point, raw);
    return Ok((t.value, Reversed(sha(sha(raw[..4] + [0] + raw[5..end])))));
  }
}
