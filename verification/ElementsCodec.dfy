/** Whole Elements transactions: the parser loses nothing, and the identifier ignores the witnesses. */
module ElementsCodec {
  import opened ByteStrings
  import opened Wire
  import opened Elements
  import Bitcoin = Transactions

  datatype Witnesses = Witnesses(inputs: seq<InputWitness>, outputs: seq<OutputWitness>)

  /** `witnesses` is there exactly when the witness flag is set. */
  datatype Transaction = Transaction(
    version: Bitcoin.I32, inputs: seq<Input>, outputs: seq<Output>, lockTime: U32, witnesses: Option<Witnesses>)

  datatype Body = Body(inputs: seq<Input>, outputs: seq<Output>, lockTime: U32)

  function InputReader(point: Point): Bytes -> Parsed<Input> { (b: Bytes) => ReadInput(point, b) }

  function OutputReader(point: Point): Bytes -> Parsed<Output> { (b: Bytes) => ReadOutput(point, b) }

  ghost function InputOk(point: Point): Input -> bool { (i: Input) => OkInput(point, i) }

  ghost function OutputOk(point: Point): Output -> bool { (o: Output) => OkOutput(point, o) }

  lemma InputFormat(point: Point)
    ensures Reads(InputReader(point), WriteInput, InputOk(point)) &&
            Writes(InputReader(point), WriteInput, InputOk(point))
  {
    forall i: Input, rest: Bytes | OkInput(point, i) ensures ReadInput(point, WriteInput(i) + rest) == Ok((i, rest)) {
      InputExact(point, i, rest);
    }
    forall b: Bytes | ReadInput(point, b).Ok?
      ensures OkInput(point, ReadInput(point, b).value.0)
      ensures b == WriteInput(ReadInput(point, b).value.0) + ReadInput(point, b).value.1
    {
      InputWritten(point, b);
    }
  }

  lemma OutputFormat(point: Point)
    ensures Reads(OutputReader(point), WriteOutput, OutputOk(point)) &&
            Writes(OutputReader(point), WriteOutput, OutputOk(point))
  {
    forall o: Output, rest: Bytes | OkOutput(point, o)
      ensures ReadOutput(point, WriteOutput(o) + rest) == Ok((o, rest))
    {
      OutputExact(point, o, rest);
    }
    forall b: Bytes | ReadOutput(point, b).Ok?
      ensures OkOutput(point, ReadOutput(point, b).value.0)
      ensures b == WriteOutput(ReadOutput(point, b).value.0) + ReadOutput(point, b).value.1
    {
      OutputWritten(point, b);
    }
  }

  lemma InputWitnessFormat()
    ensures Reads(ReadInputWitness, WriteInputWitness, OkInputWitness)
    ensures Writes(ReadInputWitness, WriteInputWitness, OkInputWitness)
  {
    forall w: InputWitness, rest: Bytes | OkInputWitness(w)
      ensures ReadInputWitness(WriteInputWitness(w) + rest) == Ok((w, rest))
    {
      InputWitnessExact(w, rest);
    }
    forall b: Bytes | ReadInputWitness(b).Ok?
      ensures OkInputWitness(ReadInputWitness(b).value.0)
      ensures b == WriteInputWitness(ReadInputWitness(b).value.0) + ReadInputWitness(b).value.1
    {
      InputWitnessWritten(b);
    }
  }

  lemma OutputWitnessFormat()
    ensures Reads(ReadOutputWitness, WriteOutputWitness, OkOutputWitness)
    ensures Writes(ReadOutputWitness, WriteOutputWitness, OkOutputWitness)
  {
    forall w: OutputWitness, rest: Bytes | OkOutputWitness(w)
      ensures ReadOutputWitness(WriteOutputWitness(w) + rest) == Ok((w, rest))
    {
      OutputWitnessExact(w, rest);
    }
    forall b: Bytes | ReadOutputWitness(b).Ok?
      ensures OkOutputWitness(ReadOutputWitness(b).value.0)
      ensures b == WriteOutputWitness(ReadOutputWitness(b).value.0) + ReadOutputWitness(b).value.1
    {
      OutputWitnessWritten(b);
    }
  }

  // ----- bodies -----

  function WriteBody(y: Body): Bytes {
    WriteCounted(WriteInput, y.inputs) + WriteCounted(WriteOutput, y.outputs) + LE(4, y.lockTime)
  }

  function ReadBody(point: Point, b: Bytes): Parsed<Body> {
    var (inputs, b1) :- ReadCounted(InputReader(point), MAX_INPUTS, b);
    if inputs == [] then Err(Encoding)
    else
      var (outputs, b2) :- ReadCounted(OutputReader(point), MAX_OUTPUTS, b1);
      if outputs == [] then Err(Encoding)
      else
        var (lockTime, b3) :- ReadLE(b2, 4);
        Bitcoin.WordFits(b2);
        Ok((Body(inputs, outputs, lockTime), b3))
  }

  ghost predicate OkBody(point: Point, y: Body) {
    && 0 < |y.inputs| <= MAX_INPUTS && 0 < |y.outputs| <= MAX_OUTPUTS
    && (forall i :: i in y.inputs ==> OkInput(point, i)) && (forall o :: o in y.outputs ==> OkOutput(point, o))
  }

  lemma BodyExact(point: Point, y: Body, rest: Bytes)
    requires OkBody(point, y)
    ensures ReadBody(point, WriteBody(y) + rest) == Ok((y, rest))
  {
    Pow256Values();
    var r2 := LE(4, y.lockTime) + rest;
    var r1 := WriteCounted(WriteOutput, y.outputs) + r2;
    assert WriteBody(y) + rest == WriteCounted(WriteInput, y.inputs) + r1;
    InputFormat(point);
    CountedExact(InputReader(point), WriteInput, InputOk(point), MAX_INPUTS, y.inputs, r1);
    OutputFormat(point);
    CountedExact(OutputReader(point), WriteOutput, OutputOk(point), MAX_OUTPUTS, y.outputs, r2);
    ReadLEExact(4, y.lockTime, rest);
  }

  lemma BodyWritten(point: Point, b: Bytes)
    requires ReadBody(point, b).Ok?
    ensures var (y, rest) := ReadBody(point, b).value; OkBody(point, y) && b == WriteBody(y) + rest
  {
    InputFormat(point);
    CountedWritten(InputReader(point), WriteInput, InputOk(point), MAX_INPUTS, b);
    var (inputs, b1) := ReadCounted(InputReader(point), MAX_INPUTS, b).value;
    OutputFormat(point);
    CountedWritten(OutputReader(point), WriteOutput, OutputOk(point), MAX_OUTPUTS, b1);
    var (outputs, b2) := ReadCounted(OutputReader(point), MAX_OUTPUTS, b1).value;
    ReadLEWritten(4, b2);
    var (lockTime, b3) := ReadLE(b2, 4).value;
    Joined3(WriteCounted(WriteInput, inputs), WriteCounted(WriteOutput, outputs), LE(4, lockTime), b3);
  }

  lemma Joined3(a: Bytes, b: Bytes, c: Bytes, rest: Bytes)
    ensures a + (b + (c + rest)) == a + b + c + rest
  {
  }

  // ----- witnesses -----

  function WriteWitnesses(w: Witnesses): Bytes {
    WriteMany(WriteInputWitness, w.inputs) + WriteMany(WriteOutputWitness, w.outputs)
  }

  function ReadWitnesses(inputs: nat, outputs: nat, b: Bytes): Parsed<Witnesses> {
    var (ins, b1) :- ReadMany(ReadInputWitness, inputs, b);
    var (outs, b2) :- ReadMany(ReadOutputWitness, outputs, b1);
    Ok((Witnesses(ins, outs), b2))
  }

  ghost predicate OkWitnesses(w: Witnesses, inputs: nat, outputs: nat) {
    && |w.inputs| == inputs && |w.outputs| == outputs
    && (forall x :: x in w.inputs ==> OkInputWitness(x)) && (forall x :: x in w.outputs ==> OkOutputWitness(x))
  }

  lemma WitnessesExact(w: Witnesses, rest: Bytes)
    requires OkWitnesses(w, |w.inputs|, |w.outputs|)
    ensures ReadWitnesses(|w.inputs|, |w.outputs|, WriteWitnesses(w) + rest) == Ok((w, rest))
  {
    var r1 := WriteMany(WriteOutputWitness, w.outputs) + rest;
    assert WriteWitnesses(w) + rest == WriteMany(WriteInputWitness, w.inputs) + r1;
    InputWitnessFormat();
    ManyExact(ReadInputWitness, WriteInputWitness, OkInputWitness, w.inputs, r1);
    OutputWitnessFormat();
    ManyExact(ReadOutputWitness, WriteOutputWitness, OkOutputWitness, w.outputs, rest);
  }

  lemma WitnessesWritten(inputs: nat, outputs: nat, b: Bytes)
    requires ReadWitnesses(inputs, outputs, b).Ok?
    ensures var (w, rest) := ReadWitnesses(inputs, outputs, b).value;
            OkWitnesses(w, inputs, outputs) && b == WriteWitnesses(w) + rest
  {
    InputWitnessFormat();
    ManyWritten(ReadInputWitness, WriteInputWitness, OkInputWitness, inputs, b);
    var (ins, b1) := ReadMany(ReadInputWitness, inputs, b).value;
    OutputWitnessFormat();
    ManyWritten(ReadOutputWitness, WriteOutputWitness, OkOutputWitness, outputs, b1);
    var (outs, b2) := ReadMany(ReadOutputWitness, outputs, b1).value;
    assert WriteMany(WriteInputWitness, ins)
           + (WriteMany(WriteOutputWitness, outs) + b2) == WriteWitnesses(Witnesses(ins, outs)) + b2;
  }

  // ----- transactions -----

  function BodyOf(t: Transaction): Body { Body(t.inputs, t.outputs, t.lockTime) }

  /** The bytes of a transaction, as the parser accepts them. */
  function Encode(t: Transaction): Bytes {
    LE(4, Bitcoin.ToWord(t.version)) + [if t.witnesses.Some? then 1 else 0] + WriteBody(BodyOf(t))
    + WriteWitnessesIf(t.witnesses)
  }

  /** The version and the witness flag. */
  function ReadPrefix(b: Bytes): Parsed<(Bitcoin.I32, Byte)> {
    var (word, b1) :- ReadLE(b, 4);
    Bitcoin.WordFits(b);
    var (flag, b2) :- ReadHeader(b1);
    if flag > 1 then Err(Encoding) else Ok(((Bitcoin.FromWord(word), flag), b2))
  }

  /** Version, flag and body, and the unread bytes at which the stripped transaction ends. */
  function ReadStripped(point: Point, b: Bytes): Parsed<(Bitcoin.I32, Byte, Body)> {
    var (p, b1) :- ReadPrefix(b);
    var (body, b2) :- ReadBody(point, b1);
    Ok(((p.0, p.1, body), b2))
  }

  function ReadWitnessesIf(there: bool, body: Body, b: Bytes): Parsed<Option<Witnesses>> {
    if !there then Ok((None, b))
    else
      var (w, rest) :- ReadWitnesses(|body.inputs|, |body.outputs|, b);
      Ok((Some(w), rest))
  }

  function WriteWitnessesIf(w: Option<Witnesses>): Bytes { match w case None => [] case Some(x) => WriteWitnesses(x) }

  function Parse(point: Point, raw: Bytes): Result<Transaction, WireError> {
    if raw == [] || |raw| > MAX_TRANSACTION_BYTES then Err(Bounds)
    else
      var (s, b1) :- ReadStripped(point, raw);
      var (w, b2) :- ReadWitnessesIf(s.1 == 1, s.2, b1);
      if b2 != [] then Err(Encoding) else Ok(Transaction(s.0, s.2.inputs, s.2.outputs, s.2.lockTime, w))
  }

  ghost predicate OkTransaction(point: Point, t: Transaction) {
    OkBody(point, BodyOf(t)) && (t.witnesses.Some? ==> OkWitnesses(t.witnesses.value, |t.inputs|, |t.outputs|))
  }

  lemma PrefixExact(version: Bitcoin.I32, flag: Byte, rest: Bytes)
    requires flag <= 1
    ensures ReadPrefix(LE(4, Bitcoin.ToWord(version)) + ([flag] + rest)) == Ok(((version, flag), rest))
  {
    Pow256Values();
    ReadLEExact(4, Bitcoin.ToWord(version), [flag] + rest);
    assert ([flag] + rest)[1..] == rest;
  }

  lemma PrefixWritten(b: Bytes)
    requires ReadPrefix(b).Ok?
    ensures var (p, rest) := ReadPrefix(b).value; p.1 <= 1 && b == LE(4, Bitcoin.ToWord(p.0)) + ([p.1] + rest)
  {
    Pow256Values();
    ReadLEWritten(4, b);
    Headed(ReadLE(b, 4).value.1);
  }

  lemma StrippedExact(point: Point, version: Bitcoin.I32, flag: Byte, y: Body, rest: Bytes)
    requires OkBody(point, y) && flag <= 1
    ensures ReadStripped(point, LE(4, Bitcoin.ToWord(version)) + [flag] + WriteBody(y) + rest)
            == Ok(((version, flag, y), rest))
  {
    Joined3(LE(4, Bitcoin.ToWord(version)), [flag], WriteBody(y), rest);
    PrefixExact(version, flag, WriteBody(y) + rest);
    BodyExact(point, y, rest);
  }

  lemma StrippedWritten(point: Point, b: Bytes)
    requires ReadStripped(point, b).Ok?
    ensures var ((version, flag, y), rest) := ReadStripped(point, b).value;
            OkBody(point, y) && flag <= 1 && b == LE(4, Bitcoin.ToWord(version)) + [flag] + WriteBody(y) + rest
  {
    PrefixWritten(b);
    var (p, b1) := ReadPrefix(b).value;
    BodyWritten(point, b1);
    var (y, rest) := ReadBody(point, b1).value;
    Joined3(LE(4, Bitcoin.ToWord(p.0)), [p.1], WriteBody(y), rest);
  }

  lemma WitnessesIfExact(w: Option<Witnesses>, y: Body)
    requires w.Some? ==> OkWitnesses(w.value, |y.inputs|, |y.outputs|)
    ensures ReadWitnessesIf(w.Some?, y, WriteWitnessesIf(w)) == Ok((w, []))
  {
    if w.Some? {
      assert WriteWitnesses(w.value) + [] == WriteWitnesses(w.value);
      WitnessesExact(w.value, []);
    }
  }

  lemma WitnessesIfWritten(there: bool, y: Body, b: Bytes)
    requires ReadWitnessesIf(there, y, b).Ok? && ReadWitnessesIf(there, y, b).value.1 == []
    ensures var w := ReadWitnessesIf(there, y, b).value.0;
            w.Some? == there && (w.Some? ==> OkWitnesses(w.value, |y.inputs|, |y.outputs|)) && b == WriteWitnessesIf(w)
  {
    if there { WitnessesWritten(|y.inputs|, |y.outputs|, b); }
  }

  /** Every in-bounds transaction is accepted and read back. */
  lemma EncodeThenParse(point: Point, t: Transaction)
    requires OkTransaction(point, t) && |Encode(t)| <= MAX_TRANSACTION_BYTES
    ensures Parse(point, Encode(t)) == Ok(t)
  {
    StrippedExact(point, t.version, if t.witnesses.Some? then 1 else 0, BodyOf(t), WriteWitnessesIf(t.witnesses));
    WitnessesIfExact(t.witnesses, BodyOf(t));
  }

  /** Whatever is accepted is the encoding of the parsed fields. */
  lemma ParseThenEncode(point: Point, raw: Bytes)
    requires Parse(point, raw).Ok?
    ensures OkTransaction(point, Parse(point, raw).value) && Encode(Parse(point, raw).value) == raw
  {
    StrippedWritten(point, raw);
    var (s, b1) := ReadStripped(point, raw).value;
    WitnessesIfWritten(s.1 == 1, s.2, b1);
    EncodedParts(s.0, s.1, s.2, ReadWitnessesIf(s.1 == 1, s.2, b1).value.0);
  }

  lemma EncodedParts(version: Bitcoin.I32, flag: Byte, y: Body, w: Option<Witnesses>)
    requires flag <= 1 && w.Some? == (flag == 1)
    ensures var t := Transaction(version, y.inputs, y.outputs, y.lockTime, w);
            BodyOf(t) == y &&
            Encode(t) == LE(4, Bitcoin.ToWord(version)) + [flag] + WriteBody(y) + WriteWitnessesIf(w)
  {
  }

  /** Two accepted strings with the same fields are equal. */
  lemma ParseInjective(point: Point, a: Bytes, b: Bytes)
    requires Parse(point, a).Ok? && Parse(point, a) == Parse(point, b)
    ensures a == b
  {
    ParseThenEncode(point, a);
    ParseThenEncode(point, b);
  }

  // ----- identifiers -----

  /** The raw bytes up to the witnesses, with the flag byte cleared. */
  function StrippedBytes(point: Point, raw: Bytes): Bytes
    requires ReadStripped(point, raw).Ok?
  {
    StrippedWritten(point, raw);
    raw[..4] + [0] + raw[5..|raw| - |ReadStripped(point, raw).value.1|]
  }

  function TransactionId(sha: Bytes -> Bytes, point: Point, raw: Bytes): Bytes
    requires ReadStripped(point, raw).Ok?
  {
    Reversed(sha(sha(StrippedBytes(point, raw))))
  }

  /** The fields an identifier covers. */
  function StrippedFields(t: Transaction): Bytes { LE(4, Bitcoin.ToWord(t.version)) + [0] + WriteBody(BodyOf(t)) }

  lemma StrippedIsFields(point: Point, raw: Bytes)
    requires Parse(point, raw).Ok?
    ensures StrippedBytes(point, raw) == StrippedFields(Parse(point, raw).value)
  {
    StrippedWritten(point, raw);
    var (s, rest) := ReadStripped(point, raw).value;
    assert BodyOf(Parse(point, raw).value) == s.2;
    Cleared(LE(4, Bitcoin.ToWord(s.0)), s.1, WriteBody(s.2), rest);
  }

  lemma Cleared(v: Bytes, flag: Byte, body: Bytes, rest: Bytes)
    requires |v| == 4
    ensures var raw := v + [flag] + body + rest; raw[..4] + [0] + raw[5..|raw| - |rest|] == v + [0] + body
  {
    var raw := v + [flag] + body + rest;
    assert raw[..4] == v && raw[5..|raw| - |rest|] == body;
  }

  ghost predicate SameFields(a: Transaction, b: Transaction) {
    a.version == b.version && a.inputs == b.inputs && a.outputs == b.outputs && a.lockTime == b.lockTime
  }

  /** Transactions that differ only in their witnesses have one identifier. */
  lemma IdIgnoresWitnesses(sha: Bytes -> Bytes, point: Point, a: Bytes, b: Bytes)
    requires Parse(point, a).Ok? && Parse(point, b).Ok? && SameFields(Parse(point, a).value, Parse(point, b).value)
    ensures TransactionId(sha, point, a) == TransactionId(sha, point, b)
  {
    StrippedIsFields(point, a);
    StrippedIsFields(point, b);
  }

  /** Conversely, equal identifiers mean equal fields, or two named strings with one hash. */
  lemma IdBindsFields(sha: Bytes -> Bytes, point: Point, a: Bytes, b: Bytes)
    requires Parse(point, a).Ok? && Parse(point, b).Ok?
    requires TransactionId(sha, point, a) == TransactionId(sha, point, b)
    ensures var t, u := Parse(point, a).value, Parse(point, b).value;
            var p, q := StrippedFields(t), StrippedFields(u);
            SameFields(t, u) || (p != q && sha(p) == sha(q)) || (sha(p) != sha(q) && sha(sha(p)) == sha(sha(q)))
  {
    var t, u := Parse(point, a).value, Parse(point, b).value;
    StrippedIsFields(point, a);
    StrippedIsFields(point, b);
    ReversedTwice(sha(sha(StrippedFields(t))));
    ReversedTwice(sha(sha(StrippedFields(u))));
    if StrippedFields(t) == StrippedFields(u) { FieldsFromBytes(point, a, b); }
  }

  lemma FieldsFromBytes(point: Point, a: Bytes, b: Bytes)
    requires Parse(point, a).Ok? && Parse(point, b).Ok?
    requires StrippedFields(Parse(point, a).value) == StrippedFields(Parse(point, b).value)
    ensures SameFields(Parse(point, a).value, Parse(point, b).value)
  {
    var t, u := Parse(point, a).value, Parse(point, b).value;
    ParseThenEncode(point, a);
    ParseThenEncode(point, b);
    StrippedExact(point, t.version, 0, BodyOf(t), []);
    StrippedExact(point, u.version, 0, BodyOf(u), []);
  }
}
