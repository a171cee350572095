/** The consensus transaction format byte by byte, and the parser as its exact recogniser. */
module TransactionLayout {
  import opened ByteStrings
  import opened Wire
  import opened WireLayout
  import opened Transactions
  import opened TransactionCodec

  // ----- the format -----

  /** 32 bytes of identifier, the output index, the script and the sequence number. */
  ghost predicate IsInput(b: Bytes, i: TxIn) {
    && |b| >= 40 && b[..32] == i.txid && IsWord(b[32..36], i.vout)
    && IsString(b[36..|b| - 4], i.scriptSig) && IsWord(b[|b| - 4..], i.sequence)
  }

  /** Eight bytes of value, then the script. */
  ghost predicate IsOutput(b: Bytes, o: TxOut) { |b| >= 8 && IsLong(b[..8], o.value) && IsString(b[8..], o.script) }

  ghost predicate IsItem(b: Bytes, s: Blob) { IsString(b, s) }

  ghost predicate IsStack(b: Bytes, w: seq<Blob>) { IsCounted(b, w, IsItem) }

  /** A signed version as the four bytes of its two's complement. */
  ghost predicate IsVersion(b: Bytes, v: I32) { IsWord(b, if v < 0 then v + 0x1_0000_0000 else v) }

  /** Version, marker and flag if there are witnesses, inputs up to `i`, outputs up to `j`, one witness stack for each
      input, lock time. */
  ghost predicate IsTransactionAt(b: Bytes, t: Transaction, i: int, j: int) {
    var m, n := if t.hasWitness then 6 else 4, |b| - 4;
    && m <= i <= j <= n
    && IsVersion(b[..4], t.version) && (t.hasWitness ==> b[4] == 0 && b[5] == 1)
    && IsCounted(b[m..i], t.inputs, IsInput) && IsCounted(b[i..j], t.outputs, IsOutput)
    && (if t.hasWitness then IsMany(b[j..n], Stacks(t.inputs), IsStack)
        else j == n && forall k :: 0 <= k < |t.inputs| ==> t.inputs[k].stack == [])
    && IsWord(b[n..], t.lockTime)
  }

  ghost predicate IsTransaction(b: Bytes, t: Transaction) { exists i, j :: IsTransactionAt(b, t, i, j) }

  /** The limits of the parser. */
  ghost predicate InLimits(t: Transaction) {
    && 0 < |t.inputs| <= 4_096 && 0 < |t.outputs| <= 4_096
    && (forall k :: 0 <= k < |t.inputs| ==> |t.inputs[k].scriptSig| <= 10_000 && |t.inputs[k].stack| <= 1_024)
    && (forall k, s :: 0 <= k < |t.inputs| && s in t.inputs[k].stack ==> |s| <= 80_000)
    && (forall k :: 0 <= k < |t.outputs| ==> |t.outputs[k].script| <= 10_000)
  }

  // ----- items -----

  lemma InputIff(b: Bytes, i: TxIn)
    ensures IsInput(b, i) <==> b == WriteInput(i)
  {
    var w := WriteInput(i);
    var script := VarBytes(i.scriptSig);
    assert w[..32] == i.txid && w[32..36] == LE(4, i.vout) && w[36..|w| - 4] == script &&
           w[|w| - 4..] == LE(4, i.sequence);
    if |b| >= 40 {
      WordIff(b[32..36], i.vout);
      StringIff(b[36..|b| - 4], i.scriptSig);
      WordIff(b[|b| - 4..], i.sequence);
      assert b == b[..32] + b[32..36] + b[36..|b| - 4] + b[|b| - 4..];
    }
  }

  lemma OutputIff(b: Bytes, o: TxOut)
    ensures IsOutput(b, o) <==> b == WriteOutput(o)
  {
    var w := WriteOutput(o);
    assert w[..8] == LE(8, o.value) && w[8..] == VarBytes(o.script);
    if |b| >= 8 {
      LongIff(b[..8], o.value);
      StringIff(b[8..], o.script);
      assert b == b[..8] + b[8..];
    }
  }

  lemma StackIff(b: Bytes, w: seq<Blob>)
    requires |w| < 0x1_0000_0000_0000_0000
    ensures IsStack(b, w) <==> b == WriteStack(w)
  {
    ItemFormats();
    CountedIff(WriteItem, IsItem, (_: Blob) => true, b, w);
  }

  lemma ItemFormats()
    ensures Formats(WriteItem, IsItem, (_: Blob) => true)
  {
    forall b: Bytes, s: Blob ensures IsItem(b, s) <==> b == WriteItem(s) { StringIff(b, s); }
  }

  lemma InputFormats()
    ensures Formats(WriteInput, IsInput, (_: TxIn) => true)
  {
    forall b: Bytes, i: TxIn ensures IsInput(b, i) <==> b == WriteInput(i) { InputIff(b, i); }
  }

  lemma OutputFormats()
    ensures Formats(WriteOutput, IsOutput, (_: TxOut) => true)
  {
    forall b: Bytes, o: TxOut ensures IsOutput(b, o) <==> b == WriteOutput(o) { OutputIff(b, o); }
  }

  predicate Countable(w: seq<Blob>) { |w| < 0x1_0000_0000_0000_0000 }

  lemma StackFormats()
    ensures Formats(WriteStack, IsStack, Countable)
  {
    forall b: Bytes, w: seq<Blob> | Countable(w) ensures IsStack(b, w) <==> b == WriteStack(w) { StackIff(b, w); }
  }

  lemma {:induction false} StripWrites(inputs: seq<TxIn>)
    ensures WriteMany(WriteInput, Strip(inputs)) == WriteMany(WriteInput, inputs)
  {
    if inputs != [] {
      var n := |inputs| - 1;
      StripWrites(inputs[..n]);
      assert Strip(inputs)[..n] == Strip(inputs[..n]);
    }
  }

  // ----- the whole -----

  ghost predicate Countables(t: Transaction) {
    && |t.inputs| < 0x1_0000_0000_0000_0000 && |t.outputs| < 0x1_0000_0000_0000_0000
    && (forall k :: 0 <= k < |t.inputs| ==> Countable(t.inputs[k].stack))
  }

  /** The six sections an encoding consists of. */
  function Marker(t: Transaction): Bytes { if t.hasWitness then [0, 1] else [] }

  function InputSection(t: Transaction): Bytes { WriteCounted(WriteInput, t.inputs) }

  function OutputSection(t: Transaction): Bytes { WriteCounted(WriteOutput, t.outputs) }

  function WitnessSection(t: Transaction): Bytes {
    if t.hasWitness then WriteMany(WriteStack, Stacks(t.inputs)) else []
  }

  function Written(t: Transaction): Bytes {
    LE(4, ToWord(t.version)) + Marker(t) + InputSection(t) + OutputSection(t) + WitnessSection(t) + LE(4, t.lockTime)
  }

  lemma EncodeSections(t: Transaction)
    ensures Encode(t.version, t.inputs, t.outputs, t.lockTime, t.hasWitness) == Written(t)
  {
    StripWrites(t.inputs);
    Regroup(LE(4, ToWord(t.version))
            + Marker(t), InputSection(t), OutputSection(t), WitnessSection(t), LE(4, t.lockTime));
  }

  lemma Regroup(a: Bytes, b: Bytes, c: Bytes, d: Bytes, e: Bytes)
    ensures a + (b + c) + d + e == a + b + c + d + e
  {
  }

  /** Cutting a string where its sections end. */
  lemma Sections(b: Bytes, m: nat, i: nat, j: nat, v: Bytes, marker: Bytes, ins: Bytes, outs: Bytes, wit: Bytes,
                 lock: Bytes)
    requires |v| == 4 && |lock| == 4 && m == 4 + |marker| && m <= i <= j <= |b| - 4
    requires i == m + |ins| && j == i + |outs| && |b| == j + |wit| + 4
    ensures b == v + marker + ins + outs + wit + lock <==>
            && b[..4] == v && b[4..m] == marker && b[m..i] == ins && b[i..j] == outs && b[j..|b| - 4] == wit
            && b[|b| - 4..] == lock
  {
    var w := v + marker + ins + outs + wit + lock;
    assert w[..4] == v && w[4..m] == marker && w[m..i] == ins && w[i..j] == outs && w[j..|w| - 4] == wit;
    assert w[|w| - 4..] == lock;
    assert b == b[..4] + b[4..m] + b[m..i] + b[i..j] + b[j..|b| - 4] + b[|b| - 4..];
  }

  lemma MarkerIs(b: Bytes, t: Transaction, m: nat)
    requires m == (if t.hasWitness then 6 else 4) <= |b|
    ensures (t.hasWitness ==> b[4] == 0 && b[5] == 1) <==> b[4..m] == Marker(t)
  {
    if t.hasWitness { assert b[4..6] == [b[4], b[5]]; }
  }

  lemma VersionIff(b: Bytes, v: I32)
    ensures IsVersion(b, v) <==> b == LE(4, ToWord(v))
  {
    WordIff(b, ToWord(v));
  }

  lemma WitnessIff(b: Bytes, t: Transaction)
    requires Countables(t) && t.hasWitness
    ensures IsMany(b, Stacks(t.inputs), IsStack) <==> b == WitnessSection(t)
  {
    StackFormats();
    forall w | w in Stacks(t.inputs) ensures Countable(w) {
      var k :| 0 <= k < |t.inputs| && Stacks(t.inputs)[k] == w;
    }
    ManyIff(WriteStack, IsStack, Countable, b, Stacks(t.inputs));
  }

  lemma BodyIff(b: Bytes, c: Bytes, t: Transaction)
    requires Countables(t)
    ensures IsCounted(b, t.inputs, IsInput) <==> b == InputSection(t)
    ensures IsCounted(c, t.outputs, IsOutput) <==> c == OutputSection(t)
  {
    InputFormats();
    CountedIff(WriteInput, IsInput, (_: TxIn) => true, b, t.inputs);
    OutputFormats();
    CountedIff(WriteOutput, IsOutput, (_: TxOut) => true, c, t.outputs);
  }

  ghost predicate NoStacks(t: Transaction) { forall k :: 0 <= k < |t.inputs| ==> t.inputs[k].stack == [] }

  /** At fixed cuts, the format holds exactly when every section is what is written there. */
  lemma AtIff(b: Bytes, t: Transaction, i: nat, j: nat)
    requires Countables(t)
    ensures IsTransactionAt(b, t, i, j) <==>
            var m := if t.hasWitness then 6 else 4;
            && m <= i <= j <= |b| - 4 && (t.hasWitness || NoStacks(t))
            && b[..4] == LE(4, ToWord(t.version)) && b[4..m] == Marker(t) && b[m..i] == InputSection(t)
            && b[i..j] == OutputSection(t) && b[j..|b| - 4] == WitnessSection(t) && b[|b| - 4..] == LE(4, t.lockTime)
  {
    var m := if t.hasWitness then 6 else 4;
    if m <= i <= j <= |b| - 4 {
      VersionIff(b[..4], t.version);
      MarkerIs(b, t, m);
      BodyIff(b[m..i], b[i..j], t);
      if t.hasWitness { WitnessIff(b[j..|b| - 4], t); }
      WordIff(b[|b| - 4..], t.lockTime);
    }
  }

  lemma WrittenIsFormat(b: Bytes, t: Transaction)
    requires Countables(t) && b == Written(t) && (t.hasWitness || NoStacks(t))
    ensures IsTransaction(b, t)
  {
    var m := 4 + |Marker(t)|;
    var i := m + |InputSection(t)|;
    var j := i + |OutputSection(t)|;
    Sections(b, m, i, j, LE(4, ToWord(t.version)), Marker(t), InputSection(t), OutputSection(t), WitnessSection(t),
             LE(4, t.lockTime));
    AtIff(b, t, i, j);
  }

  lemma FormatIsWritten(b: Bytes, t: Transaction, i: nat, j: nat)
    requires Countables(t) && IsTransactionAt(b, t, i, j)
    ensures b == Written(t) && (t.hasWitness || NoStacks(t))
  {
    AtIff(b, t, i, j);
    Sections(b, if t.hasWitness then 6 else 4, i, j, LE(4, ToWord(t.version)), Marker(t), InputSection(t),
             OutputSection(t), WitnessSection(t), LE(4, t.lockTime));
  }

  /** The format is exactly the encoding. */
  lemma TransactionIff(b: Bytes, t: Transaction)
    requires Countables(t)
    ensures IsTransaction(b, t) <==>
            && b == Encode(t.version, t.inputs, t.outputs, t.lockTime, t.hasWitness)
            && (t.hasWitness || NoStacks(t))
  {
    EncodeSections(t);
    if b == Written(t) && (t.hasWitness || NoStacks(t)) { WrittenIsFormat(b, t); }
    if i, j :| IsTransactionAt(b, t, i, j) { FormatIsWritten(b, t, i, j); }
  }

  lemma LimitsIff(t: Transaction)
    ensures InLimits(t) <==> OkBody(Strip(t.inputs), t.outputs) && OkStacks(t.inputs)
  {
    if InLimits(t) {
      forall i | i in Strip(t.inputs) ensures OkInput(i) {
        var k :| 0 <= k < |t.inputs| && Strip(t.inputs)[k] == i;
      }
    }
    if OkBody(Strip(t.inputs), t.outputs) && OkStacks(t.inputs) {
      forall k | 0 <= k < |t.inputs| ensures |t.inputs[k].scriptSig| <= 10_000 && |t.inputs[k].stack| <= 1_024 {
        assert Strip(t.inputs)[k] in Strip(t.inputs);
      }
      forall k | 0 <= k < |t.outputs| ensures |t.outputs[k].script| <= 10_000 { assert t.outputs[k] in t.outputs; }
    }
  }

  /** The parser accepts exactly the strings in the format that are within the limits, as what they are. */
  lemma ParseIff(b: Bytes, t: Transaction)
    ensures Parse(b) == Ok(t) <==> IsTransaction(b, t) && InLimits(t) && |b| <= 1_000_000
  {
    LimitsIff(t);
    StripIdentity(t.inputs);
    if Parse(b) == Ok(t) {
      EncodeParse(b);
      ParseBound(b);
      TransactionIff(b, t);
    }
    if InLimits(t) && IsTransaction(b, t) && |b| <= 1_000_000 {
      TransactionIff(b, t);
      ParseEncode(t.version, t.inputs, t.outputs, t.lockTime, t.hasWitness);
    }
  }

  lemma ParseBound(b: Bytes)
    requires Parse(b).Ok?
    ensures |b| <= 1_000_000
  {
  }

  // ----- serialisation -----

  /** What a serialisation says: witnesses only if they are asked for, flagged and there. */
  ghost function Said(t: Transaction, includeWitness: bool): Transaction {
    var marked := includeWitness && t.hasWitness && AnyWitness(t.inputs);
    Transaction(t.version, Seen(t.inputs, marked), t.outputs, t.lockTime, marked)
  }

  /** A transaction serialises exactly to the string in the format of what it says, if that is within the limits. */
  lemma SerializeIff(t: Transaction, includeWitness: bool, b: Bytes)
    ensures Serialize(t, includeWitness) == Ok(b) <==>
            IsTransaction(b, Said(t, includeWitness)) && InLimits(Said(t, includeWitness)) && |b| <= 1_000_000
  {
    var u := Said(t, includeWitness);
    SaidEncodes(t, includeWitness);
    LimitsIff(u);
    if InLimits(u) { TransactionIff(b, u); }
    if Serialize(t, includeWitness) == Ok(b) {
      SerializedShape(t, includeWitness);
      SaidFits(t, includeWitness);
      TransactionIff(b, u);
    }
    if InLimits(u) && IsTransaction(b, u) && |b| <= 1_000_000 { SaidSerializes(t, includeWitness, b); }
  }

  lemma SaidEncodes(t: Transaction, includeWitness: bool)
    ensures var u := Said(t, includeWitness);
            && Encode(u.version, u.inputs, u.outputs, u.lockTime, u.hasWitness)
               == Encode(t.version, t.inputs, t.outputs, t.lockTime, u.hasWitness)
            && (u.hasWitness || NoStacks(u)) && Strip(u.inputs) == Strip(t.inputs)
  {
    assert Strip(Strip(t.inputs)) == Strip(t.inputs);
  }

  lemma SaidFits(t: Transaction, includeWitness: bool)
    requires Serialize(t, includeWitness).Ok?
    ensures InLimits(Said(t, includeWitness))
  {
    var u := Said(t, includeWitness);
    SerializedShape(t, includeWitness);
    SaidEncodes(t, includeWitness);
    if !u.hasWitness {
      forall k | 0 <= k < |u.inputs| ensures OkStack(u.inputs[k].stack) { assert u.inputs[k].stack == []; }
    }
    LimitsIff(u);
  }

  lemma SaidSerializes(t: Transaction, includeWitness: bool, b: Bytes)
    requires var u := Said(t, includeWitness);
             OkBody(Strip(u.inputs), u.outputs) && OkStacks(u.inputs)
             && b == Encode(u.version, u.inputs, u.outputs, u.lockTime, u.hasWitness) && |b| <= 1_000_000
    ensures Serialize(t, includeWitness) == Ok(b)
  {
    var u := Said(t, includeWitness);
    SaidEncodes(t, includeWitness);
    forall i | i in t.inputs ensures |i.scriptSig| <= MAX_SCRIPT_BYTES && (u.hasWitness ==> OkStack(i.stack)) {
      var k :| 0 <= k < |t.inputs| && t.inputs[k] == i;
      assert Strip(t.inputs)[k] in Strip(u.inputs);
      assert u.hasWitness ==> u.inputs[k] == i;
    }
  }
}
