/** The Taproot signature messages: what equal messages, and equal signature hashes, commit to. */
module Taproot {
  import opened ByteStrings
  import opened Wire
  import opened Transactions

  const TAPROOT_LEAF_VERSION: Byte := 0xc0
  const TAPROOT_NO_CODE_SEPARATOR := 0xffff_ffff

  /** The hash, and the script and key checks the messages are guarded by. */
  datatype Env = Env(
    sha: Bytes -> Bytes, outputKey: Bytes -> bool, leaf: Bytes -> bool, commits: (Bytes, Bytes, Bytes) -> bool)
  {
    ghost predicate Valid() { forall b :: |sha(b)| == 32 }
  }

  datatype Spend = Spend(t: Transaction, prevouts: seq<TxOut>, index: nat, script: Bytes, control: Bytes)

  // ----- the lists that are hashed -----

  datatype Source = Source(txid: Txid, vout: U32)

  function WriteSource(s: Source): Bytes { s.txid + LE(4, s.vout) }

  function ReadSource(b: Bytes): Parsed<Source> {
    var (txid, b1) :- Take(b, 32);
    var (vout, b2) :- ReadLE(b1, 4);
    WordFits(b1);
    Ok((Source(txid, vout), b2))
  }

  function WriteU32(v: U32): Bytes { LE(4, v) }

  function ReadU32(b: Bytes): Parsed<U32> {
    var (v, rest) :- ReadLE(b, 4);
    WordFits(b);
    Ok((v, rest))
  }

  function WriteU64(v: U64): Bytes { LE(8, v) }

  function ReadU64(b: Bytes): Parsed<U64> {
    var (v, rest) :- ReadLE(b, 8);
    LongFits(b);
    Ok((v, rest))
  }

  lemma SourceReads()
    ensures Reads(ReadSource, WriteSource, (_: Source) => true)
  {
    forall s: Source, rest: Bytes ensures ReadSource(WriteSource(s) + rest) == Ok((s, rest)) {
      Pow256Values();
      assert WriteSource(s) + rest == s.txid + (LE(4, s.vout) + rest);
      TakeExact(s.txid, LE(4, s.vout) + rest);
      ReadLEExact(4, s.vout, rest);
    }
  }

  lemma WordReads()
    ensures Reads(ReadU32, WriteU32, (_: U32) => true) && Reads(ReadU64, WriteU64, (_: U64) => true)
  {
    Pow256Values();
    forall v: U32, rest: Bytes ensures ReadU32(WriteU32(v) + rest) == Ok((v, rest)) { ReadLEExact(4, v, rest); }
    forall v: U64, rest: Bytes ensures ReadU64(WriteU64(v) + rest) == Ok((v, rest)) { ReadLEExact(8, v, rest); }
  }

  function Sources(inputs: seq<TxIn>): (s: seq<Source>)
    ensures |s| == |inputs| && forall i :: 0 <= i < |s| ==> s[i] == Source(inputs[i].txid, inputs[i].vout)
  {
    seq(|inputs|, i requires 0 <= i < |inputs| => Source(inputs[i].txid, inputs[i].vout))
  }

  function Sequences(inputs: seq<TxIn>): (s: seq<U32>)
    ensures |s| == |inputs| && forall i :: 0 <= i < |s| ==> s[i] == inputs[i].sequence
  {
    seq(|inputs|, i requires 0 <= i < |inputs| => inputs[i].sequence)
  }

  function Amounts(outs: seq<TxOut>): (s: seq<U64>)
    ensures |s| == |outs| && forall i :: 0 <= i < |s| ==> s[i] == outs[i].value
  {
    seq(|outs|, i requires 0 <= i < |outs| => outs[i].value)
  }

  function Scripts(outs: seq<TxOut>): (s: seq<Blob>)
    ensures |s| == |outs| && forall i :: 0 <= i < |s| ==> s[i] == outs[i].script
  {
    seq(|outs|, i requires 0 <= i < |outs| => outs[i].script)
  }

  // ----- messages -----

  predicate ValidInputs(env: Env, t: Transaction, prevouts: seq<TxOut>, index: nat) {
    && 0 < |t.inputs| <= MAX_INPUTS && |t.inputs| == |prevouts| && 0 < |t.outputs| <= MAX_OUTPUTS && index < |t.inputs|
    && t.inputs[index].scriptSig == []
    && (forall p :: p in prevouts ==> |p.script| <= MAX_SCRIPT_BYTES)
    && env.outputKey(prevouts[index].script)
  }

  predicate OutputsFit(t: Transaction) { forall o :: o in t.outputs ==> OkOutput(o) }

  predicate ScriptSpendAllowed(env: Env, s: Spend) {
    && ValidInputs(env, s.t, s.prevouts, s.index) && (forall i :: i in s.t.inputs ==> |i.scriptSig| <= MAX_SCRIPT_BYTES)
    && s.control != [] && s.control[0] / 2 == TAPROOT_LEAF_VERSION / 2
    && |s.script| <= MAX_SCRIPT_BYTES && env.leaf(s.script)
    && env.commits(s.prevouts[s.index].script, s.script, s.control)
  }

  predicate KeySpendAllowed(env: Env, t: Transaction, prevouts: seq<TxOut>, index: nat) {
    ValidInputs(env, t, prevouts, index) && forall i :: i in t.inputs ==> i.scriptSig == []
  }

  /** `sha(sha(tag) || sha(tag) || message)`. */
  function TaggedPreimage(env: Env, tag: Bytes, message: Bytes): Bytes { env.sha(tag) + env.sha(tag) + message }

  function Tagged(env: Env, tag: Bytes, message: Bytes): Bytes { env.sha(TaggedPreimage(env, tag, message)) }

  function TapLeafTag(): Bytes { [84, 97, 112, 76, 101, 97, 102] }

  function TapSighashTag(): Bytes { [84, 97, 112, 83, 105, 103, 104, 97, 115, 104] }

  function LeafPreimage(env: Env, script: Bytes): Bytes
    requires |script| <= MAX_SCRIPT_BYTES
  {
    TaggedPreimage(env, TapLeafTag(), [TAPROOT_LEAF_VERSION] + VarBytes(script))
  }

  function Concat(fields: seq<Bytes>): Bytes {
    if fields == [] then [] else Concat(fields[..|fields| - 1]) + fields[|fields| - 1]
  }

  function SourceBytes(t: Transaction): Bytes { WriteMany(WriteSource, Sources(t.inputs)) }

  function SequenceBytes(t: Transaction): Bytes { WriteMany(WriteU32, Sequences(t.inputs)) }

  function AmountBytes(prevouts: seq<TxOut>): Bytes { WriteMany(WriteU64, Amounts(prevouts)) }

  function ScriptBytes(prevouts: seq<TxOut>): Bytes { WriteMany(WriteItem, Scripts(prevouts)) }

  function OutputBytes(t: Transaction): Bytes { WriteMany(WriteOutput, t.outputs) }

  /** The fields both spending paths share: epoch, hash type, version, lock time, five hashes, the extension byte and
      the index. */
  function CommonFields(env: Env, t: Transaction, prevouts: seq<TxOut>, extension: Byte, index: nat): seq<Bytes> {
    [[0], [0], LE(4, ToWord(t.version)), LE(4, t.lockTime),
     env.sha(SourceBytes(t)), env.sha(AmountBytes(prevouts)), env.sha(ScriptBytes(prevouts)), env.sha(SequenceBytes(t)),
       env.sha(OutputBytes(t)),
     [extension], LE(4, index)]
  }

  function ScriptFields(env: Env, s: Spend): seq<Bytes>
    requires |s.script| <= MAX_SCRIPT_BYTES
  {
    CommonFields(env, s.t, s.prevouts, 2, s.index)
      + [env.sha(LeafPreimage(env, s.script)), [0], LE(4, TAPROOT_NO_CODE_SEPARATOR)]
  }

  function ScriptMessage(env: Env, s: Spend): Result<Bytes, WireError> {
    if !ScriptSpendAllowed(env, s) then Err(Invalid)
    else if !OutputsFit(s.t) then Err(Bounds)
    else Ok(Concat(ScriptFields(env, s)))
  }

  function KeyMessage(env: Env, t: Transaction, prevouts: seq<TxOut>, index: nat): Result<Bytes, WireError> {
    if !KeySpendAllowed(env, t, prevouts, index) then Err(Invalid)
    else if !OutputsFit(t) then Err(Bounds)
    else Ok(Concat(CommonFields(env, t, prevouts, 0, index)))
  }

  function ScriptSighash(env: Env, s: Spend): Result<Bytes, WireError> {
    var message :- ScriptMessage(env, s);
    Ok(Tagged(env, TapSighashTag(), message))
  }

  function KeySighash(env: Env, t: Transaction, prevouts: seq<TxOut>, index: nat): Result<Bytes, WireError> {
    var message :- KeyMessage(env, t, prevouts, index);
    Ok(Tagged(env, TapSighashTag(), message))
  }

  // ----- fields are determined by their concatenation -----

  ghost predicate SameWidths(a: seq<Bytes>, b: seq<Bytes>) {
    |a| == |b| && forall k :: 0 <= k < |a| ==> |a[k]| == |b[k]|
  }

  lemma {:induction false} ConcatInjective(a: seq<Bytes>, b: seq<Bytes>)
    requires SameWidths(a, b) && Concat(a) == Concat(b)
    ensures a == b
  {
    if a != [] {
      var front, front' := a[..|a| - 1], b[..|b| - 1];
      SplitEnd(Concat(front), a[|a| - 1], Concat(front'), b[|b| - 1]);
      ConcatInjective(front, front');
      assert a == front + [a[|a| - 1]] && b == front' + [b[|b| - 1]];
    }
  }

  lemma SplitEnd(p: Bytes, q: Bytes, p': Bytes, q': Bytes)
    requires p + q == p' + q' && |q| == |q'|
    ensures p == p' && q == q'
  {
    assert p == (p + q)[..|p|] && q == (p + q)[|p|..];
    assert p' == (p' + q')[..|p'|] && q' == (p' + q')[|p'|..];
  }

  // ----- what the hashed lists determine -----

  lemma SourcesBound(a: Transaction, b: Transaction)
    requires SourceBytes(a) == SourceBytes(b)
    ensures Sources(a.inputs) == Sources(b.inputs)
  {
    SourceReads();
    ManyInjective(ReadSource, WriteSource, (_: Source) => true, Sources(a.inputs), Sources(b.inputs));
  }

  lemma SequencesBound(a: Transaction, b: Transaction)
    requires SequenceBytes(a) == SequenceBytes(b)
    ensures Sequences(a.inputs) == Sequences(b.inputs)
  {
    WordReads();
    ManyInjective(ReadU32, WriteU32, (_: U32) => true, Sequences(a.inputs), Sequences(b.inputs));
  }

  lemma AmountsBound(a: seq<TxOut>, b: seq<TxOut>)
    requires AmountBytes(a) == AmountBytes(b)
    ensures Amounts(a) == Amounts(b)
  {
    WordReads();
    ManyInjective(ReadU64, WriteU64, (_: U64) => true, Amounts(a), Amounts(b));
  }

  lemma ScriptsBound(a: seq<TxOut>, b: seq<TxOut>)
    requires ScriptBytes(a) == ScriptBytes(b)
    requires (forall p :: p in a ==> |p.script| <= MAX_SCRIPT_BYTES) &&
             (forall p :: p in b ==> |p.script| <= MAX_SCRIPT_BYTES)
    ensures Scripts(a) == Scripts(b)
  {
    ItemFormat();
    forall s | s in Scripts(a) ensures OkItem(s) { var k :| 0 <= k < |a| && Scripts(a)[k] == s; assert a[k] in a; }
    forall s | s in Scripts(b) ensures OkItem(s) { var k :| 0 <= k < |b| && Scripts(b)[k] == s; assert b[k] in b; }
    ManyInjective(ReadItem, WriteItem, OkItem, Scripts(a), Scripts(b));
  }

  lemma OutputsBound(a: Transaction, b: Transaction)
    requires OutputBytes(a) == OutputBytes(b) && OutputsFit(a) && OutputsFit(b)
    ensures a.outputs == b.outputs
  {
    OutputFormat();
    ManyInjective(ReadOutput, WriteOutput, OkOutput, a.outputs, b.outputs);
  }

  lemma PrevoutsBound(a: seq<TxOut>, b: seq<TxOut>)
    requires Amounts(a) == Amounts(b) && Scripts(a) == Scripts(b)
    ensures a == b
  {
    assert |a| == |Amounts(a)|;
    forall k | 0 <= k < |a|
      ensures a[k] == b[k]
    {
      assert Amounts(a)[k] == Amounts(b)[k] && Scripts(a)[k] == Scripts(b)[k];
    }
  }

  lemma LeafBound(env: Env, p: Bytes, q: Bytes)
    requires |p| <= MAX_SCRIPT_BYTES && |q| <= MAX_SCRIPT_BYTES && LeafPreimage(env, p) == LeafPreimage(env, q)
    ensures p == q
  {
    var prefix := env.sha(TapLeafTag()) + env.sha(TapLeafTag());
    var v: Bytes := [TAPROOT_LEAF_VERSION];
    assert LeafPreimage(env, p) == (prefix + v) + VarBytes(p) && LeafPreimage(env, q) == (prefix + v) + VarBytes(q);
    assert VarBytes(p) == LeafPreimage(env, p)[|prefix + v|..] && VarBytes(q) == LeafPreimage(env, q)[|prefix + v|..];
    assert VarBytes(p) + [] == VarBytes(p) && VarBytes(q) + [] == VarBytes(q);
    VarBytesExact(p, MAX_SCRIPT_BYTES, []);
    VarBytesExact(q, MAX_SCRIPT_BYTES, []);
  }
}
