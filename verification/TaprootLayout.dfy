/** The Taproot signature messages byte by byte, and the strings behind the hashes in them. */
module TaprootLayout {
  import opened ByteStrings
  import opened Wire
  import opened WireLayout
  import opened Transactions
  import opened TransactionLayout
  import opened Taproot

  // ----- the hashed lists -----

  ghost predicate IsOutpoint(b: Bytes, i: TxIn) { |b| == 36 && b[..32] == i.txid && IsWord(b[32..], i.vout) }

  ghost predicate IsSequence(b: Bytes, i: TxIn) { IsWord(b, i.sequence) }

  ghost predicate IsAmount(b: Bytes, o: TxOut) { IsLong(b, o.value) }

  ghost predicate IsScript(b: Bytes, o: TxOut) { IsString(b, o.script) }

  /** Parts that format one list format another whose items have the same formats. */
  lemma Transfer<S(!new), T(!new)>(b: Bytes, ys: seq<S>, f: (Bytes, S) -> bool, xs: seq<T>, g: (Bytes, T) -> bool)
    requires IsMany(b, ys, f) && |xs| == |ys| && forall k, p :: 0 <= k < |xs| && f(p, ys[k]) ==> g(p, xs[k])
    ensures IsMany(b, xs, g)
  {
    var parts :| AreParts(parts, ys, f) && b == Joined(parts);
    assert AreParts(parts, xs, g);
  }

  ghost predicate IsSource(b: Bytes, s: Source) { |b| == 36 && b[..32] == s.txid && IsWord(b[32..], s.vout) }

  lemma SourcesLayout(t: Transaction)
    ensures IsMany(SourceBytes(t), t.inputs, IsOutpoint)
  {
    forall b: Bytes, s: Source ensures IsSource(b, s) <==> b == WriteSource(s) {
      var w := WriteSource(s);
      assert w[..32] == s.txid && w[32..] == LE(4, s.vout);
      if |b| == 36 {
        WordIff(b[32..], s.vout);
        assert b == b[..32] + b[32..];
      }
    }
    ManyIff(WriteSource, IsSource, (_: Source) => true, SourceBytes(t), Sources(t.inputs));
    Transfer(SourceBytes(t), Sources(t.inputs), IsSource, t.inputs, IsOutpoint);
  }

  ghost predicate IsU32(b: Bytes, v: U32) { IsWord(b, v) }

  lemma SequencesLayout(t: Transaction)
    ensures IsMany(SequenceBytes(t), t.inputs, IsSequence)
  {
    forall b: Bytes, v: U32 ensures IsU32(b, v) <==> b == WriteU32(v) { WordIff(b, v); }
    ManyIff(WriteU32, IsU32, (_: U32) => true, SequenceBytes(t), Sequences(t.inputs));
    Transfer(SequenceBytes(t), Sequences(t.inputs), IsU32, t.inputs, IsSequence);
  }

  ghost predicate IsU64(b: Bytes, v: U64) { IsLong(b, v) }

  lemma AmountsLayout(prevouts: seq<TxOut>)
    ensures IsMany(AmountBytes(prevouts), prevouts, IsAmount)
  {
    forall b: Bytes, v: U64 ensures IsU64(b, v) <==> b == WriteU64(v) { LongIff(b, v); }
    ManyIff(WriteU64, IsU64, (_: U64) => true, AmountBytes(prevouts), Amounts(prevouts));
    Transfer(AmountBytes(prevouts), Amounts(prevouts), IsU64, prevouts, IsAmount);
  }

  lemma ScriptsLayout(prevouts: seq<TxOut>)
    ensures IsMany(ScriptBytes(prevouts), prevouts, IsScript)
  {
    ItemFormats();
    ManyIff(WriteItem, IsItem, (_: Blob) => true, ScriptBytes(prevouts), Scripts(prevouts));
    Transfer(ScriptBytes(prevouts), Scripts(prevouts), IsItem, prevouts, IsScript);
  }

  lemma OutputsLayout(t: Transaction)
    ensures IsMany(OutputBytes(t), t.outputs, IsOutput)
  {
    OutputFormats();
    ManyIff(WriteOutput, IsOutput, (_: TxOut) => true, OutputBytes(t), t.outputs);
  }

  // ----- positions -----

  /** The strings whose hashes a message carries. */
  datatype Lists = Lists(sources: Bytes, amounts: Bytes, scripts: Bytes, sequences: Bytes, outputs: Bytes)

  ghost predicate AreLists(l: Lists, t: Transaction, prevouts: seq<TxOut>) {
    && IsMany(l.sources, t.inputs, IsOutpoint) && IsMany(l.amounts, prevouts, IsAmount)
    && IsMany(l.scripts, prevouts, IsScript) && IsMany(l.sequences, t.inputs, IsSequence)
    && IsMany(l.outputs, t.outputs, IsOutput)
  }

  /** The first 175 bytes of a message; `extension` is 0 on the key path and 2 on the script path. */
  ghost predicate IsCommon(env: Env, m: Bytes, t: Transaction, l: Lists, extension: Byte, index: nat) {
    && |m| >= 175 && m[0] == 0 && m[1] == 0 && IsVersion(m[2..6], t.version) && IsWord(m[6..10], t.lockTime)
    && m[10..42] == env.sha(l.sources) && m[42..74] == env.sha(l.amounts) && m[74..106] == env.sha(l.scripts)
    && m[106..138] == env.sha(l.sequences) && m[138..170] == env.sha(l.outputs)
    && m[170] == extension && IsWord(m[171..175], index)
  }

  lemma {:induction false} ConcatAt(fields: seq<Bytes>, k: nat)
    requires k < |fields|
    ensures var i := |Concat(fields[..k])|;
            && i + |fields[k]| <= |Concat(fields)| && Concat(fields)[i..i + |fields[k]|] == fields[k]
    ensures |Concat(fields[..k + 1])| == |Concat(fields[..k])| + |fields[k]|
    decreases |fields|
  {
    var front := fields[..|fields| - 1];
    assert fields[..k + 1][..k] == fields[..k];
    if k < |fields| - 1 {
      ConcatAt(front, k);
      assert front[..k] == fields[..k] && front[k] == fields[k];
      var i := |Concat(fields[..k])|;
      assert Concat(fields)[i..i + |fields[k]|] == Concat(front)[i..i + |fields[k]|];
    }
  }

  /** Where field `k` stands in a concatenation whose earlier fields fill `at` bytes. */
  lemma FieldAt(fields: seq<Bytes>, m: Bytes, k: nat, at: nat)
    requires k < |fields| && m == Concat(fields) && |Concat(fields[..k])| == at
    ensures at + |fields[k]| <= |m| && m[at..at + |fields[k]|] == fields[k]
    ensures |Concat(fields[..k + 1])| == at + |fields[k]|
  {
    ConcatAt(fields, k);
  }

  ghost function ListsOf(t: Transaction, prevouts: seq<TxOut>): Lists {
    Lists(SourceBytes(t), AmountBytes(prevouts), ScriptBytes(prevouts), SequenceBytes(t), OutputBytes(t))
  }

  lemma ListsLayout(t: Transaction, prevouts: seq<TxOut>)
    ensures AreLists(ListsOf(t, prevouts), t, prevouts)
  {
    SourcesLayout(t);
    AmountsLayout(prevouts);
    ScriptsLayout(prevouts);
    SequencesLayout(t);
    OutputsLayout(t);
  }

  /** The first four fields fill ten bytes. */
  lemma HeadAt(fields: seq<Bytes>, m: Bytes)
    requires |fields| >= 4 && m == Concat(fields)
    requires |fields[0]| == 1 && |fields[1]| == 1 && |fields[2]| == 4 && |fields[3]| == 4
    ensures |m| >= 10 && m[..1] == fields[0] && m[1..2] == fields[1] && m[2..6] == fields[2] && m[6..10] == fields[3]
    ensures |Concat(fields[..4])| == 10
  {
    assert fields[..0] == [];
    FieldAt(fields, m, 0, 0);
    FieldAt(fields, m, 1, 1);
    FieldAt(fields, m, 2, 2);
    FieldAt(fields, m, 3, 6);
  }

  /** Five hashes, the extension byte and the index follow. */
  lemma MiddleAt(fields: seq<Bytes>, m: Bytes)
    requires |fields| >= 11 && m == Concat(fields) && |Concat(fields[..4])| == 10
    requires forall k :: 4 <= k < 9 ==> |fields[k]| == 32
    requires |fields[9]| == 1 && |fields[10]| == 4
    ensures |m| >= 175 && |Concat(fields[..11])| == 175
    ensures m[10..42] == fields[4] && m[42..74] == fields[5] && m[74..106] == fields[6] && m[106..138] == fields[7]
    ensures m[138..170] == fields[8] && m[170..171] == fields[9] && m[171..175] == fields[10]
  {
    FieldAt(fields, m, 4, 10);
    FieldAt(fields, m, 5, 42);
    FieldAt(fields, m, 6, 74);
    FieldAt(fields, m, 7, 106);
    FieldAt(fields, m, 8, 138);
    FieldAt(fields, m, 9, 170);
    FieldAt(fields, m, 10, 171);
  }

  lemma CommonLayout(env: Env, t: Transaction, prevouts: seq<TxOut>, extension: Byte, index: U32, fields: seq<Bytes>,
                     m: Bytes)
    requires env.Valid() && |fields| >= 11 && fields[..11] == CommonFields(env, t, prevouts, extension, index)
    requires m == Concat(fields)
    ensures IsCommon(env, m, t, ListsOf(t, prevouts), extension, index) && |Concat(fields[..11])| == 175
  {
    var common := CommonFields(env, t, prevouts, extension, index);
    assert forall k :: 0 <= k < 11 ==> fields[k] == common[k];
    HeadAt(fields, m);
    MiddleAt(fields, m);
    VersionIff(m[2..6], t.version);
    WordIff(m[6..10], t.lockTime);
    WordIff(m[171..175], index);
    assert m[0] == m[..1][0] && m[1] == m[1..2][0] && m[170] == m[170..171][0];
  }

  // ----- the messages -----

  /** The key-path message, byte by byte. */
  lemma KeyMessageLayout(env: Env, t: Transaction, prevouts: seq<TxOut>, index: nat) returns (l: Lists)
    requires env.Valid() && KeyMessage(env, t, prevouts, index).Ok?
    ensures AreLists(l, t, prevouts)
    ensures var m := KeyMessage(env, t, prevouts, index).value; |m| == 175 && IsCommon(env, m, t, l, 0, index)
  {
    l := ListsOf(t, prevouts);
    ListsLayout(t, prevouts);
    var fields := CommonFields(env, t, prevouts, 0, index);
    assert fields[..11] == fields;
    CommonLayout(env, t, prevouts, 0, index, fields, Concat(fields));
  }

  /** What is hashed for a leaf: the tag twice, the leaf version and the length-prefixed script. */
  ghost predicate IsLeaf(env: Env, b: Bytes, script: Bytes) {
    && |b| >= 65 && b[..32] == env.sha(Ascii("TapLeaf")) && b[32..64] == env.sha(Ascii("TapLeaf")) && b[64] == 0xc0
    && IsString(b[65..], script)
  }

  ghost function Ascii(s: string): (b: Bytes)
    requires forall k :: 0 <= k < |s| ==> s[k] as nat < 128
    ensures |b| == |s| && forall k :: 0 <= k < |s| ==> b[k] == s[k] as nat
  {
    seq(|s|, k requires 0 <= k < |s| => s[k] as nat)
  }

  lemma LeafLayout(env: Env, script: Bytes)
    requires env.Valid() && |script| <= MAX_SCRIPT_BYTES
    ensures IsLeaf(env, LeafPreimage(env, script), script)
  {
    var tag, rest := env.sha(TapLeafTag()), VarBytes(script);
    var b := LeafPreimage(env, script);
    assert TapLeafTag() == Ascii("TapLeaf");
    assert b == tag + tag + ([0xc0] + rest);
    assert b[..32] == tag && b[32..64] == tag && b[65..] == rest;
    StringIff(rest, script);
  }

  /** The script-path message, byte by byte. */
  lemma ScriptMessageLayout(env: Env, s: Spend) returns (l: Lists, leaf: Bytes)
    requires env.Valid() && ScriptMessage(env, s).Ok?
    ensures AreLists(l, s.t, s.prevouts) && IsLeaf(env, leaf, s.script)
    ensures var m := ScriptMessage(env, s).value;
            && |m| == 212 && IsCommon(env, m, s.t, l, 2, s.index)
            && m[175..207] == env.sha(leaf) && m[207] == 0 && m[208..212] == [255, 255, 255, 255]
  {
    l, leaf := ListsOf(s.t, s.prevouts), LeafPreimage(env, s.script);
    ListsLayout(s.t, s.prevouts);
    LeafLayout(env, s.script);
    var fields := ScriptFields(env, s);
    var m := Concat(fields);
    assert fields[..11] == CommonFields(env, s.t, s.prevouts, 2, s.index);
    CommonLayout(env, s.t, s.prevouts, 2, s.index, fields, m);
    TailAt(env, fields, m);
  }

  lemma TailAt(env: Env, fields: seq<Bytes>, m: Bytes)
    requires |fields| == 14 && m == Concat(fields) && |Concat(fields[..11])| == 175
    requires |fields[11]| == 32 && fields[12] == [0] && fields[13] == LE(4, 0xffff_ffff)
    ensures |m| == 212 && m[175..207] == fields[11] && m[207] == 0 && m[208..212] == [255, 255, 255, 255]
  {
    FieldAt(fields, m, 11, 175);
    FieldAt(fields, m, 12, 207);
    FieldAt(fields, m, 13, 208);
    assert fields[..14] == fields;
    assert m[207] == m[207..208][0];
    WordIff([255, 255, 255, 255], 0xffff_ffff);
  }

  /** Both signature hashes: the tag twice, then the message. */
  lemma SighashLayout(env: Env, s: Spend, t: Transaction, prevouts: seq<TxOut>, index: nat)
    ensures ScriptSighash(env, s).Ok? <==> ScriptMessage(env, s).Ok?
    ensures KeySighash(env, t, prevouts, index).Ok? <==> KeyMessage(env, t, prevouts, index).Ok?
    ensures var tag := env.sha(Ascii("TapSighash"));
            && (ScriptMessage(env, s).Ok? ==>
                  ScriptSighash(env, s).value == env.sha(tag + tag + ScriptMessage(env, s).value))
            && (KeyMessage(env, t, prevouts, index).Ok? ==>
                  KeySighash(env, t, prevouts, index).value
                    == env.sha(tag + tag + KeyMessage(env, t, prevouts, index).value))
  {
    assert TapSighashTag() == Ascii("TapSighash");
  }

  // ----- when there is a message -----

  ghost predicate SpendFits(env: Env, t: Transaction, prevouts: seq<TxOut>, index: nat) {
    && 0 < |t.inputs| <= 4_096 && |prevouts| == |t.inputs| && 0 < |t.outputs| <= 4_096 && index < |t.inputs|
    && (forall k :: 0 <= k < |prevouts| ==> |prevouts[k].script| <= 10_000)
    && (forall k :: 0 <= k < |t.outputs| ==> |t.outputs[k].script| <= 10_000)
    && env.outputKey(prevouts[index].script)
  }

  /** A key-path message exists exactly within the bounds, for a Taproot output and without any script signature. */
  lemma KeyMessageIff(env: Env, t: Transaction, prevouts: seq<TxOut>, index: nat)
    ensures KeyMessage(env, t, prevouts, index).Ok? <==>
            SpendFits(env, t, prevouts, index) && forall k :: 0 <= k < |t.inputs| ==> t.inputs[k].scriptSig == []
  {
    FitsIff(env, t, prevouts, index);
    if KeyMessage(env, t, prevouts, index).Ok? {
      forall k | 0 <= k < |t.inputs| ensures t.inputs[k].scriptSig == [] { assert t.inputs[k] in t.inputs; }
    }
  }

  /** A script-path message exists exactly within the bounds, for a Taproot output that commits to the leaf, a control
      block of the leaf version with either parity, and no script signature on the input. */
  lemma ScriptMessageIff(env: Env, s: Spend)
    ensures ScriptMessage(env, s).Ok? <==>
            && SpendFits(env, s.t, s.prevouts, s.index) && s.t.inputs[s.index].scriptSig == []
            && (forall k :: 0 <= k < |s.t.inputs| ==> |s.t.inputs[k].scriptSig| <= 10_000)
            && s.control != [] && (s.control[0] == 0xc0 || s.control[0] == 0xc1)
            && |s.script| <= 10_000 && env.leaf(s.script)
            && env.commits(s.prevouts[s.index].script, s.script, s.control)
  {
    FitsIff(env, s.t, s.prevouts, s.index);
    if ScriptMessage(env, s).Ok? {
      forall k | 0 <= k < |s.t.inputs|
        ensures |s.t.inputs[k].scriptSig| <= 10_000
      {
        assert s.t.inputs[k] in s.t.inputs;
      }
    }
  }

  lemma FitsIff(env: Env, t: Transaction, prevouts: seq<TxOut>, index: nat)
    ensures ValidInputs(env, t, prevouts, index) && OutputsFit(t) <==>
            SpendFits(env, t, prevouts, index) && t.inputs[index].scriptSig == []
  {
    if ValidInputs(env, t, prevouts, index) && OutputsFit(t) {
      forall k | 0 <= k < |prevouts| ensures |prevouts[k].script| <= 10_000 { assert prevouts[k] in prevouts; }
      forall k | 0 <= k < |t.outputs| ensures |t.outputs[k].script| <= 10_000 { assert t.outputs[k] in t.outputs; }
    }
  }
}
