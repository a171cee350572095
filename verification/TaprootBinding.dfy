/** Binding: equal signature messages or hashes mean equal spends, or two named strings with one hash. */
module TaprootBinding {
  import opened ByteStrings
  import opened Transactions
  import opened Taproot

  /** Two different strings with the same hash. */
  ghost predicate Collide(env: Env, p: Bytes, q: Bytes) { p != q && env.sha(p) == env.sha(q) }

  /** Everything both messages commit to, witnesses and scriptSigs aside. */
  ghost predicate SameTransaction(a: Transaction, ap: seq<TxOut>, b: Transaction, bp: seq<TxOut>) {
    && a.version == b.version && a.lockTime == b.lockTime && a.outputs == b.outputs && ap == bp
    && Sources(a.inputs) == Sources(b.inputs) && Sequences(a.inputs) == Sequences(b.inputs)
  }

  /** One of the five serialised lists of the two transactions is a collision. */
  ghost predicate ListsCollide(env: Env, a: Transaction, ap: seq<TxOut>, b: Transaction, bp: seq<TxOut>) {
    || Collide(env, SourceBytes(a), SourceBytes(b)) || Collide(env, AmountBytes(ap), AmountBytes(bp))
    || Collide(env, ScriptBytes(ap), ScriptBytes(bp)) || Collide(env, SequenceBytes(a), SequenceBytes(b))
    || Collide(env, OutputBytes(a), OutputBytes(b))
  }

  lemma CommonWidths(env: Env, a: Transaction, ap: seq<TxOut>, x: Byte, i: nat, b: Transaction, bp: seq<TxOut>, y: Byte,
                     j: nat)
    requires env.Valid()
    ensures SameWidths(CommonFields(env, a, ap, x, i), CommonFields(env, b, bp, y, j))
  {
    var f, g := CommonFields(env, a, ap, x, i), CommonFields(env, b, bp, y, j);
    assert |f[2]| == |g[2]| == 4 && |f[3]| == |g[3]| == 4 && |f[10]| == |g[10]| == 4;
    assert |f[4]| == |g[4]| && |f[5]| == |g[5]| && |f[6]| == |g[6]| && |f[7]| == |g[7]| && |f[8]| == |g[8]|;
  }

  lemma WordInjective(x: nat, y: nat)
    requires x < 0x1_0000_0000 && y < 0x1_0000_0000 && LE(4, x) == LE(4, y)
    ensures x == y
  {
    Pow256Values();
    LERoundTrip(4, x);
    LERoundTrip(4, y);
  }

  /** Equal shared fields: the transactions agree, or one of the hashed lists collides. */
  lemma FieldsBind(env: Env, a: Transaction, ap: seq<TxOut>, x: Byte, i: nat, b: Transaction, bp: seq<TxOut>, y: Byte,
                   j: nat)
    requires CommonFields(env, a, ap, x, i) == CommonFields(env, b, bp, y, j) && OutputsFit(a) && OutputsFit(b)
    requires (forall p :: p in ap ==> |p.script| <= MAX_SCRIPT_BYTES) &&
             (forall p :: p in bp ==> |p.script| <= MAX_SCRIPT_BYTES)
    requires i < 0x1_0000_0000 && j < 0x1_0000_0000
    ensures x == y && i == j
    ensures SameTransaction(a, ap, b, bp) || ListsCollide(env, a, ap, b, bp)
  {
    var f, g := CommonFields(env, a, ap, x, i), CommonFields(env, b, bp, y, j);
    assert f[2] == g[2] && f[3] == g[3] && f[9] == g[9] && f[10] == g[10];
    WordInjective(ToWord(a.version), ToWord(b.version));
    WordInjective(a.lockTime, b.lockTime);
    WordInjective(i, j);
    assert f[4] == g[4] && f[5] == g[5] && f[6] == g[6] && f[7] == g[7] && f[8] == g[8];
    if !ListsCollide(env, a, ap, b, bp) {
      SourcesBound(a, b);
      SequencesBound(a, b);
      AmountsBound(ap, bp);
      ScriptsBound(ap, bp);
      PrevoutsBound(ap, bp);
      OutputsBound(a, b);
    }
  }

  /** Two allowed script-path spends agree on everything they sign, leaf script included. */
  ghost predicate SameSpend(a: Spend, b: Spend) {
    SameTransaction(a.t, a.prevouts, b.t, b.prevouts) && a.index == b.index && a.script == b.script
  }

  ghost predicate SpendsCollide(env: Env, a: Spend, b: Spend)
    requires |a.script| <= MAX_SCRIPT_BYTES && |b.script| <= MAX_SCRIPT_BYTES
  {
    ListsCollide(env, a.t, a.prevouts, b.t, b.prevouts) ||
      Collide(env, LeafPreimage(env, a.script), LeafPreimage(env, b.script))
  }

  lemma ScriptWidths(env: Env, a: Spend, b: Spend)
    requires env.Valid() && |a.script| <= MAX_SCRIPT_BYTES && |b.script| <= MAX_SCRIPT_BYTES
    ensures SameWidths(ScriptFields(env, a), ScriptFields(env, b))
  {
    CommonWidths(env, a.t, a.prevouts, 2, a.index, b.t, b.prevouts, 2, b.index);
    var f, g := CommonFields(env, a.t, a.prevouts, 2, a.index), CommonFields(env, b.t, b.prevouts, 2, b.index);
    WidthsAppend(f, g, ScriptFields(env, a)[11..], ScriptFields(env, b)[11..]);
    assert ScriptFields(env, a) == f + ScriptFields(env, a)[11..] &&
           ScriptFields(env, b) == g + ScriptFields(env, b)[11..];
  }

  lemma WidthsAppend(f: seq<Bytes>, g: seq<Bytes>, x: seq<Bytes>, y: seq<Bytes>)
    requires SameWidths(f, g) && |x| == |y| == 3 && |x[0]| == |y[0]| && |x[1]| == |y[1]| && |x[2]| == |y[2]|
    ensures SameWidths(f + x, g + y)
  {
  }

  /** Equal script-path messages bind the whole spend, or name a collision between its serialised parts. */
  lemma ScriptMessageBinds(env: Env, a: Spend, b: Spend)
    requires env.Valid() && ScriptMessage(env, a).Ok? && ScriptMessage(env, a) == ScriptMessage(env, b)
    ensures SameSpend(a, b) || SpendsCollide(env, a, b)
  {
    ScriptWidths(env, a, b);
    ConcatInjective(ScriptFields(env, a), ScriptFields(env, b));
    var f, g := ScriptFields(env, a), ScriptFields(env, b);
    assert f[..11] == CommonFields(env, a.t, a.prevouts, 2, a.index) &&
           g[..11] == CommonFields(env, b.t, b.prevouts, 2, b.index);
    FieldsBind(env, a.t, a.prevouts, 2, a.index, b.t, b.prevouts, 2, b.index);
    assert f[11] == g[11];
    if LeafPreimage(env, a.script) == LeafPreimage(env, b.script) { LeafBound(env, a.script, b.script); }
  }

  /** The same for key-path messages. */
  lemma KeyMessageBinds(env: Env, a: Transaction, ap: seq<TxOut>, i: nat, b: Transaction, bp: seq<TxOut>, j: nat)
    requires env.Valid() && KeyMessage(env, a, ap, i).Ok? && KeyMessage(env, a, ap, i) == KeyMessage(env, b, bp, j)
    ensures (SameTransaction(a, ap, b, bp) && i == j) || ListsCollide(env, a, ap, b, bp)
  {
    CommonWidths(env, a, ap, 0, i, b, bp, 0, j);
    ConcatInjective(CommonFields(env, a, ap, 0, i), CommonFields(env, b, bp, 0, j));
    FieldsBind(env, a, ap, 0, i, b, bp, 0, j);
  }

  /** A key-path message has 175 bytes and a script-path message 212, so they never coincide. */
  lemma MessageLengths(env: Env, t: Transaction, prevouts: seq<TxOut>, index: nat, s: Spend)
    requires env.Valid()
    ensures KeyMessage(env, t, prevouts, index).Ok? ==> |KeyMessage(env, t, prevouts, index).value| == 175
    ensures ScriptMessage(env, s).Ok? ==> |ScriptMessage(env, s).value| == 212
  {
    if KeyMessage(env, t, prevouts, index).Ok? {
      CommonLength(env, t, prevouts, 0, index);
    }
    if ScriptMessage(env, s).Ok? {
      CommonLength(env, s.t, s.prevouts, 2, s.index);
      var f := CommonFields(env, s.t, s.prevouts, 2, s.index);
      ConcatThree(f, env.sha(LeafPreimage(env, s.script)), [0], LE(4, TAPROOT_NO_CODE_SEPARATOR));
    }
  }

  lemma ConcatSnoc(f: seq<Bytes>, x: Bytes)
    ensures Concat(f + [x]) == Concat(f) + x
  {
    assert (f + [x])[..|f|] == f;
  }

  lemma ConcatThree(f: seq<Bytes>, x: Bytes, y: Bytes, z: Bytes)
    ensures |Concat(f + [x, y, z])| == |Concat(f)| + |x| + |y| + |z|
  {
    ConcatSnoc(f, x);
    ConcatSnoc(f + [x], y);
    ConcatSnoc(f + [x] + [y], z);
    assert f + [x, y, z] == f + [x] + [y] + [z];
  }

  lemma CommonLength(env: Env, t: Transaction, prevouts: seq<TxOut>, x: Byte, index: nat)
    requires env.Valid()
    ensures |Concat(CommonFields(env, t, prevouts, x, index))| == 175
  {
    var f := CommonFields(env, t, prevouts, x, index);
    ConcatThree([], f[0], f[1], f[2]);
    ConcatThree([f[0], f[1], f[2]], f[3], f[4], f[5]);
    ConcatThree([f[0], f[1], f[2], f[3], f[4], f[5]], f[6], f[7], f[8]);
    ConcatSnoc(f[..9], f[9]);
    ConcatSnoc(f[..10], f[10]);
    assert [] + [f[0], f[1], f[2]] == [f[0], f[1], f[2]];
    assert [f[0], f[1], f[2]] + [f[3], f[4], f[5]] == [f[0], f[1], f[2], f[3], f[4], f[5]];
    assert [f[0], f[1], f[2], f[3], f[4], f[5]] + [f[6], f[7], f[8]] == f[..9];
    assert f[..9] + [f[9]] == f[..10] && f[..10] + [f[10]] == f;
  }

  // ----- signature hashes -----

  lemma TaggedBinds(env: Env, tag: Bytes, m: Bytes, m': Bytes)
    requires Tagged(env, tag, m) == Tagged(env, tag, m')
    ensures m == m' || Collide(env, TaggedPreimage(env, tag, m), TaggedPreimage(env, tag, m'))
  {
    var prefix := env.sha(tag) + env.sha(tag);
    assert m == (prefix + m)[|prefix|..] && m' == (prefix + m')[|prefix|..];
  }

  /** Equal script-path signature hashes bind the spend, or name a collision. */
  lemma ScriptSighashBinds(env: Env, a: Spend, b: Spend)
    requires env.Valid() && ScriptSighash(env, a).Ok? && ScriptSighash(env, a) == ScriptSighash(env, b)
    ensures SameSpend(a, b) || SpendsCollide(env, a, b) ||
            Collide(env, TaggedPreimage(env, TapSighashTag(), ScriptMessage(env, a).value),
                    TaggedPreimage(env, TapSighashTag(), ScriptMessage(env, b).value))
  {
    TaggedBinds(env, TapSighashTag(), ScriptMessage(env, a).value, ScriptMessage(env, b).value);
    if ScriptMessage(env, a).value == ScriptMessage(env, b).value { ScriptMessageBinds(env, a, b); }
  }

  /** The same for key-path signature hashes. */
  lemma KeySighashBinds(env: Env, a: Transaction, ap: seq<TxOut>, i: nat, b: Transaction, bp: seq<TxOut>, j: nat)
    requires env.Valid() && KeySighash(env, a, ap, i).Ok? && KeySighash(env, a, ap, i) == KeySighash(env, b, bp, j)
    ensures (SameTransaction(a, ap, b, bp) && i == j) || ListsCollide(env, a, ap, b, bp) ||
            Collide(env, TaggedPreimage(env, TapSighashTag(), KeyMessage(env, a, ap, i).value),
                    TaggedPreimage(env, TapSighashTag(), KeyMessage(env, b, bp, j).value))
  {
    TaggedBinds(env, TapSighashTag(), KeyMessage(env, a, ap, i).value, KeyMessage(env, b, bp, j).value);
    if KeyMessage(env, a, ap, i).value == KeyMessage(env, b, bp, j).value { KeyMessageBinds(env, a, ap, i, b, bp, j); }
  }

  /** A signature for one spending path can only serve the other through a collision of the two messages. */
  lemma PathsNeverCoincide(env: Env, s: Spend, t: Transaction, prevouts: seq<TxOut>, index: nat)
    requires env.Valid() && ScriptSighash(env, s).Ok? && ScriptSighash(env, s) == KeySighash(env, t, prevouts, index)
    ensures Collide(env, TaggedPreimage(env, TapSighashTag(), ScriptMessage(env, s).value),
                    TaggedPreimage(env, TapSighashTag(), KeyMessage(env, t, prevouts, index).value))
  {
    MessageLengths(env, t, prevouts, index, s);
    TaggedBinds(env, TapSighashTag(), ScriptMessage(env, s).value, KeyMessage(env, t, prevouts, index).value);
  }
}
