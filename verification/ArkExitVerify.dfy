/** The loops of the exit verifier, and what an accepted graph hands to it. */
module ArkExitVerify {
  import opened ByteStrings
  import opened ArkVerify
  import opened ArkExit
  import opened ArkExitLaws
  import opened ArkExitRules

  // ----- the unspent outputs of a graph -----

  function TxEntries(tx: Tx): (s: seq<Observed>)
    ensures |s| == |tx.outputs| && forall k :: 0 <= k < |s| ==> s[k] == Observed(Outpoint(tx.id, k), tx.outputs[k])
  {
    seq(|tx.outputs|, k requires 0 <= k < |tx.outputs| => Observed(Outpoint(tx.id, k), tx.outputs[k]))
  }

  /** Every output of every transaction, in order. */
  function Entries(txs: seq<Tx>): seq<Observed> {
    if txs == [] then [] else Entries(txs[..|txs| - 1]) + TxEntries(txs[|txs| - 1])
  }

  /** Observed outputs and transaction outputs, less everything the graph spends; refuses a repeated outpoint. */
  method GraphOutputMap(observed: seq<Observed>, txs: seq<Tx>) returns (r: Result<Unspent, ExitError>)
    ensures r.Ok? <==> DistinctObserved(observed + Entries(txs))
    ensures r.Ok? ==> r.value == ObservedMapOf(observed + Entries(txs)) - Elems(Inputs(txs))
  {
    var produced := ObservedOutputMap(observed + Entries(txs));
    if produced.Err? {
      return Err(ExitUnsafe);
    }
    var outputs := produced.value;
    assert outputs == produced.value - Elems(Inputs([]));
    for i := 0 to |txs|
      invariant outputs == produced.value - Elems(Inputs(txs[..i]))
    {
      var ins := txs[i].inputs;
      ghost var base := outputs;
      assert outputs == base - Elems(ins[..0]);
      for k := 0 to |ins|
        invariant outputs == base - Elems(ins[..k])
      {
        outputs := outputs - {ins[k]};
        PrefixSnoc(ins, k);
        ElemsAppend(ins[..k], [ins[k]]);
      }
      assert ins[..|ins|] == ins && txs[..i + 1][..i] == txs[..i];
      ElemsAppend(Inputs(txs[..i]), ins);
    }
    assert txs[..|txs|] == txs;
    return Ok(outputs);
  }

  lemma {:induction false} EntryOf(txs: seq<Tx>, e: Observed) returns (i: nat)
    requires e in Entries(txs)
    ensures i < |txs| && e.outpoint.txid == txs[i].id && e.outpoint.index < |txs[i].outputs| &&
            e.output == txs[i].outputs[e.outpoint.index]
  {
    var front := txs[..|txs| - 1];
    if e in Entries(front) {
      i := EntryOf(front, e);
    } else {
      i := |txs| - 1;
      var k :| 0 <= k < |TxEntries(txs[i])| && TxEntries(txs[i])[k] == e;
    }
  }

  lemma {:induction false} EntryIn(txs: seq<Tx>, i: nat, k: nat)
    requires i < |txs| && k < |txs[i].outputs|
    ensures Observed(Outpoint(txs[i].id, k), txs[i].outputs[k]) in Entries(txs)
  {
    if i == |txs| - 1 {
      assert TxEntries(txs[i])[k] == Observed(Outpoint(txs[i].id, k), txs[i].outputs[k]);
    } else {
      EntryIn(txs[..|txs| - 1], i, k);
    }
  }

  lemma DistinctAppend(a: seq<Observed>, b: seq<Observed>)
    requires DistinctObserved(a) && DistinctObserved(b)
    requires forall x, y :: x in a && y in b ==> x.outpoint != y.outpoint
    ensures DistinctObserved(a + b)
  {
    var s := a + b;
    forall i, j | 0 <= i < j < |s| ensures s[i].outpoint != s[j].outpoint {
      if i < |a| <= j { assert s[i] in a && s[j] in b; }
    }
  }

  lemma {:induction false} EntriesDistinct(txs: seq<Tx>)
    requires DistinctIds(txs)
    ensures DistinctObserved(Entries(txs))
  {
    if txs != [] {
      var front, last := txs[..|txs| - 1], txs[|txs| - 1];
      EntriesDistinct(front);
      forall x, y | x in Entries(front) && y in TxEntries(last) ensures x.outpoint != y.outpoint {
        var i := EntryOf(front, x);
      }
      DistinctAppend(Entries(front), TxEntries(last));
    }
  }

  /** The roots of an accepted graph lie outside it, so no outpoint is produced twice. */
  lemma AcceptedGraphIsDistinct(txs: seq<Tx>, observed: seq<Observed>, t: Terms)
    requires SpendDag(txs, observed, t)
    ensures DistinctObserved(observed + Entries(txs))
  {
    EntriesDistinct(txs);
    forall x, y | x in observed && y in Entries(txs) ensures x.outpoint != y.outpoint {
      var i := EntryOf(txs, y);
      ObservedKeys(observed, x.outpoint);
      assert x.outpoint in External(txs, Inputs(txs));
    }
    DistinctAppend(observed, Entries(txs));
  }

  /** For an accepted graph: nothing unspent was spent by it, every unspent output belongs to one of its
      transactions, and the selected output is unspent. */
  lemma UnspentOfAcceptedGraph(txs: seq<Tx>, observed: seq<Observed>, t: Terms, m: Unspent)
    requires SpendDag(txs, observed, t) && SelectedHolds(txs, t)
    requires m == ObservedMapOf(observed + Entries(txs)) - Elems(Inputs(txs))
    ensures forall o :: o in m ==> o !in Inputs(txs) && Find(txs, o.txid).Some?
    ensures t.selected in m
  {
    var all := observed + Entries(txs);
    forall o | o in m ensures Find(txs, o.txid).Some? {
      ObservedKeys(all, o);
      var k :| 0 <= k < |all| && all[k].outpoint == o;
      ObservedKeys(observed, o);
      assert o in RootsOf(t) ==> o in External(txs, Inputs(txs));
      assert k >= |observed|;
      var i := EntryOf(txs, all[k]);
    }
    var s := Find(txs, t.selected.txid).value;
    EntryIn(txs, s, t.selected.index);
    var e := Observed(t.selected, txs[s].outputs[t.selected.index]);
    assert e in all;
    ObservedKeys(all, t.selected);
  }

  lemma {:induction false} ObservedValue(s: seq<Observed>, e: Observed)
    requires DistinctObserved(s) && e in s
    ensures e.outpoint in ObservedMapOf(s) && ObservedMapOf(s)[e.outpoint] == e.output
  {
    if e != s[|s| - 1] { ObservedValue(s[..|s| - 1], e); }
  }

  /** An output that the graph does not spend is left unspent, with its value. */
  lemma UnspentValue(txs: seq<Tx>, observed: seq<Observed>, m: Unspent, i: nat, k: nat)
    requires DistinctObserved(observed + Entries(txs)) &&
             m == ObservedMapOf(observed + Entries(txs)) - Elems(Inputs(txs))
    requires i < |txs| && k < |txs[i].outputs| && Outpoint(txs[i].id, k) !in Inputs(txs)
    ensures Outpoint(txs[i].id, k) in m && m[Outpoint(txs[i].id, k)] == txs[i].outputs[k]
  {
    EntryIn(txs, i, k);
    var e := Observed(Outpoint(txs[i].id, k), txs[i].outputs[k]);
    assert e in observed + Entries(txs);
    ObservedValue(observed + Entries(txs), e);
  }

  lemma {:induction false} InputsIff(txs: seq<Tx>, o: Outpoint)
    ensures o in Inputs(txs) <==> exists i :: 0 <= i < |txs| && o in txs[i].inputs
  {
    if txs != [] {
      var n := |txs| - 1;
      InputsIff(txs[..n], o);
      if i :| 0 <= i < n && o in txs[..n][i].inputs { assert o in txs[i].inputs; }
      if i :| 0 <= i < |txs| && o in txs[i].inputs { assert i < n ==> o in txs[..n][i].inputs; }
    }
  }

  /** Output `o` is an output of transaction `i`. */
  ghost predicate IsOutputOf(txs: seq<Tx>, i: int, o: Outpoint) {
    0 <= i < |txs| && o.txid == txs[i].id && o.index < |txs[i].outputs|
  }

  /** Exactly the outputs of the graph that no transaction of it spends are left unspent, each as it was created. */
  lemma UnspentIff(txs: seq<Tx>, observed: seq<Observed>, t: Terms, m: Unspent, o: Outpoint)
    requires SpendDag(txs, observed, t) && m == ObservedMapOf(observed + Entries(txs)) - Elems(Inputs(txs))
    ensures o in m <==>
            (exists i :: IsOutputOf(txs, i, o)) && (forall i :: 0 <= i < |txs| ==> o !in txs[i].inputs)
    ensures forall i :: IsOutputOf(txs, i, o) && o in m ==> m[o] == txs[i].outputs[o.index]
  {
    InputsIff(txs, o);
    if o in m {
      var i := UnspentEntry(txs, observed, t, m, o);
    }
    forall i | IsOutputOf(txs, i, o) && o !in Inputs(txs) ensures o in m && m[o] == txs[i].outputs[o.index] {
      OutputLeft(txs, observed, t, m, o, i);
    }
  }

  lemma OutputLeft(txs: seq<Tx>, observed: seq<Observed>, t: Terms, m: Unspent, o: Outpoint, i: nat)
    requires SpendDag(txs, observed, t) && m == ObservedMapOf(observed + Entries(txs)) - Elems(Inputs(txs))
    requires IsOutputOf(txs, i, o) && o !in Inputs(txs)
    ensures o in m && m[o] == txs[i].outputs[o.index]
  {
    AcceptedGraphIsDistinct(txs, observed, t);
    UnspentValue(txs, observed, m, i, o.index);
  }

  lemma UnspentEntry(txs: seq<Tx>, observed: seq<Observed>, t: Terms, m: Unspent, o: Outpoint) returns (i: nat)
    requires SpendDag(txs, observed, t) && m == ObservedMapOf(observed + Entries(txs)) - Elems(Inputs(txs)) && o in m
    ensures IsOutputOf(txs, i, o) && o !in Inputs(txs)
  {
    var all := observed + Entries(txs);
    ObservedKeys(all, o);
    var j :| 0 <= j < |all| && all[j].outpoint == o;
    ObservedKeys(observed, o);
    assert o in RootsOf(t) ==> o in External(txs, Inputs(txs));
    assert j >= |observed|;
    i := EntryOf(txs, all[j]);
  }

  // ----- the exit loop -----

  lemma {:induction false} InputsFailEarly(p: Plan, previous: Option<Bytes>, tx: Tx, s: InputState, ins: seq<Outpoint>,
                                           k: nat)
    requires k <= |ins| && SpendMany(p, previous, tx, s, ins).Ok?
    ensures SpendMany(p, previous, tx, s, ins[..k]).Ok?
    decreases |ins|
  {
    if k == |ins| {
      assert ins[..k] == ins;
    } else {
      InputsFailEarly(p, previous, tx, s, ins[..|ins| - 1], k);
      assert ins[..|ins| - 1][..k] == ins[..k];
    }
  }

  method SpendExitInputs(p: Plan, previous: Option<Bytes>, tx: Tx, s: InputState)
    returns (r: Result<InputState, ExitError>)
    ensures r.Ok? <==> SpendMany(p, previous, tx, s, tx.inputs).Ok?
    ensures r.Ok? ==> r == SpendMany(p, previous, tx, s, tx.inputs)
  {
    var outputs, consumed, prevouts, spendsSelected, spendsParent :=
      s.outputs, s.consumed, s.prevouts, s.spendsSelected, s.spendsParent;
    var ins := tx.inputs;
    for k := 0 to |ins|
      invariant SpendMany(p, previous, tx, s, ins[..k])
                == Ok(InputState(outputs, consumed, prevouts, spendsSelected, spendsParent))
    {
      var o := ins[k];
      assert ins[..k + 1][..k] == ins[..k];
      if SpendMany(p, previous, tx, s, ins[..k + 1]).Err? && SpendMany(p, previous, tx, s, ins).Ok? {
        InputsFailEarly(p, previous, tx, s, ins, k + 1);
      }
      if o == p.selected {
        if !p.recoveryPath(tx) {
          return Err(ExitUnsafe);
        }
        spendsSelected := true;
      }
      var fromParent := previous == Some(o.txid);
      if fromParent {
        spendsParent := true;
      }
      if o != p.selected && o !in p.feeChildren && !fromParent {
        return Err(ExitUnsafe);
      }
      if o in p.feeChildren {
        if o in consumed {
          return Err(ExitUnsafe);
        }
        consumed := consumed + {o};
      }
      if o !in outputs {
        return Err(ExitUnsafe);
      }
      prevouts := prevouts + [outputs[o]];
      outputs := outputs - {o};
    }
    assert ins[..|ins|] == ins;
    return Ok(InputState(outputs, consumed, prevouts, spendsSelected, spendsParent));
  }

  method CreateOutputs(m: Unspent, tx: Tx) returns (outputs: Unspent)
    ensures outputs == InsertOutputs(m, tx, |tx.outputs|)
  {
    outputs := m;
    for k := 0 to |tx.outputs|
      invariant outputs == InsertOutputs(m, tx, k)
    {
      outputs := outputs[Outpoint(tx.id, k) := tx.outputs[k]];
    }
  }

  /** The fee of a transaction in checked 64-bit arithmetic. */
  method CheckedFee(prevouts: seq<Output>, outs: seq<Output>) returns (r: Result<nat, ExitError>)
    ensures r.Ok? <==> Sum(prevouts) < U64_LIMIT && Sum(outs) < U64_LIMIT && Sum(outs) <= Sum(prevouts)
    ensures r.Ok? ==> Sum(prevouts) == Sum(outs) + r.value
  {
    var inputValue := CheckedSum(prevouts);
    var outputValue := CheckedSum(outs);
    if inputValue.None? || outputValue.None? || inputValue.value < outputValue.value {
      return Err(ExitUnsafe);
    }
    return Ok(inputValue.value - outputValue.value);
  }

  method SettleExit(p: Plan, st: ExitState, i: nat, s: InputState) returns (r: Result<ExitState, ExitError>)
    requires i < |p.exits|
    ensures r.Ok? <==> Settle(p, st, i, s).Ok?
    ensures r.Ok? ==> r == Settle(p, st, i, s)
  {
    var e := p.exits[i];
    if (i == 0 && !s.spendsSelected) || !s.spendsParent || !p.signed(e.tx, s.prevouts) {
      return Err(ExitUnsafe);
    }
    var paid :- CheckedFee(s.prevouts, e.tx.outputs);
    var fee := st.totalFee + paid;
    if fee >= U64_LIMIT || fee > p.maximumFee {
      return Err(ExitUnsafe);
    }
    var outputs := CreateOutputs(s.outputs, e.tx);
    if i + 1 == |p.exits| && CountScript(e.tx.outputs, p.finalScript) != 1 {
      return Err(ExitUnsafe);
    }
    return Ok(ExitState(outputs, s.consumed, fee, st.bytes + e.size, Some(e.declaredId),
                        st.summaries + [SummaryOf(e)]));
  }

  method ExitStep(p: Plan, st: ExitState, i: nat) returns (r: Result<ExitState, ExitError>)
    requires i < |p.exits|
    ensures r.Ok? <==> Step(p, st, i).Ok?
    ensures r.Ok? ==> r == Step(p, st, i)
  {
    var e := p.exits[i];
    if !Admits(p, st, e) {
      return Err(ExitUnsafe);
    }
    var s :- SpendExitInputs(p, st.previous, e.tx, StartInputs(st, i));
    r := SettleExit(p, st, i, s);
  }

  /** The verifier accepts exactly the plans that have a lawful run, and returns their summaries: one chain in broadcast
      order, every window nonempty.  An accepted plan pays its destination once, in its last exit. */
  method VerifyExitTransactions(p: Plan, m: Unspent) returns (r: Result<seq<Summary>, ExitError>)
    ensures r.Ok? <==> Accepts(p, m)
    ensures r.Ok? <==> exists states :: LawfulRun(p, m, states)
    ensures r.Ok? ==> PaysOnce(p.exits[|p.exits| - 1].tx.outputs, p.finalScript) && SizeUpTo(p, |p.exits|) <= 262_144
    ensures r.Ok? ==> |r.value| == |p.exits| && IsSequence(r.value)
    ensures r.Ok? ==> forall k :: 0 <= k < |p.exits| ==>
            r.value[k].id == p.exits[k].tx.id && r.value[k].digest == p.exits[k].digest
  {
    AcceptsIff(p, m);
    if !InBounds(p) {
      return Err(ExitUnsafe);
    }
    var st :- RunExits(p, m);
    if st.consumed != Elems(p.feeChildren) {
      return Err(ExitUnsafe);
    }
    ghost var states := TraceOf(p, m);
    SummariesOf(p, m, states, |p.exits|);
    ghost var run := AcceptedGuarantees(p, m);
    return Ok(st.summaries);
  }

  method RunExits(p: Plan, m: Unspent) returns (r: Result<ExitState, ExitError>)
    ensures r.Ok? <==> After(p, Start(m), |p.exits|).Ok?
    ensures r.Ok? ==> r == After(p, Start(m), |p.exits|)
  {
    var st := Start(m);
    for i := 0 to |p.exits|
      invariant After(p, Start(m), i) == Ok(st)
    {
      var next := ExitStep(p, st, i);
      RunNext(p, Start(m), i, st, next);
      if next.Err? {
        return next;
      }
      st := next.value;
    }
    return Ok(st);
  }

  lemma AfterNext(p: Plan, st: ExitState, i: nat, s: ExitState)
    requires i < |p.exits| && After(p, st, i) == Ok(s)
    ensures After(p, st, i + 1) == Step(p, s, i)
  {
  }

  /** A step taken is the next state of the run; a step refused refuses the run. */
  lemma RunNext(p: Plan, st: ExitState, i: nat, s: ExitState, next: Result<ExitState, ExitError>)
    requires i < |p.exits| && After(p, st, i) == Ok(s)
    requires (next.Ok? <==> Step(p, s, i).Ok?) && (next.Ok? ==> next == Step(p, s, i))
    ensures next.Ok? ==> After(p, st, i + 1) == next
    ensures next.Err? ==> After(p, st, |p.exits|).Err?
  {
    AfterNext(p, st, i, s);
    if next.Err? { RefusedNext(p, st, i + 1, |p.exits|); }
  }

  lemma RefusedOnce(p: Plan, st: ExitState, i: nat)
    requires i < |p.exits| && After(p, st, i).Err?
    ensures After(p, st, i + 1) == After(p, st, i)
  {
  }

  /** Once a run has failed it stays failed. */
  lemma {:induction false} ErrorStays<T, E>(run: nat -> Result<T, E>, i: nat, j: nat)
    requires i <= j && run(i).Err? && forall k: nat :: i <= k < j && run(k).Err? ==> run(k + 1) == run(k)
    ensures run(j) == run(i)
    decreases j
  {
    if i < j {
      ErrorStays(run, i, j - 1);
      assert run(j - 1 + 1) == run(j);
    }
  }

  lemma RefusedNext(p: Plan, st: ExitState, i: nat, j: nat)
    requires i <= j <= |p.exits| && After(p, st, i).Err?
    ensures After(p, st, j) == After(p, st, i)
  {
    var run := (k: nat) => if k <= |p.exits| then After(p, st, k) else Err(ExitUnsafe);
    forall k: nat | i <= k < j && run(k).Err? ensures run(k + 1) == run(k) { RefusedOnce(p, st, k); }
    ErrorStays(run, i, j);
  }
}
