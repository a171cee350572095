/** Laws of accepted exit sequences: conservation, no double spend, and the summaries they leave behind.
    The laws are proved for traces, which record only the effect of each accepted step. */
module ArkExitLaws {
  import opened ByteStrings
  import opened ArkVerify
  import opened ArkExit

  /** What is left of `m` once the inputs of `tx` are spent. */
  ghost function Left(m: Unspent, tx: Tx): Unspent { m - Elems(tx.inputs) }

  /** The effect of one accepted exit. */
  ghost predicate Effect(p: Plan, i: nat, s: ExitState, t: ExitState)
    requires i < |p.exits|
  {
    var tx, e := p.exits[i].tx, p.exits[i];
    && NoDup(tx.inputs) && (forall o :: o in tx.inputs ==> o in s.outputs)
    && (forall o :: o in tx.inputs ==> o == p.selected || o in p.feeChildren || s.previous == Some(o.txid))
    && t.outputs == InsertOutputs(Left(s.outputs, tx), tx, |tx.outputs|)
    && t.consumed == s.consumed + (set o | o in tx.inputs && o in p.feeChildren)
    && (forall o :: o in tx.inputs && o in p.feeChildren ==> o !in s.consumed)
    && (if i == 0 then p.selected in tx.inputs else exists o :: o in tx.inputs && s.previous == Some(o.txid))
    && Total(s.outputs) + s.totalFee == Total(Left(s.outputs, tx)) + t.totalFee + Sum(tx.outputs)
    && s.totalFee <= t.totalFee <= p.maximumFee
    && tx.id == e.declaredId && e.parent == s.previous && HasWindow(p, e)
    && t.previous == Some(tx.id)
    && t.summaries == s.summaries + [SummaryOf(e)]
  }

  lemma StepEffect(p: Plan, i: nat, s: ExitState)
    requires i < |p.exits| && Step(p, s, i).Ok?
    ensures Effect(p, i, s, Step(p, s, i).value)
  {
    var tx := p.exits[i].tx;
    SpendManyEffect(p, s.previous, tx, StartInputs(s, i), tx.inputs);
  }

  /** The states of an accepted plan. */
  ghost predicate IsTrace(p: Plan, m: Unspent, states: seq<ExitState>) {
    && |states| == |p.exits| + 1 && states[0] == Start(m)
    && forall i :: 0 <= i < |p.exits| ==> Effect(p, i, states[i], states[i + 1])
  }

  lemma {:induction false} TracePrefix(p: Plan, m: Unspent, i: nat) returns (states: seq<ExitState>)
    requires i <= |p.exits| && After(p, Start(m), i).Ok?
    ensures |states| == i + 1 && states[0] == Start(m) && states[i] == After(p, Start(m), i).value
    ensures forall j :: 0 <= j < i ==> Effect(p, j, states[j], states[j + 1])
  {
    if i == 0 {
      states := [Start(m)];
    } else {
      AfterStep(p, Start(m), i - 1);
      var front := TracePrefix(p, m, i - 1);
      StepEffect(p, i - 1, front[i - 1]);
      states := TraceSnoc(p, front, i - 1, After(p, Start(m), i).value);
    }
  }

  lemma TraceSnoc(p: Plan, front: seq<ExitState>, i: nat, t: ExitState) returns (states: seq<ExitState>)
    requires i < |p.exits| && |front| == i + 1 && Effect(p, i, front[i], t)
    requires forall j :: 0 <= j < i ==> Effect(p, j, front[j], front[j + 1])
    ensures |states| == i + 2 && states[0] == front[0] && states[i + 1] == t
    ensures forall j :: 0 <= j <= i ==> Effect(p, j, states[j], states[j + 1])
  {
    states := front + [t];
    forall j | 0 <= j <= i ensures Effect(p, j, states[j], states[j + 1]) {
      if j < i { assert states[j + 1] == front[j + 1]; }
    }
  }

  lemma TraceOf(p: Plan, m: Unspent) returns (states: seq<ExitState>)
    requires After(p, Start(m), |p.exits|).Ok?
    ensures IsTrace(p, m, states) && states[|p.exits|] == After(p, Start(m), |p.exits|).value
  {
    states := TracePrefix(p, m, |p.exits|);
  }

  lemma AfterStep(p: Plan, st: ExitState, i: nat)
    requires i < |p.exits| && After(p, st, i + 1).Ok?
    ensures After(p, st, i).Ok? && Step(p, After(p, st, i).value, i) == After(p, st, i + 1)
  {
  }

  // ----- conservation -----

  /** The value the first `i` exits overwrite in the output map. */
  ghost function Loss(p: Plan, states: seq<ExitState>, i: nat): nat
    requires i <= |p.exits| < |states|
  {
    if i == 0 then 0
    else var tx := p.exits[i - 1].tx;
         Loss(p, states, i - 1) + Overwritten(Left(states[i - 1].outputs, tx), tx, |tx.outputs|)
  }

  /** Exact accounting after every accepted exit: what was unspent is unspent, paid as fee, or overwritten. */
  lemma {:induction false} ConservationExact(p: Plan, m: Unspent, states: seq<ExitState>, i: nat)
    requires IsTrace(p, m, states) && i <= |p.exits|
    ensures Total(m) == Total(states[i].outputs) + states[i].totalFee + Loss(p, states, i)
    ensures i > 0 ==> states[i].totalFee <= p.maximumFee
  {
    if i > 0 {
      ConservationExact(p, m, states, i - 1);
      assert Effect(p, i - 1, states[i - 1], states[i - 1 + 1]);
      var tx := p.exits[i - 1].tx;
      InsertTotal(Left(states[i - 1].outputs, tx), tx, |tx.outputs|);
      assert tx.outputs[..|tx.outputs|] == tx.outputs;
    }
  }

  /** Exit identifiers are new: pairwise distinct and absent from the initial outputs. */
  ghost predicate Fresh(p: Plan, m: Unspent) {
    && (forall i, j :: 0 <= i < j < |p.exits| ==> p.exits[i].tx.id != p.exits[j].tx.id)
    && (forall o, i :: o in m && 0 <= i < |p.exits| ==> o.txid != p.exits[i].tx.id)
  }

  /** An outpoint of the start or of one of the first `i` exits. */
  ghost predicate Origin(p: Plan, m: Unspent, i: nat, o: Outpoint)
    requires i <= |p.exits|
  {
    o in m || exists j :: 0 <= j < i && Creates(p.exits[j].tx, o)
  }

  lemma OriginIsNotNext(p: Plan, m: Unspent, i: nat, o: Outpoint)
    requires Fresh(p, m) && i < |p.exits| && Origin(p, m, i, o)
    ensures o.txid != p.exits[i].tx.id
  {
  }

  lemma EffectKeys(p: Plan, i: nat, s: ExitState, t: ExitState, o: Outpoint)
    requires i < |p.exits| && Effect(p, i, s, t)
    ensures o in t.outputs <==> (o in s.outputs && o !in p.exits[i].tx.inputs) || Creates(p.exits[i].tx, o)
  {
    var tx := p.exits[i].tx;
    InsertedKeys(Left(s.outputs, tx), tx, |tx.outputs|, o);
  }

  /** Unspent outputs come from the start or from an exit already made. */
  lemma {:induction false} OriginHolds(p: Plan, m: Unspent, states: seq<ExitState>, i: nat, o: Outpoint)
    requires IsTrace(p, m, states) && i <= |p.exits| && o in states[i].outputs
    ensures Origin(p, m, i, o)
  {
    if i > 0 {
      EffectKeys(p, i - 1, states[i - 1], states[i - 1 + 1], o);
      if o in states[i - 1].outputs {
        OriginHolds(p, m, states, i - 1, o);
      }
    }
  }

  lemma {:induction false} NothingOverwritten(m: Unspent, tx: Tx, k: nat)
    requires k <= |tx.outputs| && forall o :: o in m ==> o.txid != tx.id
    ensures Overwritten(m, tx, k) == 0
  {
    if k > 0 { NothingOverwritten(m, tx, k - 1); }
  }

  lemma {:induction false} FreshLosesNothing(p: Plan, m: Unspent, states: seq<ExitState>, i: nat)
    requires IsTrace(p, m, states) && i <= |p.exits| && Fresh(p, m)
    ensures Loss(p, states, i) == 0
  {
    if i > 0 {
      FreshLosesNothing(p, m, states, i - 1);
      var tx := p.exits[i - 1].tx;
      var left := Left(states[i - 1].outputs, tx);
      forall o | o in left ensures o.txid != tx.id {
        OriginHolds(p, m, states, i - 1, o);
        OriginIsNotNext(p, m, i - 1, o);
      }
      NothingOverwritten(left, tx, |tx.outputs|);
    }
  }

  /** No exit overwrites an unspent output of positive value. */
  ghost predicate OverwritesNothing(p: Plan, states: seq<ExitState>, n: nat)
    requires n <= |p.exits| < |states|
  {
    forall i, k :: 0 <= i < n && 0 <= k < |p.exits[i].tx.outputs| ==>
      Untouched(Left(states[i].outputs, p.exits[i].tx), p.exits[i].tx, k)
  }

  ghost predicate Untouched(m: Unspent, tx: Tx, k: nat) { Outpoint(tx.id, k) in m ==> m[Outpoint(tx.id, k)].value == 0 }

  lemma {:induction false} OverwrittenZero(m: Unspent, tx: Tx, n: nat)
    requires n <= |tx.outputs|
    ensures Overwritten(m, tx, n) == 0 <==> forall k :: 0 <= k < n ==> Untouched(m, tx, k)
  {
    if n > 0 {
      OverwrittenZero(m, tx, n - 1);
      if Untouched(m, tx, n - 1) {}
    }
  }

  lemma {:induction false} LossZero(p: Plan, states: seq<ExitState>, n: nat)
    requires n <= |p.exits| < |states|
    ensures Loss(p, states, n) == 0 <==> OverwritesNothing(p, states, n)
  {
    if n > 0 {
      LossZero(p, states, n - 1);
      var tx := p.exits[n - 1].tx;
      OverwrittenZero(Left(states[n - 1].outputs, tx), tx, |tx.outputs|);
    }
  }

  /** Value is conserved exactly when no exit overwrites an unspent output of positive value. */
  lemma ConservedIff(p: Plan, m: Unspent, states: seq<ExitState>)
    requires IsTrace(p, m, states)
    ensures Total(m) == Total(states[|p.exits|].outputs) + states[|p.exits|].totalFee <==>
            OverwritesNothing(p, states, |p.exits|)
  {
    ConservationExact(p, m, states, |p.exits|);
    LossZero(p, states, |p.exits|);
  }

  /** With fresh identifiers every accepted plan conserves value, and its fee stays within the committed maximum. */
  lemma Conservation(p: Plan, m: Unspent)
    requires Accepts(p, m) && Fresh(p, m)
    ensures var t := After(p, Start(m), |p.exits|).value;
            Total(m) == Total(t.outputs) + t.totalFee && t.totalFee <= p.maximumFee
  {
    var states := TraceOf(p, m);
    ConservationExact(p, m, states, |p.exits|);
    FreshLosesNothing(p, m, states, |p.exits|);
  }

  // ----- every outpoint at most once -----

  ghost function ExitInputs(p: Plan, i: nat): seq<Outpoint>
    requires i <= |p.exits|
  {
    if i == 0 then [] else ExitInputs(p, i - 1) + p.exits[i - 1].tx.inputs
  }

  lemma NoDupAppend<T>(a: seq<T>, b: seq<T>)
    requires NoDup(a) && NoDup(b) && forall x :: x in a ==> x !in b
    ensures NoDup(a + b)
  {
    var s := a + b;
    forall i, j | 0 <= i < j < |s| ensures s[i] != s[j] {
      if i < |a| <= j { assert s[i] in a && s[j] in b; }
    }
  }

  /** `gone` lists outpoints spent before the exits; no exit creates one of them. */
  ghost predicate GoneFor(p: Plan, m: Unspent, gone: seq<Outpoint>) {
    && NoDup(gone) && (forall o :: o in gone ==> o !in m)
    && (forall o, i :: o in gone && 0 <= i < |p.exits| ==> !Creates(p.exits[i].tx, o))
  }

  /** An outpoint spent before or during exit `i` is not unspent after it, unless the exit creates it. */
  lemma SpentStaysSpent(p: Plan, m: Unspent, states: seq<ExitState>, i: nat, o: Outpoint)
    requires IsTrace(p, m, states) && i < |p.exits| && !Creates(p.exits[i].tx, o)
    requires o !in states[i].outputs || o in p.exits[i].tx.inputs
    ensures o !in states[i + 1].outputs
  {
    EffectKeys(p, i, states[i], states[i + 1], o);
  }

  /** The spent list never repeats, and nothing on it is ever unspent again. */
  lemma {:induction false} SpentOnce(p: Plan, m: Unspent, states: seq<ExitState>, gone: seq<Outpoint>, i: nat)
    requires IsTrace(p, m, states) && i <= |p.exits| && Fresh(p, m) && GoneFor(p, m, gone)
    ensures NoDup(gone + ExitInputs(p, i))
    ensures forall o :: o in gone + ExitInputs(p, i) ==> o !in states[i].outputs
    ensures forall o :: o in ExitInputs(p, i) ==> Origin(p, m, i, o)
  {
    if i == 0 {
      assert gone + [] == gone;
    } else {
      SpentOnce(p, m, states, gone, i - 1);
      var tx := p.exits[i - 1].tx;
      var before := gone + ExitInputs(p, i - 1);
      assert Effect(p, i - 1, states[i - 1], states[i - 1 + 1]);
      NoDupAppend(before, tx.inputs);
      assert before + tx.inputs == gone + ExitInputs(p, i);
      forall o | o in tx.inputs ensures Origin(p, m, i - 1, o) && Origin(p, m, i, o) {
        OriginHolds(p, m, states, i - 1, o);
      }
      forall o | o in gone + ExitInputs(p, i) ensures o !in states[i].outputs {
        if o !in gone { OriginIsNotNext(p, m, i - 1, o); }
        SpentStaysSpent(p, m, states, i - 1, o);
      }
    }
  }

  /** Consumed fee children are exactly the fee children among the inputs so far. */
  lemma {:induction false} ConsumedIsSpent(p: Plan, m: Unspent, states: seq<ExitState>, i: nat)
    requires IsTrace(p, m, states) && i <= |p.exits|
    ensures forall o :: o in states[i].consumed <==> o in ExitInputs(p, i) && o in p.feeChildren
  {
    if i > 0 {
      ConsumedIsSpent(p, m, states, i - 1);
      assert Effect(p, i - 1, states[i - 1], states[i - 1 + 1]);
    }
  }

  /** In a list without repetition an element occurs once or not at all. */
  lemma {:induction false} NoDupCount<T>(s: seq<T>, x: T)
    requires NoDup(s)
    ensures multiset(s)[x] == if x in s then 1 else 0
  {
    if s != [] {
      var front, last := s[..|s| - 1], s[|s| - 1];
      NoDupCount(front, x);
      assert s == front + [last] && last !in front;
    }
  }

  /** A fee child has been spent once when it is consumed, and not at all before. */
  lemma {:induction false} FeeChildCount(p: Plan, m: Unspent, states: seq<ExitState>, i: nat, o: Outpoint)
    requires IsTrace(p, m, states) && i <= |p.exits| && o in p.feeChildren
    ensures multiset(ExitInputs(p, i))[o] == if o in states[i].consumed then 1 else 0
  {
    if i > 0 {
      FeeChildCount(p, m, states, i - 1, o);
      assert Effect(p, i - 1, states[i - 1], states[i - 1 + 1]);
      NoDupCount(p.exits[i - 1].tx.inputs, o);
    }
  }

  /** Every accepted plan spends the selected output in transaction 0 and every fee child exactly once. */
  lemma CommittedOutputsSpent(p: Plan, m: Unspent)
    requires Accepts(p, m)
    ensures p.selected in p.exits[0].tx.inputs
    ensures forall o :: o in p.feeChildren ==> multiset(ExitInputs(p, |p.exits|))[o] == 1
  {
    var states := TraceOf(p, m);
    assert Effect(p, 0, states[0], states[0 + 1]);
    forall o | o in p.feeChildren ensures multiset(ExitInputs(p, |p.exits|))[o] == 1 {
      FeeChildCount(p, m, states, |p.exits|, o);
      assert o in After(p, Start(m), |p.exits|).value.consumed;
    }
  }

  // ----- what the recovery engine is given -----

  ghost function ParentAt(s: seq<Summary>, k: nat): Option<Bytes>
    requires k <= |s|
  {
    if k == 0 then None else Some(s[k - 1].id)
  }

  /** A chain of summaries: each names the one before it as parent and has a nonempty broadcast window. */
  ghost predicate IsSequence(s: seq<Summary>) {
    forall k :: 0 <= k < |s| ==> s[k].parent == ParentAt(s, k) && s[k].earliest <= s[k].latest
  }

  lemma SequenceSnoc(s: seq<Summary>, x: Summary)
    requires IsSequence(s) && x.parent == ParentAt(s, |s|) && x.earliest <= x.latest
    ensures IsSequence(s + [x])
  {
    var t := s + [x];
    forall k | 0 <= k < |t| ensures t[k].parent == ParentAt(t, k) && t[k].earliest <= t[k].latest {
      assert ParentAt(t, k) == ParentAt(s, k);
      if k < |s| { assert t[k] == s[k]; }
    }
  }

  lemma {:induction false} SummariesOf(p: Plan, m: Unspent, states: seq<ExitState>, i: nat)
    requires IsTrace(p, m, states) && i <= |p.exits|
    ensures |states[i].summaries| == i && IsSequence(states[i].summaries)
    ensures forall k :: 0 <= k < i ==>
            states[i].summaries[k].id == p.exits[k].tx.id && states[i].summaries[k].digest == p.exits[k].digest
    ensures states[i].previous == ParentAt(states[i].summaries, i)
  {
    if i > 0 {
      SummariesOf(p, m, states, i - 1);
      assert Effect(p, i - 1, states[i - 1], states[i - 1 + 1]);
      SequenceSnoc(states[i - 1].summaries, states[i].summaries[i - 1]);
    }
  }

  /** Each later exit names the one before it as its parent and spends one of its outputs. */
  lemma ParentChain(p: Plan, m: Unspent, i: nat) returns (o: Outpoint)
    requires 0 < i < |p.exits| && After(p, Start(m), |p.exits|).Ok?
    ensures p.exits[i].parent == Some(p.exits[i - 1].tx.id)
    ensures o in p.exits[i].tx.inputs && o.txid == p.exits[i - 1].tx.id
  {
    var states := TraceOf(p, m);
    SummariesOf(p, m, states, i);
    assert Effect(p, i, states[i], states[i + 1]);
    o :| o in p.exits[i].tx.inputs && states[i].previous == Some(o.txid);
  }
}
