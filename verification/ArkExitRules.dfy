/** The rules of an exit sequence, stated on the plan and on the states between its exits rather than as a computation,
    and the equivalence of the two. */
module ArkExitRules {
  import opened ByteStrings
  import opened ArkVerify
  import opened ArkExit

  // ----- the rules -----

  /** The outputs a transaction spends, in the order of its inputs. */
  ghost function SpentBy(m: Unspent, ins: seq<Outpoint>): (s: seq<Output>)
    requires forall o :: o in ins ==> o in m
    ensures |s| == |ins| && forall k :: 0 <= k < |ins| ==> s[k] == m[ins[k]]
  {
    seq(|ins|, k requires 0 <= k < |ins| => m[ins[k]])
  }

  /** Distinct unspent inputs, each the selected output, an unused fee child or an output of the previous exit; the
      selected output is spent along the recovery path only. */
  ghost predicate InputsLawful(p: Plan, previous: Option<Bytes>, tx: Tx, m: Unspent, used: set<Outpoint>,
                               ins: seq<Outpoint>)
  {
    && NoDup(ins) && (forall o :: o in ins ==> o in m)
    && (forall o :: o in ins ==> o == p.selected || o in p.feeChildren || previous == Some(o.txid))
    && (forall o :: o in ins && o in p.feeChildren ==> o !in used)
    && (p.selected in ins ==> p.recoveryPath(tx))
  }

  /** The first exit spends the selected output, every later one an output of the exit before it. */
  ghost predicate Connects(p: Plan, i: nat, previous: Option<Bytes>, ins: seq<Outpoint>) {
    if i == 0 then p.selected in ins else exists o :: o in ins && previous == Some(o.txid)
  }

  /** Exactly one output pays the script. */
  ghost predicate PaysOnce(outs: seq<Output>, script: Bytes) {
    exists k :: PaysOnlyAt(outs, script, k)
  }

  ghost predicate PaysOnlyAt(outs: seq<Output>, script: Bytes, k: int) {
    0 <= k < |outs| && forall j :: 0 <= j < |outs| ==> (outs[j].script == script <==> j == k)
  }

  /** The unspent outputs after a transaction: the old ones less its inputs, and its own. */
  ghost predicate Moves(m: Unspent, tx: Tx, t: Unspent) {
    && (forall o :: o in t <==> (o in m && o !in tx.inputs) || Creates(tx, o))
    && (forall o :: o in t && Creates(tx, o) ==> t[o] == tx.outputs[o.index])
    && (forall o :: o in t && !Creates(tx, o) ==> o in m && t[o] == m[o])
  }

  /** What an exit must declare: its parent, its identifier, a size within the bound and an open, unexpired window. */
  ghost predicate Declares(p: Plan, s: ExitState, e: Exit) {
    && e.parent == s.previous && e.declaredId == e.tx.id && e.clean && s.bytes + e.size <= 262_144
    && e.earliest <= e.latest && p.height <= e.latest && (p.expiry.Some? ==> e.latest < p.expiry.value)
  }

  /** The fee of an exit, in 64 bits, keeps the total within the committed maximum. */
  ghost predicate Pays(p: Plan, s: ExitState, tx: Tx, t: ExitState)
    requires forall o :: o in tx.inputs ==> o in s.outputs
  {
    var paid := SpentBy(s.outputs, tx.inputs);
    && Sum(paid) < 0x1_0000_0000_0000_0000 && Sum(tx.outputs) <= Sum(paid)
    && t.totalFee == s.totalFee + Sum(paid) - Sum(tx.outputs) && t.totalFee <= p.maximumFee
  }

  /** One exit, from the state before it to the state after it. */
  ghost predicate Lawful(p: Plan, i: nat, s: ExitState, t: ExitState)
    requires i < |p.exits|
  {
    var e, tx := p.exits[i], p.exits[i].tx;
    && Declares(p, s, e)
    && InputsLawful(p, s.previous, tx, s.outputs, s.consumed, tx.inputs) && Connects(p, i, s.previous, tx.inputs)
    && p.signed(tx, SpentBy(s.outputs, tx.inputs))
    && Pays(p, s, tx, t)
    && (i + 1 == |p.exits| ==> PaysOnce(tx.outputs, p.finalScript))
    && Moves(s.outputs, tx, t.outputs)
    && (forall o :: o in t.consumed <==> o in s.consumed || (o in tx.inputs && o in p.feeChildren))
    && t.bytes == s.bytes + e.size && t.previous == Some(tx.id)
    && t.summaries == s.summaries + [Summary(tx.id, e.digest, e.parent, e.earliest, e.latest)]
  }

  /** A whole plan: bounded counts, distinct fee children, lawful exits, and every fee child used. */
  ghost predicate LawfulRun(p: Plan, m: Unspent, states: seq<ExitState>) {
    && 0 < |p.exits| <= 64 && 0 < |p.feeChildren| <= 64 && NoDup(p.feeChildren) && p.selected !in p.feeChildren
    && |states| == |p.exits| + 1 && states[0] == ExitState(m, {}, 0, 0, None, [])
    && (forall i :: 0 <= i < |p.exits| ==> Lawful(p, i, states[i], states[i + 1]))
    && (forall o :: o in p.feeChildren ==> o in states[|p.exits|].consumed)
  }

  // ----- inputs -----

  /** One more input is lawful exactly when the code would spend it next. */
  lemma InputsSnoc(p: Plan, previous: Option<Bytes>, tx: Tx, m: Unspent, used: set<Outpoint>, ins: seq<Outpoint>,
                   o: Outpoint)
    ensures InputsLawful(p, previous, tx, m, used, ins + [o]) <==>
            && InputsLawful(p, previous, tx, m, used, ins)
            && o !in ins && o in m && (o == p.selected || o in p.feeChildren || previous == Some(o.txid))
            && (o in p.feeChildren ==> o !in used) && (o == p.selected ==> p.recoveryPath(tx))
  {
    var longer := ins + [o];
    assert forall x :: x in longer <==> x in ins || x == o;
    NoDupSnoc(ins, o);
  }

  lemma SpendOneIff(p: Plan, previous: Option<Bytes>, tx: Tx, s: InputState, t: InputState, ins: seq<Outpoint>,
                    o: Outpoint)
    requires InputsLawful(p, previous, tx, s.outputs, s.consumed, ins) && Spent(p, previous, s, t, ins)
    ensures SpendOne(p, previous, tx, t, o).Ok? <==> InputsLawful(p, previous, tx, s.outputs, s.consumed, ins + [o])
  {
    InputsSnoc(p, previous, tx, s.outputs, s.consumed, ins, o);
    assert o in t.outputs <==> o in s.outputs && o !in ins;
    assert o in p.feeChildren ==> (o in t.consumed <==> o in s.consumed || o in ins);
  }

  /** The input loop accepts exactly lawful inputs, and collects what they spend in order. */
  lemma {:induction false} SpendManyIff(p: Plan, previous: Option<Bytes>, tx: Tx, s: InputState, ins: seq<Outpoint>)
    requires s.prevouts == []
    ensures SpendMany(p, previous, tx, s, ins).Ok? <==> InputsLawful(p, previous, tx, s.outputs, s.consumed, ins)
    ensures SpendMany(p, previous, tx, s, ins).Ok? ==>
            && InputsLawful(p, previous, tx, s.outputs, s.consumed, ins)
            && SpendMany(p, previous, tx, s, ins).value.prevouts == SpentBy(s.outputs, ins)
  {
    if ins != [] {
      var front, o := ins[..|ins| - 1], ins[|ins| - 1];
      assert front + [o] == ins;
      SpendManyIff(p, previous, tx, s, front);
      var t := SpendMany(p, previous, tx, s, front);
      if t.Ok? {
        SpendManyEffect(p, previous, tx, s, front);
        SpendOneIff(p, previous, tx, s, t.value, front, o);
      } else {
        InputsSnoc(p, previous, tx, s.outputs, s.consumed, front, o);
      }
    }
  }

  // ----- one exit -----

  lemma {:induction false} CountNone(outs: seq<Output>, script: Bytes)
    ensures CountScript(outs, script) == 0 <==> forall j :: 0 <= j < |outs| ==> outs[j].script != script
  {
    if outs != [] { CountNone(outs[..|outs| - 1], script); }
  }

  lemma {:induction false} CountOne(outs: seq<Output>, script: Bytes)
    ensures CountScript(outs, script) == 1 <==> PaysOnce(outs, script)
  {
    if outs != [] {
      var n := |outs| - 1;
      var front := outs[..n];
      CountOne(front, script);
      CountNone(front, script);
      if outs[n].script == script {
        if CountScript(front, script) == 0 { assert PaysOnlyAt(outs, script, n); }
        if k :| PaysOnlyAt(outs, script, k) { assert k == n; }
      } else {
        if k :| PaysOnlyAt(front, script, k) { assert PaysOnlyAt(outs, script, k); }
        if k :| PaysOnlyAt(outs, script, k) { assert PaysOnlyAt(front, script, k); }
      }
    }
  }

  lemma {:induction false} InsertedValues(m: Unspent, tx: Tx, k: nat, o: Outpoint)
    requires k <= |tx.outputs| && o.txid == tx.id && o.index < k
    ensures o in InsertOutputs(m, tx, k) && InsertOutputs(m, tx, k)[o] == tx.outputs[o.index]
  {
    if o.index < k - 1 { InsertedValues(m, tx, k - 1, o); }
  }

  /** Removing the inputs and inserting the outputs is the only way to move. */
  lemma MovesIs(m: Unspent, tx: Tx, t: Unspent)
    ensures Moves(m, tx, t) <==> t == InsertOutputs(m - Elems(tx.inputs), tx, |tx.outputs|)
  {
    var r := InsertOutputs(m - Elems(tx.inputs), tx, |tx.outputs|);
    forall o ensures o in r <==> (o in m && o !in tx.inputs) || Creates(tx, o) {
      InsertedKeys(m - Elems(tx.inputs), tx, |tx.outputs|, o);
    }
    forall o | o in r && Creates(tx, o) ensures r[o] == tx.outputs[o.index] {
      InsertedValues(m - Elems(tx.inputs), tx, |tx.outputs|, o);
    }
    forall o | o in r && !Creates(tx, o) ensures o in m && r[o] == m[o] {
      InsertedKeys(m - Elems(tx.inputs), tx, |tx.outputs|, o);
    }
    if Moves(m, tx, t) { SameMap(t, r); }
  }

  lemma SameMap(a: Unspent, b: Unspent)
    requires (forall o :: o in a <==> o in b) && forall o :: o in a && o in b ==> a[o] == b[o]
    ensures a == b
  {
  }

  lemma AdmitsIs(p: Plan, s: ExitState, e: Exit)
    ensures Admits(p, s, e) <==> Declares(p, s, e)
  {
  }

  /** Roles, signatures, fee, destination and the new state, once the inputs are known. */
  ghost predicate Settled(p: Plan, i: nat, s: ExitState, u: InputState, t: ExitState)
    requires i < |p.exits|
  {
    var e, tx := p.exits[i], p.exits[i].tx;
    && (i == 0 ==> u.spendsSelected) && u.spendsParent && p.signed(tx, u.prevouts)
    && Sum(u.prevouts) < 0x1_0000_0000_0000_0000 && Sum(tx.outputs) <= Sum(u.prevouts)
    && t.totalFee == s.totalFee + Sum(u.prevouts) - Sum(tx.outputs) && t.totalFee <= p.maximumFee
    && (i + 1 == |p.exits| ==> PaysOnce(tx.outputs, p.finalScript))
    && t.outputs == InsertOutputs(u.outputs, tx, |tx.outputs|) && t.consumed == u.consumed
    && t.bytes == s.bytes + e.size && t.previous == Some(e.declaredId) && t.summaries == s.summaries + [SummaryOf(e)]
  }

  lemma SettleIff(p: Plan, i: nat, s: ExitState, u: InputState, t: ExitState)
    requires i < |p.exits|
    ensures Settle(p, s, i, u) == Ok(t) <==> Settled(p, i, s, u, t)
  {
    CountOne(p.exits[i].tx.outputs, p.finalScript);
  }

  /** The step computes exactly the lawful successor, and refuses exactly when there is none. */
  lemma StepIff(p: Plan, i: nat, s: ExitState, t: ExitState)
    requires i < |p.exits|
    ensures Step(p, s, i) == Ok(t) <==> Lawful(p, i, s, t)
  {
    var e, tx := p.exits[i], p.exits[i].tx;
    AdmitsIs(p, s, e);
    SpendManyIff(p, s.previous, tx, StartInputs(s, i), tx.inputs);
    var spent := SpendMany(p, s.previous, tx, StartInputs(s, i), tx.inputs);
    if Declares(p, s, e) && spent.Ok? {
      SpendManyEffect(p, s.previous, tx, StartInputs(s, i), tx.inputs);
      SettleIff(p, i, s, spent.value, t);
      SettledIsLawful(p, i, s, spent.value, t);
    }
  }

  lemma SettledIsLawful(p: Plan, i: nat, s: ExitState, u: InputState, t: ExitState)
    requires i < |p.exits| && Declares(p, s, p.exits[i])
    requires InputsLawful(p, s.previous, p.exits[i].tx, s.outputs, s.consumed, p.exits[i].tx.inputs)
    requires Spent(p, s.previous, StartInputs(s, i), u, p.exits[i].tx.inputs)
    requires u.prevouts == SpentBy(s.outputs, p.exits[i].tx.inputs)
    ensures Settled(p, i, s, u, t) <==> Lawful(p, i, s, t)
  {
    var tx := p.exits[i].tx;
    MovesIs(s.outputs, tx, t.outputs);
    assert t.consumed == u.consumed <==>
           forall o :: o in t.consumed <==> o in s.consumed || (o in tx.inputs && o in p.feeChildren);
  }

  // ----- the whole plan -----

  lemma {:induction false} RunOf(p: Plan, m: Unspent, i: nat) returns (states: seq<ExitState>)
    requires i <= |p.exits| && After(p, Start(m), i).Ok?
    ensures |states| == i + 1 && states[0] == Start(m) && states[i] == After(p, Start(m), i).value
    ensures forall j :: 0 <= j < i ==> Lawful(p, j, states[j], states[j + 1])
  {
    if i == 0 {
      states := [Start(m)];
    } else {
      var front := RunOf(p, m, i - 1);
      var last := After(p, Start(m), i).value;
      StepIff(p, i - 1, front[i - 1], last);
      states := RunSnoc(p, front, i - 1, last);
    }
  }

  lemma RunSnoc(p: Plan, front: seq<ExitState>, i: nat, t: ExitState) returns (states: seq<ExitState>)
    requires i < |p.exits| && |front| == i + 1 && Lawful(p, i, front[i], t)
    requires forall j :: 0 <= j < i ==> Lawful(p, j, front[j], front[j + 1])
    ensures |states| == i + 2 && states[0] == front[0] && states[i + 1] == t
    ensures forall j :: 0 <= j <= i ==> Lawful(p, j, states[j], states[j + 1])
  {
    states := front + [t];
    forall j | 0 <= j <= i ensures Lawful(p, j, states[j], states[j + 1]) {
      if j < i { assert states[j + 1] == front[j + 1]; }
    }
  }

  lemma {:induction false} RunIsAfter(p: Plan, m: Unspent, states: seq<ExitState>, i: nat)
    requires i <= |p.exits| < |states| && states[0] == Start(m)
    requires forall j :: 0 <= j < |p.exits| ==> Lawful(p, j, states[j], states[j + 1])
    ensures After(p, Start(m), i) == Ok(states[i])
  {
    if i > 0 {
      RunIsAfter(p, m, states, i - 1);
      assert Lawful(p, i - 1, states[i - 1], states[i - 1 + 1]);
      StepIff(p, i - 1, states[i - 1], states[i]);
    }
  }

  lemma {:induction false} ConsumedAreFeeChildren(p: Plan, m: Unspent, states: seq<ExitState>, i: nat)
    requires i <= |p.exits| < |states| && states[0] == Start(m)
    requires forall j :: 0 <= j < |p.exits| ==> Lawful(p, j, states[j], states[j + 1])
    ensures forall o :: o in states[i].consumed ==> o in p.feeChildren
  {
    if i > 0 {
      ConsumedAreFeeChildren(p, m, states, i - 1);
      assert Lawful(p, i - 1, states[i - 1], states[i - 1 + 1]);
    }
  }

  /** A plan is accepted exactly when there is a lawful run of it. */
  lemma AcceptsIff(p: Plan, m: Unspent)
    ensures Accepts(p, m) <==> exists states :: LawfulRun(p, m, states)
  {
    if Accepts(p, m) {
      var states := RunOf(p, m, |p.exits|);
      assert LawfulRun(p, m, states);
    }
    if states :| LawfulRun(p, m, states) {
      RunAccepted(p, m, states);
    }
  }

  lemma RunAccepted(p: Plan, m: Unspent, states: seq<ExitState>)
    requires LawfulRun(p, m, states)
    ensures Accepts(p, m) && After(p, Start(m), |p.exits|).value == states[|p.exits|]
  {
    RunIsAfter(p, m, states, |p.exits|);
    ConsumedAreFeeChildren(p, m, states, |p.exits|);
    assert states[|p.exits|].consumed == Elems(p.feeChildren);
  }

  // ----- what acceptance guarantees -----

  function SizeUpTo(p: Plan, i: nat): nat
    requires i <= |p.exits|
  {
    if i == 0 then 0 else SizeUpTo(p, i - 1) + p.exits[i - 1].size
  }

  lemma {:induction false} SizesAddUp(p: Plan, m: Unspent, states: seq<ExitState>, i: nat)
    requires LawfulRun(p, m, states) && i <= |p.exits|
    ensures states[i].bytes == SizeUpTo(p, i) <= 262_144
  {
    if i > 0 {
      SizesAddUp(p, m, states, i - 1);
      assert Lawful(p, i - 1, states[i - 1], states[i - 1 + 1]);
    }
  }

  /** Every accepted plan ends in exactly one payment to its destination, has every exit signed for what it spends,
      spends the selected output along the recovery path only, and fits the size bound. */
  lemma AcceptedGuarantees(p: Plan, m: Unspent) returns (states: seq<ExitState>)
    requires Accepts(p, m)
    ensures LawfulRun(p, m, states)
    ensures PaysOnce(p.exits[|p.exits| - 1].tx.outputs, p.finalScript)
    ensures forall i :: 0 <= i < |p.exits| ==> SignedIn(p, states[i], p.exits[i].tx)
    ensures forall i :: 0 <= i < |p.exits| && p.selected in p.exits[i].tx.inputs ==> p.recoveryPath(p.exits[i].tx)
    ensures SizeUpTo(p, |p.exits|) <= 262_144
  {
    states := RunOf(p, m, |p.exits|);
    var n := |p.exits|;
    assert Lawful(p, n - 1, states[n - 1], states[n - 1 + 1]);
    SizesAddUp(p, m, states, n);
    forall i | 0 <= i < n
      ensures SignedIn(p, states[i], p.exits[i].tx) &&
              (p.selected in p.exits[i].tx.inputs ==> p.recoveryPath(p.exits[i].tx))
    {
      assert Lawful(p, i, states[i], states[i + 1]);
    }
  }

  /** The signatures of a transaction are valid for the outputs it spends. */
  ghost predicate SignedIn(p: Plan, s: ExitState, tx: Tx) {
    (forall o :: o in tx.inputs ==> o in s.outputs) && p.signed(tx, SpentBy(s.outputs, tx.inputs))
  }
}
