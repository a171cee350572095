/** Exits after an accepted graph.  Nothing is spent twice across the two exactly when no exit spends a declared root,
    and what the graph spent stays spent exactly when no exit creates one.  Identifiers are hashes, so one identifier
    stands for one list of inputs. */
module ArkExitGraph {
  import opened ByteStrings
  import opened ArkVerify
  import opened ArkExit
  import opened ArkExitLaws
  import opened ArkExitVerify

  // ----- what the exits know of the graph -----

  /** The graph as the exits see it: its identifiers, the outpoints it has spent, and its roots. */
  ghost predicate Edge(m: Unspent, ids: set<Bytes>, gone: seq<Outpoint>, roots: set<Outpoint>) {
    && (forall o :: o in m ==> o !in gone && o.txid in ids)
    && (forall o :: o in gone ==> o.txid in ids || o in roots)
  }

  /** No exit is the transaction of a declared root. */
  ghost predicate CreatesNoRoot(p: Plan, roots: set<Outpoint>) {
    forall o, i :: o in roots && 0 <= i < |p.exits| ==> !Creates(p.exits[i].tx, o)
  }

  /** No exit spends a declared root. */
  ghost predicate SpendsNoRoot(p: Plan, roots: set<Outpoint>) {
    forall i, o :: 0 <= i < |p.exits| && o in p.exits[i].tx.inputs ==> o !in roots
  }

  /** Exits that share an identifier share their inputs; one with an identifier of the graph has its inputs there. */
  ghost predicate SameInputs(p: Plan, ids: set<Bytes>, gone: seq<Outpoint>) {
    && (forall i, j :: 0 <= i < j < |p.exits| && p.exits[i].tx.id == p.exits[j].tx.id ==>
          p.exits[i].tx.inputs == p.exits[j].tx.inputs)
    && (forall i, o :: 0 <= i < |p.exits| && p.exits[i].tx.id in ids && o in p.exits[i].tx.inputs ==> o in gone)
  }

  ghost predicate IsNew(p: Plan, ids: set<Bytes>, i: nat)
    requires i < |p.exits|
  {
    p.exits[i].tx.id !in ids && forall j :: 0 <= j < i ==> p.exits[j].tx.id != p.exits[i].tx.id
  }

  ghost predicate NewUpTo(p: Plan, ids: set<Bytes>, n: nat)
    requires n <= |p.exits|
  {
    forall i :: 0 <= i < n ==> IsNew(p, ids, i)
  }

  // ----- exit by exit -----

  /** Among what the graph has spent, only a root can be available to an exit again. */
  lemma GoneHasNoOrigin(p: Plan, m: Unspent, ids: set<Bytes>, gone: seq<Outpoint>, roots: set<Outpoint>, i: nat,
                        o: Outpoint)
    requires Edge(m, ids, gone, roots) && i <= |p.exits| && NewUpTo(p, ids, i) && Origin(p, m, i, o)
    ensures o in gone ==> o in roots
  {
    if o !in m {
      var j :| 0 <= j < i && Creates(p.exits[j].tx, o);
      assert IsNew(p, ids, j);
    }
  }

  /** Every exit spends something unspent. */
  lemma SpendsSomething(p: Plan, m: Unspent, states: seq<ExitState>, i: nat) returns (o: Outpoint)
    requires IsTrace(p, m, states) && i < |p.exits|
    ensures o in p.exits[i].tx.inputs && o in states[i].outputs && Origin(p, m, i, o)
  {
    assert Effect(p, i, states[i], states[i + 1]);
    if i == 0 { o := p.selected; } else { o :| o in p.exits[i].tx.inputs && states[i].previous == Some(o.txid); }
    OriginHolds(p, m, states, i, o);
  }

  lemma {:induction false} StaysSpent(p: Plan, m: Unspent, states: seq<ExitState>, j: nat, i: nat, o: Outpoint)
    requires IsTrace(p, m, states) && j < i <= |p.exits| && o in p.exits[j].tx.inputs
    requires forall l :: j <= l < i ==> !Creates(p.exits[l].tx, o)
    ensures o !in states[i].outputs
    decreases i
  {
    if j + 1 < i { StaysSpent(p, m, states, j, i - 1, o); }
    SpentStaysSpent(p, m, states, i - 1, o);
  }

  /** An outpoint an exit could spend is not created by a later exit. */
  lemma OriginIsEarlier(p: Plan, m: Unspent, ids: set<Bytes>, j: nat, l: nat, o: Outpoint)
    requires j <= l < |p.exits| && NewUpTo(p, ids, l + 1) && Origin(p, m, j, o) && (o in m ==> o.txid in ids)
    ensures !Creates(p.exits[l].tx, o)
  {
    assert IsNew(p, ids, l);
  }

  lemma NotRepeated(p: Plan, m: Unspent, states: seq<ExitState>, ids: set<Bytes>, i: nat, j: nat)
    requires IsTrace(p, m, states) && j < i < |p.exits| && NewUpTo(p, ids, i) && forall o :: o in m ==> o.txid in ids
    requires p.exits[i].tx.id == p.exits[j].tx.id ==> p.exits[i].tx.inputs == p.exits[j].tx.inputs
    ensures p.exits[i].tx.id != p.exits[j].tx.id
  {
    var o := SpendsSomething(p, m, states, i);
    if o in p.exits[j].tx.inputs {
      assert Effect(p, j, states[j], states[j + 1]);
      OriginHolds(p, m, states, j, o);
      forall l | j <= l < i ensures !Creates(p.exits[l].tx, o) { OriginIsEarlier(p, m, ids, j, l, o); }
      StaysSpent(p, m, states, j, i, o);
    }
  }

  lemma {:induction false} AllNew(p: Plan, m: Unspent, states: seq<ExitState>, ids: set<Bytes>, gone: seq<Outpoint>,
                                  roots: set<Outpoint>, n: nat)
    requires IsTrace(p, m, states) && n <= |p.exits|
    requires Edge(m, ids, gone, roots) && SameInputs(p, ids, gone) && SpendsNoRoot(p, roots)
    ensures NewUpTo(p, ids, n)
  {
    if n > 0 {
      AllNew(p, m, states, ids, gone, roots, n - 1);
      var o := SpendsSomething(p, m, states, n - 1);
      GoneHasNoOrigin(p, m, ids, gone, roots, n - 1, o);
      forall j | 0 <= j < n - 1 ensures p.exits[j].tx.id != p.exits[n - 1].tx.id {
        NotRepeated(p, m, states, ids, n - 1, j);
      }
      assert IsNew(p, ids, n - 1);
    }
  }

  // ----- the graph and its exits -----

  ghost function Ids(txs: seq<Tx>): (s: set<Bytes>)
    ensures forall id :: id in s <==> Find(txs, id).Some?
  {
    set i | 0 <= i < |txs| :: txs[i].id
  }

  /** An accepted graph and the outputs it leaves unspent. */
  ghost predicate AcceptedGraph(txs: seq<Tx>, observed: seq<Observed>, t: Terms, m: Unspent) {
    && t.bound && Bounded(txs, t) && SpendDag(txs, observed, t) && SelectedHolds(txs, t)
    && m == ObservedMapOf(observed + Entries(txs)) - Elems(Inputs(txs))
  }

  /** No two transactions of the graph and the plan share an identifier and differ in their inputs. */
  ghost predicate NoCollision(txs: seq<Tx>, p: Plan) {
    && (forall i, j :: 0 <= i < |txs| && 0 <= j < |p.exits| && txs[i].id == p.exits[j].tx.id ==>
          txs[i].inputs == p.exits[j].tx.inputs)
    && (forall i, j :: 0 <= i < j < |p.exits| && p.exits[i].tx.id == p.exits[j].tx.id ==>
          p.exits[i].tx.inputs == p.exits[j].tx.inputs)
  }

  lemma {:induction false} InputsHold(txs: seq<Tx>, i: nat, o: Outpoint)
    requires i < |txs| && o in txs[i].inputs
    ensures o in Inputs(txs)
  {
    if i < |txs| - 1 { InputsHold(txs[..|txs| - 1], i, o); }
  }

  lemma EdgeOf(txs: seq<Tx>, observed: seq<Observed>, t: Terms, m: Unspent)
    requires AcceptedGraph(txs, observed, t, m)
    ensures Edge(m, Ids(txs), Inputs(txs), RootsOf(t))
  {
    UnspentOfAcceptedGraph(txs, observed, t, m);
    forall o | o in Inputs(txs) && o.txid !in Ids(txs) ensures o in RootsOf(t) {
      assert o in External(txs, Inputs(txs));
    }
  }

  lemma SameInputsOf(txs: seq<Tx>, p: Plan)
    requires NoCollision(txs, p)
    ensures SameInputs(p, Ids(txs), Inputs(txs))
  {
    forall i, o | 0 <= i < |p.exits| && p.exits[i].tx.id in Ids(txs) && o in p.exits[i].tx.inputs
      ensures o in Inputs(txs)
    {
      InputsHold(txs, Find(txs, p.exits[i].tx.id).value, o);
    }
  }

  /** After an accepted graph, an accepted plan that spends no declared root has fresh identifiers; when it creates
      none either, it creates nothing the graph has spent. */
  lemma AcceptedExitsAreFresh(txs: seq<Tx>, observed: seq<Observed>, t: Terms, p: Plan, m: Unspent)
    requires AcceptedGraph(txs, observed, t, m) && NoCollision(txs, p) && Accepts(p, m) && SpendsNoRoot(p, RootsOf(t))
    ensures Fresh(p, m) && NewUpTo(p, Ids(txs), |p.exits|)
    ensures CreatesNoRoot(p, RootsOf(t)) ==> GoneFor(p, m, Inputs(txs))
  {
    var states := TraceOf(p, m);
    EdgeOf(txs, observed, t, m);
    SameInputsOf(txs, p);
    AllNew(p, m, states, Ids(txs), Inputs(txs), RootsOf(t), |p.exits|);
    NewIsFresh(p, m, Ids(txs), Inputs(txs), RootsOf(t));
  }

  lemma NewIsFresh(p: Plan, m: Unspent, ids: set<Bytes>, gone: seq<Outpoint>, roots: set<Outpoint>)
    requires Edge(m, ids, gone, roots) && NewUpTo(p, ids, |p.exits|) && NoDup(gone)
    ensures Fresh(p, m) && (CreatesNoRoot(p, roots) ==> GoneFor(p, m, gone))
  {
    forall i | 0 <= i < |p.exits|
      ensures p.exits[i].tx.id !in ids && forall j :: 0 <= j < i ==> p.exits[j].tx.id != p.exits[i].tx.id
    {
      assert IsNew(p, ids, i);
    }
  }

  /** A root that no exit creates is not there for an exit to spend. */
  lemma CreatedBeforeSpent(p: Plan, m: Unspent, states: seq<ExitState>, roots: set<Outpoint>)
    requires IsTrace(p, m, states) && CreatesNoRoot(p, roots) && forall o :: o in roots ==> o !in m
    ensures SpendsNoRoot(p, roots)
  {
    forall i, o | 0 <= i < |p.exits| && o in p.exits[i].tx.inputs ensures o !in roots {
      assert Effect(p, i, states[i], states[i + 1]);
      OriginHolds(p, m, states, i, o);
    }
  }

  // ----- no outpoint twice -----

  lemma {:induction false} ExitInputOf(p: Plan, n: nat, o: Outpoint) returns (i: nat)
    requires n <= |p.exits| && o in ExitInputs(p, n)
    ensures i < n && o in p.exits[i].tx.inputs
  {
    if o in p.exits[n - 1].tx.inputs { i := n - 1; } else { i := ExitInputOf(p, n - 1, o); }
  }

  lemma {:induction false} ExitInputIn(p: Plan, n: nat, i: nat, o: Outpoint)
    requires i < n <= |p.exits| && o in p.exits[i].tx.inputs
    ensures o in ExitInputs(p, n)
  {
    if i < n - 1 { ExitInputIn(p, n - 1, i, o); }
  }

  /** New identifiers and no root among the inputs: the exits repeat nothing, of their own or of the graph. */
  lemma NewSpendsOnce(p: Plan, m: Unspent, states: seq<ExitState>, ids: set<Bytes>, gone: seq<Outpoint>,
                      roots: set<Outpoint>)
    requires IsTrace(p, m, states) && Fresh(p, m) && NewUpTo(p, ids, |p.exits|) && SpendsNoRoot(p, roots)
    requires Edge(m, ids, gone, roots) && NoDup(gone)
    ensures NoDup(ExitInputs(p, |p.exits|)) && NoDup(gone + ExitInputs(p, |p.exits|))
  {
    var n := |p.exits|;
    SpentOnce(p, m, states, [], n);
    assert [] + ExitInputs(p, n) == ExitInputs(p, n);
    forall o | o in gone ensures o !in ExitInputs(p, n) {
      if o in ExitInputs(p, n) {
        var i := ExitInputOf(p, n, o);
        GoneHasNoOrigin(p, m, ids, gone, roots, n, o);
      }
    }
    NoDupAppend(gone, ExitInputs(p, n));
  }

  /** A root spent by an exit is spent twice. */
  lemma RootIsRepeated(p: Plan, gone: seq<Outpoint>, roots: set<Outpoint>)
    requires !SpendsNoRoot(p, roots) && forall o :: o in roots ==> o in gone
    ensures !NoDup(gone + ExitInputs(p, |p.exits|))
  {
    var i, o :| 0 <= i < |p.exits| && o in p.exits[i].tx.inputs && o in roots;
    ExitInputIn(p, |p.exits|, i, o);
    var all := gone + ExitInputs(p, |p.exits|);
    var a :| 0 <= a < |gone| && gone[a] == o;
    var b :| 0 <= b < |ExitInputs(p, |p.exits|)| && ExitInputs(p, |p.exits|)[b] == o;
    assert all[a] == o && all[|gone| + b] == o;
  }

  lemma RootsAreSpent(txs: seq<Tx>, observed: seq<Observed>, t: Terms)
    requires SpendDag(txs, observed, t)
    ensures forall o :: o in RootsOf(t) ==> o in Inputs(txs)
  {
    assert forall o :: o in External(txs, Inputs(txs)) ==> o in Inputs(txs);
  }

  /** No outpoint is spent twice across the graph and the exits exactly when no exit spends a declared root. */
  lemma NoDoubleSpendIff(txs: seq<Tx>, observed: seq<Observed>, t: Terms, p: Plan, m: Unspent)
    requires AcceptedGraph(txs, observed, t, m) && NoCollision(txs, p) && Accepts(p, m)
    ensures NoDup(Inputs(txs) + ExitInputs(p, |p.exits|)) <==> SpendsNoRoot(p, RootsOf(t))
    ensures SpendsNoRoot(p, RootsOf(t)) ==> NoDup(ExitInputs(p, |p.exits|))
  {
    if SpendsNoRoot(p, RootsOf(t)) {
      AcceptedExitsAreFresh(txs, observed, t, p, m);
      EdgeOf(txs, observed, t, m);
      var states := TraceOf(p, m);
      NewSpendsOnce(p, m, states, Ids(txs), Inputs(txs), RootsOf(t));
    } else {
      RootsAreSpent(txs, observed, t);
      RootIsRepeated(p, Inputs(txs), RootsOf(t));
    }
  }

  /** Spending no declared root, a plan spends the selected output exactly once, in transaction 0, and conserves value
      up to a fee within the committed maximum. */
  lemma SelectedOnceAndConserved(txs: seq<Tx>, observed: seq<Observed>, t: Terms, p: Plan, m: Unspent)
    requires AcceptedGraph(txs, observed, t, m) && NoCollision(txs, p) && Accepts(p, m) && SpendsNoRoot(p, RootsOf(t))
    ensures p.selected in p.exits[0].tx.inputs && multiset(ExitInputs(p, |p.exits|))[p.selected] == 1
    ensures var s := After(p, Start(m), |p.exits|).value;
            Total(m) == Total(s.outputs) + s.totalFee && s.totalFee <= p.maximumFee
  {
    NoDoubleSpendIff(txs, observed, t, p, m);
    AcceptedExitsAreFresh(txs, observed, t, p, m);
    Conservation(p, m);
    CommittedOutputsSpent(p, m);
    ExitInputIn(p, |p.exits|, 0, p.selected);
    NoDupCount(ExitInputs(p, |p.exits|), p.selected);
  }

  // ----- or a collision -----

  ghost predicate Occurs(txs: seq<Tx>, p: Plan, tx: Tx) {
    tx in txs || exists j :: 0 <= j < |p.exits| && p.exits[j].tx == tx
  }

  /** Two transactions of the graph and the plan with one identifier and different inputs. */
  ghost predicate Collide(txs: seq<Tx>, p: Plan, a: Tx, b: Tx) {
    Occurs(txs, p, a) && Occurs(txs, p, b) && a.id == b.id && a.inputs != b.inputs
  }

  lemma CollisionOf(txs: seq<Tx>, p: Plan) returns (a: Tx, b: Tx)
    requires !NoCollision(txs, p)
    ensures Collide(txs, p, a, b)
  {
    if i, j :| 0 <= i < |txs| && 0 <= j < |p.exits| && txs[i].id == p.exits[j].tx.id &&
               txs[i].inputs != p.exits[j].tx.inputs {
      a, b := txs[i], p.exits[j].tx;
    } else {
      var i, j :| 0 <= i < j < |p.exits| && p.exits[i].tx.id == p.exits[j].tx.id &&
                  p.exits[i].tx.inputs != p.exits[j].tx.inputs;
      a, b := p.exits[i].tx, p.exits[j].tx;
    }
  }

  /** Over the graph and the exits together, unless two named transactions have one identifier: no outpoint is spent
      twice exactly when no exit spends a declared root; then the selected output is spent once, value is conserved up
      to the fee, and the fee stays within the committed maximum. */
  lemma GraphAndExits(txs: seq<Tx>, observed: seq<Observed>, t: Terms, p: Plan, m: Unspent) returns (a: Tx, b: Tx)
    requires AcceptedGraph(txs, observed, t, m) && Accepts(p, m)
    ensures Collide(txs, p, a, b) ||
            (NoDup(Inputs(txs) + ExitInputs(p, |p.exits|)) <==> SpendsNoRoot(p, RootsOf(t)))
    ensures var s := After(p, Start(m), |p.exits|).value;
            Collide(txs, p, a, b) ||
            (SpendsNoRoot(p, RootsOf(t)) ==>
               && multiset(ExitInputs(p, |p.exits|))[p.selected] == 1
               && Total(m) == Total(s.outputs) + s.totalFee && s.totalFee <= p.maximumFee)
  {
    a, b := p.exits[0].tx, p.exits[0].tx;
    if NoCollision(txs, p) {
      NoDoubleSpendIff(txs, observed, t, p, m);
      if SpendsNoRoot(p, RootsOf(t)) { SelectedOnceAndConserved(txs, observed, t, p, m); }
    } else {
      a, b := CollisionOf(txs, p);
    }
  }

  /** What the graph has spent is unspent in no state of the plan. */
  ghost predicate NeverReturns(states: seq<ExitState>, gone: seq<Outpoint>) {
    forall i, o :: 0 <= i < |states| && o in gone ==> o !in states[i].outputs
  }

  /** What the graph has spent stays spent through the whole plan exactly when no exit creates a declared root. */
  lemma ReturnsIffRoot(txs: seq<Tx>, observed: seq<Observed>, t: Terms, p: Plan, m: Unspent, states: seq<ExitState>)
    requires AcceptedGraph(txs, observed, t, m) && NoCollision(txs, p) && Accepts(p, m) && IsTrace(p, m, states)
    ensures NeverReturns(states, Inputs(txs)) <==> CreatesNoRoot(p, RootsOf(t))
  {
    RootsAreSpent(txs, observed, t);
    if CreatesNoRoot(p, RootsOf(t)) {
      UnspentOfAcceptedGraph(txs, observed, t, m);
      CreatedBeforeSpent(p, m, states, RootsOf(t));
      AcceptedExitsAreFresh(txs, observed, t, p, m);
      SpentNeverReturns(p, m, states, Inputs(txs));
    } else {
      RootReturns(p, m, states, Inputs(txs), RootsOf(t));
    }
  }

  lemma SpentNeverReturns(p: Plan, m: Unspent, states: seq<ExitState>, gone: seq<Outpoint>)
    requires IsTrace(p, m, states) && Fresh(p, m) && GoneFor(p, m, gone)
    ensures NeverReturns(states, gone)
  {
    forall i, o | 0 <= i < |states| && o in gone ensures o !in states[i].outputs {
      SpentOnce(p, m, states, gone, i);
      assert o in gone + ExitInputs(p, i);
    }
  }

  lemma RootReturns(p: Plan, m: Unspent, states: seq<ExitState>, gone: seq<Outpoint>, roots: set<Outpoint>)
    requires IsTrace(p, m, states) && !CreatesNoRoot(p, roots) && forall o :: o in roots ==> o in gone
    ensures !NeverReturns(states, gone)
  {
    var o, i :| o in roots && 0 <= i < |p.exits| && Creates(p.exits[i].tx, o);
    EffectKeys(p, i, states[i], states[i + 1], o);
  }
}
