/** An accepted graph and an accepted plan that together spend an outpoint twice and lose value: the graph declares
    as a root the output of the very transaction that is broadcast as its first exit. */
module ArkExitReissue {
  import opened ByteStrings
  import opened ArkGraph
  import ArkChain
  import opened ArkVerify
  import opened ArkExit
  import opened ArkExitLaws
  import opened ArkExitVerify
  import opened ArkExitGraph
  import opened ArkExitOrder

  // ----- the graph: `Lower` and `Upper` side by side, joined by `Join` -----

  const ANCHOR := Outpoint([1], 0)
  const SELECTED := Outpoint([2], 0)
  const FEE_CHILD := Outpoint([2], 1)
  const ROOT := Outpoint([3], 0)
  const KEPT := Outpoint([4], 1)

  function Lower(): Tx { Tx([2], [ANCHOR], [Output(10, []), Output(1, []), Output(5, [])]) }
  function First(): Tx { Tx([3], [SELECTED, FEE_CHILD], [Output(11, [])]) }
  function Upper(): Tx { Tx([4], [ROOT], [Output(4, []), Output(7, [9])]) }
  function Join(): Tx { Tx([5], [Outpoint([4], 0), Outpoint([2], 2)], [Output(9, [])]) }

  function Graph3(): seq<Tx> { [Lower(), Upper(), Join()] }
  function Seen(): seq<Observed> { [Observed(ANCHOR, Output(16, [])), Observed(ROOT, Output(11, []))] }
  function TheTerms(): Terms {
    Terms(ArkChain.Arkade, [ROOT], ANCHOR, SELECTED, 32, 64, 1000, 1000, 32, true, _ => 100, _ => 400, (_, _) => true,
          _ => true)
  }

  lemma Finds(txs: seq<Tx>)
    requires txs == Graph3()
    ensures Find(txs, [1]) == None && Find(txs, [2]) == Some(0) && Find(txs, [3]) == None && Find(txs, [4]) == Some(1)
    ensures Find(txs, [5]) == Some(2)
  {
  }

  lemma GraphInputs(txs: seq<Tx>)
    requires txs == Graph3()
    ensures Inputs(txs) == [ANCHOR, ROOT, Outpoint([4], 0), Outpoint([2], 2)]
  {
    assert txs[..2] == [Lower(), Upper()] && txs[..2][..1] == [Lower()] && [Lower()][..0] == [];
    assert Inputs([Lower()]) == [ANCHOR];
    assert Inputs([Lower(), Upper()]) == [ANCHOR, ROOT];
  }

  lemma SeenMap()
    ensures ObservedMapOf(Seen()) == map[ANCHOR := Output(16, []), ROOT := Output(11, [])]
  {
    var a, b := Seen()[0], Seen()[1];
    assert Seen()[..1] == [a] && [a][..0] == [];
    assert ObservedMapOf([a]) == map[ANCHOR := Output(16, [])];
  }

  lemma GraphRoots(txs: seq<Tx>)
    requires txs == Graph3()
    ensures External(txs, Inputs(txs)) == RootsOf(TheTerms()) == {ROOT, ANCHOR}
  {
    GraphInputs(txs);
    Finds(txs);
    var ins := Inputs(txs);
    assert ins[0] == ANCHOR && ins[1] == ROOT;
    assert Elems([ROOT]) == {ROOT};
  }

  lemma GraphSpends(txs: seq<Tx>, i: nat)
    requires txs == Graph3() && i < 3
    ensures TxSpends(txs, ObservedMapOf(Seen()), TheTerms(), i)
  {
    Finds(txs);
    SeenMap();
  }

  lemma GraphEdges(txs: seq<Tx>)
    requires txs == Graph3()
    ensures ParentGraph(txs) == [{}, {}, {0, 1}] && ChildGraph(ParentGraph(txs)) == [{2}, {2}, {}]
  {
    Finds(txs);
    var ins := txs[2].inputs;
    assert ins[0].txid == [4] && ins[1].txid == [2];
    assert Parents(txs, txs[0].inputs) == {} && Parents(txs, txs[1].inputs) == {} && Parents(txs, ins) == {0, 1};
    assert ParentGraph(txs) == [{}, {}, {0, 1}];
    ChildEdges(ParentGraph(txs));
  }

  lemma ChildEdges(deps: Graph)
    requires deps == [{}, {}, {0, 1}]
    ensures ChildGraph(deps) == [{2}, {2}, {}]
  {
    var g := ChildGraph(deps);
    assert g[0] == {2} && g[1] == {2} && g[2] == {};
  }

  lemma EdgesHold(deps: Graph, children: Graph)
    requires deps == [{}, {}, {0, 1}] && children == [{2}, {2}, {}]
    ensures Acyclic(deps) && AllReachable(deps, children, 0)
    ensures forall d: nat :: IsLongest(deps, 0, d) ==> d <= 1
  {
    var order: seq<nat> := [0, 1, 2];
    assert order[..0] == [] && order[..1] == [0] && order[..2] == [0, 1];
    assert Topological(deps, order) && Covers(deps, order);
    TopologicalIsAcyclic(deps, order);
    assert IsWalk(deps, children, [0]) && IsWalk(deps, children, [0, 2]) && IsWalk(deps, children, [0, 2, 1]);
    assert Reachable(deps, children, 0, 0) && Reachable(deps, children, 0, 2) && Reachable(deps, children, 0, 1);
    forall d: nat | IsLongest(deps, 0, d) ensures d <= 1 {
      var p :| IsPath(deps, p) && p[0] == 0 && |p| == d;
      FirstEdge(deps, p);
    }
  }

  lemma FirstEdge(g: Graph, p: seq<nat>)
    requires IsPath(g, p)
    ensures |p| > 1 ==> p[1] in g[p[0]]
  {
    if |p| > 1 { assert p[0 + 1] in g[p[0]]; }
  }

  lemma GraphShape(txs: seq<Tx>)
    requires txs == Graph3()
    ensures Acyclic(ParentGraph(txs)) && AllReachable(ParentGraph(txs), ChildGraph(ParentGraph(txs)), 0)
    ensures forall d: nat :: IsLongest(ParentGraph(txs), 0, d) ==> d <= 1
  {
    GraphEdges(txs);
    EdgesHold(ParentGraph(txs), ChildGraph(ParentGraph(txs)));
  }

  lemma GraphKeys(txs: seq<Tx>)
    requires txs == Graph3()
    ensures DistinctIds(txs) && DistinctObserved(Seen()) && NoDup(Inputs(txs))
    ensures ObservedMapOf(Seen()).Keys == RootsOf(TheTerms())
  {
    GraphInputs(txs);
    SeenMap();
    GraphRoots(txs);
  }

  lemma GraphIsDag(txs: seq<Tx>)
    requires txs == Graph3()
    ensures SpendDag(txs, Seen(), TheTerms())
  {
    GraphKeys(txs);
    GraphRoots(txs);
    GraphShape(txs);
    forall i | 0 <= i < |txs| ensures TxSpends(txs, ObservedMapOf(Seen()), TheTerms(), i) { GraphSpends(txs, i); }
  }

  lemma GraphIsDistinct(txs: seq<Tx>)
    requires txs == Graph3()
    ensures DistinctObserved(Seen() + Entries(txs))
  {
    GraphIsDag(txs);
    AcceptedGraphIsDistinct(txs, Seen(), TheTerms());
  }

  lemma GraphBounded(txs: seq<Tx>)
    requires txs == Graph3()
    ensures Bounded(txs, TheTerms())
  {
    var size := TheTerms().size;
    assert txs[..2][..1] == txs[..1] && txs[..1][..0] == [];
    assert TotalSize(txs[..1], size) == 100;
    assert TotalSize(txs[..2], size) == 200;
  }

  lemma GraphSelected(txs: seq<Tx>)
    requires txs == Graph3()
    ensures SelectedHolds(txs, TheTerms())
  {
    GraphInputs(txs);
    Finds(txs);
    GraphShape(txs);
  }

  // ----- what it leaves unspent -----

  ghost predicate Leaves(m: Unspent) {
    && SELECTED in m && m[SELECTED].value == 10 && FEE_CHILD in m && m[FEE_CHILD].value == 1
    && KEPT in m && m[KEPT].value == 7
  }

  lemma GraphLeaves(txs: seq<Tx>, m: Unspent)
    requires txs == Graph3() && DistinctObserved(Seen() + Entries(txs))
    requires m == ObservedMapOf(Seen() + Entries(txs)) - Elems(Inputs(txs))
    ensures Leaves(m)
  {
    GraphInputs(txs);
    UnspentValue(txs, Seen(), m, 0, 0);
    UnspentValue(txs, Seen(), m, 0, 1);
    UnspentValue(txs, Seen(), m, 1, 1);
  }

  lemma GraphIsAccepted(txs: seq<Tx>, m: Unspent)
    requires txs == Graph3() && m == ObservedMapOf(Seen() + Entries(txs)) - Elems(Inputs(txs))
    ensures AcceptedGraph(txs, Seen(), TheTerms(), m) && Leaves(m)
  {
    GraphIsDag(txs);
    GraphSelected(txs);
    GraphBounded(txs);
    GraphIsDistinct(txs);
    GraphLeaves(txs, m);
  }

  // ----- the plan -----

  function ThePlan(): Plan {
    Plan([Exit(First(), [3], None, 0, 0, 0, [], true), Exit(Upper(), [4], Some([3]), 0, 0, 0, [], true)],
         [FEE_CHILD], SELECTED, 0, [9], 0, None, (_, _) => true, _ => true)
  }

  lemma SumPair(x: Output, y: Output)
    ensures Sum([x]) == x.value && Sum([x, y]) == x.value + y.value
  {
    assert [x, y][..1] == [x] && [x][..0] == [];
  }

  lemma FirstInputs(p: Plan, m: Unspent)
    requires p == ThePlan() && Leaves(m)
    ensures SpendMany(p, None, First(), StartInputs(Start(m), 0), [SELECTED, FEE_CHILD])
            == Ok(InputState(m - {SELECTED} - {FEE_CHILD}, {FEE_CHILD}, [m[SELECTED], m[FEE_CHILD]], true, true))
  {
    var s0 := StartInputs(Start(m), 0);
    var s1 := InputState(m - {SELECTED}, {}, [m[SELECTED]], true, true);
    assert s0.prevouts + [m[SELECTED]] == s1.prevouts && p.recoveryPath(First());
    assert SpendOne(p, None, First(), s0, SELECTED) == Ok(s1);
    assert SpendMany(p, None, First(), s0, [SELECTED]) == Ok(s1) by { assert [SELECTED][..0] == []; }
    assert [SELECTED, FEE_CHILD][..1] == [SELECTED];
    assert s1.consumed + {FEE_CHILD} == {FEE_CHILD} && s1.prevouts + [m[FEE_CHILD]] == [m[SELECTED], m[FEE_CHILD]];
  }

  lemma FirstStep(p: Plan, m: Unspent) returns (s: ExitState)
    requires p == ThePlan() && Leaves(m)
    ensures Step(p, Start(m), 0) == Ok(s) && s.consumed == {FEE_CHILD} && s.totalFee == 0 && s.bytes == 0
    ensures s.previous == Some([3]) && ROOT in s.outputs && s.outputs[ROOT].value == 11
  {
    FirstInputs(p, m);
    SumPair(m[SELECTED], m[FEE_CHILD]);
    SumPair(Output(11, []), Output(11, []));
    s := Step(p, Start(m), 0).value;
    InsertOne(m - {SELECTED} - {FEE_CHILD}, First());
  }

  lemma InsertOne(m: Unspent, tx: Tx)
    requires |tx.outputs| == 1
    ensures InsertOutputs(m, tx, 1) == m[Outpoint(tx.id, 0) := tx.outputs[0]]
  {
    assert InsertOutputs(m, tx, 0) == m;
  }

  lemma SecondStep(p: Plan, s: ExitState)
    requires p == ThePlan() && s.consumed == {FEE_CHILD} && s.totalFee == 0 && s.bytes == 0
    requires s.previous == Some([3]) && ROOT in s.outputs && s.outputs[ROOT].value == 11
    ensures Step(p, s, 1).Ok? && Step(p, s, 1).value.consumed == {FEE_CHILD}
  {
    var s0 := StartInputs(s, 1);
    assert SpendMany(p, s.previous, Upper(), s0, [ROOT]) == SpendOne(p, s.previous, Upper(), s0, ROOT) by {
      assert [ROOT][..0] == [];
    }
    SumPair(s.outputs[ROOT], s.outputs[ROOT]);
    SumPair(Output(4, []), Output(7, [9]));
    CountPair(Output(4, []), Output(7, [9]), [9]);
  }

  lemma CountPair(x: Output, y: Output, script: Bytes)
    requires x.script != script && y.script == script
    ensures CountScript([x, y], script) == 1
  {
    assert [x, y][..1] == [x] && [x][..0] == [];
    assert CountScript([x], script) == 0;
  }

  lemma PlanAccepted(p: Plan, m: Unspent)
    requires p == ThePlan() && Leaves(m)
    ensures Accepts(p, m)
  {
    var s := FirstStep(p, m);
    SecondStep(p, s);
    AfterNext(p, Start(m), 0, Start(m));
    AfterNext(p, Start(m), 1, s);
    assert Elems(p.feeChildren) == {FEE_CHILD};
  }

  // ----- together -----

  /** The failing run: nothing collides and every identifier comes after those it spends, yet the root is spent by
      the graph and again by the second exit, which also overwrites an unspent output of the graph. */
  lemma RootSpentTwice()
    returns (txs: seq<Tx>, observed: seq<Observed>, t: Terms, p: Plan, m: Unspent, rank: Bytes -> nat)
    ensures AcceptedGraph(txs, observed, t, m) && Accepts(p, m) && NoCollision(txs, p) && Ordered(p, rank)
    ensures !CreatesNoRoot(p, RootsOf(t)) && !SpendsNoRoot(p, RootsOf(t))
    ensures !NoDup(Inputs(txs) + ExitInputs(p, |p.exits|))
    ensures var s := After(p, Start(m), |p.exits|).value; Total(m) > Total(s.outputs) + s.totalFee
  {
    txs, observed, t, p := Graph3(), Seen(), TheTerms(), ThePlan();
    m := ObservedMapOf(observed + Entries(txs)) - Elems(Inputs(txs));
    rank := (id: Bytes) => if id == [] then 0 else id[0];
    GraphIsAccepted(txs, m);
    PlanAccepted(p, m);
    Together(txs, p, m, rank);
  }

  lemma Together(txs: seq<Tx>, p: Plan, m: Unspent, rank: Bytes -> nat)
    requires txs == Graph3() && p == ThePlan() && Accepts(p, m) && Leaves(m)
    requires forall id: Bytes :: id != [] ==> rank(id) == id[0]
    ensures NoCollision(txs, p) && Ordered(p, rank)
    ensures !CreatesNoRoot(p, RootsOf(TheTerms())) && !SpendsNoRoot(p, RootsOf(TheTerms()))
    ensures !NoDup(Inputs(txs) + ExitInputs(p, |p.exits|))
    ensures var s := After(p, Start(m), |p.exits|).value; Total(m) > Total(s.outputs) + s.totalFee
  {
    NothingCollides(txs, p);
    RanksGrow(p, rank);
    RootTwice(txs, p);
    assert Creates(p.exits[0].tx, ROOT) && ROOT in p.exits[1].tx.inputs && ROOT in RootsOf(TheTerms());
    assert !Untouched(m, p.exits[1].tx, 1);
    ReissueLoses(p, m, rank);
  }

  lemma NothingCollides(txs: seq<Tx>, p: Plan)
    requires txs == Graph3() && p == ThePlan()
    ensures NoCollision(txs, p)
  {
  }

  lemma RanksGrow(p: Plan, rank: Bytes -> nat)
    requires p == ThePlan() && forall id: Bytes :: id != [] ==> rank(id) == id[0]
    ensures Ordered(p, rank)
  {
    assert forall o :: o in First().inputs ==> o.txid == [2];
    assert forall o :: o in Upper().inputs ==> o.txid == [3];
  }

  lemma ReissueLoses(p: Plan, m: Unspent, rank: Bytes -> nat)
    requires Accepts(p, m) && Ordered(p, rank) && !ReissuesNothing(p, m)
    ensures var s := After(p, Start(m), |p.exits|).value; Total(m) > Total(s.outputs) + s.totalFee
  {
    ConservedExactly(p, m, rank);
    var states := TraceOf(p, m);
    ConservationExact(p, m, states, |p.exits|);
  }

  lemma RootTwice(txs: seq<Tx>, p: Plan)
    requires txs == Graph3() && p == ThePlan()
    ensures !NoDup(Inputs(txs) + ExitInputs(p, |p.exits|))
  {
    GraphInputs(txs);
    assert ExitInputs(p, 1) == [SELECTED, FEE_CHILD] by { assert ExitInputs(p, 0) == []; }
    var all := Inputs(txs) + ExitInputs(p, 2);
    assert all[1] == ROOT && all[6] == ROOT;
  }
}
