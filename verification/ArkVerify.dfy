/** Verification of a signed VTXO graph: which spends it admits, and what acceptance guarantees.
    Transactions arrive decoded, with their identifiers; signatures and contract terms are predicates. */
module ArkVerify {
  import opened ByteStrings
  import opened ArkGraph
  import opened ArkChain

  const MAX_ARK_INPUT_VTXOS := 32
  const MAX_ARK_GRAPH_TRANSACTIONS := 64
  const MAX_ARK_GRAPH_BYTES := 262_144
  const MAX_ARK_PARENT_EDGES := 32

  datatype Outpoint = Outpoint(txid: Bytes, index: nat)
  datatype Output = Output(value: U64, script: Bytes)
  datatype Tx = Tx(id: Bytes, inputs: seq<Outpoint>, outputs: seq<Output>)
  datatype Observed = Observed(outpoint: Outpoint, output: Output)

  datatype ArkError = GraphInvalid | VtxoInvalid | OperatorMismatch

  /** Operator policy, contract terms and the checks kept abstract; `bound` stands for the operator binding and
      the digest of the signed graph. */
  datatype Terms = Terms(
    family: Family,
    inputVtxos: seq<Outpoint>,
    anchor: Outpoint,
    selected: Outpoint,
    maximumInputs: nat,
    maximumTransactions: nat,
    maximumBytes: nat,
    maximumWeight: nat,
    maximumParentEdges: nat,
    bound: bool,
    size: Tx -> nat,
    weight: Tx -> nat,
    signed: (Tx, seq<Output>) -> bool,
    termsHold: Output -> bool)

  // ----- what is being checked -----

  function Find(txs: seq<Tx>, id: Bytes): (r: Option<nat>)
    ensures r.Some? ==> r.value < |txs| && txs[r.value].id == id
    ensures r.None? ==> forall i :: 0 <= i < |txs| ==> txs[i].id != id
  {
    if txs == [] then None
    else if txs[|txs| - 1].id == id then Some(|txs| - 1)
    else Find(txs[..|txs| - 1], id)
  }

  ghost predicate DistinctIds(txs: seq<Tx>) {
    forall i, j :: 0 <= i < j < |txs| ==> txs[i].id != txs[j].id
  }

  /** The output an input spends: an output of the graph when its transaction is in the graph, an observed one
      otherwise. */
  function Resolve(txs: seq<Tx>, roots: map<Outpoint, Output>, o: Outpoint): Option<Output> {
    match Find(txs, o.txid)
    case Some(j) => if o.index < |txs[j].outputs| then Some(txs[j].outputs[o.index]) else None
    case None => if o in roots then Some(roots[o]) else None
  }

  ghost predicate AllResolve(txs: seq<Tx>, roots: map<Outpoint, Output>, ins: seq<Outpoint>) {
    forall k :: 0 <= k < |ins| ==> Resolve(txs, roots, ins[k]).Some?
  }

  ghost function Prevouts(txs: seq<Tx>, roots: map<Outpoint, Output>, ins: seq<Outpoint>): (p: seq<Output>)
    requires AllResolve(txs, roots, ins)
    ensures |p| == |ins| && forall k :: 0 <= k < |ins| ==> p[k] == Resolve(txs, roots, ins[k]).value
  {
    seq(|ins|, k requires 0 <= k < |ins| => Resolve(txs, roots, ins[k]).value)
  }

  /** All inputs of the first transactions, in order. */
  ghost function Inputs(txs: seq<Tx>): seq<Outpoint> {
    if txs == [] then [] else Inputs(txs[..|txs| - 1]) + txs[|txs| - 1].inputs
  }

  function Elems(s: seq<Outpoint>): set<Outpoint> { set o | o in s }

  lemma ElemsAppend(a: seq<Outpoint>, b: seq<Outpoint>)
    ensures Elems(a + b) == Elems(a) + Elems(b)
  {
  }

  ghost predicate NoDup<T>(s: seq<T>) { forall i, j :: 0 <= i < j < |s| ==> s[i] != s[j] }

  /** Indices of the transactions one of whose outputs `ins` spends. */
  ghost function Parents(txs: seq<Tx>, ins: seq<Outpoint>): set<nat> {
    set k | 0 <= k < |ins| && Find(txs, ins[k].txid).Some? :: Find(txs, ins[k].txid).value
  }

  /** The inputs that leave the graph. */
  ghost function External(txs: seq<Tx>, ins: seq<Outpoint>): set<Outpoint> {
    set k | 0 <= k < |ins| && Find(txs, ins[k].txid).None? :: ins[k]
  }

  /** The parent sets and, turned around, the child sets of all transactions. */
  ghost function ParentGraph(txs: seq<Tx>): (g: Graph)
    ensures |g| == |txs| && forall i :: 0 <= i < |txs| ==> g[i] == Parents(txs, txs[i].inputs)
  {
    seq(|txs|, i requires 0 <= i < |txs| => Parents(txs, txs[i].inputs))
  }

  ghost function ChildGraph(deps: Graph): (g: Graph)
    ensures |g| == |deps|
    ensures forall j: nat, i: nat {:trigger i in g[j]} :: 0 <= j < |deps| ==>
            (i in g[j] <==> 0 <= i < |deps| && j in deps[i])
  {
    seq(|deps|, j requires 0 <= j < |deps| => set i | 0 <= i < |deps| && j in deps[i])
  }

  ghost predicate TxSpends(txs: seq<Tx>, roots: map<Outpoint, Output>, t: Terms, i: nat)
    requires i < |txs|
  {
    AllResolve(txs, roots, txs[i].inputs) && t.signed(txs[i], Prevouts(txs, roots, txs[i].inputs))
  }

  // ----- bounds -----

  /** Bytes in lexicographic order. */
  predicate BytesLess(a: Bytes, b: Bytes) {
    if b == [] then false else if a == [] then true
    else a[0] < b[0] || (a[0] == b[0] && BytesLess(a[1..], b[1..]))
  }

  predicate OutpointLess(a: Outpoint, b: Outpoint) {
    BytesLess(a.txid, b.txid) || (a.txid == b.txid && a.index < b.index)
  }

  lemma {:induction false} BytesOrder(a: Bytes, b: Bytes, c: Bytes)
    ensures !BytesLess(a, a)
    ensures BytesLess(a, b) && BytesLess(b, c) ==> BytesLess(a, c)
  {
    if a != [] && b != [] && c != [] {
      BytesOrder(a[1..], b[1..], c[1..]);
    } else if a != [] {
      BytesOrder(a[1..], a[1..], a[1..]);
    }
  }

  /** Every declared input comes before the next one. */
  predicate Ascending(s: seq<Outpoint>) { forall i :: 0 <= i < |s| - 1 ==> OutpointLess(s[i], s[i + 1]) }

  lemma {:induction false} AscendingFar(s: seq<Outpoint>, i: nat, j: nat)
    requires Ascending(s) && i < j < |s|
    ensures OutpointLess(s[i], s[j])
    decreases j
  {
    if i < j - 1 {
      AscendingFar(s, i, j - 1);
      BytesOrder(s[i].txid, s[j - 1].txid, s[j].txid);
    }
    assert OutpointLess(s[j - 1], s[j - 1 + 1]);
  }

  /** Ascending inputs are distinct, so counting them as a set adds nothing to the ordering check. */
  lemma AscendingIsDistinct(s: seq<Outpoint>)
    requires Ascending(s)
    ensures NoDup(s)
  {
    forall i, j | 0 <= i < j < |s| ensures s[i] != s[j] {
      AscendingFar(s, i, j);
      BytesOrder(s[i].txid, s[i].txid, s[i].txid);
    }
  }

  function TotalSize(txs: seq<Tx>, size: Tx -> nat): nat {
    if txs == [] then 0 else TotalSize(txs[..|txs| - 1], size) + size(txs[|txs| - 1])
  }

  /** The counts, the ordering, the weights and the sizes are within the limits of the operator and the profile. */
  ghost predicate Bounded(txs: seq<Tx>, t: Terms) {
    && 0 < |t.inputVtxos| <= t.maximumInputs && |t.inputVtxos| <= MAX_ARK_INPUT_VTXOS
    && 0 < |txs| <= t.maximumTransactions && |txs| <= MAX_ARK_GRAPH_TRANSACTIONS
    && Ascending(t.inputVtxos)
    && (forall i :: 0 <= i < |txs| ==> t.weight(txs[i]) <= t.maximumWeight)
    && TotalSize(txs, t.size) <= t.maximumBytes && TotalSize(txs, t.size) <= MAX_ARK_GRAPH_BYTES
  }

  method CheckBounds(txs: seq<Tx>, t: Terms) returns (ok: bool)
    ensures ok <==> Bounded(txs, t)
  {
    if t.inputVtxos == [] || |t.inputVtxos| > t.maximumInputs || |t.inputVtxos| > MAX_ARK_INPUT_VTXOS
       || txs == [] || |txs| > t.maximumTransactions || |txs| > MAX_ARK_GRAPH_TRANSACTIONS
    {
      return false;
    }
    for i := 1 to |t.inputVtxos|
      invariant forall k :: 0 <= k < i - 1 ==> OutpointLess(t.inputVtxos[k], t.inputVtxos[k + 1])
    {
      if !OutpointLess(t.inputVtxos[i - 1], t.inputVtxos[i]) {
        assert !OutpointLess(t.inputVtxos[i - 1], t.inputVtxos[i - 1 + 1]);
        return false;
      }
    }
    var bytes := 0;
    for i := 0 to |txs|
      invariant bytes == TotalSize(txs[..i], t.size)
      invariant forall k :: 0 <= k < i ==> t.weight(txs[k]) <= t.maximumWeight
    {
      bytes := bytes + t.size(txs[i]);
      assert txs[..i + 1][..i] == txs[..i];
      if t.weight(txs[i]) > t.maximumWeight {
        return false;
      }
    }
    assert txs[..|txs|] == txs;
    return bytes <= t.maximumBytes && bytes <= MAX_ARK_GRAPH_BYTES;
  }

  // ----- the loops -----

  method IndexTransactions(txs: seq<Tx>) returns (r: Result<map<Bytes, nat>, ArkError>)
    ensures r.Ok? <==> DistinctIds(txs)
    ensures r.Ok? ==> IsIndex(txs, r.value)
  {
    var byId: map<Bytes, nat> := map[];
    for i := 0 to |txs|
      invariant DistinctIds(txs[..i])
      invariant IsIndex(txs[..i], byId)
    {
      assert txs[..i + 1][..i] == txs[..i];
      if txs[i].id in byId {
        assert txs[Find(txs[..i], txs[i].id).value].id == txs[i].id;
        return Err(GraphInvalid);
      }
      byId := byId[txs[i].id := i];
    }
    assert txs[..|txs|] == txs;
    return Ok(byId);
  }

  ghost predicate DistinctObserved(observed: seq<Observed>) {
    forall i, j :: 0 <= i < j < |observed| ==> observed[i].outpoint != observed[j].outpoint
  }

  ghost function ObservedMapOf(observed: seq<Observed>): map<Outpoint, Output> {
    if observed == [] then map[]
    else var last := observed[|observed| - 1]; ObservedMapOf(observed[..|observed| - 1])[last.outpoint := last.output]
  }

  lemma {:induction false} ObservedKeys(observed: seq<Observed>, o: Outpoint)
    ensures o in ObservedMapOf(observed) <==> exists i :: 0 <= i < |observed| && observed[i].outpoint == o
  {
    if observed != [] {
      var front, last := observed[..|observed| - 1], observed[|observed| - 1];
      ObservedKeys(front, o);
      if o in ObservedMapOf(front) {
        var i :| 0 <= i < |front| && front[i].outpoint == o;
        assert observed[i].outpoint == o;
      }
      if exists i :: 0 <= i < |observed| && observed[i].outpoint == o {
        var i :| 0 <= i < |observed| && observed[i].outpoint == o;
        if i < |front| { assert front[i].outpoint == o; }
      }
    }
  }

  method ObservedOutputMap(observed: seq<Observed>) returns (r: Result<map<Outpoint, Output>, ArkError>)
    ensures r.Ok? <==> DistinctObserved(observed)
    ensures r.Ok? ==> r.value == ObservedMapOf(observed)
  {
    var m: map<Outpoint, Output> := map[];
    for i := 0 to |observed|
      invariant DistinctObserved(observed[..i]) && m == ObservedMapOf(observed[..i])
    {
      ObservedKeys(observed[..i], observed[i].outpoint);
      assert observed[..i + 1][..i] == observed[..i];
      if observed[i].outpoint in m {
        var j :| 0 <= j < i && observed[..i][j].outpoint == observed[i].outpoint;
        assert observed[j].outpoint == observed[i].outpoint;
        return Err(GraphInvalid);
      }
      m := m[observed[i].outpoint := observed[i].output];
    }
    assert observed[..|observed|] == observed;
    return Ok(m);
  }

  lemma NoDupSnoc<T>(s: seq<T>, x: T)
    ensures NoDup(s + [x]) <==> NoDup(s) && x !in s
  {
    var longer := s + [x];
    if NoDup(longer) {
      forall i, j | 0 <= i < j < |s| ensures s[i] != s[j] { assert longer[i] != longer[j]; }
      forall i | 0 <= i < |s| ensures s[i] != x { assert longer[i] != longer[|s|]; }
    }
  }

  lemma NoDupPrefix<T>(s: seq<T>, k: nat)
    requires k <= |s| && NoDup(s)
    ensures NoDup(s[..k])
  {
  }

  /** Where the input loop stands after the inputs `done`. */
  ghost predicate Progress(txs: seq<Tx>, roots: map<Outpoint, Output>, before: seq<Outpoint>, done: seq<Outpoint>,
                           spent: set<Outpoint>, external: set<Outpoint>, parents: set<nat>, prevouts: seq<Output>)
  {
    && NoDup(before + done) && (forall o :: o in spent <==> o in before + done)
    && AllResolve(txs, roots, done) && prevouts == Prevouts(txs, roots, done)
    && external == External(txs, done) && parents == Parents(txs, done)
  }

  lemma ProgressStep(txs: seq<Tx>, roots: map<Outpoint, Output>, before: seq<Outpoint>, done: seq<Outpoint>,
                     o: Outpoint,
                     spent: set<Outpoint>, external: set<Outpoint>, parents: set<nat>, prevouts: seq<Output>)
    requires Progress(txs, roots, before, done, spent, external, parents, prevouts)
    requires o !in spent && Resolve(txs, roots, o).Some?
    ensures var f := Find(txs, o.txid);
            Progress(txs, roots, before, done + [o], spent + {o}, external + (if f.None? then {o} else {}),
                     parents + (if f.Some? then {f.value} else {}), prevouts + [Resolve(txs, roots, o).value])
  {
    var f, longer := Find(txs, o.txid), done + [o];
    assert before + longer == (before + done) + [o];
    NoDupSnoc(before + done, o);
    assert Prevouts(txs, roots, longer) == prevouts + [Resolve(txs, roots, o).value];
    assert External(txs, longer) == External(txs, done) + (if f.None? then {o} else {}) by {
      assert forall k :: 0 <= k < |done| ==> longer[k] == done[k];
      assert longer[|done|] == o;
    }
    assert Parents(txs, longer) == Parents(txs, done) + (if f.Some? then {f.value} else {}) by {
      assert forall k :: 0 <= k < |done| ==> longer[k] == done[k];
      assert longer[|done|] == o;
    }
  }

  /** `i` has been added to the child sets of exactly its parents. */
  ghost predicate Linked(children: Graph, children': Graph, parents: set<nat>, i: nat) {
    && |children'| == |children|
    && forall j :: 0 <= j < |children| ==> children'[j] == children[j] + (if j in parents then {i} else {})
  }

  /** Spends the inputs of one transaction. */
  method SpendInputs(txs: seq<Tx>, byId: map<Bytes, nat>, roots: map<Outpoint, Output>, i: nat,
                     spent: set<Outpoint>, children: Graph, ghost before: seq<Outpoint>)
    returns (r: Result<seq<Output>, ArkError>, spent': set<Outpoint>, external: set<Outpoint>, parents: set<nat>,
             children': Graph)
    requires i < |txs| && |children| == |txs| && (forall o :: o in spent <==> o in before) && NoDup(before)
    requires IsIndex(txs, byId)
    ensures r.Ok? <==> AllResolve(txs, roots, txs[i].inputs) && NoDup(before + txs[i].inputs)
    ensures r.Ok? ==> && Progress(txs, roots, before, txs[i].inputs, spent', external, parents, r.value)
                      && Linked(children, children', parents, i)
  {
    var prevouts := [];
    spent', external, parents, children' := spent, {}, {}, children;
    var ins := txs[i].inputs;
    assert ins[..0] == [] && before + [] == before;
    for k := 0 to |ins|
      invariant Progress(txs, roots, before, ins[..k], spent', external, parents, prevouts)
      invariant Linked(children, children', parents, i)
    {
      var o := ins[k];
      InputRefused(txs, roots, before, ins, k);
      if o in spent' {
        return Err(GraphInvalid), spent', external, parents, children';
      }
      var j := if o.txid in byId then byId[o.txid] else 0;
      if if o.txid in byId then o.index >= |txs[j].outputs| else o !in roots {
        return Err(GraphInvalid), spent', external, parents, children';
      }
      ProgressStep(txs, roots, before, ins[..k], o, spent', external, parents, prevouts);
      PrefixSnoc(ins, k);
      if o.txid in byId {
        parents := parents + {j};
        children' := children'[j := children'[j] + {i}];
        prevouts := prevouts + [txs[j].outputs[o.index]];
      } else {
        external := external + {o};
        prevouts := prevouts + [roots[o]];
      }
      spent' := spent' + {o};
    }
    assert ins[..|ins|] == ins;
    r := Ok(prevouts);
  }

  lemma PrefixSnoc<T>(s: seq<T>, k: nat)
    requires k < |s|
    ensures s[..k + 1] == s[..k] + [s[k]]
  {
  }

  ghost predicate IsIndex(txs: seq<Tx>, byId: map<Bytes, nat>) {
    forall id :: (id in byId <==> Find(txs, id).Some?) && (id in byId ==> byId[id] == Find(txs, id).value)
  }

  /** A repeated or unresolved input is a defect of the whole list. */
  lemma InputRefused(txs: seq<Tx>, roots: map<Outpoint, Output>, before: seq<Outpoint>, ins: seq<Outpoint>, k: nat)
    requires k < |ins|
    ensures ins[k] in before + ins[..k] ==> !NoDup(before + ins)
    ensures Resolve(txs, roots, ins[k]).None? ==> !AllResolve(txs, roots, ins)
  {
    var shorter := before + ins[..k];
    assert shorter + [ins[k]] == (before + ins)[..|shorter| + 1];
    if NoDup(before + ins) {
      NoDupPrefix(before + ins, |shorter| + 1);
      NoDupSnoc(shorter, ins[k]);
    }
  }

  // ----- the whole graph -----

  lemma {:induction false} InputsPrefix(txs: seq<Tx>, i: nat)
    requires i <= |txs|
    ensures |Inputs(txs[..i])| <= |Inputs(txs)| && Inputs(txs[..i]) == Inputs(txs)[..|Inputs(txs[..i])|]
    decreases |txs|
  {
    if i == |txs| {
      assert txs[..i] == txs;
    } else {
      InputsPrefix(txs[..|txs| - 1], i);
      assert txs[..|txs| - 1][..i] == txs[..i];
    }
  }

  lemma ExternalAdd(txs: seq<Tx>, a: seq<Outpoint>, b: seq<Outpoint>)
    ensures External(txs, a + b) == External(txs, a) + External(txs, b)
  {
    var whole := a + b;
    forall o ensures o in External(txs, whole) <==> o in External(txs, a) + External(txs, b) {
      if o in External(txs, a) {
        var k :| 0 <= k < |a| && Find(txs, a[k].txid).None? && a[k] == o;
        assert whole[k] == o;
      }
      if o in External(txs, b) {
        var k :| 0 <= k < |b| && Find(txs, b[k].txid).None? && b[k] == o;
        assert whole[|a| + k] == o;
      }
      if o in External(txs, whole) {
        var k :| 0 <= k < |whole| && Find(txs, whole[k].txid).None? && whole[k] == o;
        if k < |a| { assert a[k] == o; } else { assert b[k - |a|] == o; }
      }
    }
  }

  /** `children` holds the edges of the first transactions, turned around. */
  ghost predicate PartlyTransposed(deps: Graph, children: Graph) {
    forall j: nat, i: nat {:trigger i in children[j]} :: 0 <= j < |children| ==>
      (i in children[j] <==> 0 <= i < |deps| && j in deps[i])
  }

  datatype Spends = Spends(spent: set<Outpoint>, external: set<Outpoint>, deps: Graph, children: Graph)

  /** Where the transaction loop stands after `i` transactions. */
  ghost predicate Collected(txs: seq<Tx>, roots: map<Outpoint, Output>, t: Terms, i: nat, s: Spends) {
    && i <= |txs| && NoDup(Inputs(txs[..i])) && (forall o :: o in s.spent <==> o in Inputs(txs[..i]))
    && (forall m :: 0 <= m < i ==> TxSpends(txs, roots, t, m))
    && s.external == External(txs, Inputs(txs[..i]))
    && |s.deps| == i && (forall m :: 0 <= m < i ==> s.deps[m] == Parents(txs, txs[m].inputs))
    && |s.children| == |txs| && PartlyTransposed(s.deps, s.children)
  }

  lemma CollectedStep(txs: seq<Tx>, roots: map<Outpoint, Output>, t: Terms, i: nat, s: Spends,
                      spent: set<Outpoint>, external: set<Outpoint>, parents: set<nat>, children: Graph,
                      prevouts: seq<Output>)
    requires i < |txs| && Collected(txs, roots, t, i, s)
    requires Progress(txs, roots, Inputs(txs[..i]), txs[i].inputs, spent, external, parents, prevouts)
    requires Linked(s.children, children, parents, i) && t.signed(txs[i], prevouts)
    ensures Collected(txs, roots, t, i + 1, Spends(spent, s.external + external, s.deps + [parents], children))
  {
    assert txs[..i + 1][..i] == txs[..i];
    assert Inputs(txs[..i + 1]) == Inputs(txs[..i]) + txs[i].inputs;
    ExternalAdd(txs, Inputs(txs[..i]), txs[i].inputs);
    TransposeStep(s.deps, s.children, parents, children);
    assert TxSpends(txs, roots, t, i);
  }

  lemma TransposeStep(deps: Graph, children: Graph, parents: set<nat>, children': Graph)
    requires PartlyTransposed(deps, children) && Linked(children, children', parents, |deps|)
    ensures PartlyTransposed(deps + [parents], children')
  {
    var longer := deps + [parents];
    forall j: nat, i: nat | 0 <= j < |children'| ensures i in children'[j] <==> 0 <= i < |longer| && j in longer[i] {
      assert children'[j] == children[j] + (if j in parents then {|deps|} else {});
      assert i in children[j] <==> 0 <= i < |deps| && j in deps[i];
      if 0 <= i < |deps| { assert longer[i] == deps[i]; } else if i == |deps| { assert longer[i] == parents; }
    }
  }

  /** A transaction that cannot be spent from, or a repeated input, is a defect of the whole graph. */
  lemma SpendRefused(txs: seq<Tx>, roots: map<Outpoint, Output>, i: nat)
    requires i < |txs| && !(AllResolve(txs, roots, txs[i].inputs) && NoDup(Inputs(txs[..i]) + txs[i].inputs))
    ensures !NoDup(Inputs(txs)) || !AllResolve(txs, roots, txs[i].inputs)
  {
    InputsPrefix(txs, i + 1);
    assert txs[..i + 1][..i] == txs[..i];
    if NoDup(Inputs(txs)) { NoDupPrefix(Inputs(txs), |Inputs(txs[..i + 1])|); }
  }

  method CollectSpends(txs: seq<Tx>, byId: map<Bytes, nat>, roots: map<Outpoint, Output>, t: Terms)
    returns (r: Result<Spends, ArkError>)
    requires IsIndex(txs, byId)
    ensures r.Ok? <==> NoDup(Inputs(txs)) && forall i :: 0 <= i < |txs| ==> TxSpends(txs, roots, t, i)
    ensures r.Ok? ==> Collected(txs, roots, t, |txs|, r.value)
  {
    var s := Spends({}, {}, [], seq(|txs|, _ => {}));
    assert txs[..0] == [];
    for i := 0 to |txs|
      invariant Collected(txs, roots, t, i, s)
    {
      var prevouts, spent, external, parents, children :=
        SpendInputs(txs, byId, roots, i, s.spent, s.children, Inputs(txs[..i]));
      if prevouts.Err? {
        SpendRefused(txs, roots, i);
        assert !NoDup(Inputs(txs)) || !TxSpends(txs, roots, t, i);
        return Err(GraphInvalid);
      }
      if !t.signed(txs[i], prevouts.value) {
        assert !TxSpends(txs, roots, t, i);
        return Err(GraphInvalid);
      }
      CollectedStep(txs, roots, t, i, s, spent, external, parents, children, prevouts.value);
      s := Spends(spent, s.external + external, s.deps + [parents], children);
    }
    assert txs[..|txs|] == txs;
    return Ok(s);
  }

  function RootsOf(t: Terms): set<Outpoint> { Elems(t.inputVtxos) + {t.anchor} }

  /** Everything the graph must satisfy before it is connected to the selected output. */
  ghost predicate SpendDag(txs: seq<Tx>, observed: seq<Observed>, t: Terms) {
    && DistinctIds(txs) && DistinctObserved(observed) && ObservedMapOf(observed).Keys == RootsOf(t)
    && NoDup(Inputs(txs)) && (forall i :: 0 <= i < |txs| ==> TxSpends(txs, ObservedMapOf(observed), t, i))
    && External(txs, Inputs(txs)) == RootsOf(t)
    && Acyclic(ParentGraph(txs))
    && VerifyFamilyTopology(t.family, ParentGraph(txs), ChildGraph(ParentGraph(txs)))
  }

  /** Everything it must satisfy about the selected output. */
  ghost predicate SelectedHolds(txs: seq<Tx>, t: Terms) {
    && Find(txs, t.selected.txid).Some?
    && var s := Find(txs, t.selected.txid).value;
    && AllReachable(ParentGraph(txs), ChildGraph(ParentGraph(txs)), s)
    && t.selected !in Inputs(txs) && t.selected.index < |txs[s].outputs|
    && (forall d: nat :: IsLongest(ParentGraph(txs), s, d) ==> d <= t.maximumParentEdges && d <= MAX_ARK_PARENT_EDGES)
    && t.termsHold(txs[s].outputs[t.selected.index])
  }

  lemma GraphShape(txs: seq<Tx>, s: Spends, roots: map<Outpoint, Output>, t: Terms)
    requires Collected(txs, roots, t, |txs|, s)
    ensures s.deps == ParentGraph(txs) && s.children == ChildGraph(ParentGraph(txs)) && txs[..|txs|] == txs
    ensures Closed(s.deps) && Closed(s.children) && Transposed(s.deps, s.children)
  {
    assert txs[..|txs|] == txs;
    assert s.deps == ParentGraph(txs);
    forall j: nat | j < |txs| ensures s.children[j] == ChildGraph(s.deps)[j] {
      forall i: nat ensures i in s.children[j] <==> i in ChildGraph(s.deps)[j] {}
    }
  }

  lemma NeverOutOfRange(deps: Graph, children: Graph, s: nat)
    requires s < |deps| == |children| && Closed(deps) && Closed(children)
    ensures forall j: nat :: Reachable(deps, children, s, j) ==> j < |deps|
  {
    forall j: nat | Reachable(deps, children, s, j) ensures j < |deps| {
      var p :| IsWalk(deps, children, p) && p[0] == s && p[|p| - 1] == j;
      WalkStays(deps, children, Range(|deps|), p);
    }
  }

  /** The checks on the selected output. */
  method CheckSelected(txs: seq<Tx>, byId: map<Bytes, nat>, s: Spends, t: Terms, ghost order: seq<nat>)
    returns (r: Result<(Output, nat), ArkError>)
    requires IsIndex(txs, byId) && s.deps == ParentGraph(txs) && s.children == ChildGraph(s.deps)
    requires Closed(s.deps) && Closed(s.children) && (forall o :: o in s.spent <==> o in Inputs(txs))
    requires Topological(s.deps, order) && Covers(s.deps, order)
    ensures r.Ok? <==> SelectedHolds(txs, t)
    ensures r.Ok? ==> r.value.0 == txs[Find(txs, t.selected.txid).value].outputs[t.selected.index] &&
                      IsLongest(ParentGraph(txs), Find(txs, t.selected.txid).value, r.value.1)
  {
    if t.selected.txid !in byId {
      return Err(VtxoInvalid);
    }
    var index := byId[t.selected.txid];
    NeverOutOfRange(s.deps, s.children, index);
    var connected := GraphIsConnected(index, s.deps, s.children);
    if !connected.value {
      return Err(GraphInvalid);
    }
    if t.selected in s.spent || t.selected.index >= |txs[index].outputs| {
      return Err(VtxoInvalid);
    }
    var edges := MaximumParentDepth(index, s.deps, order);
    EdgeBound(s.deps, index, edges.value, t.maximumParentEdges);
    if edges.value == 0 || edges.value > t.maximumParentEdges || edges.value > MAX_ARK_PARENT_EDGES {
      return Err(GraphInvalid);
    }
    var output := txs[index].outputs[t.selected.index];
    if !t.termsHold(output) {
      return Err(VtxoInvalid);
    }
    return Ok((output, edges.value));
  }

  lemma EdgeBound(g: Graph, i: nat, d: nat, m: nat)
    requires IsLongest(g, i, d)
    ensures (d <= m && d <= MAX_ARK_PARENT_EDGES)
            <==> (forall e: nat :: IsLongest(g, i, e) ==> e <= m && e <= MAX_ARK_PARENT_EDGES)
  {
    forall e: nat | IsLongest(g, i, e) ensures e == d { LongestUnique(g, i, e, d); }
  }

  /** Acceptance is equivalent to being a well-formed spend graph with a usable selected output. */
  method VerifyArkGraph(txs: seq<Tx>, observed: seq<Observed>, t: Terms) returns (r: Result<(Output, nat), ArkError>)
    ensures r.Ok? <==> t.bound && Bounded(txs, t) && SpendDag(txs, observed, t) && SelectedHolds(txs, t)
    ensures r.Ok? ==> r.value.0 == txs[Find(txs, t.selected.txid).value].outputs[t.selected.index]
    ensures r.Ok? ==> IsLongest(ParentGraph(txs), Find(txs, t.selected.txid).value, r.value.1)
  {
    if !t.bound {
      return Err(OperatorMismatch);
    }
    var bounded := CheckBounds(txs, t);
    if !bounded {
      return Err(GraphInvalid);
    }
    var byId :- IndexTransactions(txs);
    var roots :- ObservedOutputMap(observed);
    if roots.Keys != RootsOf(t) {
      return Err(GraphInvalid);
    }
    var s :- CollectSpends(txs, byId, roots, t);
    GraphShape(txs, s, roots, t);
    if s.external != RootsOf(t) {
      return Err(GraphInvalid);
    }
    var acyclic, order := RejectGraphCycles(s.deps);
    if acyclic.Err? || !VerifyFamilyTopology(t.family, s.deps, s.children) {
      return Err(GraphInvalid);
    }
    r := CheckSelected(txs, byId, s, t, order);
  }

  // ----- consequences of acceptance -----

  /** Every declared root is spent by exactly one input of the graph. */
  lemma RootSpentOnce(txs: seq<Tx>, observed: seq<Observed>, t: Terms, o: Outpoint) returns (k: nat)
    requires SpendDag(txs, observed, t) && o in RootsOf(t)
    ensures k < |Inputs(txs)| && Inputs(txs)[k] == o
    ensures forall j :: 0 <= j < |Inputs(txs)| && Inputs(txs)[j] == o ==> j == k
  {
    k := OccursOnce(Inputs(txs), o) by { assert o in External(txs, Inputs(txs)); }
  }

  lemma OccursOnce<T>(s: seq<T>, x: T) returns (k: nat)
    requires NoDup(s) && x in s
    ensures k < |s| && s[k] == x && forall j :: 0 <= j < |s| && s[j] == x ==> j == k
  {
    k :| k < |s| && s[k] == x;
  }

  /** An accepted Bark graph is one chain of transactions. */
  lemma AcceptedBarkGraph(txs: seq<Tx>, observed: seq<Observed>, t: Terms) returns (p: seq<nat>)
    requires SpendDag(txs, observed, t) && SelectedHolds(txs, t) && t.family.Bark?
    ensures IsSinglePath(ParentGraph(txs), ChildGraph(ParentGraph(txs)), p)
  {
    var deps := ParentGraph(txs);
    p := BarkGraphIsSinglePath(deps, ChildGraph(deps), Find(txs, t.selected.txid).value);
  }
}
