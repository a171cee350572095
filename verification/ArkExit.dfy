/** The pre-signed exit sequence: a machine over the set of unspent outputs. */
module ArkExit {
  import opened ByteStrings
  import opened ArkVerify

  const MAX_ARK_EXIT_TRANSACTIONS := 64
  const MAX_ARK_EXIT_BYTES := 262_144
  const MAX_ARK_FEE_CHILDREN := 64
  const U64_LIMIT := 0x1_0000_0000_0000_0000

  type Unspent = map<Outpoint, Output>

  datatype ExitError = ExitUnsafe

  /** One signed exit transaction, decoded; `clean` stands for its hex, secret and scriptSig checks. */
  datatype Exit = Exit(tx: Tx, declaredId: Bytes, parent: Option<Bytes>, earliest: U64, latest: U64, size: nat,
                       digest: Bytes, clean: bool)

  datatype Plan = Plan(
    exits: seq<Exit>,
    feeChildren: seq<Outpoint>,
    selected: Outpoint,
    maximumFee: U64,
    finalScript: Bytes,
    height: U64,
    expiry: Option<U64>,
    signed: (Tx, seq<Output>) -> bool,
    recoveryPath: Tx -> bool)

  datatype Summary = Summary(id: Bytes, digest: Bytes, parent: Option<Bytes>, earliest: U64, latest: U64)

  function SummaryOf(e: Exit): Summary { Summary(e.declaredId, e.digest, e.parent, e.earliest, e.latest) }

  datatype ExitState = ExitState(
    outputs: Unspent, consumed: set<Outpoint>, totalFee: nat, bytes: nat, previous: Option<Bytes>,
    summaries: seq<Summary>)

  datatype InputState = InputState(
    outputs: Unspent, consumed: set<Outpoint>, prevouts: seq<Output>, spendsSelected: bool, spendsParent: bool)

  // ----- value of a set of outputs -----

  /** The value of all outputs in a map. */
  ghost function Total(m: Unspent): nat {
    if m == map[] then 0
    else var o :| o in m; m[o].value + Total(m - {o})
  }

  lemma {:induction false} TotalRemove(m: Unspent, o: Outpoint)
    requires o in m
    ensures Total(m) == m[o].value + Total(m - {o})
    decreases |m|
  {
    var c :| c in m && Total(m) == m[c].value + Total(m - {c});
    if c != o {
      TotalRemove(m - {c}, o);
      TotalRemove(m - {o}, c);
      assert m - {c} - {o} == m - {o} - {c};
    }
  }

  lemma TotalInsert(m: Unspent, o: Outpoint, v: Output)
    ensures Total(m[o := v]) + (if o in m then m[o].value else 0) == Total(m) + v.value
  {
    TotalRemove(m[o := v], o);
    if o in m {
      TotalRemove(m, o);
      assert m[o := v] - {o} == m - {o};
    } else {
      assert m[o := v] - {o} == m;
    }
  }

  function Sum(outs: seq<Output>): nat {
    if outs == [] then 0 else Sum(outs[..|outs| - 1]) + outs[|outs| - 1].value
  }

  /** Checked 64-bit addition over a list: fails exactly when the total does not fit. */
  method CheckedSum(outs: seq<Output>) returns (r: Option<U64>)
    ensures r == if Sum(outs) < U64_LIMIT then Some(Sum(outs)) else None
  {
    var total: nat := 0;
    for i := 0 to |outs|
      invariant total == Sum(outs[..i]) < U64_LIMIT
    {
      assert outs[..i + 1][..i] == outs[..i];
      if total + outs[i].value >= U64_LIMIT {
        SumGrows(outs, i + 1);
        return None;
      }
      total := total + outs[i].value;
    }
    assert outs[..|outs|] == outs;
    return Some(total);
  }

  lemma {:induction false} SumGrows(outs: seq<Output>, k: nat)
    requires k <= |outs|
    ensures Sum(outs[..k]) <= Sum(outs)
    decreases |outs|
  {
    if k == |outs| {
      assert outs[..k] == outs;
    } else {
      SumGrows(outs[..|outs| - 1], k);
      assert outs[..|outs| - 1][..k] == outs[..k];
    }
  }

  // ----- spending the inputs of one exit transaction -----

  function SpendOne(p: Plan, previous: Option<Bytes>, tx: Tx, s: InputState, o: Outpoint): Result<InputState, ExitError>
  {
    var fromParent := previous == Some(o.txid);
    if o == p.selected && !p.recoveryPath(tx) then Err(ExitUnsafe)
    else if o != p.selected && o !in p.feeChildren && !fromParent then Err(ExitUnsafe)
    else if o in p.feeChildren && o in s.consumed then Err(ExitUnsafe)
    else if o !in s.outputs then Err(ExitUnsafe)
    else Ok(InputState(s.outputs - {o},
                       if o in p.feeChildren then s.consumed + {o} else s.consumed,
                       s.prevouts + [s.outputs[o]],
                       s.spendsSelected || o == p.selected,
                       s.spendsParent || fromParent))
  }

  function SpendMany(p: Plan, previous: Option<Bytes>, tx: Tx, s: InputState,
                     ins: seq<Outpoint>): Result<InputState, ExitError>
  {
    if ins == [] then Ok(s)
    else
      var t :- SpendMany(p, previous, tx, s, ins[..|ins| - 1]);
      SpendOne(p, previous, tx, t, ins[|ins| - 1])
  }

  /** What a successful pass over the inputs did. */
  ghost predicate Spent(p: Plan, previous: Option<Bytes>, s: InputState, t: InputState, ins: seq<Outpoint>) {
    SpentOutputs(s, t, ins) && SpentRoles(p, previous, s, t, ins)
  }

  /** Its effect on the unspent outputs: distinct outputs removed, their value collected. */
  ghost predicate SpentOutputs(s: InputState, t: InputState, ins: seq<Outpoint>) {
    && NoDup(ins) && (forall o :: o in ins ==> o in s.outputs)
    && t.outputs == s.outputs - Elems(ins)
    && Total(s.outputs) + Sum(s.prevouts) == Total(t.outputs) + Sum(t.prevouts)
  }

  /** The roles of the inputs: selected output, fee child, or output of the previous exit. */
  ghost predicate SpentRoles(p: Plan, previous: Option<Bytes>, s: InputState, t: InputState, ins: seq<Outpoint>) {
    && (forall o :: o in ins ==> o == p.selected || o in p.feeChildren || previous == Some(o.txid))
    && t.consumed == s.consumed + (set o | o in ins && o in p.feeChildren)
    && (forall o :: o in ins && o in p.feeChildren ==> o !in s.consumed)
    && (t.spendsSelected <==> s.spendsSelected || p.selected in ins)
    && (t.spendsParent <==> s.spendsParent || exists o :: o in ins && previous == Some(o.txid))
  }

  lemma SpentOutputsStep(p: Plan, previous: Option<Bytes>, tx: Tx, s: InputState, t: InputState, ins: seq<Outpoint>,
                         o: Outpoint)
    requires SpentOutputs(s, t, ins) && SpendOne(p, previous, tx, t, o).Ok?
    ensures SpentOutputs(s, SpendOne(p, previous, tx, t, o).value, ins + [o])
  {
    var u, longer := SpendOne(p, previous, tx, t, o).value, ins + [o];
    NoDupSnoc(ins, o);
    TotalRemove(t.outputs, o);
    assert u.prevouts[..|t.prevouts|] == t.prevouts;
    ElemsAppend(ins, [o]);
  }

  lemma SpentRolesStep(p: Plan, previous: Option<Bytes>, tx: Tx, s: InputState, t: InputState, ins: seq<Outpoint>,
                       o: Outpoint)
    requires SpentRoles(p, previous, s, t, ins) && SpendOne(p, previous, tx, t, o).Ok?
    ensures SpentRoles(p, previous, s, SpendOne(p, previous, tx, t, o).value, ins + [o])
  {
    var longer := ins + [o];
    assert forall x :: x in longer <==> x in ins || x == o;
    assert (set x | x in longer && x in p.feeChildren) ==
           (set x | x in ins && x in p.feeChildren) + (if o in p.feeChildren then {o} else {});
    if previous == Some(o.txid) { assert o in longer; }
  }

  lemma {:induction false} SpendManyEffect(p: Plan, previous: Option<Bytes>, tx: Tx, s: InputState, ins: seq<Outpoint>)
    requires SpendMany(p, previous, tx, s, ins).Ok?
    ensures Spent(p, previous, s, SpendMany(p, previous, tx, s, ins).value, ins)
  {
    if ins == [] {
      assert s.outputs == s.outputs - Elems(ins);
      assert s.consumed == s.consumed + (set o | o in ins && o in p.feeChildren);
    } else {
      var front, o := ins[..|ins| - 1], ins[|ins| - 1];
      SpendManyEffect(p, previous, tx, s, front);
      SpentOutputsStep(p, previous, tx, s, SpendMany(p, previous, tx, s, front).value, front, o);
      SpentRolesStep(p, previous, tx, s, SpendMany(p, previous, tx, s, front).value, front, o);
      assert front + [o] == ins;
    }
  }

  // ----- creating its outputs -----

  predicate Creates(tx: Tx, o: Outpoint) { o.txid == tx.id && o.index < |tx.outputs| }

  function InsertOutputs(m: Unspent, tx: Tx, k: nat): Unspent
    requires k <= |tx.outputs|
  {
    if k == 0 then m else InsertOutputs(m, tx, k - 1)[Outpoint(tx.id, k - 1) := tx.outputs[k - 1]]
  }

  /** The value of the entries of `m` that the first `k` outputs overwrite. */
  ghost function Overwritten(m: Unspent, tx: Tx, k: nat): nat
    requires k <= |tx.outputs|
  {
    if k == 0 then 0
    else Overwritten(m, tx, k - 1) + if Outpoint(tx.id, k - 1) in m then m[Outpoint(tx.id, k - 1)].value else 0
  }

  lemma {:induction false} InsertedKeys(m: Unspent, tx: Tx, k: nat, o: Outpoint)
    requires k <= |tx.outputs|
    ensures o in InsertOutputs(m, tx, k) <==> o in m || (o.txid == tx.id && o.index < k)
    ensures o in m && !(o.txid == tx.id && o.index < k) ==> InsertOutputs(m, tx, k)[o] == m[o]
  {
    if k > 0 { InsertedKeys(m, tx, k - 1, o); }
  }

  lemma {:induction false} InsertTotal(m: Unspent, tx: Tx, k: nat)
    requires k <= |tx.outputs|
    ensures Total(InsertOutputs(m, tx, k)) + Overwritten(m, tx, k) == Total(m) + Sum(tx.outputs[..k])
  {
    if k > 0 {
      var o := Outpoint(tx.id, k - 1);
      InsertTotal(m, tx, k - 1);
      InsertedKeys(m, tx, k - 1, o);
      TotalInsert(InsertOutputs(m, tx, k - 1), o, tx.outputs[k - 1]);
      assert tx.outputs[..k][..k - 1] == tx.outputs[..k - 1];
    }
  }

  // ----- one exit transaction -----

  function StartInputs(st: ExitState, i: nat): InputState { InputState(st.outputs, st.consumed, [], false, i == 0) }

  function CountScript(outs: seq<Output>, script: Bytes): nat {
    if outs == [] then 0
    else CountScript(outs[..|outs| - 1], script) + if outs[|outs| - 1].script == script then 1 else 0
  }

  predicate HasWindow(p: Plan, e: Exit) {
    e.earliest <= e.latest && p.height <= e.latest && (p.expiry.Some? ==> e.latest < p.expiry.value)
  }

  /** The checks on an exit before its inputs are looked at. */
  predicate Admits(p: Plan, st: ExitState, e: Exit) {
    && e.parent == st.previous && st.bytes + e.size <= MAX_ARK_EXIT_BYTES && e.clean && e.tx.id == e.declaredId
    && HasWindow(p, e)
  }

  /** What follows once the inputs are spent: roles, signatures, fee, outputs and destination. */
  function Settle(p: Plan, st: ExitState, i: nat, s: InputState): Result<ExitState, ExitError>
    requires i < |p.exits|
  {
    var e := p.exits[i];
    if (i == 0 && !s.spendsSelected) || !s.spendsParent || !p.signed(e.tx, s.prevouts) then Err(ExitUnsafe)
    else if Sum(s.prevouts) >= U64_LIMIT || Sum(e.tx.outputs) >= U64_LIMIT || Sum(s.prevouts) < Sum(e.tx.outputs)
    then Err(ExitUnsafe)
    else
      var fee := st.totalFee + (Sum(s.prevouts) - Sum(e.tx.outputs));
      if fee >= U64_LIMIT || fee > p.maximumFee then Err(ExitUnsafe)
      else if i + 1 == |p.exits| && CountScript(e.tx.outputs, p.finalScript) != 1 then Err(ExitUnsafe)
      else
        Ok(ExitState(InsertOutputs(s.outputs, e.tx, |e.tx.outputs|), s.consumed, fee, st.bytes + e.size,
                     Some(e.declaredId), st.summaries + [SummaryOf(e)]))
  }

  function Step(p: Plan, st: ExitState, i: nat): Result<ExitState, ExitError>
    requires i < |p.exits|
  {
    var e := p.exits[i];
    if !Admits(p, st, e) then Err(ExitUnsafe)
    else
      var s :- SpendMany(p, st.previous, e.tx, StartInputs(st, i), e.tx.inputs);
      Settle(p, st, i, s)
  }

  /** The state after the first `i` exits. */
  function After(p: Plan, st: ExitState, i: nat): Result<ExitState, ExitError>
    requires i <= |p.exits|
  {
    if i == 0 then Ok(st)
    else
      var t :- After(p, st, i - 1);
      Step(p, t, i - 1)
  }

  function Start(m: Unspent): ExitState { ExitState(m, {}, 0, 0, None, []) }

  predicate InBounds(p: Plan) {
    && 0 < |p.exits| <= MAX_ARK_EXIT_TRANSACTIONS && 0 < |p.feeChildren| <= MAX_ARK_FEE_CHILDREN
    && NoRepeats(p.feeChildren) && p.selected !in p.feeChildren
  }

  predicate NoRepeats(s: seq<Outpoint>) { forall i, j :: 0 <= i < j < |s| ==> s[i] != s[j] }

  /** Acceptance of a whole plan from the unspent outputs `m`. */
  predicate Accepts(p: Plan, m: Unspent) {
    && InBounds(p) && After(p, Start(m), |p.exits|).Ok?
    && After(p, Start(m), |p.exits|).value.consumed == Elems(p.feeChildren)
  }
}
