/** Exact conservation of value over an exit plan.  An identifier is a hash over the identifiers it spends, so
    there is an order in which every exit comes after what it spends. */
module ArkExitOrder {
  import opened ByteStrings
  import opened ArkVerify
  import opened ArkExit
  import opened ArkExitLaws

  ghost predicate Ordered(p: Plan, rank: Bytes -> nat) {
    forall i, o :: 0 <= i < |p.exits| && o in p.exits[i].tx.inputs ==> rank(o.txid) < rank(p.exits[i].tx.id)
  }

  /** No exit creates an output that is unspent to begin with and has a value. */
  ghost predicate ReissuesNothing(p: Plan, m: Unspent) {
    forall i, k :: 0 <= i < |p.exits| && 0 <= k < |p.exits[i].tx.outputs| ==> Untouched(m, p.exits[i].tx, k)
  }

  lemma {:induction false} RankGrows(p: Plan, m: Unspent, states: seq<ExitState>, rank: Bytes -> nat, j: nat, i: nat)
    requires IsTrace(p, m, states) && Ordered(p, rank) && j < i < |p.exits|
    ensures rank(p.exits[j].tx.id) < rank(p.exits[i].tx.id)
    decreases i
  {
    assert Effect(p, i - 1, states[i - 1], states[i - 1 + 1]) && Effect(p, i, states[i], states[i + 1]);
    var o :| o in p.exits[i].tx.inputs && states[i].previous == Some(o.txid);
    if j < i - 1 { RankGrows(p, m, states, rank, j, i - 1); }
  }

  lemma EffectKeeps(p: Plan, i: nat, s: ExitState, t: ExitState, o: Outpoint)
    requires i < |p.exits| && Effect(p, i, s, t)
    requires o in s.outputs && o !in p.exits[i].tx.inputs && !Creates(p.exits[i].tx, o)
    ensures o in t.outputs && t.outputs[o] == s.outputs[o]
  {
    var tx := p.exits[i].tx;
    InsertedKeys(Left(s.outputs, tx), tx, |tx.outputs|, o);
  }

  /** An output that carries the identifier of a later exit is left alone until then. */
  lemma {:induction false} KeptUntil(p: Plan, m: Unspent, states: seq<ExitState>, rank: Bytes -> nat, l: nat, i: nat,
                                     o: Outpoint)
    requires IsTrace(p, m, states) && Ordered(p, rank) && l <= i < |p.exits| && o in m && o.txid == p.exits[i].tx.id
    ensures o in states[l].outputs && states[l].outputs[o] == m[o]
  {
    if l > 0 {
      KeptUntil(p, m, states, rank, l - 1, i, o);
      RankGrows(p, m, states, rank, l - 1, i);
      EffectKeeps(p, l - 1, states[l - 1], states[l - 1 + 1], o);
    }
  }

  /** What an exit overwrites is what it reissues of the initial outputs. */
  lemma OverwritesReissued(p: Plan, m: Unspent, states: seq<ExitState>, rank: Bytes -> nat, i: nat, k: nat)
    requires IsTrace(p, m, states) && Ordered(p, rank) && i < |p.exits|
    ensures Untouched(Left(states[i].outputs, p.exits[i].tx), p.exits[i].tx, k) <==> Untouched(m, p.exits[i].tx, k)
  {
    var tx := p.exits[i].tx;
    var o := Outpoint(tx.id, k);
    if o in m {
      KeptUntil(p, m, states, rank, i, i, o);
      assert o in Left(states[i].outputs, tx);
    } else if o in states[i].outputs {
      OriginHolds(p, m, states, i, o);
      var j :| 0 <= j < i && Creates(p.exits[j].tx, o);
      RankGrows(p, m, states, rank, j, i);
      assert false;
    }
  }

  /** Value is conserved, up to the fee, exactly when no exit creates an output that is already unspent and has a value.
      */
  lemma ConservedExactly(p: Plan, m: Unspent, rank: Bytes -> nat)
    requires After(p, Start(m), |p.exits|).Ok? && Ordered(p, rank)
    ensures var t := After(p, Start(m), |p.exits|).value;
            Total(m) == Total(t.outputs) + t.totalFee <==> ReissuesNothing(p, m)
  {
    var states := TraceOf(p, m);
    ConservedIff(p, m, states);
    forall i, k | 0 <= i < |p.exits| && 0 <= k < |p.exits[i].tx.outputs|
      ensures Untouched(Left(states[i].outputs, p.exits[i].tx), p.exits[i].tx, k) <==> Untouched(m, p.exits[i].tx, k)
    {
      OverwritesReissued(p, m, states, rank, i, k);
    }
  }
}
