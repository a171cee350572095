/** Release of the persisted exit sequence, one transaction at a time, over whole runs. */
module ArkRelease {
  import opened ByteStrings
  import opened ArkExit
  import opened ArkExitLaws
  import opened ArkExitOrder
  import opened ArkText
  import opened ArkEngine

  datatype Known = Known(id: string, digest: string)

  datatype Request = Request(index: nat, id: string, digest: string, parent: Option<string>, url: string)

  // ----- the transactions the network already has -----

  /** Later entries repeat earlier ones exactly. */
  ghost predicate Consistent(known: seq<Known>) {
    forall i, j :: 0 <= i < j < |known| && known[i].id == known[j].id ==> known[i].digest == known[j].digest
  }

  ghost predicate WellFormed(known: seq<Known>) {
    |known| <= MAX_ARK_EXIT_TRANSACTIONS && Consistent(known) && forall i :: 0 <= i < |known| ==> IsEntry(known[i])
  }

  predicate IsEntry(k: Known) { IsLowerHex(k.id, 64) && IsLowerHex(k.digest, 64) }

  /** The digest recorded for each identifier. */
  ghost function RecordOf(known: seq<Known>): map<string, string> {
    if known == [] then map[]
    else var last := known[|known| - 1]; RecordOf(known[..|known| - 1])[last.id := last.digest]
  }

  ghost predicate Records(known: seq<Known>, m: map<string, string>) {
    && (forall i :: 0 <= i < |known| ==> known[i].id in m && m[known[i].id] == known[i].digest)
    && (forall id :: id in m ==> exists i :: 0 <= i < |known| && known[i].id == id)
  }

  method ValidateKnown(known: seq<Known>) returns (r: Result<map<string, string>, EngineError>)
    ensures r.Ok? <==> WellFormed(known)
    ensures r.Ok? ==> Records(known, r.value) && r.value == RecordOf(known)
  {
    if |known| > MAX_ARK_EXIT_TRANSACTIONS {
      return Err(Unsafe);
    }
    var m: map<string, string> := map[];
    for i := 0 to |known|
      invariant Consistent(known[..i]) && m == RecordOf(known[..i])
      invariant forall k :: 0 <= k < i ==> IsEntry(known[k])
    {
      if !IsEntry(known[i]) {
        return Err(Unsafe);
      }
      RecordStep(known[..i], known[i]);
      ConsistentPrefix(known, i + 1);
      assert known[..i + 1] == known[..i] + [known[i]];
      if known[i].id in m && m[known[i].id] != known[i].digest {
        return Err(Conflict);
      }
      m := m[known[i].id := known[i].digest];
    }
    assert known[..|known|] == known;
    RecordsOf(known);
    return Ok(m);
  }

  /** What a consistent list records is what its entries say. */
  lemma {:induction false} RecordsOf(known: seq<Known>)
    requires Consistent(known)
    ensures Records(known, RecordOf(known))
  {
    if known != [] {
      var front, last := known[..|known| - 1], known[|known| - 1];
      RecordsOf(front);
      forall i | 0 <= i < |known|
        ensures known[i].id in RecordOf(known) && RecordOf(known)[known[i].id] == known[i].digest
      {
        if i < |front| { assert front[i] == known[i]; }
      }
      forall id | id in RecordOf(known) ensures exists i :: 0 <= i < |known| && known[i].id == id {
        if id != last.id {
          var i :| 0 <= i < |front| && front[i].id == id;
          assert known[i].id == id;
        }
      }
    }
  }

  /** The next entry is consistent with the earlier ones exactly when no other digest is recorded for it. */
  lemma RecordStep(front: seq<Known>, x: Known)
    requires Consistent(front)
    ensures Consistent(front + [x]) <==> x.id !in RecordOf(front) || RecordOf(front)[x.id] == x.digest
    ensures RecordOf(front + [x]) == RecordOf(front)[x.id := x.digest]
  {
    RecordsOf(front);
    ConsistentSnoc(front, x, RecordOf(front));
    assert (front + [x])[..|front|] == front;
  }

  lemma ConsistentSnoc(front: seq<Known>, x: Known, m: map<string, string>)
    requires Consistent(front) && Records(front, m)
    ensures Consistent(front + [x]) <==> x.id !in m || m[x.id] == x.digest
  {
    var s := front + [x];
    if x.id in m {
      var j :| 0 <= j < |front| && front[j].id == x.id;
      assert s[j] == front[j] && s[|front|] == x;
    }
  }

  lemma ConsistentPrefix(known: seq<Known>, i: nat)
    requires i <= |known|
    ensures Consistent(known) ==> Consistent(known[..i])
  {
  }

  // ----- one decision -----

  /** The first `k` transactions are known with the digests of the persisted plan. */
  predicate KnownUpTo(t: seq<TextSummary>, m: map<string, string>, k: nat)
    requires k <= |t|
  {
    forall j :: 0 <= j < k ==> t[j].id in m && m[t[j].id] == t[j].digest
  }

  /** The loaded transactions agree with the persisted summaries. */
  predicate Agrees(loaded: seq<TextSummary>, t: seq<TextSummary>, k: nat)
    requires k <= |t| && k <= |loaded|
  {
    forall j :: 0 <= j < k ==>
      loaded[j].id == t[j].id && loaded[j].parent == t[j].parent && loaded[j].digest == t[j].digest
  }

  /** The first transaction from `i` on that is not known with the digest of the persisted plan. */
  function Stop(t: seq<TextSummary>, m: map<string, string>, i: nat): (at: nat)
    requires i <= |t|
    ensures i <= at <= |t| && (forall j :: i <= j < at ==> t[j].id in m && m[t[j].id] == t[j].digest)
    ensures at < |t| ==> t[at].id !in m || m[t[at].id] != t[at].digest
    decreases |t| - i
  {
    if i < |t| && t[i].id in m && m[t[i].id] == t[i].digest then Stop(t, m, i + 1) else i
  }

  lemma StopIs(t: seq<TextSummary>, m: map<string, string>, k: nat)
    requires k <= |t| && KnownUpTo(t, m, k) && (k < |t| ==> t[k].id !in m || m[t[k].id] != t[k].digest)
    ensures Stop(t, m, 0) == k
  {
  }

  /** The answer to a request: about the first transaction not known by matching digest, and no other.  It is a
      conflict when another digest is known, a refusal past its window, nothing before it, and a release inside it. */
  function Answer(t: seq<TextSummary>, m: map<string, string>, height: nat,
                  url: string): Result<Option<Request>, EngineError>
  {
    var at := Stop(t, m, 0);
    if at == |t| then Ok(None)
    else if t[at].id in m then Err(Conflict)
    else if height > t[at].latest then Err(Unsafe)
    else if height < t[at].earliest then Ok(None)
    else Ok(Some(Request(at, t[at].id, t[at].digest, t[at].parent, url)))
  }

  /** Everything before `k` known and `k` not known with its digest: the answer is about `k`. */
  lemma AnswerAt(t: seq<TextSummary>, m: map<string, string>, height: nat, url: string, k: nat)
    requires k < |t| && KnownUpTo(t, m, k) && (t[k].id !in m || m[t[k].id] != t[k].digest)
    ensures Answer(t, m, height, url) ==
            if t[k].id in m then Err(Conflict)
            else if height > t[k].latest then Err(Unsafe)
            else if height < t[k].earliest then Ok(None)
            else Ok(Some(Request(k, t[k].id, t[k].digest, t[k].parent, url)))
  {
    StopIs(t, m, k);
  }

  lemma AnswerDone(t: seq<TextSummary>, m: map<string, string>, height: nat, url: string)
    requires KnownUpTo(t, m, |t|)
    ensures Answer(t, m, height, url) == Ok(None)
  {
    StopIs(t, m, |t|);
  }

  /** The loop over the sequence.  Given a validated parent chain it gives the answer for a faithfully loaded
      package, and either that answer or an error for any other. */
  method Release(loaded: seq<TextSummary>, t: seq<TextSummary>, m: map<string, string>, height: nat, url: string)
    returns (r: Result<Option<Request>, EngineError>)
    requires |loaded| == |t| && ValidTransactions(t)
    ensures Agrees(loaded, t, |t|) ==> r == Answer(t, m, height, url)
    ensures r.Ok? ==> r == Answer(t, m, height, url)
  {
    for index := 0 to |t|
      invariant KnownUpTo(t, m, index)
    {
      if loaded[index].id != t[index].id || loaded[index].parent != t[index].parent ||
         loaded[index].digest != t[index].digest {
        return Err(Unsafe);
      }
      if t[index].id in m && m[t[index].id] == t[index].digest {
        KnownSnoc(t, m, index);
        continue;
      }
      AnswerAt(t, m, height, url, index);
      if t[index].id in m {
        return Err(Conflict);
      }
      // A missing or unknown parent is ruled out by the validated chain.
      ParentIsKnown(t, m, index);
      if index > 0 && (loaded[index].parent.None? || loaded[index].parent.value !in m) {
        assert false;
      }
      if height > t[index].latest {
        return Err(Unsafe);
      }
      if height < t[index].earliest {
        return Ok(None);
      }
      return Ok(Some(Request(index, t[index].id, t[index].digest, t[index].parent, url)));
    }
    StopIs(t, m, |t|);
    return Ok(None);
  }

  lemma KnownSnoc(t: seq<TextSummary>, m: map<string, string>, k: nat)
    requires k < |t| && KnownUpTo(t, m, k) && t[k].id in m && m[t[k].id] == t[k].digest
    ensures KnownUpTo(t, m, k + 1)
  {
  }

  lemma ParentIsKnown(t: seq<TextSummary>, m: map<string, string>, i: nat)
    requires ValidTransactions(t) && i < |t| && KnownUpTo(t, m, i)
    ensures i > 0 ==> t[i].parent == Some(t[i - 1].id) && t[i - 1].id in m
  {
  }

  // ----- the request as a whole -----

  function LoadedTexts(p: Plan): (t: seq<TextSummary>)
    ensures |t| == |p.exits|
  {
    seq(|p.exits|, k requires 0 <= k < |p.exits| => TextOf(SummaryOf(p.exits[k])))
  }

  /** The checks before the loop: the package is the persisted one and the endpoint is one of its endpoints. */
  predicate Reloads(env: Env, p: Persisted, bytes: Bytes, pkg: Package, url: string) {
    && bytes == pkg.canonical && EncodeHex(env.sha(bytes)) == p.artifact
    && pkg.effectId == p.effectId && pkg.orderId == p.orderId && pkg.vtxoId == p.vtxoId
    && |pkg.plan.exits| == |p.transactions|
    && env.url(url).Some? && env.url(url).value in p.urls
  }

  /** A request is made only from a persisted state, for the package with the persisted digest, at a persisted
      endpoint, and then only for the first unknown transaction of the sequence, inside its window.  A package that
      agrees with the persisted sequence always gets the answer. */
  method NextBroadcastRequest(env: Env, persisted: Option<Persisted>, bytes: Bytes, pkg: Package, url: string,
                              height: nat,
                              known: seq<Known>) returns (r: Result<Option<Request>, EngineError>)
    requires persisted.Some? ==> ValidPersisted(env, persisted.value)
    ensures r.Ok? ==> && persisted.Some? && Reloads(env, persisted.value, bytes, pkg, url) && WellFormed(known)
                      && r == Answer(persisted.value.transactions, RecordOf(known), height, env.url(url).value)
    ensures && persisted.Some? && Reloads(env, persisted.value, bytes, pkg, url) && WellFormed(known)
            && Agrees(LoadedTexts(pkg.plan), persisted.value.transactions, |pkg.plan.exits|) ==>
              r == Answer(persisted.value.transactions, RecordOf(known), height, env.url(url).value)
    ensures r.Ok? && r.value.Some? ==>
              var t, i := persisted.value.transactions, r.value.value.index;
              && i < |t| && r.value.value == Request(i, t[i].id, t[i].digest, t[i].parent, env.url(url).value)
              && t[i].earliest <= height <= t[i].latest
              && (forall j :: 0 <= j < i ==> Known(t[j].id, t[j].digest) in known)
              && (forall k :: 0 <= k < |known| ==> known[k].id != t[i].id)
  {
    if persisted.None? {
      return Err(Unsafe);
    }
    var p := persisted.value;
    if bytes != pkg.canonical || EncodeHex(env.sha(bytes)) != p.artifact {
      return Err(Unsafe);
    }
    var loaded := LoadedTexts(pkg.plan);
    if pkg.effectId != p.effectId || pkg.orderId != p.orderId || pkg.vtxoId != p.vtxoId ||
       |loaded| != |p.transactions| {
      return Err(Unsafe);
    }
    var endpoint := env.url(url);
    if endpoint.None? || endpoint.value !in p.urls {
      return Err(Unsafe);
    }
    var m :- ValidateKnown(known);
    r := Release(loaded, p.transactions, m, height, endpoint.value);
    if r.Ok? && r.value.Some? {
      AnswerMeans(p.transactions, known, m, height, endpoint.value, r.value.value);
    }
  }

  /** What a release means for the caller. */
  lemma AnswerMeans(t: seq<TextSummary>, known: seq<Known>, m: map<string, string>, height: nat, url: string,
                    q: Request)
    requires Records(known, m) && Answer(t, m, height, url) == Ok(Some(q))
    ensures q.index < |t|
    ensures var i := q.index;
            && q == Request(i, t[i].id, t[i].digest, t[i].parent, url) && t[i].earliest <= height <= t[i].latest
            && (forall j :: 0 <= j < i ==> Known(t[j].id, t[j].digest) in known)
            && (forall k :: 0 <= k < |known| ==> known[k].id != t[i].id)
  {
    forall j | 0 <= j < q.index ensures Known(t[j].id, t[j].digest) in known {
      assert t[j].id in m;
      var k :| 0 <= k < |known| && known[k].id == t[j].id;
      assert known[k] == Known(t[j].id, t[j].digest);
    }
  }

  /** The package that was verified is, when reloaded, the package that was persisted. */
  lemma VerifiedPackageAgrees(env: Env, pkg: Package, b: Binding, m: Unspent)
    requires VerifyPackage(env, pkg, b, m).Ok?
    ensures LoadedTexts(pkg.plan) == VerifyPackage(env, pkg, b, m).value.transactions
  {
    var states := TraceOf(pkg.plan, m);
    SummaryContents(pkg.plan, m, states, |pkg.plan.exits|);
  }

  /** From verification to broadcast: a verified and persisted package, asked for at one of its endpoints, gets the
      answer; in particular the first unknown transaction is released whenever its window is open. */
  method RequestForVerified(env: Env, pkg: Package, b: Binding, artifactRef: string, url: string, height: nat,
                            known: seq<Known>)
    returns (r: Result<Option<Request>, EngineError>)
    requires env.Valid() && WellTyped(pkg, b) && Verifies(env, pkg, b) && ValidRef(artifactRef) && WellFormed(known)
    requires env.url(url).Some? && env.url(url).value in pkg.urls
    ensures r == Answer(PreparedOf(env, pkg, b).transactions, RecordOf(known), height, env.url(url).value)
  {
    var engine := Engine.Prepare(env, pkg, b);
    var confirmed := engine.value.ConfirmPersistence(env, engine.value.prepared.value.artifact, artifactRef);
    VerifiedPackageAgrees(env, pkg, b, UnspentOf(b));
    r := NextBroadcastRequest(env, engine.value.persisted, pkg.canonical, pkg, url, height, known);
  }

  lemma {:induction false} SummaryContents(p: Plan, m: Unspent, states: seq<ExitState>, i: nat)
    requires IsTrace(p, m, states) && i <= |p.exits|
    ensures |states[i].summaries| == i
    ensures forall k :: 0 <= k < i ==> states[i].summaries[k] == SummaryOf(p.exits[k])
  {
    if i > 0 {
      SummaryContents(p, m, states, i - 1);
      assert Effect(p, i - 1, states[i - 1], states[i - 1 + 1]);
    }
  }

  // ----- whole runs -----

  /** The index an answer releases, if any. */
  function Decide(t: seq<TextSummary>, m: map<string, string>, height: nat): (r: Option<nat>) {
    var answer := Answer(t, m, height, "");
    if answer.Ok? && answer.value.Some? then Some(answer.value.value.index) else None
  }

  /** A transaction is released exactly when it is the first unknown one and its window is open. */
  lemma ReleasedIffFirstUnknown(t: seq<TextSummary>, m: map<string, string>, height: nat, k: nat)
    requires k < |t|
    ensures Decide(t, m, height) == Some(k) <==>
            KnownUpTo(t, m, k) && t[k].id !in m && t[k].earliest <= height <= t[k].latest
  {
    if KnownUpTo(t, m, k) && t[k].id !in m { StopIs(t, m, k); }
  }

  /** One round: decide at a height; a released transaction becomes known; the network may learn more. */
  ghost predicate Round(t: seq<TextSummary>, m: map<string, string>, height: nat, released: Option<nat>,
                        m': map<string, string>)
  {
    && released == Decide(t, m, height)
    && (forall id :: id in m ==> id in m' && m'[id] == m[id])
    && (released.Some? ==> t[released.value].id in m' && m'[t[released.value].id] == t[released.value].digest)
  }

  /** A run of rounds over arbitrary heights. */
  ghost predicate IsRun(t: seq<TextSummary>, heights: seq<nat>, released: seq<Option<nat>>,
                        states: seq<map<string, string>>)
  {
    && |released| == |heights| && |states| == |heights| + 1
    && forall n :: 0 <= n < |heights| ==> Round(t, states[n], heights[n], released[n], states[n + 1])
  }

  lemma {:induction false} KnownGrows(t: seq<TextSummary>, heights: seq<nat>, released: seq<Option<nat>>,
                                      states: seq<map<string, string>>,
                                      a: nat, b: nat, id: string)
    requires IsRun(t, heights, released, states) && a <= b < |states| && id in states[a]
    ensures id in states[b] && states[b][id] == states[a][id]
    decreases b
  {
    if a < b {
      KnownGrows(t, heights, released, states, a, b - 1, id);
      assert Round(t, states[b - 1], heights[b - 1], released[b - 1], states[b - 1 + 1]);
    }
  }

  /** Over every run, whatever the heights and whatever else becomes known: releases come in strictly
      increasing order, so nothing is released twice and no child goes out before its parent. */
  lemma ReleasesInOrder(t: seq<TextSummary>, heights: seq<nat>, released: seq<Option<nat>>,
                        states: seq<map<string, string>>,
                        a: nat, b: nat)
    requires IsRun(t, heights, released, states) && a < b < |heights| && released[a].Some? && released[b].Some?
    ensures released[a].value < released[b].value < |t|
  {
    assert Round(t, states[a], heights[a], released[a], states[a + 1]);
    assert Round(t, states[b], heights[b], released[b], states[b + 1]);
    var i, k := released[a].value, released[b].value;
    KnownGrows(t, heights, released, states, a + 1, b, t[i].id);
    if k < i {
      // `k` was known when `i` was released, and stays known.
      KnownGrows(t, heights, released, states, a, b, t[k].id);
      assert false;
    }
  }

  ghost predicate DistinctText(t: seq<TextSummary>) {
    forall i, j :: 0 <= i < j < |t| ==> t[i].id != t[j].id
  }

  /** A quiet run: nothing but the releases becomes known. */
  ghost predicate IsQuiet(t: seq<TextSummary>, released: seq<Option<nat>>, states: seq<map<string, string>>) {
    && |states| == |released| + 1 && states[0] == map[]
    && forall n :: 0 <= n < |released| && released[n].Some? && released[n].value < |t| ==>
         states[n + 1] == states[n][t[released[n].value].id := t[released[n].value].digest]
  }

  /** When every height falls in the window of the next transaction, a quiet run releases the whole
      sequence in order, one transaction per round. */
  lemma {:induction false} WindowsReleaseAll(t: seq<TextSummary>, heights: seq<nat>, released: seq<Option<nat>>,
                                             states: seq<map<string, string>>, n: nat)
    requires IsRun(t, heights, released, states) && IsQuiet(t, released, states) && DistinctText(t)
    requires n <= |heights| == |t| && forall k :: 0 <= k < |t| ==> t[k].earliest <= heights[k] <= t[k].latest
    ensures forall k :: 0 <= k < n ==> released[k] == Some(k)
    ensures KnownUpTo(t, states[n], n) && forall k :: n <= k < |t| ==> t[k].id !in states[n]
  {
    if n > 0 {
      WindowsReleaseAll(t, heights, released, states, n - 1);
      assert Round(t, states[n - 1], heights[n - 1], released[n - 1], states[n - 1 + 1]);
      ReleasedIffFirstUnknown(t, states[n - 1], heights[n - 1], n - 1);
      assert states[n - 1 + 1] == states[n - 1][t[n - 1].id := t[n - 1].digest];
    }
  }

  /** The identifiers of an accepted plan are distinct, in bytes and in text. */
  lemma AcceptedTextsAreDistinct(p: Plan, m: Unspent, rank: Bytes -> nat)
    requires Accepts(p, m) && Ordered(p, rank)
    ensures DistinctText(LoadedTexts(p))
  {
    var states := TraceOf(p, m);
    forall i, j | 0 <= i < j < |p.exits| ensures LoadedTexts(p)[i].id != LoadedTexts(p)[j].id {
      RankGrows(p, m, states, rank, i, j);
      assert Effect(p, i, states[i], states[i + 1]) && Effect(p, j, states[j], states[j + 1]);
      HexRoundTrip(p.exits[i].declaredId);
      HexRoundTrip(p.exits[j].declaredId);
    }
  }

  /** A verified package is released as a whole: with a height in every window, one transaction per round, in order. */
  lemma VerifiedPackageIsReleased(env: Env, pkg: Package, b: Binding, rank: Bytes -> nat, heights: seq<nat>,
                                  released: seq<Option<nat>>, states: seq<map<string, string>>)
    requires Verifies(env, pkg, b) && Ordered(pkg.plan, rank)
    requires var t := PreparedOf(env, pkg, b).transactions;
             && IsRun(t, heights, released, states) && IsQuiet(t, released, states) && |heights| == |t|
             && forall k :: 0 <= k < |t| ==> t[k].earliest <= heights[k] <= t[k].latest
    ensures |released| == |pkg.plan.exits| && forall k :: 0 <= k < |released| ==> released[k] == Some(k)
  {
    VerifiedPackageAgrees(env, pkg, b, UnspentOf(b));
    AcceptedTextsAreDistinct(pkg.plan, UnspentOf(b), rank);
    WindowsReleaseAll(PreparedOf(env, pkg, b).transactions, heights, released, states, |heights|);
  }
}
