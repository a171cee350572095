/** What a prepared package and a restorable state are, spelled out field by field. */
module ArkStateRules {
  import opened ByteStrings
  import opened ArkVerify
  import opened ArkExit
  import opened ArkExitLaws
  import opened ArkText
  import opened ArkExitGraph
  import opened ArkEngine
  import opened ArkRelease

  /** The text of a 32-byte string. */
  ghost predicate IsHash(s: string) { exists h :: |h| == 32 && s == EncodeHex(h) }

  /** The text of an outpoint. */
  ghost predicate IsOutpointText(s: string) {
    exists o: Outpoint :: |o.txid| == 32 && o.index < 0x1_0000_0000 && s == Canonical(o)
  }

  // ----- the package -----

  /** One to eight endpoints, each its own normal form, none twice. */
  ghost predicate Endpoints(env: Env, urls: seq<string>) {
    && 1 <= |urls| <= 8 && NoDup(urls) && forall k :: 0 <= k < |urls| ==> env.url(urls[k]) == Some(urls[k])
  }

  /** The summary text of an exit: identifier, digest and parent in hexadecimal, and its window. */
  ghost predicate Summarizes(t: TextSummary, e: Exit) {
    && t.id == EncodeHex(e.tx.id) && t.digest == EncodeHex(e.digest) && t.earliest == e.earliest && t.latest == e.latest
    && (if e.parent.None? then t.parent == None else t.parent == Some(EncodeHex(e.parent.value)))
  }

  /** A package is verified exactly when contract, digest, order, effect, selected output and operator are those of the
      binding, its endpoints are in order and its exits are accepted. */
  lemma PackageIff(env: Env, pkg: Package, b: Binding, m: Unspent)
    ensures VerifyPackage(env, pkg, b, m).Ok? <==>
            && IsHash(b.orderId) && IsHash(b.effectId) && IsHash(b.exitSha) && b.matches
            && pkg.orderId == b.orderId && pkg.effectId == b.effectId && EncodeHex(env.sha(pkg.canonical)) == b.exitSha
            && pkg.vtxoId == Canonical(b.terms.selected) && pkg.operatorId == EncodeHex(b.operator)
            && Endpoints(env, pkg.urls) && pkg.plan.selected == b.terms.selected && Accepts(pkg.plan, m)
  {
    HashTextIff(b.orderId);
    HashTextIff(b.effectId);
    HashTextIff(b.exitSha);
  }

  /** What is prepared has the digest, order, effect, output and operator of the contract, the endpoints of the package,
      and one summary for each exit. */
  lemma PreparedIs(env: Env, pkg: Package, b: Binding)
    requires Verifies(env, pkg, b)
    ensures var p := PreparedOf(env, pkg, b);
            && p.artifact == b.exitSha == EncodeHex(env.sha(pkg.canonical)) && p.orderId == b.orderId
            && p.effectId == b.effectId && p.vtxoId == Canonical(b.terms.selected)
            && p.operatorId == EncodeHex(b.operator) && p.urls == pkg.urls
            && |p.transactions| == |pkg.plan.exits|
            && forall k :: 0 <= k < |pkg.plan.exits| ==> Summarizes(p.transactions[k], pkg.plan.exits[k])
  {
    VerifiedPackageAgrees(env, pkg, b, UnspentOf(b));
    var states := TraceOf(pkg.plan, UnspentOf(b));
    forall k | 0 <= k < |pkg.plan.exits|
      ensures Summarizes(PreparedOf(env, pkg, b).transactions[k], pkg.plan.exits[k])
    {
      assert Effect(pkg.plan, k, states[k], states[k + 1]);
    }
  }

  /** Persisting keeps every field and adds the reference. */
  lemma PersistKeeps(p: Prepared, artifactRef: string)
    ensures var q := Persist(p, artifactRef);
            && q.artifact == p.artifact && q.artifactRef == artifactRef && q.orderId == p.orderId
            && q.effectId == p.effectId && q.vtxoId == p.vtxoId && q.operatorId == p.operatorId && q.urls == p.urls
            && q.transactions == p.transactions
  {
  }

  // ----- the persisted state -----

  ghost predicate Scheme(s: string, k: nat) {
    k + 2 < |s| && s[k] == ':' && s[k + 1] == '/' && s[k + 2] == '/'
  }

  /** One to 512 letters, digits and "-_.:/", nowhere "://". */
  ghost predicate IsReference(s: string) {
    && 1 <= |s| <= 512
    && (forall k :: 0 <= k < |s| ==> 'a' <= s[k] <= 'z' || 'A' <= s[k] <= 'Z' || '0' <= s[k] <= '9' || s[k] in "-_.:/")
    && (forall k :: 0 <= k < |s| ==> !Scheme(s, k))
  }

  /** One to 64 transactions, each naming the one before it, with a nonempty window. */
  ghost predicate IsExitSequence(t: seq<TextSummary>) {
    && 1 <= |t| <= 64 && t[0].parent == None
    && (forall k :: 0 <= k < |t| ==> IsHash(t[k].id) && IsHash(t[k].digest) && t[k].earliest <= t[k].latest)
    && (forall k :: 0 < k < |t| ==> t[k].parent == Some(t[k - 1].id))
  }

  lemma SchemeIff(s: string, k: nat)
    ensures SchemeAt(s, k) <==> Scheme(s, k)
  {
    if k + 2 < |s| { assert s[k..k + 3] == [s[k], s[k + 1], s[k + 2]]; }
  }

  lemma ReferenceIff(s: string)
    ensures ValidRef(s) <==> IsReference(s)
  {
    forall k | 0 <= k < |s| ensures SchemeAt(s, k) <==> Scheme(s, k) { SchemeIff(s, k); }
  }

  lemma SequenceIff(t: seq<TextSummary>)
    ensures ValidTransactions(t) <==> IsExitSequence(t)
  {
    forall k | 0 <= k < |t|
      ensures (IsLowerHex(t[k].id, 64) <==> IsHash(t[k].id)) && (IsLowerHex(t[k].digest, 64) <==> IsHash(t[k].digest))
    {
      HashTextIff(t[k].id);
      HashTextIff(t[k].digest);
    }
    if IsExitSequence(t) {
      forall k | 0 <= k < |t| ensures t[k].parent == TextParent(t, k) {}
    }
  }

  /** A state is restorable exactly when its hashes, its output, its reference, its exit sequence and its endpoints are
      well formed. */
  lemma PersistedIff(env: Env, p: Persisted)
    ensures ValidPersisted(env, p) <==>
            && IsHash(p.artifact) && IsHash(p.orderId) && IsHash(p.effectId) && IsHash(p.operatorId)
            && IsOutpointText(p.vtxoId) && IsReference(p.artifactRef) && IsExitSequence(p.transactions)
            && Endpoints(env, p.urls)
  {
    HashTextIff(p.artifact);
    HashTextIff(p.orderId);
    HashTextIff(p.effectId);
    HashTextIff(p.operatorId);
    OutpointTextIff(p.vtxoId);
    ReferenceIff(p.artifactRef);
    SequenceIff(p.transactions);
  }

  lemma OutpointTextIff(s: string)
    ensures ParseOutpoint(s).Some? <==> IsOutpointText(s)
  {
    if ParseOutpoint(s).Some? { OutpointIff(s, ParseOutpoint(s).value); }
    if o: Outpoint :| |o.txid| == 32 && o.index < 0x1_0000_0000 && s == Canonical(o) { OutpointIff(s, o); }
  }
}
