/** The persisted recovery engine: prepare, confirm, snapshot, restore, and the release of the exit sequence. */
module ArkEngine {
  import opened ByteStrings
  import opened ArkVerify
  import opened ArkExit
  import opened ArkExitLaws
  import opened ArkExitVerify
  import opened ArkExitGraph
  import opened ArkText

  const SNAPSHOT_SCHEMA := "openagents.immortal.ark-client-snapshot.v1"
  const MAX_ARK_ESPLORA_URLS := 8
  const MAX_ARK_ARTIFACT_REF_BYTES := 512

  datatype EngineError = Unusable | NotAuthorized | Unsafe | Conflict | Mismatch | UnresolvedLoss | UnsupportedVersion

  datatype TextSummary = TextSummary(id: string, digest: string, parent: Option<string>, earliest: U64, latest: U64)

  datatype Package = Package(
    canonical: Bytes, orderId: string, effectId: string, vtxoId: string, operatorId: string, urls: seq<string>,
    plan: Plan)

  /** What the package is verified against: contract, operator and graph.  `matches` stands for the remaining
      equalities between the package and its contract. */
  datatype Binding = Binding(
    orderId: string, effectId: string, exitSha: string, operator: Bytes,
    txs: seq<Tx>, observed: seq<Observed>, terms: Terms, matches: bool)

  datatype Prepared = Prepared(
    artifact: string, orderId: string, effectId: string, vtxoId: string, operatorId: string, urls: seq<string>,
    transactions: seq<TextSummary>)

  datatype Persisted = Persisted(
    artifact: string, artifactRef: string, orderId: string, effectId: string, vtxoId: string, operatorId: string,
    urls: seq<string>, transactions: seq<TextSummary>)

  datatype Snapshot = Snapshot(schema: string, persisted: Persisted)

  /** Hash, URL normalisation and the JSON codec. */
  datatype Env = Env(
    sha: Bytes -> Bytes, url: string -> Option<string>, encode: Snapshot -> Bytes, decode: Bytes -> Option<Snapshot>)
  {
    ghost predicate Valid() {
      (forall b :: |sha(b)| == 32) && (forall s :: decode(encode(s)) == Some(s))
    }
  }

  function TextOf(s: Summary): TextSummary {
    TextSummary(EncodeHex(s.id), EncodeHex(s.digest), if s.parent.Some? then Some(EncodeHex(s.parent.value))
                else None, s.earliest, s.latest)
  }

  function TextsOf(s: seq<Summary>): (t: seq<TextSummary>)
    ensures |t| == |s| && forall k :: 0 <= k < |s| ==> t[k] == TextOf(s[k])
  {
    seq(|s|, k requires 0 <= k < |s| => TextOf(s[k]))
  }

  // ----- validity of the recovery state -----

  predicate RefChar(c: char) {
    'a' <= c <= 'z' || 'A' <= c <= 'Z' || '0' <= c <= '9' || c in "-_.:/"
  }

  predicate SchemeAt(s: string, i: nat) { i + 3 <= |s| && s[i..i + 3] == "://" }

  predicate ValidRef(s: string) {
    && 0 < |s| <= MAX_ARK_ARTIFACT_REF_BYTES
    && (forall i :: 0 <= i < |s| ==> !SchemeAt(s, i))
    && (forall i :: 0 <= i < |s| ==> RefChar(s[i]))
  }

  predicate ValidUrls(env: Env, urls: seq<string>) {
    && 0 < |urls| <= MAX_ARK_ESPLORA_URLS
    && (forall i :: 0 <= i < |urls| ==> env.url(urls[i]) == Some(urls[i]))
    && (forall i, j :: 0 <= i < j < |urls| ==> urls[i] != urls[j])
  }

  function TextParent(t: seq<TextSummary>, k: nat): Option<string>
    requires k <= |t|
  {
    if k == 0 then None else Some(t[k - 1].id)
  }

  predicate ValidTransactions(t: seq<TextSummary>) {
    && 0 < |t| <= MAX_ARK_EXIT_TRANSACTIONS
    && forall k :: 0 <= k < |t| ==>
         && IsLowerHex(t[k].id, 64) && IsLowerHex(t[k].digest, 64)
         && t[k].parent == TextParent(t, k) && t[k].earliest <= t[k].latest
  }

  /** Everything `restore` demands of a decoded snapshot. */
  predicate ValidPersisted(env: Env, p: Persisted) {
    && IsLowerHex(p.artifact, 64) && IsLowerHex(p.orderId, 64) && IsLowerHex(p.effectId, 64)
    && IsLowerHex(p.operatorId, 64)
    && ParseOutpoint(p.vtxoId).Some? && ValidRef(p.artifactRef)
    && ValidTransactions(p.transactions) && ValidUrls(env, p.urls)
  }

  // ----- prepare, confirm, snapshot, restore -----

  /** Verification of a package against an accepted graph that leaves `m` unspent. */
  function VerifyPackage(env: Env, pkg: Package, b: Binding, m: Unspent): Result<Prepared, EngineError> {
    var artifact := EncodeHex(env.sha(pkg.canonical));
    if !IsLowerHex(b.orderId, 64) || !IsLowerHex(b.effectId, 64) || !IsLowerHex(b.exitSha, 64) then Err(Unsafe)
    else if pkg.orderId != b.orderId || pkg.effectId != b.effectId || artifact != b.exitSha then Err(Mismatch)
    else if !b.matches || pkg.vtxoId != Canonical(b.terms.selected) || pkg.operatorId != EncodeHex(b.operator)
    then Err(Mismatch)
    else if !ValidUrls(env, pkg.urls) || pkg.plan.selected != b.terms.selected || !Accepts(pkg.plan, m) then Err(Unsafe)
    else
      var summaries := After(pkg.plan, Start(m), |pkg.plan.exits|).value.summaries;
      Ok(Prepared(artifact, pkg.orderId, pkg.effectId, pkg.vtxoId, pkg.operatorId, pkg.urls, TextsOf(summaries)))
  }

  /** What the graph of a binding leaves unspent. */
  ghost function UnspentOf(b: Binding): Unspent { ObservedMapOf(b.observed + Entries(b.txs)) - Elems(Inputs(b.txs)) }

  /** The graph is accepted, and so is the package against what the graph leaves unspent. */
  ghost predicate Verifies(env: Env, pkg: Package, b: Binding) {
    AcceptedGraph(b.txs, b.observed, b.terms, UnspentOf(b)) && VerifyPackage(env, pkg, b, UnspentOf(b)).Ok?
  }

  ghost function PreparedOf(env: Env, pkg: Package, b: Binding): Prepared
    requires Verifies(env, pkg, b)
  {
    VerifyPackage(env, pkg, b, UnspentOf(b)).value
  }

  function Persist(p: Prepared, artifactRef: string): Persisted {
    Persisted(p.artifact, artifactRef, p.orderId, p.effectId, p.vtxoId, p.operatorId, p.urls, p.transactions)
  }

  /** Identifiers and digests are 32-byte hash outputs. */
  ghost predicate WellTyped(pkg: Package, b: Binding) {
    && |b.terms.selected.txid| == 32 && b.terms.selected.index < 0x1_0000_0000 && |b.operator| == 32
    && (forall k :: 0 <= k < |pkg.plan.exits| ==> |pkg.plan.exits[k].tx.id| == 32 && |pkg.plan.exits[k].digest| == 32)
  }

  lemma SequenceAsText(s: seq<Summary>)
    requires IsSequence(s) && 0 < |s| <= MAX_ARK_EXIT_TRANSACTIONS
    requires forall k :: 0 <= k < |s| ==> |s[k].id| == 32 && |s[k].digest| == 32
    ensures ValidTransactions(TextsOf(s))
  {
    var t := TextsOf(s);
    forall k | 0 <= k < |t|
      ensures IsLowerHex(t[k].id, 64) && IsLowerHex(t[k].digest, 64) && t[k].parent == TextParent(t, k) &&
              t[k].earliest <= t[k].latest
    {
      HexRoundTrip(s[k].id);
      HexRoundTrip(s[k].digest);
      assert s[k].parent == ParentAt(s, k);
    }
  }

  /** Exit verification establishes everything the restored state is checked for. */
  lemma PreparedIsPersistable(env: Env, pkg: Package, b: Binding, m: Unspent, artifactRef: string)
    requires env.Valid() && WellTyped(pkg, b) && VerifyPackage(env, pkg, b, m).Ok? && ValidRef(artifactRef)
    ensures ValidPersisted(env, Persist(VerifyPackage(env, pkg, b, m).value, artifactRef))
  {
    HexRoundTrip(env.sha(pkg.canonical));
    HexRoundTrip(b.operator);
    OutpointRoundTrip(b.terms.selected);
    var states := TraceOf(pkg.plan, m);
    SummariesOf(pkg.plan, m, states, |pkg.plan.exits|);
    SequenceAsText(After(pkg.plan, Start(m), |pkg.plan.exits|).value.summaries);
  }

  class Engine {
    var prepared: Option<Prepared>
    var persisted: Option<Persisted>

    /** Whatever is persisted survives a restart, and whatever is prepared will once it is confirmed. */
    ghost predicate Valid(env: Env)
      reads this
    {
      && (persisted.Some? ==> ValidPersisted(env, persisted.value))
      && (prepared.Some? ==> forall r :: ValidRef(r) ==> ValidPersisted(env, Persist(prepared.value, r)))
    }

    constructor (prepared: Option<Prepared>, persisted: Option<Persisted>)
      ensures this.prepared == prepared && this.persisted == persisted
    {
      this.prepared, this.persisted := prepared, persisted;
    }

    /** Verifies the graph, takes what it leaves unspent, and verifies the package and its exits against that. */
    static method Prepare(env: Env, pkg: Package, b: Binding) returns (r: Result<Engine, EngineError>)
      requires env.Valid() && WellTyped(pkg, b)
      ensures r.Ok? <==> Verifies(env, pkg, b)
      ensures r.Ok? ==> fresh(r.value) && r.value.Valid(env) && r.value.persisted == None
                        && r.value.prepared == Some(PreparedOf(env, pkg, b))
    {
      var graph := VerifyArkGraph(b.txs, b.observed, b.terms);
      if graph.Err? {
        return Err(Unsafe);
      }
      // An accepted graph produces no outpoint twice, so collecting its outputs cannot fail.
      AcceptedGraphIsDistinct(b.txs, b.observed, b.terms);
      var unspent := GraphOutputMap(b.observed, b.txs);
      var verified :- VerifyPackage(env, pkg, b, unspent.value);
      var engine := new Engine(Some(verified), None);
      forall ref | ValidRef(ref) ensures ValidPersisted(env, Persist(verified, ref)) {
        PreparedIsPersistable(env, pkg, b, unspent.value, ref);
      }
      return Ok(engine);
    }

    /** Takes the prepared package and, when the receipt matches, turns it into the persisted one. */
    method ConfirmPersistence(env: Env, artifact: string, artifactRef: string) returns (r: Result<(), EngineError>)
      requires Valid(env)
      modifies this
      ensures Valid(env) && prepared == None
      ensures r.Ok? <==> old(prepared).Some? && ValidRef(artifactRef) && artifact == old(prepared).value.artifact
      ensures persisted == if r.Ok? then Some(Persist(old(prepared).value, artifactRef)) else old(persisted)
    {
      var taken := prepared;
      prepared := None;
      if taken.None? || !ValidRef(artifactRef) || artifact != taken.value.artifact {
        return Err(Unusable);
      }
      persisted := Some(Persist(taken.value, artifactRef));
      return Ok(());
    }

    method TakeSnapshot(env: Env) returns (r: Result<Bytes, EngineError>)
      ensures r.Ok? <==> persisted.Some?
      ensures r.Ok? ==> r.value == env.encode(Snapshot(SNAPSHOT_SCHEMA, persisted.value))
    {
      if persisted.None? {
        return Err(Unusable);
      }
      return Ok(env.encode(Snapshot(SNAPSHOT_SCHEMA, persisted.value)));
    }

    static method Restore(env: Env, bytes: Bytes) returns (r: Result<Engine, EngineError>)
      ensures r.Ok? <==> && env.decode(bytes).Some? && env.decode(bytes).value.schema == SNAPSHOT_SCHEMA
                         && ValidPersisted(env, env.decode(bytes).value.persisted)
      ensures r.Ok? ==> fresh(r.value) && r.value.Valid(env) && r.value.prepared == None
                        && r.value.persisted == Some(env.decode(bytes).value.persisted)
    {
      var decoded := env.decode(bytes);
      if decoded.None? {
        return Err(UnresolvedLoss);
      }
      if decoded.value.schema != SNAPSHOT_SCHEMA {
        return Err(UnsupportedVersion);
      }
      if !ValidPersisted(env, decoded.value.persisted) {
        return Err(UnresolvedLoss);
      }
      var engine := new Engine(None, Some(decoded.value.persisted));
      return Ok(engine);
    }
  }

  /** Every engine reached by prepare and a matching confirmation survives a restart unchanged. */
  method RestartSurvives(env: Env, pkg: Package, b: Binding, artifactRef: string)
    returns (before: Engine, after: Engine)
    requires env.Valid() && WellTyped(pkg, b) && Verifies(env, pkg, b) && ValidRef(artifactRef)
    ensures fresh(before) && fresh(after) && before != after
    ensures before.persisted.Some? && after.persisted == before.persisted && after.prepared == before.prepared == None
    ensures before.persisted.value == Persist(PreparedOf(env, pkg, b), artifactRef)
  {
    var engine := Engine.Prepare(env, pkg, b);
    before := engine.value;
    var confirmed := before.ConfirmPersistence(env, before.prepared.value.artifact, artifactRef);
    var bytes := before.TakeSnapshot(env);
    var restored := Engine.Restore(env, bytes.value);
    after := restored.value;
  }
}
