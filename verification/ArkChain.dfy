/** What the Bark topology rule buys: together with acyclicity and connectivity it forces a single chain. */
module ArkChain {
  import opened ArkGraph

  datatype Family = Arkade | Bark

  /** The child sets are the parent sets turned around. */
  ghost predicate Transposed(deps: Graph, children: Graph) {
    && |deps| == |children|
    && (forall i, j :: 0 <= i < |deps| && 0 <= j < |deps| ==> (j in deps[i] <==> i in children[j]))
  }

  predicate VerifyFamilyTopology(family: Family, deps: Graph, children: Graph) {
    family.Bark? ==>
      (forall i :: 0 <= i < |deps| ==> |deps[i]| <= 1) && (forall i :: 0 <= i < |children| ==> |children[i]| <= 1)
  }

  /** Consecutive transactions, each the parent of the next. */
  ghost predicate IsChain(deps: Graph, p: seq<nat>) {
    && |p| > 0
    && (forall k :: 0 <= k < |p| ==> p[k] < |deps|)
    && (forall k :: 0 <= k < |p| - 1 ==> p[k] in deps[p[k + 1]])
  }

  ghost function Before(p: seq<nat>, k: nat): (s: set<nat>)
    requires k < |p|
    ensures |s| <= 1
  {
    if k == 0 then {} else {p[k - 1]}
  }

  ghost function After(p: seq<nat>, k: nat): (s: set<nat>)
    requires k < |p|
    ensures |s| <= 1
  {
    if k == |p| - 1 then {} else {p[k + 1]}
  }

  /** The whole graph is one path: every transaction exactly once, each with exactly its predecessor as
      parent and exactly its successor as child. */
  ghost predicate IsSinglePath(deps: Graph, children: Graph, p: seq<nat>) {
    && |p| == |deps| == |children| > 0
    && (forall i :: 0 <= i < |deps| ==> i in p)
    && (forall k :: 0 <= k < |p| ==> p[k] < |deps|)
    && (forall i, j :: 0 <= i < j < |p| ==> p[i] != p[j])
    && (forall k :: 0 <= k < |p| ==> deps[p[k]] == Before(p, k))
    && (forall k :: 0 <= k < |p| ==> children[p[k]] == After(p, k))
  }

  lemma ChainIsDistinct(deps: Graph, p: seq<nat>)
    requires Acyclic(deps) && IsChain(deps, p)
    ensures forall i, j :: 0 <= i < j < |p| ==> p[i] != p[j]
  {
    forall i, j | 0 <= i < j < |p| ensures p[i] != p[j] {
      var q := seq(j - i + 1, k requires 0 <= k <= j - i => p[j - k]);
      assert IsPath(deps, q) by {
        forall k | 0 <= k < |q| - 1 ensures q[k + 1] in deps[q[k]] {
          assert p[j - k - 1] in deps[p[j - k - 1 + 1]];
        }
      }
      assert q[0] == p[j] && q[|q| - 1] == p[i];
    }
  }

  lemma {:induction false} DistinctSize(p: seq<nat>) returns (s: set<nat>)
    requires forall i, j :: 0 <= i < j < |p| ==> p[i] != p[j]
    ensures |s| == |p| && forall x :: x in s <==> x in p
  {
    if p == [] {
      s := {};
    } else {
      var front := p[..|p| - 1];
      var t := DistinctSize(front);
      assert p == front + [p[|p| - 1]];
      s := t + {p[|p| - 1]};
    }
  }

  lemma ChainIsBounded(deps: Graph, p: seq<nat>)
    requires Acyclic(deps) && IsChain(deps, p)
    ensures |p| <= |deps|
  {
    ChainIsDistinct(deps, p);
    var s := DistinctSize(p);
    FullSet(s, |deps|);
  }

  lemma Singleton(s: set<nat>, x: nat)
    requires x in s && |s| <= 1
    ensures s == {x}
  {
    assert s == {x} + (s - {x});
  }

  /** Extends a chain upwards to a transaction without parents. */
  lemma {:induction false} ExtendUp(deps: Graph, p: seq<nat>) returns (q: seq<nat>)
    requires Closed(deps) && Acyclic(deps) && IsChain(deps, p)
    ensures IsChain(deps, q) && deps[q[0]] == {} && q[|q| - 1] == p[|p| - 1]
    decreases |deps| - |p|
  {
    ChainIsBounded(deps, p);
    if deps[p[0]] == {} {
      q := p;
    } else {
      var x :| x in deps[p[0]];
      var longer := [x] + p;
      assert IsChain(deps, longer) by {
        forall k | 0 <= k < |longer| - 1 ensures longer[k] in deps[longer[k + 1]] {
          if k > 0 { assert longer[k] == p[k - 1] && longer[k + 1] == p[k]; }
        }
      }
      ChainIsBounded(deps, longer);
      q := ExtendUp(deps, longer);
    }
  }

  /** Extends a chain downwards to a transaction without children. */
  lemma {:induction false} ExtendDown(deps: Graph, children: Graph, p: seq<nat>) returns (q: seq<nat>)
    requires Closed(children) && Acyclic(deps) && Transposed(deps, children) && IsChain(deps, p)
    ensures IsChain(deps, q) && children[q[|q| - 1]] == {} && q[0] == p[0] && (forall x :: x in p ==> x in q)
    decreases |deps| - |p|
  {
    ChainIsBounded(deps, p);
    var last := p[|p| - 1];
    if children[last] == {} {
      q := p;
    } else {
      var x :| x in children[last];
      var longer := p + [x];
      assert IsChain(deps, longer) by {
        forall k | 0 <= k < |longer| - 1 ensures longer[k] in deps[longer[k + 1]] {
          if k < |p| - 1 { assert longer[k] == p[k] && longer[k + 1] == p[k + 1]; }
        }
      }
      ChainIsBounded(deps, longer);
      q := ExtendDown(deps, children, longer);
    }
  }

  lemma MaximalChainDegrees(deps: Graph, children: Graph, p: seq<nat>)
    requires Transposed(deps, children) && VerifyFamilyTopology(Bark, deps, children)
    requires IsChain(deps, p) && deps[p[0]] == {} && children[p[|p| - 1]] == {}
    ensures forall k :: 0 <= k < |p| ==> deps[p[k]] == Before(p, k)
    ensures forall k :: 0 <= k < |p| ==> children[p[k]] == After(p, k)
  {
    forall k | 0 <= k < |p| ensures deps[p[k]] == Before(p, k) {
      if k > 0 {
        assert p[k - 1] in deps[p[k - 1 + 1]];
        Singleton(deps[p[k]], p[k - 1]);
      }
    }
    forall k | 0 <= k < |p| ensures children[p[k]] == After(p, k) {
      if k < |p| - 1 {
        assert p[k + 1] in children[p[k]];
        Singleton(children[p[k]], p[k + 1]);
      }
    }
  }

  /** A maximal chain is closed under neighbours, so in a connected graph it holds every transaction. */
  lemma ChainCovers(deps: Graph, children: Graph, s: nat, p: seq<nat>)
    requires s in p && AllReachable(deps, children, s) && |deps| == |children|
    requires forall k :: 0 <= k < |p| ==> p[k] < |deps|
    requires forall k :: 0 <= k < |p| ==> deps[p[k]] == Before(p, k)
    requires forall k :: 0 <= k < |p| ==> children[p[k]] == After(p, k)
    ensures forall i :: 0 <= i < |deps| ==> i in p
  {
    var c := set x | x in p;
    forall i, j | i in c && j in Next(deps, children, i) ensures j in c {
      var k :| 0 <= k < |p| && p[k] == i;
      if j in deps[p[k]] { assert j == p[k - 1]; } else { assert j == p[k + 1]; }
    }
    forall i | 0 <= i < |deps| ensures i in p {
      assert Reachable(deps, children, s, i);
      var w :| IsWalk(deps, children, w) && w[0] == s && w[|w| - 1] == i;
      WalkStays(deps, children, c, w);
    }
  }

  /** If the Bark topology, acyclicity and connectivity checks all accept, the transactions form one path. */
  lemma BarkGraphIsSinglePath(deps: Graph, children: Graph, s: nat) returns (p: seq<nat>)
    requires s < |deps| && Closed(deps) && Closed(children) && Transposed(deps, children)
    requires Acyclic(deps) && AllReachable(deps, children, s) && VerifyFamilyTopology(Bark, deps, children)
    ensures IsSinglePath(deps, children, p)
  {
    p := MaximalChain(deps, children, s);
    MaximalChainDegrees(deps, children, p);
    ChainCovers(deps, children, s, p);
    ChainIsDistinct(deps, p);
    DistinctCover(p, |deps|);
  }

  lemma MaximalChain(deps: Graph, children: Graph, s: nat) returns (p: seq<nat>)
    requires s < |deps| && Closed(deps) && Closed(children) && Transposed(deps, children) && Acyclic(deps)
    ensures IsChain(deps, p) && s in p && deps[p[0]] == {} && children[p[|p| - 1]] == {}
  {
    var up := ExtendUp(deps, [s]);
    assert up[|up| - 1] in up;
    p := ExtendDown(deps, children, up);
  }

  lemma DistinctCover(p: seq<nat>, n: nat)
    requires forall i, j :: 0 <= i < j < |p| ==> p[i] != p[j]
    requires forall k :: 0 <= k < |p| ==> p[k] < n
    requires forall i :: 0 <= i < n ==> i in p
    ensures |p| == n
  {
    var c := DistinctSize(p);
    FullSet(c, n);
  }

  /** Conversely, a single path passes all three checks, from whichever transaction the search starts. */
  lemma SinglePathPasses(deps: Graph, children: Graph, p: seq<nat>)
    requires IsSinglePath(deps, children, p)
    ensures Closed(deps) && Closed(children) && Acyclic(deps) && VerifyFamilyTopology(Bark, deps, children)
    ensures forall s :: 0 <= s < |deps| ==> AllReachable(deps, children, s)
  {
    PathIsTopological(deps, children, p);
    TopologicalIsAcyclic(deps, p);
    PathDegrees(deps, children, p);
    PathIsClosed(deps, children, p);
    PathIsWalk(deps, children, p);
    forall s, j | 0 <= s < |deps| && 0 <= j < |deps| ensures Reachable(deps, children, s, j) {
      assert s in p && j in p;
      var a :| 0 <= a < |p| && p[a] == s;
      var b :| 0 <= b < |p| && p[b] == j;
      PathReaches(deps, children, p, a, b);
    }
  }

  lemma PathIsClosed(deps: Graph, children: Graph, p: seq<nat>)
    requires IsSinglePath(deps, children, p)
    ensures Closed(children)
  {
    forall i, j | 0 <= i < |children| && j in children[i] ensures j < |children| {
      assert i in p;
      var k :| 0 <= k < |p| && p[k] == i;
      assert children[p[k]] == After(p, k);
    }
  }

  lemma PathDegrees(deps: Graph, children: Graph, p: seq<nat>)
    requires IsSinglePath(deps, children, p)
    ensures VerifyFamilyTopology(Bark, deps, children)
  {
    forall i | 0 <= i < |deps| ensures |deps[i]| <= 1 && |children[i]| <= 1 {
      assert i in p;
      var k :| 0 <= k < |p| && p[k] == i;
      assert deps[p[k]] == Before(p, k) && children[p[k]] == After(p, k);
    }
  }

  lemma WalkReaches(deps: Graph, children: Graph, w: seq<nat>, a: nat, b: nat)
    requires IsWalk(deps, children, w) && a <= b < |w|
    ensures Reachable(deps, children, w[a], w[b])
  {
    var part := w[a..b + 1];
    forall i | 0 <= i < |part| - 1 ensures part[i + 1] in Next(deps, children, part[i]) {
      assert part[i] == w[a + i] && part[i + 1] == w[a + i + 1];
    }
    assert IsWalk(deps, children, part) && part[0] == w[a] && part[|part| - 1] == w[b];
  }

  ghost function Backwards(p: seq<nat>): (r: seq<nat>)
    ensures |r| == |p| && forall i :: 0 <= i < |p| ==> r[i] == p[|p| - 1 - i]
  {
    seq(|p|, i requires 0 <= i < |p| => p[|p| - 1 - i])
  }

  lemma PathIsWalk(deps: Graph, children: Graph, p: seq<nat>)
    requires IsSinglePath(deps, children, p)
    ensures IsWalk(deps, children, p) && IsWalk(deps, children, Backwards(p))
  {
    forall k | 0 <= k < |p| - 1 ensures p[k + 1] in Next(deps, children, p[k]) { PathNext(deps, children, p, k + 1); }
    var r := Backwards(p);
    forall k | 0 <= k < |r| - 1 ensures r[k + 1] in Next(deps, children, r[k]) {
      PathNext(deps, children, p, |p| - 1 - k);
    }
  }

  /** Up or down the path, every transaction is reached from every other. */
  lemma PathReaches(deps: Graph, children: Graph, p: seq<nat>, a: nat, b: nat)
    requires IsWalk(deps, children, p) && IsWalk(deps, children, Backwards(p)) && a < |p| && b < |p|
    ensures Reachable(deps, children, p[a], p[b])
  {
    if a <= b {
      WalkReaches(deps, children, p, a, b);
    } else {
      WalkReaches(deps, children, Backwards(p), |p| - 1 - a, |p| - 1 - b);
    }
  }

  lemma PathNext(deps: Graph, children: Graph, p: seq<nat>, k: nat)
    requires IsSinglePath(deps, children, p) && 0 < k < |p|
    ensures p[k] in Next(deps, children, p[k - 1]) && p[k - 1] in Next(deps, children, p[k])
  {
    assert children[p[k - 1]] == After(p, k - 1) && deps[p[k]] == Before(p, k);
  }

  lemma PathIsTopological(deps: Graph, children: Graph, p: seq<nat>)
    requires IsSinglePath(deps, children, p)
    ensures Topological(deps, p) && Covers(deps, p)
  {
    forall k | 0 <= k < |p| ensures p[k] !in p[..k] && forall j :: j in deps[p[k]] ==> j in p[..k] {
      forall j | j in deps[p[k]] ensures j in p[..k] {
        assert deps[p[k]] == Before(p, k);
        assert p[..k][k - 1] == j;
      }
    }
  }
}
