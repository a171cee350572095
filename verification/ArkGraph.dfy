/** The transaction-graph checks: cycle search, connectivity worklist, parent depth and the Bark chain shape.
    A graph is given by the parent sets (`deps`) and the child sets of its transactions, by index. */
module ArkGraph {
  import opened ByteStrings

  type Graph = seq<set<nat>>

  datatype GraphError = Cycle | Index

  /** Every listed neighbour is a transaction of the graph. */
  ghost predicate Closed(g: Graph) {
    forall i, j :: 0 <= i < |g| && j in g[i] ==> j < |g|
  }

  /** A walk from child to parent. */
  ghost predicate IsPath(g: Graph, p: seq<nat>) {
    && |p| > 0
    && (forall k :: 0 <= k < |p| ==> p[k] < |g|)
    && (forall k :: 0 <= k < |p| - 1 ==> p[k + 1] in g[p[k]])
  }

  ghost predicate Acyclic(g: Graph) {
    forall p :: IsPath(g, p) && |p| >= 2 ==> p[0] != p[|p| - 1]
  }

  /** A finishing order: distinct transactions, each after all its parents. */
  ghost predicate Topological(g: Graph, order: seq<nat>) {
    forall k :: 0 <= k < |order| ==>
      order[k] < |g| && order[k] !in order[..k] && forall j :: j in g[order[k]] ==> j in order[..k]
  }

  ghost predicate Covers(g: Graph, order: seq<nat>) {
    forall i :: 0 <= i < |g| ==> i in order
  }

  // ----- cycle search -----

  lemma {:induction false} PathDescends(g: Graph, order: seq<nat>, p: seq<nat>, k: nat)
    requires Topological(g, order) && IsPath(g, p) && |p| >= 2 && k < |order| && order[k] == p[0]
    ensures p[|p| - 1] in order[..k]
    decreases |p|
  {
    var k' :| 0 <= k' < k && order[k'] == p[1];
    if |p| > 2 {
      PathDescends(g, order, p[1..], k');
    }
  }

  lemma TopologicalIsAcyclic(g: Graph, order: seq<nat>)
    requires Topological(g, order) && Covers(g, order)
    ensures Closed(g) && Acyclic(g)
  {
    forall i, j | 0 <= i < |g| && j in g[i] ensures j < |g| {
      assert i in order;
      var k :| 0 <= k < |order| && order[k] == i;
      assert j in order[..k];
    }
    forall p | IsPath(g, p) && |p| >= 2 ensures p[0] != p[|p| - 1] {
      assert p[0] in order;
      var k :| 0 <= k < |order| && order[k] == p[0];
      PathDescends(g, order, p, k);
    }
  }

  /** The recursion stack: a path of transactions under visit, the last one having `index` as a parent. */
  ghost predicate IsStack(g: Graph, stack: seq<nat>, index: nat) {
    && (stack != [] ==> IsPath(g, stack) && index in g[stack[|stack| - 1]])
  }

  lemma StackHitIsCycle(g: Graph, stack: seq<nat>, index: nat)
    requires IsStack(g, stack, index) && index in stack
    ensures !Acyclic(g)
  {
    var k :| 0 <= k < |stack| && stack[k] == index;
    var p := stack[k..] + [index];
    assert IsPath(g, p) && p[0] == p[|p| - 1];
  }

  lemma StackPush(g: Graph, stack: seq<nat>, index: nat, parent: nat)
    requires IsStack(g, stack, index) && index < |g| && parent in g[index]
    ensures IsStack(g, stack + [index], parent)
    ensures forall x :: x in stack + [index] <==> x in stack || x == index
  {
    var longer := stack + [index];
    forall k | 0 <= k < |longer| - 1 ensures longer[k + 1] in g[longer[k]] {
      if k < |stack| - 1 { assert longer[k] == stack[k] && longer[k + 1] == stack[k + 1]; }
    }
  }

  ghost function Range(n: nat): (r: set<nat>)
    ensures |r| == n && forall i :: i in r <==> 0 <= i < n
  {
    if n == 0 then {} else Range(n - 1) + {n - 1}
  }

  lemma TopologicalAppend(g: Graph, order: seq<nat>, i: nat)
    requires Topological(g, order) && i < |g| && i !in order && forall j :: j in g[i] ==> j in order
    ensures Topological(g, order + [i])
  {
    var longer := order + [i];
    forall k | 0 <= k < |longer|
      ensures longer[k] < |g| && longer[k] !in longer[..k] && forall j :: j in g[longer[k]] ==> j in longer[..k]
    {
      if k < |order| {
        assert longer[k] == order[k] && longer[..k] == order[..k];
      } else {
        assert longer[..k] == order;
      }
    }
  }

  method Visit(index: nat, g: Graph, visiting: set<nat>, visited: set<nat>, ghost stack: seq<nat>,
               ghost order: seq<nat>)
    returns (r: Result<(), GraphError>, visiting': set<nat>, visited': set<nat>, ghost order': seq<nat>)
    requires IsStack(g, stack, index) && (forall x :: x in visiting <==> x in stack)
    requires Topological(g, order) && (forall x :: x in visited <==> x in order)
    requires visiting !! visited && visiting <= Range(|g|)
    ensures r.Ok? ==> && visiting' == visiting && visited <= visited' && index in visited' && visiting !! visited'
                      && Topological(g, order') && (forall x :: x in visited' <==> x in order')
    ensures r.Err? && r.error.Cycle? ==> !Acyclic(g)
    ensures r.Err? && r.error.Index? ==> index >= |g| || !Closed(g)
    decreases Range(|g|) - visiting
  {
    visiting', visited', order' := visiting, visited, order;
    if index in visited {
      return Ok(()), visiting', visited', order';
    }
    if index in visiting {
      StackHitIsCycle(g, stack, index);
      return Err(Cycle), visiting', visited', order';
    }
    visiting' := visiting + {index};
    if index >= |g| {
      return Err(Index), visiting', visited', order';
    }
    var parents := g[index];
    while parents != {}
      invariant parents <= g[index]
      invariant visiting' == visiting + {index} && visited <= visited' && visiting' !! visited'
      invariant Topological(g, order') && (forall x :: x in visited' <==> x in order')
      invariant forall j :: j in g[index] && j !in parents ==> j in visited'
      decreases parents
    {
      var parent :| parent in parents;
      StackPush(g, stack, index, parent);
      r, visiting', visited', order' := Visit(parent, g, visiting', visited', stack + [index], order');
      if r.Err? {
        return;
      }
      parents := parents - {parent};
    }
    TopologicalAppend(g, order', index);
    order' := order' + [index];
    visiting' := visiting' - {index};
    visited' := visited' + {index};
    r := Ok(());
  }

  /** The cycle check accepts exactly the closed acyclic graphs, and yields a finishing order. */
  method RejectGraphCycles(g: Graph) returns (r: Result<(), GraphError>, ghost order: seq<nat>)
    ensures r.Ok? <==> Closed(g) && Acyclic(g)
    ensures r.Ok? ==> Topological(g, order) && Covers(g, order)
    ensures r.Err? && r.error.Cycle? ==> !Acyclic(g)
  {
    var visiting, visited: set<nat> := {}, {};
    order := [];
    for index := 0 to |g|
      invariant visiting == {} && Topological(g, order) && (forall x :: x in visited <==> x in order)
      invariant forall i :: 0 <= i < index ==> i in visited
    {
      r, visiting, visited, order := Visit(index, g, visiting, visited, [], order);
      if r.Err? {
        return;
      }
    }
    TopologicalIsAcyclic(g, order);
    r := Ok(());
  }

  // ----- parent depth -----

  /** `d` is the number of transactions on a longest parent path from `i`. */
  ghost predicate IsLongest(g: Graph, i: nat, d: nat) {
    && (exists p :: IsPath(g, p) && p[0] == i && |p| == d)
    && (forall p :: IsPath(g, p) && p[0] == i ==> |p| <= d)
  }

  lemma LongestUnique(g: Graph, i: nat, d: nat, d': nat)
    requires IsLongest(g, i, d) && IsLongest(g, i, d')
    ensures d == d'
  {
  }

  /** Depths of all parents: none is deeper than `m`, and `m` is reached when there is a parent. */
  ghost predicate MaxOver(g: Graph, parents: set<nat>, m: nat) {
    && (forall j :: j in parents ==> exists d: nat :: d <= m && IsLongest(g, j, d))
    && (parents != {} ==> exists j :: j in parents && IsLongest(g, j, m))
    && (parents == {} ==> m == 0)
  }

  lemma LongestStep(g: Graph, i: nat, m: nat)
    requires i < |g| && Closed(g) && MaxOver(g, g[i], m)
    ensures IsLongest(g, i, m + 1)
  {
    if g[i] == {} {
      assert IsPath(g, [i]);
    } else {
      var j :| j in g[i] && IsLongest(g, j, m);
      var q :| IsPath(g, q) && q[0] == j && |q| == m;
      var p := [i] + q;
      assert p[1..] == q;
      assert IsPath(g, p) by {
        forall k | 0 <= k < |p| - 1 ensures p[k + 1] in g[p[k]] { if k > 0 { assert p[k] == q[k - 1]; } }
      }
    }
    forall p | IsPath(g, p) && p[0] == i ensures |p| <= m + 1 {
      if |p| > 1 {
        assert IsPath(g, p[1..]);
        assert p[1] in g[i];
        var d: nat :| d <= m && IsLongest(g, p[1], d);
      }
    }
  }

  lemma MaxOverAdd(g: Graph, parents: set<nat>, m: nat, j: nat, d: nat)
    requires MaxOver(g, parents, m) && IsLongest(g, j, d)
    ensures MaxOver(g, parents + {j}, if m > d then m else d)
  {
    var top := if m > d then m else d;
    forall x | x in parents + {j} ensures exists e: nat :: e <= top && IsLongest(g, x, e) {
      if x in parents {
        var e: nat :| e <= m && IsLongest(g, x, e);
        assert e <= top;
      } else {
        assert d <= top && IsLongest(g, x, d);
      }
    }
    if parents != {} && m > d {
      var x :| x in parents && IsLongest(g, x, m);
      assert x in parents + {j};
    } else {
      assert j in parents + {j};
    }
  }

  ghost function Position(order: seq<nat>, x: nat): (k: nat)
    requires x in order
    ensures k < |order| && order[k] == x && x !in order[..k]
  {
    if order[0] == x then 0
    else assert x in order[1..]; var k := Position(order[1..], x);
         assert order[..k + 1] == [order[0]] + order[1..][..k]; k + 1
  }

  method Depth(index: nat, g: Graph, memo: map<nat, nat>, ghost order: seq<nat>)
    returns (r: Result<nat, GraphError>, memo': map<nat, nat>)
    requires Topological(g, order) && Covers(g, order) && Closed(g)
    requires forall i :: i in memo ==> IsLongest(g, i, memo[i])
    ensures forall i :: i in memo' ==> IsLongest(g, i, memo'[i])
    ensures index < |g| ==> r.Ok? && IsLongest(g, index, r.value)
    ensures index >= |g| ==> r == Err(Index)
    decreases if index < |g| then Position(order, index) + 1 else 0
  {
    memo' := memo;
    if index in memo {
      assert index < |g| by { var p :| IsPath(g, p) && p[0] == index; }
      return Ok(memo[index]), memo';
    }
    if index >= |g| {
      return Err(Index), memo';
    }
    var parents, seen, maximum: nat := g[index], {}, 0;
    while parents != {}
      invariant parents + seen == g[index] && parents !! seen
      invariant forall i :: i in memo' ==> IsLongest(g, i, memo'[i])
      invariant MaxOver(g, seen, maximum)
      decreases parents
    {
      var parent :| parent in parents;
      ParentIsEarlier(g, order, index, parent);
      r, memo' := Depth(parent, g, memo', order);
      MaxOverAdd(g, seen, maximum, parent, r.value);
      maximum := if maximum > r.value then maximum else r.value;
      MoveOne(parents, seen, parent);
      parents, seen := parents - {parent}, seen + {parent};
    }
    LongestStep(g, index, maximum);
    memo' := memo'[index := maximum + 1];
    r := Ok(maximum + 1);
  }

  lemma MoveOne(from: set<nat>, to: set<nat>, x: nat)
    requires x in from && from !! to
    ensures (from - {x}) + (to + {x}) == from + to && from - {x} !! to + {x} && from - {x} < from
  {
  }

  lemma ParentIsEarlier(g: Graph, order: seq<nat>, i: nat, j: nat)
    requires Topological(g, order) && Covers(g, order) && i < |g| && j in g[i] && j < |g|
    ensures Position(order, j) < Position(order, i)
  {
    assert j in order[..Position(order, i)];
  }

  /** On every graph the cycle check accepted, the memoised depth is the longest parent path, never 0. */
  method MaximumParentDepth(index: nat, g: Graph, ghost order: seq<nat>) returns (r: Result<nat, GraphError>)
    requires Topological(g, order) && Covers(g, order) && Closed(g)
    ensures index < |g| ==> r.Ok? && IsLongest(g, index, r.value) && r.value >= 1
    ensures index >= |g| ==> r == Err(Index)
  {
    var memo;
    r, memo := Depth(index, g, map[], order);
    if index < |g| {
      assert IsPath(g, [index]);
    }
  }

  // ----- connectivity -----

  /** Neighbours of a transaction, ignoring the direction of the edge. */
  function Next(deps: Graph, children: Graph, i: nat): set<nat> {
    (if i < |deps| then deps[i] else {}) + (if i < |children| then children[i] else {})
  }

  ghost predicate IsWalk(deps: Graph, children: Graph, p: seq<nat>) {
    |p| > 0 && forall k :: 0 <= k < |p| - 1 ==> p[k + 1] in Next(deps, children, p[k])
  }

  ghost predicate Reachable(deps: Graph, children: Graph, s: nat, j: nat) {
    exists p :: IsWalk(deps, children, p) && p[0] == s && p[|p| - 1] == j
  }

  ghost predicate AllReachable(deps: Graph, children: Graph, s: nat) {
    forall j :: 0 <= j < |deps| ==> Reachable(deps, children, s, j)
  }

  lemma WalkExtends(deps: Graph, children: Graph, s: nat, i: nat, j: nat)
    requires Reachable(deps, children, s, i) && j in Next(deps, children, i)
    ensures Reachable(deps, children, s, j)
  {
    var p :| IsWalk(deps, children, p) && p[0] == s && p[|p| - 1] == i;
    var q := p + [j];
    assert IsWalk(deps, children, q) && q[0] == s && q[|q| - 1] == j;
  }

  /** A set that holds the start and is closed under neighbours holds everything reachable. */
  lemma {:induction false} WalkStays(deps: Graph, children: Graph, c: set<nat>, p: seq<nat>)
    requires IsWalk(deps, children, p) && p[0] in c && forall i, j :: i in c && j in Next(deps, children, i) ==> j in c
    ensures p[|p| - 1] in c
    decreases |p|
  {
    if |p| > 1 {
      WalkStays(deps, children, c, p[1..]);
    }
  }

  method Elements(s: set<nat>) returns (q: seq<nat>)
    ensures forall x :: x in q <==> x in s
  {
    q := [];
    var rest := s;
    while rest != {}
      invariant rest <= s && forall x :: x in q <==> x in s - rest
      decreases rest
    {
      var x :| x in rest;
      q, rest := q + [x], rest - {x};
    }
  }

  /** The worklist answers whether every transaction is reachable ignoring direction; it fails exactly
      when some reachable index is out of range. */
  method GraphIsConnected(selected: nat, deps: Graph, children: Graph) returns (r: Result<bool, GraphError>)
    ensures r.Ok? ==> (r.value <==> |deps| == |children| && AllReachable(deps, children, selected))
    ensures r.Err? <==> exists j: nat :: Reachable(deps, children, selected, j) && (j >= |deps| || j >= |children|)
  {
    var pending := [selected];
    var connected: set<nat> := {};
    assert IsWalk(deps, children, [selected]);
    while pending != []
      invariant selected in connected || selected in pending
      invariant forall i :: i in connected || i in pending ==> Reachable(deps, children, selected, i)
      invariant forall i :: i in connected ==> i < |deps| && i < |children|
      invariant forall i, j :: i in connected && j in Next(deps, children, i) ==> j in connected || j in pending
      decreases Range(|deps|) - connected, |pending|
    {
      var index := pending[|pending| - 1];
      ghost var before := pending;
      pending := pending[..|pending| - 1];
      assert forall x :: x in before <==> x in pending || x == index;
      if index !in connected {
        if index >= |deps| || index >= |children| {
          assert Reachable(deps, children, selected, index);
          return Err(Index);
        }
        connected := connected + {index};
        var parents := Elements(deps[index]);
        var descendants := Elements(children[index]);
        forall j | j in parents || j in descendants ensures Reachable(deps, children, selected, j) {
          WalkExtends(deps, children, selected, index, j);
        }
        pending := pending + parents + descendants;
      }
    }
    ConnectedIsReachable(deps, children, selected, connected);
    r := Ok(|connected| == |deps| && |deps| == |children|);
  }

  lemma ConnectedIsReachable(deps: Graph, children: Graph, s: nat, c: set<nat>)
    requires s in c && forall i, j :: i in c && j in Next(deps, children, i) ==> j in c
    requires forall i :: i in c ==> Reachable(deps, children, s, i) && i < |deps| && i < |children|
    ensures forall j: nat :: Reachable(deps, children, s, j) ==> j < |deps| && j < |children|
    ensures |c| == |deps| <==> AllReachable(deps, children, s)
  {
    forall j: nat | Reachable(deps, children, s, j) ensures j in c {
      var p :| IsWalk(deps, children, p) && p[0] == s && p[|p| - 1] == j;
      WalkStays(deps, children, c, p);
    }
    FullSet(c, |deps|);
  }

  lemma FullSet(c: set<nat>, n: nat)
    requires forall i :: i in c ==> i < n
    ensures |c| <= n
    ensures |c| == n <==> forall j :: 0 <= j < n ==> j in c
  {
    assert c <= Range(n);
    SubsetSize(c, Range(n));
    if forall j :: 0 <= j < n ==> j in c { assert c == Range(n); }
  }

  lemma {:induction false} SubsetSize(a: set<nat>, b: set<nat>)
    requires a <= b
    ensures |a| <= |b| && (|a| == |b| ==> a == b)
  {
    assert b == a + (b - a);
  }
}
